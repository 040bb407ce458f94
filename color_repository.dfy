/**
 * The colour repository: `addColor` (find-or-insert by exact name),
 * `getColors` (the whole table) and `deleteColor`, which looks the cleaned
 * name up and deletes every bear carrying that colour before the colour.
 */
module ColorRepository {
  import opened Entities
  import opened Store
  import ColorNames

  /** `findOne(Color, { where: { name } })`: the id of the colour called `name`, if any. */
  method FindColorByName(db: Database, name: string) returns (found: Option<nat>)
    ensures found.Some? <==> name in db.colors.Values
    ensures found.Some? ==> found.value in db.colors && db.colors[found.value] == name
  {
    var pending := db.colors.Items;
    while pending != {}
      invariant pending <= db.colors.Items
      invariant forall id :: id in db.colors && db.colors[id] == name ==> (id, name) in pending
      decreases pending
    {
      var item :| item in pending;
      if item.1 == name {
        return Some(item.0);
      }
      pending := pending - {item};
    }
    assert forall id :: id in db.colors ==> db.colors[id] != name;
    return None;
  }

  /** The id of the colour called `n`; unique in a consistent store. */
  ghost function ColorIdOf(colors: map<nat, string>, n: string): (id: nat)
    requires n in colors.Values
    ensures id in colors && colors[id] == n
  {
    var id :| id in colors && colors[id] == n; id
  }

  // --------------------------------------------------------------- addColor

  /** The tables after `addColor(name)`: unchanged if a colour has exactly that name, else one row more. */
  ghost function AddColorEffect(s: DbState, name: string): DbState
  {
    if name in s.colors.Values then s else InsertColor(s, name)
  }

  /**
   * `addColor(name)`: the id of the colour with exactly this name, inserting
   * it first when there is none. The name is stored as given, not cleaned.
   */
  method AddColor(db: Database, name: string) returns (id: nat)
    requires db.Valid()
    modifies db
    ensures db.Valid()
    ensures db.State() == AddColorEffect(old(db.State()), name)
    ensures id in db.colors && db.colors[id] == name
    ensures name in old(db.colors).Values ==> id in old(db.colors)
    ensures name !in old(db.colors).Values ==> id == old(db.nextColorId)
  {
    AddColorKeepsConsistent(db.State(), name);
    var existing := FindColorByName(db, name);
    if existing.Some? {
      return existing.value;
    }
    id := db.nextColorId;
    db.colors := db.colors[id := name];
    db.nextColorId := id + 1;
  }

  /** `addColor` keeps the store consistent; in particular no second colour of the same name appears. */
  lemma AddColorKeepsConsistent(s: DbState, name: string)
    requires Consistent(s)
    ensures Consistent(AddColorEffect(s, name))
  {
    if name !in s.colors.Values {
      assert InsertColor(s, name).colors[s.nextColorId] == name;
    }
  }

  /**
   * `addColor` is idempotent: a second call with the same name inserts
   * nothing and, in a consistent store, answers the same id.
   */
  lemma AddColorIdempotent(s: DbState, name: string)
    requires Consistent(s)
    ensures var once := AddColorEffect(s, name);
      && AddColorEffect(once, name) == once
      && name in once.colors.Values
      && ColorIdOf(once.colors, name) == (if name in s.colors.Values then ColorIdOf(s.colors, name) else s.nextColorId)
  {
    var once := AddColorEffect(s, name);
    AddColorKeepsConsistent(s, name);
    assert once.colors[if name in s.colors.Values then ColorIdOf(s.colors, name) else s.nextColorId] == name;
  }

  // -------------------------------------------------------------- getColors

  /** `find()` on the colour table: every colour once, in the order the database chooses. */
  method GetColors(db: Database) returns (colors: seq<Color>)
    ensures IsColorListing(colors, db.State())
  {
    colors := [];
    var pending := db.colors.Items;
    while pending != {}
      invariant pending <= db.colors.Items
      invariant DistinctColorIds(colors)
      invariant forall c :: c in colors ==> c.id in db.colors && db.colors[c.id] == c.name
      invariant forall c :: c in colors ==> (c.id, c.name) !in pending
      invariant forall id :: id in db.colors && (id, db.colors[id]) !in pending ==> exists c :: c in colors && c.id == id
      decreases pending
    {
      var item :| item in pending;
      var c := Color(item.0, item.1);
      colors := colors + [c];
      pending := pending - {item};
    }
  }

  // ------------------------------------------------------------ deleteColor

  /** The bears linked to colour `colorId`. */
  ghost function BearsWithColor(s: DbState, colorId: nat): set<nat>
  {
    set l | l in s.links && l.colorId == colorId :: l.bearId
  }

  /**
   * The tables after colour `colorId` is deleted: first every bear linked to
   * it (with its links, by cascade), then the colour itself (with its
   * remaining links, by cascade).
   */
  ghost function DeleteColorEffect(s: DbState, colorId: nat): DbState
  {
    var victims := BearsWithColor(s, colorId);
    s.(bears := map id | id in s.bears && id !in victims :: s.bears[id],
       colors := s.colors - {colorId},
       links := set l | l in s.links && l.bearId !in victims && l.colorId != colorId)
  }

  /** `deleteColor(name)`: the lookup uses the cleaned name; an unknown name changes nothing. */
  ghost function DeleteColorByName(s: DbState, name: string): DbState
  {
    var n := ColorNames.Clean(name);
    if n in s.colors.Values then DeleteColorEffect(s, ColorIdOf(s.colors, n)) else s
  }

  /** `find(BearColors, { where: { color_id } })` mapped to the bear ids. */
  method BearIdsWithColor(db: Database, colorId: nat) returns (bearIds: seq<nat>)
    ensures forall id :: id in bearIds <==> id in BearsWithColor(db.State(), colorId)
  {
    bearIds := [];
    var pending := db.links;
    while pending != {}
      invariant pending <= db.links
      invariant forall id :: id in bearIds <==>
        exists l :: l in db.links && l !in pending && l.colorId == colorId && l.bearId == id
      decreases pending
    {
      var l :| l in pending;
      if l.colorId == colorId {
        bearIds := bearIds + [l.bearId];
      }
      pending := pending - {l};
    }
  }

  /**
   * `deleteColor(name)`, one transaction: false and no change when no colour
   * has the cleaned name; otherwise every bear linked to it is deleted, then
   * the colour, and the answer is true.
   */
  method DeleteColor(db: Database, name: string) returns (deleted: bool)
    requires db.Valid()
    modifies db
    ensures db.Valid()
    ensures db.State() == DeleteColorByName(old(db.State()), name)
    ensures deleted <==> ColorNames.Clean(name) in old(db.colors).Values
  {
    ghost var s := db.State();
    var correctName := ColorNames.Clean(name);
    var color := FindColorByName(db, correctName);
    if color.None? {
      return false;
    }
    var colorId := color.value;
    DeleteColorOfName(s, name, colorId);
    DeleteColorRows(db, colorId);
    return true;
  }

  /** In a consistent store the colour `deleteColor` finds is the only one with the cleaned name. */
  lemma DeleteColorOfName(s: DbState, name: string, colorId: nat)
    requires Consistent(s)
    requires colorId in s.colors && s.colors[colorId] == ColorNames.Clean(name)
    ensures DeleteColorByName(s, name) == DeleteColorEffect(s, colorId)
  {
    var n := ColorNames.Clean(name);
    assert n in s.colors.Values by {
      assert s.colors[colorId] in s.colors.Values;
    }
    var k := ColorIdOf(s.colors, n);
    assert k == colorId by {
      assert s.colors[k] == s.colors[colorId];
      assert UniqueNames(s.colors);
    }
  }

  /** The part of `deleteColor` after the lookup: the linked bears, then the colour itself. */
  method DeleteColorRows(db: Database, colorId: nat)
    requires db.Valid()
    modifies db
    ensures db.Valid()
    ensures db.State() == DeleteColorEffect(old(db.State()), colorId)
  {
    ghost var s := db.State();
    DeleteColorKeepsConsistent(s, colorId);
    var bearIds := BearIdsWithColor(db, colorId);
    if |bearIds| > 0 {
      // delete(Bear, { id: In(bearIds) }); ON DELETE CASCADE drops their links
      db.bears := map id | id in db.bears && id !in bearIds :: db.bears[id];
      db.links := set l | l in db.links && l.bearId !in bearIds;
    }
    // delete(Color, { id: colorId }); ON DELETE CASCADE drops its links
    db.colors := db.colors - {colorId};
    db.links := set l | l in db.links && l.colorId != colorId;
    assert db.links == DeleteColorEffect(s, colorId).links;
    assert db.bears == DeleteColorEffect(s, colorId).bears;
  }

  /** Deleting a colour keeps the store consistent: no link is left dangling. */
  lemma DeleteColorKeepsConsistent(s: DbState, colorId: nat)
    requires Consistent(s)
    ensures Consistent(DeleteColorEffect(s, colorId))
  {
  }

  /**
   * The cascade: a bear survives iff it had no link to the colour, even a
   * bear that also carries other colours is deleted; surviving bears and
   * the other colours are unchanged; the links left are those of surviving
   * bears to other colours.
   */
  lemma DeleteColorCascade(s: DbState, colorId: nat)
    requires Consistent(s)
    ensures var r := DeleteColorEffect(s, colorId);
      && colorId !in r.colors
      && (forall c :: c in r.colors <==> c in s.colors && c != colorId)
      && (forall c :: c in r.colors ==> r.colors[c] == s.colors[c])
      && (forall b :: b in r.bears <==> b in s.bears && BearColor(b, colorId) !in s.links)
      && (forall b :: b in r.bears ==> r.bears[b] == s.bears[b])
      && (forall l :: l in r.links <==> l in s.links && l.bearId in r.bears && l.colorId != colorId)
  {
    var r := DeleteColorEffect(s, colorId);
    forall b | b in s.bears ensures b in BearsWithColor(s, colorId) <==> BearColor(b, colorId) in s.links {
      if b in BearsWithColor(s, colorId) {
        var l :| l in s.links && l.colorId == colorId && l.bearId == b;
        assert l == BearColor(b, colorId);
      }
    }
  }

  /**
   * `addColor` stores a name as given while `deleteColor` looks up the
   * cleaned name, so a colour whose name is not clean (" Black", "Red")
   * is never the one `deleteColor` deletes, whatever name it is given.
   */
  lemma UncleanColorNeverDeleted(colorName: string, name: string)
    requires ColorNames.Clean(colorName) != colorName
    ensures ColorNames.Clean(name) != colorName
  {
    ColorNames.CleanIdempotent(name);
  }
}
