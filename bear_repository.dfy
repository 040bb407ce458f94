/**
 * The bear repository: the writes the queue processor dispatches
 * (`addBear`, `updateBearName`, `updateBearSize`, `deleteBear`), the
 * colour-link writes (`addColorToBear`, `removeBearColor`) and the size
 * query the cache is rebuilt from.
 *
 * Each write is an imperative method on the `Database`; its postcondition
 * ties the new tables to a ghost effect function on `DbState`, and the
 * lemmas after each effect function say what the operation means.
 */
module BearRepository {
  import opened Entities
  import opened Store
  import ColorNames

  // ---------------------------------------------------------------- addBear

  /** `wantedNames.filter((n) => !existingByName.has(n))`, in the order of `wanted`. */
  function MissingNames(colors: map<nat, string>, wanted: seq<string>): (r: seq<string>)
    ensures forall n :: n in r <==> n in wanted && n !in colors.Values
    ensures (forall i, j :: 0 <= i < j < |wanted| ==> wanted[i] != wanted[j]) ==>
              (forall i, j :: 0 <= i < j < |r| ==> r[i] != r[j])
  {
    if wanted == [] then []
    else
      var rest := MissingNames(colors, wanted[1..]);
      assert (forall i, j :: 0 <= i < j < |wanted| ==> wanted[i] != wanted[j]) ==> wanted[0] !in wanted[1..];
      (if wanted[0] in colors.Values then [] else [wanted[0]]) + rest
  }

  /** The bulk insert of `names` into `colors`: each name takes the next SERIAL id, in order. */
  ghost function InsertColors(s: DbState, names: seq<string>): (r: DbState)
    ensures r.bears == s.bears && r.links == s.links && r.nextBearId == s.nextBearId
    ensures r.nextColorId == s.nextColorId + |names|
    ensures forall id :: id in r.colors <==> id in s.colors || s.nextColorId <= id < r.nextColorId
    ensures forall id :: id in s.colors && id < s.nextColorId ==> r.colors[id] == s.colors[id]
    ensures forall k :: 0 <= k < |names| ==> r.colors[s.nextColorId + k] == names[k]
  {
    if names == [] then s
    else InsertColor(InsertColors(s, names[..|names| - 1]), names[|names| - 1])
  }

  /**
   * Inserting names that are pairwise distinct and not yet colour names keeps
   * the store consistent, and afterwards every one of them is a colour name.
   */
  lemma {:induction false} InsertColorsKeepsConsistent(s: DbState, names: seq<string>)
    requires Consistent(s)
    requires forall i, j :: 0 <= i < j < |names| ==> names[i] != names[j]
    requires forall n :: n in names ==> n !in s.colors.Values
    ensures Consistent(InsertColors(s, names))
    ensures forall n :: n in names ==> n in InsertColors(s, names).colors.Values
  {
    if names != [] {
      var prefix := names[..|names| - 1];
      var last := names[|names| - 1];
      InsertColorsKeepsConsistent(s, prefix);
      var t := InsertColors(s, prefix);
      forall id | id in t.colors ensures t.colors[id] != last {
        if id in s.colors {
          assert t.colors[id] == s.colors[id] && s.colors[id] in s.colors.Values;
        } else {
          var k := id - s.nextColorId;
          assert t.colors[id] == prefix[k] == names[k];
        }
      }
      assert last !in t.colors.Values;
      var r := InsertColor(t, last);
      assert r == InsertColors(s, names);
      assert r.colors[t.nextColorId] == last;
    }
  }

  /** The bulk insert keeps every existing colour and adds only names from `names`. */
  lemma InsertColorsColors(s: DbState, names: seq<string>)
    requires Consistent(s)
    ensures var r := InsertColors(s, names);
      && (forall id :: id in s.colors ==> id in r.colors && r.colors[id] == s.colors[id])
      && (forall id :: id in r.colors && id !in s.colors ==> r.colors[id] in names)
  {
    var r := InsertColors(s, names);
    forall id | id in r.colors && id !in s.colors ensures r.colors[id] in names {
      assert r.colors[id] == names[id - s.nextColorId];
    }
  }

  /** The link rows `addBear` inserts: one per stored colour whose name is wanted. */
  function NewLinks(bearId: nat, colors: map<nat, string>, wanted: seq<string>): set<BearColor>
  {
    set id | id in colors && colors[id] in wanted :: BearColor(bearId, id)
  }

  /** `manager.save(Bear, { name, size })`: the row takes the next SERIAL id. */
  ghost function SaveBear(s: DbState, name: string, size: int): DbState
  {
    s.(bears := s.bears[s.nextBearId := BearRow(name, size)], nextBearId := s.nextBearId + 1)
  }

  /** The bulk insert of the link rows of bear `bearId`. */
  ghost function LinkColors(s: DbState, bearId: nat, wanted: seq<string>): DbState
  {
    s.(links := s.links + NewLinks(bearId, s.colors, wanted))
  }

  /**
   * The tables after `addBear` stored a bear and linked it to the colour
   * names `wanted`: the bear row with the next id, the missing wanted
   * colours inserted, and a link from the new bear to every colour whose
   * name is wanted.
   */
  ghost function StoreBear(s: DbState, name: string, size: int, wanted: seq<string>): DbState
  {
    var saved := SaveBear(s, name, size);
    LinkColors(InsertColors(saved, MissingNames(saved.colors, wanted)), s.nextBearId, wanted)
  }

  /** `addBear(name, size, colors)`: the colour list is normalised first (see `ColorNames.NormaliseMembers`). */
  ghost function AddBearEffect(s: DbState, name: string, size: int, colors: seq<string>): DbState
  {
    StoreBear(s, name, size, ColorNames.Normalise(colors))
  }

  method AddBear(db: Database, name: string, size: int, colors: seq<string>) returns (ok: bool)
    requires db.Valid()
    modifies db
    ensures db.Valid()
    ensures db.State() == AddBearEffect(old(db.State()), name, size, colors)
    ensures ok
  {
    ghost var s := db.State();
    StoreBearKeepsConsistent(s, name, size, ColorNames.Normalise(colors));
    // manager.save(Bear, { name, size })
    var bearId := db.nextBearId;
    db.bears := db.bears[bearId := BearRow(name, size)];
    db.nextBearId := bearId + 1;
    ghost var saved := db.State();
    assert saved == SaveBear(s, name, size);
    if |colors| == 0 {
      ColorNames.NormaliseBlank(colors);
      StoreBearWithoutColors(s, name, size);
      return true;
    }
    var wantedNames := ColorNames.Normalise(colors);
    if |wantedNames| == 0 {
      StoreBearWithoutColors(s, name, size);
      return true;
    }
    var missingNames := MissingNames(db.colors, wantedNames);
    InsertColorRows(db, missingNames);
    ghost var withColors := db.State();
    // find(Color, { where: { name: In(wantedNames) } }), then one link row per colour found
    var colorIds := set id | id in db.colors && db.colors[id] in wantedNames;
    db.links := db.links + set id | id in colorIds :: BearColor(bearId, id);
    assert db.State() == LinkColors(withColors, bearId, wantedNames);
    return true;
  }

  /** `insert().into(Color).values(names.map((n) => ({ name: n })))`: one row per name, ids in order. */
  method InsertColorRows(db: Database, names: seq<string>)
    modifies db
    ensures db.State() == InsertColors(old(db.State()), names)
  {
    ghost var s := db.State();
    var i := 0;
    while i < |names|
      invariant 0 <= i <= |names|
      invariant db.State() == InsertColors(s, names[..i])
    {
      db.colors := db.colors[db.nextColorId := names[i]];
      db.nextColorId := db.nextColorId + 1;
      assert names[..i + 1][..i] == names[..i];
      i := i + 1;
    }
    assert names[..i] == names;
  }

  /** With no colour name wanted, `addBear` stores the bear row and nothing else. */
  lemma StoreBearWithoutColors(s: DbState, name: string, size: int)
    ensures StoreBear(s, name, size, []) == SaveBear(s, name, size)
  {
    var saved := SaveBear(s, name, size);
    assert MissingNames(saved.colors, []) == [];
    assert NewLinks(s.nextBearId, saved.colors, []) == {};
  }

  /** `addBear` keeps the store consistent, in particular colour names stay unique. */
  lemma StoreBearKeepsConsistent(s: DbState, name: string, size: int, wanted: seq<string>)
    requires Consistent(s)
    requires forall i, j :: 0 <= i < j < |wanted| ==> wanted[i] != wanted[j]
    ensures Consistent(StoreBear(s, name, size, wanted))
  {
    var saved := SaveBear(s, name, size);
    assert Consistent(saved);
    var missing := MissingNames(saved.colors, wanted);
    InsertColorsKeepsConsistent(saved, missing);
    var withColors := InsertColors(saved, missing);
    assert s.nextBearId in withColors.bears;
  }

  /**
   * After `addBear` every wanted name is a colour; colours that existed keep
   * their id and name; a colour is created only for a wanted name no colour
   * had.
   */
  lemma StoreBearColors(s: DbState, name: string, size: int, wanted: seq<string>)
    requires Consistent(s)
    requires forall i, j :: 0 <= i < j < |wanted| ==> wanted[i] != wanted[j]
    ensures var r := StoreBear(s, name, size, wanted);
      && (forall n :: n in wanted ==> n in r.colors.Values)
      && (forall id :: id in s.colors ==> id in r.colors && r.colors[id] == s.colors[id])
      && (forall id :: id in r.colors && id !in s.colors ==>
            r.colors[id] in wanted && r.colors[id] !in s.colors.Values)
  {
    var saved := SaveBear(s, name, size);
    var missing := MissingNames(saved.colors, wanted);
    InsertColorsKeepsConsistent(saved, missing);
    InsertColorsColors(saved, missing);
    var withColors := InsertColors(saved, missing);
    forall n | n in wanted ensures n in withColors.colors.Values {
      if n in s.colors.Values {
        var id :| id in s.colors && s.colors[id] == n;
        assert withColors.colors[id] == n;
      }
    }
  }

  /**
   * `addBear` adds exactly one bear row, under a fresh id, and links it to
   * exactly the colours whose name is wanted; links of other bears are
   * untouched.
   */
  lemma StoreBearLinks(s: DbState, name: string, size: int, wanted: seq<string>)
    requires Consistent(s)
    ensures var r := StoreBear(s, name, size, wanted);
      var id := s.nextBearId;
      && id !in s.bears
      && r.bears == s.bears[id := BearRow(name, size)]
      && (forall l :: l in r.links <==>
            l in s.links || (l.bearId == id && l.colorId in r.colors && r.colors[l.colorId] in wanted))
  {
    var saved := SaveBear(s, name, size);
    var withColors := InsertColors(saved, MissingNames(saved.colors, wanted));
    assert StoreBear(s, name, size, wanted).links == s.links + NewLinks(s.nextBearId, withColors.colors, wanted);
  }

  /** The new bear gets one link per wanted name, and no two of its links lead to colours of the same name. */
  lemma StoreBearOneLinkPerName(s: DbState, name: string, size: int, wanted: seq<string>)
    requires Consistent(s)
    requires forall i, j :: 0 <= i < j < |wanted| ==> wanted[i] != wanted[j]
    ensures var r := StoreBear(s, name, size, wanted);
      var id := s.nextBearId;
      && (forall n :: n in wanted ==> exists l :: l in r.links && l.bearId == id && r.colors[l.colorId] == n)
      && (forall l1, l2 ::
            (l1 in r.links && l2 in r.links && l1.bearId == id && l2.bearId == id &&
             r.colors[l1.colorId] == r.colors[l2.colorId]) ==> l1 == l2)
  {
    var r := StoreBear(s, name, size, wanted);
    var id := s.nextBearId;
    StoreBearLinks(s, name, size, wanted);
    StoreBearColors(s, name, size, wanted);
    StoreBearKeepsConsistent(s, name, size, wanted);
    assert UniqueNames(r.colors);
    forall n | n in wanted ensures exists l :: l in r.links && l.bearId == id && r.colors[l.colorId] == n {
      var cid :| cid in r.colors && r.colors[cid] == n;
      assert BearColor(id, cid) in r.links;
    }
  }

  // ------------------------------------------------------- the size query

  /**
   * `find({ where: { size: Between(start, end) } })` as written: the query
   * names no relation, so the ORM leaves `bearColors` unset on every row.
   */
  method FindBearBySizeInRange(db: Database, start: int, end: int) returns (bears: seq<Bear>)
    ensures IsListing(bears, db.State(), start, end)
    ensures forall b :: b in bears ==> b.bearColors == None
  {
    bears := [];
    var pending := db.bears.Items;
    while pending != {}
      invariant pending <= db.bears.Items
      invariant DistinctIds(bears)
      invariant forall b :: b in bears ==> IsRowOf(b, db.State()) && start <= b.size <= end && b.bearColors == None
      invariant forall b :: b in bears ==> (b.id, db.bears[b.id]) !in pending
      invariant forall id :: id in db.bears && (id, db.bears[id]) !in pending && start <= db.bears[id].size <= end ==>
                  id in IdsOf(bears)
      decreases pending
    {
      var item :| item in pending;
      var (id, row) := item;
      if start <= row.size <= end {
        var b := Bear(id, row.name, row.size, None);
        assert IdsOf(bears + [b]) == IdsOf(bears) + {id};
        bears := bears + [b];
      }
      pending := pending - {item};
    }
  }

  /** The link rows of one bear, in the order the database returns them. */
  method LoadBearColors(db: Database, bearId: int) returns (links: seq<BearColor>)
    ensures IsLinkListing(links, db.State(), bearId)
  {
    links := [];
    var pending := db.links;
    while pending != {}
      invariant pending <= db.links
      invariant forall i, j :: 0 <= i < j < |links| ==> links[i] != links[j]
      invariant forall l :: l in links ==> l !in pending
      invariant forall l :: l in links <==> l in db.links && l !in pending && l.bearId == bearId
      decreases pending
    {
      var l :| l in pending;
      if l.bearId == bearId {
        links := links + [l];
      }
      pending := pending - {l};
    }
  }

  /**
   * The same query with `relations: ["bearColors"]`, which is what the
   * cache's colour index needs: every row carries its link rows.
   */
  method FindBearBySizeInRangeWithColors(db: Database, start: int, end: int) returns (bears: seq<Bear>)
    ensures IsListing(bears, db.State(), start, end)
    ensures forall b :: b in bears ==> HasLinksLoaded(b, db.State())
  {
    bears := [];
    var pending := db.bears.Items;
    while pending != {}
      invariant pending <= db.bears.Items
      invariant DistinctIds(bears)
      invariant forall b :: b in bears ==> IsRowOf(b, db.State()) && start <= b.size <= end && HasLinksLoaded(b, db.State())
      invariant forall b :: b in bears ==> (b.id, db.bears[b.id]) !in pending
      invariant forall id :: id in db.bears && (id, db.bears[id]) !in pending && start <= db.bears[id].size <= end ==>
                  id in IdsOf(bears)
      decreases pending
    {
      var item :| item in pending;
      var (id, row) := item;
      if start <= row.size <= end {
        var links := LoadBearColors(db, id);
        var b := Bear(id, row.name, row.size, Some(links));
        assert IdsOf(bears + [b]) == IdsOf(bears) + {id};
        bears := bears + [b];
      }
      pending := pending - {item};
    }
  }

  // ------------------------------------------------ updates and deletion

  ghost function UpdateBearSizeEffect(s: DbState, bearId: int, newSize: int): DbState
  {
    if bearId in s.bears then s.(bears := s.bears[bearId := s.bears[bearId].(size := newSize)]) else s
  }

  /** `update({ id }, { size })`: only that bear's size changes; true iff one row was affected. */
  method UpdateBearSize(db: Database, bearId: int, newSize: int) returns (updated: bool)
    requires db.Valid()
    modifies db
    ensures db.Valid()
    ensures db.State() == UpdateBearSizeEffect(old(db.State()), bearId, newSize)
    ensures updated <==> bearId in old(db.bears)
    ensures db.bears.Keys == old(db.bears.Keys) && db.colors == old(db.colors) && db.links == old(db.links)
    ensures bearId in db.bears ==> db.bears[bearId] == BearRow(old(db.bears[bearId].name), newSize)
    ensures forall id :: id in db.bears && id != bearId ==> db.bears[id] == old(db.bears[id])
  {
    if bearId in db.bears {
      db.bears := db.bears[bearId := db.bears[bearId].(size := newSize)];
      return true;
    }
    return false;
  }

  ghost function UpdateBearNameEffect(s: DbState, bearId: int, newName: string): DbState
  {
    if bearId in s.bears then s.(bears := s.bears[bearId := s.bears[bearId].(name := newName)]) else s
  }

  /** `update({ id }, { name })`: only that bear's name changes; true iff one row was affected. */
  method UpdateBearName(db: Database, bearId: int, newName: string) returns (updated: bool)
    requires db.Valid()
    modifies db
    ensures db.Valid()
    ensures db.State() == UpdateBearNameEffect(old(db.State()), bearId, newName)
    ensures updated <==> bearId in old(db.bears)
    ensures db.bears.Keys == old(db.bears.Keys) && db.colors == old(db.colors) && db.links == old(db.links)
    ensures bearId in db.bears ==> db.bears[bearId] == BearRow(newName, old(db.bears[bearId].size))
    ensures forall id :: id in db.bears && id != bearId ==> db.bears[id] == old(db.bears[id])
  {
    if bearId in db.bears {
      db.bears := db.bears[bearId := db.bears[bearId].(name := newName)];
      return true;
    }
    return false;
  }

  /** Deleting a bear row; ON DELETE CASCADE removes its link rows. */
  ghost function DeleteBearEffect(s: DbState, bearId: int): DbState
  {
    s.(bears := s.bears - {bearId}, links := set l | l in s.links && l.bearId != bearId)
  }

  /** `delete(Bear, { id })`: the bear and all its links go; true iff the bear existed. */
  method DeleteBear(db: Database, bearId: int) returns (deleted: bool)
    requires db.Valid()
    modifies db
    ensures db.Valid()
    ensures db.State() == DeleteBearEffect(old(db.State()), bearId)
    ensures deleted <==> bearId in old(db.bears)
    ensures bearId !in db.bears && db.bears == old(db.bears) - {bearId}
    ensures forall l :: l in db.links <==> l in old(db.links) && l.bearId != bearId
    ensures db.colors == old(db.colors)
  {
    deleted := bearId in db.bears;
    db.bears := db.bears - {bearId};
    db.links := set l | l in db.links && l.bearId != bearId;
  }

  // ------------------------------------------------------ colour links

  /**
   * `addColorToBear`: throws when the bear or the colour is missing, returns
   * false when the link is already there, otherwise adds it and returns true.
   */
  method AddColorToBear(db: Database, bearId: int, colorId: int) returns (r: Result<bool>)
    requires db.Valid()
    modifies db
    ensures db.Valid()
    ensures bearId !in old(db.bears) ==> r == Threw("Bear not found")
    ensures bearId in old(db.bears) && colorId !in old(db.colors) ==> r == Threw("Color not found !")
    ensures r.Threw? <==> bearId !in old(db.bears) || colorId !in old(db.colors)
    ensures r == Ok(false) <==> r.Ok? && BearColor(bearId, colorId) in old(db.links)
    ensures r.Ok? ==> db.links == old(db.links) + {BearColor(bearId, colorId)}
    ensures r.Threw? ==> db.links == old(db.links)
    ensures db.bears == old(db.bears) && db.colors == old(db.colors)
    ensures db.nextBearId == old(db.nextBearId) && db.nextColorId == old(db.nextColorId)
  {
    if bearId !in db.bears {
      return Threw("Bear not found");
    }
    if colorId !in db.colors {
      return Threw("Color not found !");
    }
    var link := BearColor(bearId, colorId);
    if link in db.links {
      return Ok(false);
    }
    db.links := db.links + {link};
    return Ok(true);
  }

  /**
   * The criteria handed to `manager.delete(BearColors, criteria)`: the
   * column values themselves, or those values wrapped in a `where`
   * property as find options would take them.
   */
  datatype DeleteCriteria = Columns(bearId: nat, colorId: nat) | WrappedInWhere(bearId: nat, colorId: nat)

  const PropertyNotFound := "Property \"where\" was not found in \"BearColors\". Make sure your query is correct."

  /**
   * `manager.delete(BearColors, criteria)`: every key of the criteria must be
   * a column of `bear_colors`; the result is the number of rows removed.
   */
  function DeleteLinks(s: DbState, criteria: DeleteCriteria): (r: Result<(DbState, nat)>)
    ensures r.Ok? <==> criteria.Columns?
  {
    match criteria
    case WrappedInWhere(_, _) => Threw(PropertyNotFound)
    case Columns(b, c) =>
      var link := BearColor(b, c);
      Ok((s.(links := s.links - {link}), if link in s.links then 1 else 0))
  }

  /** `removeBearColor` as written: the criteria are wrapped in `where`, so the delete is rejected. */
  method RemoveBearColorAsWritten(db: Database, bearId: nat, colorId: nat) returns (r: Result<bool>)
    ensures r == Threw(PropertyNotFound)
  {
    var deleted := DeleteLinks(db.State(), WrappedInWhere(bearId, colorId));
    r := match deleted
      case Threw(message) => Threw(message)
      case Ok((_, affected)) => Ok(affected > 0);
  }

  /** Even for a link that exists, the as-written criteria make `removeBearColor` throw. */
  lemma RemoveBearColorAsWrittenThrows(s: DbState, bearId: nat, colorId: nat)
    requires BearColor(bearId, colorId) in s.links
    ensures DeleteLinks(s, WrappedInWhere(bearId, colorId)).Threw?
    ensures DeleteLinks(s, Columns(bearId, colorId)) == Ok((s.(links := s.links - {BearColor(bearId, colorId)}), 1))
  {
  }

  /** `removeBearColor` with the criteria passed directly: true iff a link row was removed. */
  method RemoveBearColor(db: Database, bearId: nat, colorId: nat) returns (removed: bool)
    requires db.Valid()
    modifies db
    ensures db.Valid()
    ensures removed <==> BearColor(bearId, colorId) in old(db.links)
    ensures db.links == old(db.links) - {BearColor(bearId, colorId)}
    ensures db.bears == old(db.bears) && db.colors == old(db.colors)
    ensures db.nextBearId == old(db.nextBearId) && db.nextColorId == old(db.nextColorId)
  {
    var result := DeleteLinks(db.State(), Columns(bearId, colorId));
    var (after, affected) := result.value;
    db.links := after.links;
    removed := affected > 0;
  }
}
