/**
 * The relational store behind the repositories: the `bear`, `colors` and
 * `bear_colors` tables with their SERIAL id sequences, as one mutable
 * object, and `DbState`, the value of all its tables at one moment.
 */
module Store {
  import opened Entities

  /** The non-key columns of a `bear` row. */
  datatype BearRow = BearRow(name: string, size: int)

  /**
   * The content of the three tables. `nextBearId` and `nextColorId` are the
   * values the SERIAL sequences hand out next; SERIAL ids are positive, so
   * ids are `nat` throughout.
   */
  datatype DbState = DbState(
    bears: map<nat, BearRow>,
    colors: map<nat, string>,
    links: set<BearColor>,
    nextBearId: nat,
    nextColorId: nat)

  /** A freshly migrated database: empty tables, sequences starting at 1. */
  const EmptyState := DbState(map[], map[], {}, 1, 1)

  /** No two colours share a name. The schema does not enforce it; `addColor` and `addBear` keep it. */
  ghost predicate UniqueNames(colors: map<nat, string>)
  {
    forall i, j :: i in colors && j in colors && colors[i] == colors[j] ==> i == j
  }

  /**
   * What holds of every state the store can be in: ids come from the
   * sequences, every link row points at an existing bear and colour (the
   * foreign keys of `bear_colors`, with ON DELETE CASCADE), colour names are
   * unique.
   */
  ghost predicate Consistent(s: DbState)
  {
    && 1 <= s.nextBearId && 1 <= s.nextColorId
    && (forall id :: id in s.bears ==> 1 <= id < s.nextBearId)
    && (forall id :: id in s.colors ==> 1 <= id < s.nextColorId)
    && (forall l :: l in s.links ==> l.bearId in s.bears && l.colorId in s.colors)
    && UniqueNames(s.colors)
  }

  /** One `INSERT INTO colors`: the name gets the next SERIAL id. */
  function InsertColor(s: DbState, name: string): (r: DbState)
    ensures r.colors.Keys == s.colors.Keys + {s.nextColorId}
  {
    s.(colors := s.colors[s.nextColorId := name], nextColorId := s.nextColorId + 1)
  }

  /** The bear row `b` was read from the store: same id, name and size. */
  ghost predicate IsRowOf(b: Bear, s: DbState)
  {
    b.id in s.bears && b.name == s.bears[b.id].name && b.size == s.bears[b.id].size
  }

  /**
   * `rows` is what `find({ where: { size: Between(lo, hi) } })` can return:
   * each bear whose size lies in [lo, hi] exactly once, in an order the
   * database chooses.
   */
  ghost predicate IsListing(rows: seq<Bear>, s: DbState, lo: int, hi: int)
  {
    && DistinctIds(rows)
    && (forall b :: b in rows ==> IsRowOf(b, s) && lo <= b.size <= hi)
    && (forall id :: id in s.bears && lo <= s.bears[id].size <= hi ==> id in IdsOf(rows))
  }

  /** `links` lists the link rows of bear `bearId`, each once. */
  ghost predicate IsLinkListing(links: seq<BearColor>, s: DbState, bearId: int)
  {
    && (forall i, j :: 0 <= i < j < |links| ==> links[i] != links[j])
    && (forall l :: l in links <==> l in s.links && l.bearId == bearId)
  }

  /** The bear was loaded together with its `bearColors` relation. */
  ghost predicate HasLinksLoaded(b: Bear, s: DbState)
  {
    b.bearColors.Some? && IsLinkListing(b.bearColors.value, s, b.id)
  }

  /** `colors` is what `find()` on the colour table can return: every colour once. */
  ghost predicate IsColorListing(colors: seq<Color>, s: DbState)
  {
    && DistinctColorIds(colors)
    && (forall c :: c in colors ==> c.id in s.colors && s.colors[c.id] == c.name)
    && (forall id :: id in s.colors ==> exists c :: c in colors && c.id == id)
  }

  lemma EmptyStateConsistent()
    ensures Consistent(EmptyState)
  {
  }

  class Database {
    var bears: map<nat, BearRow>
    var colors: map<nat, string>
    var links: set<BearColor>
    var nextBearId: nat
    var nextColorId: nat

    /** The tables as they stand. */
    function State(): DbState
      reads this
    {
      DbState(bears, colors, links, nextBearId, nextColorId)
    }

    ghost predicate Valid()
      reads this
    {
      Consistent(State())
    }

    /** A database right after the migration ran. */
    constructor ()
      ensures Valid() && State() == EmptyState
    {
      bears, colors, links := map[], map[], {};
      nextBearId, nextColorId := 1, 1;
      EmptyStateConsistent();
    }
  }
}
