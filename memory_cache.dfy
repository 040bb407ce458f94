/**
 * The read cache. A rebuild loads the bears of size 0..9999 from the store,
 * sorts them by size in place and derives the id map and the colour index
 * from them, and reads the colour table. Queries read those four
 * structures only.
 */
module Cache {
  import opened Entities
  import opened Store
  import opened SizeOrder
  import opened CacheIndex
  import BearRepository
  import ColorRepository

  /** `rebuildCache` asks the store for the sizes in [0, 9999] only. */
  const MinCachedSize := 0
  const MaxCachedSize := 9999

  /** The value of `getStats()`. */
  datatype Stats = Stats(bears: nat, colors: nat, colorIndexSize: nat)

  /**
   * The structures a rebuild derives from the tables `source`, having
   * loaded the rows `loaded`.
   */
  ghost predicate Derived(loaded: seq<Bear>, source: DbState, sortedBears: seq<Bear>, bearMap: map<nat, Bear>,
                          colorIndex: map<nat, set<nat>>, allColors: seq<Color>)
  {
    && IsListing(loaded, source, MinCachedSize, MaxCachedSize)
    && (forall b :: b in loaded ==> HasLinksLoaded(b, source))
    && sortedBears == InsertionSort(loaded)
    && bearMap == MapOf(sortedBears)
    && colorIndex == IndexOf(sortedBears)
    && IsColorListing(allColors, source)
  }

  class MemoryCache {
    var sortedBears: seq<Bear>
    var bearMap: map<nat, Bear>
    var colorIndex: map<nat, set<nat>>
    var allColors: seq<Color>
    /** The tables as the last rebuild read them. */
    ghost var source: DbState
    /** The bears in the order the last rebuild's query returned them. */
    ghost var loaded: seq<Bear>
    /** How many rebuilds have run. */
    ghost var rebuilds: nat

    /** The four structures are what a rebuild derives from `source`. */
    ghost predicate Valid()
      reads this
    {
      Derived(loaded, source, sortedBears, bearMap, colorIndex, allColors)
    }

    /** The service before `onModuleInit`: empty structures, which describe the empty store. */
    constructor ()
      ensures Valid() && source == EmptyState && rebuilds == 0
    {
      sortedBears, bearMap, colorIndex, allColors := [], map[], map[], [];
      source, loaded, rebuilds := EmptyState, [], 0;
    }

    // ---------------------------------------------------------------- rebuild

    /** `rebuildCache()`: every structure is rebuilt from the tables as they are now. */
    method RebuildCache(db: Database)
      modifies this
      ensures Valid()
      ensures source == db.State()
      ensures rebuilds == old(rebuilds) + 1
    {
      ghost var tables := db.State();
      var bears := BearRepository.FindBearBySizeInRangeWithColors(db, MinCachedSize, MaxCachedSize);
      var a := new Bear[|bears|](i requires 0 <= i < |bears| => bears[i]);
      assert a[..] == bears;
      SortBySize(a);
      var sorted := a[..];
      var m := BuildBearMap(sorted);
      var idx := BuildColorIndex(sorted);
      var colors := ColorRepository.GetColors(db);
      assert Derived(bears, tables, sorted, m, idx, colors);
      Install(bears, tables, sorted, m, idx, colors);
    }

    /** The assignments that end a rebuild: the new structures replace the old ones. */
    method Install(rows: seq<Bear>, ghost tables: DbState, sorted: seq<Bear>, m: map<nat, Bear>,
                   idx: map<nat, set<nat>>, colors: seq<Color>)
      requires Derived(rows, tables, sorted, m, idx, colors)
      modifies this
      ensures Valid()
      ensures source == tables && loaded == rows && rebuilds == old(rebuilds) + 1
    {
      sortedBears, bearMap, colorIndex, allColors := sorted, m, idx, colors;
      source, loaded, rebuilds := tables, rows, rebuilds + 1;
    }

    /**
     * The cached array is sorted by size, a stable permutation of the rows
     * loaded, and itself a listing of the stored bears of size 0..9999, each
     * with its links.
     */
    lemma SortedCache()
      requires Valid()
      ensures SortedBySize(sortedBears)
      ensures multiset(sortedBears) == multiset(loaded)
      ensures SameOrderPerSize(sortedBears, loaded)
      ensures IsListing(sortedBears, source, MinCachedSize, MaxCachedSize)
      ensures forall b :: b in sortedBears ==> HasLinksLoaded(b, source)
    {
      InsertionSortSorted(loaded);
      InsertionSortPermutes(loaded);
      InsertionSortStable(loaded);
      SortedListing(loaded, source, MinCachedSize, MaxCachedSize);
    }

    /** The id map holds exactly the stored bears of size 0..9999, each under its id and as stored. */
    lemma CachedBearsAreStoredBears()
      requires Valid()
      ensures forall id :: id in bearMap <==>
        id in source.bears && MinCachedSize <= source.bears[id].size <= MaxCachedSize
      ensures KeyedById(bearMap)
      ensures forall id :: id in bearMap ==> IsRowOf(bearMap[id], source) && bearMap[id] in sortedBears
    {
      SortedCache();
      MapOfEntries(sortedBears);
    }

    /** The colours of the index are exactly the colours some cached bear is linked to in the store. */
    lemma ColorIndexKeysMatchStore()
      requires Valid()
      ensures forall c :: c in colorIndex <==> exists l :: l in source.links && l.bearId in bearMap && l.colorId == c
    {
      SortedListing(loaded, source, MinCachedSize, MaxCachedSize);
      MapOfEntries(sortedBears);
      IndexKeysMatchLinks(sortedBears, source);
    }

    /** Bear `id` is filed under colour `c` iff the bear is cached and the store links it to `c`. */
    lemma ColorIndexMatchesStore()
      requires Valid()
      ensures forall c: nat, id: nat :: c in colorIndex && id in colorIndex[c] <==> id in bearMap && BearColor(id, c) in source.links
    {
      assert forall b :: b in sortedBears ==> HasLinksLoaded(b, source) by {
        SortedListing(loaded, source, MinCachedSize, MaxCachedSize);
      }
      IndexSetsMatchMap(sortedBears, source);
    }

    // ---------------------------------------------------------------- queries

    /** `binarySearchStart(target)`: the first index whose bear is at least `target` in size. */
    method BinarySearchStart(target: int) returns (left: nat)
      requires SortedBySize(sortedBears)
      ensures left <= |sortedBears|
      ensures forall i :: 0 <= i < left ==> sortedBears[i].size < target
      ensures forall i :: left <= i < |sortedBears| ==> sortedBears[i].size >= target
    {
      left := 0;
      var right := |sortedBears|;
      while left < right
        invariant 0 <= left <= right <= |sortedBears|
        invariant forall i :: 0 <= i < left ==> sortedBears[i].size < target
        invariant forall i :: right <= i < |sortedBears| ==> sortedBears[i].size >= target
      {
        var mid := (left + right) / 2;
        if sortedBears[mid].size < target {
          left := mid + 1;
        } else {
          right := mid;
        }
      }
    }

    /**
     * `getBearBySizeInRange(start, end)`: the cached bears with
     * `start <= size <= end`, in array order; nothing when `start > end`.
     */
    method GetBearBySizeInRange(start: int, end: int) returns (results: seq<Bear>)
      requires SortedBySize(sortedBears)
      ensures results == InRange(sortedBears, start, end)
      ensures start > end ==> results == []
    {
      var bs := sortedBears;
      if start > end {
        InRangeNone(bs, start, end);
      }
      var startIdx := BinarySearchStart(start);
      results := [];
      InRangeNone(bs[..startIdx], start, end);
      var i := startIdx;
      while i < |bs|
        invariant startIdx <= i <= |bs|
        invariant results == InRange(bs[..i], start, end)
      {
        var bear := bs[i];
        if bear.size > end {
          InRangeStopsAt(bs, i, start, end);
          return;
        }
        if bear.size >= start {
          results := results + [bear];
        }
        assert bs[..i + 1][..i] == bs[..i];
        i := i + 1;
      }
      assert bs[..i] == bs;
    }

    /** The range query answers with exactly the stored bears in range, capped to 0..9999. */
    lemma RangeQueryMatchesStore(start: int, end: int)
      requires Valid()
      ensures forall b :: b in InRange(sortedBears, start, end) ==> IsRowOf(b, source)
      ensures forall id :: id in IdsOf(InRange(sortedBears, start, end)) <==>
        id in source.bears && start <= source.bears[id].size <= end &&
        MinCachedSize <= source.bears[id].size <= MaxCachedSize
    {
      SortedCache();
      RangeMatchesListing(sortedBears, source, MinCachedSize, MaxCachedSize, start, end);
    }

    /**
     * `getBearsByColors(colorIds)`: with no colour, the whole sorted array;
     * otherwise each cached bear whose id the index files under one of the
     * colours, once each.
     */
    method GetBearsByColors(colorIds: seq<int>) returns (r: seq<Bear>)
      requires KeyedById(bearMap)
      ensures |colorIds| == 0 ==> r == sortedBears
      ensures |colorIds| > 0 ==> IsSelection(r, bearMap, UnionOf(colorIndex, colorIds))
    {
      if |colorIds| == 0 {
        return sortedBears;
      }
      var bearIds: set<nat> := {};
      var i := 0;
      while i < |colorIds|
        invariant 0 <= i <= |colorIds|
        invariant bearIds == UnionOf(colorIndex, colorIds[..i])
      {
        var colorId := colorIds[i];
        if colorId in colorIndex {
          bearIds := bearIds + colorIndex[colorId];
        }
        assert colorIds[..i + 1][..i] == colorIds[..i];
        i := i + 1;
      }
      assert colorIds[..i] == colorIds;
      // Array.from(bearIds).map((id) => bearMap.get(id)).filter((bear) => bear !== undefined)
      r := [];
      var pending := bearIds;
      while pending != {}
        invariant pending <= bearIds
        invariant DistinctIds(r)
        invariant forall b :: b in r ==> b.id in bearIds && b.id !in pending && b.id in bearMap && bearMap[b.id] == b
        invariant forall id :: id in bearIds && id !in pending && id in bearMap ==> id in IdsOf(r)
        decreases pending
      {
        var id :| id in pending;
        if id in bearMap {
          var b := bearMap[id];
          assert IdsOf(r + [b]) == IdsOf(r) + {id};
          r := r + [b];
        }
        pending := pending - {id};
      }
    }

    /**
     * What the colour query means for the store: a bear id is selected iff
     * the bear is cached and the store links it to one of the colours.
     */
    lemma ColorQueryMatchesStore(colorIds: seq<int>)
      requires Valid()
      ensures forall id :: id in UnionOf(colorIndex, colorIds) <==>
        id in bearMap && exists c: nat :: c in colorIds && BearColor(id, c) in source.links
    {
      SortedCache();
      MapOfEntries(sortedBears);
      UnionMatchesLinks(sortedBears, source, colorIds);
    }

    /**
     * `getBearsByColorsAndSize(colorIds, start, end)`: the colour query's
     * answer filtered to `start <= size <= end`.
     */
    method GetBearsByColorsAndSize(colorIds: seq<int>, start: int, end: int) returns (r: seq<Bear>)
      requires KeyedById(bearMap)
      ensures |colorIds| == 0 ==> r == InRange(sortedBears, start, end)
      ensures |colorIds| > 0 ==>
        IsSelection(r, bearMap, SizeFiltered(UnionOf(colorIndex, colorIds), bearMap, start, end))
    {
      var bears := GetBearsByColors(colorIds);
      r := InRange(bears, start, end);
      if |colorIds| > 0 {
        SelectionInRange(bears, bearMap, UnionOf(colorIndex, colorIds), start, end);
      }
    }

    /** `getAllColors()`: the colour table as the last rebuild read it. */
    function GetAllColors(): (r: seq<Color>)
      reads this
      ensures Valid() ==> IsColorListing(r, source)
    {
      allColors
    }

    /** `getStats()` */
    function GetStats(): (r: Stats)
      reads this
      ensures Valid() ==> r.bears == |set id | id in source.bears && MinCachedSize <= source.bears[id].size <= MaxCachedSize|
      ensures Valid() ==> r.colors == |source.colors|
      ensures Valid() ==> r.colorIndexSize == |set l | l in source.links && l.bearId in IdsOf(sortedBears) :: l.colorId|
    {
      StatsMatchStore();
      Stats(|sortedBears|, |allColors|, |colorIndex|)
    }

    /**
     * The statistics count the cached bears (the stored ones of size
     * 0..9999), the stored colours, and the colours some cached bear carries.
     */
    lemma StatsMatchStore()
      ensures Valid() ==> |sortedBears| == |set id | id in source.bears && MinCachedSize <= source.bears[id].size <= MaxCachedSize|
      ensures Valid() ==> |allColors| == |source.colors|
      ensures Valid() ==> |colorIndex| == |set l | l in source.links && l.bearId in IdsOf(sortedBears) :: l.colorId|
    {
      if Valid() {
        SortedCache();
        ListingCount(sortedBears, source, MinCachedSize, MaxCachedSize);
        ColorListingCount(allColors, source);
        IndexKeysMatchLinks(sortedBears, source);
        assert colorIndex.Keys == set l | l in source.links && l.bearId in IdsOf(sortedBears) :: l.colorId;
      }
    }
  }

  // ------------------------------------------- the two loops of the rebuild

  /** `bearMap.clear(); bears.forEach((bear) => bearMap.set(bear.id, bear))` */
  method BuildBearMap(bears: seq<Bear>) returns (m: map<nat, Bear>)
    ensures m == MapOf(bears)
  {
    m := map[];
    var i := 0;
    while i < |bears|
      invariant 0 <= i <= |bears|
      invariant m == MapOf(bears[..i])
    {
      m := m[bears[i].id := bears[i]];
      assert bears[..i + 1][..i] == bears[..i];
      i := i + 1;
    }
    assert bears[..i] == bears;
  }

  /**
   * `colorIndex.clear()`, then for every bear whose `bearColors` is present
   * and non-empty, its id is added to the set of each linked colour.
   */
  method BuildColorIndex(bears: seq<Bear>) returns (idx: map<nat, set<nat>>)
    ensures idx == IndexOf(bears)
  {
    idx := map[];
    var i := 0;
    while i < |bears|
      invariant 0 <= i <= |bears|
      invariant idx == IndexOf(bears[..i])
    {
      var bear := bears[i];
      ghost var before := idx;
      if bear.bearColors.Some? && |bear.bearColors.value| > 0 {
        var links := bear.bearColors.value;
        var k := 0;
        while k < |links|
          invariant 0 <= k <= |links|
          invariant idx == AddLinks(before, bear.id, links[..k])
        {
          var colorId := links[k].colorId;
          if colorId !in idx {
            idx := idx[colorId := {}];
          }
          idx := idx[colorId := idx[colorId] + {bear.id}];
          assert links[..k + 1][..k] == links[..k];
          k := k + 1;
        }
        assert links[..k] == links;
      }
      assert idx == AddLinks(before, bear.id, LinksOf(bear));
      assert bears[..i + 1][..i] == bears[..i];
      i := i + 1;
    }
    assert bears[..i] == bears;
  }

  // ------------------------------- what the derived structures say, on values

  /** Sorting a listing gives a listing of the same bears. */
  lemma SortedListing(rows: seq<Bear>, s: DbState, lo: int, hi: int)
    requires IsListing(rows, s, lo, hi)
    requires forall b :: b in rows ==> HasLinksLoaded(b, s)
    ensures IsListing(InsertionSort(rows), s, lo, hi)
    ensures forall b :: b in InsertionSort(rows) ==> HasLinksLoaded(b, s)
  {
    InsertionSortMembers(rows);
    InsertionSortKeepsDistinctIds(rows);
  }

  /** A listing has one bear per stored bear in range. */
  lemma ListingCount(rows: seq<Bear>, s: DbState, lo: int, hi: int)
    requires IsListing(rows, s, lo, hi)
    ensures |rows| == |set id | id in s.bears && lo <= s.bears[id].size <= hi|
  {
    DistinctIdsCount(rows);
    assert IdsOf(rows) == set id | id in s.bears && lo <= s.bears[id].size <= hi;
  }

  /** A colour listing has one entry per stored colour. */
  lemma ColorListingCount(cs: seq<Color>, s: DbState)
    requires IsColorListing(cs, s)
    ensures |cs| == |s.colors|
  {
    DistinctColorIdsCount(cs);
    assert (set c | c in cs :: c.id) == s.colors.Keys;
  }

  lemma {:induction false} DistinctColorIdsCount(cs: seq<Color>)
    requires DistinctColorIds(cs)
    ensures |set c | c in cs :: c.id| == |cs|
  {
    if cs != [] {
      var init, last := cs[..|cs| - 1], cs[|cs| - 1];
      assert cs == init + [last];
      DistinctColorIdsCount(init);
      forall c | c in init ensures c.id != last.id {
        var i :| 0 <= i < |init| && init[i] == c;
        assert cs[i] == c;
      }
      assert (set c | c in cs :: c.id) == (set c | c in init :: c.id) + {last.id};
    }
  }

  /** For a bear loaded with its links, `HasColor` is membership of the link in the store. */
  lemma LoadedColors(b: Bear, s: DbState, c: int)
    requires HasLinksLoaded(b, s)
    ensures HasColor(b, c) <==> c >= 0 && BearColor(b.id, c) in s.links
  {
    if c >= 0 && BearColor(b.id, c) in s.links {
      assert BearColor(b.id, c) in b.bearColors.value;
    }
  }

  /** The colours of the index of bears loaded with their links are the colours those bears are linked to. */
  lemma IndexKeysMatchLinks(bs: seq<Bear>, s: DbState)
    requires forall b :: b in bs ==> HasLinksLoaded(b, s)
    ensures forall c :: c in IndexOf(bs) <==> exists l :: l in s.links && l.bearId in IdsOf(bs) && l.colorId == c
  {
    IndexOfEntries(bs);
    forall c ensures UsedColor(bs, c) <==> exists l :: l in s.links && l.bearId in IdsOf(bs) && l.colorId == c {
      if UsedColor(bs, c) {
        var b :| b in bs && HasColor(b, c);
        LoadedColors(b, s, c);
        assert BearColor(b.id, c) in s.links;
      }
      if exists l :: l in s.links && l.bearId in IdsOf(bs) && l.colorId == c {
        var l :| l in s.links && l.bearId in IdsOf(bs) && l.colorId == c;
        var b :| b in bs && b.id == l.bearId;
        LoadedColors(b, s, c);
        assert HasColor(b, c);
      }
    }
  }

  /** The index of bears loaded with their links files a bear under `c` iff the store links them. */
  lemma IndexSetsMatchLinks(bs: seq<Bear>, s: DbState)
    requires forall b :: b in bs ==> HasLinksLoaded(b, s)
    ensures forall c: nat, id: nat :: c in IndexOf(bs) && id in IndexOf(bs)[c] <==> id in IdsOf(bs) && BearColor(id, c) in s.links
  {
    IndexOfEntries(bs);
    forall c: nat, id: nat ensures Indexed(bs, c, id) <==> id in IdsOf(bs) && BearColor(id, c) in s.links {
      if Indexed(bs, c, id) {
        var b :| b in bs && b.id == id && HasColor(b, c);
        LoadedColors(b, s, c);
      }
      if id in IdsOf(bs) && BearColor(id, c) in s.links {
        var b :| b in bs && b.id == id;
        LoadedColors(b, s, c);
      }
    }
  }

  /** `IndexSetsMatchLinks`, with the bears' ids read off their id map. */
  lemma IndexSetsMatchMap(bs: seq<Bear>, s: DbState)
    requires forall b :: b in bs ==> HasLinksLoaded(b, s)
    ensures forall c: nat, id: nat :: c in IndexOf(bs) && id in IndexOf(bs)[c] <==> id in MapOf(bs) && BearColor(id, c) in s.links
  {
    MapOfEntries(bs);
    IndexSetsMatchLinks(bs, s);
  }

  /** The colour query over such an index selects the bears linked to one of the colours. */
  lemma UnionMatchesLinks(bs: seq<Bear>, s: DbState, colorIds: seq<int>)
    requires forall b :: b in bs ==> HasLinksLoaded(b, s)
    ensures forall id :: id in UnionOf(IndexOf(bs), colorIds) <==>
      id in IdsOf(bs) && exists c: nat :: c in colorIds && BearColor(id, c) in s.links
  {
    var idx := IndexOf(bs);
    IndexSetsMatchLinks(bs, s);
    UnionOfMembers(idx, colorIds);
    forall id ensures id in UnionOf(idx, colorIds) <==>
      id in IdsOf(bs) && exists c: nat :: c in colorIds && BearColor(id, c) in s.links
    {
      if id in UnionOf(idx, colorIds) {
        var c :| c in colorIds && c in idx && id in idx[c];
        assert BearColor(id, c) in s.links;
      }
      if id in IdsOf(bs) && exists c: nat :: c in colorIds && BearColor(id, c) in s.links {
        var c: nat :| c in colorIds && BearColor(id, c) in s.links;
        assert c in idx && id in idx[c];
      }
    }
  }

  /** The range filter over a listing selects the stored bears in both ranges. */
  lemma RangeMatchesListing(bs: seq<Bear>, s: DbState, lo: int, hi: int, start: int, end: int)
    requires IsListing(bs, s, lo, hi)
    ensures forall b :: b in InRange(bs, start, end) ==> IsRowOf(b, s)
    ensures forall id :: id in IdsOf(InRange(bs, start, end)) <==>
      id in s.bears && start <= s.bears[id].size <= end && lo <= s.bears[id].size <= hi
  {
    InRangeMembers(bs, start, end);
    forall id | id in s.bears && start <= s.bears[id].size <= end && lo <= s.bears[id].size <= hi
      ensures id in IdsOf(InRange(bs, start, end))
    {
      var b :| b in bs && b.id == id;
      assert b in InRange(bs, start, end);
    }
  }

  /** In a size-sorted array, nothing from the first bear above `hi` on is in range. */
  lemma InRangeStopsAt(bs: seq<Bear>, i: nat, lo: int, hi: int)
    requires SortedBySize(bs)
    requires i < |bs| && bs[i].size > hi
    ensures InRange(bs, lo, hi) == InRange(bs[..i], lo, hi)
  {
    var tail := bs[i..];
    assert forall k :: 0 <= k < |tail| ==> tail[k] == bs[i + k];
    InRangeNone(tail, lo, hi);
    InRangeAppend(bs[..i], tail, lo, hi);
    assert bs[..i] + tail == bs;
  }

  /** The ids of `ids` whose cached bear is in the size range. */
  ghost function SizeFiltered(ids: set<nat>, bearMap: map<nat, Bear>, lo: int, hi: int): set<nat>
  {
    set id | id in ids && id in bearMap && lo <= bearMap[id].size <= hi
  }

  /** Filtering a selection by size selects the size-filtered ids. */
  lemma SelectionInRange(r: seq<Bear>, bearMap: map<nat, Bear>, ids: set<nat>, lo: int, hi: int)
    requires IsSelection(r, bearMap, ids)
    ensures IsSelection(InRange(r, lo, hi), bearMap, SizeFiltered(ids, bearMap, lo, hi))
  {
    InRangeMembers(r, lo, hi);
    InRangeDistinct(r, lo, hi);
    var f := InRange(r, lo, hi);
    forall id | id in SizeFiltered(ids, bearMap, lo, hi) ensures id in IdsOf(f) {
      var b :| b in r && b.id == id;
      assert b in f;
    }
  }

  lemma {:induction false} InRangeDistinct(bs: seq<Bear>, lo: int, hi: int)
    requires DistinctIds(bs)
    ensures DistinctIds(InRange(bs, lo, hi))
  {
    if bs != [] {
      var init, last := bs[..|bs| - 1], bs[|bs| - 1];
      InRangeDistinct(init, lo, hi);
      InRangeMembers(init, lo, hi);
      var front := InRange(init, lo, hi);
      forall b | b in front ensures b.id != last.id {
        var i :| 0 <= i < |init| && init[i] == b;
        assert bs[i] == b;
      }
    }
  }

  // ------------------------------------------------- the rebuild as written

  /**
   * The rebuild as written loads with `findBearBySizeInRange`, whose rows
   * carry no `bearColors`; the index built from them is empty.
   */
  lemma AsWrittenIndexIsEmpty(rows: seq<Bear>)
    requires forall b :: b in rows ==> b.bearColors == None
    ensures IndexOf(InsertionSort(rows)) == map[]
  {
    InsertionSortMembers(rows);
    IndexOfUnloaded(InsertionSort(rows));
  }

  /**
   * A store holding one bear of size 5 linked to colour 1: the store links
   * them, yet built from the as-written rows the index files no bear under
   * colour 1, so `getBearsByColors([1])` answers nothing.
   */
  lemma AsWrittenMissesLinkedBear(rows: seq<Bear>)
    requires IsListing(rows, DbState(map[1 := BearRow("teddy", 5)], map[1 := "black"], {BearColor(1, 1)}, 2, 2),
                       MinCachedSize, MaxCachedSize)
    requires forall b :: b in rows ==> b.bearColors == None
    ensures 1 in IdsOf(rows)
    ensures UnionOf(IndexOf(InsertionSort(rows)), [1]) == {}
  {
    AsWrittenIndexIsEmpty(rows);
    assert [1][..0] == [];
  }
}
