/**
 * What the cache's derived structures are, as functions of the bears the
 * last rebuild loaded: the id map, the colour index, the union the colour
 * query forms, and the size-range filter. Each function follows the loop
 * that builds the structure; the lemmas say what the structure contains.
 */
module CacheIndex {
  import opened Entities

  // ------------------------------------------------------------ the id map

  /** `bearMap` after `bears.forEach((bear) => bearMap.set(bear.id, bear))` on an empty map. */
  function MapOf(bs: seq<Bear>): map<nat, Bear>
  {
    if bs == [] then map[] else MapOf(bs[..|bs| - 1])[bs[|bs| - 1].id := bs[|bs| - 1]]
  }

  /** The map has a key for each id of `bs`, and each entry is a bear of `bs` carrying that id. */
  lemma {:induction false} MapOfEntries(bs: seq<Bear>)
    ensures MapOf(bs).Keys == IdsOf(bs)
    ensures KeyedById(MapOf(bs))
    ensures forall id :: id in MapOf(bs) ==> MapOf(bs)[id] in bs
  {
    if bs != [] {
      var init, last := bs[..|bs| - 1], bs[|bs| - 1];
      assert bs == init + [last];
      MapOfEntries(init);
      assert IdsOf(bs) == IdsOf(init) + {last.id};
    }
  }

  /** Every entry of `m` is the bear carrying its key as id. */
  ghost predicate KeyedById(m: map<nat, Bear>)
  {
    forall id :: id in m ==> m[id].id == id
  }

  /** With distinct ids, every bear of `bs` is the entry under its id. */
  lemma {:induction false} MapOfDistinct(bs: seq<Bear>)
    requires DistinctIds(bs)
    ensures forall b :: b in bs ==> b.id in MapOf(bs) && MapOf(bs)[b.id] == b
  {
    if bs != [] {
      var init, last := bs[..|bs| - 1], bs[|bs| - 1];
      assert bs == init + [last];
      MapOfDistinct(init);
      forall b | b in init ensures b.id != last.id {
        var i :| 0 <= i < |init| && init[i] == b;
        assert bs[i] == b;
      }
    }
  }

  /** Distinct ids: as many ids as bears. */
  lemma {:induction false} DistinctIdsCount(bs: seq<Bear>)
    requires DistinctIds(bs)
    ensures |IdsOf(bs)| == |bs|
  {
    if bs != [] {
      var init, last := bs[..|bs| - 1], bs[|bs| - 1];
      assert bs == init + [last];
      DistinctIdsCount(init);
      forall b | b in init ensures b.id != last.id {
        var i :| 0 <= i < |init| && init[i] == b;
        assert bs[i] == b;
      }
      assert IdsOf(bs) == IdsOf(init) + {last.id};
    }
  }

  // ------------------------------------------------------- the colour index

  /** The link rows loaded with a bear; absent or empty `bearColors` contribute nothing. */
  function LinksOf(b: Bear): seq<BearColor>
  {
    if b.bearColors.Some? then b.bearColors.value else []
  }

  /** `if (!colorIndex.has(c)) colorIndex.set(c, new Set()); colorIndex.get(c)!.add(id)` */
  function AddToIndex(idx: map<nat, set<nat>>, colorId: nat, bearId: nat): map<nat, set<nat>>
  {
    idx[colorId := (if colorId in idx then idx[colorId] else {}) + {bearId}]
  }

  /** The inner `forEach` over one bear's links. */
  function AddLinks(idx: map<nat, set<nat>>, bearId: nat, links: seq<BearColor>): map<nat, set<nat>>
  {
    if links == [] then idx
    else AddToIndex(AddLinks(idx, bearId, links[..|links| - 1]), links[|links| - 1].colorId, bearId)
  }

  /** `colorIndex` after the outer `forEach` over the bears, on an empty map. */
  function IndexOf(bs: seq<Bear>): map<nat, set<nat>>
  {
    if bs == [] then map[] else AddLinks(IndexOf(bs[..|bs| - 1]), bs[|bs| - 1].id, LinksOf(bs[|bs| - 1]))
  }

  /** Some bear of `bs` with id `id` was loaded with a link to colour `c`. */
  ghost predicate Indexed(bs: seq<Bear>, c: int, id: int)
  {
    exists b :: b in bs && b.id == id && HasColor(b, c)
  }

  /** Some bear of `bs` was loaded with a link to colour `c`. */
  ghost predicate UsedColor(bs: seq<Bear>, c: int)
  {
    exists b :: b in bs && HasColor(b, c)
  }

  lemma {:induction false} AddLinksEntries(idx: map<nat, set<nat>>, bearId: nat, links: seq<BearColor>)
    ensures var r := AddLinks(idx, bearId, links);
      && (forall c :: c in r <==> c in idx || exists l :: l in links && l.colorId == c)
      && (forall c, id :: c in r && id in r[c] <==>
            (c in idx && id in idx[c]) || (id == bearId && exists l :: l in links && l.colorId == c))
  {
    if links != [] {
      var init, last := links[..|links| - 1], links[|links| - 1];
      assert links == init + [last];
      AddLinksEntries(idx, bearId, init);
    }
  }

  /**
   * The colour index is exact: colour `c` is a key iff some loaded bear has
   * a link to it, and bear id `id` is in its set iff the bear with that id
   * has such a link.
   */
  lemma {:induction false} IndexOfEntries(bs: seq<Bear>)
    ensures forall c :: c in IndexOf(bs) <==> UsedColor(bs, c)
    ensures forall c, id :: c in IndexOf(bs) && id in IndexOf(bs)[c] <==> Indexed(bs, c, id)
  {
    if bs != [] {
      var init, last := bs[..|bs| - 1], bs[|bs| - 1];
      assert bs == init + [last];
      IndexOfEntries(init);
      AddLinksEntries(IndexOf(init), last.id, LinksOf(last));
      forall c ensures UsedColor(bs, c) <==> UsedColor(init, c) || HasColor(last, c) {
        if UsedColor(bs, c) {
          var b :| b in bs && HasColor(b, c);
          assert b in init || b == last;
        }
      }
      forall c, id ensures Indexed(bs, c, id) <==> Indexed(init, c, id) || (id == last.id && HasColor(last, c)) {
        if Indexed(bs, c, id) {
          var b :| b in bs && b.id == id && HasColor(b, c);
          assert b in init || b == last;
        }
      }
    }
  }

  /** Bears loaded without their links leave the index empty. */
  lemma {:induction false} IndexOfUnloaded(bs: seq<Bear>)
    requires forall b :: b in bs ==> b.bearColors == None
    ensures IndexOf(bs) == map[]
  {
    if bs != [] {
      var init := bs[..|bs| - 1];
      assert forall b :: b in init ==> b in bs;
      IndexOfUnloaded(init);
    }
  }

  // --------------------------------------------------------- the colour query

  /** The set `getBearsByColors` fills: the union of the index sets of the given colours. */
  function UnionOf(idx: map<nat, set<nat>>, colorIds: seq<int>): set<nat>
  {
    if colorIds == [] then {}
    else
      var last := colorIds[|colorIds| - 1];
      UnionOf(idx, colorIds[..|colorIds| - 1]) + (if last in idx then idx[last] else {})
  }

  lemma {:induction false} UnionOfMembers(idx: map<nat, set<nat>>, colorIds: seq<int>)
    ensures forall id :: id in UnionOf(idx, colorIds) <==>
      exists c :: c in colorIds && c in idx && id in idx[c]
  {
    if colorIds != [] {
      var init := colorIds[..|colorIds| - 1];
      assert colorIds == init + [colorIds[|colorIds| - 1]];
      UnionOfMembers(idx, init);
    }
  }

  /**
   * `r` is what `Array.from(ids).map((id) => bearMap.get(id)).filter(defined)`
   * yields: each bear of the map whose id is in `ids`, once.
   */
  ghost predicate IsSelection(r: seq<Bear>, bearMap: map<nat, Bear>, ids: set<nat>)
  {
    && DistinctIds(r)
    && (forall b :: b in r ==> b.id in ids && b.id in bearMap && bearMap[b.id] == b)
    && (forall id :: id in ids && id in bearMap ==> id in IdsOf(r))
  }

  // ------------------------------------------------------------- size range

  /** The bears of `bs` with `lo <= size <= hi`, in the order of `bs`. */
  function InRange(bs: seq<Bear>, lo: int, hi: int): seq<Bear>
  {
    if bs == [] then []
    else
      var last := bs[|bs| - 1];
      InRange(bs[..|bs| - 1], lo, hi) + (if lo <= last.size <= hi then [last] else [])
  }

  lemma {:induction false} InRangeMembers(bs: seq<Bear>, lo: int, hi: int)
    ensures forall b :: b in InRange(bs, lo, hi) <==> b in bs && lo <= b.size <= hi
  {
    if bs != [] {
      var init := bs[..|bs| - 1];
      assert bs == init + [bs[|bs| - 1]];
      InRangeMembers(init, lo, hi);
    }
  }

  lemma {:induction false} InRangeAppend(s: seq<Bear>, t: seq<Bear>, lo: int, hi: int)
    ensures InRange(s + t, lo, hi) == InRange(s, lo, hi) + InRange(t, lo, hi)
    decreases |t|
  {
    if t == [] {
      assert s + t == s;
    } else {
      var init, last := t[..|t| - 1], t[|t| - 1];
      assert (s + t)[..|s + t| - 1] == s + init;
      InRangeAppend(s, init, lo, hi);
    }
  }

  /** No bear in range: nothing is kept. */
  lemma {:induction false} InRangeNone(bs: seq<Bear>, lo: int, hi: int)
    requires forall i :: 0 <= i < |bs| ==> !(lo <= bs[i].size <= hi)
    ensures InRange(bs, lo, hi) == []
  {
    if bs != [] {
      InRangeNone(bs[..|bs| - 1], lo, hi);
    }
  }
}
