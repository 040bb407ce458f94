/**
 * The order of the cache's bear array: `bears.sort((a, b) => a.size - b.size)`.
 * The comparator looks at the size only and `Array.prototype.sort` is
 * stable, so bears of equal size keep the order the query returned them
 * in; there is no tie-break on the id.
 *
 * The sort is modelled as an in-place insertion sort on the array,
 * specified by `InsertionSort`; the lemmas show that the result is sorted,
 * a permutation of the input and stable, and that these three properties
 * determine it, so it is what any stable sort by size yields.
 */
module SizeOrder {
  import opened Entities

  predicate SortedBySize(bs: seq<Bear>)
  {
    forall i, j :: 0 <= i < j < |bs| ==> bs[i].size <= bs[j].size
  }

  /** `p` with `x` placed after the last element, going backwards, whose size is at most `x.size`. */
  function Insert(p: seq<Bear>, x: Bear): seq<Bear>
  {
    if p == [] || p[|p| - 1].size <= x.size then p + [x]
    else Insert(p[..|p| - 1], x) + [p[|p| - 1]]
  }

  /** The result of sorting `s` by size, stably. */
  function InsertionSort(s: seq<Bear>): seq<Bear>
  {
    if s == [] then [] else Insert(InsertionSort(s[..|s| - 1]), s[|s| - 1])
  }

  /** The bears of `s` whose size is `k`, in the order of `s`. */
  function KeepSize(s: seq<Bear>, k: int): seq<Bear>
  {
    if s == [] then []
    else (if s[0].size == k then [s[0]] else []) + KeepSize(s[1..], k)
  }

  /** Stable: for every size, the bears of that size appear in the same relative order. */
  ghost predicate SameOrderPerSize(s: seq<Bear>, t: seq<Bear>)
  {
    forall k :: KeepSize(s, k) == KeepSize(t, k)
  }

  /** The in-place sort of the cache array. */
  method SortBySize(a: array<Bear>)
    modifies a
    ensures a[..] == InsertionSort(old(a[..]))
  {
    ghost var orig := a[..];
    var i := 0;
    while i < a.Length
      invariant 0 <= i <= a.Length
      invariant a[..i] == InsertionSort(orig[..i])
      invariant a[i..] == orig[i..]
    {
      assert a[i] == orig[i];
      InsertAt(a, i);
      assert orig[..i + 1][..i] == orig[..i];
      i := i + 1;
    }
    assert a[..] == a[..a.Length] && orig == orig[..a.Length];
  }

  /** One pass of the sort: `a[i]` moves down past the larger bears before it. */
  method InsertAt(a: array<Bear>, i: int)
    requires 0 <= i < a.Length
    modifies a
    ensures a[..i + 1] == Insert(old(a[..i]), old(a[i]))
    ensures a[i + 1..] == old(a[i + 1..])
  {
    ghost var p := a[..i];
    var x := a[i];
    var j := i;
    while j > 0 && a[j - 1].size > x.size
      invariant 0 <= j <= i
      invariant a[i + 1..] == old(a[i + 1..])
      invariant a[..j] + a[j + 1..i + 1] == p
      invariant Insert(p, x) == Insert(a[..j], x) + a[j + 1..i + 1]
    {
      ShiftStep(a[..], j, i, p, x);
      a[j] := a[j - 1];
      j := j - 1;
    }
    assert j == 0 || a[..j][j - 1].size <= x.size;
    a[j] := x;
    assert a[..i + 1] == a[..j] + [x] + a[j + 1..i + 1];
  }

  /** A bear larger than `x` at the end stays behind `x`. */
  lemma InsertPastLarger(front: seq<Bear>, last: Bear, x: Bear)
    requires last.size > x.size
    ensures Insert(front + [last], x) == Insert(front, x) + [last]
  {
    var q := front + [last];
    assert q[..|q| - 1] == front;
  }

  /** One shift of the insertion pass keeps its two invariants. */
  lemma ShiftStep(s: seq<Bear>, j: int, i: int, p: seq<Bear>, x: Bear)
    requires 0 < j <= i < |s|
    requires s[..j] + s[j + 1..i + 1] == p
    requires Insert(p, x) == Insert(s[..j], x) + s[j + 1..i + 1]
    requires s[j - 1].size > x.size
    ensures var t := s[j := s[j - 1]];
      && t[..j - 1] + t[j..i + 1] == p
      && Insert(p, x) == Insert(t[..j - 1], x) + t[j..i + 1]
  {
    var t := s[j := s[j - 1]];
    var front, moved, tail := s[..j - 1], s[j - 1], s[j + 1..i + 1];
    assert s[..j] == front + [moved];
    InsertPastLarger(front, moved, x);
    assert t[..j - 1] == front;
    assert t[j..i + 1] == [moved] + tail;
  }

  // ------------------------------------------------------------ sortedness

  lemma {:induction false} InsertSorted(p: seq<Bear>, x: Bear)
    requires SortedBySize(p)
    ensures SortedBySize(Insert(p, x))
    ensures Insert(p, x) != [] && Insert(p, x)[|Insert(p, x)| - 1].size >= x.size
    ensures p != [] ==> Insert(p, x)[|Insert(p, x)| - 1].size >= p[|p| - 1].size
  {
    if p != [] && p[|p| - 1].size > x.size {
      InsertSorted(p[..|p| - 1], x);
    }
  }

  lemma {:induction false} InsertionSortSorted(s: seq<Bear>)
    ensures SortedBySize(InsertionSort(s))
  {
    if s != [] {
      InsertionSortSorted(s[..|s| - 1]);
      InsertSorted(InsertionSort(s[..|s| - 1]), s[|s| - 1]);
    }
  }

  // ----------------------------------------------------------- permutation

  lemma {:induction false} InsertPermutes(p: seq<Bear>, x: Bear)
    ensures multiset(Insert(p, x)) == multiset(p) + multiset{x}
  {
    if p != [] && p[|p| - 1].size > x.size {
      var init := p[..|p| - 1];
      InsertPermutes(init, x);
      assert p == init + [p[|p| - 1]];
    }
  }

  lemma {:induction false} InsertionSortPermutes(s: seq<Bear>)
    ensures multiset(InsertionSort(s)) == multiset(s)
  {
    if s != [] {
      var init := s[..|s| - 1];
      InsertionSortPermutes(init);
      InsertPermutes(InsertionSort(init), s[|s| - 1]);
      assert s == init + [s[|s| - 1]];
    }
  }

  /** The sorted array holds exactly the bears it was given. */
  lemma InsertionSortMembers(s: seq<Bear>)
    ensures |InsertionSort(s)| == |s|
    ensures forall b :: b in InsertionSort(s) <==> b in s
  {
    InsertionSortPermutes(s);
    assert |multiset(InsertionSort(s))| == |multiset(s)|;
    forall b ensures b in InsertionSort(s) <==> b in s {
      assert b in InsertionSort(s) <==> b in multiset(InsertionSort(s));
    }
  }

  lemma {:induction false} InsertKeepsDistinctIds(p: seq<Bear>, x: Bear)
    requires DistinctIds(p) && x.id !in IdsOf(p)
    ensures DistinctIds(Insert(p, x))
    ensures IdsOf(Insert(p, x)) == IdsOf(p) + {x.id}
  {
    if p == [] || p[|p| - 1].size <= x.size {
      assert IdsOf(p + [x]) == IdsOf(p) + {x.id};
    } else {
      var init := p[..|p| - 1];
      var last := p[|p| - 1];
      assert p == init + [last];
      assert IdsOf(p) == IdsOf(init) + {last.id};
      InsertKeepsDistinctIds(init, x);
      var q := Insert(init, x);
      assert IdsOf(q + [last]) == IdsOf(q) + {last.id};
    }
  }

  /** Sorting keeps the ids and does not duplicate any. */
  lemma {:induction false} InsertionSortKeepsDistinctIds(s: seq<Bear>)
    requires DistinctIds(s)
    ensures DistinctIds(InsertionSort(s))
    ensures IdsOf(InsertionSort(s)) == IdsOf(s)
  {
    if s != [] {
      var init := s[..|s| - 1];
      var last := s[|s| - 1];
      assert s == init + [last];
      assert IdsOf(s) == IdsOf(init) + {last.id};
      InsertionSortKeepsDistinctIds(init);
      InsertKeepsDistinctIds(InsertionSort(init), last);
    }
  }

  // ------------------------------------------------------------- stability

  lemma {:induction false} KeepSizeAppend(s: seq<Bear>, t: seq<Bear>, k: int)
    ensures KeepSize(s + t, k) == KeepSize(s, k) + KeepSize(t, k)
  {
    if s == [] {
      assert s + t == t;
    } else {
      assert (s + t)[0] == s[0];
      assert (s + t)[1..] == s[1..] + t;
      KeepSizeAppend(s[1..], t, k);
    }
  }

  lemma KeepSizeOne(x: Bear, k: int)
    ensures KeepSize([x], k) == if x.size == k then [x] else []
  {
    assert [x][1..] == [];
  }

  lemma {:induction false} InsertStable(p: seq<Bear>, x: Bear, k: int)
    ensures KeepSize(Insert(p, x), k) == KeepSize(p + [x], k)
  {
    if p != [] && p[|p| - 1].size > x.size {
      var init, last := p[..|p| - 1], p[|p| - 1];
      assert p == init + [last];
      InsertPastLarger(init, last, x);
      InsertStable(init, x, k);
      KeepSizeAppend(Insert(init, x), [last], k);
      KeepSizeAppend(init, [x], k);
      KeepSizeAppend(p, [x], k);
      KeepSizeAppend(init, [last], k);
      var a, b, c := KeepSize(init, k), KeepSize([x], k), KeepSize([last], k);
      KeepSizeOne(x, k);
      KeepSizeOne(last, k);
      assert KeepSize(Insert(p, x), k) == a + b + c;
      assert KeepSize(p + [x], k) == a + c + b;
      if b == [] {
        assert a + b + c == a + c == a + c + b;
      } else {
        assert c == [];
        assert a + b + c == a + b == a + c + b;
      }
    } else {
      assert Insert(p, x) == p + [x];
    }
  }

  /** The sort is stable: for each size, bears keep the order the query returned them in. */
  lemma {:induction false} InsertionSortStable(s: seq<Bear>)
    ensures SameOrderPerSize(InsertionSort(s), s)
  {
    if s != [] {
      var init := s[..|s| - 1];
      var last := s[|s| - 1];
      InsertionSortStable(init);
      forall k ensures KeepSize(InsertionSort(s), k) == KeepSize(s, k) {
        InsertStable(InsertionSort(init), last, k);
        KeepSizeAppend(InsertionSort(init), [last], k);
        KeepSizeAppend(init, [last], k);
        assert s == init + [last];
      }
    }
  }

  // ------------------------------------------------------------ uniqueness

  lemma {:induction false} KeepSizeMember(s: seq<Bear>, k: int, b: Bear)
    requires b in KeepSize(s, k)
    ensures b in s && b.size == k
  {
    var head := if s != [] && s[0].size == k then [s[0]] else [];
    if s != [] && b !in head {
      assert KeepSize(s, k) == head + KeepSize(s[1..], k);
      KeepSizeMember(s[1..], k, b);
    }
  }

  /** The first bear of `s` heads the bears of its size. */
  lemma KeepSizeHead(s: seq<Bear>)
    ensures s != [] ==> KeepSize(s, s[0].size) != [] && KeepSize(s, s[0].size)[0] == s[0]
  {
  }

  /** The bears of size `k` after the first bear of `s`. */
  lemma KeepSizeRest(s: seq<Bear>, k: int)
    requires s != []
    ensures KeepSize(s[1..], k) == KeepSize(s, k)[if s[0].size == k then 1 else 0..]
  {
    var head := if s[0].size == k then [s[0]] else [];
    assert KeepSize(s, k) == head + KeepSize(s[1..], k);
  }

  /** Two sequences sorted by size with the same bears of every size, in the same order, are equal. */
  lemma {:induction false} SortedStableUnique(t1: seq<Bear>, t2: seq<Bear>)
    requires SortedBySize(t1) && SortedBySize(t2)
    requires SameOrderPerSize(t1, t2)
    ensures t1 == t2
    decreases |t1|
  {
    KeepSizeHead(t1);
    KeepSizeHead(t2);
    if t1 != [] && t2 != [] {
      var a, b := t1[0].size, t2[0].size;
      KeepSizeMember(t2, a, KeepSize(t2, a)[0]);
      KeepSizeMember(t1, b, KeepSize(t1, b)[0]);
      assert a == b;
      assert t1[0] == t2[0];
      forall k ensures KeepSize(t1[1..], k) == KeepSize(t2[1..], k) {
        KeepSizeRest(t1, k);
        KeepSizeRest(t2, k);
      }
      SortedStableUnique(t1[1..], t2[1..]);
      assert t1 == [t1[0]] + t1[1..];
      assert t2 == [t2[0]] + t2[1..];
    }
  }

  /**
   * Any result of a stable sort by size, whatever the algorithm (the
   * engine's merge sort, say), is `InsertionSort(s)`.
   */
  lemma AnyStableSortIsInsertionSort(s: seq<Bear>, t: seq<Bear>)
    requires SortedBySize(t) && SameOrderPerSize(t, s)
    ensures t == InsertionSort(s)
  {
    InsertionSortSorted(s);
    InsertionSortStable(s);
    SortedStableUnique(t, InsertionSort(s));
  }
}
