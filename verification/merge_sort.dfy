/** `mergeSortSteps` of the merge-sort page: top-down merge sort on
    `[left, right]` with `mid = floor((left + right) / 2)`. A merge records a
    snapshot per comparison (highlight `[i, j]`), per element drained from the
    half that remains (highlight `[i]` or `[j]`), and per element written back
    (highlight `[k]`). The page compares numbers with `<=`; here the elements
    are of any type ordered by an integer `key`, which makes the tie rule
    (left element first) observable. With `key` the identity on `int` this is
    the page's sort. */
module MergeSort {
  import opened Common

  predicate SortedBy<T>(s: seq<T>, key: T -> int)
  {
    forall p, q :: 0 <= p < q < |s| ==> key(s[p]) <= key(s[q])
  }

  /** The elements of key `w`, in their order in `s`: a sort is stable exactly
      when it keeps every one of these subsequences as it was. */
  function WithKey<T>(s: seq<T>, key: T -> int, w: int): seq<T>
  {
    if |s| == 0 then [] else (if key(s[0]) == w then [s[0]] else []) + WithKey(s[1..], key, w)
  }

  lemma {:induction false} WithKeyConcat<T>(u: seq<T>, v: seq<T>, key: T -> int, w: int)
    ensures WithKey(u + v, key, w) == WithKey(u, key, w) + WithKey(v, key, w)
    decreases |u|
  {
    if |u| > 0 {
      assert (u + v)[1..] == u[1..] + v;
      WithKeyConcat(u[1..], v, key, w);
    } else {
      assert u + v == v;
    }
  }

  /** Reference merge of two lists, taking from the left list on ties. */
  function MergeLists<T>(L: seq<T>, R: seq<T>, key: T -> int): (r: seq<T>)
    ensures |r| == |L| + |R|
    decreases |L| + |R|
  {
    if |L| == 0 then R
    else if |R| == 0 then L
    else if key(L[0]) <= key(R[0]) then [L[0]] + MergeLists(L[1..], R, key)
    else [R[0]] + MergeLists(L, R[1..], key)
  }

  /** The reference merge is a permutation of its two inputs together. */
  lemma {:induction false} MergeListsPerm<T>(L: seq<T>, R: seq<T>, key: T -> int)
    ensures multiset(MergeLists(L, R, key)) == multiset(L) + multiset(R)
    decreases |L| + |R|
  {
    if |L| > 0 && |R| > 0 {
      if key(L[0]) <= key(R[0]) {
        assert L == [L[0]] + L[1..];
        MergeListsPerm(L[1..], R, key);
      } else {
        assert R == [R[0]] + R[1..];
        MergeListsPerm(L, R[1..], key);
      }
    }
  }

  /** The merge of two sorted lists is sorted. */
  lemma {:induction false} MergeListsSorted<T>(L: seq<T>, R: seq<T>, key: T -> int)
    requires SortedBy(L, key) && SortedBy(R, key)
    ensures SortedBy(MergeLists(L, R, key), key)
    decreases |L| + |R|
  {
    if |L| > 0 && |R| > 0 {
      if key(L[0]) <= key(R[0]) {
        MergeListsSorted(L[1..], R, key);
        var t := MergeLists(L[1..], R, key);
        ConsSorted(L[0], t, key);
      } else {
        MergeListsSorted(L, R[1..], key);
        var t := MergeLists(L, R[1..], key);
        ConsSorted(R[0], t, key);
      }
    }
  }

  lemma ConsSorted<T>(x: T, t: seq<T>, key: T -> int)
    requires SortedBy(t, key) && (|t| > 0 ==> key(x) <= key(t[0]))
    ensures SortedBy([x] + t, key)
  {
    forall p, q | 0 <= p < q < |[x] + t| ensures key(([x] + t)[p]) <= key(([x] + t)[q]) {
      if p > 0 { assert ([x] + t)[p] == t[p - 1]; }
      assert ([x] + t)[q] == t[q - 1];
    }
  }

  /** Merging keeps, for each key, the left list's elements ahead of the right
      list's: the tie rule makes merge sort stable. */
  lemma {:induction false} MergeListsStable<T>(L: seq<T>, R: seq<T>, key: T -> int, w: int)
    requires SortedBy(L, key)
    ensures StableMerge(L, R, key, w)
    decreases |L| + |R|
  {
    if |L| == 0 {
    } else if |R| == 0 {
      assert WithKey(R, key, w) == [];
    } else if key(L[0]) <= key(R[0]) {
      assert SortedBy(L[1..], key);
      MergeListsStable(L[1..], R, key, w);
      StableLeft(L, R, key, w);
    } else {
      MergeListsStable(L, R[1..], key, w);
      StableRight(L, R, key, w);
    }
  }

  ghost predicate StableMerge<T>(L: seq<T>, R: seq<T>, key: T -> int, w: int)
  {
    WithKey(MergeLists(L, R, key), key, w) == WithKey(L, key, w) + WithKey(R, key, w)
  }

  lemma StableLeft<T>(L: seq<T>, R: seq<T>, key: T -> int, w: int)
    requires |L| > 0 && |R| > 0 && key(L[0]) <= key(R[0])
    requires StableMerge(L[1..], R, key, w)
    ensures StableMerge(L, R, key, w)
  {
    var m := MergeLists(L[1..], R, key);
    assert MergeLists(L, R, key) == [L[0]] + m;
    assert ([L[0]] + m)[1..] == m;
  }

  lemma StableRight<T>(L: seq<T>, R: seq<T>, key: T -> int, w: int)
    requires |L| > 0 && |R| > 0 && key(L[0]) > key(R[0]) && SortedBy(L, key)
    requires StableMerge(L, R[1..], key, w)
    ensures StableMerge(L, R, key, w)
  {
    var m := MergeLists(L, R[1..], key);
    assert MergeLists(L, R, key) == [R[0]] + m;
    assert ([R[0]] + m)[1..] == m;
    if key(R[0]) == w {
      NoKeyAbove(L, key, w);
    }
  }

  /** A sorted list whose first key exceeds `w` has no element of key `w`. */
  lemma {:induction false} NoKeyAbove<T>(L: seq<T>, key: T -> int, w: int)
    requires SortedBy(L, key) && |L| > 0 && key(L[0]) > w
    ensures WithKey(L, key, w) == []
    decreases |L|
  {
    if |L| > 1 {
      assert SortedBy(L[1..], key);
      NoKeyAbove(L[1..], key, w);
    }
  }

  // ---------------------------------------------------------------------
  // The generator.

  /** The first loop of `merge`: while both halves have elements, a snapshot
      highlighting `[i, j]`, then the element of smaller key (the left one on
      ties) moves to `temp`. Returns the snapshots, the elements moved, and
      the final `i` and `j`. */
  function Compare<T>(a: seq<T>, key: T -> int, mid: nat, hi: nat, i: nat, j: nat)
    : (r: (seq<SortStep<T>>, seq<T>, nat, nat))
    requires i <= mid + 1 <= j <= hi + 1 <= |a|
    ensures i <= r.2 <= mid + 1 && j <= r.3 <= hi + 1
    ensures |r.1| == (r.2 - i) + (r.3 - j)
    decreases (mid + 1 - i) + (hi + 1 - j)
  {
    if i <= mid && j <= hi then
      var step := SortStep(a, [i, j]);
      if key(a[i]) <= key(a[j]) then
        var r := Compare(a, key, mid, hi, i + 1, j);
        ([step] + r.0, [a[i]] + r.1, r.2, r.3)
      else
        var r := Compare(a, key, mid, hi, i, j + 1);
        ([step] + r.0, [a[j]] + r.1, r.2, r.3)
    else
      ([], [], i, j)
  }

  /** The draining loops: one snapshot highlighting each of `p..hi`. */
  function Drain<T>(a: seq<T>, p: nat, hi: nat): (r: seq<SortStep<T>>)
    requires p <= hi + 1
    ensures |r| == hi + 1 - p
    ensures forall t :: 0 <= t < |r| ==> r[t] == SortStep(a, [p + t])
    decreases hi + 1 - p
  {
    if p > hi then [] else [SortStep(a, [p])] + Drain(a, p + 1, hi)
  }

  /** The copy-back loop from position `k`: `a[k] = temp[k - left]`, then a
      snapshot highlighting `[k]`. */
  function WriteBack<T>(a: seq<T>, lo: nat, hi: nat, temp: seq<T>, k: nat): (r: (seq<SortStep<T>>, seq<T>))
    requires lo <= k <= hi + 1 <= |a| && |temp| == hi + 1 - lo
    ensures |r.1| == |a| && |r.0| == hi + 1 - k
    decreases hi + 1 - k
  {
    if k > hi then ([], a)
    else
      var a' := a[k := temp[k - lo]];
      var r := WriteBack(a', lo, hi, temp, k + 1);
      ([SortStep(a', [k])] + r.0, r.1)
  }

  /** `merge(left, mid, right)`. */
  function Merge<T>(a: seq<T>, key: T -> int, lo: nat, mid: nat, hi: nat): (r: (seq<SortStep<T>>, seq<T>))
    requires lo <= mid < hi < |a|
    ensures |r.1| == |a|
  {
    var c := Compare(a, key, mid, hi, lo, mid + 1);
    var temp := c.1 + a[c.2..mid + 1] + a[c.3..hi + 1];
    var w := WriteBack(a, lo, hi, temp, lo);
    (c.0 + Drain(a, c.2, mid) + Drain(a, c.3, hi) + w.0, w.1)
  }

  /** `mergeSort(left, right)` on the working array `a`. It sorts
      `[left, right]` stably and leaves the rest of the array alone; every
      snapshot shows a full-length array and highlights positions of
      `[left, right]` only; there are snapshots exactly when the range has two
      or more elements, and then the last one shows the array returned. */
  function Sort<T>(a: seq<T>, key: T -> int, lo: int, hi: int): (r: (seq<SortStep<T>>, seq<T>))
    requires 0 <= lo <= hi + 1 <= |a|
    ensures |r.1| == |a|
    ensures SortsRange(a, r.1, key, lo, hi)
    ensures Within(r.0, |a|, lo, hi)
    ensures |r.0| == 0 <==> lo >= hi
    ensures |r.0| > 0 ==> r.0[|r.0| - 1].arr == r.1
    decreases hi - lo
  {
    if lo >= hi then
      SortsNothing(a, key, lo, hi);
      ([], a)
    else
      var mid := (lo + hi) / 2;
      var r1 := Sort(a, key, lo, mid);
      var r2 := Sort(r1.1, key, mid + 1, hi);
      var r3 := Merge(r2.1, key, lo, mid, hi);
      MergeResult(r2.1, key, lo, mid, hi);
      SortsHalves(a, r1.1, r2.1, r3.1, key, lo, mid, hi);
      MergeWithin(r2.1, key, lo, mid, hi);
      WithinJoin(r1.0, r2.0, r3.0, |a|, lo, mid, hi);
      MergeLast(r2.1, key, lo, mid, hi);
      LastJoin(r1.0 + r2.0, r3.0);
      (r1.0 + r2.0 + r3.0, r3.1)
  }

  /** `mergeSortSteps(array)`. */
  function MergeSortSteps<T>(a: seq<T>, key: T -> int): seq<SortStep<T>>
  {
    Sort(a, key, 0, |a| - 1).0
  }

  // ---------------------------------------------------------------------
  // One merge.

  /** The comparison loop stops when one half is used up, and records one
      snapshot per element it moves. */
  lemma {:induction false} CompareShape<T>(a: seq<T>, key: T -> int, mid: nat, hi: nat, i: nat, j: nat)
    requires i <= mid + 1 <= j <= hi + 1 <= |a|
    ensures var r := Compare(a, key, mid, hi, i, j);
      (r.2 == mid + 1 || r.3 == hi + 1) && |r.0| == |r.1|
    decreases (mid + 1 - i) + (hi + 1 - j)
  {
    if i <= mid && j <= hi {
      if key(a[i]) <= key(a[j]) {
        CompareShape(a, key, mid, hi, i + 1, j);
      } else {
        CompareShape(a, key, mid, hi, i, j + 1);
      }
    }
  }

  /** The copy-back loop from `k` leaves `temp`'s entries in `[k, right]` and
      every other position as it was. */
  lemma {:induction false} WriteBackResult<T>(a: seq<T>, lo: nat, hi: nat, temp: seq<T>, k: nat)
    requires lo <= k <= hi + 1 <= |a| && |temp| == hi + 1 - lo
    ensures var b := WriteBack(a, lo, hi, temp, k).1;
      forall p :: 0 <= p < |a| ==> b[p] == if k <= p <= hi then temp[p - lo] else a[p]
    decreases hi + 1 - k
  {
    if k <= hi {
      var a' := a[k := temp[k - lo]];
      assert WriteBack(a, lo, hi, temp, k).1 == WriteBack(a', lo, hi, temp, k + 1).1;
      WriteBackResult(a', lo, hi, temp, k + 1);
    }
  }

  /** The comparison loop moves exactly the elements that the reference merge
      puts first; what remains of the two halves completes it. */
  lemma {:induction false} CompareMerges<T>(a: seq<T>, key: T -> int, mid: nat, hi: nat, i: nat, j: nat)
    requires i <= mid + 1 <= j <= hi + 1 <= |a|
    ensures MergedBy(a, key, mid, hi, i, j)
    decreases (mid + 1 - i) + (hi + 1 - j)
  {
    if i <= mid && j <= hi {
      if key(a[i]) <= key(a[j]) {
        CompareMerges(a, key, mid, hi, i + 1, j);
        MergedLeft(a, key, mid, hi, i, j);
      } else {
        CompareMerges(a, key, mid, hi, i, j + 1);
        MergedRight(a, key, mid, hi, i, j);
      }
    } else {
      MergedEnd(a, key, mid, hi, i, j);
    }
  }

  lemma MergedEnd<T>(a: seq<T>, key: T -> int, mid: nat, hi: nat, i: nat, j: nat)
    requires i <= mid + 1 <= j <= hi + 1 <= |a| && (i > mid || j > hi)
    ensures MergedBy(a, key, mid, hi, i, j)
  {
    if i > mid {
      assert a[i..mid + 1] == [];
    } else {
      assert a[j..hi + 1] == [];
    }
  }

  /** What the comparison loop from `[i, j]` moved, followed by the two
      remainders, is the reference merge of `a[i..mid]` and `a[j..right]`. */
  ghost predicate MergedBy<T>(a: seq<T>, key: T -> int, mid: nat, hi: nat, i: nat, j: nat)
  {
    && i <= mid + 1 <= j <= hi + 1 <= |a|
    && var r := Compare(a, key, mid, hi, i, j);
       r.1 + a[r.2..mid + 1] + a[r.3..hi + 1] == MergeLists(a[i..mid + 1], a[j..hi + 1], key)
  }

  lemma MergedLeft<T>(a: seq<T>, key: T -> int, mid: nat, hi: nat, i: nat, j: nat)
    requires i <= mid && mid + 1 <= j <= hi && hi + 1 <= |a| && key(a[i]) <= key(a[j])
    requires MergedBy(a, key, mid, hi, i + 1, j)
    ensures MergedBy(a, key, mid, hi, i, j)
  {
    var r, r' := Compare(a, key, mid, hi, i, j), Compare(a, key, mid, hi, i + 1, j);
    CompareLeft(a, key, mid, hi, i, j);
    MergeLeft(a[i..mid + 1], a[j..hi + 1], key);
    assert a[i..mid + 1][1..] == a[i + 1..mid + 1];
    ConsMerge(a[i], r'.1, a[r.2..mid + 1], a[r.3..hi + 1]);
  }

  lemma MergedRight<T>(a: seq<T>, key: T -> int, mid: nat, hi: nat, i: nat, j: nat)
    requires i <= mid && mid + 1 <= j <= hi && hi + 1 <= |a| && key(a[i]) > key(a[j])
    requires MergedBy(a, key, mid, hi, i, j + 1)
    ensures MergedBy(a, key, mid, hi, i, j)
  {
    var r, r' := Compare(a, key, mid, hi, i, j), Compare(a, key, mid, hi, i, j + 1);
    CompareRight(a, key, mid, hi, i, j);
    MergeRight(a[i..mid + 1], a[j..hi + 1], key);
    assert a[j..hi + 1][1..] == a[j + 1..hi + 1];
    ConsMerge(a[j], r'.1, a[r.2..mid + 1], a[r.3..hi + 1]);
  }

  lemma CompareLeft<T>(a: seq<T>, key: T -> int, mid: nat, hi: nat, i: nat, j: nat)
    requires i <= mid && mid + 1 <= j <= hi && hi + 1 <= |a| && key(a[i]) <= key(a[j])
    ensures var r, r' := Compare(a, key, mid, hi, i, j), Compare(a, key, mid, hi, i + 1, j);
      r.1 == [a[i]] + r'.1 && r.2 == r'.2 && r.3 == r'.3
  {
  }

  lemma CompareRight<T>(a: seq<T>, key: T -> int, mid: nat, hi: nat, i: nat, j: nat)
    requires i <= mid && mid + 1 <= j <= hi && hi + 1 <= |a| && key(a[i]) > key(a[j])
    ensures var r, r' := Compare(a, key, mid, hi, i, j), Compare(a, key, mid, hi, i, j + 1);
      r.1 == [a[j]] + r'.1 && r.2 == r'.2 && r.3 == r'.3
  {
  }

  lemma MergeLeft<T>(L: seq<T>, R: seq<T>, key: T -> int)
    requires |L| > 0 && |R| > 0 && key(L[0]) <= key(R[0])
    ensures MergeLists(L, R, key) == [L[0]] + MergeLists(L[1..], R, key)
  {
  }

  lemma MergeRight<T>(L: seq<T>, R: seq<T>, key: T -> int)
    requires |L| > 0 && |R| > 0 && key(L[0]) > key(R[0])
    ensures MergeLists(L, R, key) == [R[0]] + MergeLists(L, R[1..], key)
  {
  }

  lemma ConsMerge<T>(x: T, t: seq<T>, u: seq<T>, v: seq<T>)
    ensures [x] + t + u + v == [x] + (t + u + v)
  {
  }

  /** Every comparison snapshot shows the array as it was and highlights one
      position of each half. */
  lemma CompareSteps<T>(a: seq<T>, key: T -> int, mid: nat, hi: nat, i: nat, j: nat)
    requires i <= mid + 1 <= j <= hi + 1 <= |a|
    ensures var s := Compare(a, key, mid, hi, i, j).0;
      forall k :: 0 <= k < |s| ==> PairShown(s[k], a, i, mid, hi)
  {
    forall k | 0 <= k < |Compare(a, key, mid, hi, i, j).0| {
      CompareStep(a, key, mid, hi, i, j, k);
    }
  }

  /** The comparison snapshot number `k` from the pair `[i, j]`. */
  lemma {:induction false} CompareStep<T>(a: seq<T>, key: T -> int, mid: nat, hi: nat, i: nat, j: nat, k: nat)
    requires i <= mid + 1 <= j <= hi + 1 <= |a|
    requires k < |Compare(a, key, mid, hi, i, j).0|
    ensures PairShown(Compare(a, key, mid, hi, i, j).0[k], a, i, mid, hi)
    decreases k
  {
    var s := Compare(a, key, mid, hi, i, j).0;
    assert i <= mid && j <= hi;
    if k > 0 {
      if key(a[i]) <= key(a[j]) {
        var s' := Compare(a, key, mid, hi, i + 1, j).0;
        assert s == [SortStep(a, [i, j])] + s';
        CompareStep(a, key, mid, hi, i + 1, j, k - 1);
        assert s[k] == s'[k - 1];
      } else {
        var s' := Compare(a, key, mid, hi, i, j + 1).0;
        assert s == [SortStep(a, [i, j])] + s';
        CompareStep(a, key, mid, hi, i, j + 1, k - 1);
        assert s[k] == s'[k - 1];
      }
    }
  }

  /** A comparison snapshot: the array `a`, highlighting `[i, j]` with `i` in
      the left half (from `lo` on) and `j` in the right half. */
  ghost predicate PairShown<T>(s: SortStep<T>, a: seq<T>, lo: nat, mid: nat, hi: nat)
  {
    s.arr == a && |s.highlight| == 2 && lo <= s.highlight[0] <= mid < s.highlight[1] <= hi
  }

  /** A copy-back snapshot after writing positions `k..m`: those hold `temp`'s
      entries, every other position holds `a`'s. */
  ghost predicate WrittenShown<T>(s: SortStep<T>, a: seq<T>, lo: nat, temp: seq<T>, k: nat, m: nat)
  {
    && s.highlight == [m] && |s.arr| == |a|
    && forall p :: 0 <= p < |a| ==> s.arr[p] == if k <= p <= m && 0 <= p - lo < |temp| then temp[p - lo] else a[p]
  }

  /** Each copy-back snapshot shows the positions written so far, and the
      snapshots highlight `k, k + 1, ..., right` in order. */
  lemma WriteBackSteps<T>(a: seq<T>, lo: nat, hi: nat, temp: seq<T>, k: nat)
    requires lo <= k <= hi + 1 <= |a| && |temp| == hi + 1 - lo
    ensures var s := WriteBack(a, lo, hi, temp, k).0;
      forall t :: 0 <= t < |s| ==> WrittenShown(s[t], a, lo, temp, k, k + t)
  {
    forall t | 0 <= t < |WriteBack(a, lo, hi, temp, k).0| {
      WriteBackStep(a, lo, hi, temp, k, t);
    }
  }

  /** The copy-back snapshot number `t` from position `k`. */
  lemma {:induction false} WriteBackStep<T>(a: seq<T>, lo: nat, hi: nat, temp: seq<T>, k: nat, t: nat)
    requires lo <= k <= hi + 1 <= |a| && |temp| == hi + 1 - lo
    requires t < |WriteBack(a, lo, hi, temp, k).0|
    ensures WrittenShown(WriteBack(a, lo, hi, temp, k).0[t], a, lo, temp, k, k + t)
    decreases t
  {
    var a' := a[k := temp[k - lo]];
    var s := WriteBack(a, lo, hi, temp, k).0;
    var s' := WriteBack(a', lo, hi, temp, k + 1).0;
    assert s == [SortStep(a', [k])] + s';
    if t > 0 {
      WriteBackStep(a', lo, hi, temp, k + 1, t - 1);
      assert s[t] == s'[t - 1];
      forall p | 0 <= p < |a|
        ensures s[t].arr[p] == if k <= p <= k + t && 0 <= p - lo < |temp| then temp[p - lo] else a[p]
      {
        assert s'[t - 1].arr[p] == if k + 1 <= p <= k + t && 0 <= p - lo < |temp| then temp[p - lo] else a'[p];
      }
    }
  }

  /** A merge leaves the reference merge of the two halves in `[left, right]`
      and every other position as it was. */
  lemma MergeResult<T>(a: seq<T>, key: T -> int, lo: nat, mid: nat, hi: nat)
    requires lo <= mid < hi < |a|
    ensures Merge(a, key, lo, mid, hi).1[lo..hi + 1] == MergeLists(a[lo..mid + 1], a[mid + 1..hi + 1], key)
    ensures forall p :: 0 <= p < |a| && !(lo <= p <= hi) ==> Merge(a, key, lo, mid, hi).1[p] == a[p]
  {
    var c := Compare(a, key, mid, hi, lo, mid + 1);
    var temp := c.1 + a[c.2..mid + 1] + a[c.3..hi + 1];
    var w := WriteBack(a, lo, hi, temp, lo);
    assert Merge(a, key, lo, mid, hi).1 == w.1;
    CompareMerges(a, key, mid, hi, lo, mid + 1);
    assert MergedBy(a, key, mid, hi, lo, mid + 1);
    WriteBackResult(a, lo, hi, temp, lo);
    assert w.1[lo..hi + 1] == temp;
  }

  /** A merge of `[left, right]` records `2 * (right - left + 1)` snapshots:
      first the comparisons and drains on the unchanged array, highlighting a
      pair `[i, j]` across the halves or one position, then one copy-back
      snapshot per position `left..right`, in increasing order. */
  ghost predicate MergeSnapshots<T>(s: seq<SortStep<T>>, a: seq<T>, lo: nat, mid: nat, hi: nat)
  {
    var n := hi + 1 - lo;
    && |s| == 2 * n
    && (forall k :: 0 <= k < n ==> ReadShown(s[k], a, lo, mid, hi))
    && (forall k :: n <= k < 2 * n ==> s[k].highlight == [lo + k - n])
  }

  /** A snapshot taken before the copy-back: the array unchanged, and either a
      comparison pair or one position of `[left, right]`. */
  ghost predicate ReadShown<T>(st: SortStep<T>, a: seq<T>, lo: nat, mid: nat, hi: nat)
  {
    PairShown(st, a, lo, mid, hi) || (st.arr == a && |st.highlight| == 1 && lo <= st.highlight[0] <= hi)
  }

  lemma MergeShape<T>(a: seq<T>, key: T -> int, lo: nat, mid: nat, hi: nat)
    requires lo <= mid < hi < |a|
    ensures MergeSnapshots(Merge(a, key, lo, mid, hi).0, a, lo, mid, hi)
  {
    var c := Compare(a, key, mid, hi, lo, mid + 1);
    var temp := c.1 + a[c.2..mid + 1] + a[c.3..hi + 1];
    var s4 := WriteBack(a, lo, hi, temp, lo).0;
    assert Merge(a, key, lo, mid, hi).0 == c.0 + Drain(a, c.2, mid) + Drain(a, c.3, hi) + s4;
    PiecesShape(a, key, lo, mid, hi, c, temp);
  }

  lemma PiecesShape<T>(a: seq<T>, key: T -> int, lo: nat, mid: nat, hi: nat, c: (seq<SortStep<T>>, seq<T>, nat, nat), temp: seq<T>)
    requires lo <= mid < hi < |a|
    requires c == Compare(a, key, mid, hi, lo, mid + 1)
    requires temp == c.1 + a[c.2..mid + 1] + a[c.3..hi + 1]
    ensures MergeSnapshots(c.0 + Drain(a, c.2, mid) + Drain(a, c.3, hi) + WriteBack(a, lo, hi, temp, lo).0, a, lo, mid, hi)
  {
    var front := c.0 + Drain(a, c.2, mid) + Drain(a, c.3, hi);
    var back := WriteBack(a, lo, hi, temp, lo).0;
    CompareShape(a, key, mid, hi, lo, mid + 1);
    FrontShape(a, key, lo, mid, hi, c, front);
    BackShape(a, lo, hi, temp, back);
    var s := front + back;
    var n := hi + 1 - lo;
    assert |front| == n;
    forall k | 0 <= k < n ensures ReadShown(s[k], a, lo, mid, hi) {
      assert s[k] == front[k];
    }
    assert |back| == n;
    forall k | n <= k < 2 * n ensures s[k].highlight == [lo + k - n] {
      var t := k - n;
      assert s[k] == back[t];
      assert back[t].highlight == [lo + t];
    }
  }

  /** The comparison and drain snapshots of a merge read the array without
      changing it. */
  lemma FrontShape<T>(a: seq<T>, key: T -> int, lo: nat, mid: nat, hi: nat, c: (seq<SortStep<T>>, seq<T>, nat, nat), front: seq<SortStep<T>>)
    requires lo <= mid < hi < |a|
    requires c == Compare(a, key, mid, hi, lo, mid + 1)
    requires front == c.0 + Drain(a, c.2, mid) + Drain(a, c.3, hi)
    ensures |front| == hi + 1 - lo
    ensures forall k :: 0 <= k < |front| ==> ReadShown(front[k], a, lo, mid, hi)
  {
    var s1, i, j := c.0, c.2, c.3;
    var d1, d2 := Drain(a, i, mid), Drain(a, j, hi);
    CompareShape(a, key, mid, hi, lo, mid + 1);
    var s := s1 + d1 + d2;
    forall k | 0 <= k < |s| ensures ReadShown(s[k], a, lo, mid, hi) {
      if k < |s1| {
        assert s[k] == s1[k];
        CompareStep(a, key, mid, hi, lo, mid + 1, k);
      } else if k < |s1| + |d1| {
        assert s[k] == d1[k - |s1|] == SortStep(a, [i + (k - |s1|)]);
      } else {
        assert s[k] == d2[k - |s1| - |d1|] == SortStep(a, [j + (k - |s1| - |d1|)]);
      }
    }
  }

  /** The copy-back snapshots highlight `left, ..., right` in order. */
  lemma BackShape<T>(a: seq<T>, lo: nat, hi: nat, temp: seq<T>, back: seq<SortStep<T>>)
    requires lo <= hi < |a| && |temp| == hi + 1 - lo
    requires back == WriteBack(a, lo, hi, temp, lo).0
    ensures |back| == hi + 1 - lo
    ensures forall t :: 0 <= t < |back| ==> back[t].highlight == [lo + t]
  {
    forall t | 0 <= t < |back| ensures back[t].highlight == [lo + t] {
      WriteBackStep(a, lo, hi, temp, lo, t);
    }
  }

  /** The last snapshot of a merge shows the array the merge returns. */
  lemma MergeLast<T>(a: seq<T>, key: T -> int, lo: nat, mid: nat, hi: nat)
    requires lo <= mid < hi < |a|
    ensures |Merge(a, key, lo, mid, hi).0| > 0
    ensures Merge(a, key, lo, mid, hi).0[|Merge(a, key, lo, mid, hi).0| - 1].arr == Merge(a, key, lo, mid, hi).1
  {
    var c := Compare(a, key, mid, hi, lo, mid + 1);
    var temp := c.1 + a[c.2..mid + 1] + a[c.3..hi + 1];
    var w := WriteBack(a, lo, hi, temp, lo);
    var s := c.0 + Drain(a, c.2, mid) + Drain(a, c.3, hi) + w.0;
    assert Merge(a, key, lo, mid, hi) == (s, w.1);
    WriteBackStep(a, lo, hi, temp, lo, hi - lo);
    WriteBackResult(a, lo, hi, temp, lo);
    assert s[|s| - 1] == w.0[hi - lo];
    assert w.0[hi - lo].arr == w.1;
  }

  // ---------------------------------------------------------------------
  // The whole sort.

  /** `b` is `a` with `[lo, hi]` sorted by key, stably, and nothing outside
      that range touched. */
  ghost predicate SortsRange<T>(a: seq<T>, b: seq<T>, key: T -> int, lo: int, hi: int)
    requires 0 <= lo <= hi + 1 <= |a|
  {
    && |b| == |a|
    && (forall p :: 0 <= p < |a| && !(lo <= p <= hi) ==> b[p] == a[p])
    && SortedBy(b[lo..hi + 1], key)
    && multiset(b[lo..hi + 1]) == multiset(a[lo..hi + 1])
    && SameKeyOrder(b[lo..hi + 1], a[lo..hi + 1], key)
  }

  /** `u` and `v` list the elements of each key in the same order. */
  ghost predicate SameKeyOrder<T>(u: seq<T>, v: seq<T>, key: T -> int)
  {
    forall w :: WithKey(u, key, w) == WithKey(v, key, w)
  }

  lemma SortsNothing<T>(a: seq<T>, key: T -> int, lo: int, hi: int)
    requires 0 <= lo <= hi + 1 <= |a| && lo >= hi
    ensures SortsRange(a, a, key, lo, hi)
  {
    if lo == hi {
      assert a[lo..hi + 1] == [a[lo]];
    } else {
      assert a[lo..hi + 1] == [];
    }
  }

  /** The step of `SortResult` for `lo < hi`: two sorted halves, then a merge. */
  lemma SortsHalves<T>(a: seq<T>, a1: seq<T>, a2: seq<T>, a3: seq<T>, key: T -> int, lo: nat, mid: nat, hi: nat)
    requires lo <= mid < hi < |a|
    requires SortsRange(a, a1, key, lo, mid) && SortsRange(a1, a2, key, mid + 1, hi)
    requires |a3| == |a2|
    requires a3[lo..hi + 1] == MergeLists(a2[lo..mid + 1], a2[mid + 1..hi + 1], key)
    requires forall p :: 0 <= p < |a2| && !(lo <= p <= hi) ==> a3[p] == a2[p]
    ensures SortsRange(a, a3, key, lo, hi)
  {
    var L, R := a2[lo..mid + 1], a2[mid + 1..hi + 1];
    assert L == a1[lo..mid + 1];
    assert a1[mid + 1..hi + 1] == a[mid + 1..hi + 1];
    assert a[lo..hi + 1] == a[lo..mid + 1] + a[mid + 1..hi + 1];
    MergeListsSorted(L, R, key);
    MergeListsPerm(L, R, key);
    var c, u, v := a3[lo..hi + 1], a[lo..mid + 1], a[mid + 1..hi + 1];
    forall w ensures WithKey(c, key, w) == WithKey(u + v, key, w) {
      MergeListsStable(L, R, key, w);
      WithKeyConcat(u, v, key, w);
    }
  }

  /** Every snapshot in `P` shows an array of length `n` and highlights
      positions of `[lo, hi]` only. */
  ghost predicate Within<T>(P: seq<SortStep<T>>, n: nat, lo: int, hi: int)
  {
    forall k :: 0 <= k < |P| ==> StepWithin(P[k], n, lo, hi)
  }

  ghost predicate StepWithin<T>(st: SortStep<T>, n: nat, lo: int, hi: int)
  {
    |st.arr| == n && forall q :: 0 <= q < |st.highlight| ==> lo <= st.highlight[q] <= hi
  }

  lemma WithinConcat<T>(P: seq<SortStep<T>>, Q: seq<SortStep<T>>, n: nat, lo: int, hi: int)
    requires Within(P, n, lo, hi) && Within(Q, n, lo, hi)
    ensures Within(P + Q, n, lo, hi)
  {
    forall k | 0 <= k < |P + Q| ensures StepWithin((P + Q)[k], n, lo, hi) {
      if k < |P| { assert (P + Q)[k] == P[k]; } else { assert (P + Q)[k] == Q[k - |P|]; }
    }
  }

  lemma WithinWiden<T>(P: seq<SortStep<T>>, n: nat, lo: int, hi: int, lo': int, hi': int)
    requires Within(P, n, lo, hi) && lo' <= lo && hi <= hi'
    ensures Within(P, n, lo', hi')
  {
  }

  /** A merge of `[left, right]` shows full-length arrays and highlights only
      positions of `[left, right]`. */
  lemma MergeWithin<T>(a: seq<T>, key: T -> int, lo: nat, mid: nat, hi: nat)
    requires lo <= mid < hi < |a|
    ensures Within(Merge(a, key, lo, mid, hi).0, |a|, lo, hi)
  {
    var c := Compare(a, key, mid, hi, lo, mid + 1);
    var temp := c.1 + a[c.2..mid + 1] + a[c.3..hi + 1];
    var s4 := WriteBack(a, lo, hi, temp, lo).0;
    var s := c.0 + Drain(a, c.2, mid) + Drain(a, c.3, hi) + s4;
    assert Merge(a, key, lo, mid, hi).0 == s;
    MergeShape(a, key, lo, mid, hi);
    var n := hi + 1 - lo;
    forall k | 0 <= k < |s| ensures StepWithin(s[k], |a|, lo, hi) {
      if k >= n {
        assert s[k] == s4[k - n];
        WriteBackStep(a, lo, hi, temp, lo, k - n);
      }
    }
  }

  lemma WithinJoin<T>(s1: seq<SortStep<T>>, s2: seq<SortStep<T>>, s3: seq<SortStep<T>>, n: nat, lo: int, mid: int, hi: int)
    requires lo <= mid < hi
    requires Within(s1, n, lo, mid) && Within(s2, n, mid + 1, hi) && Within(s3, n, lo, hi)
    ensures Within(s1 + s2 + s3, n, lo, hi)
  {
    WithinWiden(s1, n, lo, mid, lo, hi);
    WithinWiden(s2, n, mid + 1, hi, lo, hi);
    WithinConcat(s1, s2, n, lo, hi);
    WithinConcat(s1 + s2, s3, n, lo, hi);
  }

  lemma LastJoin<T>(s: seq<SortStep<T>>, t: seq<SortStep<T>>)
    requires |t| > 0
    ensures |s + t| > 0 && (s + t)[|s + t| - 1] == t[|t| - 1]
  {
  }

  /** `mergeSortSteps(array)`: no snapshots for fewer than two elements;
      otherwise every snapshot shows an array as long as the input and
      highlights positions inside it, and the last one shows the input sorted
      by key, as a permutation that keeps equal keys in their input order. */
  lemma MergeSortResult<T>(a: seq<T>, key: T -> int)
    ensures var steps := MergeSortSteps(a, key);
      && (|steps| == 0 <==> |a| <= 1)
      && Within(steps, |a|, 0, |a| - 1)
      && (|steps| > 0 ==>
            var last := steps[|steps| - 1].arr;
            SortedBy(last, key) && multiset(last) == multiset(a) && SameKeyOrder(last, a, key))
  {
    WholeRange(a, Sort(a, key, 0, |a| - 1).1, key);
  }

  lemma WholeRange<T>(a: seq<T>, b: seq<T>, key: T -> int)
    requires SortsRange(a, b, key, 0, |a| - 1)
    ensures SortedBy(b, key) && multiset(b) == multiset(a) && SameKeyOrder(b, a, key)
  {
    assert b[0..|a|] == b && a[0..|a|] == a;
  }

  /** The copy-back snapshots of a merge are not permutations of the input:
      sorting `[2, 1]` shows `[1, 1]` after the first element is written. */
  lemma WriteBackDuplicates()
    ensures var steps := MergeSortSteps([2, 1], (x: int) => x);
      |steps| == 4 && steps[2].arr == [1, 1] && multiset(steps[2].arr) != multiset([2, 1])
  {
    var a := [2, 1];
    var key := (x: int) => x;
    SortPair(a, key);
    MergeTwoOne(key);
    assert multiset([1, 1])[2] == 0;
  }

  /** Sorting two elements is one merge of two one-element halves. */
  lemma SortPair<T>(a: seq<T>, key: T -> int)
    requires |a| == 2
    ensures MergeSortSteps(a, key) == Merge(a, key, 0, 0, 1).0
  {
    assert Sort(a, key, 0, 0).0 == [] && Sort(a, key, 0, 0).1 == a;
    assert Sort(a, key, 1, 1).0 == [] && Sort(a, key, 1, 1).1 == a;
  }

  /** The snapshots of merging `[2]` with `[1]`. */
  lemma MergeTwoOne(key: int -> int)
    requires forall x :: key(x) == x
    ensures var s := Merge([2, 1], key, 0, 0, 1).0;
      |s| == 4 && s[2].arr == [1, 1]
  {
    var a := [2, 1];
    assert key(a[0]) == 2 && key(a[1]) == 1;
    assert Compare(a, key, 0, 1, 0, 2) == ([], [], 0, 2);
    var c := Compare(a, key, 0, 1, 0, 1);
    assert !(key(a[0]) <= key(a[1]));
    var r := Compare(a, key, 0, 1, 0, 2);
    assert c == ([SortStep(a, [0, 1])] + r.0, [a[1]] + r.1, r.2, r.3);
    assert r.0 == [] && r.1 == [] && a[1] == 1;
    assert [SortStep(a, [0, 1])] + r.0 == [SortStep(a, [0, 1])] && [a[1]] + r.1 == [1];
    assert c == ([SortStep(a, [0, 1])], [1], 0, 2);
    var temp := c.1 + a[c.2..1] + a[c.3..2];
    assert temp == [1, 2];
    assert a[0 := temp[0]] == [1, 1] && [1, 1][1 := temp[1]] == [1, 2];
    assert WriteBack([1, 2], 0, 1, temp, 2) == ([], [1, 2]);
    assert WriteBack([1, 1], 0, 1, temp, 1).0 == [SortStep([1, 2], [1])];
    var w := WriteBack(a, 0, 1, temp, 0);
    assert w.0 == [SortStep([1, 1], [0]), SortStep([1, 2], [1])];
    assert Drain(a, 0, 0) == [SortStep(a, [0])] && Drain(a, 2, 1) == [];
    assert Merge(a, key, 0, 0, 1).0 == c.0 + Drain(a, 0, 0) + Drain(a, 2, 1) + w.0;
  }
}
