/** `insertionSortSteps` of the insertion-sort page: each element is moved
    left by adjacent swaps while its left neighbour is strictly greater. The
    page sorts numbers; `int` models them. */
module InsertionSort {
  import opened Common

  type Step = SortStep<int>

  predicate Sorted(s: seq<int>)
  {
    forall p, q :: 0 <= p < q < |s| ==> s[p] <= s[q]
  }

  /** The destructuring swap of positions `p` and `q`. */
  function Swap(a: seq<int>, p: nat, q: nat): (r: seq<int>)
    requires p < |a| && q < |a|
    ensures |r| == |a| && r[p] == a[q] && r[q] == a[p]
  {
    a[p := a[q]][q := a[p]]
  }

  /** Swapping rearranges, and touches nothing but the two positions. */
  lemma SwapPerm(a: seq<int>, p: nat, q: nat)
    requires p < |a| && q < |a|
    ensures multiset(Swap(a, p, q)) == multiset(a)
    ensures forall k :: 0 <= k < |a| && k != p && k != q ==> Swap(a, p, q)[k] == a[k]
  {
  }

  /** The inner `while (j > 0 && a[j - 1] > a[j])` loop: the snapshots it
      records (before and after each swap, both highlighting `[j, j - 1]`)
      and the array it leaves. */
  function Inner(a: seq<int>, j: nat): (r: (seq<Step>, seq<int>))
    requires j < |a|
    ensures |r.1| == |a|
    ensures multiset(r.1[..j + 1]) == multiset(a[..j + 1])
    ensures r.1[j + 1..] == a[j + 1..]
    decreases j
  {
    if j > 0 && a[j - 1] > a[j] then
      var b := Swap(a, j - 1, j);
      var r := Inner(b, j - 1);
      SwapFrame(a, b, r.1, j);
      ([SortStep(a, [j, j - 1]), SortStep(b, [j, j - 1])] + r.0, r.1)
    else
      ([], a)
  }

  /** One swap followed by the rest of the inner loop keeps the frame. */
  lemma SwapFrame(a: seq<int>, b: seq<int>, c: seq<int>, j: nat)
    requires 0 < j < |a| && b == Swap(a, j - 1, j) && |c| == |a|
    requires multiset(c[..j]) == multiset(b[..j]) && c[j..] == b[j..]
    ensures multiset(c[..j + 1]) == multiset(a[..j + 1]) && c[j + 1..] == a[j + 1..]
  {
    assert a[..j + 1] == a[..j - 1] + [a[j - 1], a[j]];
    assert b[..j + 1] == a[..j - 1] + [a[j], a[j - 1]];
    assert c[..j + 1] == c[..j] + [c[j]];
    assert b[..j + 1] == b[..j] + [b[j]];
    assert c[j] == c[j..][0] == b[j..][0] == b[j];
    assert c[j + 1..] == c[j..][1..] == b[j..][1..] == b[j + 1..];
    assert b[j + 1..] == a[j + 1..];
    calc {
      multiset(c[..j + 1]);
      multiset(c[..j]) + multiset{c[j]};
      multiset(b[..j]) + multiset{b[j]};
      multiset(b[..j + 1]);
      multiset(a[..j - 1]) + multiset{a[j], a[j - 1]};
      multiset(a[..j + 1]);
    }
  }

  lemma InnerPerm(a: seq<int>, j: nat)
    requires j < |a|
    ensures multiset(Inner(a, j).1) == multiset(a)
  {
    var c := Inner(a, j).1;
    assert a == a[..j + 1] + a[j + 1..] && c == c[..j + 1] + c[j + 1..];
  }

  /** The outer `for (let i = 1; i < a.length; i++)` loop from `i` on: the
      snapshot highlighting `[i]`, then the inner loop, per iteration. */
  function Outer(a: seq<int>, i: nat): (r: (seq<Step>, seq<int>))
    requires 1 <= i
    ensures |r.1| == |a| && multiset(r.1) == multiset(a)
    decreases |a| - i
  {
    if i < |a| then
      var inner := Inner(a, i);
      InnerPerm(a, i);
      var rest := Outer(inner.1, i + 1);
      ([SortStep(a, [i])] + inner.0 + rest.0, rest.1)
    else
      ([], a)
  }

  /** `insertionSortSteps(array)`: the input highlighting `[0]`, the loop's
      snapshots, and the final array with no highlight. */
  function InsertionSortSteps(a: seq<int>): seq<Step>
  {
    var r := Outer(a, 1);
    [SortStep(a, [0])] + r.0 + [SortStep(r.1, [])]
  }

  // ---------------------------------------------------------------------
  // Counting inversions.

  /** How many elements of `s` are strictly greater than `x`. */
  function CountGreater(s: seq<int>, x: int): nat
  {
    if |s| == 0 then 0 else CountGreater(s[..|s| - 1], x) + (if s[|s| - 1] > x then 1 else 0)
  }

  /** The inversions `p < q` with `a[p] > a[q]` for the positions `q >= from`,
      counted position by position. */
  function InversionsFrom(a: seq<int>, from: nat): nat
    decreases |a| - from
  {
    if from >= |a| then 0 else CountGreater(a[..from], a[from]) + InversionsFrom(a, from + 1)
  }

  function Inversions(a: seq<int>): nat
  {
    InversionsFrom(a, 0)
  }

  lemma {:induction false} CountGreaterZero(s: seq<int>, x: int)
    ensures CountGreater(s, x) == 0 <==> forall p :: 0 <= p < |s| ==> s[p] <= x
  {
    if |s| > 0 {
      CountGreaterZero(s[..|s| - 1], x);
    }
  }

  lemma {:induction false} CountGreaterConcat(u: seq<int>, v: seq<int>, x: int)
    ensures CountGreater(u + v, x) == CountGreater(u, x) + CountGreater(v, x)
    decreases |v|
  {
    if |v| > 0 {
      assert (u + v)[..|u + v| - 1] == u + v[..|v| - 1];
      CountGreaterConcat(u, v[..|v| - 1], x);
    } else {
      assert u + v == u;
    }
  }

  /** The count depends only on the multiset of elements. */
  lemma {:induction false} CountGreaterPerm(s: seq<int>, t: seq<int>, x: int)
    requires multiset(s) == multiset(t)
    ensures CountGreater(s, x) == CountGreater(t, x)
    decreases |s|
  {
    if |s| == 0 {
      assert |t| == |multiset(t)| == 0;
    } else {
      var y := s[|s| - 1];
      assert s == s[..|s| - 1] + [y];
      assert y in multiset(t);
      var k :| 0 <= k < |t| && t[k] == y;
      var t' := t[..k] + t[k + 1..];
      assert t == t[..k] + [y] + t[k + 1..];
      calc {
        multiset(t') + multiset{y};
        multiset(t[..k]) + multiset(t[k + 1..]) + multiset{y};
        multiset(t);
        multiset(s);
        multiset(s[..|s| - 1]) + multiset{y};
      }
      assert multiset(t') == (multiset(t') + multiset{y}) - multiset{y};
      assert multiset(s[..|s| - 1]) == (multiset(s[..|s| - 1]) + multiset{y}) - multiset{y};
      CountGreaterPerm(s[..|s| - 1], t', x);
      CountGreaterConcat(t[..k] + [y], t[k + 1..], x);
      CountGreaterConcat(t[..k], [y], x);
      CountGreaterConcat(t[..k], t[k + 1..], x);
      assert [y][..0] == [];
    }
  }

  /** Rearranging a prefix leaves the inversions counted at the later positions alone. */
  lemma {:induction false} InversionsFromFrame(a: seq<int>, b: seq<int>, i: nat)
    requires |a| == |b| && i <= |a|
    requires multiset(a[..i]) == multiset(b[..i]) && a[i..] == b[i..]
    ensures InversionsFrom(a, i) == InversionsFrom(b, i)
    decreases |a| - i
  {
    if i < |a| {
      assert a[i] == a[i..][0] == b[i..][0] == b[i];
      CountGreaterPerm(a[..i], b[..i], a[i]);
      assert a[..i + 1] == a[..i] + [a[i]] && b[..i + 1] == b[..i] + [b[i]];
      assert a[i + 1..] == a[i..][1..] == b[i..][1..] == b[i + 1..];
      InversionsFromFrame(a, b, i + 1);
    }
  }

  /** No inversions exactly when sorted. */
  lemma {:induction false} InversionsZero(a: seq<int>)
    ensures Inversions(a) == 0 <==> Sorted(a)
  {
    if Sorted(a) {
      forall q | 0 <= q < |a| ensures CountGreater(a[..q], a[q]) == 0 {
        CountGreaterZero(a[..q], a[q]);
      }
      NoneFrom(a, 0);
    } else {
      var p, q :| 0 <= p < q < |a| && a[p] > a[q];
      CountGreaterZero(a[..q], a[q]);
      SomeFrom(a, 0, q);
    }
  }

  lemma {:induction false} NoneFrom(a: seq<int>, i: nat)
    requires forall q :: 0 <= q < |a| ==> CountGreater(a[..q], a[q]) == 0
    ensures InversionsFrom(a, i) == 0
    decreases |a| - i
  {
    if i < |a| {
      NoneFrom(a, i + 1);
    }
  }

  lemma {:induction false} SomeFrom(a: seq<int>, i: nat, q: nat)
    requires i <= q < |a| && CountGreater(a[..q], a[q]) > 0
    ensures InversionsFrom(a, i) > 0
    decreases q - i
  {
    if i < q {
      SomeFrom(a, i + 1, q);
    }
  }

  // ---------------------------------------------------------------------
  // The inner and outer loops.

  lemma SortedPrefix(s: seq<int>, m: nat)
    requires Sorted(s) && m <= |s|
    ensures Sorted(s[..m])
  {
  }

  /** A sorted sequence extended by an element no smaller than any of it. */
  lemma SortedExtend(s: seq<int>)
    requires |s| > 0 && Sorted(s[..|s| - 1])
    requires forall p :: 0 <= p < |s| - 1 ==> s[p] <= s[|s| - 1]
    ensures Sorted(s)
  {
    forall p, q | 0 <= p < q < |s| ensures s[p] <= s[q] {
      if q < |s| - 1 {
        assert s[p] == s[..|s| - 1][p] && s[q] == s[..|s| - 1][q];
      }
    }
  }

  /** The inner loop sorts the first `j + 1` elements when the first `j` were sorted. */
  lemma {:induction false} InnerSorts(a: seq<int>, j: nat)
    requires j < |a| && Sorted(a[..j])
    ensures Sorted(Inner(a, j).1[..j + 1])
    decreases j
  {
    if j > 0 && a[j - 1] > a[j] {
      var b := Swap(a, j - 1, j);
      var c := Inner(b, j - 1).1;
      assert b[..j - 1] == a[..j][..j - 1];
      SortedPrefix(a[..j], j - 1);
      InnerSorts(b, j - 1);
      SwapBound(a, b, c, j);
      assert c[..j + 1][..j] == c[..j];
      SortedExtend(c[..j + 1]);
    } else if j > 0 {
      var s := a[..j + 1];
      assert s[..j] == a[..j];
      forall p | 0 <= p < j ensures s[p] <= s[j] {
        assert a[..j][p] <= a[..j][j - 1];
      }
      SortedExtend(s);
    }
  }

  /** After the swap at `j` and the rest of the loop, the element at `j` (the
      old `a[j - 1]`) bounds everything left of it. */
  lemma SwapBound(a: seq<int>, b: seq<int>, c: seq<int>, j: nat)
    requires 0 < j < |a| && Sorted(a[..j]) && a[j - 1] > a[j] && b == Swap(a, j - 1, j)
    requires |c| == |a| && multiset(c[..j]) == multiset(b[..j]) && c[j..] == b[j..]
    ensures forall p :: 0 <= p < j ==> c[p] <= c[j]
  {
    assert c[j] == c[j..][0] == b[j..][0] == a[j - 1];
    forall p | 0 <= p < j ensures c[p] <= c[j] {
      assert c[..j][p] == c[p];
      assert c[p] in multiset(b[..j]);
      var p' :| 0 <= p' < j && b[..j][p'] == c[p];
      if p' < j - 1 {
        assert b[p'] == a[p'] == a[..j][p'];
        assert a[..j][p'] <= a[..j][j - 1];
      }
    }
  }

  /** The inner loop swaps once per earlier element greater than `a[j]`. */
  lemma {:induction false} InnerCount(a: seq<int>, j: nat)
    requires j < |a| && Sorted(a[..j])
    ensures |Inner(a, j).0| == 2 * CountGreater(a[..j], a[j])
    decreases j
  {
    if j > 0 && a[j - 1] > a[j] {
      var b := Swap(a, j - 1, j);
      assert b[..j - 1] == a[..j][..j - 1];
      SortedPrefix(a[..j], j - 1);
      InnerCount(b, j - 1);
    } else if j > 0 {
      forall p | 0 <= p < j ensures a[p] <= a[j] {
        assert a[..j][p] <= a[..j][j - 1];
      }
      CountGreaterZero(a[..j], a[j]);
    }
  }

  /** Outer iterations from `i` on record one marker snapshot per position
      plus two snapshots per inversion. */
  lemma {:induction false} OuterCount(a: seq<int>, i: nat)
    requires 1 <= i && (i <= |a| ==> Sorted(a[..i]))
    ensures |Outer(a, i).0| == (if i < |a| then |a| - i else 0) + 2 * InversionsFrom(a, i)
    decreases |a| - i
  {
    if i < |a| {
      var b := Inner(a, i).1;
      InnerCount(a, i);
      InnerSorts(a, i);
      OuterCount(b, i + 1);
      assert multiset(a[..i + 1]) == multiset(b[..i + 1]);
      InversionsFromFrame(a, b, i + 1);
    }
  }

  lemma {:induction false} OuterSorts(a: seq<int>, i: nat)
    requires 1 <= i <= |a| && Sorted(a[..i])
    ensures Sorted(Outer(a, i).1)
    decreases |a| - i
  {
    if i < |a| {
      InnerSorts(a, i);
      OuterSorts(Inner(a, i).1, i + 1);
    } else {
      assert a[..i] == a;
    }
  }

  // ---------------------------------------------------------------------
  // What the timeline shows.

  /** Neighbouring snapshots `s`, `t` show one swap of the out-of-order
      adjacent pair highlighted as `[j, j - 1]`. */
  predicate SwapShown(s: Step, t: Step)
  {
    && |s.highlight| == 2 && t.highlight == s.highlight
    && 1 <= s.highlight[0] < |s.arr| && s.highlight[1] == s.highlight[0] - 1
    && s.arr[s.highlight[0] - 1] > s.arr[s.highlight[0]]
    && t.arr == Swap(s.arr, s.highlight[0] - 1, s.highlight[0])
  }

  /** Neighbouring snapshots show the same array, or one shown swap. */
  predicate Linked(s: Step, t: Step)
  {
    s.arr != t.arr ==> SwapShown(s, t)
  }

  /** `P` shows array `a` first and array `b` last, and neighbouring
      snapshots are linked (`ChainLinks` states it position by position). */
  predicate Chain(P: seq<Step>, a: seq<int>, b: seq<int>)
    decreases |P|
  {
    if |P| == 0 then a == b
    else P[0].arr == a && if |P| == 1 then a == b else Linked(P[0], P[1]) && Chain(P[1..], P[1].arr, b)
  }

  /** Every snapshot shows a rearrangement of `a`. */
  predicate AllPerm(P: seq<Step>, a: seq<int>)
  {
    forall k :: 0 <= k < |P| ==> multiset(P[k].arr) == multiset(a)
  }

  /** A snapshot highlighting a single position `i` shows its first `i`
      elements sorted: the invariant of the outer loop. */
  predicate Marks(P: seq<Step>)
  {
    forall k :: 0 <= k < |P| && |P[k].highlight| == 1 ==>
      P[k].highlight[0] <= |P[k].arr| && Sorted(P[k].arr[..P[k].highlight[0]])
  }

  /** A chain from `a` to `b` starts at `a`, ends at `b`, and links every
      neighbouring pair; conversely such a sequence is a chain. */
  lemma {:induction false} ChainLinks(P: seq<Step>, a: seq<int>, b: seq<int>)
    requires |P| > 0
    ensures Chain(P, a, b) <==>
      P[0].arr == a && P[|P| - 1].arr == b && forall k :: 0 <= k < |P| - 1 ==> Linked(P[k], P[k + 1])
    decreases |P|
  {
    if |P| > 1 {
      ChainLinks(P[1..], P[1].arr, b);
      if P[0].arr == a && P[|P| - 1].arr == b && forall k :: 0 <= k < |P| - 1 ==> Linked(P[k], P[k + 1]) {
        assert Linked(P[0], P[1]);
        forall k | 0 <= k < |P[1..]| - 1 ensures Linked(P[1..][k], P[1..][k + 1]) {
          assert Linked(P[k + 1], P[k + 2]);
        }
      }
      if Chain(P, a, b) {
        forall k | 0 <= k < |P| - 1 ensures Linked(P[k], P[k + 1]) {
          if k > 0 {
            assert Linked(P[1..][k - 1], P[1..][k]);
          }
        }
      }
    }
  }

  lemma {:induction false} ChainConcat(P: seq<Step>, Q: seq<Step>, a: seq<int>, b: seq<int>, c: seq<int>)
    requires Chain(P, a, b) && Chain(Q, b, c)
    ensures Chain(P + Q, a, c)
    decreases |P|
  {
    if |P| == 0 {
      assert P + Q == Q;
    } else if |P| == 1 {
      if |Q| == 0 {
        assert P + Q == P;
      } else {
        assert (P + Q)[1..] == Q;
      }
    } else {
      assert (P + Q)[1..] == P[1..] + Q;
      ChainConcat(P[1..], Q, P[1].arr, b, c);
    }
  }

  lemma AllPermConcat(P: seq<Step>, Q: seq<Step>, a: seq<int>)
    requires AllPerm(P, a) && AllPerm(Q, a)
    ensures AllPerm(P + Q, a)
  {
    forall k | 0 <= k < |P + Q| ensures multiset((P + Q)[k].arr) == multiset(a) {
      if k < |P| { assert (P + Q)[k] == P[k]; } else { assert (P + Q)[k] == Q[k - |P|]; }
    }
  }

  lemma MarksConcat(P: seq<Step>, Q: seq<Step>)
    requires Marks(P) && Marks(Q)
    ensures Marks(P + Q)
  {
    forall k | 0 <= k < |P + Q| && |(P + Q)[k].highlight| == 1
      ensures (P + Q)[k].highlight[0] <= |(P + Q)[k].arr| && Sorted((P + Q)[k].arr[..(P + Q)[k].highlight[0]])
    {
      if k < |P| { assert (P + Q)[k] == P[k]; } else { assert (P + Q)[k] == Q[k - |P|]; }
    }
  }

  /** The inner loop's snapshots: a chain of shown swaps from `a` to the array
      it leaves, all rearrangements of `a`, all highlighting a pair. */
  lemma {:induction false} InnerTrace(a: seq<int>, j: nat)
    requires j < |a|
    ensures Chain(Inner(a, j).0, a, Inner(a, j).1)
    ensures AllPerm(Inner(a, j).0, a)
    ensures Pairs(Inner(a, j).0)
    decreases j
  {
    if j > 0 && a[j - 1] > a[j] {
      var b := Swap(a, j - 1, j);
      var r := Inner(b, j - 1);
      InnerTrace(b, j - 1);
      SwapPerm(a, j - 1, j);
      var H := [SortStep(a, [j, j - 1]), SortStep(b, [j, j - 1])];
      assert Inner(a, j) == (H + r.0, r.1);
      SwapThenRest(a, j, b, r.0, r.1);
    }
  }

  /** The inductive step of `InnerTrace`: one shown swap in front of the
      rest of the loop. */
  lemma SwapThenRest(a: seq<int>, j: nat, b: seq<int>, steps: seq<Step>, c: seq<int>)
    requires 0 < j < |a| && a[j - 1] > a[j] && b == Swap(a, j - 1, j)
    requires multiset(b) == multiset(a)
    requires Chain(steps, b, c) && AllPerm(steps, b)
    requires Pairs(steps)
    ensures var P := [SortStep(a, [j, j - 1]), SortStep(b, [j, j - 1])] + steps;
      Chain(P, a, c) && AllPerm(P, a) && Pairs(P)
  {
    var H := [SortStep(a, [j, j - 1]), SortStep(b, [j, j - 1])];
    SwapChain(a, j, b);
    ChainConcat(H, steps, a, b, c);
    AllPermConcat(H, steps, a);
    PairsConcat(H, steps);
  }

  lemma SwapChain(a: seq<int>, j: nat, b: seq<int>)
    requires 0 < j < |a| && a[j - 1] > a[j] && b == Swap(a, j - 1, j)
    ensures Chain([SortStep(a, [j, j - 1]), SortStep(b, [j, j - 1])], a, b)
  {
    var H := [SortStep(a, [j, j - 1]), SortStep(b, [j, j - 1])];
    assert SwapShown(H[0], H[1]);
    assert Chain(H[1..], b, b);
  }

  /** Every snapshot highlights a pair. */
  predicate Pairs(P: seq<Step>)
  {
    forall k :: 0 <= k < |P| ==> |P[k].highlight| == 2
  }

  lemma PairsConcat(P: seq<Step>, Q: seq<Step>)
    requires Pairs(P) && Pairs(Q)
    ensures Pairs(P + Q)
  {
    forall k | 0 <= k < |P + Q| ensures |(P + Q)[k].highlight| == 2 {
      if k < |P| { assert (P + Q)[k] == P[k]; } else { assert (P + Q)[k] == Q[k - |P|]; }
    }
  }

  /** The outer loop's snapshots from iteration `i` on. */
  lemma {:induction false} OuterTrace(a: seq<int>, i: nat)
    requires 1 <= i && (i <= |a| ==> Sorted(a[..i]))
    ensures Shows(Outer(a, i).0, a, Outer(a, i).1)
    decreases |a| - i
  {
    if i < |a| {
      var inner := Inner(a, i);
      var rest := Outer(inner.1, i + 1);
      var H := [SortStep(a, [i])];
      OuterHead(a, i);
      OuterTrace(inner.1, i + 1);
      OuterUnfold(a, i);
      ShowsThenRest(H + inner.0, rest.0, a, inner.1, rest.1);
    }
  }

  lemma OuterUnfold(a: seq<int>, i: nat)
    requires 1 <= i < |a|
    ensures Outer(a, i).0 == [SortStep(a, [i])] + Inner(a, i).0 + Outer(Inner(a, i).1, i + 1).0
    ensures Outer(a, i).1 == Outer(Inner(a, i).1, i + 1).1
  {
  }

  /** The inductive step of `OuterTrace`: the rest of the loop shows
      rearrangements of the array it starts from, so of the input too. */
  lemma ShowsThenRest(P: seq<Step>, Q: seq<Step>, a: seq<int>, b: seq<int>, c: seq<int>)
    requires Shows(P, a, b) && Shows(Q, b, c) && multiset(b) == multiset(a)
    ensures Shows(P + Q, a, c)
  {
    assert AllPerm(Q, a);
    Compose(P, Q, a, b, c);
  }

  /** The marker snapshot and the inner loop of iteration `i`. */
  lemma OuterHead(a: seq<int>, i: nat)
    requires 1 <= i < |a| && Sorted(a[..i])
    ensures Shows([SortStep(a, [i])] + Inner(a, i).0, a, Inner(a, i).1)
    ensures Sorted(Inner(a, i).1[..i + 1]) && multiset(Inner(a, i).1) == multiset(a)
  {
    InnerTrace(a, i);
    InnerSorts(a, i);
    InnerPerm(a, i);
    MarkThenInner(a, i, Inner(a, i).0, Inner(a, i).1);
  }

  /** A marker snapshot of a sorted prefix in front of pair-highlighting
      snapshots. */
  lemma MarkThenInner(a: seq<int>, i: nat, inner: seq<Step>, b: seq<int>)
    requires 1 <= i < |a| && Sorted(a[..i])
    requires Chain(inner, a, b) && AllPerm(inner, a) && Pairs(inner)
    ensures Shows([SortStep(a, [i])] + inner, a, b)
  {
    var H := [SortStep(a, [i])];
    assert Shows(H, a, a);
    assert Marks(inner);
    Compose(H, inner, a, a, b);
  }

  /** The three timeline facts together. */
  predicate Shows(P: seq<Step>, a: seq<int>, b: seq<int>)
  {
    Chain(P, a, b) && AllPerm(P, a) && Marks(P)
  }

  lemma Compose(P: seq<Step>, Q: seq<Step>, a: seq<int>, b: seq<int>, c: seq<int>)
    requires Shows(P, a, b) && Chain(Q, b, c) && AllPerm(Q, a) && Marks(Q)
    ensures Shows(P + Q, a, c)
  {
    ChainConcat(P, Q, a, b, c);
    AllPermConcat(P, Q, a);
    MarksConcat(P, Q);
  }

  /** The whole timeline: the input highlighting `[0]` first, the input
      sorted with no highlight last, and in between only rearrangements of
      the input, changed one shown swap at a time, with the outer loop's
      sorted-prefix invariant visible at every single highlight. */
  lemma InsertionSortTrace(a: seq<int>)
    ensures var P := InsertionSortSteps(a);
      && |P| >= 2
      && P[0] == SortStep(a, [0])
      && P[|P| - 1].highlight == []
      && Sorted(P[|P| - 1].arr) && multiset(P[|P| - 1].arr) == multiset(a)
      && Shows(P, a, P[|P| - 1].arr)
  {
    var steps, final := Outer(a, 1).0, Outer(a, 1).1;
    if |a| > 0 {
      OuterSorts(a, 1);
    }
    OuterTrace(a, 1);
    var H := [SortStep(a, [0])];
    var T := [SortStep(final, [])];
    assert a[..0] == [];
    assert Shows(H, a, a);
    assert Chain(T, final, final) && AllPerm(T, a) && Marks(T);
    Compose(H, steps, a, a, final);
    Compose(H + steps, T, a, final, final);
    assert InsertionSortSteps(a) == H + steps + T;
  }

  /** Two fixed snapshots, one marker per position after the first, and two
      snapshots per inversion of the input. */
  lemma InsertionSortCount(a: seq<int>)
    ensures |InsertionSortSteps(a)| == 2 + (if |a| > 0 then |a| - 1 else 0) + 2 * Inversions(a)
  {
    OuterCount(a, 1);
  }
}
