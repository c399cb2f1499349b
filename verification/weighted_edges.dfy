/** Weighted undirected edges shared by the two minimum-spanning-tree pages:
    the running cost (`mstEdges.reduce((sum, e) => sum + e.weight, 0)`) and the
    stable ascending sort by weight (`edges.sort((a, b) => a.weight - b.weight)`;
    `Array.prototype.sort` is stable). */
module WeightedEdges {

  /** An edge `node1 - node2` of weight `weight`. The textual `id` and the
      display `status` of the pages are presentation only. */
  datatype Edge = Edge(node1: nat, node2: nat, weight: nat)

  /** Sum of the weights, accumulated from the left as `reduce` does. */
  function TotalWeight(es: seq<Edge>): nat
  {
    if |es| == 0 then 0 else TotalWeight(es[..|es| - 1]) + es[|es| - 1].weight
  }

  /** Appending one edge adds exactly its weight to the running cost. */
  lemma TotalWeightAppend(es: seq<Edge>, e: Edge)
    ensures TotalWeight(es + [e]) == TotalWeight(es) + e.weight
  {
    assert (es + [e])[..|es + [e]| - 1] == es;
  }

  predicate SortedByWeight(es: seq<Edge>)
  {
    forall i, j :: 0 <= i < j < |es| ==> es[i].weight <= es[j].weight
  }

  /** The edges of weight `w`, in their order in `es`: a sort is stable exactly
      when it keeps every one of these subsequences as it was. */
  function OfWeight(es: seq<Edge>, w: nat): seq<Edge>
  {
    if |es| == 0 then []
    else (if es[0].weight == w then [es[0]] else []) + OfWeight(es[1..], w)
  }

  /** Places `e` in front of the first edge that is at least as heavy. */
  function InsertByWeight(e: Edge, s: seq<Edge>): (r: seq<Edge>)
    requires SortedByWeight(s)
    ensures SortedByWeight(r)
    ensures multiset(r) == multiset(s) + multiset{e}
    ensures forall w :: OfWeight(r, w) == if e.weight == w then [e] + OfWeight(s, w) else OfWeight(s, w)
  {
    if |s| == 0 || e.weight <= s[0].weight then
      InsertFront(e, s);
      [e] + s
    else
      var tail := InsertByWeight(e, s[1..]);
      InsertBehind(e, s, tail);
      [s[0]] + tail
  }

  lemma InsertFront(e: Edge, s: seq<Edge>)
    requires SortedByWeight(s) && (|s| == 0 || e.weight <= s[0].weight)
    ensures SortedByWeight([e] + s)
    ensures multiset([e] + s) == multiset(s) + multiset{e}
    ensures forall w :: OfWeight([e] + s, w) == if e.weight == w then [e] + OfWeight(s, w) else OfWeight(s, w)
  {
    assert ([e] + s)[1..] == s;
  }

  /** `e` goes behind the lighter head `s[0]`, into the sorted tail. */
  lemma InsertBehind(e: Edge, s: seq<Edge>, tail: seq<Edge>)
    requires SortedByWeight(s) && |s| > 0 && e.weight > s[0].weight
    requires SortedByWeight(tail) && multiset(tail) == multiset(s[1..]) + multiset{e}
    requires forall w :: OfWeight(tail, w) == if e.weight == w then [e] + OfWeight(s[1..], w) else OfWeight(s[1..], w)
    ensures SortedByWeight([s[0]] + tail)
    ensures multiset([s[0]] + tail) == multiset(s) + multiset{e}
    ensures forall w :: OfWeight([s[0]] + tail, w) == if e.weight == w then [e] + OfWeight(s, w) else OfWeight(s, w)
  {
    assert s == [s[0]] + s[1..];
    assert ([s[0]] + tail)[1..] == tail;
    HeadBelow(e, s, tail);
    forall w ensures OfWeight([s[0]] + tail, w) == if e.weight == w then [e] + OfWeight(s, w) else OfWeight(s, w) {
      if e.weight == w {
        // everything in front of `e` is strictly lighter, so none of it has weight `w`
        assert OfWeight(s, w) == OfWeight(s[1..], w);
      }
    }
  }

  lemma HeadBelow(e: Edge, s: seq<Edge>, tail: seq<Edge>)
    requires SortedByWeight(s) && |s| > 0 && e.weight > s[0].weight
    requires SortedByWeight(tail) && multiset(tail) == multiset(s[1..]) + multiset{e}
    ensures SortedByWeight([s[0]] + tail)
  {
    forall k | 0 <= k < |tail| ensures s[0].weight <= tail[k].weight {
      assert tail[k] in multiset(tail);
      if tail[k] != e {
        assert tail[k] in multiset(s[1..]);
        var m :| 0 <= m < |s[1..]| && s[1..][m] == tail[k];
        assert s[1..][m] == s[m + 1];
      }
    }
    var r := [s[0]] + tail;
    forall i, j | 0 <= i < j < |r| ensures r[i].weight <= r[j].weight {
      if i > 0 {
        assert r[i] == tail[i - 1] && r[j] == tail[j - 1];
      } else {
        assert r[j] == tail[j - 1];
      }
    }
  }

  /** Stable ascending sort by weight. */
  function SortByWeight(es: seq<Edge>): (r: seq<Edge>)
    ensures SortedByWeight(r)
    ensures multiset(r) == multiset(es)
    ensures |r| == |es|
    ensures forall e :: e in r <==> e in es
    ensures forall w :: OfWeight(r, w) == OfWeight(es, w)
  {
    if |es| == 0 then []
    else
      var r := InsertByWeight(es[0], SortByWeight(es[1..]));
      SortStep(es, SortByWeight(es[1..]), r);
      r
  }

  lemma SortStep(es: seq<Edge>, rest: seq<Edge>, r: seq<Edge>)
    requires |es| > 0 && multiset(rest) == multiset(es[1..])
    requires forall w :: OfWeight(rest, w) == OfWeight(es[1..], w)
    requires multiset(r) == multiset(rest) + multiset{es[0]}
    requires forall w :: OfWeight(r, w) == if es[0].weight == w then [es[0]] + OfWeight(rest, w) else OfWeight(rest, w)
    ensures multiset(r) == multiset(es) && |r| == |es|
    ensures forall e :: e in r <==> e in es
    ensures forall w :: OfWeight(r, w) == OfWeight(es, w)
  {
    SortStepPerm(es, rest, r);
    forall w ensures OfWeight(r, w) == OfWeight(es, w) {
      assert OfWeight(rest, w) == OfWeight(es[1..], w);
    }
  }

  lemma SortStepPerm(es: seq<Edge>, rest: seq<Edge>, r: seq<Edge>)
    requires |es| > 0 && multiset(rest) == multiset(es[1..])
    requires multiset(r) == multiset(rest) + multiset{es[0]}
    ensures multiset(r) == multiset(es) && |r| == |es|
    ensures forall e :: e in r <==> e in es
  {
    assert es == [es[0]] + es[1..];
    assert |r| == |multiset(r)| == |multiset(es)| == |es|;
    forall e ensures e in r <==> e in es {
      assert e in r <==> e in multiset(r);
      assert e in es <==> e in multiset(es);
    }
  }

  // ---------------------------------------------------------------------
  // Walks and forests: what "the accepted edges never close a cycle" means.

  /** `e` joins `u` and `v`, in either direction. */
  predicate Links(e: Edge, u: nat, v: nat)
  {
    (e.node1 == u && e.node2 == v) || (e.node1 == v && e.node2 == u)
  }

  /** `p` is a walk along `es`: every two neighbouring nodes are joined by an
      edge of `es`. */
  predicate Walk(es: seq<Edge>, p: seq<nat>)
  {
    && |p| >= 1
    && forall i :: 0 <= i < |p| - 1 ==> exists e :: e in es && Links(e, p[i], p[i + 1])
  }

  /** Some walk along `es` leads from `u` to `v` (a node reaches itself). */
  ghost predicate Connected(es: seq<Edge>, u: nat, v: nat)
  {
    exists p :: Walk(es, p) && p[0] == u && p[|p| - 1] == v
  }

  /** No edge closes a cycle: the ends of each edge were not yet connected by
      the edges before it. */
  ghost predicate Forest(es: seq<Edge>)
  {
    forall k :: 0 <= k < |es| ==> !Connected(es[..k], es[k].node1, es[k].node2)
  }

  /** A forest grows by an edge whose ends it does not already connect. */
  lemma ForestSnoc(es: seq<Edge>, e: Edge)
    requires Forest(es) && !Connected(es, e.node1, e.node2)
    ensures Forest(es + [e])
  {
    var es' := es + [e];
    forall k | 0 <= k < |es'| ensures !Connected(es'[..k], es'[k].node1, es'[k].node2) {
      if k < |es| {
        assert es'[..k] == es[..k] && es'[k] == es[k];
      } else {
        assert es'[..k] == es;
      }
    }
  }

  /** Every node reaches itself, and an edge reaches across. */
  lemma ConnectedSelf(es: seq<Edge>, u: nat)
    ensures Connected(es, u, u)
  {
    assert Walk(es, [u]);
  }

  lemma LinkConnects(es: seq<Edge>, e: Edge, u: nat, v: nat)
    requires e in es
    ensures Links(e, u, v) ==> Connected(es, u, v)
  {
    if Links(e, u, v) {
      var p := [u, v];
      assert e in es && Links(e, p[0], p[1]);
      assert Walk(es, p);
    }
  }

  /** Every edge of `es` joins two nodes with the same label in `f`. */
  predicate Respects(es: seq<Edge>, f: seq<nat>)
  {
    forall e :: e in es ==> e.node1 < |f| && e.node2 < |f| && f[e.node1] == f[e.node2]
  }

  /** A walk along edges that respect a labelling keeps its label. */
  lemma {:induction false} WalkKeeps(es: seq<Edge>, f: seq<nat>, p: seq<nat>, j: nat)
    requires Respects(es, f) && Walk(es, p) && p[0] < |f| && j < |p|
    ensures p[j] < |f| && f[p[j]] == f[p[0]]
    decreases j
  {
    if j > 0 {
      WalkKeeps(es, f, p, j - 1);
      var e :| e in es && Links(e, p[j - 1], p[j]);
    }
  }

  /** Nodes connected along such edges share a label. */
  lemma ConnectedKeeps(es: seq<Edge>, f: seq<nat>, u: nat, v: nat)
    requires Respects(es, f) && u < |f|
    ensures Connected(es, u, v) ==> v < |f| && f[u] == f[v]
  {
    if Connected(es, u, v) {
      var p :| Walk(es, p) && p[0] == u && p[|p| - 1] == v;
      WalkKeeps(es, f, p, |p| - 1);
    }
  }

  /** A forest has no loop edge and never holds two edges between the same
      pair of nodes. */
  lemma ForestSimple(es: seq<Edge>)
    requires Forest(es)
    ensures forall k :: 0 <= k < |es| ==> es[k].node1 != es[k].node2
    ensures forall i, j :: 0 <= i < j < |es| ==> !Links(es[i], es[j].node1, es[j].node2)
  {
    forall k | 0 <= k < |es| ensures es[k].node1 != es[k].node2 {
      ConnectedSelf(es[..k], es[k].node1);
    }
    forall i, j | 0 <= i < j < |es| ensures !Links(es[i], es[j].node1, es[j].node2) {
      assert es[i] in es[..j];
      LinkConnects(es[..j], es[i], es[j].node1, es[j].node2);
    }
  }
}
