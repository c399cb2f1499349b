/** `kruskalSteps` of the Kruskal page: the edges are sorted by weight (stably)
    and handled one by one against a union-find forest; every edge yields a
    `considering` snapshot followed by an `accept` or a `reject` snapshot, and
    a `complete` snapshot ends the run as soon as the tree has `n - 1` edges. */
module Kruskal {
  import opened Common
  import opened WeightedEdges
  import opened UnionFind

  datatype Kind = Start | Considering | Accept | Reject | Complete

  /** One recorded snapshot; every field is a value, so later steps cannot
      alter it. The human-readable `description` is not modelled. */
  datatype Step = Step(kind: Kind, mst: seq<Edge>, rejected: seq<Edge>, current: Option<Edge>,
                       components: set<set<nat>>, totalCost: nat)

  /** The working variables of the generator. */
  datatype State = State(parent: seq<nat>, rank: seq<nat>, mst: seq<Edge>, rejected: seq<Edge>)

  /** Every endpoint is one of the `n` nodes. */
  predicate InRange(edges: seq<Edge>, n: nat)
  {
    forall e :: e in edges ==> e.node1 < n && e.node2 < n
  }

  predicate Wf(st: State, n: nat)
  {
    |st.parent| == n && Valid(st.parent, st.rank)
  }

  /** The test `x !== y`: the endpoints have different representatives. The
      page runs `findSet` on a copy of `parent`, so the path compression that
      this lookup performs is thrown away; `Root` is that lookup. */
  function Joins(st: State, e: Edge, n: nat): bool
    requires Wf(st, n) && e.node1 < n && e.node2 < n
  {
    Root(st.parent, st.rank, e.node1) != Root(st.parent, st.rank, e.node2)
  }

  /** Accepts `e` (and unions the two representatives) or rejects it. */
  function Advance(st: State, e: Edge, n: nat): (st': State)
    requires Wf(st, n) && e.node1 < n && e.node2 < n
    ensures Wf(st', n)
  {
    if Joins(st, e, n) then
      var u := Union(st.parent, st.rank, Root(st.parent, st.rank, e.node1), Root(st.parent, st.rank, e.node2));
      State(u.0, u.1, st.mst + [e], st.rejected)
    else
      State(st.parent, st.rank, st.mst, st.rejected + [e])
  }

  /** The snapshot of the working variables, with components recomputed. */
  function Snapshot(kind: Kind, st: State, current: Option<Edge>, n: nat): Step
    requires Wf(st, n)
  {
    Step(kind, st.mst, st.rejected, current, Components(st.parent, st.rank), TotalWeight(st.mst))
  }

  /** The loop over the sorted edges from position `i` on. */
  function Loop(sorted: seq<Edge>, i: nat, n: nat, st: State): seq<Step>
    requires i <= |sorted| && InRange(sorted, n) && Wf(st, n)
    decreases |sorted| - i
  {
    if i == |sorted| then []
    else
      var e := sorted[i];
      var st' := Advance(st, e, n);
      var considering := Snapshot(Considering, st, Some(e), n);
      var outcome := Snapshot(if Joins(st, e, n) then Accept else Reject, st', Some(e), n);
      if |st'.mst| == n - 1 then
        [considering, outcome, Step(Complete, st'.mst, st'.rejected, None, {Nodes(n)}, TotalWeight(st'.mst))]
      else
        [considering, outcome] + Loop(sorted, i + 1, n, st')
  }

  lemma SortedInRange(edges: seq<Edge>, n: nat)
    requires InRange(edges, n)
    ensures InRange(SortByWeight(edges), n)
  {
    forall e | e in SortByWeight(edges) ensures e.node1 < n && e.node2 < n {
      assert e in multiset(SortByWeight(edges));
    }
  }

  /** `kruskalSteps(edges, n)`. */
  function KruskalSteps(edges: seq<Edge>, n: nat): seq<Step>
    requires InRange(edges, n)
  {
    var sorted := SortByWeight(edges);
    SortedInRange(edges, n);
    var init := Singletons(n);
    var st := State(init.0, init.1, [], []);
    [Snapshot(Start, st, None, n)] + Loop(sorted, 0, n, st)
  }

  // ---------------------------------------------------------------------
  // What every snapshot and every pair of neighbouring snapshots satisfies.

  /** Per-snapshot facts: the cost is the weight of the tree so far, the
      components partition the nodes, each tree edge lies inside one component,
      tree edges plus components number `n`, and no tree edge closes a cycle. */
  ghost predicate StepOk(s: Step, n: nat)
  {
    && s.totalCost == TotalWeight(s.mst)
    && Forest(s.mst)
    && Partition(s.components, n)
    && |s.mst| + |s.components| == n
    && (forall e :: e in s.mst ==> Together(s.components, e.node1, e.node2))
  }

  /** A `considering` snapshot for `e` and the verdict that follows it: accept
      exactly when the endpoints are in different components, and then the
      tree grows by `e` and two components merge into one; otherwise `e` joins
      the rejected list and the partition stays as it was. */
  predicate Decided(c: Step, o: Step, e: Edge)
  {
    && c.kind == Considering && c.current == Some(e)
    && (o.kind == Accept || o.kind == Reject) && o.current == Some(e)
    && (o.kind == Accept <==> !Together(c.components, e.node1, e.node2))
    && (o.kind == Accept ==> o.mst == c.mst + [e] && o.rejected == c.rejected && |o.components| + 1 == |c.components|)
    && (o.kind == Reject ==> o.mst == c.mst && o.rejected == c.rejected + [e] && o.components == c.components)
  }

  /** `b` starts from the tree, rejected list and partition that `a` shows. */
  predicate Carries(a: Step, b: Step)
  {
    b.mst == a.mst && b.rejected == a.rejected && b.components == a.components
  }

  /** The shape of a timeline `P` whose first snapshot is followed by the
      handling of `sorted[i..]`: odd positions consider the sorted edges in
      order, each followed by its verdict; the run ends either with the edges
      exhausted, or with `complete` right after the verdict that gives the tree
      `n - 1` edges. */
  ghost predicate Trace(P: seq<Step>, sorted: seq<Edge>, i: nat, n: nat)
  {
    && TraceEnds(P, sorted, i, n)
    && TraceDecides(P, sorted, i)
    && TraceCarries(P)
    && TraceStops(P, n)
    && TraceStepsOk(P, n)
  }

  /** How the run ends: with the edges exhausted (odd length), or with a
      `complete` snapshot showing `n - 1` tree edges (even length). */
  predicate TraceEnds(P: seq<Step>, sorted: seq<Edge>, i: nat, n: nat)
  {
    && |P| >= 1
    && i + (|P| - 1) / 2 <= |sorted|
    && (|P| % 2 == 1 ==> i + (|P| - 1) / 2 == |sorted|)
    && (|P| % 2 == 0 ==> |P| >= 4 && P[|P| - 1].kind == Complete && P[|P| - 1].current == None
                         && |P[|P| - 1].mst| == n - 1)
  }

  /** Odd positions consider the sorted edges in order; each is followed by its verdict. */
  predicate TraceDecides(P: seq<Step>, sorted: seq<Edge>, i: nat)
  {
    forall k :: 1 <= k < |P| - 1 && k % 2 == 1 ==> i + k / 2 < |sorted| && Decided(P[k], P[k + 1], sorted[i + k / 2])
  }

  /** Nothing changes between a verdict (or the first snapshot) and the next snapshot. */
  predicate TraceCarries(P: seq<Step>)
  {
    forall k :: 0 <= k < |P| - 1 && k % 2 == 0 ==> Carries(P[k], P[k + 1])
  }

  /** The first verdict that gives the tree `n - 1` edges is followed only by `complete`. */
  predicate TraceStops(P: seq<Step>, n: nat)
  {
    forall k :: 2 <= k < |P| && k % 2 == 0 && |P[k].mst| == n - 1 ==> k + 2 == |P|
  }

  ghost predicate TraceStepsOk(P: seq<Step>, n: nat)
  {
    forall k :: 0 <= k < |P| ==> StepOk(P[k], n)
  }

  // ---------------------------------------------------------------------
  // Proofs.

  /** Generator invariant: the tree has `n` minus the number of
      representatives edges, each tree edge joins nodes of one class, and the
      tree is a forest. */
  ghost predicate Inv(st: State, n: nat)
  {
    && Wf(st, n)
    && |st.mst| + |Roots(st.parent)| == n
    && Forest(st.mst)
    && InClasses(st, n)
  }

  /** Each tree edge joins two nodes of one class. */
  predicate InClasses(st: State, n: nat)
    requires Wf(st, n)
  {
    forall e :: e in st.mst ==>
      e.node1 < n && e.node2 < n && Root(st.parent, st.rank, e.node1) == Root(st.parent, st.rank, e.node2)
  }

  lemma SnapshotOk(kind: Kind, st: State, current: Option<Edge>, n: nat)
    requires Inv(st, n)
    ensures StepOk(Snapshot(kind, st, current, n), n)
  {
    ComponentsFacts(st.parent, st.rank);
  }

  /** The representative of every node, as a labelling. */
  function Reps(st: State, n: nat): (f: seq<nat>)
    requires Wf(st, n)
    ensures |f| == n && forall j :: 0 <= j < n ==> f[j] == Root(st.parent, st.rank, j)
  {
    seq(n, j requires 0 <= j < n => Root(st.parent, st.rank, j))
  }

  /** Nodes the tree connects share a representative; so an edge that `Joins`
      two classes cannot close a cycle. */
  lemma ConnectedSameRoot(st: State, n: nat, u: nat, v: nat)
    requires Wf(st, n) && InClasses(st, n) && u < n
    ensures Connected(st.mst, u, v) ==> v < n && Root(st.parent, st.rank, u) == Root(st.parent, st.rank, v)
  {
    var f := Reps(st, n);
    ConnectedKeeps(st.mst, f, u, v);
  }

  /** An accepted edge joins two classes, so the tree stays a forest. */
  lemma AdvanceForest(st: State, e: Edge, n: nat)
    requires Wf(st, n) && InClasses(st, n) && Forest(st.mst) && e.node1 < n && e.node2 < n
    ensures Forest(Advance(st, e, n).mst)
  {
    if Joins(st, e, n) {
      ConnectedSameRoot(st, n, e.node1, e.node2);
      ForestSnoc(st.mst, e);
    }
  }

  lemma AdvanceInv(st: State, e: Edge, n: nat)
    requires Inv(st, n) && e.node1 < n && e.node2 < n
    ensures Inv(Advance(st, e, n), n)
    ensures Joins(st, e, n) ==> |Roots(Advance(st, e, n).parent)| + 1 == |Roots(st.parent)|
    ensures !Joins(st, e, n) ==> Advance(st, e, n).parent == st.parent && Advance(st, e, n).rank == st.rank
  {
    if Joins(st, e, n) {
      var a := Root(st.parent, st.rank, e.node1);
      var b := Root(st.parent, st.rank, e.node2);
      var st' := Advance(st, e, n);
      assert a in Roots(st.parent) && b in Roots(st.parent);
      AdvanceForest(st, e, n);
      AdvanceInClasses(st, e, n);
    }
  }

  /** After an accept, the old tree edges and the new one each stay inside a class. */
  lemma AdvanceInClasses(st: State, e: Edge, n: nat)
    requires Wf(st, n) && InClasses(st, n) && e.node1 < n && e.node2 < n && Joins(st, e, n)
    ensures InClasses(Advance(st, e, n), n)
  {
    var st' := Advance(st, e, n);
    forall f | f in st'.mst
      ensures f.node1 < n && f.node2 < n && Root(st'.parent, st'.rank, f.node1) == Root(st'.parent, st'.rank, f.node2)
    {
      if f != e {
        assert f in st.mst;
      }
    }
  }

  /** The state `kruskalSteps` starts from satisfies the invariant. */
  lemma InitInv(n: nat)
    ensures var (parent, rank) := Singletons(n); Inv(State(parent, rank, [], []), n)
  {
    NodesSize(n);
  }

  /** One loop iteration, seen through its two snapshots. */
  lemma IterationDecided(st: State, e: Edge, n: nat)
    requires Inv(st, n) && e.node1 < n && e.node2 < n
    ensures var st' := Advance(st, e, n);
      && Inv(st', n)
      && Decided(Snapshot(Considering, st, Some(e), n),
                 Snapshot(if Joins(st, e, n) then Accept else Reject, st', Some(e), n), e)
      && StepOk(Snapshot(Considering, st, Some(e), n), n)
      && StepOk(Snapshot(if Joins(st, e, n) then Accept else Reject, st', Some(e), n), n)
  {
    var st' := Advance(st, e, n);
    AdvanceInv(st, e, n);
    SnapshotOk(Considering, st, Some(e), n);
    SnapshotOk(if Joins(st, e, n) then Accept else Reject, st', Some(e), n);
    ComponentsFacts(st.parent, st.rank);
    ComponentsFacts(st'.parent, st'.rank);
  }

  /** Prefixing a trace with one more iteration. */
  lemma TraceCons(prev: Step, c: Step, Q: seq<Step>, sorted: seq<Edge>, i: nat, n: nat)
    requires i < |sorted| && Trace(Q, sorted, i + 1, n)
    requires Decided(c, Q[0], sorted[i]) && Carries(prev, c) && |Q[0].mst| != n - 1
    requires StepOk(prev, n) && StepOk(c, n)
    ensures Trace([prev, c] + Q, sorted, i, n)
  {
    ConsEnds(prev, c, Q, sorted, i, n);
    ConsDecides(prev, c, Q, sorted, i);
    ConsCarries(prev, c, Q);
    ConsStops(prev, c, Q, n);
    ConsStepsOk(prev, c, Q, n);
  }

  lemma ConsEnds(prev: Step, c: Step, Q: seq<Step>, sorted: seq<Edge>, i: nat, n: nat)
    requires i < |sorted| && TraceEnds(Q, sorted, i + 1, n)
    ensures TraceEnds([prev, c] + Q, sorted, i, n)
  {
    var P := [prev, c] + Q;
    assert P[|P| - 1] == Q[|Q| - 1];
    assert (|P| - 1) / 2 == (|Q| - 1) / 2 + 1;
  }

  lemma ConsDecides(prev: Step, c: Step, Q: seq<Step>, sorted: seq<Edge>, i: nat)
    requires i < |sorted| && |Q| >= 1 && TraceDecides(Q, sorted, i + 1) && Decided(c, Q[0], sorted[i])
    ensures TraceDecides([prev, c] + Q, sorted, i)
  {
    var P := [prev, c] + Q;
    forall k | 1 <= k < |P| - 1 && k % 2 == 1 ensures i + k / 2 < |sorted| && Decided(P[k], P[k + 1], sorted[i + k / 2]) {
      if k >= 3 {
        assert P[k] == Q[k - 2] && P[k + 1] == Q[k - 1];
        assert (i + 1) + (k - 2) / 2 == i + k / 2;
      }
    }
  }

  lemma ConsCarries(prev: Step, c: Step, Q: seq<Step>)
    requires |Q| >= 1 && TraceCarries(Q) && Carries(prev, c)
    ensures TraceCarries([prev, c] + Q)
  {
    var P := [prev, c] + Q;
    forall k | 0 <= k < |P| - 1 && k % 2 == 0 ensures Carries(P[k], P[k + 1]) {
      if k >= 2 {
        assert P[k] == Q[k - 2] && P[k + 1] == Q[k - 1];
      }
    }
  }

  lemma ConsStops(prev: Step, c: Step, Q: seq<Step>, n: nat)
    requires |Q| >= 1 && TraceStops(Q, n) && |Q[0].mst| != n - 1
    ensures TraceStops([prev, c] + Q, n)
  {
    var P := [prev, c] + Q;
    forall k | 2 <= k < |P| && k % 2 == 0 && |P[k].mst| == n - 1 ensures k + 2 == |P| {
      assert P[k] == Q[k - 2];
    }
  }

  lemma ConsStepsOk(prev: Step, c: Step, Q: seq<Step>, n: nat)
    requires TraceStepsOk(Q, n) && StepOk(prev, n) && StepOk(c, n)
    ensures TraceStepsOk([prev, c] + Q, n)
  {
    var P := [prev, c] + Q;
    forall k | 0 <= k < |P| ensures StepOk(P[k], n) {
      if k >= 2 {
        assert P[k] == Q[k - 2];
      }
    }
  }

  /** The iteration whose verdict fills the tree ends the timeline. */
  lemma TraceDone(prev: Step, c: Step, o: Step, f: Step, sorted: seq<Edge>, i: nat, n: nat)
    requires i + 1 == |sorted| || i + 1 < |sorted|
    requires Decided(c, o, sorted[i]) && Carries(prev, c) && Carries(o, f)
    requires f.kind == Complete && f.current == None && |o.mst| == n - 1
    requires StepOk(prev, n) && StepOk(c, n) && StepOk(o, n) && StepOk(f, n)
    ensures Trace([prev, c, o, f], sorted, i, n)
  {
    DoneEnds(prev, c, o, f, sorted, i, n);
    DoneDecides(prev, c, o, f, sorted, i);
    DoneCarries(prev, c, o, f);
    DoneStops(prev, c, o, f, n);
    DoneStepsOk(prev, c, o, f, n);
  }

  lemma DoneEnds(prev: Step, c: Step, o: Step, f: Step, sorted: seq<Edge>, i: nat, n: nat)
    requires i < |sorted| && f.kind == Complete && f.current == None && |f.mst| == n - 1
    ensures TraceEnds([prev, c, o, f], sorted, i, n)
  {
  }

  lemma DoneCarries(prev: Step, c: Step, o: Step, f: Step)
    requires Carries(prev, c) && Carries(o, f)
    ensures TraceCarries([prev, c, o, f])
  {
  }

  lemma DoneStops(prev: Step, c: Step, o: Step, f: Step, n: nat)
    requires |o.mst| == n - 1
    ensures TraceStops([prev, c, o, f], n)
  {
  }

  lemma DoneDecides(prev: Step, c: Step, o: Step, f: Step, sorted: seq<Edge>, i: nat)
    requires i < |sorted| && Decided(c, o, sorted[i])
    ensures TraceDecides([prev, c, o, f], sorted, i)
  {
  }

  lemma DoneStepsOk(prev: Step, c: Step, o: Step, f: Step, n: nat)
    requires StepOk(prev, n) && StepOk(c, n) && StepOk(o, n) && StepOk(f, n)
    ensures TraceStepsOk([prev, c, o, f], n)
  {
  }

  lemma {:induction false} LoopTrace(sorted: seq<Edge>, i: nat, n: nat, st: State, prev: Step)
    requires i <= |sorted| && InRange(sorted, n) && Inv(st, n)
    requires prev == Snapshot(prev.kind, st, prev.current, n)
    ensures Trace([prev] + Loop(sorted, i, n, st), sorted, i, n)
    decreases |sorted| - i, 1
  {
    if i == |sorted| {
      assert [prev] + Loop(sorted, i, n, st) == [prev];
      SnapshotOk(prev.kind, st, prev.current, n);
      TraceSingle(prev, sorted, i, n);
    } else if |Advance(st, sorted[i], n).mst| == n - 1 {
      LoopTraceLast(sorted, i, n, st, prev);
    } else {
      LoopTraceMore(sorted, i, n, st, prev);
    }
  }

  lemma {:induction false} LoopTraceLast(sorted: seq<Edge>, i: nat, n: nat, st: State, prev: Step)
    requires i < |sorted| && InRange(sorted, n) && Inv(st, n)
    requires prev == Snapshot(prev.kind, st, prev.current, n)
    requires |Advance(st, sorted[i], n).mst| == n - 1
    ensures Trace([prev] + Loop(sorted, i, n, st), sorted, i, n)
  {
    var e := sorted[i];
    var st' := Advance(st, e, n);
    var c := Snapshot(Considering, st, Some(e), n);
    var o := Snapshot(if Joins(st, e, n) then Accept else Reject, st', Some(e), n);
    var f := Step(Complete, st'.mst, st'.rejected, None, {Nodes(n)}, TotalWeight(st'.mst));
    LoopLast(sorted, i, n, st, prev);
    assert e in sorted;
    SnapshotOk(prev.kind, st, prev.current, n);
    IterationDecided(st, e, n);
    CompleteOk(st', n);
    TraceDone(prev, c, o, f, sorted, i, n);
  }

  lemma {:induction false} LoopTraceMore(sorted: seq<Edge>, i: nat, n: nat, st: State, prev: Step)
    requires i < |sorted| && InRange(sorted, n) && Inv(st, n)
    requires prev == Snapshot(prev.kind, st, prev.current, n)
    requires |Advance(st, sorted[i], n).mst| != n - 1
    ensures Trace([prev] + Loop(sorted, i, n, st), sorted, i, n)
    decreases |sorted| - i, 0
  {
    var e := sorted[i];
    var st' := Advance(st, e, n);
    var c := Snapshot(Considering, st, Some(e), n);
    var o := Snapshot(if Joins(st, e, n) then Accept else Reject, st', Some(e), n);
    var Q := [o] + Loop(sorted, i + 1, n, st');
    LoopMore(sorted, i, n, st, prev);
    assert e in sorted;
    SnapshotOk(prev.kind, st, prev.current, n);
    IterationDecided(st, e, n);
    LoopTrace(sorted, i + 1, n, st', o);
    TraceCons(prev, c, Q, sorted, i, n);
  }

  lemma TraceSingle(prev: Step, sorted: seq<Edge>, i: nat, n: nat)
    requires i == |sorted| && StepOk(prev, n)
    ensures Trace([prev], sorted, i, n)
  {
  }

  lemma LoopLast(sorted: seq<Edge>, i: nat, n: nat, st: State, prev: Step)
    requires i < |sorted| && InRange(sorted, n) && Wf(st, n)
    requires |Advance(st, sorted[i], n).mst| == n - 1
    ensures var e := sorted[i]; var st' := Advance(st, e, n);
      [prev] + Loop(sorted, i, n, st) ==
        [prev, Snapshot(Considering, st, Some(e), n), Snapshot(if Joins(st, e, n) then Accept else Reject, st', Some(e), n),
         Step(Complete, st'.mst, st'.rejected, None, {Nodes(n)}, TotalWeight(st'.mst))]
  {
    var e := sorted[i];
    var st' := Advance(st, e, n);
    var c := Snapshot(Considering, st, Some(e), n);
    var o := Snapshot(if Joins(st, e, n) then Accept else Reject, st', Some(e), n);
    var f := Step(Complete, st'.mst, st'.rejected, None, {Nodes(n)}, TotalWeight(st'.mst));
    assert Loop(sorted, i, n, st) == [c, o, f];
  }

  lemma LoopMore(sorted: seq<Edge>, i: nat, n: nat, st: State, prev: Step)
    requires i < |sorted| && InRange(sorted, n) && Wf(st, n)
    requires |Advance(st, sorted[i], n).mst| != n - 1
    ensures var e := sorted[i]; var st' := Advance(st, e, n);
      [prev] + Loop(sorted, i, n, st) ==
        [prev, Snapshot(Considering, st, Some(e), n)]
        + ([Snapshot(if Joins(st, e, n) then Accept else Reject, st', Some(e), n)] + Loop(sorted, i + 1, n, st'))
  {
    var e := sorted[i];
    var st' := Advance(st, e, n);
    var c := Snapshot(Considering, st, Some(e), n);
    var o := Snapshot(if Joins(st, e, n) then Accept else Reject, st', Some(e), n);
    var rest := Loop(sorted, i + 1, n, st');
    assert Loop(sorted, i, n, st) == [c, o] + rest;
    SeqShuffle(prev, c, o, rest);
  }

  lemma SeqShuffle<T>(a: T, b: T, c: T, rest: seq<T>)
    ensures [a] + ([b, c] + rest) == [a, b] + ([c] + rest)
  {
  }

  /** The hard-coded single component of the `complete` snapshot is the
      partition the forest has actually reached. */
  lemma CompleteOk(st: State, n: nat)
    requires Inv(st, n) && |st.mst| == n - 1
    ensures Components(st.parent, st.rank) == {Nodes(n)}
    ensures StepOk(Step(Complete, st.mst, st.rejected, None, {Nodes(n)}, TotalWeight(st.mst)), n)
  {
    OneComponent(st.parent, st.rank);
    SnapshotOk(Complete, st, None, n);
  }

  /** The whole timeline of `kruskalSteps` has the shape `Trace` describes,
      over the edges in stable ascending weight order. */
  lemma KruskalTrace(edges: seq<Edge>, n: nat)
    requires InRange(edges, n)
    ensures Trace(KruskalSteps(edges, n), SortByWeight(edges), 0, n)
  {
    var sorted := SortByWeight(edges);
    var (parent, rank) := Singletons(n);
    var st := State(parent, rank, [], []);
    SortedInRange(edges, n);
    InitInv(n);
    LoopTrace(sorted, 0, n, st, Snapshot(Start, st, None, n));
  }

  /** The `start` snapshot: empty tree, nothing rejected, cost 0, and every
      node alone in its own component. */
  lemma KruskalStart(edges: seq<Edge>, n: nat)
    requires InRange(edges, n)
    ensures var s := KruskalSteps(edges, n)[0];
      && s.kind == Start && s.mst == [] && s.rejected == [] && s.current == None && s.totalCost == 0
      && |s.components| == n && forall j :: 0 <= j < n ==> {j} in s.components
  {
    var (parent, rank) := Singletons(n);
    ComponentsFacts(parent, rank);
    forall j | 0 <= j < n ensures {j} in Components(parent, rank) {
      assert ComponentOf(parent, rank, j) == {j};
      assert parent[j] == j;
      assert j in Roots(parent);
    }
  }

  /** The tree never has more than `n - 1` edges, and its cost is always the
      total weight of the accepted edges. */
  lemma KruskalBounds(edges: seq<Edge>, n: nat)
    requires InRange(edges, n)
    ensures forall s :: s in KruskalSteps(edges, n) ==>
      s.totalCost == TotalWeight(s.mst) && (|s.mst| <= n - 1 || (n == 0 && s.mst == []))
  {
    var steps := KruskalSteps(edges, n);
    KruskalTrace(edges, n);
    forall s | s in steps ensures s.totalCost == TotalWeight(s.mst) && (|s.mst| <= n - 1 || (n == 0 && s.mst == [])) {
      var k :| 0 <= k < |steps| && steps[k] == s;
      assert StepOk(steps[k], n);
      if n > 0 {
        assert Covered(s.components, 0);
        var c :| c in s.components && 0 in c;
        assert |s.components| >= 1;
      }
    }
  }

  /** No snapshot's tree closes a cycle: each accepted edge joined two nodes
      that the tree edges before it did not connect. */
  lemma KruskalForest(edges: seq<Edge>, n: nat)
    requires InRange(edges, n)
    ensures forall s :: s in KruskalSteps(edges, n) ==> Forest(s.mst)
  {
    var steps := KruskalSteps(edges, n);
    KruskalTrace(edges, n);
    forall s | s in steps ensures Forest(s.mst) {
      var k :| 0 <= k < |steps| && steps[k] == s;
      assert StepOk(steps[k], n);
    }
  }

  // ---------------------------------------------------------------------
  // A disconnected graph never completes.

  /** `S` splits the nodes into two non-empty sides (`a` on one, `b` on the
      other) and no edge crosses between them. */
  predicate Separates(S: set<nat>, a: nat, b: nat, edges: seq<Edge>, n: nat)
  {
    && a < n && b < n && a in S && b !in S
    && forall e :: e in edges ==> (e.node1 in S <==> e.node2 in S)
  }

  /** Every class of the forest stays on one side of `S`. */
  predicate SideInv(st: State, S: set<nat>, n: nat)
    requires Wf(st, n)
  {
    forall j :: 0 <= j < n ==> (j in S <==> Root(st.parent, st.rank, j) in S)
  }

  lemma AdvanceSide(st: State, e: Edge, S: set<nat>, n: nat)
    requires Wf(st, n) && e.node1 < n && e.node2 < n && SideInv(st, S, n)
    requires e.node1 in S <==> e.node2 in S
    ensures SideInv(Advance(st, e, n), S, n)
  {
    if Joins(st, e, n) {
      var st' := Advance(st, e, n);
      var x := Root(st.parent, st.rank, e.node1);
      var y := Root(st.parent, st.rank, e.node2);
      assert x in S <==> y in S;
      forall j | 0 <= j < n ensures j in S <==> Root(st'.parent, st'.rank, j) in S {
        assert Root(st'.parent, st'.rank, j) ==
          if Root(st.parent, st.rank, j) in {x, y} then Winner(st.rank, x, y) else Root(st.parent, st.rank, j);
      }
    }
  }

  /** With the two sides kept apart the forest has at least two
      representatives, so the tree stays short of `n - 1` edges. */
  lemma SidesApart(st: State, S: set<nat>, a: nat, b: nat, n: nat)
    requires Inv(st, n) && SideInv(st, S, n) && a < n && b < n && a in S && b !in S
    ensures |st.mst| + 2 <= n
  {
    var x := Root(st.parent, st.rank, a);
    var y := Root(st.parent, st.rank, b);
    assert x in Roots(st.parent) && y in Roots(st.parent) && x != y;
    var rest := Roots(st.parent) - {x};
    assert y in rest;
    assert |rest| == |Roots(st.parent)| - 1;
    assert |rest| >= 1;
  }

  lemma {:induction false} LoopNeverCompletes(sorted: seq<Edge>, i: nat, n: nat, st: State, S: set<nat>, a: nat, b: nat)
    requires i <= |sorted| && InRange(sorted, n) && Inv(st, n) && SideInv(st, S, n)
    requires Separates(S, a, b, sorted, n)
    ensures forall s :: s in Loop(sorted, i, n, st) ==> s.kind != Complete
    decreases |sorted| - i
  {
    if i < |sorted| {
      var e := sorted[i];
      assert e in sorted;
      var st' := Advance(st, e, n);
      AdvanceInv(st, e, n);
      AdvanceSide(st, e, S, n);
      SidesApart(st', S, a, b, n);
      LoopNeverCompletes(sorted, i + 1, n, st', S, a, b);
    }
  }

  /** A graph whose nodes split into two sides with no edge between them ends
      its timeline without a `complete` snapshot (the edges simply run out). */
  lemma KruskalDisconnected(edges: seq<Edge>, n: nat, S: set<nat>, a: nat, b: nat)
    requires InRange(edges, n) && Separates(S, a, b, edges, n)
    ensures forall s :: s in KruskalSteps(edges, n) ==> s.kind != Complete
  {
    var sorted := SortByWeight(edges);
    SortedInRange(edges, n);
    assert Separates(S, a, b, sorted, n) by {
      forall e | e in sorted ensures e.node1 in S <==> e.node2 in S {
        assert e in multiset(sorted);
      }
    }
    var (parent, rank) := Singletons(n);
    var st := State(parent, rank, [], []);
    InitInv(n);
    LoopNeverCompletes(sorted, 0, n, st, S, a, b);
  }
}
