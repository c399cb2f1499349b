/** `primSteps` of the Prim page: a tree grows from `start` over a weight
    matrix; candidate edges (tree node to outside node) are kept sorted by
    weight, the first one that crosses is taken, and the candidates are
    refreshed from the node that joined. The snapshots are `start`,
    `candidates`, then per edge `considering`, `accept` and (unless the tree is
    full) `update`, and finally `complete`. */
module Prim {
  import opened Common
  import opened WeightedEdges

  /** `Infinity` in the page's matrix is `None` here. */
  type Matrix = seq<seq<Option<nat>>>

  /** The entry `graph[u][v]`; positions outside the `n × n` square read as no edge. */
  function Weight(g: Matrix, u: nat, v: nat): Option<nat>
  {
    if u < |g| && v < |g| && v < |g[u]| then g[u][v] else None
  }

  datatype Kind = Start | Candidates | Considering | Accept | Update | Complete

  /** One recorded snapshot; the `description` text is not modelled. */
  datatype PrimStep = PrimStep(kind: Kind, visited: set<nat>, mst: seq<Edge>, candidates: seq<Edge>,
                               current: Option<Edge>, totalCost: nat)

  /** The working variables of the generator. */
  datatype PState = PState(visited: set<nat>, mst: seq<Edge>, candidates: seq<Edge>)

  /** The filter of the page: exactly one endpoint is in the tree. */
  predicate Crosses(visited: set<nat>, e: Edge)
  {
    (e.node1 in visited) != (e.node2 in visited)
  }

  /** Edges `x - i` for the outside nodes `i >= from` that `x` has an entry for, by increasing `i`. */
  function NewEdges(g: Matrix, x: nat, visited: set<nat>, from: nat): (r: seq<Edge>)
    ensures forall e :: e in r <==>
      e.node1 == x && from <= e.node2 && e.node2 !in visited && Weight(g, x, e.node2) == Some(e.weight)
    decreases |g| - from
  {
    if from >= |g| then []
    else
      var w := Weight(g, x, from);
      (if from !in visited && w.Some? then [Edge(x, from, w.value)] else []) + NewEdges(g, x, visited, from + 1)
  }

  /** The scan for the first candidate that crosses, from position `i` on;
      `None` is the `minEdge === null` outcome. */
  function FirstCrossing(cands: seq<Edge>, visited: set<nat>, i: nat): (r: Option<nat>)
    ensures r.Some? ==> i <= r.value < |cands| && Crosses(visited, cands[r.value])
    ensures r.Some? ==> forall j :: i <= j < r.value ==> !Crosses(visited, cands[j])
    ensures r.None? ==> forall j :: i <= j < |cands| ==> !Crosses(visited, cands[j])
    decreases |cands| - i
  {
    if i >= |cands| then None
    else if Crosses(visited, cands[i]) then Some(i)
    else FirstCrossing(cands, visited, i + 1)
  }

  /** `splice(k, 1)`. */
  function Remove(s: seq<Edge>, k: nat): (r: seq<Edge>)
    requires k < |s|
    ensures |r| == |s| - 1
    ensures forall j :: 0 <= j < k ==> r[j] == s[j]
    ensures forall j :: k <= j < |r| ==> r[j] == s[j + 1]
    ensures multiset(r) + multiset{s[k]} == multiset(s)
  {
    assert s == s[..k] + [s[k]] + s[k + 1..];
    s[..k] + s[k + 1..]
  }

  /** The candidates after node `x` joined: the remaining ones plus the new
      edges out of `x`, keeping only crossing edges, stably sorted by weight. */
  function Refresh(g: Matrix, x: nat, visited: set<nat>, remaining: seq<Edge>): (r: seq<Edge>)
    ensures SortedByWeight(r)
    ensures forall e :: e in r <==>
      (e in remaining || (e.node1 == x && e.node2 !in visited && Weight(g, x, e.node2) == Some(e.weight)))
      && Crosses(visited, e)
  {
    var kept := KeepCrossing(remaining + NewEdges(g, x, visited, 0), visited);
    var r := SortByWeight(kept);
    assert forall e :: e in r <==> e in kept by {
      forall e ensures e in r <==> e in kept {
        assert e in r <==> e in multiset(r);
        assert e in kept <==> e in multiset(kept);
      }
    }
    r
  }

  function KeepCrossing(es: seq<Edge>, visited: set<nat>): (r: seq<Edge>)
    ensures forall e :: e in r <==> e in es && Crosses(visited, e)
  {
    if |es| == 0 then []
    else
      assert es == [es[0]] + es[1..];
      (if Crosses(visited, es[0]) then [es[0]] else []) + KeepCrossing(es[1..], visited)
  }

  function Final(st: PState): PrimStep
  {
    PrimStep(Complete, st.visited, st.mst, [], None, TotalWeight(st.mst))
  }

  /** One pass of the loop body with the chosen candidate at position `k`: the
      snapshots it records and the variables it leaves. */
  function Iteration(g: Matrix, st: PState, k: nat): (res: (seq<PrimStep>, PState))
    requires k < |st.candidates|
    ensures |res.1.mst| == |st.mst| + 1
  {
    var e := st.candidates[k];
    var considering := PrimStep(Considering, st.visited, st.mst, st.candidates, Some(e), TotalWeight(st.mst));
    var mst' := st.mst + [e];
    var x := if e.node1 in st.visited then e.node2 else e.node1;
    var visited' := st.visited + {x};
    var remaining := Remove(st.candidates, k);
    var accept := PrimStep(Accept, visited', mst', remaining, Some(e), TotalWeight(mst'));
    var cands' := Refresh(g, x, visited', remaining);
    var st' := PState(visited', mst', cands');
    if |mst'| < |g| - 1 then
      ([considering, accept, PrimStep(Update, visited', mst', cands', None, TotalWeight(mst'))], st')
    else
      ([considering, accept], st')
  }

  /** The `while (mstEdges.length < n - 1 && candidateEdges.length > 0)` loop,
      followed by the closing `complete` snapshot. */
  function Loop(g: Matrix, st: PState): seq<PrimStep>
    decreases |g| - |st.mst|
  {
    if |st.mst| < |g| - 1 && |st.candidates| > 0 then
      match FirstCrossing(st.candidates, st.visited, 0)
      case None => [Final(st)]
      case Some(k) =>
        var (h, st') := Iteration(g, st, k);
        h + Loop(g, st')
    else
      [Final(st)]
  }

  /** `primSteps(graph, edges, start)`; the `edges` list only feeds the drawing. */
  function PrimSteps(g: Matrix, start: nat): seq<PrimStep>
  {
    var c0 := SortByWeight(NewEdges(g, start, {start}, 0));
    [PrimStep(Start, {start}, [], [], None, 0), PrimStep(Candidates, {start}, [], c0, None, 0)]
      + Loop(g, PState({start}, [], c0))
  }

  // ---------------------------------------------------------------------
  // The tree that the snapshots show.

  /** `e` is an entry of the matrix. */
  predicate IsEdge(g: Matrix, e: Edge)
  {
    Weight(g, e.node1, e.node2) == Some(e.weight)
  }

  /** The nodes of a tree grown from `start` by hanging on `node2` of each edge. */
  function Reached(start: nat, mst: seq<Edge>): set<nat>
  {
    if |mst| == 0 then {start} else Reached(start, mst[..|mst| - 1]) + {mst[|mst| - 1].node2}
  }

  /** Each tree edge is a matrix entry leading from a node already reached to
      one not yet reached, so the edges never close a cycle. */
  predicate Grows(g: Matrix, start: nat, mst: seq<Edge>)
  {
    |mst| == 0 ||
    (var pre := mst[..|mst| - 1]; var e := mst[|mst| - 1];
     Grows(g, start, pre) && IsEdge(g, e) && e.node1 in Reached(start, pre) && e.node2 !in Reached(start, pre))
  }

  /** A grown tree has one node more than it has edges. */
  lemma {:induction false} GrowsSize(g: Matrix, start: nat, mst: seq<Edge>)
    requires Grows(g, start, mst)
    ensures |Reached(start, mst)| == |mst| + 1
  {
    if |mst| > 0 {
      GrowsSize(g, start, mst[..|mst| - 1]);
    }
  }

  lemma ReachedAppend(g: Matrix, start: nat, mst: seq<Edge>, e: Edge)
    ensures Reached(start, mst + [e]) == Reached(start, mst) + {e.node2}
    ensures Grows(g, start, mst) && IsEdge(g, e) && e.node1 in Reached(start, mst) && e.node2 !in Reached(start, mst)
            ==> Grows(g, start, mst + [e])
  {
    assert (mst + [e])[..|mst|] == mst;
  }

  /** `e` is a candidate: a matrix entry from a tree node to an outside node. */
  predicate Cand(g: Matrix, visited: set<nat>, e: Edge)
  {
    IsEdge(g, e) && e.node1 in visited && e.node2 !in visited
  }

  /** The candidate list is exactly right: every entry crosses from the tree,
      it is sorted by weight, and every matrix entry from a tree node to an
      outside node is on it. */
  ghost predicate Frontier(g: Matrix, visited: set<nat>, cands: seq<Edge>)
  {
    && (forall e :: e in cands ==> Cand(g, visited, e))
    && SortedByWeight(cands)
    && (forall u: nat, v: nat :: u in visited && v !in visited && Weight(g, u, v).Some? ==>
          Edge(u, v, Weight(g, u, v).value) in cands)
  }

  /** `e` crosses from the tree and no crossing entry of the matrix is lighter. */
  ghost predicate MinCrossing(g: Matrix, visited: set<nat>, e: Edge)
  {
    Cand(g, visited, e) &&
    forall u: nat, v: nat :: u in visited && v !in visited && Weight(g, u, v).Some? ==>
      e.weight <= Weight(g, u, v).value
  }

  /** No matrix entry leads out of the tree: the tree is a whole component. */
  ghost predicate NoCrossing(g: Matrix, visited: set<nat>)
  {
    forall u: nat, v: nat :: u in visited && v !in visited ==> Weight(g, u, v).None?
  }

  /** Facts every snapshot satisfies. */
  ghost predicate StepOk(g: Matrix, start: nat, s: PrimStep)
  {
    && s.visited == Reached(start, s.mst)
    && Grows(g, start, s.mst)
    && |s.visited| == |s.mst| + 1
    && (forall v :: v in s.visited ==> v < |g|)
    && |s.mst| <= |g| - 1
    && s.totalCost == TotalWeight(s.mst)
    && (s.kind in {Candidates, Considering, Update} ==> Frontier(g, s.visited, s.candidates))
    && (s.kind == Update ==> |s.mst| < |g| - 1)
    && (s.kind in {Start, Complete} ==> s.candidates == [])
    && ((s.kind == Considering || s.kind == Accept) <==> s.current.Some?)
  }

  /** A `considering` snapshot and the `accept` after it: the edge taken is the
      head of the candidate list and a lightest crossing edge; it joins the
      tree together with its outside endpoint, and leaves the candidate list. */
  ghost predicate Chosen(g: Matrix, c: PrimStep, a: PrimStep)
  {
    && c.kind == Considering && |c.candidates| > 0
    && c.current == Some(c.candidates[0])
    && MinCrossing(g, c.visited, c.candidates[0])
    && a.kind == Accept && a.current == c.current
    && a.mst == c.mst + [c.candidates[0]]
    && a.visited == c.visited + {c.candidates[0].node2}
    && a.candidates == c.candidates[1..]
  }

  /** Exactly the last snapshot is `complete`, and at that point the tree
      either spans all `n` nodes or has no edge leaving it. */
  ghost predicate Ends(g: Matrix, P: seq<PrimStep>)
  {
    && |P| >= 1
    && P[|P| - 1].kind == Complete
    && (|P[|P| - 1].mst| == |g| - 1 || NoCrossing(g, P[|P| - 1].visited))
    && forall k :: 0 <= k < |P| - 1 ==> P[k].kind != Complete
  }

  ghost predicate AllChosen(g: Matrix, P: seq<PrimStep>)
  {
    forall k :: 0 <= k < |P| && P[k].kind == Considering ==> k + 1 < |P| && Chosen(g, P[k], P[k + 1])
  }

  ghost predicate AllOk(g: Matrix, start: nat, P: seq<PrimStep>)
  {
    forall k :: 0 <= k < |P| ==> StepOk(g, start, P[k])
  }

  ghost predicate Trace(g: Matrix, start: nat, P: seq<PrimStep>)
  {
    Ends(g, P) && AllChosen(g, P) && AllOk(g, start, P)
  }

  /** A run of snapshots that can stand in front of a trace. */
  ghost predicate Head(g: Matrix, start: nat, H: seq<PrimStep>)
  {
    forall k :: 0 <= k < |H| ==>
      StepOk(g, start, H[k]) && H[k].kind != Complete
      && (H[k].kind == Considering ==> k + 1 < |H| && Chosen(g, H[k], H[k + 1]))
  }

  // ---------------------------------------------------------------------
  // Proofs.

  /** Generator invariant. */
  ghost predicate Inv(g: Matrix, start: nat, st: PState)
  {
    && start < |g|
    && st.visited == Reached(start, st.mst)
    && Grows(g, start, st.mst)
    && |st.visited| == |st.mst| + 1
    && (forall v :: v in st.visited ==> v < |g|)
    && |st.mst| <= |g| - 1
    && Frontier(g, st.visited, st.candidates)
  }

  lemma HeadEnds(g: Matrix, start: nat, H: seq<PrimStep>, R: seq<PrimStep>)
    requires Head(g, start, H) && Ends(g, R)
    ensures Ends(g, H + R)
  {
    forall k | 0 <= k < |H + R| - 1 ensures (H + R)[k].kind != Complete {
      if k < |H| { assert (H + R)[k] == H[k]; } else { assert (H + R)[k] == R[k - |H|]; }
    }
    assert (H + R)[|H + R| - 1] == R[|R| - 1];
  }

  lemma HeadChosen(g: Matrix, start: nat, H: seq<PrimStep>, R: seq<PrimStep>)
    requires Head(g, start, H) && AllChosen(g, R)
    ensures AllChosen(g, H + R)
  {
    forall k | 0 <= k < |H + R| && (H + R)[k].kind == Considering
      ensures k + 1 < |H + R| && Chosen(g, (H + R)[k], (H + R)[k + 1])
    {
      if k < |H| {
        assert (H + R)[k] == H[k];
        assert H[k].kind == Considering;
        assert H[k].kind == Considering ==> k + 1 < |H| && Chosen(g, H[k], H[k + 1]);
        assert k + 1 < |H|;
        assert (H + R)[k + 1] == H[k + 1];
      } else {
        assert (H + R)[k] == R[k - |H|];
        assert (H + R)[k + 1] == R[k + 1 - |H|];
      }
    }
  }

  lemma HeadOk(g: Matrix, start: nat, H: seq<PrimStep>, R: seq<PrimStep>)
    requires Head(g, start, H) && AllOk(g, start, R)
    ensures AllOk(g, start, H + R)
  {
    forall k | 0 <= k < |H + R| ensures StepOk(g, start, (H + R)[k]) {
      if k < |H| { assert (H + R)[k] == H[k]; } else { assert (H + R)[k] == R[k - |H|]; }
    }
  }

  lemma HeadTrace(g: Matrix, start: nat, H: seq<PrimStep>, R: seq<PrimStep>)
    requires Head(g, start, H) && Trace(g, start, R)
    ensures Trace(g, start, H + R)
  {
    HeadEnds(g, start, H, R);
    HeadChosen(g, start, H, R);
    HeadOk(g, start, H, R);
  }

  /** The loop stops: the closing snapshot is right. */
  lemma FinalOk(g: Matrix, start: nat, st: PState)
    requires Inv(g, start, st) && !(|st.mst| < |g| - 1 && |st.candidates| > 0)
    ensures Trace(g, start, [Final(st)])
  {
  }

  /** Under the invariant every candidate crosses, so the scan stops at the head. */
  lemma ScanTakesHead(g: Matrix, start: nat, st: PState)
    requires Inv(g, start, st) && |st.candidates| > 0
    ensures FirstCrossing(st.candidates, st.visited, 0) == Some(0)
  {
    assert st.candidates[0] in st.candidates;
  }

  /** The head of a complete, sorted candidate list is a lightest crossing edge. */
  lemma HeadIsLightest(g: Matrix, visited: set<nat>, cands: seq<Edge>)
    requires Frontier(g, visited, cands) && |cands| > 0
    ensures MinCrossing(g, visited, cands[0])
  {
    assert cands[0] in cands;
    forall u: nat, v: nat | u in visited && v !in visited && Weight(g, u, v).Some?
      ensures cands[0].weight <= Weight(g, u, v).value
    {
      var j :| 0 <= j < |cands| && cands[j] == Edge(u, v, Weight(g, u, v).value);
    }
  }

  /** The refreshed candidate list is again exactly right for the grown tree. */
  lemma RefreshFrontier(g: Matrix, visited: set<nat>, cands: seq<Edge>, x: nat)
    requires Frontier(g, visited, cands) && |cands| > 0 && x == cands[0].node2
    ensures Frontier(g, visited + {x}, Refresh(g, x, visited + {x}, cands[1..]))
  {
    assert cands[0] in cands;
    RefreshCand(g, visited, cands, x);
    RefreshComplete(g, visited, cands, x);
  }

  lemma RefreshCand(g: Matrix, visited: set<nat>, cands: seq<Edge>, x: nat)
    requires forall e :: e in cands ==> Cand(g, visited, e)
    requires |cands| > 0 && x == cands[0].node2
    ensures forall e :: e in Refresh(g, x, visited + {x}, cands[1..]) ==> Cand(g, visited + {x}, e)
  {
    forall e | e in cands[1..] ensures e in cands {
      var j :| 0 <= j < |cands[1..]| && cands[1..][j] == e;
      assert cands[j + 1] == e;
    }
  }

  lemma RefreshComplete(g: Matrix, visited: set<nat>, cands: seq<Edge>, x: nat)
    requires forall u: nat, v: nat :: u in visited && v !in visited && Weight(g, u, v).Some? ==>
          Edge(u, v, Weight(g, u, v).value) in cands
    requires |cands| > 0 && x == cands[0].node2 && x !in visited
    ensures var r := Refresh(g, x, visited + {x}, cands[1..]);
      forall u: nat, v: nat :: u in visited + {x} && v !in visited + {x} && Weight(g, u, v).Some? ==>
          Edge(u, v, Weight(g, u, v).value) in r
  {
    var visited' := visited + {x};
    var r := Refresh(g, x, visited', cands[1..]);
    forall u: nat, v: nat | u in visited' && v !in visited' && Weight(g, u, v).Some?
      ensures Edge(u, v, Weight(g, u, v).value) in r
    {
      var f := Edge(u, v, Weight(g, u, v).value);
      if u != x {
        assert f in cands;
        var j :| 0 <= j < |cands| && cands[j] == f;
        assert j != 0;
        assert cands[1..][j - 1] == f;
      }
    }
  }

  /** One pass of the loop body keeps the invariant and records a proper head. */
  lemma IterationOk(g: Matrix, start: nat, st: PState)
    requires Inv(g, start, st) && |st.mst| < |g| - 1 && |st.candidates| > 0
    ensures Inv(g, start, Iteration(g, st, 0).1)
    ensures Head(g, start, Iteration(g, st, 0).0)
  {
    var e := st.candidates[0];
    assert e in st.candidates;
    var x := e.node2;
    var (h, st') := Iteration(g, st, 0);
    assert Remove(st.candidates, 0) == st.candidates[1..];
    assert st' == PState(st.visited + {x}, st.mst + [e], Refresh(g, x, st.visited + {x}, st.candidates[1..]));
    ReachedAppend(g, start, st.mst, e);
    RefreshFrontier(g, st.visited, st.candidates, x);
    assert Inv(g, start, st');
    IterationHead(g, start, st);
  }

  lemma IterationHead(g: Matrix, start: nat, st: PState)
    requires Inv(g, start, st) && |st.mst| < |g| - 1 && |st.candidates| > 0
    requires Inv(g, start, Iteration(g, st, 0).1)
    ensures Head(g, start, Iteration(g, st, 0).0)
  {
    var e := st.candidates[0];
    assert e in st.candidates;
    var (h, st') := Iteration(g, st, 0);
    assert Remove(st.candidates, 0) == st.candidates[1..];
    var c := PrimStep(Considering, st.visited, st.mst, st.candidates, Some(e), TotalWeight(st.mst));
    var a := PrimStep(Accept, st'.visited, st'.mst, st.candidates[1..], Some(e), TotalWeight(st'.mst));
    var u := PrimStep(Update, st'.visited, st'.mst, st'.candidates, None, TotalWeight(st'.mst));
    assert st'.visited == st.visited + {e.node2} && st'.mst == st.mst + [e];
    assert h == if |st'.mst| < |g| - 1 then [c, a, u] else [c, a];
    HeadIsLightest(g, st.visited, st.candidates);
    assert Chosen(g, c, a);
    assert StepOk(g, start, c);
    assert StepOk(g, start, a);
    if |st'.mst| < |g| - 1 {
      assert StepOk(g, start, u);
      HeadThree(g, start, c, a, u);
    } else {
      HeadTwo(g, start, c, a);
    }
  }

  lemma HeadTwo(g: Matrix, start: nat, c: PrimStep, a: PrimStep)
    requires StepOk(g, start, c) && StepOk(g, start, a) && Chosen(g, c, a)
    ensures Head(g, start, [c, a])
  {
  }

  lemma HeadThree(g: Matrix, start: nat, c: PrimStep, a: PrimStep, u: PrimStep)
    requires StepOk(g, start, c) && StepOk(g, start, a) && Chosen(g, c, a)
    requires StepOk(g, start, u) && u.kind == Update
    ensures Head(g, start, [c, a, u])
  {
    HeadTwo(g, start, c, a);
    HeadSnoc(g, start, [c, a], u);
    assert [c, a] + [u] == [c, a, u];
  }

  /** A quiet snapshot may follow a prefix of the timeline. */
  lemma HeadSnoc(g: Matrix, start: nat, H: seq<PrimStep>, u: PrimStep)
    requires Head(g, start, H) && StepOk(g, start, u) && u.kind != Complete && u.kind != Considering
    ensures Head(g, start, H + [u])
  {
    var R := H + [u];
    forall k | 0 <= k < |R|
      ensures StepOk(g, start, R[k]) && R[k].kind != Complete
      ensures R[k].kind == Considering ==> k + 1 < |R| && Chosen(g, R[k], R[k + 1])
    {
      if k < |H| {
        assert R[k] == H[k];
        if H[k].kind == Considering {
          assert k + 1 < |H| && Chosen(g, H[k], H[k + 1]);
          assert R[k + 1] == H[k + 1];
        }
      } else {
        assert R[k] == u;
      }
    }
  }

  lemma {:induction false} LoopOk(g: Matrix, start: nat, st: PState)
    requires Inv(g, start, st)
    ensures Trace(g, start, Loop(g, st))
    decreases |g| - |st.mst|
  {
    if |st.mst| < |g| - 1 && |st.candidates| > 0 {
      ScanTakesHead(g, start, st);
      var (h, st') := Iteration(g, st, 0);
      IterationOk(g, start, st);
      LoopOk(g, start, st');
      HeadTrace(g, start, h, Loop(g, st'));
    } else {
      FinalOk(g, start, st);
    }
  }

  // ---------------------------------------------------------------------
  // Properties of the whole timeline.

  /** The first two snapshots: `start` with only the start node, then
      `candidates` holding exactly the start node's edges, lightest first. */
  lemma PrimOpening(g: Matrix, start: nat)
    ensures |PrimSteps(g, start)| >= 3
    ensures PrimSteps(g, start)[0] == PrimStep(Start, {start}, [], [], None, 0)
    ensures var s := PrimSteps(g, start)[1];
      && s.kind == Candidates && s.visited == {start} && s.mst == [] && s.totalCost == 0
      && SortedByWeight(s.candidates)
      && forall e :: e in s.candidates <==>
           e.node1 == start && e.node2 != start && Weight(g, start, e.node2) == Some(e.weight)
  {
  }

  /** The variables right before the loop satisfy the invariant. */
  lemma OpeningInv(g: Matrix, start: nat)
    requires start < |g|
    ensures Inv(g, start, PState({start}, [], SortByWeight(NewEdges(g, start, {start}, 0))))
  {
    assert Reached(start, []) == {start};
  }

  lemma OpeningHead(g: Matrix, start: nat)
    requires start < |g|
    ensures var c0 := SortByWeight(NewEdges(g, start, {start}, 0));
      Head(g, start, [PrimStep(Start, {start}, [], [], None, 0), PrimStep(Candidates, {start}, [], c0, None, 0)])
  {
    var c0 := SortByWeight(NewEdges(g, start, {start}, 0));
    OpeningInv(g, start);
    var s0 := PrimStep(Start, {start}, [], [], None, 0);
    var s1 := PrimStep(Candidates, {start}, [], c0, None, 0);
    assert StepOk(g, start, s0);
    assert StepOk(g, start, s1);
    HeadQuiet(g, start, s0, s1);
  }

  lemma HeadQuiet(g: Matrix, start: nat, s0: PrimStep, s1: PrimStep)
    requires StepOk(g, start, s0) && StepOk(g, start, s1)
    requires s0.kind !in {Considering, Complete} && s1.kind !in {Considering, Complete}
    ensures Head(g, start, [s0, s1])
  {
  }

  /** Every snapshot keeps the tree, cost and candidate facts of `StepOk`;
      every `considering` is followed by the `accept` of a lightest crossing
      edge; and only the last snapshot is `complete`, with a spanning tree or
      a tree no edge leaves. */
  lemma PrimTrace(g: Matrix, start: nat)
    requires start < |g|
    ensures Trace(g, start, PrimSteps(g, start))
  {
    var c0 := SortByWeight(NewEdges(g, start, {start}, 0));
    var st := PState({start}, [], c0);
    OpeningInv(g, start);
    LoopOk(g, start, st);
    OpeningHead(g, start);
    HeadTrace(g, start, [PrimStep(Start, {start}, [], [], None, 0), PrimStep(Candidates, {start}, [], c0, None, 0)], Loop(g, st));
  }
}
