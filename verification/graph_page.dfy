/** The graph page: nodes and edges are plain strings. An edge is stored as
    the text `start → end`, and removing a node drops every edge whose text
    contains the node's text anywhere, not only as an endpoint. */
module GraphPage {
  import opened Js

  /** The log lines; their wording is not modelled. */
  datatype Note = AddedNode(node: string) | AddedEdge(edge: string) | RemovedNode(node: string) | RemovedEdge(edge: string)

  /** `nodes`, `edges` and `steps`. */
  datatype Page = Page(nodes: seq<string>, edges: seq<string>, log: seq<Note>)

  /** The text of the edge from `a` to `b`: `${a} → ${b}`. */
  function EdgeText(a: string, b: string): string
  {
    a + " \U{2192} " + b
  }

  /** `s.includes(t)`: whether `t` occurs in `s` as a contiguous piece. */
  function Includes(s: string, t: string): bool
  {
    if |t| > |s| then false
    else if s[..|t|] == t then true
    else Includes(s[1..], t)
  }

  /** `t` occurs in `s` starting at position `i`. */
  predicate OccursAt(s: string, t: string, i: int)
  {
    0 <= i <= |s| - |t| && s[i..i + |t|] == t
  }

  /** `Includes` is the search for an occurrence at some position. */
  lemma {:induction false} IncludesAt(s: string, t: string)
    ensures Includes(s, t) <==> exists i :: OccursAt(s, t, i)
    decreases |s|
  {
    if |t| > |s| {
    } else if s[..|t|] == t {
      assert OccursAt(s, t, 0);
    } else {
      IncludesAt(s[1..], t);
      forall i | OccursAt(s, t, i) ensures i > 0 && OccursAt(s[1..], t, i - 1) {
        assert i != 0;
        assert s[1..][i - 1..i - 1 + |t|] == s[i..i + |t|];
      }
      forall j | OccursAt(s[1..], t, j) ensures OccursAt(s, t, j + 1) {
        assert s[j + 1..j + 1 + |t|] == s[1..][j..j + |t|];
      }
    }
  }

  /** An edge's text contains both endpoints. */
  lemma EdgeHasEnds(a: string, b: string)
    ensures Includes(EdgeText(a, b), a) && Includes(EdgeText(a, b), b)
  {
    var e := EdgeText(a, b);
    assert OccursAt(e, a, 0);
    IncludesAt(e, a);
    assert OccursAt(e, b, |e| - |b|);
    IncludesAt(e, b);
  }

  /** The `filter` tests of `handleRemoveNode` and `handleRemoveEdge`. */
  function Differs(x: string): string -> bool
  {
    (y: string) => y != x
  }

  function Avoids(node: string): string -> bool
  {
    (e: string) => !Includes(e, node)
  }

  /** `handleAddNode`: the untrimmed text joins the nodes, duplicates and
      all; a blank field does nothing. */
  function AddNode(p: Page, node: string): (p': Page)
    ensures IsBlank(node) ==> p' == p
    ensures !IsBlank(node) ==>
      p'.nodes == p.nodes + [node] && p'.edges == p.edges && p'.log == p.log + [AddedNode(node)]
  {
    if IsBlank(node) then p else p.(nodes := p.nodes + [node], log := p.log + [AddedNode(node)])
  }

  /** `handleAddEdge`: append the edge text when both fields hold text; the
      endpoints need not be nodes of the page. */
  function AddEdge(p: Page, start: string, end: string): (p': Page)
    ensures IsBlank(start) || IsBlank(end) ==> p' == p
    ensures !IsBlank(start) && !IsBlank(end) ==>
      && p'.nodes == p.nodes
      && p'.edges == p.edges + [EdgeText(start, end)]
      && p'.log == p.log + [AddedEdge(EdgeText(start, end))]
  {
    if IsBlank(start) || IsBlank(end) then p
    else
      var e := EdgeText(start, end);
      p.(edges := p.edges + [e], log := p.log + [AddedEdge(e)])
  }

  /** `handleRemoveNode`: drop every copy of the node and every edge whose
      text contains it; the removal is logged even when nothing matched. */
  function RemoveNode(p: Page, node: string): (p': Page)
    ensures IsBlank(node) ==> p' == p
    ensures !IsBlank(node) ==>
      && p'.nodes == Filter(p.nodes, Differs(node))
      && p'.edges == Filter(p.edges, Avoids(node))
      && p'.log == p.log + [RemovedNode(node)]
  {
    if IsBlank(node) then p
    else Page(Filter(p.nodes, Differs(node)), Filter(p.edges, Avoids(node)), p.log + [RemovedNode(node)])
  }

  /** `handleRemoveEdge`: drop every copy of exactly this text. */
  function RemoveEdge(p: Page, edge: string): (p': Page)
    ensures IsBlank(edge) ==> p' == p
    ensures !IsBlank(edge) ==>
      p'.nodes == p.nodes && p'.edges == Filter(p.edges, Differs(edge)) && p'.log == p.log + [RemovedEdge(edge)]
  {
    if IsBlank(edge) then p
    else p.(edges := Filter(p.edges, Differs(edge)), log := p.log + [RemovedEdge(edge)])
  }

  /** After a node is removed it is no longer listed, no remaining edge text
      mentions it, and every other node and every edge that does not mention
      it is still there. */
  lemma RemoveNodeEffect(p: Page, node: string)
    requires !IsBlank(node)
    ensures var p' := RemoveNode(p, node);
      && node !in p'.nodes
      && (forall i :: 0 <= i < |p'.edges| ==> !Includes(p'.edges[i], node))
      && (forall n :: n in p.nodes && n != node ==> n in p'.nodes)
      && (forall e :: e in p.edges && !Includes(e, node) ==> e in p'.edges)
  {
    var p' := RemoveNode(p, node);
    forall n | n in p.nodes && n != node ensures n in p'.nodes {
      var i :| 0 <= i < |p.nodes| && p.nodes[i] == n;
      assert Differs(node)(p.nodes[i]);
    }
    forall e | e in p.edges && !Includes(e, node) ensures e in p'.edges {
      var i :| 0 <= i < |p.edges| && p.edges[i] == e;
      assert Avoids(node)(p.edges[i]);
    }
    forall i | 0 <= i < |p'.edges| ensures !Includes(p'.edges[i], node) {
      assert Avoids(node)(p'.edges[i]);
    }
  }

  /** Removing a node removes the edges added at it, at either end. */
  lemma RemoveNodeDropsItsEdges(p: Page, a: string, b: string)
    requires !IsBlank(a) && !IsBlank(b)
    ensures EdgeText(a, b) !in RemoveNode(AddEdge(p, a, b), a).edges
    ensures EdgeText(a, b) !in RemoveNode(AddEdge(p, a, b), b).edges
  {
    EdgeHasEnds(a, b);
    RemoveNodeEffect(AddEdge(p, a, b), a);
    RemoveNodeEffect(AddEdge(p, a, b), b);
  }

  /** Removing an edge undoes adding it when it was not there before. */
  lemma AddThenRemoveEdge(p: Page, a: string, b: string)
    requires !IsBlank(a) && !IsBlank(b) && EdgeText(a, b) !in p.edges
    ensures RemoveEdge(AddEdge(p, a, b), EdgeText(a, b)).edges == p.edges
  {
    var e := EdgeText(a, b);
    assert !IsBlank(e) by {
      assert e[|a|] == ' ';
      var k :| 0 <= k < |a| && !IsSpace(a[k]);
      assert e[k] == a[k];
    }
    FilterConcat(p.edges, [e], Differs(e));
    FilterKeepsAll(p.edges, Differs(e));
    assert Filter([e], Differs(e)) == [];
  }

  /** The substring test reaches beyond endpoints: removing node `1` also
      drops the edge from `10` to `2`. */
  lemma RemoveNodeSubstring()
    ensures var p := Page(["1", "10", "2"], [EdgeText("10", "2")], []);
      RemoveNode(p, "1").edges == [] && RemoveNode(p, "1").nodes == ["10", "2"]
  {
    var e := EdgeText("10", "2");
    assert OccursAt(e, "1", 0);
    IncludesAt(e, "1");
    assert !IsBlank("1") by {
      assert !IsSpace("1"[0]);
    }
    var p := Page(["1", "10", "2"], [e], []);
    assert Filter(p.edges, Avoids("1")) == [];
    assert "10" != "1" && "2" != "1";
    assert Filter(p.nodes, Differs("1")) == ["10", "2"];
  }
}
