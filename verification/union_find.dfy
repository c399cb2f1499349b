/** The disjoint-set forest of the Kruskal page (`findSet`, `union`,
    `getComponents`), over nodes `0 .. n-1` held in two arrays `parent` and
    `rank`. The arrays are values here: an operation that the page performs in
    place returns the updated array instead. */
module UnionFind {

  /** Well-formed forest: every parent link stays inside the node range and
      strictly increases the rank, so following parent links always ends. */
  predicate Valid(parent: seq<nat>, rank: seq<nat>)
  {
    && |parent| == |rank|
    && (forall i :: 0 <= i < |parent| ==> parent[i] < |parent|)
    && (forall i :: 0 <= i < |parent| && parent[i] != i ==> rank[i] < rank[parent[i]])
  }

  /** Nodes of strictly higher rank than `i`; it shrinks along parent links
      and is the termination measure of `Root` and `FindSet`. */
  function Above(rank: seq<nat>, i: nat): set<nat>
    requires i < |rank|
  {
    set j | 0 <= j < |rank| && rank[j] > rank[i]
  }

  lemma AboveShrinks(parent: seq<nat>, rank: seq<nat>, i: nat)
    requires Valid(parent, rank) && i < |parent| && parent[i] != i
    ensures Above(rank, parent[i]) < Above(rank, i)
  {
    assert parent[i] in Above(rank, i);
    assert parent[i] !in Above(rank, parent[i]);
  }

  /** The representative of `i`: the end of its chain of parent links. */
  function Root(parent: seq<nat>, rank: seq<nat>, i: nat): (r: nat)
    requires Valid(parent, rank) && i < |parent|
    ensures r < |parent| && parent[r] == r
    ensures parent[i] == i ==> r == i
    decreases Above(rank, i)
  {
    if parent[i] == i then i
    else
      AboveShrinks(parent, rank, i);
      Root(parent, rank, parent[i])
  }

  /** A node below its representative has strictly smaller rank. */
  lemma {:induction false} RootRank(parent: seq<nat>, rank: seq<nat>, i: nat)
    requires Valid(parent, rank) && i < |parent|
    ensures parent[i] != i ==> rank[i] < rank[Root(parent, rank, i)]
    decreases Above(rank, i)
  {
    if parent[i] != i {
      AboveShrinks(parent, rank, i);
      RootRank(parent, rank, parent[i]);
    }
  }

  predicate SameRoots(p: seq<nat>, q: seq<nat>, rank: seq<nat>)
    requires Valid(p, rank) && Valid(q, rank) && |p| == |q|
  {
    forall j :: 0 <= j < |p| ==> Root(q, rank, j) == Root(p, rank, j)
  }

  /** Pointing a node straight at its representative keeps the forest valid
      and changes no node's representative. */
  lemma RedirectToRoot(parent: seq<nat>, rank: seq<nat>, i: nat)
    requires Valid(parent, rank) && i < |parent|
    ensures Valid(parent[i := Root(parent, rank, i)], rank)
    ensures SameRoots(parent, parent[i := Root(parent, rank, i)], rank)
  {
    var r := Root(parent, rank, i);
    var p' := parent[i := r];
    RootRank(parent, rank, i);
    assert Valid(p', rank);
    forall j | 0 <= j < |parent| ensures Root(p', rank, j) == Root(parent, rank, j) {
      RedirectOne(parent, rank, i, j);
    }
  }

  lemma {:induction false} RedirectOne(parent: seq<nat>, rank: seq<nat>, i: nat, j: nat)
    requires Valid(parent, rank) && i < |parent| && j < |parent|
    requires Valid(parent[i := Root(parent, rank, i)], rank)
    ensures Root(parent[i := Root(parent, rank, i)], rank, j) == Root(parent, rank, j)
    decreases Above(rank, j)
  {
    var r := Root(parent, rank, i);
    var p' := parent[i := r];
    if j == i {
      if r != i {
        assert p'[r] == r;
      }
    } else if parent[j] != j {
      AboveShrinks(parent, rank, j);
      RedirectOne(parent, rank, i, parent[j]);
    }
  }

  /** `findSet` with path compression: the representative of `i`, and the
      parent array in which every node on the path from `i` (`i` included)
      now points straight at it. */
  function FindSet(parent: seq<nat>, rank: seq<nat>, i: nat): (res: (nat, seq<nat>))
    requires Valid(parent, rank) && i < |parent|
    ensures res.0 == Root(parent, rank, i)
    ensures res.0 == i <==> parent[i] == i
    ensures |res.1| == |parent| && Valid(res.1, rank)
    ensures res.1[i] == res.0
    ensures SameRoots(parent, res.1, rank)
    decreases Above(rank, i)
  {
    if parent[i] == i then (i, parent)
    else
      AboveShrinks(parent, rank, i);
      var (r, p1) := FindSet(parent, rank, parent[i]);
      RedirectToRoot(p1, rank, i);
      RootRank(parent, rank, i);
      (r, p1[i := r])
  }

  /** The nodes that are their own representative. */
  function Roots(parent: seq<nat>): set<nat>
  {
    set r | 0 <= r < |parent| && parent[r] == r
  }

  lemma SameRootsSameRoots(p: seq<nat>, q: seq<nat>, rank: seq<nat>)
    requires Valid(p, rank) && Valid(q, rank) && |p| == |q| && SameRoots(p, q, rank)
    ensures Roots(q) == Roots(p)
  {
    forall r | 0 <= r < |p| ensures (p[r] == r <==> q[r] == r) {
      assert Root(p, rank, r) == Root(q, rank, r);
    }
  }

  /** The root that survives a union of the roots `a` and `b`. */
  function Winner(rank: seq<nat>, a: nat, b: nat): nat
    requires a < |rank| && b < |rank|
  {
    if rank[a] < rank[b] then b else a
  }

  /** The linking part of `union`, applied to two representatives. */
  function Link(parent: seq<nat>, rank: seq<nat>, a: nat, b: nat): (res: (seq<nat>, seq<nat>))
    requires Valid(parent, rank) && a < |parent| && b < |parent|
    requires parent[a] == a && parent[b] == b
    ensures |res.0| == |parent| && Valid(res.0, res.1)
    ensures forall j :: 0 <= j < |parent| ==>
      Root(res.0, res.1, j) == if Root(parent, rank, j) in {a, b} then Winner(rank, a, b) else Root(parent, rank, j)
    ensures a != b ==> Roots(res.0) == Roots(parent) - {if Winner(rank, a, b) == a then b else a}
    ensures a == b ==> res.0 == parent
    ensures res.1 == if rank[a] == rank[b] then rank[Winner(rank, a, b) := rank[Winner(rank, a, b)] + 1] else rank
  {
    var res :=
      if rank[a] < rank[b] then (parent[a := b], rank)
      else if rank[a] > rank[b] then (parent[b := a], rank)
      else (parent[b := a], rank[a := rank[a] + 1]);
    assert Valid(res.0, res.1);
    assert rank[a] == rank[b] ==> Winner(rank, a, b) == a;
    forall j | 0 <= j < |parent|
      ensures Root(res.0, res.1, j) == if Root(parent, rank, j) in {a, b} then Winner(rank, a, b) else Root(parent, rank, j)
    {
      LinkOne(parent, rank, a, b, res.0, res.1, j);
    }
    res
  }

  lemma {:induction false} LinkOne(parent: seq<nat>, rank: seq<nat>, a: nat, b: nat,
                                   p': seq<nat>, rank': seq<nat>, j: nat)
    requires Valid(parent, rank) && a < |parent| && b < |parent| && j < |parent|
    requires parent[a] == a && parent[b] == b
    requires |p'| == |parent| && Valid(p', rank')
    requires var loser := if Winner(rank, a, b) == a then b else a;
             p' == parent[loser := Winner(rank, a, b)]
    ensures Root(p', rank', j) == if Root(parent, rank, j) in {a, b} then Winner(rank, a, b) else Root(parent, rank, j)
    decreases Above(rank, j)
  {
    var w := Winner(rank, a, b);
    if parent[j] != j {
      AboveShrinks(parent, rank, j);
      LinkOne(parent, rank, a, b, p', rank', parent[j]);
    } else if j == a || j == b {
      assert p'[w] == w;
    }
  }

  /** `union(parent, rank, x, y)`: both finds compress their paths, then the
      root of lower rank goes under the other; on equal ranks the root of `y`
      goes under the root of `x` and that root's rank grows by one. */
  function Union(parent: seq<nat>, rank: seq<nat>, x: nat, y: nat): (res: (seq<nat>, seq<nat>))
    requires Valid(parent, rank) && x < |parent| && y < |parent|
    ensures |res.0| == |parent| && Valid(res.0, res.1)
    ensures var a := Root(parent, rank, x); var b := Root(parent, rank, y);
      forall j :: 0 <= j < |parent| ==>
        Root(res.0, res.1, j) == if Root(parent, rank, j) in {a, b} then Winner(rank, a, b) else Root(parent, rank, j)
    ensures var a := Root(parent, rank, x); var b := Root(parent, rank, y);
      a != b ==> Roots(res.0) == Roots(parent) - {if Winner(rank, a, b) == a then b else a}
    ensures var a := Root(parent, rank, x); var b := Root(parent, rank, y);
      res.1 == if rank[a] == rank[b] then rank[Winner(rank, a, b) := rank[Winner(rank, a, b)] + 1] else rank
  {
    var (a, p1) := FindSet(parent, rank, x);
    var (b, p2) := FindSet(p1, rank, y);
    SameRootsSameRoots(parent, p1, rank);
    SameRootsSameRoots(p1, p2, rank);
    assert p2[a] == a by {
      assert Root(p2, rank, a) == Root(parent, rank, a) == a;
    }
    assert a == Root(parent, rank, x) && b == Root(parent, rank, y);
    assert SameRoots(parent, p2, rank);
    LinkAfterFinds(parent, p2, rank, a, b);
    Link(p2, rank, a, b)
  }

  /** Linking in a compressed copy `q` of `parent` acts on the classes of
      `parent` itself. */
  lemma LinkAfterFinds(parent: seq<nat>, q: seq<nat>, rank: seq<nat>, a: nat, b: nat)
    requires Valid(parent, rank) && Valid(q, rank) && |q| == |parent| && SameRoots(parent, q, rank)
    requires a < |q| && b < |q| && q[a] == a && q[b] == b
    ensures var res := Link(q, rank, a, b);
      forall j :: 0 <= j < |parent| ==>
        Root(res.0, res.1, j) == if Root(parent, rank, j) in {a, b} then Winner(rank, a, b) else Root(parent, rank, j)
    ensures var res := Link(q, rank, a, b);
      a != b ==> Roots(res.0) == Roots(parent) - {if Winner(rank, a, b) == a then b else a}
  {
    SameRootsSameRoots(parent, q, rank);
    var res := Link(q, rank, a, b);
    forall j | 0 <= j < |parent|
      ensures Root(res.0, res.1, j) == if Root(parent, rank, j) in {a, b} then Winner(rank, a, b) else Root(parent, rank, j)
    {
      assert Root(q, rank, j) == Root(parent, rank, j);
    }
  }

  /** One component: the nodes whose representative is `r`. */
  function Class(parent: seq<nat>, rank: seq<nat>, r: nat): set<nat>
    requires Valid(parent, rank)
  {
    set j | 0 <= j < |parent| && Root(parent, rank, j) == r
  }

  /** `getComponents`: the nodes grouped by representative. The page lists the
      groups in key order of a JavaScript object; only the grouping is kept. */
  function Components(parent: seq<nat>, rank: seq<nat>): set<set<nat>>
    requires Valid(parent, rank)
  {
    set r | r in Roots(parent) :: Class(parent, rank, r)
  }

  /** The component that holds node `j`. */
  function ComponentOf(parent: seq<nat>, rank: seq<nat>, j: nat): set<nat>
    requires Valid(parent, rank) && j < |parent|
  {
    Class(parent, rank, Root(parent, rank, j))
  }

  /** The components partition the nodes: every node lies in its own
      component, no component is empty, a component holding `j` is the
      component of `j`, and two nodes share a component exactly when they
      share a representative. */
  lemma ComponentsPartition(parent: seq<nat>, rank: seq<nat>)
    requires Valid(parent, rank)
    ensures forall c :: c in Components(parent, rank) ==> c != {}
    ensures forall j :: 0 <= j < |parent| ==>
      ComponentOf(parent, rank, j) in Components(parent, rank) && j in ComponentOf(parent, rank, j)
    ensures forall c, j :: c in Components(parent, rank) && j in c ==>
      j < |parent| && c == ComponentOf(parent, rank, j)
    ensures forall j, k :: 0 <= j < |parent| && 0 <= k < |parent| ==>
      (k in ComponentOf(parent, rank, j) <==> Root(parent, rank, j) == Root(parent, rank, k))
  {
    var comps := Components(parent, rank);
    forall c | c in comps ensures c != {} {
      var r :| r in Roots(parent) && c == Class(parent, rank, r);
      assert r in c;
    }
    forall j | 0 <= j < |parent| ensures ComponentOf(parent, rank, j) in comps {
      assert Root(parent, rank, j) in Roots(parent);
    }
  }

  /** There is one component per representative. */
  lemma ComponentCount(parent: seq<nat>, rank: seq<nat>)
    requires Valid(parent, rank)
    ensures |Components(parent, rank)| == |Roots(parent)|
  {
    ClassesCount(parent, rank, Roots(parent));
  }

  lemma {:induction false} ClassesCount(parent: seq<nat>, rank: seq<nat>, rs: set<nat>)
    requires Valid(parent, rank) && rs <= Roots(parent)
    ensures |set r | r in rs :: Class(parent, rank, r)| == |rs|
    decreases rs
  {
    var img := set r | r in rs :: Class(parent, rank, r);
    if rs != {} {
      var r0 :| r0 in rs;
      var rest := rs - {r0};
      var img' := set r | r in rest :: Class(parent, rank, r);
      ClassesCount(parent, rank, rest);
      assert r0 in Class(parent, rank, r0);
      forall r1 | r1 in rest ensures Class(parent, rank, r1) != Class(parent, rank, r0) {
        assert r1 in Class(parent, rank, r1);
      }
      assert img == img' + {Class(parent, rank, r0)};
    } else {
      assert img == {};
    }
  }

  /** The arrays `kruskalSteps` starts from: every node its own parent, rank 0. */
  function Singletons(n: nat): (res: (seq<nat>, seq<nat>))
    ensures |res.0| == n && Valid(res.0, res.1)
    ensures forall i :: 0 <= i < n ==> res.0[i] == i
    ensures |Roots(res.0)| == n
    ensures forall j :: 0 <= j < n ==> ComponentOf(res.0, res.1, j) == {j}
  {
    var parent := seq(n, i => i);
    var rank := seq(n, i => 0);
    assert Valid(parent, rank);
    forall r | 0 <= r < n ensures ComponentOf(parent, rank, r) == {r} {
      forall j | 0 <= j < n ensures Root(parent, rank, j) == j {
        assert parent[j] == j;
      }
    }
    assert Roots(parent) == Nodes(n);
    NodesSize(n);
    (parent, rank)
  }

  /** The node range `0 .. n-1`. */
  function Nodes(n: nat): (r: set<nat>)
    ensures forall i: int :: i in r <==> 0 <= i < n
  {
    if n == 0 then {} else Nodes(n - 1) + {n - 1}
  }

  lemma {:induction false} NodesSize(n: nat)
    ensures |Nodes(n)| == n
  {
    if n > 0 {
      NodesSize(n - 1);
    }
  }

  /** Node `j` lies in some block of `comps`. */
  predicate Covered(comps: set<set<nat>>, j: nat)
  {
    exists c :: c in comps && j in c
  }

  /** `comps` is a partition of the nodes `0 .. n-1` into non-empty blocks. */
  predicate Partition(comps: set<set<nat>>, n: nat)
  {
    && (forall c :: c in comps ==> c != {} && forall j :: j in c ==> j < n)
    && (forall c, d, j :: c in comps && d in comps && j in c && j in d ==> c == d)
    && (forall j :: 0 <= j < n ==> Covered(comps, j))
  }

  /** Nodes `u` and `v` lie in one block of `comps`. */
  predicate Together(comps: set<set<nat>>, u: nat, v: nat)
  {
    exists c :: c in comps && u in c && v in c
  }

  /** What a caller of `getComponents` may rely on: a partition, one block per
      representative, and two nodes share a block exactly when `findSet`
      gives them the same representative. */
  lemma ComponentsFacts(parent: seq<nat>, rank: seq<nat>)
    requires Valid(parent, rank)
    ensures Partition(Components(parent, rank), |parent|)
    ensures |Components(parent, rank)| == |Roots(parent)|
    ensures forall u, v :: 0 <= u < |parent| && 0 <= v < |parent| ==>
      (Together(Components(parent, rank), u, v) <==> Root(parent, rank, u) == Root(parent, rank, v))
  {
    var comps := Components(parent, rank);
    ComponentsPartition(parent, rank);
    ComponentCount(parent, rank);
    forall j | 0 <= j < |parent| ensures Covered(comps, j) {
      assert j in ComponentOf(parent, rank, j);
    }
    forall u, v | 0 <= u < |parent| && 0 <= v < |parent|
      ensures Together(comps, u, v) <==> Root(parent, rank, u) == Root(parent, rank, v)
    {
      if Root(parent, rank, u) == Root(parent, rank, v) {
        assert u in ComponentOf(parent, rank, u) && v in ComponentOf(parent, rank, u);
      }
    }
  }

  /** Once a single node is its own representative, the forest has one
      component holding every node. */
  lemma OneComponent(parent: seq<nat>, rank: seq<nat>)
    requires Valid(parent, rank) && |Roots(parent)| == 1
    ensures Components(parent, rank) == {Nodes(|parent|)}
  {
    var r :| r in Roots(parent);
    assert |Roots(parent) - {r}| == 0;
    assert Roots(parent) - {r} == {};
    forall j | 0 <= j < |parent| ensures Root(parent, rank, j) == r {
      assert Root(parent, rank, j) in Roots(parent);
    }
    assert Class(parent, rank, r) == Nodes(|parent|);
  }
}
