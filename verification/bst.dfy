/** The binary search tree of the tree page: `insertNode`, `removeNode`,
    `findMin`, the four traversals, `getTreeHeight` and `countNodes`, and the
    page handlers around them. The page rewires its nodes in place; here the
    tree is an immutable value and every mutator returns the new tree. */
module Bst {
  import opened Common

  datatype Tree = Nil | Node(left: Tree, value: int, right: Tree)

  /** The values stored in `t`. */
  function Values(t: Tree): set<int>
  {
    match t
    case Nil => {}
    case Node(l, v, r) => Values(l) + {v} + Values(r)
  }

  /** The values stored in `t`, counted with multiplicity. */
  function Bag(t: Tree): multiset<int>
  {
    match t
    case Nil => multiset{}
    case Node(l, v, r) => Bag(l) + multiset{v} + Bag(r)
  }

  /** Strict search-tree order: everything left of a node is smaller, everything
      right of it is larger. `insertNode` keeps out duplicates, so the order is
      strict. */
  predicate IsBst(t: Tree)
  {
    match t
    case Nil => true
    case Node(l, v, r) =>
      && IsBst(l) && IsBst(r)
      && (forall x :: x in Values(l) ==> x < v)
      && (forall x :: x in Values(r) ==> v < x)
  }

  /** `countNodes`. */
  function Count(t: Tree): nat
  {
    match t
    case Nil => 0
    case Node(l, _, r) => Count(l) + Count(r) + 1
  }

  /** `getTreeHeight`: 0 for the empty tree, else one more than the taller child. */
  function Height(t: Tree): nat
  {
    match t
    case Nil => 0
    case Node(l, _, r) => (if Height(l) < Height(r) then Height(r) else Height(l)) + 1
  }

  function Pow2(k: nat): (p: nat)
    ensures p >= 1
  {
    if k == 0 then 1 else 2 * Pow2(k - 1)
  }

  /** A tree of height `h` has between `h` and `2^h - 1` nodes. */
  lemma {:induction false} HeightBounds(t: Tree)
    ensures Height(t) <= Count(t) <= Pow2(Height(t)) - 1
  {
    match t
    case Nil =>
    case Node(l, _, r) =>
      HeightBounds(l);
      HeightBounds(r);
      PowMono(Height(l), Height(t) - 1);
      PowMono(Height(r), Height(t) - 1);
  }

  lemma {:induction false} PowMono(a: nat, b: nat)
    requires a <= b
    ensures Pow2(a) <= Pow2(b)
    decreases b
  {
    if a < b {
      PowMono(a, b - 1);
    }
  }

  lemma {:induction false} BagValues(t: Tree)
    ensures forall x :: x in Bag(t) <==> x in Values(t)
  {
    match t
    case Nil =>
    case Node(l, v, r) =>
      BagValues(l);
      BagValues(r);
  }

  /** In a search tree no value repeats, so the node count is the number of
      distinct values. */
  lemma {:induction false} BstCount(t: Tree)
    requires IsBst(t)
    ensures Count(t) == |Values(t)|
  {
    match t
    case Nil =>
    case Node(l, v, r) =>
      BstCount(l);
      BstCount(r);
      assert Values(l) + {v} !! Values(r) by {
        forall x | x in Values(l) + {v} ensures x !in Values(r) {
          assert x <= v;
        }
      }
      CardDisjoint(Values(l), {v});
      CardDisjoint(Values(l) + {v}, Values(r));
  }

  lemma CardDisjoint(a: set<int>, b: set<int>)
    requires a !! b
    ensures |a + b| == |a| + |b|
  {
  }

  // ---------------------------------------------------------------------
  // insertNode

  /** `insertNode(node, value)`: descends left on smaller, right on larger,
      and ignores a value it meets on the way. */
  function Insert(t: Tree, x: int): (r: Tree)
    ensures Values(r) == Values(t) + {x}
    ensures IsBst(t) ==> IsBst(r)
    ensures Count(r) == Count(t) || Count(r) == Count(t) + 1
  {
    match t
    case Nil => Node(Nil, x, Nil)
    case Node(l, v, rt) =>
      if x < v then Node(Insert(l, x), v, rt)
      else if x > v then Node(l, v, Insert(rt, x))
      else t
  }

  /** Inserting a value the search tree already holds changes nothing;
      inserting a new one adds exactly one node. */
  lemma {:induction false} InsertPresent(t: Tree, x: int)
    requires IsBst(t)
    ensures x in Values(t) <==> Insert(t, x) == t
    ensures x !in Values(t) <==> Count(Insert(t, x)) == Count(t) + 1
  {
    match t
    case Nil =>
    case Node(l, v, rt) =>
      if x < v {
        InsertPresent(l, x);
      } else if x > v {
        InsertPresent(rt, x);
      }
  }

  /** Inserting into the empty tree gives a single leaf. */
  lemma InsertEmpty(x: int)
    ensures Insert(Nil, x) == Node(Nil, x, Nil)
    ensures Inorder(Insert(Nil, x)) == [x]
  {
  }

  // ---------------------------------------------------------------------
  // findMin and removeNode

  /** `findMin(node)`: the value of the leftmost node. */
  function FindMin(t: Tree): (m: int)
    requires t != Nil
    ensures m in Values(t)
    ensures IsBst(t) ==> forall x :: x in Values(t) ==> m <= x
  {
    if t.left == Nil then t.value else FindMin(t.left)
  }

  /** `findMin` finds the first value of the in-order listing. */
  lemma {:induction false} FindMinFirst(t: Tree)
    requires t != Nil
    ensures |Inorder(t)| > 0 && FindMin(t) == Inorder(t)[0]
  {
    if t.left != Nil {
      FindMinFirst(t.left);
      assert Inorder(t) == Inorder(t.left) + ([t.value] + Inorder(t.right));
    }
  }

  /** `removeNode(node, value)`. A node without children disappears, a node
      with one child is replaced by it, and a node with two children takes the
      smallest value of its right subtree, which is then removed from there. */
  function Remove(t: Tree, x: int): (r: Tree)
    ensures x !in Values(t) ==> r == t
    ensures IsBst(t) ==> IsBst(r) && Values(r) == Values(t) - {x}
  {
    match t
    case Nil => Nil
    case Node(l, v, rt) =>
      if x < v then
        Node(Remove(l, x), v, rt)
      else if x > v then
        Node(l, v, Remove(rt, x))
      else if l == Nil && rt == Nil then
        Nil
      else if l == Nil then
        rt
      else if rt == Nil then
        l
      else
        var m := FindMin(rt);
        RemoveSuccessor(l, v, rt, m, Remove(rt, m));
        Node(l, m, Remove(rt, m))
  }

  /** The two-child case keeps the order: the successor `m` is above the whole
      left subtree and below the rest of the right one. */
  lemma RemoveSuccessor(l: Tree, v: int, rt: Tree, m: int, rt': Tree)
    requires rt != Nil && m == FindMin(rt)
    requires IsBst(rt) ==> IsBst(rt') && Values(rt') == Values(rt) - {m}
    ensures IsBst(Node(l, v, rt)) ==>
      IsBst(Node(l, m, rt')) && Values(Node(l, m, rt')) == Values(Node(l, v, rt)) - {v}
  {
    if IsBst(Node(l, v, rt)) {
      assert v < m;
      assert v !in Values(l) && v !in Values(rt);
    }
  }

  /** In a search tree, removal takes out exactly one node when the value is
      present. */
  lemma RemoveCount(t: Tree, x: int)
    requires IsBst(t)
    ensures Count(Remove(t, x)) == if x in Values(t) then Count(t) - 1 else Count(t)
  {
    BstCount(t);
    BstCount(Remove(t, x));
  }

  /** The cases of removing the value at the root: a leaf disappears, a node
      with one child is replaced by that child, and a node with two children
      takes its in-order successor, the first value listed in order in its
      right subtree, which in a search tree is the least value above `x`. */
  lemma RemoveRoot(l: Tree, x: int, r: Tree)
    ensures l == Nil ==> Remove(Node(l, x, r), x) == r
    ensures r == Nil ==> Remove(Node(l, x, r), x) == l
    ensures l != Nil && r != Nil ==>
      var m := Inorder(r)[0];
      && Remove(Node(l, x, r), x) == Node(l, m, Remove(r, m))
      && (IsBst(Node(l, x, r)) ==> x < m && forall y :: y in Values(Node(l, x, r)) && y > x ==> m <= y)
  {
    if l != Nil && r != Nil {
      FindMinFirst(r);
    }
  }

  // ---------------------------------------------------------------------
  // The four traversals

  function Inorder(t: Tree): (s: seq<int>)
    ensures |s| == Count(t)
  {
    match t
    case Nil => []
    case Node(l, v, r) => Inorder(l) + [v] + Inorder(r)
  }

  function Preorder(t: Tree): (s: seq<int>)
    ensures |s| == Count(t)
    ensures t != Nil ==> |s| > 0 && s[0] == t.value
  {
    match t
    case Nil => []
    case Node(l, v, r) => [v] + Preorder(l) + Preorder(r)
  }

  function Postorder(t: Tree): (s: seq<int>)
    ensures |s| == Count(t)
    ensures t != Nil ==> |s| > 0 && s[|s| - 1] == t.value
  {
    match t
    case Nil => []
    case Node(l, v, r) => Postorder(l) + Postorder(r) + [v]
  }

  predicate Increasing(s: seq<int>)
  {
    forall i, j :: 0 <= i < j < |s| ==> s[i] < s[j]
  }

  /** A tree is a search tree exactly when its in-order listing is strictly
      increasing. */
  lemma {:induction false} InorderIncreasing(t: Tree)
    ensures IsBst(t) <==> Increasing(Inorder(t))
  {
    match t
    case Nil =>
    case Node(l, v, r) =>
      InorderIncreasing(l);
      InorderIncreasing(r);
      InorderValues(l);
      InorderValues(r);
      IncreasingAround(Inorder(l), v, Inorder(r));
  }

  lemma {:induction false} InorderValues(t: Tree)
    ensures forall x :: x in Inorder(t) <==> x in Values(t)
  {
    match t
    case Nil =>
    case Node(l, v, r) =>
      InorderValues(l);
      InorderValues(r);
  }

  /** The three recursive traversals list each stored value as often as it
      is stored. */
  lemma {:induction false} InorderBag(t: Tree)
    ensures multiset(Inorder(t)) == Bag(t)
  {
    match t
    case Nil =>
    case Node(l, v, r) =>
      InorderBag(l);
      InorderBag(r);
  }

  lemma {:induction false} PreorderBag(t: Tree)
    ensures multiset(Preorder(t)) == Bag(t)
  {
    match t
    case Nil =>
    case Node(l, v, r) =>
      PreorderBag(l);
      PreorderBag(r);
  }

  lemma {:induction false} PostorderBag(t: Tree)
    ensures multiset(Postorder(t)) == Bag(t)
  {
    match t
    case Nil =>
    case Node(l, v, r) =>
      PostorderBag(l);
      PostorderBag(r);
  }

  /** `a + [v] + b` is strictly increasing exactly when both sides are, and
      `v` lies strictly between them. */
  lemma IncreasingAround(a: seq<int>, v: int, b: seq<int>)
    ensures Increasing(a + [v] + b) <==>
      Increasing(a) && Increasing(b) && (forall x :: x in a ==> x < v) && (forall y :: y in b ==> v < y)
  {
    var s := a + [v] + b;
    if Increasing(s) {
      forall i, j | 0 <= i < j < |a| ensures a[i] < a[j] {
        assert s[i] == a[i] && s[j] == a[j];
      }
      forall i, j | 0 <= i < j < |b| ensures b[i] < b[j] {
        assert s[|a| + 1 + i] == b[i] && s[|a| + 1 + j] == b[j];
      }
      forall x | x in a ensures x < v {
        var i :| 0 <= i < |a| && a[i] == x;
        assert s[i] == x && s[|a|] == v;
      }
      forall y | y in b ensures v < y {
        var j :| 0 <= j < |b| && b[j] == y;
        assert s[|a| + 1 + j] == y && s[|a|] == v;
      }
    }
    if Increasing(a) && Increasing(b) && (forall x :: x in a ==> x < v) && (forall y :: y in b ==> v < y) {
      forall i, j | 0 <= i < j < |s| ensures s[i] < s[j] {
        if j < |a| {
          assert s[i] == a[i] && s[j] == a[j];
        } else if i > |a| {
          assert s[i] == b[i - |a| - 1] && s[j] == b[j - |a| - 1];
        } else {
          assert i < |a| ==> s[i] == a[i] && a[i] in a;
          assert j > |a| ==> s[j] == b[j - |a| - 1] && b[j - |a| - 1] in b;
        }
      }
    }
  }

  // ---------------------------------------------------------------------
  // Level order

  /** Total number of nodes in a queue of subtrees. */
  function ForestSize(q: seq<Tree>): nat
  {
    if |q| == 0 then 0 else Count(q[0]) + ForestSize(q[1..])
  }

  lemma {:induction false} ForestSizeConcat(p: seq<Tree>, q: seq<Tree>)
    ensures ForestSize(p + q) == ForestSize(p) + ForestSize(q)
    decreases |p|
  {
    if |p| == 0 {
      assert p + q == q;
    } else {
      assert (p + q)[1..] == p[1..] + q;
      ForestSizeConcat(p[1..], q);
    }
  }

  /** The children of a node that exist, left before right: what the loop
      pushes after visiting `t`. */
  function Kids(t: Tree): seq<Tree>
  {
    match t
    case Nil => []
    case Node(l, _, r) => (if l != Nil then [l] else []) + (if r != Nil then [r] else [])
  }

  /** Moving from a node to its children loses exactly that node. */
  lemma KidsSize(t: Tree)
    requires t != Nil
    ensures ForestSize(Kids(t)) + 1 == Count(t)
  {
    var a: seq<Tree> := if t.left != Nil then [t.left] else [];
    var b: seq<Tree> := if t.right != Nil then [t.right] else [];
    assert ForestSize(a) == Count(t.left) && ForestSize(b) == Count(t.right);
    ForestSizeConcat(a, b);
  }

  /** The next level: the children of every queued subtree, in queue order. */
  function Children(q: seq<Tree>): seq<Tree>
  {
    if |q| == 0 then [] else Kids(q[0]) + Children(q[1..])
  }

  /** A non-empty level has fewer nodes below it than in it. */
  lemma {:induction false} ChildrenShrink(q: seq<Tree>)
    ensures ForestSize(Children(q)) <= ForestSize(q)
    ensures ForestSize(q) > 0 ==> ForestSize(Children(q)) < ForestSize(q)
    decreases |q|
  {
    if |q| > 0 {
      ChildrenShrink(q[1..]);
      ForestSizeConcat(Kids(q[0]), Children(q[1..]));
      if q[0] != Nil {
        KidsSize(q[0]);
      }
    }
  }

  /** The values at the roots of the queued subtrees, in queue order. */
  function Roots(q: seq<Tree>): seq<int>
  {
    if |q| == 0 then [] else Label(q[0]) + Roots(q[1..])
  }

  /** The value at the root, if there is one. */
  function Label(t: Tree): seq<int>
  {
    if t == Nil then [] else [t.value]
  }

  /** Breadth-first order defined level by level: the roots of the current
      level from left to right, then the same for the level of their children. */
  function Levels(q: seq<Tree>): seq<int>
    decreases ForestSize(q)
  {
    if ForestSize(q) == 0 then []
    else
      ChildrenShrink(q);
      Roots(q) + Levels(Children(q))
  }

  /** What the `levelOrderTraversal` loop produces from a queue `q`: shift the
      front, record its value, push its existing children. The loop never
      queues an empty subtree; one at the front is passed over here only to
      keep the function total. */
  function Drain(q: seq<Tree>): seq<int>
    decreases ForestSize(q), |q|
  {
    if |q| == 0 then []
    else if q[0] == Nil then Drain(q[1..])
    else
      RoundShrinks(q);
      [q[0].value] + Drain(q[1..] + Kids(q[0]))
  }

  /** One round of the loop removes one node from the queue. */
  lemma RoundShrinks(q: seq<Tree>)
    requires |q| > 0 && q[0] != Nil
    ensures ForestSize(q[1..] + Kids(q[0])) + 1 == ForestSize(q)
  {
    ForestSizeConcat(q[1..], Kids(q[0]));
    KidsSize(q[0]);
  }

  lemma ConcatAssoc<T>(a: seq<T>, b: seq<T>, c: seq<T>)
    ensures (a + b) + c == a + (b + c)
  {
  }

  /** Working through the front subtrees `q` of a queue emits their roots and
      leaves their children queued behind `extra`. */
  lemma {:induction false} DrainFront(q: seq<Tree>, extra: seq<Tree>)
    ensures Drain(q + extra) == Roots(q) + Drain(extra + Children(q))
    decreases |q|
  {
    if |q| == 0 {
      assert q + extra == extra && extra + Children(q) == extra;
    } else {
      var extra' := extra + Kids(q[0]);
      DrainFront(q[1..], extra');
      DrainFrontStep(q, extra, extra');
    }
  }

  /** The inductive step of `DrainFront`: one round moves the front subtree's
      children behind `extra`. */
  lemma DrainFrontStep(q: seq<Tree>, extra: seq<Tree>, extra': seq<Tree>)
    requires |q| > 0 && extra' == extra + Kids(q[0])
    requires Drain(q[1..] + extra') == Roots(q[1..]) + Drain(extra' + Children(q[1..]))
    ensures Drain(q + extra) == Roots(q) + Drain(extra + Children(q))
  {
    DrainShift(q, extra);
    ChildrenShift(q, extra);
    ConcatAssoc(Label(q[0]), Roots(q[1..]), Drain(extra + Children(q)));
  }

  /** The front subtree of `q + extra` is handled first. */
  lemma DrainShift(q: seq<Tree>, extra: seq<Tree>)
    requires |q| > 0
    ensures Drain(q + extra) == Label(q[0]) + Drain(q[1..] + (extra + Kids(q[0])))
  {
    var qe := q + extra;
    assert qe[0] == q[0] && qe[1..] == q[1..] + extra;
    ConcatAssoc(q[1..], extra, Kids(q[0]));
    if q[0] == Nil {
      assert extra + Kids(q[0]) == extra;
    }
  }

  lemma ChildrenShift(q: seq<Tree>, extra: seq<Tree>)
    requires |q| > 0
    ensures extra + Children(q) == (extra + Kids(q[0])) + Children(q[1..])
  {
    ConcatAssoc(extra, Kids(q[0]), Children(q[1..]));
  }

  /** A queue holding no nodes yields nothing. */
  lemma {:induction false} DrainEmpty(q: seq<Tree>)
    requires ForestSize(q) == 0
    ensures Drain(q) == []
    decreases |q|
  {
    if |q| > 0 {
      assert q[0] == Nil;
      DrainEmpty(q[1..]);
    }
  }

  /** The queue loop visits the tree level by level. */
  lemma {:induction false} DrainLevels(q: seq<Tree>)
    ensures Drain(q) == Levels(q)
    decreases ForestSize(q)
  {
    if ForestSize(q) == 0 {
      DrainEmpty(q);
    } else {
      DrainFront(q, []);
      assert q + [] == q && [] + Children(q) == Children(q);
      ChildrenShrink(q);
      DrainLevels(Children(q));
    }
  }

  /** Every queued subtree is non-empty. */
  predicate AllNodes(q: seq<Tree>)
  {
    forall k :: 0 <= k < |q| ==> q[k] != Nil
  }

  /** `levelOrderTraversal(node)`, with the array-backed queue of the page. */
  method LevelOrder(t: Tree) returns (result: seq<int>)
    ensures result == Levels([t])
    ensures |result| == Count(t)
    ensures t != Nil ==> result[0] == t.value
  {
    LevelsOfOne(t);
    if t == Nil {
      return [];
    }
    result := [];
    var queue := [t];
    while |queue| > 0
      invariant AllNodes(queue)
      invariant result + Drain(queue) == Drain([t])
      decreases ForestSize(queue)
    {
      var current := queue[0];
      Round(queue);
      ConcatAssoc(result, [current.value], Drain(queue[1..] + Kids(current)));
      var next := queue[1..];
      if current.left != Nil {
        next := next + [current.left];
      }
      if current.right != Nil {
        next := next + [current.right];
      }
      PushKids(queue[1..], current);
      queue := next;
      result := result + [current.value];
    }
    assert result == Drain([t]);
  }

  /** Pushing the existing children one by one, left first, appends `Kids`. */
  lemma PushKids(front: seq<Tree>, t: Tree)
    requires t != Nil
    ensures (var a := if t.left != Nil then front + [t.left] else front;
             if t.right != Nil then a + [t.right] else a) == front + Kids(t)
  {
    if t.left != Nil && t.right != Nil {
      ConcatAssoc(front, [t.left], [t.right]);
    }
  }

  /** One round of the loop on a queue of non-empty subtrees. */
  lemma Round(q: seq<Tree>)
    requires AllNodes(q) && |q| > 0
    ensures AllNodes(q[1..] + Kids(q[0]))
    ensures ForestSize(q[1..] + Kids(q[0])) < ForestSize(q)
    ensures Drain(q) == [q[0].value] + Drain(q[1..] + Kids(q[0]))
  {
    RoundShrinks(q);
    assert AllNodes(q[1..]) by {
      forall k | 0 <= k < |q| - 1 ensures q[1..][k] != Nil {
        assert q[1..][k] == q[k + 1];
      }
    }
    KidsNodes(q[0]);
    AllNodesConcat(q[1..], Kids(q[0]));
  }

  lemma KidsNodes(t: Tree)
    ensures AllNodes(Kids(t))
  {
  }

  lemma AllNodesConcat(p: seq<Tree>, q: seq<Tree>)
    requires AllNodes(p) && AllNodes(q)
    ensures AllNodes(p + q)
  {
    forall k | 0 <= k < |p + q| ensures (p + q)[k] != Nil {
      if k < |p| {
        assert (p + q)[k] == p[k];
      } else {
        assert (p + q)[k] == q[k - |p|];
      }
    }
  }

  /** What the loop yields from the one-element queue `[t]`. */
  lemma LevelsOfOne(t: Tree)
    ensures Drain([t]) == Levels([t]) && |Drain([t])| == Count(t)
    ensures t != Nil ==> |Drain([t])| > 0 && Drain([t])[0] == t.value
  {
    DrainLevels([t]);
    DrainSize([t]);
    assert ForestSize([t]) == Count(t);
    if t != Nil {
      assert [t][1..] + Kids(t) == Kids(t);
    }
  }

  /** The loop emits one value per node. */
  lemma {:induction false} DrainSize(q: seq<Tree>)
    ensures |Drain(q)| == ForestSize(q)
    decreases ForestSize(q), |q|
  {
    if |q| > 0 {
      if q[0] == Nil {
        DrainSize(q[1..]);
      } else {
        RoundShrinks(q);
        DrainSize(q[1..] + Kids(q[0]));
      }
    }
  }

  function ForestBag(q: seq<Tree>): multiset<int>
  {
    if |q| == 0 then multiset{} else Bag(q[0]) + ForestBag(q[1..])
  }

  lemma {:induction false} ForestBagConcat(p: seq<Tree>, q: seq<Tree>)
    ensures ForestBag(p + q) == ForestBag(p) + ForestBag(q)
    decreases |p|
  {
    if |p| == 0 {
      assert p + q == q;
    } else {
      assert (p + q)[1..] == p[1..] + q;
      ForestBagConcat(p[1..], q);
    }
  }

  /** The children of a node hold all its values but its own. */
  lemma KidsBag(t: Tree)
    requires t != Nil
    ensures ForestBag(Kids(t)) == Bag(t.left) + Bag(t.right)
  {
    var a: seq<Tree> := if t.left != Nil then [t.left] else [];
    var b: seq<Tree> := if t.right != Nil then [t.right] else [];
    assert Kids(t) == a + b;
    SingleBag(t.left);
    SingleBag(t.right);
    ForestBagConcat(a, b);
  }

  lemma SingleBag(t: Tree)
    ensures ForestBag(if t != Nil then [t] else []) == Bag(t)
  {
    if t != Nil {
      assert [t][1..] == [];
    }
  }

  /** The loop lists every value of the queued subtrees as often as it is
      stored. */
  lemma {:induction false} DrainBag(q: seq<Tree>)
    ensures multiset(Drain(q)) == ForestBag(q)
    decreases ForestSize(q), |q|
  {
    if |q| > 0 {
      if q[0] == Nil {
        DrainBag(q[1..]);
      } else {
        RoundShrinks(q);
        DrainBag(q[1..] + Kids(q[0]));
        ForestBagConcat(q[1..], Kids(q[0]));
        KidsBag(q[0]);
      }
    }
  }

  // ---------------------------------------------------------------------
  // The page

  datatype Order = InOrder | PreOrder | PostOrder | LevelOrderKind

  /** The page's action log; the text of each entry is not modelled. */
  datatype Action = Added(value: int) | Removed(value: int) | Traversed(order: Order, result: seq<int>)

  /** `root`, the action list `steps`, `traversalResult` and `currentStep`. */
  datatype Page = Page(root: Tree, log: seq<Action>, traversal: seq<int>, cursor: nat)

  function Traverse(t: Tree, order: Order): seq<int>
  {
    match order
    case InOrder => Inorder(t)
    case PreOrder => Preorder(t)
    case PostOrder => Postorder(t)
    case LevelOrderKind => Levels([t])
  }

  /** `handleAddNode`: a blank field (`None`) does nothing. */
  function AddNode(p: Page, input: Option<int>): (p': Page)
    ensures input.None? ==> p' == p
    ensures input.Some? ==> p'.root == Insert(p.root, input.value) && p'.log == p.log + [Added(input.value)]
    ensures p'.traversal == p.traversal && p'.cursor == p.cursor
  {
    match input
    case None => p
    case Some(x) => p.(root := Insert(p.root, x), log := p.log + [Added(x)])
  }

  /** `handleRemoveNode`: the root is replaced, and the removal logged, only
      when `removeNode` returns a non-empty tree. */
  function RemoveNode(p: Page, input: Option<int>): (p': Page)
    ensures input.None? ==> p' == p
    ensures input.Some? && Remove(p.root, input.value) != Nil ==>
      p'.root == Remove(p.root, input.value) && p'.log == p.log + [Removed(input.value)]
    ensures input.Some? && Remove(p.root, input.value) == Nil ==> p' == p
    ensures p'.traversal == p.traversal && p'.cursor == p.cursor
  {
    match input
    case None => p
    case Some(x) =>
      var r := Remove(p.root, x);
      if r != Nil then p.(root := r, log := p.log + [Removed(x)]) else p
  }

  /** Removing the only value of a one-node tree leaves the tree as it was and
      logs nothing; a value absent from a non-empty tree is still logged as
      removed. */
  lemma RemoveNodeQuirks(p: Page, x: int)
    ensures p.root == Node(Nil, x, Nil) ==> RemoveNode(p, Some(x)) == p
    ensures p.root != Nil && x !in Values(p.root) ==>
      RemoveNode(p, Some(x)).root == p.root && RemoveNode(p, Some(x)).log == p.log + [Removed(x)]
  {
  }

  /** On a search tree holding other values too, a removal through the page
      takes out exactly the requested value. */
  lemma RemoveNodeEffect(p: Page, x: int)
    requires IsBst(p.root) && Values(p.root) - {x} != {}
    ensures IsBst(RemoveNode(p, Some(x)).root)
    ensures Values(RemoveNode(p, Some(x)).root) == Values(p.root) - {x}
  {
    assert Remove(p.root, x) != Nil;
  }

  /** `handleTraversal`: show the traversal from its first element. */
  function Traversal(p: Page, order: Order): (p': Page)
    ensures p'.root == p.root && p'.cursor == 0
    ensures p'.traversal == Traverse(p.root, order) && p'.log == p.log + [Traversed(order, p'.traversal)]
  {
    var result := Traverse(p.root, order);
    p.(traversal := result, cursor := 0, log := p.log + [Traversed(order, result)])
  }

  /** `handleNextStep`: advance unless the cursor is on the last element. */
  function NextStep(p: Page): (p': Page)
    ensures p'.cursor == if p.cursor + 1 < |p.traversal| then p.cursor + 1 else p.cursor
    ensures p'.root == p.root && p'.log == p.log && p'.traversal == p.traversal
  {
    if p.cursor < |p.traversal| - 1 then p.(cursor := p.cursor + 1) else p
  }

  /** The cursor stays on an element of the traversal (or at 0 when it is
      empty) whatever the sequence of page events. */
  predicate CursorOk(p: Page)
  {
    p.cursor == 0 || p.cursor < |p.traversal|
  }

  lemma CursorStaysOk(p: Page, input: Option<int>, order: Order)
    requires CursorOk(p)
    ensures CursorOk(AddNode(p, input)) && CursorOk(RemoveNode(p, input))
    ensures CursorOk(Traversal(p, order)) && CursorOk(NextStep(p))
  {
  }

  /** Every traversal lists each value of the tree as often as it is stored. */
  lemma TraversalsAgree(t: Tree, order: Order)
    ensures multiset(Traverse(t, order)) == Bag(t) && |Traverse(t, order)| == Count(t)
  {
    match order
    case InOrder => InorderBag(t);
    case PreOrder => PreorderBag(t);
    case PostOrder => PostorderBag(t);
    case LevelOrderKind =>
      LevelsOfOne(t);
      DrainBag([t]);
      assert ForestBag([t]) == Bag(t);
  }
}
