/** The linked-list page: the list is an array of parsed numbers; nodes are
    appended at the tail and removed by position ("ID" and "index" name the
    same thing) or by value (first occurrence). */
module LinkedListPage {
  import opened Common
  import opened Js

  /** Which removal button was used. */
  datatype Removal = ById | ByIndex | ByValue

  /** The log lines; their wording is not modelled. `Added` records what
      `parseInt` made of the field. */
  datatype Note = Added(value: Num) | RemovedAt(how: Removal, index: nat, value: Num) | RemovedValue(value: Num)

  /** `nodes` and `steps`. */
  datatype Page = Page(nodes: seq<Num>, log: seq<Note>)

  /** `splice(i, 1)`. */
  function Delete(s: seq<Num>, i: nat): (r: seq<Num>)
    requires i < |s|
    ensures |r| == |s| - 1
    ensures forall j :: 0 <= j < i ==> r[j] == s[j]
    ensures forall j :: i <= j < |r| ==> r[j] == s[j + 1]
  {
    s[..i] + s[i + 1..]
  }

  /** `indexOf(x)`: the first position holding a value strictly equal to `x`,
      or none (`-1`). */
  function IndexOf(s: seq<Num>, x: Num): (r: Option<nat>)
  {
    if |s| == 0 then None
    else if StrictEq(s[0], x) then Some(0)
    else match IndexOf(s[1..], x)
      case None => None
      case Some(i) => Some(i + 1)
  }

  /** `indexOf` finds exactly the first strictly equal element. */
  lemma {:induction false} IndexOfFirst(s: seq<Num>, x: Num)
    ensures IndexOf(s, x).Some? ==>
      IndexOf(s, x).value < |s| && StrictEq(s[IndexOf(s, x).value], x) &&
      forall j :: 0 <= j < IndexOf(s, x).value ==> !StrictEq(s[j], x)
    ensures IndexOf(s, x).None? <==> forall j :: 0 <= j < |s| ==> !StrictEq(s[j], x)
  {
    if |s| > 0 && !StrictEq(s[0], x) {
      IndexOfFirst(s[1..], x);
      assert forall j :: 1 <= j < |s| ==> s[j] == s[1..][j - 1];
    }
  }

  /** `handleAdd`: append the parsed value; a blank field does nothing. */
  function Add(p: Page, f: Field): (p': Page)
    ensures f.Blank? ==> p' == p
    ensures f.Filled? ==> p'.nodes == p.nodes + [f.num] && p'.log == p.log + [Added(f.num)]
  {
    match f
    case Blank => p
    case Filled(x) => Page(p.nodes + [x], p.log + [Added(x)])
  }

  /** `handleRemove` for "remove" and "remove-by-index": a position inside
      the list is logged and spliced out; anything else (`NaN` included) is
      ignored. */
  function RemoveAt(p: Page, how: Removal, f: Field): (p': Page)
    ensures f.Filled? && f.num.Int? && 0 <= f.num.n < |p.nodes| ==>
      var i := f.num.n;
      && p'.nodes == Delete(p.nodes, i)
      && p'.log == p.log + [RemovedAt(how, i, p.nodes[i])]
    ensures !(f.Filled? && f.num.Int? && 0 <= f.num.n < |p.nodes|) ==> p' == p
  {
    if f.Filled? && f.num.Int? && 0 <= f.num.n < |p.nodes| then
      var i := f.num.n;
      Page(Delete(p.nodes, i), p.log + [RemovedAt(how, i, p.nodes[i])])
    else p
  }

  /** `handleRemove` for "remove-by-value": splice out the first occurrence
      and log it; nothing when the value is absent. */
  function RemoveValue(p: Page, f: Field): (p': Page)
    ensures f.Blank? ==> p' == p
    ensures f.Filled? && IndexOf(p.nodes, f.num).None? ==> p' == p
    ensures f.Filled? && IndexOf(p.nodes, f.num).Some? ==>
      var i := IndexOf(p.nodes, f.num).value;
      i < |p.nodes| && p'.nodes == Delete(p.nodes, i) && p'.log == p.log + [RemovedValue(f.num)]
  {
    IndexOfBound(p.nodes, if f.Filled? then f.num else NaN);
    match f
    case Blank => p
    case Filled(x) =>
      match IndexOf(p.nodes, x)
      case None => p
      case Some(i) => Page(Delete(p.nodes, i), p.log + [RemovedValue(x)])
  }

  /** `handleRemove(type, param)`: the two positional buttons share one
      branch; the third removes by value. */
  function HandleRemove(p: Page, how: Removal, f: Field): (p': Page)
    ensures f.Blank? ==> p' == p
    ensures |p'.nodes| == |p.nodes| || |p'.nodes| + 1 == |p.nodes|
    ensures |p'.nodes| + 1 == |p.nodes| <==> |p'.log| == |p.log| + 1
  {
    if how == ByValue then RemoveValue(p, f) else RemoveAt(p, how, f)
  }

  lemma {:induction false} IndexOfBound(s: seq<Num>, x: Num)
    ensures IndexOf(s, x).Some? ==> IndexOf(s, x).value < |s|
  {
    if |s| > 0 && !StrictEq(s[0], x) {
      IndexOfBound(s[1..], x);
    }
  }

  /** The values a removal leaves are those of the list less the one removed. */
  lemma DeleteBag(s: seq<Num>, i: nat)
    requires i < |s|
    ensures multiset(Delete(s, i)) + multiset{s[i]} == multiset(s)
  {
    assert s == s[..i] + [s[i]] + s[i + 1..];
  }

  /** Removing the last position undoes an add. */
  lemma AddThenRemoveLast(p: Page, x: int, how: Removal)
    ensures RemoveAt(Add(p, Filled(Int(x))), how, Filled(Int(|p.nodes|))).nodes == p.nodes
  {
    var q := Add(p, Filled(Int(x)));
    assert Delete(q.nodes, |p.nodes|) == p.nodes;
  }

  /** Removing by value undoes adding a value the list did not hold; a `NaN`
      node can never be removed by value. */
  lemma AddThenRemoveValue(p: Page, x: Num)
    ensures x.Int? && (forall j :: 0 <= j < |p.nodes| ==> !StrictEq(p.nodes[j], x)) ==>
      RemoveValue(Add(p, Filled(x)), Filled(x)).nodes == p.nodes
    ensures x == NaN ==> RemoveValue(Add(p, Filled(x)), Filled(x)).nodes == p.nodes + [NaN]
  {
    var q := Add(p, Filled(x));
    IndexOfFirst(q.nodes, x);
    if x.Int? && (forall j :: 0 <= j < |p.nodes| ==> !StrictEq(p.nodes[j], x)) {
      assert StrictEq(q.nodes[|p.nodes|], x);
      assert IndexOf(q.nodes, x) == Some(|p.nodes|);
      assert Delete(q.nodes, |p.nodes|) == p.nodes;
    }
  }

  /** Removing by value takes out exactly one copy of a value that is there. */
  lemma RemoveValueCount(p: Page, x: int)
    ensures var r := RemoveValue(p, Filled(Int(x))).nodes;
      multiset(r)[Int(x)] == if Int(x) in p.nodes then multiset(p.nodes)[Int(x)] - 1 else 0
  {
    IndexOfFirst(p.nodes, Int(x));
    match IndexOf(p.nodes, Int(x))
    case None =>
    case Some(i) =>
      DeleteBag(p.nodes, i);
      assert p.nodes[i] == Int(x);
  }
}
