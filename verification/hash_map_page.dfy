/** The hash-map page: an array of `{key, value}` entries searched linearly,
    with `put`, `remove` and `search` handlers, an action log and a size
    counter. Keys and values are what `parseInt` makes of the input fields, so
    a non-numeric key is `NaN`, which strict equality never matches. */
module HashMapPage {
  import opened Common
  import opened Js

  datatype Entry = Entry(key: Num, value: Num)

  /** The log lines; their wording is not modelled. */
  datatype Note = Put(key: Num, value: Num, updated: bool) | Removed(key: Num) | Missing(key: Num) | Found(key: Num, value: Num)

  /** `hashMap`, `steps`, `searchResult` and `size`. */
  datatype Page = Page(entries: seq<Entry>, log: seq<Note>, searchResult: seq<Num>, size: nat)

  /** The position of the first entry whose key is strictly equal to `k`
      (`Array.prototype.find`). */
  function Find(s: seq<Entry>, k: Num): (r: Option<nat>)
    ensures r.Some? ==> r.value < |s| && StrictEq(s[r.value].key, k)
    ensures r.Some? ==> forall j :: 0 <= j < r.value ==> !StrictEq(s[j].key, k)
    ensures r.None? ==> forall j :: 0 <= j < |s| ==> !StrictEq(s[j].key, k)
  {
    if |s| == 0 then None
    else if StrictEq(s[0].key, k) then Some(0)
    else match Find(s[1..], k)
      case None => None
      case Some(i) => Some(i + 1)
  }

  /** The `hashMap.map(...)` of `handlePut`: every entry with key `k` gets
      the new value. */
  function Overwrite(s: seq<Entry>, k: Num, v: Num): (r: seq<Entry>)
    ensures |r| == |s|
    ensures forall i :: 0 <= i < |s| && !StrictEq(s[i].key, k) ==> r[i] == s[i]
    ensures forall i :: 0 <= i < |s| && StrictEq(s[i].key, k) ==> r[i] == Entry(k, v)
  {
    if |s| == 0 then []
    else [if StrictEq(s[0].key, k) then Entry(k, v) else s[0]] + Overwrite(s[1..], k, v)
  }

  /** The `filter` test of `handleRemove`: `entry.key !== k`. */
  function Other(k: Num): Entry -> bool
  {
    (e: Entry) => !StrictEq(e.key, k)
  }

  /** The map the entries stand for: the value of the first entry with key
      `k`, which is what a search reports. */
  function Get(s: seq<Entry>, k: int): Option<Num>
  {
    if |s| == 0 then None
    else if s[0].key == Int(k) then Some(s[0].value)
    else Get(s[1..], k)
  }

  /** No two entries share a numeric key (entries keyed `NaN` may repeat). */
  predicate UniqueKeys(s: seq<Entry>)
  {
    forall i, j :: 0 <= i < j < |s| ==> !StrictEq(s[i].key, s[j].key)
  }

  /** `size` counts the entries and numeric keys do not repeat. */
  predicate Wf(p: Page)
  {
    p.size == |p.entries| && UniqueKeys(p.entries)
  }

  /** `handlePut`: overwrite the entries with the key, or append a new one
      when there was none; a blank field does nothing. */
  function PutEntry(p: Page, key: Field, value: Field): (p': Page)
    ensures key.Blank? || value.Blank? ==> p' == p
    ensures key.Filled? && value.Filled? ==>
      var updated := Find(p.entries, key.num).Some?;
      && p'.log == p.log + [Put(key.num, value.num, updated)]
      && |p'.entries| == (if updated then |p.entries| else |p.entries| + 1)
      && p'.size == |p'.entries| && p'.searchResult == p.searchResult
  {
    if key.Blank? || value.Blank? then p
    else
      var k, v := key.num, value.num;
      var updated := Find(p.entries, k).Some?;
      var es := Overwrite(p.entries, k, v) + (if updated then [] else [Entry(k, v)]);
      Page(es, p.log + [Put(k, v, updated)], p.searchResult, |es|)
  }

  /** `handleRemove`: drop every entry with the key; the log says whether
      anything went. */
  function RemoveEntry(p: Page, key: Field): (p': Page)
    ensures key.Blank? ==> p' == p
    ensures key.Filled? ==>
      && p'.entries == Filter(p.entries, Other(key.num))
      && p'.size == |p'.entries| && p'.searchResult == p.searchResult
      && p'.log == p.log + [if |p'.entries| != |p.entries| then Removed(key.num) else Missing(key.num)]
  {
    if key.Blank? then p
    else
      var k := key.num;
      var es := Filter(p.entries, Other(k));
      var note := if |es| != |p.entries| then Removed(k) else Missing(k);
      Page(es, p.log + [note], p.searchResult, |es|)
  }

  /** `handleSearch`: report the value of the first entry with the key. */
  function Search(p: Page, key: Field): (p': Page)
    ensures key.Blank? ==> p' == p
    ensures p'.entries == p.entries && p'.size == p.size
    ensures key.Filled? && Find(p.entries, key.num).None? ==>
      p'.searchResult == [] && p'.log == p.log + [Missing(key.num)]
    ensures key.Filled? && Find(p.entries, key.num).Some? ==>
      var v := p.entries[Find(p.entries, key.num).value].value;
      p'.searchResult == [v] && p'.log == p.log + [Found(key.num, v)]
  {
    if key.Blank? then p
    else
      var k := key.num;
      match Find(p.entries, k)
      case None => p.(searchResult := [], log := p.log + [Missing(k)])
      case Some(i) => p.(searchResult := [p.entries[i].value], log := p.log + [Found(k, p.entries[i].value)])
  }

  // ---------------------------------------------------------------------
  // The entries as a map

  /** `Find` and `Get` agree on numeric keys. */
  lemma {:induction false} FindGet(s: seq<Entry>, k: int)
    ensures Find(s, Int(k)).None? <==> Get(s, k).None?
    ensures Find(s, Int(k)).Some? ==> Get(s, k) == Some(s[Find(s, Int(k)).value].value)
  {
    if |s| > 0 && s[0].key != Int(k) {
      FindGet(s[1..], k);
    }
  }

  /** Overwriting a key that is present updates it and nothing else. */
  lemma {:induction false} OverwriteGet(s: seq<Entry>, k: int, v: Num, j: int)
    ensures Get(Overwrite(s, Int(k), v), j) ==
      if j == k && Get(s, k).Some? then Some(v) else Get(s, j)
  {
    if |s| > 0 {
      OverwriteGet(s[1..], k, v, j);
      assert Overwrite(s, Int(k), v)[1..] == Overwrite(s[1..], Int(k), v);
    }
  }

  /** An entry appended behind the others only shows for a key they lack. */
  lemma {:induction false} AppendGet(s: seq<Entry>, e: Entry, j: int)
    ensures Get(s + [e], j) == if Get(s, j).None? && e.key == Int(j) then Some(e.value) else Get(s, j)
  {
    if |s| > 0 {
      assert (s + [e])[1..] == s[1..] + [e];
      AppendGet(s[1..], e, j);
    }
  }

  /** Filtering out a numeric key removes it and nothing else. */
  lemma {:induction false} FilterGet(s: seq<Entry>, k: int, j: int)
    ensures Get(Filter(s, Other(Int(k))), j) == if j == k then None else Get(s, j)
  {
    if |s| > 0 {
      FilterGet(s[1..], k, j);
      var f := Filter(s[1..], Other(Int(k)));
      if Other(Int(k))(s[0]) {
        assert ([s[0]] + f)[0] == s[0] && ([s[0]] + f)[1..] == f;
      } else {
        assert [] + f == f;
      }
    }
  }

  /** Filtering on a `NaN` key keeps every entry. */
  lemma FilterNaN(s: seq<Entry>)
    ensures Filter(s, Other(NaN)) == s
  {
    FilterKeepsAll(s, Other(NaN));
  }

  /** `put` with a numeric key sets that key in the map and leaves the others
      alone; with a `NaN` key the map is unchanged although one more entry is
      stored. */
  lemma PutGet(p: Page, key: Field, value: Field, j: int)
    requires key.Filled? && value.Filled?
    ensures key.num.Int? ==>
      Get(PutEntry(p, key, value).entries, j) == (if j == key.num.n then Some(value.num) else Get(p.entries, j))
    ensures key.num == NaN ==>
      Get(PutEntry(p, key, value).entries, j) == Get(p.entries, j) &&
      |PutEntry(p, key, value).entries| == |p.entries| + 1
  {
    var k, v := key.num, value.num;
    var o := Overwrite(p.entries, k, v);
    if k.Int? {
      FindGet(p.entries, k.n);
      OverwriteGet(p.entries, k.n, v, j);
      if Find(p.entries, k).None? {
        AppendGet(o, Entry(k, v), j);
      } else {
        assert o + [] == o;
      }
    } else {
      assert o == p.entries;
      AppendGet(o, Entry(k, v), j);
    }
  }

  /** `remove` with a numeric key deletes exactly that key and logs
      "removed" exactly when it was present; with `NaN` nothing changes but
      the log. */
  lemma RemoveGet(p: Page, key: Field, j: int)
    requires Wf(p) && key.Filled?
    ensures key.num.Int? ==>
      Get(RemoveEntry(p, key).entries, j) == if j == key.num.n then None else Get(p.entries, j)
    ensures key.num.Int? ==>
      (RemoveEntry(p, key).log[|p.log|] == Removed(key.num) <==> Get(p.entries, key.num.n).Some?)
    ensures key.num == NaN ==>
      RemoveEntry(p, key).entries == p.entries && RemoveEntry(p, key).log == p.log + [Missing(NaN)]
  {
    var k := key.num;
    var keep := Other(k);
    if k.Int? {
      FilterGet(p.entries, k.n, j);
      FindGet(p.entries, k.n);
      FilterKeepsAll(p.entries, keep);
      var es := Filter(p.entries, keep);
      if Find(p.entries, k).Some? {
        var i := Find(p.entries, k).value;
        assert !keep(p.entries[i]);
        assert Filter(p.entries, keep) != p.entries;
        FilterShorter(p.entries, keep);
      }
    } else {
      FilterNaN(p.entries);
    }
  }

  /** `search` reports the map's value for a numeric key, and never finds
      `NaN`. */
  lemma SearchGet(p: Page, key: Field)
    requires key.Filled?
    ensures key.num.Int? ==>
      Search(p, key).searchResult == (match Get(p.entries, key.num.n) case None => [] case Some(v) => [v])
    ensures key.num == NaN ==> Search(p, key).searchResult == []
  {
    if key.num.Int? {
      FindGet(p.entries, key.num.n);
    }
  }

  /** Every handler keeps the size right and numeric keys unique. */
  lemma PutWf(p: Page, key: Field, value: Field)
    requires Wf(p)
    ensures Wf(PutEntry(p, key, value))
  {
    if key.Filled? && value.Filled? {
      var k, v := key.num, value.num;
      var o := Overwrite(p.entries, k, v);
      var es := o + (if Find(p.entries, k).Some? then [] else [Entry(k, v)]);
      forall i, j | 0 <= i < j < |es| ensures !StrictEq(es[i].key, es[j].key) {
        if j < |o| {
          assert !StrictEq(p.entries[i].key, p.entries[j].key);
        } else {
          assert !StrictEq(p.entries[i].key, k);
        }
      }
    }
  }

  lemma RemoveWf(p: Page, key: Field)
    requires Wf(p)
    ensures Wf(RemoveEntry(p, key))
  {
    if key.Filled? {
      FilterUnique(p.entries, Other(key.num));
    }
  }

  lemma {:induction false} FilterUnique(s: seq<Entry>, keep: Entry -> bool)
    requires UniqueKeys(s)
    ensures UniqueKeys(Filter(s, keep))
  {
    if |s| > 0 {
      assert UniqueKeys(s[1..]) by {
        forall i, j | 0 <= i < j < |s| - 1 ensures !StrictEq(s[1..][i].key, s[1..][j].key) {
          assert s[1..][i] == s[i + 1] && s[1..][j] == s[j + 1];
        }
      }
      FilterUnique(s[1..], keep);
      var r := Filter(s[1..], keep);
      forall j | 0 <= j < |r| ensures !StrictEq(s[0].key, r[j].key) {
        assert r[j] in s[1..];
      }
    }
  }

  lemma SearchWf(p: Page, key: Field)
    requires Wf(p)
    ensures Wf(Search(p, key))
  {
  }

  /** Putting the same pair twice stores what putting it once does. */
  lemma PutTwice(p: Page, key: Field, value: Field)
    requires Wf(p) && key.Filled? && value.Filled? && key.num.Int?
    ensures PutEntry(PutEntry(p, key, value), key, value).entries == PutEntry(p, key, value).entries
  {
    var q := PutEntry(p, key, value);
    var k, v := key.num, value.num;
    PutGet(p, key, value, k.n);
    FindGet(q.entries, k.n);
    var o := Overwrite(q.entries, k, v);
    forall i | 0 <= i < |q.entries| ensures o[i] == q.entries[i] {
      if StrictEq(q.entries[i].key, k) {
        OverwriteAll(p.entries, k, v, q.entries, i);
      }
    }
  }

  /** After a numeric `put`, every entry with that key holds the new pair. */
  lemma OverwriteAll(s: seq<Entry>, k: Num, v: Num, r: seq<Entry>, i: nat)
    requires k.Int?
    requires r == Overwrite(s, k, v) + (if Find(s, k).Some? then [] else [Entry(k, v)])
    requires i < |r| && StrictEq(r[i].key, k)
    ensures r[i] == Entry(k, v)
  {
  }
}
