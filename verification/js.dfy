/** The JavaScript semantics the data-structure pages lean on: the number
    `parseInt` hands back (possibly `NaN`), strict equality on it, the blank
    test `s.trim() === ""`, and `Array.prototype.filter`. */
module Js {

  /** A number produced by `parseInt`: an integer, or `NaN` when the text does
      not start with one. How the text is parsed is not modelled. */
  datatype Num = NaN | Int(n: int)

  /** `a === b` on such numbers: `NaN` is equal to nothing, itself included. */
  predicate StrictEq(a: Num, b: Num)
  {
    a.Int? && b.Int? && a.n == b.n
  }

  /** `NaN` is the one value that strict equality does not relate to itself. */
  lemma StrictEqReflexive(a: Num)
    ensures StrictEq(a, a) <==> a != NaN
  {
  }

  /** An input field after the page's blank check: blank, or holding a number
      parsed from its text. */
  datatype Field = Blank | Filled(num: Num)

  /** The characters `String.prototype.trim` removes: the ECMAScript white
      space and line terminators (section 12.2 and 12.3 of ECMA-262), that is
      tab, vertical tab, form feed, space, no-break space, the byte-order mark,
      every space separator of Unicode category Zs, and the four line
      terminators. */
  predicate IsSpace(c: char)
  {
    || c == '\t' || c == '\U{000B}' || c == '\U{000C}' || c == ' ' || c == '\U{00A0}' || c == '\U{FEFF}'
    || c == '\U{1680}' || ('\U{2000}' <= c <= '\U{200A}') || c == '\U{202F}' || c == '\U{205F}' || c == '\U{3000}'
    || c == '\n' || c == '\r' || c == '\U{2028}' || c == '\U{2029}'
  }

  /** `s.trim() === ""` (equivalently `!s.trim()`). */
  predicate IsBlank(s: string)
  {
    forall i :: 0 <= i < |s| ==> IsSpace(s[i])
  }

  /** `s.filter(keep)`: the elements that pass, in their order. */
  function Filter<T>(s: seq<T>, keep: T -> bool): (r: seq<T>)
    ensures |r| <= |s|
    ensures forall i :: 0 <= i < |r| ==> r[i] in s && keep(r[i])
    ensures forall i :: 0 <= i < |s| && keep(s[i]) ==> s[i] in r
  {
    if |s| == 0 then []
    else (if keep(s[0]) then [s[0]] else []) + Filter(s[1..], keep)
  }

  /** Filtering keeps the sequence exactly when every element passes. */
  lemma {:induction false} FilterKeepsAll<T>(s: seq<T>, keep: T -> bool)
    ensures Filter(s, keep) == s <==> forall i :: 0 <= i < |s| ==> keep(s[i])
  {
    if |s| > 0 {
      FilterKeepsAll(s[1..], keep);
      if !keep(s[0]) {
        assert |Filter(s, keep)| < |s|;
      }
    }
  }

  /** Filtering distributes over concatenation. */
  lemma {:induction false} FilterConcat<T>(s: seq<T>, t: seq<T>, keep: T -> bool)
    ensures Filter(s + t, keep) == Filter(s, keep) + Filter(t, keep)
  {
    if |s| == 0 {
      assert s + t == t;
    } else {
      assert (s + t)[1..] == s[1..] + t;
      FilterConcat(s[1..], t, keep);
    }
  }

  /** A filter that drops something is shorter. */
  lemma {:induction false} FilterShorter<T>(s: seq<T>, keep: T -> bool)
    ensures Filter(s, keep) != s ==> |Filter(s, keep)| < |s|
  {
    if |s| > 0 {
      var rest := Filter(s[1..], keep);
      FilterShorter(s[1..], keep);
      if keep(s[0]) {
        assert Filter(s, keep) == [s[0]] + rest;
        if rest == s[1..] {
          assert [s[0]] + s[1..] == s;
        }
      } else {
        assert Filter(s, keep) == rest;
      }
    }
  }
}
