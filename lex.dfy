/** Python's ordering of `str` values: code point by code point, a proper
    prefix before any of its extensions. `max` over a column of strings
    uses it. */
module Lex {
  import opened Options
  import opened Seqs

  /** `a <= b` for Python strings. */
  predicate LexLessEq(a: string, b: string)
    decreases |a|
  {
    a == [] || (b != [] && (a[0] < b[0] || (a[0] == b[0] && LexLessEq(a[1..], b[1..]))))
  }

  lemma {:induction false} LexReflexive(a: string)
    ensures LexLessEq(a, a)
  {
    if a != [] {
      LexReflexive(a[1..]);
    }
  }

  lemma {:induction false} LexTotal(a: string, b: string)
    ensures LexLessEq(a, b) || LexLessEq(b, a)
  {
    if a != [] && b != [] && a[0] == b[0] {
      LexTotal(a[1..], b[1..]);
    }
  }

  lemma {:induction false} LexAntisymmetric(a: string, b: string)
    requires LexLessEq(a, b) && LexLessEq(b, a)
    ensures a == b
  {
    if a != [] && b != [] {
      LexAntisymmetric(a[1..], b[1..]);
      assert a == [a[0]] + a[1..] && b == [b[0]] + b[1..];
    }
  }

  lemma {:induction false} LexTransitive(a: string, b: string, c: string)
    requires LexLessEq(a, b) && LexLessEq(b, c)
    ensures LexLessEq(a, c)
  {
    if a != [] && a[0] == b[0] && b[0] == c[0] {
      LexTransitive(a[1..], b[1..], c[1..]);
    }
  }

  /** `max()` of a column of strings, compared through `key`; `None` for an
      empty column. */
  function MaxBy(s: seq<string>, key: string -> string): (r: Option<string>)
    ensures r.None? <==> s == []
    ensures r.Some? ==> r.value in s
    ensures r.Some? ==> forall i :: 0 <= i < |s| ==> LexLessEq(key(s[i]), key(r.value))
  {
    if s == [] then None
    else
      var last := Last(s);
      assert forall i :: 0 <= i < |s| - 1 ==> s[i] == DropLast(s)[i];
      match MaxBy(DropLast(s), key)
      case None =>
        LexReflexive(key(last));
        Some(last)
      case Some(m) =>
        if LexLessEq(key(last), key(m)) then
          assert forall i :: 0 <= i < |s| ==> LexLessEq(key(s[i]), key(m));
          Some(m)
        else
          LexTotal(key(last), key(m));
          LexReflexive(key(last));
          assert forall i :: 0 <= i < |s| - 1 ==> LexLessEq(key(s[i]), key(last)) by {
            forall i | 0 <= i < |s| - 1
              ensures LexLessEq(key(s[i]), key(last))
            {
              LexTransitive(key(s[i]), key(m), key(last));
            }
          }
          Some(last)
  }
}
