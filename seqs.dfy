/** Sequence helpers shared by the aggregation pass: pandas' `unique()`,
    counting the rows that satisfy a mask, and summing a column. */
module Seqs {

  function Last<T>(s: seq<T>): T
    requires s != []
  {
    s[|s| - 1]
  }

  function DropLast<T>(s: seq<T>): seq<T>
    requires s != []
  {
    s[..|s| - 1]
  }

  lemma PrefixSnoc<T>(s: seq<T>, k: nat)
    requires k < |s|
    ensures s[..k + 1] == s[..k] + [s[k]]
  {
  }

  /** No value occurs twice in `s`. */
  predicate NoDup<T(==)>(s: seq<T>)
  {
    forall i, j :: 0 <= i < j < |s| ==> s[i] != s[j]
  }

  /** Two duplicate-free sequences with no common value concatenate to a
      duplicate-free sequence. */
  lemma NoDupConcat<T>(a: seq<T>, b: seq<T>)
    requires NoDup(a) && NoDup(b)
    requires forall i :: 0 <= i < |b| ==> b[i] !in a
    ensures NoDup(a + b)
  {
    forall i, j | 0 <= i < j < |a + b|
      ensures (a + b)[i] != (a + b)[j]
    {
      if j >= |a| {
        assert (a + b)[j] == b[j - |a|];
        if i < |a| {
          assert (a + b)[i] in a;
        }
      }
    }
  }

  /** Position of the first occurrence of `x` in `s`. */
  function FirstIndex<T(==)>(s: seq<T>, x: T): (k: nat)
    requires x in s
    ensures k < |s| && s[k] == x
    ensures forall i :: 0 <= i < k ==> s[i] != x
  {
    if s[0] == x then 0 else 1 + FirstIndex(s[1..], x)
  }

  /** The distinct values of `s`, each once, in order of first appearance:
      what pandas' `Series.unique()` returns. */
  function Distinct<T(==, !new)>(s: seq<T>): (r: seq<T>)
    ensures NoDup(r)
    ensures forall x :: x in r <==> x in s
    decreases |s|
  {
    if s == [] then []
    else
      var prev := Distinct(DropLast(s));
      if Last(s) in prev then prev else prev + [Last(s)]
  }

  /** `unique()` of a two-value column. */
  lemma DistinctOfTwo<T(!new)>(a: T, b: T)
    ensures Distinct([a, b]) == if a == b then [a] else [a, b]
  {
    assert DropLast([a]) == [];
    assert Distinct([a]) == [a];
    assert DropLast([a, b]) == [a] && Last([a, b]) == b;
    assert [a] + [b] == [a, b];
  }

  /** A duplicate-free sequence holding exactly one value is that value alone. */
  lemma NoDupSingleton<T>(r: seq<T>, a: T)
    requires NoDup(r) && a in r
    requires forall i :: 0 <= i < |r| ==> r[i] == a
    ensures r == [a]
  {
    AllSameMultiplicity(r, a);
    NoDupMultiplicity(r, a);
  }

  /** A sequence holding only `a` holds it as often as it is long. */
  lemma {:induction false} AllSameMultiplicity<T>(r: seq<T>, a: T)
    requires forall i :: 0 <= i < |r| ==> r[i] == a
    ensures multiset(r)[a] == |r|
  {
    if r != [] {
      assert r == DropLast(r) + [Last(r)];
      AllSameMultiplicity(DropLast(r), a);
    }
  }

  /** The first occurrence of a value is unaffected by what follows it. */
  lemma FirstIndexOfPrefix<T>(s: seq<T>, t: seq<T>, x: T)
    requires x in s
    ensures FirstIndex(s + t, x) == FirstIndex(s, x)
  {
    assert forall i :: 0 <= i < |s| ==> (s + t)[i] == s[i];
  }

  /** `Distinct` lists values in the order in which they first appear. */
  lemma {:induction false} DistinctKeepsFirstAppearanceOrder<T(!new)>(s: seq<T>, i: nat, j: nat)
    requires i < j < |Distinct(s)|
    ensures FirstIndex(s, Distinct(s)[i]) < FirstIndex(s, Distinct(s)[j])
  {
    var s', y := DropLast(s), Last(s);
    var prev := Distinct(s');
    assert s == s' + [y];
    var x := Distinct(s)[i];
    assert x == prev[i] && x in s';
    FirstIndexOfPrefix(s', [y], x);
    if j < |prev| {
      DistinctKeepsFirstAppearanceOrder(s', i, j);
      FirstIndexOfPrefix(s', [y], prev[j]);
    } else {
      // the value at j is `y`, first seen at the last position
      assert Distinct(s)[j] == y && y !in s';
      assert s[|s'|] == y;
      assert forall k :: 0 <= k < |s'| ==> s[k] == s'[k];
    }
  }

  /** Number of elements of `s` that satisfy `p` (pandas: `len(df[mask])`). */
  function CountWhere<T>(s: seq<T>, p: T -> bool): nat
  {
    if s == [] then 0 else CountWhere(DropLast(s), p) + (if p(Last(s)) then 1 else 0)
  }

  /** Counting depends only on the mask's value at the elements. */
  lemma {:induction false} CountWhereExt<T>(s: seq<T>, p: T -> bool, q: T -> bool)
    requires forall i :: 0 <= i < |s| ==> p(s[i]) == q(s[i])
    ensures CountWhere(s, p) == CountWhere(s, q)
  {
    if s != [] {
      CountWhereExt(DropLast(s), p, q);
    }
  }

  /** A mask that is the disjoint union of two masks counts their sum. */
  lemma {:induction false} CountWhereSplit<T>(s: seq<T>, p: T -> bool, q: T -> bool, r: T -> bool)
    requires forall i :: 0 <= i < |s| ==> (p(s[i]) <==> q(s[i]) || r(s[i]))
    requires forall i :: 0 <= i < |s| ==> !(q(s[i]) && r(s[i]))
    ensures CountWhere(s, p) == CountWhere(s, q) + CountWhere(s, r)
  {
    if s != [] {
      CountWhereSplit(DropLast(s), p, q, r);
    }
  }

  /** A mask that no element satisfies counts nothing. */
  lemma {:induction false} CountWhereNone<T>(s: seq<T>, p: T -> bool)
    requires forall i :: 0 <= i < |s| ==> !p(s[i])
    ensures CountWhere(s, p) == 0
  {
    if s != [] {
      CountWhereNone(DropLast(s), p);
    }
  }

  /** Every element satisfies the mask exactly when all are counted. */
  lemma {:induction false} CountWhereAll<T>(s: seq<T>, p: T -> bool)
    ensures CountWhere(s, p) <= |s|
    ensures CountWhere(s, p) == |s| <==> forall i :: 0 <= i < |s| ==> p(s[i])
  {
    if s != [] {
      CountWhereAll(DropLast(s), p);
      if CountWhere(s, p) == |s| {
        assert p(Last(s));
      }
    }
  }

  /** Sum of `f` over the elements of `s` (pandas: `column.sum()`). */
  function Sum<T>(s: seq<T>, f: T -> int): int
  {
    if s == [] then 0 else Sum(DropLast(s), f) + f(Last(s))
  }

  lemma {:induction false} SumAppend<T>(a: seq<T>, b: seq<T>, f: T -> int)
    ensures Sum(a + b, f) == Sum(a, f) + Sum(b, f)
  {
    if b == [] {
      assert a + b == a;
    } else {
      assert DropLast(a + b) == a + DropLast(b);
      SumAppend(a, DropLast(b), f);
    }
  }

  /** Reordering a sequence does not change its sum. */
  lemma {:induction false} SumPermutation<T>(s: seq<T>, t: seq<T>, f: T -> int)
    requires multiset(s) == multiset(t)
    ensures Sum(s, f) == Sum(t, f)
  {
    if s == [] {
      assert |multiset(t)| == 0;
    } else {
      var x := Last(s);
      assert s == DropLast(s) + [x];
      assert x in multiset(t);
      var i :| 0 <= i < |t| && t[i] == x;
      var rest := t[..i] + t[i + 1..];
      assert t == t[..i] + [x] + t[i + 1..];
      assert multiset(t) == multiset(t[..i]) + multiset{x} + multiset(t[i + 1..]);
      assert multiset(rest) == multiset(t[..i]) + multiset(t[i + 1..]);
      assert multiset(s) == multiset(DropLast(s)) + multiset{x};
      assert multiset(DropLast(s)) == multiset(s) - multiset{x};
      assert multiset(rest) == multiset(t) - multiset{x};
      SumPermutation(DropLast(s), rest, f);
      SumAppend(t[..i] + [x], t[i + 1..], f);
      SumAppend(t[..i], [x], f);
      SumAppend(t[..i], t[i + 1..], f);
      assert Sum([x], f) == f(x) by {
        assert DropLast([x]) == [];
      }
    }
  }

  /** Two sequences whose elements correspond one to one under `f` and `g`
      have the same sum. */
  lemma {:induction false} SumPointwise<A, B>(a: seq<A>, f: A -> int, b: seq<B>, g: B -> int)
    requires |a| == |b|
    requires forall i :: 0 <= i < |a| ==> f(a[i]) == g(b[i])
    ensures Sum(a, f) == Sum(b, g)
  {
    if a != [] {
      SumPointwise(DropLast(a), f, DropLast(b), g);
    }
  }

  lemma {:induction false} SumOfZeros<T>(s: seq<T>, f: T -> int)
    requires forall i :: 0 <= i < |s| ==> f(s[i]) == 0
    ensures Sum(s, f) == 0
  {
    if s != [] {
      SumOfZeros(DropLast(s), f);
    }
  }

  /** Adding one to the summand at `y` adds one to the sum over a
      duplicate-free sequence exactly when `y` is in it. */
  lemma {:induction false} SumBump<T>(s: seq<T>, f: T -> int, g: T -> int, y: T)
    requires NoDup(s)
    requires forall x :: g(x) == f(x) + (if x == y then 1 else 0)
    ensures Sum(s, g) == Sum(s, f) + (if y in s then 1 else 0)
  {
    if s != [] {
      assert s == DropLast(s) + [Last(s)];
      SumBump(DropLast(s), f, g, y);
    }
  }

  /** Summing each distinct value's multiplicity gives the length:
      the distinct values partition the sequence. */
  lemma {:induction false} SumOfMultiplicities<T(!new)>(s: seq<T>)
    ensures Sum(Distinct(s), x => multiset(s)[x]) == |s|
  {
    if s != [] {
      var s', y := DropLast(s), Last(s);
      assert s == s' + [y];
      var prev := Distinct(s');
      SumOfMultiplicities(s');
      SumBump(prev, x => multiset(s')[x], x => multiset(s)[x], y);
      if y !in prev {
        assert Distinct(s) == prev + [y];
        assert DropLast(prev + [y]) == prev;
        assert multiset(s')[y] == 0;
      }
    }
  }

  /** In a duplicate-free sequence a value fixes its position. */
  lemma NoDupIndex<T>(s: seq<T>, i: nat, j: nat)
    requires NoDup(s) && i < |s| && j < |s| && s[i] == s[j]
    ensures i == j
  {
  }

  /** A value stored at two positions occurs at least twice. */
  lemma TwoPositionsMultiplicity<T>(s: seq<T>, i: nat, j: nat)
    requires i < j < |s| && s[i] == s[j]
    ensures multiset(s)[s[i]] >= 2
  {
    assert s == s[..j] + [s[j]] + s[j + 1..];
    assert s[..j][i] == s[i];
    assert multiset(s) == multiset(s[..j]) + multiset{s[j]} + multiset(s[j + 1..]);
  }

  /** In a duplicate-free sequence every value occurs at most once. */
  lemma {:induction false} NoDupMultiplicity<T>(s: seq<T>, x: T)
    requires NoDup(s)
    ensures multiset(s)[x] <= 1
  {
    if s != [] {
      assert s == DropLast(s) + [Last(s)];
      NoDupMultiplicity(DropLast(s), x);
      if x == Last(s) {
        assert x !in DropLast(s);
      }
    }
  }

  /** Reordering keeps a sequence duplicate-free. */
  lemma NoDupPermutation<T>(s: seq<T>, t: seq<T>)
    requires NoDup(s) && multiset(s) == multiset(t)
    ensures NoDup(t)
  {
    forall i, j | 0 <= i < j < |t|
      ensures t[i] != t[j]
    {
      if t[i] == t[j] {
        TwoPositionsMultiplicity(t, i, j);
        NoDupMultiplicity(s, t[i]);
        assert false;
      }
    }
  }
}
