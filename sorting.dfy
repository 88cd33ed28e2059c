/** `DataFrame.sort_values(by=column, ascending=False)`: reorders the rows
    so that the chosen integer column is non-increasing. */
module Sorting {

  /** Keys never increase from left to right. */
  predicate NonIncreasing<T>(s: seq<T>, key: T -> int)
  {
    forall i, j :: 0 <= i < j < |s| ==> key(s[i]) >= key(s[j])
  }

  /** Every key in `s` is at most `bound`. */
  predicate KeysAtMost<T>(s: seq<T>, key: T -> int, bound: int)
  {
    forall i :: 0 <= i < |s| ==> key(s[i]) <= bound
  }

  /** A sorted sequence stays sorted when an element whose key is at least
      every other key is put in front. */
  lemma ConsNonIncreasing<T>(y: T, s: seq<T>, key: T -> int)
    requires NonIncreasing(s, key) && KeysAtMost(s, key, key(y))
    ensures NonIncreasing([y] + s, key)
  {
    forall i, j | 0 <= i < j < |[y] + s|
      ensures key(([y] + s)[i]) >= key(([y] + s)[j])
    {
      if i > 0 {
        assert ([y] + s)[i] == s[i - 1];
      }
      assert ([y] + s)[j] == s[j - 1];
    }
  }

  /** The elements of `t` are `x` and those of `s`, so a bound on both bounds `t`. */
  lemma KeysAtMostPermutation<T>(x: T, s: seq<T>, t: seq<T>, key: T -> int, bound: int)
    requires multiset(t) == multiset(s) + multiset{x}
    requires KeysAtMost(s, key, bound) && key(x) <= bound
    ensures KeysAtMost(t, key, bound)
  {
    forall i | 0 <= i < |t|
      ensures key(t[i]) <= bound
    {
      assert t[i] in multiset(t);
      if t[i] != x {
        assert t[i] in multiset(s);
        var j :| 0 <= j < |s| && s[j] == t[i];
      }
    }
  }

  /** Places `x` before the first element of the sorted `s` whose key is
      not larger than its own. */
  function InsertDescending<T>(x: T, s: seq<T>, key: T -> int): (r: seq<T>)
    requires NonIncreasing(s, key)
    ensures multiset(r) == multiset(s) + multiset{x}
    ensures NonIncreasing(r, key)
  {
    if s == [] || key(s[0]) <= key(x) then
      assert KeysAtMost(s, key, key(x));
      ConsNonIncreasing(x, s, key);
      [x] + s
    else
      assert s == [s[0]] + s[1..];
      var tail := InsertDescending(x, s[1..], key);
      KeysAtMostPermutation(x, s[1..], tail, key, key(s[0]));
      ConsNonIncreasing(s[0], tail, key);
      [s[0]] + tail
  }

  /** The rows of `s` ordered by non-increasing key. Insertion keeps rows
      with equal keys in their original order. */
  function SortDescending<T>(s: seq<T>, key: T -> int): (r: seq<T>)
    ensures multiset(r) == multiset(s)
    ensures NonIncreasing(r, key)
  {
    if s == [] then []
    else
      assert s == [s[0]] + s[1..];
      InsertDescending(s[0], SortDescending(s[1..], key), key)
  }
}
