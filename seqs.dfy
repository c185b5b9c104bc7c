/** The two array operations the resolvers are built from:
    `Array.prototype.filter` and `Array.prototype.find`. */
module Seqs {
  import opened Wrappers

  /** `r` is obtained from `s` by deleting elements, keeping the order of the rest. */
  predicate IsSubsequence<T(==)>(r: seq<T>, s: seq<T>)
    decreases |s|
  {
    r == [] || (s != [] && ((r[0] == s[0] && IsSubsequence(r[1..], s[1..])) || IsSubsequence(r, s[1..])))
  }

  /** The number of occurrences of `x` in `s`. */
  function Count<T(==)>(s: seq<T>, x: T): (n: nat)
    ensures n > 0 <==> x in s
    ensures n <= |s|
  {
    if s == [] then 0 else (if s[0] == x then 1 else 0) + Count(s[1..], x)
  }

  /** Every sequence is a subsequence of itself. */
  lemma {:induction false} SubsequenceReflexive<T>(s: seq<T>)
    ensures IsSubsequence(s, s)
    decreases |s|
  {
    if s != [] {
      SubsequenceReflexive(s[1..]);
    }
  }

  /** A subsequence is no longer than what it was taken from, and holds no
      element more often. */
  lemma {:induction false} SubsequenceBound<T>(r: seq<T>, s: seq<T>, x: T)
    requires IsSubsequence(r, s)
    ensures |r| <= |s|
    ensures Count(r, x) <= Count(s, x)
    decreases |s|
  {
    if r == [] {
    } else if r[0] == s[0] && IsSubsequence(r[1..], s[1..]) {
      SubsequenceBound(r[1..], s[1..], x);
    } else {
      SubsequenceBound(r, s[1..], x);
    }
  }

  /** `s.filter(keep)`: the elements of `s` that satisfy `keep`, in order. */
  function Filter<T(==)>(s: seq<T>, keep: T -> bool): (r: seq<T>)
    ensures |r| <= |s|
    ensures forall x | x in r :: x in s && keep(x)
    ensures forall x | x in s && keep(x) :: x in r
    ensures IsSubsequence(r, s)
    ensures forall x | x in s :: Count(r, x) == if keep(x) then Count(s, x) else 0
  {
    if s == [] then
      []
    else
      var rest := Filter(s[1..], keep);
      assert s == [s[0]] + s[1..];
      assert forall x | x in s[1..] :: Count(rest, x) == if keep(x) then Count(s[1..], x) else 0;
      if keep(s[0]) then
        assert ([s[0]] + rest)[1..] == rest;
        [s[0]] + rest
      else
        rest
  }

  /** The contract of `Filter` determines its result: the only subsequence of `s`
      that holds every occurrence of each element satisfying `keep`, and nothing
      else, is `Filter(s, keep)`. */
  lemma {:induction false} FilterUnique<T>(s: seq<T>, keep: T -> bool, r: seq<T>)
    requires IsSubsequence(r, s)
    requires forall x | x in s :: Count(r, x) == if keep(x) then Count(s, x) else 0
    ensures r == Filter(s, keep)
    decreases |s|
  {
    if s == [] {
    } else if r == [] {
      var f := Filter(s, keep);
      if f != [] {
        assert Count(r, f[0]) == 0;
      }
    } else {
      var a, t := s[0], s[1..];
      if r[0] == a && IsSubsequence(r[1..], t) {
        assert keep(a);
        FilterUnique(t, keep, r[1..]);
      } else {
        SubsequenceBound(r, t, a);
        assert !keep(a);
        FilterUnique(t, keep, r);
      }
    }
  }

  /** `s.find(p)`: the first element of `s` that satisfies `p`, or nothing. */
  function Find<T>(s: seq<T>, p: T -> bool): (r: Option<T>)
    ensures r.None? <==> forall x :: x in s ==> !p(x)
    ensures r.Some? ==> r.value in s && p(r.value)
    ensures forall i :: 0 <= i < |s| && p(s[i]) && (forall k :: 0 <= k < i ==> !p(s[k])) ==> r == Some(s[i])
  {
    if s == [] then
      None
    else if p(s[0]) then
      Some(s[0])
    else
      var r := Find(s[1..], p);
      assert forall i :: 1 <= i < |s| ==> s[i] == s[1..][i - 1];
      r
  }

  /** `find` returns the head of what `filter` would return with the same test. */
  lemma {:induction false} FindIsFirstOfFilter<T>(s: seq<T>, p: T -> bool)
    ensures Find(s, p) == if Filter(s, p) == [] then None else Some(Filter(s, p)[0])
  {
    if s != [] && !p(s[0]) {
      FindIsFirstOfFilter(s[1..], p);
    }
  }
}
