/**
 Generic sequence vocabulary used throughout the model: order-preserving
 filtering (LINQ `Where`), the minimum of a list of integers, the subsequence
 relation and duplicate-freedom.
 */
module Seqs {

  /** `sub` is obtained from `s` by deleting some of its elements, keeping the rest in order. */
  ghost predicate IsSubsequence<T>(sub: seq<T>, s: seq<T>)
    decreases |s|
  {
    if |s| == 0 then |sub| == 0
    else
      IsSubsequence(sub, s[..|s|-1])
      || (|sub| > 0 && sub[|sub|-1] == s[|s|-1] && IsSubsequence(sub[..|sub|-1], s[..|s|-1]))
  }

  /** The empty sequence is a subsequence of every sequence. */
  lemma {:induction false} EmptyIsSubsequence<T>(s: seq<T>)
    ensures IsSubsequence([], s)
    decreases |s|
  {
    if |s| > 0 {
      EmptyIsSubsequence(s[..|s| - 1]);
    }
  }

  /** No element occurs twice. */
  ghost predicate NoDuplicates<T>(s: seq<T>) {
    forall i, j :: 0 <= i < j < |s| ==> s[i] != s[j]
  }

  /** The elements of `s` that satisfy `p`, in their original order, with their multiplicities. */
  function Filter<T(!new)>(s: seq<T>, p: T -> bool): (r: seq<T>)
    ensures IsSubsequence(r, s)
    ensures forall i :: 0 <= i < |r| ==> p(r[i])
    ensures forall x :: x in r <==> x in s && p(x)
    ensures forall x :: multiset(r)[x] == if p(x) then multiset(s)[x] else 0
    ensures |r| <= |s|
    decreases |s|
  {
    if |s| == 0 then []
    else
      var init := s[..|s|-1];
      var last := s[|s|-1];
      assert s == init + [last];
      var rest := Filter(init, p);
      if p(last) then
        var r := rest + [last];
        assert r[..|r|-1] == rest;
        assert multiset(r) == multiset(rest) + multiset{last};
        r
      else
        rest
  }

  /** The smallest element of a non-empty sequence of integers. */
  function Min(s: seq<int>): (m: int)
    requires |s| > 0
    ensures forall i :: 0 <= i < |s| ==> m <= s[i]
    ensures exists i :: 0 <= i < |s| && s[i] == m
  {
    if |s| == 1 then s[0]
    else
      var m := Min(s[..|s| - 1]);
      assert forall i :: 0 <= i < |s| - 1 ==> s[..|s| - 1][i] == s[i];
      if s[|s| - 1] < m then s[|s| - 1] else m
  }

  /** Filtering by a predicate and by its negation splits a sequence without loss. */
  lemma {:induction false} FilterPartition<T(!new)>(s: seq<T>, p: T -> bool, q: T -> bool)
    requires forall x :: q(x) == !p(x)
    ensures |Filter(s, p)| + |Filter(s, q)| == |s|
    decreases |s|
  {
    if |s| > 0 {
      FilterPartition(s[..|s|-1], p, q);
    }
  }

  /** Filtering with a predicate that every element satisfies keeps the whole sequence. */
  lemma {:induction false} FilterAll<T(!new)>(s: seq<T>, p: T -> bool)
    requires forall i :: 0 <= i < |s| ==> p(s[i])
    ensures Filter(s, p) == s
    decreases |s|
  {
    if |s| > 0 {
      FilterAll(s[..|s|-1], p);
      assert s == s[..|s|-1] + [s[|s|-1]];
    }
  }

  /** Filtering a sequence extended by one element. */
  lemma FilterSnoc<T(!new)>(s: seq<T>, x: T, p: T -> bool)
    ensures Filter(s + [x], p) == Filter(s, p) + (if p(x) then [x] else [])
  {
    assert (s + [x])[..|s + [x]| - 1] == s;
  }
}
