/** Sequence vocabulary shared by the table operations: order-preserving
    filtering (a list comprehension with a condition, or a boolean row mask),
    first-appearance de-duplication (`drop_duplicates`, `if x not in list: append`)
    and the predicates that describe them. */
module Seqs {

  /** No element occurs twice. */
  predicate NoDup<T(==)>(s: seq<T>) {
    forall i, j :: 0 <= i < j < |s| ==> s[i] != s[j]
  }

  /** `a` is obtained from `b` by deleting elements, keeping the order of the rest. */
  predicate IsSubsequence<T(==)>(a: seq<T>, b: seq<T>)
    decreases |b|
  {
    if |a| == 0 then true
    else if |b| == 0 then false
    else if a[0] == b[0] then IsSubsequence(a[1..], b[1..])
    else IsSubsequence(a, b[1..])
  }

  /** Every element of `a` occurs in `s` before position `k`; used to say that
      one element first appears before another. */
  predicate AllBefore<T(==)>(a: T, s: seq<T>, k: nat)
    requires k <= |s|
  {
    a in s[..k]
  }

  /** The elements of `s` that satisfy `p`, in their original order. */
  function Filter<T(==,!new)>(p: T -> bool, s: seq<T>): (r: seq<T>)
    ensures |r| <= |s|
    ensures forall x :: x in r <==> x in s && p(x)
  {
    if |s| == 0 then []
    else
      var rest := Filter(p, s[1..]);
      assert s == [s[0]] + s[1..];
      (if p(s[0]) then [s[0]] else []) + rest
  }

  /** Filtering keeps every occurrence of a kept element and none of the others. */
  lemma {:induction false} FilterCount<T(!new)>(p: T -> bool, s: seq<T>)
    ensures forall x :: multiset(Filter(p, s))[x] == if p(x) then multiset(s)[x] else 0
    decreases |s|
  {
    if |s| > 0 {
      FilterCount(p, s[1..]);
      assert s == [s[0]] + s[1..];
      assert multiset(s) == multiset([s[0]]) + multiset(s[1..]);
    }
  }

  /** Filtering keeps the relative order of the kept elements. */
  lemma {:induction false} FilterIsSubsequence<T(!new)>(p: T -> bool, s: seq<T>)
    ensures IsSubsequence(Filter(p, s), s)
  {
    if |s| > 0 {
      FilterIsSubsequence(p, s[1..]);
      var r := Filter(p, s);
      var rest := Filter(p, s[1..]);
      if p(s[0]) {
        assert r == [s[0]] + rest;
        assert r[1..] == rest;
      } else {
        assert r == rest;
        SubsequenceDropHead(r, s);
      }
    }
  }

  /** Dropping the head of `b` cannot break `a`'s being a subsequence of its tail. */
  lemma {:induction false} SubsequenceDropHead<T(!new)>(a: seq<T>, b: seq<T>)
    requires |b| > 0
    requires IsSubsequence(a, b[1..])
    ensures IsSubsequence(a, b)
    decreases |b|, 0
  {
    if |a| > 0 && a[0] == b[0] {
      SubsequenceTail(a, b[1..]);
    }
  }

  /** Removing the head of a subsequence keeps it a subsequence. */
  lemma {:induction false} SubsequenceTail<T(!new)>(a: seq<T>, c: seq<T>)
    requires |a| > 0
    requires IsSubsequence(a, c)
    ensures IsSubsequence(a[1..], c)
    decreases |c|, 1
  {
    if a[0] == c[0] {
      if |a[1..]| > 0 {
        SubsequenceDropHead(a[1..], c);
      }
    } else {
      SubsequenceTail(a, c[1..]);
      if |a[1..]| > 0 {
        SubsequenceDropHead(a[1..], c);
      }
    }
  }

  /** Filtering twice by the same condition is filtering once. */
  lemma {:induction false} FilterIdempotent<T(!new)>(p: T -> bool, s: seq<T>)
    ensures Filter(p, Filter(p, s)) == Filter(p, s)
  {
    if |s| > 0 {
      FilterIdempotent(p, s[1..]);
      var rest := Filter(p, s[1..]);
      if p(s[0]) {
        var r := [s[0]] + rest;
        assert Filter(p, s) == r;
        assert r[0] == s[0] && r[1..] == rest;
        assert Filter(p, r) == [s[0]] + Filter(p, rest);
      } else {
        assert Filter(p, s) == rest;
      }
    }
  }

  /** Filtering a sequence whose every element passes leaves it unchanged. */
  lemma {:induction false} FilterAll<T(!new)>(p: T -> bool, s: seq<T>)
    requires forall i :: 0 <= i < |s| ==> p(s[i])
    ensures Filter(p, s) == s
  {
    if |s| > 0 {
      FilterAll(p, s[1..]);
      assert s == [s[0]] + s[1..];
    }
  }

  /** Filtering a sequence at a kept element: the kept elements before it,
      then it, then the kept elements after it. */
  lemma FilterSplit<T(!new)>(p: T -> bool, s: seq<T>, k: nat)
    requires k < |s| && p(s[k])
    ensures Filter(p, s) == Filter(p, s[..k]) + Filter(p, s[k..])
    ensures Filter(p, s[k..]) == [s[k]] + Filter(p, s[k + 1..])
  {
    assert s == s[..k] + s[k..];
    FilterConcat(p, s[..k], s[k..]);
    assert s[k..][1..] == s[k + 1..];
  }

  /** Filtering distributes over concatenation. */
  lemma {:induction false} FilterConcat<T(!new)>(p: T -> bool, a: seq<T>, b: seq<T>)
    ensures Filter(p, a + b) == Filter(p, a) + Filter(p, b)
  {
    if |a| > 0 {
      ConcatTail(a, b);
      FilterConcat(p, a[1..], b);
    } else {
      assert a + b == b;
    }
  }

  /** The tail of a concatenation with a non-empty front. */
  lemma ConcatTail<T>(a: seq<T>, b: seq<T>)
    requires |a| > 0
    ensures (a + b)[0] == a[0] && (a + b)[1..] == a[1..] + b
  {
  }

  /** The distinct elements of `s`, each at the place it first appears. */
  function Distinct<T(==,!new)>(s: seq<T>): (r: seq<T>)
    ensures NoDup(r)
    ensures forall x :: x in r <==> x in s
    decreases |s|
  {
    if |s| == 0 then []
    else
      var d := Distinct(s[..|s| - 1]);
      assert forall x :: x in s <==> x in s[..|s| - 1] || x == s[|s| - 1];
      if s[|s| - 1] in d then d else d + [s[|s| - 1]]
  }

  /** `Distinct` lists elements in the order of their first appearance: an
      element listed earlier occurs in `s` before any occurrence of one listed later. */
  lemma {:induction false} DistinctFirstAppearance<T(!new)>(s: seq<T>)
    ensures forall i, j, k :: 0 <= i < j < |Distinct(s)| && 0 <= k < |s| && s[k] == Distinct(s)[j]
              ==> AllBefore(Distinct(s)[i], s, k)
    decreases |s|
  {
    if |s| > 0 {
      var front := s[..|s| - 1];
      DistinctFirstAppearance(front);
      var d := Distinct(front);
      var r := Distinct(s);
      forall i, j, k | 0 <= i < j < |r| && 0 <= k < |s| && s[k] == r[j]
        ensures AllBefore(r[i], s, k)
      {
        assert r[i] in d;
        if k < |s| - 1 {
          assert s[k] == front[k];
          assert r[j] in d;
          // an element appended at the end of `r` is not in `d`
          assert j < |d|;
          assert r[j] == d[j] && r[i] == d[i];
          assert AllBefore(d[i], front, k);
          assert s[..k] == front[..k];
        } else {
          assert r[i] in front;
          assert s[..k] == front;
        }
      }
    }
  }

  /** A sequence without duplicates is its own set of distinct elements. */
  lemma {:induction false} DistinctOfNoDup<T(!new)>(s: seq<T>)
    requires NoDup(s)
    ensures Distinct(s) == s
    decreases |s|
  {
    if |s| > 0 {
      var front := s[..|s| - 1];
      DistinctOfNoDup(front);
      assert s[|s| - 1] !in front;
      assert s == front + [s[|s| - 1]];
    }
  }
}
