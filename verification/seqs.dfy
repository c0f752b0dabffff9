/** Order-preserving selection over sequences: the shape shared by every
    candidate filter of the scheduler. */
module Seqs {

  /** `a` is obtained from `b` by deleting zero or more elements. */
  predicate IsSubsequence<T(==)>(a: seq<T>, b: seq<T>)
    decreases |b|
  {
    if |a| == 0 then true
    else if |b| == 0 then false
    else (a[0] == b[0] && IsSubsequence(a[1..], b[1..])) || IsSubsequence(a, b[1..])
  }

  /** The elements of `s` that satisfy `p`, in their original order.
      The two contracts together pin the result down: it is a subsequence of
      `s` that holds every copy of an accepted value and nothing else. */
  function Filter<T(==,!new)>(s: seq<T>, p: T -> bool): (r: seq<T>)
    ensures IsSubsequence(r, s)
    ensures forall x :: multiset(r)[x] == if p(x) then multiset(s)[x] else 0
    ensures |r| <= |s|
  {
    if |s| == 0 then []
    else
      var rest := Filter(s[1..], p);
      assert s == [s[0]] + s[1..];
      assert multiset(s) == multiset{s[0]} + multiset(s[1..]);
      if p(s[0]) then
        assert ([s[0]] + rest)[1..] == rest;
        [s[0]] + rest
      else rest
  }

  /** One step of `Filter`, for computing it on concrete sequences. */
  lemma FilterCons<T(!new)>(x: T, s: seq<T>, p: T -> bool)
    ensures Filter([x] + s, p) == (if p(x) then [x] else []) + Filter(s, p)
  {
    assert ([x] + s)[1..] == s;
  }

  lemma {:induction false} FilterMembership<T(!new)>(s: seq<T>, p: T -> bool, x: T)
    ensures x in Filter(s, p) <==> x in s && p(x)
  {
    assert x in Filter(s, p) <==> multiset(Filter(s, p))[x] > 0;
    assert x in s <==> multiset(s)[x] > 0;
  }

  /** A filter that accepts every element is the identity. */
  lemma {:induction false} FilterAllAccepted<T(!new)>(s: seq<T>, p: T -> bool)
    ensures (forall i :: 0 <= i < |s| ==> p(s[i])) ==> Filter(s, p) == s
  {
    if |s| > 0 && forall i :: 0 <= i < |s| ==> p(s[i]) {
      assert forall i :: 0 <= i < |s[1..]| ==> p(s[1..][i]) by {
        forall i | 0 <= i < |s[1..]| ensures p(s[1..][i]) {
          assert s[1..][i] == s[i + 1];
        }
      }
      FilterAllAccepted(s[1..], p);
      assert s == [s[0]] + s[1..];
    }
  }

  /** A filter that accepts nothing empties the sequence. */
  lemma {:induction false} FilterNoneAccepted<T(!new)>(s: seq<T>, p: T -> bool)
    requires forall i :: 0 <= i < |s| ==> !p(s[i])
    ensures Filter(s, p) == []
  {
    if |s| > 0 {
      FilterNoneAccepted(s[1..], p);
    }
  }

  lemma {:induction false} FilterConcat<T(!new)>(a: seq<T>, b: seq<T>, p: T -> bool)
    ensures Filter(a + b, p) == Filter(a, p) + Filter(b, p)
  {
    if |a| == 0 {
      assert a + b == b;
    } else {
      assert (a + b)[1..] == a[1..] + b;
      FilterConcat(a[1..], b, p);
    }
  }

  /** Two filters in a row are one filter with the conjunction. */
  lemma {:induction false} FilterFilter<T(!new)>(s: seq<T>, p: T -> bool, q: T -> bool)
    ensures Filter(Filter(s, p), q) == Filter(s, x => p(x) && q(x))
  {
    if |s| > 0 {
      FilterFilter(s[1..], p, q);
      if p(s[0]) {
        assert ([s[0]] + Filter(s[1..], p))[1..] == Filter(s[1..], p);
      }
    }
  }

  /** Number of elements of `s` satisfying `p`. */
  function CountWhere<T>(s: seq<T>, p: T -> bool): (n: nat)
    ensures n <= |s|
  {
    if |s| == 0 then 0 else (if p(s[0]) then 1 else 0) + CountWhere(s[1..], p)
  }

  lemma {:induction false} FilterLength<T(!new)>(s: seq<T>, p: T -> bool)
    ensures |Filter(s, p)| == CountWhere(s, p)
  {
    if |s| > 0 {
      FilterLength(s[1..], p);
    }
  }

  /** `s` without the first occurrence of `x`, when there is one. */
  function RemoveFirst<T(==)>(s: seq<T>, x: T): (r: seq<T>)
    requires x in s
    ensures |r| == |s| - 1
    ensures multiset(r) == multiset(s) - multiset{x}
    ensures IsSubsequence(r, s)
  {
    assert s == [s[0]] + s[1..];
    if s[0] == x then
      assert IsSubsequence(s[1..], s[1..]) by { SubsequenceRefl(s[1..]); }
      s[1..]
    else
      var rest := RemoveFirst(s[1..], x);
      assert ([s[0]] + rest)[1..] == rest;
      [s[0]] + rest
  }

  /** Removing a rejected element first does not change what a filter keeps. */
  lemma {:induction false} FilterRemoveFirst<T(!new)>(s: seq<T>, x: T, p: T -> bool)
    requires x in s && !p(x)
    ensures Filter(RemoveFirst(s, x), p) == Filter(s, p)
  {
    if s[0] != x {
      FilterRemoveFirst(s[1..], x, p);
      FilterCons(s[0], RemoveFirst(s[1..], x), p);
    }
  }

  lemma {:induction false} SubsequenceTrans<T>(a: seq<T>, b: seq<T>, c: seq<T>)
    requires IsSubsequence(a, b) && IsSubsequence(b, c)
    ensures IsSubsequence(a, c)
    decreases |c|
  {
    if |a| > 0 {
      if b[0] == c[0] && IsSubsequence(b[1..], c[1..]) {
        if a[0] == b[0] && IsSubsequence(a[1..], b[1..]) {
          SubsequenceTrans(a[1..], b[1..], c[1..]);
        } else {
          SubsequenceTrans(a, b[1..], c[1..]);
        }
      } else {
        SubsequenceTrans(a, b, c[1..]);
      }
    }
  }

  lemma {:induction false} SubsequenceRefl<T>(s: seq<T>)
    ensures IsSubsequence(s, s)
  {
    if |s| > 0 {
      SubsequenceRefl(s[1..]);
    }
  }

  /** A sequence that agrees with `a` and then with `b`, index by index, is
      `a + b`. */
  lemma ConcatByIndex<T>(l: seq<T>, a: seq<T>, b: seq<T>)
    requires |l| == |a| + |b|
    requires forall i :: 0 <= i < |a| ==> l[i] == a[i]
    requires forall j :: 0 <= j < |b| ==> l[|a| + j] == b[j]
    ensures l == a + b
  {
    forall i | 0 <= i < |l|
      ensures l[i] == (a + b)[i]
    {
      if i >= |a| {
        assert l[|a| + (i - |a|)] == b[i - |a|];
      }
    }
  }

  /** `[a, b, c]` built up one element at a time. */
  lemma ConsThree<T>(a: T, b: T, c: T)
    ensures [c] + [] == [c] && [b] + [c] == [b, c] && [a] + [b, c] == [a, b, c]
  {
  }

  /** `[a, b, c, d]` built up one element at a time. */
  lemma ConsFour<T>(a: T, b: T, c: T, d: T)
    ensures [d] + [] == [d] && [c] + [d] == [c, d] && [b] + [c, d] == [b, c, d] && [a] + [b, c, d] == [a, b, c, d]
  {
  }
}
