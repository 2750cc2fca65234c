/** Generic sequence reducers shared by the stores and the use cases:
    order-preserving filtering, summation of a real-valued projection, and
    reversal (the stores' "newest first" orderings). */
module Seqs {

  import opened Outcomes

  /** The elements of `s` that satisfy `p`, in their original order. */
  function Filter<T>(s: seq<T>, p: T -> bool): (r: seq<T>)
    ensures |r| <= |s|
    ensures forall k :: 0 <= k < |r| ==> r[k] in s && p(r[k])
    ensures forall k :: 0 <= k < |s| && p(s[k]) ==> s[k] in r
  {
    if s == [] then [] else (if p(s[0]) then [s[0]] else []) + Filter(s[1..], p)
  }

  /** Filtering distributes over concatenation. */
  lemma {:induction false} FilterAppend<T>(a: seq<T>, b: seq<T>, p: T -> bool)
    ensures Filter(a + b, p) == Filter(a, p) + Filter(b, p)
  {
    if a == [] {
      assert a + b == b;
    } else {
      assert (a + b)[1..] == a[1..] + b;
      FilterAppend(a[1..], b, p);
    }
  }

  /** Filtering keeps every satisfying element exactly as often as it occurs. */
  lemma {:induction false} FilterMultiset<T>(s: seq<T>, p: T -> bool, x: T)
    ensures multiset(Filter(s, p))[x] == if p(x) then multiset(s)[x] else 0
  {
    if s != [] {
      FilterMultiset(s[1..], p, x);
      assert s == [s[0]] + s[1..];
    }
  }

  /** A filter that keeps nothing yields the empty sequence. */
  lemma {:induction false} FilterNone<T>(s: seq<T>, p: T -> bool)
    requires forall k :: 0 <= k < |s| ==> !p(s[k])
    ensures Filter(s, p) == []
  {
    if s != [] {
      FilterNone(s[1..], p);
    }
  }

  /** Filtering twice is filtering by the conjunction. */
  lemma {:induction false} FilterFilter<T>(s: seq<T>, p: T -> bool, q: T -> bool, pq: T -> bool)
    requires forall x :: pq(x) == (p(x) && q(x))
    ensures Filter(Filter(s, p), q) == Filter(s, pq)
  {
    if s != [] {
      FilterFilter(s[1..], p, q, pq);
      var head := if p(s[0]) then [s[0]] else [];
      FilterAppend(head, Filter(s[1..], p), q);
    }
  }

  /** The sum of `f` over `s`. The code's `reduce` folds from the left;
      over exact reals both folds give the same value. */
  function Sum<T>(s: seq<T>, f: T -> real): real
  {
    if s == [] then 0.0 else f(s[0]) + Sum(s[1..], f)
  }

  lemma {:induction false} SumAppend<T>(a: seq<T>, b: seq<T>, f: T -> real)
    ensures Sum(a + b, f) == Sum(a, f) + Sum(b, f)
  {
    if a == [] {
      assert a + b == b;
    } else {
      assert (a + b)[1..] == a[1..] + b;
      SumAppend(a[1..], b, f);
    }
  }

  /** Replacing one element changes the sum by the difference of the two values. */
  lemma {:induction false} SumUpdate<T>(s: seq<T>, i: nat, x: T, f: T -> real)
    requires i < |s|
    ensures Sum(s[i := x], f) == Sum(s, f) - f(s[i]) + f(x)
  {
    if i > 0 {
      assert s[i := x][1..] == s[1..][i - 1 := x];
      SumUpdate(s[1..], i - 1, x, f);
    }
  }

  /** A sum of non-positive terms, one of them negative, is negative. */
  lemma {:induction false} SumNegative<T>(s: seq<T>, f: T -> real, i: nat)
    requires i < |s|
    requires forall k :: 0 <= k < |s| ==> f(s[k]) <= 0.0
    requires f(s[i]) < 0.0
    ensures Sum(s, f) < 0.0
  {
    if i == 0 {
      SumNonPositive(s[1..], f);
    } else {
      SumNegative(s[1..], f, i - 1);
    }
  }

  lemma {:induction false} SumNonPositive<T>(s: seq<T>, f: T -> real)
    requires forall k :: 0 <= k < |s| ==> f(s[k]) <= 0.0
    ensures Sum(s, f) <= 0.0
  {
    if s != [] {
      SumNonPositive(s[1..], f);
    }
  }

  /** Appending one element adds its value to a filtered sum exactly when
      the filter keeps it. */
  lemma SumFilterSnoc<T>(s: seq<T>, x: T, p: T -> bool, f: T -> real)
    ensures Sum(Filter(s + [x], p), f) == Sum(Filter(s, p), f) + (if p(x) then f(x) else 0.0)
  {
    FilterAppend(s, [x], p);
    assert Filter([x], p) == (if p(x) then [x] else []) + Filter([x][1..], p);
    SumAppend(Filter(s, p), Filter([x], p), f);
  }

  /** Replacing one element of a filtered sum trades the old element's
      contribution for the new one's. */
  lemma {:induction false} SumFilterUpdate<T>(s: seq<T>, i: nat, x: T, p: T -> bool, f: T -> real)
    requires i < |s|
    ensures Sum(Filter(s[i := x], p), f)
         == Sum(Filter(s, p), f) - (if p(s[i]) then f(s[i]) else 0.0) + (if p(x) then f(x) else 0.0)
  {
    if i > 0 {
      assert s[i := x][1..] == s[1..][i - 1 := x];
      SumFilterUpdate(s[1..], i - 1, x, p, f);
      var head := if p(s[0]) then [s[0]] else [];
      assert s[i := x][0] == s[0];
      SumAppend(head, Filter(s[1..][i - 1 := x], p), f);
      SumAppend(head, Filter(s[1..], p), f);
    } else {
      assert s[i := x][1..] == s[1..];
      SumAppend(if p(x) then [x] else [], Filter(s[1..], p), f);
      SumAppend(if p(s[0]) then [s[0]] else [], Filter(s[1..], p), f);
    }
  }

  /** `s` read back to front. */
  function Reverse<T>(s: seq<T>): (r: seq<T>)
    ensures |r| == |s|
    ensures forall k :: 0 <= k < |s| ==> r[k] == s[|s| - 1 - k]
    ensures multiset(r) == multiset(s)
  {
    if s == [] then []
    else
      assert s == [s[0]] + s[1..];
      Reverse(s[1..]) + [s[0]]
  }

  /** Reversal keeps exactly the same elements. */
  lemma ReverseMembers<T>(s: seq<T>)
    ensures forall x :: x in Reverse(s) <==> x in s
  {
    forall x
      ensures x in Reverse(s) <==> x in s
    {
      assert x in Reverse(s) <==> x in multiset(Reverse(s));
      assert x in s <==> x in multiset(s);
    }
  }

  lemma {:induction false} SumReverse<T>(s: seq<T>, f: T -> real)
    ensures Sum(Reverse(s), f) == Sum(s, f)
  {
    if s != [] {
      SumReverse(s[1..], f);
      SumAppend(Reverse(s[1..]), [s[0]], f);
    }
  }

  lemma {:induction false} FilterReverse<T>(s: seq<T>, p: T -> bool)
    ensures Filter(Reverse(s), p) == Reverse(Filter(s, p))
  {
    if s != [] {
      var head := if p(s[0]) then [s[0]] else [];
      var rest := Filter(s[1..], p);
      calc {
        Filter(Reverse(s), p);
      ==  // Reverse(s) == Reverse(s[1..]) + [s[0]]
        Filter(Reverse(s[1..]) + [s[0]], p);
      ==  { FilterAppend(Reverse(s[1..]), [s[0]], p); assert Filter([s[0]], p) == head + Filter([s[0]][1..], p); }
        Filter(Reverse(s[1..]), p) + head;
      ==  { FilterReverse(s[1..], p); }
        Reverse(rest) + head;
      ==  { ReverseAppend(head, rest); assert Reverse(head) == head; }
        Reverse(head + rest);
      }
    }
  }

  lemma ReverseAppend<T>(a: seq<T>, b: seq<T>)
    ensures Reverse(a + b) == Reverse(b) + Reverse(a)
  {
    var l, r := Reverse(a + b), Reverse(b) + Reverse(a);
    assert |l| == |r|;
    forall k | 0 <= k < |l|
      ensures l[k] == r[k]
    {
      if k < |b| {
        assert l[k] == (a + b)[|a| + |b| - 1 - k];
      } else {
        assert l[k] == (a + b)[|a| + |b| - 1 - k];
      }
    }
  }

  /** Sums of pointwise-equal projections agree. */
  lemma {:induction false} SumPointwise<A, B>(a: seq<A>, f: A -> real, b: seq<B>, g: B -> real)
    requires |a| == |b|
    requires forall k :: 0 <= k < |a| ==> f(a[k]) == g(b[k])
    ensures Sum(a, f) == Sum(b, g)
  {
    if a != [] {
      SumPointwise(a[1..], f, b[1..], g);
    }
  }

  /** The index of the first element satisfying `p`, if any. */
  function FirstIndex<T>(s: seq<T>, p: T -> bool): (r: Option<nat>)
    ensures r.Some? ==> r.value < |s| && p(s[r.value])
    ensures r.Some? ==> forall k :: 0 <= k < r.value ==> !p(s[k])
    ensures r.None? <==> forall k :: 0 <= k < |s| ==> !p(s[k])
  {
    if s == [] then None
    else if p(s[0]) then Some(0)
    else match FirstIndex(s[1..], p)
      case None => None
      case Some(k) => Some(k + 1)
  }

  /** Predicates that agree on every element find the same first index. */
  lemma {:induction false} FirstIndexAgree<T>(s: seq<T>, p: T -> bool, q: T -> bool)
    requires forall k :: 0 <= k < |s| ==> p(s[k]) == q(s[k])
    ensures FirstIndex(s, p) == FirstIndex(s, q)
  {
    if s != [] {
      FirstIndexAgree(s[1..], p, q);
    }
  }
}
