/** The allocator's first step: a stable sort of the pool members by
    descending cbBefore (the comparator `b.cbBefore - a.cbBefore` under a
    stable array sort). Members with equal cbBefore keep their input order. */
module StableSort {

  import opened Domain
  import opened Seqs

  function CbBeforeOf(m: MemberInput): real { m.cbBefore }

  /** Non-increasing by cbBefore. */
  predicate SortedDescending(s: seq<MemberInput>)
  {
    forall i, j :: 0 <= i < j < |s| ==> s[j].cbBefore <= s[i].cbBefore
  }

  /** The members whose cbBefore equals `v`, in order: a stable sort must
      keep each of these subsequences as it was. */
  function WithCb(s: seq<MemberInput>, v: real): seq<MemberInput>
  {
    if s == [] then [] else (if s[0].cbBefore == v then [s[0]] else []) + WithCb(s[1..], v)
  }

  /** The key subsequence holds exactly the members with that key. */
  lemma {:induction false} WithCbMembers(s: seq<MemberInput>, v: real)
    ensures forall k :: 0 <= k < |WithCb(s, v)| ==> WithCb(s, v)[k] in s && WithCb(s, v)[k].cbBefore == v
    ensures forall k :: 0 <= k < |s| && s[k].cbBefore == v ==> s[k] in WithCb(s, v)
  {
    if s != [] {
      WithCbMembers(s[1..], v);
      var head := if s[0].cbBefore == v then [s[0]] else [];
      var r := WithCb(s, v);
      assert r == head + WithCb(s[1..], v);
      forall k | 0 <= k < |s| && s[k].cbBefore == v
        ensures s[k] in r
      {
        if k > 0 {
          assert s[k] == s[1..][k - 1];
        }
      }
    }
  }

  /** Inserts `x` into the sorted `t` ahead of every element whose cbBefore
      does not exceed its own, which places it before its equals. */
  function Insert(x: MemberInput, t: seq<MemberInput>): (r: seq<MemberInput>)
    ensures |r| == |t| + 1
    ensures multiset(r) == multiset{x} + multiset(t)
  {
    if t == [] then [x]
    else if t[0].cbBefore <= x.cbBefore then [x] + t
    else
      assert t == [t[0]] + t[1..];
      [t[0]] + Insert(x, t[1..])
  }

  /** The stable descending sort. */
  function SortDescending(s: seq<MemberInput>): (r: seq<MemberInput>)
    ensures |r| == |s|
    ensures multiset(r) == multiset(s)
    ensures SortedDescending(r)
  {
    if s == [] then []
    else
      assert s == [s[0]] + s[1..];
      var rest := SortDescending(s[1..]);
      InsertSorted(s[0], rest);
      Insert(s[0], rest)
  }

  lemma {:induction false} InsertSorted(x: MemberInput, t: seq<MemberInput>)
    requires SortedDescending(t)
    ensures SortedDescending(Insert(x, t))
  {
    if t != [] && x.cbBefore < t[0].cbBefore {
      var tail := t[1..];
      SortedTail(t);
      InsertSorted(x, tail);
      InsertBounded(x, tail, t[0].cbBefore);
      assert Insert(x, t) == [t[0]] + Insert(x, tail);
      SortedCons(t[0], Insert(x, tail));
    } else if t != [] {
      SortedCons(x, t);
    }
  }

  /** Inserting below a bound keeps every key below it. */
  lemma InsertBounded(x: MemberInput, t: seq<MemberInput>, bound: real)
    requires x.cbBefore <= bound
    requires forall k :: 0 <= k < |t| ==> t[k].cbBefore <= bound
    ensures forall k :: 0 <= k < |Insert(x, t)| ==> Insert(x, t)[k].cbBefore <= bound
  {
    var r := Insert(x, t);
    forall k | 0 <= k < |r|
      ensures r[k].cbBefore <= bound
    {
      assert r[k] in multiset(r);
      if r[k] != x {
        assert r[k] in multiset(t);
      }
    }
  }

  /** A head at least every key of a descending sequence extends it. */
  lemma SortedCons(h: MemberInput, r: seq<MemberInput>)
    requires SortedDescending(r)
    requires forall k :: 0 <= k < |r| ==> r[k].cbBefore <= h.cbBefore
    ensures SortedDescending([h] + r)
  {
    var s := [h] + r;
    forall i, j | 0 <= i < j < |s|
      ensures s[j].cbBefore <= s[i].cbBefore
    {
      assert s[j] == r[j - 1];
      if i > 0 {
        assert s[i] == r[i - 1];
      }
    }
  }

  lemma SortedTail(t: seq<MemberInput>)
    requires SortedDescending(t) && t != []
    ensures SortedDescending(t[1..])
  {
    var tail := t[1..];
    forall i, j | 0 <= i < j < |tail|
      ensures tail[j].cbBefore <= tail[i].cbBefore
    {
      assert tail[i] == t[i + 1] && tail[j] == t[j + 1];
    }
  }

  /** The key subsequence of a sequence with a known head. */
  lemma WithCbCons(x: MemberInput, t: seq<MemberInput>, v: real)
    ensures WithCb([x] + t, v) == (if x.cbBefore == v then [x] else []) + WithCb(t, v)
  {
    assert ([x] + t)[0] == x;
    assert ([x] + t)[1..] == t;
  }

  /** Inserting `x` adds it at the head of its own key's subsequence and
      leaves every other key's subsequence alone. */
  lemma {:induction false} InsertWithCb(x: MemberInput, t: seq<MemberInput>, v: real)
    ensures WithCb(Insert(x, t), v) == (if x.cbBefore == v then [x] else []) + WithCb(t, v)
  {
    if t == [] {
      WithCbCons(x, [], v);
    } else if t[0].cbBefore <= x.cbBefore {
      WithCbCons(x, t, v);
    } else {
      var tail := t[1..];
      InsertWithCb(x, tail, v);
      assert Insert(x, t) == [t[0]] + Insert(x, tail);
      assert t == [t[0]] + tail;
      InsertWithCbStep(x, t[0], tail, Insert(x, tail), v);
    }
  }

  /** The step of the lemma above: `x` passes a larger head `t0`. */
  lemma InsertWithCbStep(x: MemberInput, t0: MemberInput, tail: seq<MemberInput>, r: seq<MemberInput>, v: real)
    requires x.cbBefore < t0.cbBefore
    requires WithCb(r, v) == (if x.cbBefore == v then [x] else []) + WithCb(tail, v)
    ensures WithCb([t0] + r, v) == (if x.cbBefore == v then [x] else []) + WithCb([t0] + tail, v)
  {
    WithCbCons(t0, r, v);
    WithCbCons(t0, tail, v);
  }

  /** Stability: sorting keeps the order of members with equal cbBefore. */
  lemma {:induction false} SortIsStable(s: seq<MemberInput>, v: real)
    ensures WithCb(SortDescending(s), v) == WithCb(s, v)
  {
    if s != [] {
      SortIsStable(s[1..], v);
      InsertWithCb(s[0], SortDescending(s[1..]), v);
    }
  }

  /** Sorting does not change the total cbBefore. */
  lemma {:induction false} SortKeepsTotal(s: seq<MemberInput>)
    ensures Sum(SortDescending(s), CbBeforeOf) == Sum(s, CbBeforeOf)
  {
    if s != [] {
      SortKeepsTotal(s[1..]);
      InsertKeepsTotal(s[0], SortDescending(s[1..]));
    }
  }

  lemma {:induction false} InsertKeepsTotal(x: MemberInput, t: seq<MemberInput>)
    ensures Sum(Insert(x, t), CbBeforeOf) == x.cbBefore + Sum(t, CbBeforeOf)
  {
    if t != [] && x.cbBefore < t[0].cbBefore {
      InsertKeepsTotal(x, t[1..]);
      assert ([t[0]] + Insert(x, t[1..]))[1..] == Insert(x, t[1..]);
    } else if t != [] {
      assert ([x] + t)[1..] == t;
    }
  }

  /** Uniqueness: a sequence that is sorted and keeps every key's
      subsequence of `s` is the sort of `s`. So the sort is fully pinned
      down by "descending" plus "stable". */
  lemma {:induction false} StableSortUnique(s: seq<MemberInput>, r: seq<MemberInput>)
    requires SortedDescending(r)
    requires forall v :: WithCb(r, v) == WithCb(s, v)
    ensures r == SortDescending(s)
  {
    var q := SortDescending(s);
    forall v
      ensures WithCb(r, v) == WithCb(q, v)
    {
      SortIsStable(s, v);
    }
    SortedUnique(r, q);
  }

  /** Two descending sequences with the same per-key subsequences are equal. */
  lemma {:induction false} SortedUnique(a: seq<MemberInput>, b: seq<MemberInput>)
    requires SortedDescending(a) && SortedDescending(b)
    requires forall v :: WithCb(a, v) == WithCb(b, v)
    ensures a == b
  {
    if a != [] && b == [] {
      HeadOfKey(a);
      assert false;
    } else if a == [] && b != [] {
      HeadOfKey(b);
      assert false;
    } else if a != [] {
      SameHead(a, b);
      assert a == [a[0]] + a[1..] && b == [b[0]] + b[1..];
      forall v
        ensures WithCb(a[1..], v) == WithCb(b[1..], v)
      {
        assert WithCb(a, v) == WithCb(b, v);
        WithCbCons(a[0], a[1..], v);
        WithCbCons(b[0], b[1..], v);
        var h := if a[0].cbBefore == v then [a[0]] else [];
        assert h + WithCb(a[1..], v) == h + WithCb(b[1..], v);
        assert WithCb(a[1..], v) == (h + WithCb(a[1..], v))[|h|..];
        assert WithCb(b[1..], v) == (h + WithCb(b[1..], v))[|h|..];
      }
      SortedTail(a);
      SortedTail(b);
      SortedUnique(a[1..], b[1..]);
    }
  }

  /** Two non-empty descending sequences with the same per-key subsequences
      start with the same element. */
  lemma SameHead(a: seq<MemberInput>, b: seq<MemberInput>)
    requires SortedDescending(a) && SortedDescending(b) && a != [] && b != []
    requires forall v :: WithCb(a, v) == WithCb(b, v)
    ensures a[0] == b[0]
  {
    var va, vb := a[0].cbBefore, b[0].cbBefore;
    HeadOfKey(a);
    HeadOfKey(b);
    WithCbMembers(a, vb);
    WithCbMembers(b, va);
    assert WithCb(b, va) != [];
    assert WithCb(a, vb) != [];
    assert va == vb;
    assert WithCb(a, va)[0] == a[0];
  }

  /** The head of a non-empty descending sequence leads its key's subsequence
      and bounds every key present. */
  lemma HeadOfKey(a: seq<MemberInput>)
    requires SortedDescending(a) && a != []
    ensures WithCb(a, a[0].cbBefore) != [] && WithCb(a, a[0].cbBefore)[0] == a[0]
    ensures forall v :: WithCb(a, v) != [] ==> v <= a[0].cbBefore
  {
    assert a == [a[0]] + a[1..];
    WithCbCons(a[0], a[1..], a[0].cbBefore);
    forall v | WithCb(a, v) != []
      ensures v <= a[0].cbBefore
    {
      WithCbMembers(a, v);
      var m := WithCb(a, v)[0];
      assert m in a;
    }
  }
}
