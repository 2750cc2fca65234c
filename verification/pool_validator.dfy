/** The pooling service (the code attributes its rules to Article 21 of
    Regulation (EU) 2023/1805): pre-validation of a pool request, the greedy
    surplus-to-deficit allocator, and post-validation of its output. */
module PoolValidator {

  import opened Domain
  import opened Seqs
  import opened StableSort

  function CbAfterOf(a: Allocation): real { a.cbAfter }
  function AllocCbBeforeOf(a: Allocation): real { a.cbBefore }

  /** The total cbBefore the members bring into the pool. */
  function TotalCb(members: seq<MemberInput>): real
  {
    Sum(members, CbBeforeOf)
  }

  // ---------------------------------------------------------------------
  // Phase 1: pre-validation (errors accumulate, nothing short-circuits)
  // ---------------------------------------------------------------------

  function Validate(request: CreatePoolRequest): (v: ValidationResult)
    ensures v.isValid <==> v.errors == []
    ensures v.isValid <==> |request.members| >= 2 && TotalCb(request.members) >= 0.0
    ensures TooFewMembers in v.errors <==> |request.members| < 2
    ensures NegativeTotal(TotalCb(request.members)) in v.errors <==> TotalCb(request.members) < 0.0
    ensures forall e :: e in v.errors ==> e == TooFewMembers || e == NegativeTotal(TotalCb(request.members))
    ensures |request.members| < 2 ==> v.errors[0] == TooFewMembers
  {
    var total := TotalCb(request.members);
    var sizeErrors := if |request.members| < 2 then [TooFewMembers] else [];
    var totalErrors := if total < 0.0 then [NegativeTotal(total)] else [];
    var errors := sizeErrors + totalErrors;
    ValidationResult(|errors| == 0, errors)
  }

  // ---------------------------------------------------------------------
  // Phase 2: greedy allocation
  // ---------------------------------------------------------------------

  /** Every member starts with cbAfter = cbBefore, in sorted order. */
  function Seed(sorted: seq<MemberInput>): (r: seq<Allocation>)
    ensures |r| == |sorted|
    ensures forall i :: 0 <= i < |r| ==>
      r[i] == Allocation(sorted[i].shipId, sorted[i].cbBefore, sorted[i].cbBefore)
  {
    if sorted == [] then []
    else [Allocation(sorted[0].shipId, sorted[0].cbBefore, sorted[0].cbBefore)] + Seed(sorted[1..])
  }

  /** Surplus members (`positive`) or deficit members (`!positive`). */
  predicate InGroup(a: Allocation, positive: bool)
  {
    if positive then a.cbBefore > 0.0 else a.cbBefore < 0.0
  }

  /** Positions, from `from` on, of the members of one group, ascending:
      the code's `result.filter(...)`, which shares the member objects, so
      writes through either list land in `result`. */
  function GroupIndices(res: seq<Allocation>, positive: bool, from: nat): (ix: seq<nat>)
    requires from <= |res|
    decreases |res| - from
    ensures forall k :: 0 <= k < |ix| ==> from <= ix[k] < |res| && InGroup(res[ix[k]], positive)
    ensures forall i :: from <= i < |res| && InGroup(res[i], positive) ==> i in ix
    ensures forall a, b :: 0 <= a < b < |ix| ==> ix[a] < ix[b]
  {
    if from == |res| then []
    else (if InGroup(res[from], positive) then [from] else []) + GroupIndices(res, positive, from + 1)
  }

  /** Every index of `ix` names a member of the group in `res`. */
  predicate IndicesOf(res: seq<Allocation>, ix: seq<nat>, positive: bool)
  {
    forall k :: 0 <= k < |ix| ==> ix[k] < |res| && InGroup(res[ix[k]], positive)
  }

  /** The fairness envelope every member stays in during allocation. */
  predicate WithinBounds(a: Allocation)
  {
    && (a.cbBefore > 0.0 ==> 0.0 <= a.cbAfter <= a.cbBefore)
    && (a.cbBefore < 0.0 ==> a.cbBefore <= a.cbAfter <= 0.0)
    && (a.cbBefore == 0.0 ==> a.cbAfter == 0.0)
  }

  predicate AllWithinBounds(res: seq<Allocation>)
  {
    forall i :: 0 <= i < |res| ==> WithinBounds(res[i])
  }

  /** Same ships and same cbBefore at every position. */
  predicate SameMembers(res: seq<Allocation>, res': seq<Allocation>)
  {
    && |res'| == |res|
    && forall i :: 0 <= i < |res| ==>
         res'[i].shipId == res[i].shipId && res'[i].cbBefore == res[i].cbBefore
  }

  /** No surplus member gained. */
  predicate SurplusNotRaised(res: seq<Allocation>, res': seq<Allocation>)
    requires |res'| == |res|
  {
    forall i :: 0 <= i < |res| && res[i].cbBefore > 0.0 ==> res'[i].cbAfter <= res[i].cbAfter
  }

  /** All the listed surplus members are drained to zero. */
  predicate Exhausted(res: seq<Allocation>, ss: seq<nat>)
  {
    forall k :: 0 <= k < |ss| ==> ss[k] < |res| && res[ss[k]].cbAfter == 0.0
  }

  function Abs(x: real): real { if x < 0.0 then -x else x }

  function Min(x: real, y: real): real { if x <= y then x else y }

  /** The inner loop: the deficit member at `d` draws on the surplus members
      listed in `ss`, in order, until `remaining` is covered. Returns the new
      members and the deficit still uncovered. */
  function FillDeficit(res: seq<Allocation>, d: nat, remaining: real, ss: seq<nat>): (out: (seq<Allocation>, real))
    requires d < |res| && res[d].cbBefore < 0.0
    requires IndicesOf(res, ss, true)
    requires AllWithinBounds(res)
    requires remaining == -res[d].cbAfter
    ensures SameMembers(res, out.0) && AllWithinBounds(out.0)
    ensures Sum(out.0, CbAfterOf) == Sum(res, CbAfterOf)
    ensures out.1 == -out.0[d].cbAfter && out.1 <= remaining
    ensures SurplusNotRaised(res, out.0)
    ensures forall i :: 0 <= i < |res| && i != d && i !in ss ==> out.0[i] == res[i]
    ensures out.1 == 0.0 || Exhausted(out.0, ss)
    decreases |ss|
  {
    if ss == [] || remaining <= 0.0 then (res, remaining)
    else
      var s := ss[0];
      if res[s].cbAfter <= 0.0 then
        var out := FillDeficit(res, d, remaining, ss[1..]);
        SkipStep(res, d, remaining, ss, out);
        out
      else
        var transfer := Min(res[s].cbAfter, remaining);
        var res2 := Transfer(res, s, d, transfer);
        TransferStep(res, s, d, transfer);
        var out := FillDeficit(res2, d, remaining - transfer, ss[1..]);
        TransferThenFill(res, d, remaining, ss, transfer, res2, out);
        out
  }

  /** The member at `i` with `delta` added to its cbAfter. */
  function Adjust(res: seq<Allocation>, i: nat, delta: real): seq<Allocation>
    requires i < |res|
  {
    res[i := res[i].(cbAfter := res[i].cbAfter + delta)]
  }

  lemma AdjustSum(res: seq<Allocation>, i: nat, delta: real)
    requires i < |res|
    ensures Sum(Adjust(res, i, delta), CbAfterOf) == Sum(res, CbAfterOf) + delta
  {
    SumUpdate(res, i, Adjust(res, i, delta)[i], CbAfterOf);
  }

  /** One transfer: `amount` leaves the surplus member at `s` and reaches the
      deficit member at `d` (written in that order, as the code does). */
  function Transfer(res: seq<Allocation>, s: nat, d: nat, amount: real): (res2: seq<Allocation>)
    requires s < |res| && d < |res| && s != d
    ensures SameMembers(res, res2)
    ensures res2[s].cbAfter == res[s].cbAfter - amount
    ensures res2[d].cbAfter == res[d].cbAfter + amount
    ensures forall i :: 0 <= i < |res| && i != d && i != s ==> res2[i] == res[i]
  {
    Adjust(Adjust(res, s, -amount), d, amount)
  }

  /** Taking `amount` from one member and giving it to another leaves the
      total unchanged. */
  lemma AdjustPairConserves(res: seq<Allocation>, s: nat, d: nat, amount: real)
    requires s < |res| && d < |res|
    ensures Sum(Adjust(Adjust(res, s, -amount), d, amount), CbAfterOf) == Sum(res, CbAfterOf)
  {
    AdjustSum(res, s, -amount);
    AdjustSum(Adjust(res, s, -amount), d, amount);
  }

  /** A transfer moves balance without creating or destroying any. */
  lemma TransferConserves(res: seq<Allocation>, s: nat, d: nat, amount: real)
    requires s < |res| && d < |res| && s != d
    ensures Sum(Transfer(res, s, d, amount), CbAfterOf) == Sum(res, CbAfterOf)
  {
    AdjustPairConserves(res, s, d, amount);
  }

  lemma TransferStep(res: seq<Allocation>, s: nat, d: nat, amount: real)
    requires s < |res| && d < |res| && res[s].cbBefore > 0.0 && res[d].cbBefore < 0.0
    requires AllWithinBounds(res)
    requires 0.0 < amount <= res[s].cbAfter && amount <= -res[d].cbAfter
    ensures var res2 := Transfer(res, s, d, amount);
      && AllWithinBounds(res2)
      && Sum(res2, CbAfterOf) == Sum(res, CbAfterOf)
      && SurplusNotRaised(res, res2)
  {
    TransferConserves(res, s, d, amount);
    var res2 := Transfer(res, s, d, amount);
    forall i | 0 <= i < |res2|
      ensures WithinBounds(res2[i])
    {
      assert WithinBounds(res[i]);
    }
  }

  /** Skipping a surplus member that is already drained keeps the loop's
      promises. */
  lemma SkipStep(res: seq<Allocation>, d: nat, remaining: real, ss: seq<nat>, out: (seq<Allocation>, real))
    requires d < |res| && res[d].cbBefore < 0.0
    requires ss != [] && IndicesOf(res, ss, true)
    requires AllWithinBounds(res) && res[ss[0]].cbAfter <= 0.0
    requires SameMembers(res, out.0) && AllWithinBounds(out.0) && SurplusNotRaised(res, out.0)
    requires forall i :: 0 <= i < |res| && i != d && i !in ss[1..] ==> out.0[i] == res[i]
    requires out.1 == 0.0 || Exhausted(out.0, ss[1..])
    ensures forall i :: 0 <= i < |res| && i != d && i !in ss ==> out.0[i] == res[i]
    ensures out.1 == 0.0 || Exhausted(out.0, ss)
  {
    var s := ss[0];
    assert WithinBounds(res[s]) && WithinBounds(out.0[s]);
    assert out.0[s].cbAfter == 0.0;
    forall i | 0 <= i < |res| && i != d && i !in ss
      ensures out.0[i] == res[i]
    {
      assert i !in ss[1..];
    }
    if out.1 != 0.0 {
      forall k | 0 <= k < |ss|
        ensures out.0[ss[k]].cbAfter == 0.0
      {
        if k > 0 {
          assert ss[k] == ss[1..][k - 1];
        }
      }
    }
  }

  /** A transfer followed by the rest of the loop keeps the loop's promises. */
  lemma TransferThenFill(res: seq<Allocation>, d: nat, remaining: real, ss: seq<nat>, transfer: real,
                         res2: seq<Allocation>, out: (seq<Allocation>, real))
    requires d < |res| && res[d].cbBefore < 0.0
    requires ss != [] && IndicesOf(res, ss, true)
    requires AllWithinBounds(res) && remaining == -res[d].cbAfter
    requires transfer == Min(res[ss[0]].cbAfter, remaining) && transfer > 0.0
    requires SameMembers(res, res2) && Sum(res2, CbAfterOf) == Sum(res, CbAfterOf) && SurplusNotRaised(res, res2)
    requires res2[ss[0]].cbAfter == res[ss[0]].cbAfter - transfer
    requires forall i :: 0 <= i < |res| && i != d && i != ss[0] ==> res2[i] == res[i]
    requires SameMembers(res2, out.0) && AllWithinBounds(out.0) && SurplusNotRaised(res2, out.0)
    requires Sum(out.0, CbAfterOf) == Sum(res2, CbAfterOf)
    requires out.1 == -out.0[d].cbAfter && out.1 <= remaining - transfer
    requires forall i :: 0 <= i < |res2| && i != d && i !in ss[1..] ==> out.0[i] == res2[i]
    requires out.1 == 0.0 || Exhausted(out.0, ss[1..])
    ensures SameMembers(res, out.0) && SurplusNotRaised(res, out.0)
    ensures forall i :: 0 <= i < |res| && i != d && i !in ss ==> out.0[i] == res[i]
    ensures out.1 == 0.0 || Exhausted(out.0, ss)
  {
    var s := ss[0];
    assert WithinBounds(out.0[d]);
    forall i | 0 <= i < |res| && i != d && i !in ss
      ensures out.0[i] == res[i]
    {
      assert i !in ss[1..];
    }
    if out.1 != 0.0 {
      // the deficit was not covered, so this surplus member gave all it had
      assert transfer == res[s].cbAfter;
      assert WithinBounds(out.0[s]);
      forall k | 0 <= k < |ss|
        ensures out.0[ss[k]].cbAfter == 0.0
      {
        if k > 0 {
          assert ss[k] == ss[1..][k - 1];
        }
      }
    }
  }

  /** The outer loop: each deficit member listed in `ds`, in order, is
      filled from the shared, depleting surplus members `ss`. */
  function Distribute(res: seq<Allocation>, ds: seq<nat>, ss: seq<nat>): (r: seq<Allocation>)
    requires IndicesOf(res, ds, false) && IndicesOf(res, ss, true)
    requires AllWithinBounds(res)
    ensures SameMembers(res, r) && AllWithinBounds(r)
    ensures Sum(r, CbAfterOf) == Sum(res, CbAfterOf)
    ensures SurplusNotRaised(res, r)
    ensures forall i :: 0 <= i < |res| && i !in ds && i !in ss ==> r[i] == res[i]
    ensures forall k :: 0 <= k < |ds| ==> r[ds[k]].cbAfter == 0.0 || Exhausted(r, ss)
    decreases |ds|
  {
    if ds == [] then res
    else
      var d := ds[0];
      assert WithinBounds(res[d]);
      var filled := FillDeficit(res, d, Abs(res[d].cbAfter), ss);
      IndicesCarry(res, filled.0, ds[1..], false);
      IndicesCarry(res, filled.0, ss, true);
      var r := Distribute(filled.0, ds[1..], ss);
      DistributeStep(res, ds, ss, filled.0, r);
      r
  }

  /** Filling the head deficit and then, recursively, the rest keeps every
      promise of the whole pass. */
  lemma DistributeStep(res: seq<Allocation>, ds: seq<nat>, ss: seq<nat>, filled: seq<Allocation>, r: seq<Allocation>)
    requires ds != [] && IndicesOf(res, ds, false) && IndicesOf(res, ss, true)
    requires SameMembers(res, filled) && AllWithinBounds(filled)
    requires Sum(filled, CbAfterOf) == Sum(res, CbAfterOf) && SurplusNotRaised(res, filled)
    requires forall i :: 0 <= i < |res| && i != ds[0] && i !in ss ==> filled[i] == res[i]
    requires filled[ds[0]].cbAfter == 0.0 || Exhausted(filled, ss)
    requires SameMembers(filled, r) && AllWithinBounds(r)
    requires Sum(r, CbAfterOf) == Sum(filled, CbAfterOf) && SurplusNotRaised(filled, r)
    requires forall i :: 0 <= i < |filled| && i !in ds[1..] && i !in ss ==> r[i] == filled[i]
    requires forall k :: 0 <= k < |ds[1..]| ==> r[ds[1..][k]].cbAfter == 0.0 || Exhausted(r, ss)
    ensures SameMembers(res, r) && SurplusNotRaised(res, r)
    ensures Sum(r, CbAfterOf) == Sum(res, CbAfterOf)
    ensures forall i :: 0 <= i < |res| && i !in ds && i !in ss ==> r[i] == res[i]
    ensures forall k :: 0 <= k < |ds| ==> r[ds[k]].cbAfter == 0.0 || Exhausted(r, ss)
  {
    DistributeComposes(res, ds, ss, filled, r);
    DistributeSettlesHead(res, ds, ss, filled, r);
    forall k | 0 < k < |ds|
      ensures r[ds[k]].cbAfter == 0.0 || Exhausted(r, ss)
    {
      assert ds[k] == ds[1..][k - 1];
    }
  }

  /** Index lists stay valid across steps that keep the members. */
  lemma IndicesCarry(res: seq<Allocation>, res': seq<Allocation>, ix: seq<nat>, positive: bool)
    requires SameMembers(res, res')
    requires forall k :: 0 <= k < |ix| ==> ix[k] < |res| && InGroup(res[ix[k]], positive)
    ensures IndicesOf(res', ix, positive)
  {
  }

  /** Filling the head deficit and then the rest keeps the promises made
      about the whole pass. */
  lemma DistributeComposes(res: seq<Allocation>, ds: seq<nat>, ss: seq<nat>, filled: seq<Allocation>, r: seq<Allocation>)
    requires ds != []
    requires SameMembers(res, filled) && SurplusNotRaised(res, filled)
    requires forall i :: 0 <= i < |res| && i != ds[0] && i !in ss ==> filled[i] == res[i]
    requires SameMembers(filled, r) && SurplusNotRaised(filled, r)
    requires forall i :: 0 <= i < |filled| && i !in ds[1..] && i !in ss ==> r[i] == filled[i]
    ensures SameMembers(res, r) && SurplusNotRaised(res, r)
    ensures forall i :: 0 <= i < |res| && i !in ds && i !in ss ==> r[i] == res[i]
  {
    forall i | 0 <= i < |res| && i !in ds && i !in ss
      ensures r[i] == res[i]
    {
      assert i != ds[0] && i !in ds[1..];
    }
  }

  /** The deficit member just filled stays settled: either it reached zero,
      which no later step undoes, or the surplus ran dry, and it stays dry. */
  lemma DistributeSettlesHead(res: seq<Allocation>, ds: seq<nat>, ss: seq<nat>, filled: seq<Allocation>, r: seq<Allocation>)
    requires ds != [] && IndicesOf(res, ds, false) && IndicesOf(res, ss, true)
    requires SameMembers(res, filled) && AllWithinBounds(filled)
    requires filled[ds[0]].cbAfter == 0.0 || Exhausted(filled, ss)
    requires SameMembers(filled, r) && AllWithinBounds(r) && SurplusNotRaised(filled, r)
    requires forall i :: 0 <= i < |filled| && i !in ds[1..] && i !in ss ==> r[i] == filled[i]
    requires forall k :: 0 <= k < |ds[1..]| ==> r[ds[1..][k]].cbAfter == 0.0 || Exhausted(r, ss)
    ensures r[ds[0]].cbAfter == 0.0 || Exhausted(r, ss)
  {
    var d := ds[0];
    if Exhausted(filled, ss) {
      forall k | 0 <= k < |ss|
        ensures r[ss[k]].cbAfter == 0.0
      {
        assert filled[ss[k]].cbBefore > 0.0;
        assert WithinBounds(r[ss[k]]);
      }
    } else if d in ds[1..] {
      var k :| 0 <= k < |ds[1..]| && ds[1..][k] == d;
    }
  }

  /** The greedy allocation: stable sort by descending cbBefore, then move
      surplus into deficits member by member. */
  function Allocate(members: seq<MemberInput>): (r: seq<Allocation>)
    ensures |r| == |members|
    ensures forall i :: 0 <= i < |r| ==>
      r[i].shipId == SortDescending(members)[i].shipId && r[i].cbBefore == SortDescending(members)[i].cbBefore
    ensures Sum(r, CbAfterOf) == TotalCb(members)
    ensures AllWithinBounds(r)
  {
    var sorted := SortDescending(members);
    var seeded := Seed(sorted);
    SeedTotal(sorted);
    SortKeepsTotal(members);
    var r := Distribute(seeded, GroupIndices(seeded, false, 0), GroupIndices(seeded, true, 0));
    r
  }

  lemma {:induction false} SeedTotal(sorted: seq<MemberInput>)
    ensures Sum(Seed(sorted), CbAfterOf) == Sum(sorted, CbBeforeOf)
  {
    if sorted != [] {
      SeedTotal(sorted[1..]);
    }
  }

  // ---------------------------------------------------------------------
  // Phase 3: post-validation (errors accumulate, in member order)
  // ---------------------------------------------------------------------

  /** The errors one allocation contributes. */
  function ErrorsFor(a: Allocation): seq<PoolRuleError>
  {
    (if a.cbBefore < 0.0 && a.cbAfter < a.cbBefore then [DeficitExitsWorse(a.shipId, a.cbBefore, a.cbAfter)] else [])
    + (if a.cbBefore > 0.0 && a.cbAfter < 0.0 then [SurplusExitsNegative(a.shipId, a.cbBefore, a.cbAfter)] else [])
  }

  /** A member that breaks a fairness rule. */
  predicate Violates(a: Allocation)
  {
    (a.cbBefore < 0.0 && a.cbAfter < a.cbBefore) || (a.cbBefore > 0.0 && a.cbAfter < 0.0)
  }

  /** The error a violating member is reported with. */
  function ViolationOf(a: Allocation): PoolRuleError
  {
    if a.cbBefore < 0.0 then DeficitExitsWorse(a.shipId, a.cbBefore, a.cbAfter)
    else SurplusExitsNegative(a.shipId, a.cbBefore, a.cbAfter)
  }

  /** Each member's errors, in member order. */
  function AllocationErrors(allocations: seq<Allocation>): (errors: seq<PoolRuleError>)
    ensures |errors| <= |allocations|
    ensures errors == [] <==> forall i :: 0 <= i < |allocations| ==> !Violates(allocations[i])
  {
    if allocations == [] then []
    else
      assert ErrorsFor(allocations[0]) == (if Violates(allocations[0]) then [ViolationOf(allocations[0])] else []);
      ErrorsFor(allocations[0]) + AllocationErrors(allocations[1..])
  }

  /** Every violating member is reported, and every report names a
      violating member. */
  lemma {:induction false} AllocationErrorsReported(allocations: seq<Allocation>)
    ensures forall i :: 0 <= i < |allocations| && Violates(allocations[i]) ==>
      ViolationOf(allocations[i]) in AllocationErrors(allocations)
    ensures forall e :: e in AllocationErrors(allocations) ==>
      exists i :: 0 <= i < |allocations| && Violates(allocations[i]) && e == ViolationOf(allocations[i])
  {
    if allocations != [] {
      var head, tail := allocations[0], allocations[1..];
      AllocationErrorsReported(tail);
      var own := if Violates(head) then [ViolationOf(head)] else [];
      assert ErrorsFor(head) == own;
      assert AllocationErrors(allocations) == own + AllocationErrors(tail);
      forall i | 0 <= i < |allocations| && Violates(allocations[i])
        ensures ViolationOf(allocations[i]) in AllocationErrors(allocations)
      {
        if i > 0 {
          assert allocations[i] == tail[i - 1];
        }
      }
      forall e | e in AllocationErrors(allocations)
        ensures exists i :: 0 <= i < |allocations| && Violates(allocations[i]) && e == ViolationOf(allocations[i])
      {
        if e in AllocationErrors(tail) {
          var j :| 0 <= j < |tail| && Violates(tail[j]) && e == ViolationOf(tail[j]);
          assert allocations[j + 1] == tail[j];
        } else {
          assert Violates(allocations[0]) && e == ViolationOf(allocations[0]);
        }
      }
    }
  }

  /** The error of each member of `s`, in order. */
  function ViolationsOf(s: seq<Allocation>): (r: seq<PoolRuleError>)
    ensures |r| == |s|
    ensures forall k :: 0 <= k < |s| ==> r[k] == ViolationOf(s[k])
  {
    seq(|s|, k requires 0 <= k < |s| => ViolationOf(s[k]))
  }

  lemma ViolationsOfAppend(x: seq<Allocation>, y: seq<Allocation>)
    ensures ViolationsOf(x + y) == ViolationsOf(x) + ViolationsOf(y)
  {
  }

  /** Reference reading of post-validation: the violating members, in list
      order, one error each. */
  lemma {:induction false} AllocationErrorsInOrder(allocations: seq<Allocation>)
    ensures AllocationErrors(allocations) == ViolationsOf(Filter(allocations, Violates))
  {
    if allocations != [] {
      var tail := allocations[1..];
      AllocationErrorsInOrder(tail);
      var head := if Violates(allocations[0]) then [allocations[0]] else [];
      assert Filter(allocations, Violates) == head + Filter(tail, Violates);
      ViolationsOfAppend(head, Filter(tail, Violates));
      ErrorsForOne(allocations[0]);
    }
  }

  lemma ErrorsForOne(a: Allocation)
    ensures ErrorsFor(a) == ViolationsOf(if Violates(a) then [a] else [])
  {
  }

  function ValidateAllocations(allocations: seq<Allocation>): (v: ValidationResult)
    ensures v.isValid <==> v.errors == []
    ensures v.isValid <==> forall i :: 0 <= i < |allocations| ==> !Violates(allocations[i])
    ensures |v.errors| <= |allocations|
  {
    var errors := AllocationErrors(allocations);
    ValidationResult(|errors| == 0, errors)
  }

  /** Post-validation reports exactly the violating members: one error for
      each, and none for anybody else. */
  lemma ValidateAllocationsReportsViolations(allocations: seq<Allocation>)
    ensures var v := ValidateAllocations(allocations);
      && (forall i :: 0 <= i < |allocations| && Violates(allocations[i]) ==> ViolationOf(allocations[i]) in v.errors)
      && (forall e :: e in v.errors ==>
            exists i :: 0 <= i < |allocations| && Violates(allocations[i]) && e == ViolationOf(allocations[i]))
  {
    AllocationErrorsReported(allocations);
  }

  // ---------------------------------------------------------------------
  // Theorems about the allocator
  // ---------------------------------------------------------------------

  /** Post-validation accepts every output of the allocator. */
  lemma AllocationPassesPostValidation(members: seq<MemberInput>)
    ensures ValidateAllocations(Allocate(members)).isValid
  {
    var r := Allocate(members);
    forall i | 0 <= i < |r|
      ensures !Violates(r[i])
    {
      assert WithinBounds(r[i]);
    }
  }

  /** Conservation: allocation moves balance between members, never creates
      or destroys it. */
  lemma AllocationConserves(members: seq<MemberInput>)
    ensures Sum(Allocate(members), CbAfterOf) == Sum(Allocate(members), AllocCbBeforeOf)
    ensures Sum(Allocate(members), CbAfterOf) == TotalCb(members)
  {
    var r := Allocate(members);
    var sorted := SortDescending(members);
    SortKeepsTotal(members);
    SameBeforeTotals(r, sorted);
  }

  lemma {:induction false} SameBeforeTotals(r: seq<Allocation>, sorted: seq<MemberInput>)
    requires |r| == |sorted|
    requires forall i :: 0 <= i < |r| ==> r[i].cbBefore == sorted[i].cbBefore
    ensures Sum(r, AllocCbBeforeOf) == Sum(sorted, CbBeforeOf)
  {
    if r != [] {
      SameBeforeTotals(r[1..], sorted[1..]);
    }
  }

  /** The members an allocation is for: ship and cbBefore of each entry. */
  function Projection(r: seq<Allocation>): (p: seq<MemberInput>)
    ensures |p| == |r|
    ensures forall i :: 0 <= i < |r| ==> p[i] == MemberInput(r[i].shipId, r[i].cbBefore)
  {
    seq(|r|, i requires 0 <= i < |r| => MemberInput(r[i].shipId, r[i].cbBefore))
  }

  lemma AllocationProjectsToSort(members: seq<MemberInput>)
    ensures Projection(Allocate(members)) == SortDescending(members)
  {
  }

  /** The allocator's output is the stable descending sort of the request,
      with each member's ship and cbBefore untouched: a permutation of the
      request that keeps members of equal cbBefore in request order. */
  lemma AllocationIsStableSortedPermutation(members: seq<MemberInput>)
    ensures var p := Projection(Allocate(members));
      && multiset(p) == multiset(members)
      && SortedDescending(p)
      && (forall v :: WithCb(p, v) == WithCb(members, v))
  {
    AllocationProjectsToSort(members);
    forall v
      ensures WithCb(SortDescending(members), v) == WithCb(members, v)
    {
      SortIsStable(members, v);
    }
  }

  /** A non-negative total clears every deficit: each deficit member ends at
      exactly zero. */
  lemma AllocationClearsDeficits(members: seq<MemberInput>)
    requires TotalCb(members) >= 0.0
    ensures forall i :: 0 <= i < |Allocate(members)| && Allocate(members)[i].cbBefore < 0.0 ==>
      Allocate(members)[i].cbAfter == 0.0
  {
    var seeded := Seed(SortDescending(members));
    DistributeClearsDeficits(seeded, Allocate(members));
  }

  /** The argument behind the theorem above: a deficit member left short
      means the surplus ran dry, and then the pool total would be negative. */
  lemma DistributeClearsDeficits(seeded: seq<Allocation>, r: seq<Allocation>)
    requires AllWithinBounds(seeded)
    requires r == Distribute(seeded, GroupIndices(seeded, false, 0), GroupIndices(seeded, true, 0))
    requires Sum(r, CbAfterOf) >= 0.0
    ensures forall i :: 0 <= i < |r| && r[i].cbBefore < 0.0 ==> r[i].cbAfter == 0.0
  {
    var ds, ss := GroupIndices(seeded, false, 0), GroupIndices(seeded, true, 0);
    forall i | 0 <= i < |r| && r[i].cbBefore < 0.0
      ensures r[i].cbAfter == 0.0
    {
      assert InGroup(seeded[i], false);
      assert i in ds;
      var k :| 0 <= k < |ds| && ds[k] == i;
      assert r[ds[k]].cbAfter == 0.0 || Exhausted(r, ss);
      if r[i].cbAfter != 0.0 {
        // the surplus ran dry, so nobody holds a positive balance any more
        DrainedPoolIsNonPositive(seeded, r, ss);
        SumNegative(r, CbAfterOf, i);
        assert false;
      }
    }
  }

  lemma DrainedPoolIsNonPositive(seeded: seq<Allocation>, r: seq<Allocation>, ss: seq<nat>)
    requires SameMembers(seeded, r) && AllWithinBounds(r)
    requires forall j :: 0 <= j < |seeded| && InGroup(seeded[j], true) ==> j in ss
    requires Exhausted(r, ss)
    ensures forall j :: 0 <= j < |r| ==> CbAfterOf(r[j]) <= 0.0
  {
    forall j | 0 <= j < |r|
      ensures CbAfterOf(r[j]) <= 0.0
    {
      assert WithinBounds(r[j]);
      if r[j].cbBefore > 0.0 {
        assert InGroup(seeded[j], true);
        var m :| 0 <= m < |ss| && ss[m] == j;
      }
    }
  }

  /** With no deficit member the allocator changes nothing. */
  lemma AllocationWithoutDeficitIsIdentity(members: seq<MemberInput>)
    requires forall i :: 0 <= i < |members| ==> members[i].cbBefore >= 0.0
    ensures forall i :: 0 <= i < |Allocate(members)| ==> Allocate(members)[i].cbAfter == Allocate(members)[i].cbBefore
  {
    var sorted := SortDescending(members);
    var seeded := Seed(sorted);
    var ds := GroupIndices(seeded, false, 0);
    forall i | 0 <= i < |sorted|
      ensures sorted[i].cbBefore >= 0.0
    {
      assert sorted[i] in multiset(members);
    }
  }
}
