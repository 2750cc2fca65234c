/** Pool creation: validate the request, require a compliance record for
    every member in the pool's year, allocate, re-validate the allocation,
    and store the pool with the allocated members. Every failure leaves the
    pool store as it was. */
module CreatePoolUseCase {

  import opened Outcomes
  import opened Domain
  import opened Seqs
  import opened StableSort
  import opened PoolValidator
  import ComplianceRepository
  import PoolRepository

  /** A member without a compliance record for `year`. */
  function LacksRecord(rows: ComplianceRepository.Store, year: int): MemberInput -> bool
  {
    (m: MemberInput) => ComplianceRepository.FindByShipAndYear(rows, m.shipId, year).None?
  }

  function HasRecord(rows: ComplianceRepository.Store, year: int, m: MemberInput): bool
  {
    ComplianceRepository.FindByShipAndYear(rows, m.shipId, year).Some?
  }

  /** An allocation handed to the pool store, with its cbAfter supplied. */
  function ToRecords(allocations: seq<Allocation>): (r: seq<MemberRecord>)
    ensures |r| == |allocations|
    ensures forall k :: 0 <= k < |r| ==>
      r[k] == MemberRecord(allocations[k].shipId, allocations[k].cbBefore, Some(allocations[k].cbAfter))
  {
    seq(|allocations|, k requires 0 <= k < |allocations| =>
      MemberRecord(allocations[k].shipId, allocations[k].cbBefore, Some(allocations[k].cbAfter)))
  }

  function StoredCbBeforeOf(m: PoolMember): real { m.cbBefore }
  function StoredCbAfterOf(m: PoolMember): real { m.cbAfter }

  /** Allocates the members and stores the pool with the allocation. */
  function AllocateAndStore(pools: PoolRepository.PoolStore, request: CreatePoolRequest)
    : (r: (Pool, PoolRepository.PoolStore))
    ensures
      var (pool, pools') := r;
      var allocations := Allocate(request.members);
      && pools' == pools + [pool]
      && pool.year == request.year
      && |pool.members| == |request.members|
      && (forall k :: 0 <= k < |pool.members| ==>
            && pool.members[k].shipId == allocations[k].shipId
            && pool.members[k].cbBefore == allocations[k].cbBefore
            && pool.members[k].cbAfter == allocations[k].cbAfter
            && !Violates(allocations[k]))
      && Sum(pool.members, StoredCbAfterOf) == TotalCb(request.members)
      && Sum(pool.members, StoredCbBeforeOf) == TotalCb(request.members)
  {
    var allocations := Allocate(request.members);
    AllocationPassesPostValidation(request.members);
    AllocationConserves(request.members);
    var (pool, pools') := PoolRepository.Create(pools, request.year, ToRecords(allocations));
    SumPointwise(pool.members, StoredCbAfterOf, allocations, CbAfterOf);
    SumPointwise(pool.members, StoredCbBeforeOf, allocations, AllocCbBeforeOf);
    (pool, pools')
  }

  /** The first member, in request order, without a record for the year. */
  function FirstWithoutRecord(rows: ComplianceRepository.Store, request: CreatePoolRequest): (r: Option<nat>)
    ensures r.Some? ==>
      && r.value < |request.members|
      && !HasRecord(rows, request.year, request.members[r.value])
      && forall k :: 0 <= k < r.value ==> HasRecord(rows, request.year, request.members[k])
    ensures r.None? <==> forall j :: 0 <= j < |request.members| ==> HasRecord(rows, request.year, request.members[j])
  {
    FirstIndex(request.members, LacksRecord(rows, request.year))
  }

  /** The steps after a request passed validation. */
  function ExecuteValidated(rows: ComplianceRepository.Store, pools: PoolRepository.PoolStore, request: CreatePoolRequest)
    : (r: Outcome<(Pool, PoolRepository.PoolStore)>)
    ensures FirstWithoutRecord(rows, request).Some? ==>
      r == Err(ComplianceRecordNotFound(request.members[FirstWithoutRecord(rows, request).value].shipId, request.year))
    ensures FirstWithoutRecord(rows, request).None? ==> r == Ok(AllocateAndStore(pools, request))
  {
    match FirstWithoutRecord(rows, request)
    case Some(j) => Err(ComplianceRecordNotFound(request.members[j].shipId, request.year))
    case None =>
      var allocations := Allocate(request.members);
      AllocationPassesPostValidation(request.members);
      var allocationValidation := ValidateAllocations(allocations);
      if !allocationValidation.isValid then Err(PoolAllocationValidationFailed(allocationValidation.errors))
      else Ok(AllocateAndStore(pools, request))
  }

  function Execute(rows: ComplianceRepository.Store, pools: PoolRepository.PoolStore, request: CreatePoolRequest)
    : (r: Outcome<(Pool, PoolRepository.PoolStore)>)
    ensures !Validate(request).isValid ==> r == Err(PoolValidationFailed(Validate(request).errors))
    ensures Validate(request).isValid ==>
      forall j :: (&& 0 <= j < |request.members|
                   && !HasRecord(rows, request.year, request.members[j])
                   && (forall k :: 0 <= k < j ==> HasRecord(rows, request.year, request.members[k])))
        ==> r == Err(ComplianceRecordNotFound(request.members[j].shipId, request.year))
    ensures r.Err? ==> r.error.PoolValidationFailed? || r.error.ComplianceRecordNotFound?
    ensures r.Ok? <==>
      Validate(request).isValid && forall j :: 0 <= j < |request.members| ==> HasRecord(rows, request.year, request.members[j])
    ensures r.Ok? ==>
      && r.value == AllocateAndStore(pools, request)
      && |request.members| >= 2
      && TotalCb(request.members) >= 0.0
  {
    var validation := Validate(request);
    if !validation.isValid then Err(PoolValidationFailed(validation.errors))
    else ExecuteValidated(rows, pools, request)
  }

  /** The stored balances only gate existence: two compliance stores with the
      same ship-years give the same outcome, whatever balances they hold. */
  lemma ExecuteIgnoresStoredBalances(rows1: ComplianceRepository.Store, rows2: ComplianceRepository.Store,
                                     pools: PoolRepository.PoolStore, request: CreatePoolRequest)
    requires forall s, y :: ComplianceRepository.FindByShipAndYear(rows1, s, y).Some?
                         == ComplianceRepository.FindByShipAndYear(rows2, s, y).Some?
    ensures Execute(rows1, pools, request) == Execute(rows2, pools, request)
  {
    FirstIndexAgree(request.members, LacksRecord(rows1, request.year), LacksRecord(rows2, request.year));
  }
}
