/** The entities of the compliance engine and the errors its operations raise.
    Quantities (intensities, energies, balances, banked amounts) are exact
    reals; record timestamps are not modelled; ids are naturals handed out
    by the stores. */
module Domain {

  import opened Outcomes

  /** One compliance balance per (shipId, year); positive is surplus. */
  datatype ComplianceBalance = ComplianceBalance(
    id: nat,
    shipId: string,
    year: int,
    cbGco2eq: real)

  /** The read model returned by the adjusted-balance query. */
  datatype AdjustedComplianceBalance = AdjustedComplianceBalance(
    shipId: string,
    year: int,
    originalCb: real,
    bankedAmount: real,
    adjustedCb: real)

  /** A ledger record: `isApplied = false` is banked surplus,
      `isApplied = true` records an application of banked surplus. */
  datatype BankEntry = BankEntry(
    id: nat,
    shipId: string,
    year: int,
    amountGco2eq: real,
    isApplied: bool)

  /** The projection returned after applying banked surplus. */
  datatype BankingSummary = BankingSummary(
    shipId: string,
    year: int,
    cbBefore: real,
    applied: real,
    cbAfter: real)

  /** A stored pool member; `poolId` names its (single) owning pool. */
  datatype PoolMember = PoolMember(
    id: nat,
    poolId: nat,
    shipId: string,
    cbBefore: real,
    cbAfter: real)

  datatype Pool = Pool(id: nat, year: int, members: seq<PoolMember>)

  /** A member as the caller submits it for pooling. */
  datatype MemberInput = MemberInput(shipId: string, cbBefore: real)

  datatype CreatePoolRequest = CreatePoolRequest(year: int, members: seq<MemberInput>)

  /** A member as the pool store receives it; `cbAfter` may be absent. */
  datatype MemberRecord = MemberRecord(shipId: string, cbBefore: real, cbAfter: Option<real>)

  /** The allocator's output for one member. */
  datatype Allocation = Allocation(shipId: string, cbBefore: real, cbAfter: real)

  /** The pooling rules a request or an allocation can break. */
  datatype PoolRuleError =
    | TooFewMembers
    | NegativeTotal(total: real)
    | DeficitExitsWorse(shipId: string, before: real, after: real)
    | SurplusExitsNegative(shipId: string, before: real, after: real)

  datatype ValidationResult = ValidationResult(isValid: bool, errors: seq<PoolRuleError>)

  datatype Route = Route(
    id: nat,
    routeId: string,
    vesselType: string,
    fuelType: string,
    year: int,
    ghgIntensity: real,
    distance: real,
    fuelConsumption: real,
    totalEmissions: real,
    isBaseline: bool)

  /** Optional route filters; an absent, empty or zero filter constrains nothing. */
  datatype RouteFilters = RouteFilters(
    vesselType: Option<string>,
    fuelType: Option<string>,
    year: Option<int>)

  datatype RouteComparison = RouteComparison(
    baseline: Route,
    comparison: Route,
    percentDiff: real,
    compliant: bool)

  /** Every failure the engine and its stores can raise, with the ids and
      values the corresponding messages embed. */
  datatype EngineError =
    | NonPositiveBankAmount
    | NonPositiveApplyAmount
    | ComplianceRecordNotFound(shipId: string, year: int)
    | NoSurplus(shipId: string, cb: real)
    | ExceedsSurplus(amount: real, surplus: real)
    | NoBankedSurplus(shipId: string)
    | ExceedsBankedBalance(amount: real, available: real)
    | PoolValidationFailed(errors: seq<PoolRuleError>)
    | PoolAllocationValidationFailed(errors: seq<PoolRuleError>)
    | NoBaselineRoute
    | RouteNotFound(routeId: string)
    // store-level failures (a unique key taken, an update of a missing row)
    | DuplicateComplianceKey(shipId: string, year: int)
    | ComplianceIdNotFound(id: nat)
    | BankEntryNotFound(id: nat)
    | RouteRecordNotFound(routeId: string)

  type Outcome<T> = Result<T, EngineError>
}
