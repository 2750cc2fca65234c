# FuelEU-Maritime compliance engine, modelled in Dafny

This project models the backend core of a FuelEU-Maritime compliance
service and proves properties of the model. The core has five parts.

- **Compliance calculator.** The year-indexed target-intensity table, the
  fuel-to-energy conversion, the compliance-balance (CB) formula, the
  percent difference and the compliance predicate.
- **Pool validator and allocator.** Pre-validation of a pooling request.
  The greedy allocator, which stably sorts members by descending CB and
  moves surplus into deficits. Post-validation of the fairness rules. The
  pool-creation use case that chains them.
- **Banking ledger.** Banking a surplus, applying banked surplus, the
  available-balance sum and the adjusted-CB query.
- **Routes.** Filtered listing, the baseline flag with its clear-then-set
  update, and the comparison of routes against the baseline.
- **CB computation.** Computing a ship-year's balance and storing it by
  upsert.

Every operation is a pure function. Quantities are exact `real`s. Each
store is a value:

- the compliance table is a sequence whose row ids are positions, with a
  unique (shipId, year) key;
- the ledger, the route list and the pool list are sequences;
- a fresh id is the current length, and "newest first" is descending id.

A use case returns a `Result`, alone or paired with the store it leaves.
A failure carries an `EngineError` holding the ids and numbers the code's
message embeds. A failing use case either returns no store or hands back
the store unchanged, except where the code itself writes before failing
(`RouteRepository.SetBaseline`).

Files and modules:

| file | module | models |
|---|---|---|
| outcomes.dfy | Outcomes | `Option`, `Result` |
| seqs.dfy | Seqs | order-preserving filter, sum, reversal, first index, with lemmas |
| domain.dfy | Domain | the entities and the error datatype |
| calculator.dfy | ComplianceCalculator | ComplianceCalculator.ts |
| stable_sort.dfy | StableSort | the stable descending sort the allocator starts with |
| pool_validator.dfy | PoolValidator | PoolValidator.ts |
| compliance_repository.dfy | ComplianceRepository | PrismaComplianceRepository.ts |
| bank_repository.dfy | BankRepository | PrismaBankRepositoryImpl.ts |
| route_repository.dfy | RouteRepository | PrismaRouteRepository.ts |
| pool_repository.dfy | PoolRepository | PrismaPoolRepository.ts |
| create_pool.dfy, bank_surplus.dfy, apply_banked.dfy, adjusted_cb.dfy, compute_cb.dfy, comparison.dfy, set_baseline.dfy | one module per use case | the use cases of the same names |

The allocator follows the code's loops closely:

- `Seed` copies each sorted member with cbAfter = cbBefore.
- `GroupIndices` gives the positions of the surplus members and of the
  deficit members. The code's two filtered lists share objects with the
  result, so the model uses positions into one sequence.
- `Distribute` is the outer loop over deficit members.
- `FillDeficit` is the inner loop over surplus members. It skips members
  already at zero and stops once the deficit is covered.
- `Transfer` is one move of `min(surplus, remaining)`.

Two behaviours of the code worth noting:

- The route store's `setBaseline` is two separate writes, not one atomic
  step. An unknown routeId therefore leaves the store with no baseline
  (`RouteRepository.SetBaseline`).
- The comparison drops routes by routeId, not by object identity. Under
  unique routeIds the two agree.

## Model

| member | source | states |
|---|---|---|
| ComplianceCalculator.TargetIntensity | backend/src/core/domain/services/ComplianceCalculator.ts:29-42 | 91.16 for every year before 2025, 18.232 from 2050 on, and always between those two |
| ComplianceCalculator.TargetIntensityIsTableLookup | backend/src/core/domain/services/ComplianceCalculator.ts:8-17 | the if-chain equals the table read as a step function: the value of the greatest threshold year not after `year`, else 91.16 |
| ComplianceCalculator.TableLookupPicksRow | backend/src/core/domain/services/ComplianceCalculator.ts:32-39 | the table lookup returns the row whose year range contains the year |
| ComplianceCalculator.TargetTableWellOrdered | backend/src/core/domain/services/ComplianceCalculator.ts:8-23 | threshold years increase and intensities never rise above the 91.16 baseline |
| ComplianceCalculator.TableLookupMonotone | backend/src/core/domain/services/ComplianceCalculator.ts:29-42 | on a well-ordered table a later year never gets a higher target |
| ComplianceCalculator.TableLookupBounded | backend/src/core/domain/services/ComplianceCalculator.ts:29-42 | a lookup never exceeds its default |
| ComplianceCalculator.TargetIntensityNonIncreasing | backend/src/core/domain/services/ComplianceCalculator.ts:29-42 | targets never loosen as the year advances |
| ComplianceCalculator.EnergyInScope | backend/src/core/domain/services/ComplianceCalculator.ts:47-49 | energy divided by 41000 is the tonnage; 0 tonnes give 0 MJ; positive tonnage gives positive energy |
| ComplianceCalculator.ComplianceBalance | backend/src/core/domain/services/ComplianceCalculator.ts:55-61 | 0 when actual = target or energy = 0; for positive energy, surplus iff actual < target and deficit iff actual > target; balance per MJ is target − actual |
| ComplianceCalculator.PercentDiff | backend/src/core/domain/services/ComplianceCalculator.ts:66-69 | 0 for a zero baseline and for equal values; otherwise comparison = baseline × (1 + p/100); for a positive baseline, positive iff above it and negative iff below it |
| ComplianceCalculator.IsCompliant | backend/src/core/domain/services/ComplianceCalculator.ts:74-76 | inclusive at equality; holds exactly when the balance per megajoule, target − actual, is non-negative |
| ComplianceCalculator.CompliantIffBalanceNonNegative | backend/src/core/domain/services/ComplianceCalculator.ts:74-76 | for any positive energy, compliance (inclusive at equality) holds exactly when the balance is non-negative |
| StableSort.SortDescending | backend/src/core/domain/services/PoolValidator.ts:47 | the result is a permutation of the input, sorted by descending cbBefore |
| StableSort.SortIsStable | backend/src/core/domain/services/PoolValidator.ts:47 | members with equal cbBefore keep their input order |
| StableSort.SortKeepsTotal | backend/src/core/domain/services/PoolValidator.ts:47 | sorting keeps the total cbBefore |
| StableSort.StableSortUnique | backend/src/core/domain/services/PoolValidator.ts:47 | any sequence that is descending and keeps every equal-key group of the input in order is the sort: "descending" plus "stable" pins the sort down |
| PoolValidator.Validate | backend/src/core/domain/services/PoolValidator.ts:15-35 | the too-few-members error appears iff there are fewer than 2 members, and the negative-total error iff the total is below 0 (so a total of exactly 0 passes); both can appear, size first; no other error; valid iff no error |
| PoolValidator.Seed | backend/src/core/domain/services/PoolValidator.ts:49-53 | one allocation per sorted member, starting with cbAfter = cbBefore |
| PoolValidator.GroupIndices | backend/src/core/domain/services/PoolValidator.ts:56-57 | exactly the positions of the surplus members (or of the deficit members), strictly ascending, so in member order and none twice |
| PoolValidator.Transfer | backend/src/core/domain/services/PoolValidator.ts:67-71 | the amount leaves the surplus member and reaches the deficit member; nobody else changes; ships and cbBefore stay |
| PoolValidator.TransferConserves | backend/src/core/domain/services/PoolValidator.ts:67-71 | a transfer keeps the total cbAfter |
| PoolValidator.FillDeficit | backend/src/core/domain/services/PoolValidator.ts:63-72 | the inner loop keeps the total and every member's bounds, never raises a surplus member, touches only the deficit and the listed surplus members, and either covers the deficit or drains every listed surplus member |
| PoolValidator.Distribute | backend/src/core/domain/services/PoolValidator.ts:60-73 | the outer loop keeps the total and the bounds, touches only listed members, and leaves each deficit member at 0 unless the surplus members ran dry |
| PoolValidator.Allocate | backend/src/core/domain/services/PoolValidator.ts:41-76 | one allocation per member in sorted order with ship and cbBefore unchanged; total cbAfter = total cbBefore; every member within its bounds (surplus: 0 ≤ after ≤ before; deficit: before ≤ after ≤ 0; zero: untouched) |
| PoolValidator.AllocationConserves | backend/src/core/domain/services/PoolValidator.ts:60-73 | total cbAfter of the allocation equals its total cbBefore and the request's total |
| PoolValidator.AllocationIsStableSortedPermutation | backend/src/core/domain/services/PoolValidator.ts:47-53 | the members of the allocation (ship, cbBefore) are a permutation of the request, sorted descending, with equal keys in request order |
| PoolValidator.AllocationClearsDeficits | backend/src/core/domain/services/PoolValidator.ts:60-73 | with a non-negative total, every deficit member ends at exactly 0 |
| PoolValidator.DistributeClearsDeficits | backend/src/core/domain/services/PoolValidator.ts:60-73 | a deficit member left short implies the surplus ran dry, which a non-negative total rules out |
| PoolValidator.AllocationWithoutDeficitIsIdentity | backend/src/core/domain/services/PoolValidator.ts:56-57 | with no deficit member, every cbAfter equals cbBefore |
| PoolValidator.AllocationErrors | backend/src/core/domain/services/PoolValidator.ts:86-101 | no more errors than members; no error iff no member breaks a fairness rule |
| PoolValidator.AllocationErrorsReported | backend/src/core/domain/services/PoolValidator.ts:86-101 | every violating member is reported, and every report names a violating member |
| PoolValidator.AllocationErrorsInOrder | backend/src/core/domain/services/PoolValidator.ts:86-101 | the errors are exactly the violating members' errors, one each, in list order |
| PoolValidator.ValidateAllocations | backend/src/core/domain/services/PoolValidator.ts:81-106 | valid iff there are no errors iff no member breaks a rule (deficit exits worse, or surplus exits negative) |
| PoolValidator.ValidateAllocationsReportsViolations | backend/src/core/domain/services/PoolValidator.ts:81-106 | post-validation reports each violating member and nobody else |
| PoolValidator.AllocationPassesPostValidation | backend/src/core/domain/services/PoolValidator.ts:81-106 | post-validation accepts every output of the allocator |
| ComplianceRepository.IndexOfKey | backend/src/adapters/outbound/PrismaComplianceRepository.ts:8-18 | finds a row with the key, or reports that no row has it |
| ComplianceRepository.FindByShipAndYear | backend/src/adapters/outbound/PrismaComplianceRepository.ts:8-18 | returns a stored row with the key, or none iff the key was never written; under the unique key it is that row |
| ComplianceRepository.Create | backend/src/adapters/outbound/PrismaComplianceRepository.ts:20-25 | rejected iff the key exists; otherwise appends exactly the new row with a fresh id and keeps the store invariant |
| ComplianceRepository.Update | backend/src/adapters/outbound/PrismaComplianceRepository.ts:27-33 | a missing id is an error; on success only the row with that id changes, to the patched row; succeeds iff the patched key clashes with no other row, and reports the clashing key otherwise |
| ComplianceRepository.Upsert | backend/src/adapters/outbound/PrismaComplianceRepository.ts:35-51 | the result has the key and the balance; the store either gains that one row or changes only the row with the key; the invariant holds |
| ComplianceRepository.UpsertReadBack | backend/src/adapters/outbound/PrismaComplianceRepository.ts:35-51 | the key reads back the written balance; an existing row keeps id and key with only the balance replaced; an absent key is created with a fresh id; every other key reads back as before |
| BankRepository.NewestMatching | backend/src/adapters/outbound/PrismaBankRepositoryImpl.ts:8-22 | exactly the matching entries, newest first |
| BankRepository.FindByShip | backend/src/adapters/outbound/PrismaBankRepositoryImpl.ts:8-14 | exactly the ship's entries, newest first |
| BankRepository.FindByShipAndYear | backend/src/adapters/outbound/PrismaBankRepositoryImpl.ts:16-22 | exactly the ship-year's entries, newest first |
| BankRepository.ShipAndYearNarrowsShip | backend/src/adapters/outbound/PrismaBankRepositoryImpl.ts:8-22 | the ship-year listing is the ship listing narrowed to the year, in the same order |
| BankRepository.FindAvailableBalance | backend/src/adapters/outbound/PrismaBankRepositoryImpl.ts:24-31 | 0 when the ship has no unapplied entry |
| BankRepository.AvailableBalanceOfShipListing | backend/src/adapters/outbound/PrismaBankRepositoryImpl.ts:8-31 | the available balance equals the ship's newest-first listing narrowed to unapplied entries and summed, so the order of the unordered query does not matter |
| BankRepository.Create | backend/src/adapters/outbound/PrismaBankRepositoryImpl.ts:33-36 | appends exactly one entry with the given fields and a fresh id; existing entries are unchanged |
| BankRepository.CreateAvailableBalance | backend/src/adapters/outbound/PrismaBankRepositoryImpl.ts:24-36 | an unapplied entry raises its ship's available balance by its amount; an applied one changes nothing; other ships never change |
| BankRepository.MarkAsApplied | backend/src/adapters/outbound/PrismaBankRepositoryImpl.ts:38-44 | a missing id is an error; otherwise only that entry changes, and only its applied flag |
| BankRepository.MarkAsAppliedAvailableBalance | backend/src/adapters/outbound/PrismaBankRepositoryImpl.ts:38-44 | marking lowers the ship's available balance by the entry's amount if it was unapplied, and changes no other balance |
| BankRepository.MarkAsAppliedIdempotent | backend/src/adapters/outbound/PrismaBankRepositoryImpl.ts:38-44 | marking twice is marking once |
| RouteRepository.FindAll | backend/src/adapters/outbound/PrismaRouteRepository.ts:8-25 | every listed route is a stored route matching every present, non-empty, non-zero filter, and every matching stored route is listed; the order is left open, as the query has no `orderBy` |
| RouteRepository.FindAllCounts | backend/src/adapters/outbound/PrismaRouteRepository.ts:8-25 | a matching route is listed exactly as often as it is stored, a non-matching one never |
| RouteRepository.FindAllUnfiltered | backend/src/adapters/outbound/PrismaRouteRepository.ts:11-21 | absent or falsy filters list every route |
| RouteRepository.FindByRouteId | backend/src/adapters/outbound/PrismaRouteRepository.ts:32-35 | a route with that routeId, or none iff there is none; under unique routeIds it is that route |
| RouteRepository.FindBaseline | backend/src/adapters/outbound/PrismaRouteRepository.ts:37-42 | a flagged route, or none iff no route is flagged; with at most one baseline it is that route |
| RouteRepository.SetBaseline | backend/src/adapters/outbound/PrismaRouteRepository.ts:57-71 | only flags change; at most one baseline afterwards; succeeds iff the routeId exists; on success the returned route is the only flagged one; on failure no route is flagged |
| RouteRepository.SetBaselineIdempotent | backend/src/adapters/outbound/PrismaRouteRepository.ts:57-71 | setting the same baseline twice gives the state and answer of setting it once |
| RouteRepository.SetBaselineThenFind | backend/src/adapters/outbound/PrismaRouteRepository.ts:37-71 | after a set, the baseline query returns the route set, or none after a failed set |
| PoolRepository.Create | backend/src/adapters/outbound/PrismaPoolRepository.ts:28-44 | appends one pool with the year and one member per request member, in order, with the same ship and cbBefore; cbAfter is the supplied one, else cbBefore; existing pools are unchanged; pool and member ids are fresh |
| PoolRepository.FindByYear | backend/src/adapters/outbound/PrismaPoolRepository.ts:19-26 | exactly the stored pools of that year |
| PoolRepository.FindByYearCounts | backend/src/adapters/outbound/PrismaPoolRepository.ts:19-26 | a pool of the year is listed exactly as often as it is stored, a pool of another year never |
| PoolRepository.FindById | backend/src/adapters/outbound/PrismaPoolRepository.ts:8-17 | the pool with that id, or none iff there is none |
| PoolRepository.CreateThenFind | backend/src/adapters/outbound/PrismaPoolRepository.ts:8-44 | a created pool joins its year's listing and the id lookup; every other lookup is unchanged |
| CreatePoolUseCase.FirstWithoutRecord | backend/src/core/application/usecases/CreatePoolUseCase.ts:25-36 | the first member, in request order, without a compliance record for the year, or none iff all have one |
| CreatePoolUseCase.AllocateAndStore | backend/src/core/application/usecases/CreatePoolUseCase.ts:39-58 | the stored pool has the request's year and exactly the allocator's members; no stored member breaks a fairness rule; stored totals of cbBefore and cbAfter both equal the request total |
| CreatePoolUseCase.ExecuteValidated | backend/src/core/application/usecases/CreatePoolUseCase.ts:25-58 | the first member without a record fails the call; otherwise the allocation is stored |
| CreatePoolUseCase.Execute | backend/src/core/application/usecases/CreatePoolUseCase.ts:16-59 | a failed pre-validation fails first; then the first member without a record; no other failure is reachable, so the post-allocation check never fails; success iff valid and every member has a record, and then ≥ 2 members, a non-negative total, and the allocation stored |
| CreatePoolUseCase.ExecuteIgnoresStoredBalances | backend/src/core/application/usecases/CreatePoolUseCase.ts:25-39 | stored balances only gate existence: stores with the same ship-years give the same outcome |
| BankSurplusUseCase.Execute | backend/src/core/application/usecases/BankSurplusUseCase.ts:17-53 | the ladder amount → record → surplus → ceiling, first failure wins, with the values it reports; success iff amount ≤ CB once the earlier checks pass; success appends exactly one unapplied entry |
| BankSurplusUseCase.BankingIgnoresLedger | backend/src/core/application/usecases/BankSurplusUseCase.ts:33-50 | whether banking succeeds does not depend on the ledger, so two bankings each within the CB both succeed even when together they exceed it |
| BankSurplusUseCase.BankingRaisesAvailable | backend/src/core/application/usecases/BankSurplusUseCase.ts:45-52 | a successful banking raises the ship's available balance by the amount and no other ship's |
| ApplyBankedUseCase.Execute | backend/src/core/application/usecases/ApplyBankedUseCase.ts:17-63 | the ladder amount → record → available > 0 → ceiling, first failure wins; success iff amount ≤ available, which spans all years; success appends exactly one applied entry; summary cbAfter = cbBefore + amount > cbBefore |
| ApplyBankedUseCase.ApplyKeepsAvailable | backend/src/core/application/usecases/ApplyBankedUseCase.ts:46-51 | applying leaves every ship's available balance unchanged, so the same request succeeds again |
| GetAdjustedCbUseCase.Execute | backend/src/core/application/usecases/GetAdjustedCBUseCase.ts:11-32 | fails iff no record; otherwise original = stored CB, banked = sum of the applied entries of exactly that ship and year, adjusted = original + banked |
| GetAdjustedCbUseCase.BankedAmount | backend/src/core/application/usecases/GetAdjustedCBUseCase.ts:18-21 | the applied sum over the newest-first ship-year listing equals the reference sum in insertion order |
| GetAdjustedCbUseCase.AppliedSumIsAppliedTotal | backend/src/core/application/usecases/GetAdjustedCBUseCase.ts:18-21 | the same, as a lemma about the listing |
| GetAdjustedCbUseCase.NoAppliedEntriesNoAdjustment | backend/src/core/application/usecases/GetAdjustedCBUseCase.ts:18-23 | with no applied entry for the ship-year, banked is 0 and adjusted = original |
| GetAdjustedCbUseCase.SameAppliedTotalSameAnswer | backend/src/core/application/usecases/GetAdjustedCBUseCase.ts:11-32 | the answer depends on the ledger only through the applied total of the ship-year |
| GetAdjustedCbUseCase.AppendUnappliedKeepsAdjustedCb | backend/src/core/application/usecases/GetAdjustedCBUseCase.ts:18-21 | appending an unapplied entry changes no adjusted balance |
| GetAdjustedCbUseCase.BankingKeepsAdjustedCb | backend/src/core/application/usecases/GetAdjustedCBUseCase.ts:18-21 | banking a surplus never changes any ship-year's adjusted balance |
| GetAdjustedCbUseCase.ApplyRaisesAdjustedCb | backend/src/core/application/usecases/GetAdjustedCBUseCase.ts:18-23 | after a successful application of a, the ship-year's adjusted balance is exactly a higher |
| ComputeCbUseCase.Execute | backend/src/core/application/usecases/ComputeCBUseCase.ts:15-29 | the stored balance has the key; it is 0 for no fuel or actual = target; for positive fuel, surplus iff below target and deficit iff above; per MJ it is target − actual; on a well-formed store the store stays well formed, the key reads the balance back and every other ship-year is unchanged |
| ComputeComparisonUseCase.Execute | backend/src/core/application/usecases/ComputeComparisonUseCase.ts:8-32 | fails iff no baseline; otherwise compares exactly the listed routes whose routeId differs from the baseline's, in listing order, each against the baseline, with its percent difference and its compliance at its own year's target |
| ComputeComparisonUseCase.ComparesExactlyTheOtherRoutes | backend/src/core/application/usecases/ComputeComparisonUseCase.ts:15-18 | every compared route is listed and not the baseline, and every listed route other than the baseline is compared |
| ComputeComparisonUseCase.OnlyBaselineListedGivesNoComparisons | backend/src/core/application/usecases/ComputeComparisonUseCase.ts:15-18 | when the listing holds only the baseline, the result is empty |
| SetBaselineUseCase.Execute | backend/src/core/application/usecases/SetBaselineUseCase.ts:7-15 | an unknown routeId fails with the store unchanged; otherwise the store's clear-then-set runs, the returned route is flagged and is the one baseline; under unique routeIds, exactly the requested route is flagged |
| SetBaselineUseCase.ExecuteIdempotent | backend/src/core/application/usecases/SetBaselineUseCase.ts:7-15 | setting the same baseline twice gives the state of setting it once |

## Left out

- HTTP routes, server bootstrap, seed data and the whole frontend: request glue and UI, not domain rules.
- Floating point: all quantities are exact reals, so the code's IEEE-754 rounding and NaN or infinite inputs are not modelled.
- Error message text: each error carries the ids and numbers its message embeds, not the formatted string.
- Concurrency and the check-then-act race between banking calls: the model runs one use case at a time.
- Timestamps: "newest first" (`createdAt` descending) is modelled as descending id, since ids are handed out in insertion order.
- Prisma id generation: ids are fresh naturals, and a pool's member ids come from a running count of stored members.
- Query order the code leaves to the database (`findMany` and `findFirst` without `orderBy`): modelled as store order.
- `ComplianceRepository.Update`: the patch covers shipId, year and cbGco2eq only; patching an id or a timestamp is not modelled.
- `ComplianceRepository.FindByShipAndYear`: without the unique-key invariant it promises only some row with the key; the database enforces that key, and the store invariant `Wf` states it.
- `BankRepository.FindAvailableBalance`: its own contract states only the empty case. `AvailableBalanceOfShipListing` relates it to the ship's listing, and `CreateAvailableBalance`, `MarkAsAppliedAvailableBalance` and `ApplyKeepsAvailable` state the effect of each write on it.
- The route store's `findById`, `create` and `update`, and the one-line route listing use case: not part of the engine's rules; the listing is `FindAll`.
- Transactions: each store write is a single step, and the pool with its members is stored at once.
