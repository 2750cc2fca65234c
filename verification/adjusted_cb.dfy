/** The adjusted compliance balance of a ship-year: the stored balance plus
    the applied ledger entries of exactly that ship and year. Unapplied
    entries and other years do not count. The query only reads. */
module GetAdjustedCbUseCase {

  import opened Outcomes
  import opened Domain
  import opened Seqs
  import ComplianceRepository
  import BankRepository
  import BankSurplusUseCase
  import ApplyBankedUseCase

  function IsApplied(e: BankEntry): bool { e.isApplied }

  function AppliedFor(shipId: string, year: int): BankEntry -> bool
  {
    (e: BankEntry) => e.shipId == shipId && e.year == year && e.isApplied
  }

  /** Reference reading of the banked amount: the applied entries of the
      ship-year, summed in insertion order. */
  function AppliedTotal(ledger: BankRepository.Ledger, shipId: string, year: int): real
  {
    Sum(Filter(ledger, AppliedFor(shipId, year)), BankRepository.AmountOf)
  }

  function Execute(rows: ComplianceRepository.Store, ledger: BankRepository.Ledger, shipId: string, year: int)
    : (r: Outcome<AdjustedComplianceBalance>)
    ensures r.Err? <==> ComplianceRepository.FindByShipAndYear(rows, shipId, year).None?
    ensures r.Err? ==> r.error == ComplianceRecordNotFound(shipId, year)
    ensures r.Ok? ==>
      && r.value.shipId == shipId && r.value.year == year
      && r.value.originalCb == ComplianceRepository.FindByShipAndYear(rows, shipId, year).value.cbGco2eq
      && r.value.bankedAmount == AppliedTotal(ledger, shipId, year)
      && r.value.adjustedCb == r.value.originalCb + r.value.bankedAmount
  {
    match ComplianceRepository.FindByShipAndYear(rows, shipId, year)
    case None => Err(ComplianceRecordNotFound(shipId, year))
    case Some(compliance) =>
      var applied := BankedAmount(ledger, shipId, year);
      Ok(AdjustedComplianceBalance(shipId, year, compliance.cbGco2eq, applied, compliance.cbGco2eq + applied))
  }

  /** The banked amount the query reports: the applied entries among the
      ship-year's newest-first listing, summed. It is the reference total. */
  function BankedAmount(ledger: BankRepository.Ledger, shipId: string, year: int): (b: real)
    ensures b == AppliedTotal(ledger, shipId, year)
  {
    var entries := BankRepository.FindByShipAndYear(ledger, shipId, year);
    AppliedSumIsAppliedTotal(ledger, shipId, year);
    Sum(Filter(entries, IsApplied), BankRepository.AmountOf)
  }

  /** Summing the applied entries of the newest-first ship-year listing is
      summing the applied entries of that ship-year in insertion order. */
  lemma AppliedSumIsAppliedTotal(ledger: BankRepository.Ledger, shipId: string, year: int)
    ensures Sum(Filter(BankRepository.FindByShipAndYear(ledger, shipId, year), IsApplied), BankRepository.AmountOf)
         == AppliedTotal(ledger, shipId, year)
  {
    var matching := Filter(ledger, BankRepository.OfShipAndYear(shipId, year));
    FilterReverse(matching, IsApplied);
    FilterFilter(ledger, BankRepository.OfShipAndYear(shipId, year), IsApplied, AppliedFor(shipId, year));
    SumReverse(Filter(matching, IsApplied), BankRepository.AmountOf);
  }

  /** With no applied entry for the ship-year the adjusted balance is the
      stored one. */
  lemma NoAppliedEntriesNoAdjustment(rows: ComplianceRepository.Store, ledger: BankRepository.Ledger, shipId: string, year: int)
    requires forall i :: 0 <= i < |ledger| ==> !AppliedFor(shipId, year)(ledger[i])
    ensures var r := Execute(rows, ledger, shipId, year);
      r.Ok? ==> r.value.bankedAmount == 0.0 && r.value.adjustedCb == r.value.originalCb
  {
    FilterNone(ledger, AppliedFor(shipId, year));
  }

  /** After a successful application of `amount` to a ship-year, that
      ship-year's adjusted balance is exactly `amount` higher. */
  lemma ApplyRaisesAdjustedCb(rows: ComplianceRepository.Store, ledger: BankRepository.Ledger,
                              shipId: string, year: int, amount: real)
    ensures var applied := ApplyBankedUseCase.Execute(rows, ledger, shipId, year, amount);
      applied.Ok? ==>
        && Execute(rows, applied.value.1, shipId, year).Ok?
        && Execute(rows, applied.value.1, shipId, year).value.adjustedCb
             == Execute(rows, ledger, shipId, year).value.adjustedCb + amount
  {
    var applied := ApplyBankedUseCase.Execute(rows, ledger, shipId, year, amount);
    if applied.Ok? {
      var ledger' := applied.value.1;
      var e := ledger'[|ledger|];
      assert ledger' == ledger + [e] by {
        assert ledger' == ledger'[..|ledger|] + [e];
      }
      SumFilterSnoc(ledger, e, AppliedFor(shipId, year), BankRepository.AmountOf);
      assert AppliedTotal(ledger', shipId, year) == AppliedTotal(ledger, shipId, year) + amount;
    }
  }

  /** Appending an unapplied entry changes no adjusted balance. */
  lemma AppendUnappliedKeepsAdjustedCb(rows: ComplianceRepository.Store, ledger: BankRepository.Ledger,
                                       e: BankEntry, s: string, y: int)
    requires !e.isApplied
    ensures Execute(rows, ledger + [e], s, y) == Execute(rows, ledger, s, y)
  {
    SumFilterSnoc(ledger, e, AppliedFor(s, y), BankRepository.AmountOf);
    SameAppliedTotalSameAnswer(rows, ledger + [e], ledger, s, y);
  }

  /** The answer depends on the ledger only through the reference total. */
  lemma SameAppliedTotalSameAnswer(rows: ComplianceRepository.Store, l1: BankRepository.Ledger,
                                   l2: BankRepository.Ledger, s: string, y: int)
    requires AppliedTotal(l1, s, y) == AppliedTotal(l2, s, y)
    ensures Execute(rows, l1, s, y) == Execute(rows, l2, s, y)
  {
    var r1, r2 := Execute(rows, l1, s, y), Execute(rows, l2, s, y);
    if r1.Ok? {
      assert r1.value == r2.value;
    }
  }

  /** Banking a surplus never changes any adjusted balance: the new entry is
      unapplied. */
  lemma BankingKeepsAdjustedCb(rows: ComplianceRepository.Store, ledger: BankRepository.Ledger,
                               shipId: string, year: int, amount: real, s: string, y: int)
    ensures var banked := BankSurplusUseCase.Execute(rows, ledger, shipId, year, amount);
      banked.Ok? ==> Execute(rows, banked.value.1, s, y) == Execute(rows, ledger, s, y)
  {
    var banked := BankSurplusUseCase.Execute(rows, ledger, shipId, year, amount);
    if banked.Ok? {
      AppendUnappliedKeepsAdjustedCb(rows, ledger, banked.value.0, s, y);
    }
  }
}
