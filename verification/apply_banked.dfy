/** Applying banked surplus: a fail-fast ladder (positive amount, a
    compliance record for the ship-year, a positive available balance, an
    amount within it), then one applied ledger entry and a summary. The
    available balance spans all years of the ship, and the new entry, being
    applied, does not count against it. */
module ApplyBankedUseCase {

  import opened Outcomes
  import opened Domain
  import ComplianceRepository
  import BankRepository

  function Execute(rows: ComplianceRepository.Store, ledger: BankRepository.Ledger,
                   shipId: string, year: int, amount: real)
    : (r: Outcome<(BankingSummary, BankRepository.Ledger)>)
    ensures amount <= 0.0 ==> r == Err(NonPositiveApplyAmount)
    ensures amount > 0.0 && ComplianceRepository.FindByShipAndYear(rows, shipId, year).None? ==>
      r == Err(ComplianceRecordNotFound(shipId, year))
    ensures amount > 0.0 && ComplianceRepository.FindByShipAndYear(rows, shipId, year).Some? ==>
      var available := BankRepository.FindAvailableBalance(ledger, shipId);
      && (available <= 0.0 ==> r == Err(NoBankedSurplus(shipId)))
      && (0.0 < available < amount ==> r == Err(ExceedsBankedBalance(amount, available)))
      && (amount <= available <==> r.Ok?)
    ensures r.Ok? ==>
      var (summary, ledger') := r.value;
      var cb := ComplianceRepository.FindByShipAndYear(rows, shipId, year).value.cbGco2eq;
      && |ledger'| == |ledger| + 1
      && ledger'[..|ledger|] == ledger
      && ledger'[|ledger|].shipId == shipId && ledger'[|ledger|].year == year
      && ledger'[|ledger|].amountGco2eq == amount && ledger'[|ledger|].isApplied
      && (BankRepository.Wf(ledger) ==> BankRepository.Wf(ledger'))
      && summary.shipId == shipId && summary.year == year
      && summary.cbBefore == cb && summary.applied == amount
      && summary.cbAfter == cb + amount && summary.cbAfter > summary.cbBefore
  {
    if amount <= 0.0 then Err(NonPositiveApplyAmount)
    else match ComplianceRepository.FindByShipAndYear(rows, shipId, year)
      case None => Err(ComplianceRecordNotFound(shipId, year))
      case Some(compliance) =>
        var available := BankRepository.FindAvailableBalance(ledger, shipId);
        if available <= 0.0 then Err(NoBankedSurplus(shipId))
        else if amount > available then Err(ExceedsBankedBalance(amount, available))
        else
          var (_, ledger') := BankRepository.Create(ledger, shipId, year, amount, true);
          assert ledger'[..|ledger|] == ledger;
          var cbBefore := compliance.cbGco2eq;
          Ok((BankingSummary(shipId, year, cbBefore, amount, cbBefore + amount), ledger'))
  }

  /** Applying leaves every ship's available balance as it was, so the same
      request succeeds again on the resulting ledger. */
  lemma ApplyKeepsAvailable(rows: ComplianceRepository.Store, ledger: BankRepository.Ledger,
                            shipId: string, year: int, amount: real)
    ensures var r := Execute(rows, ledger, shipId, year, amount);
      r.Ok? ==>
        && (forall s :: BankRepository.FindAvailableBalance(r.value.1, s) == BankRepository.FindAvailableBalance(ledger, s))
        && Execute(rows, r.value.1, shipId, year, amount).Ok?
  {
    var r := Execute(rows, ledger, shipId, year, amount);
    if r.Ok? {
      forall s
        ensures BankRepository.FindAvailableBalance(r.value.1, s) == BankRepository.FindAvailableBalance(ledger, s)
      {
        BankRepository.CreateAvailableBalance(ledger, shipId, year, amount, true, s);
      }
    }
  }
}
