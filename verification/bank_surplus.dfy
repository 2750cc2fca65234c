/** Banking a surplus: a fail-fast ladder (positive amount, a compliance
    record for the ship-year, a positive balance, an amount within it), then
    one unapplied ledger entry. The compliance store is only read. */
module BankSurplusUseCase {

  import opened Outcomes
  import opened Domain
  import ComplianceRepository
  import BankRepository

  function Execute(rows: ComplianceRepository.Store, ledger: BankRepository.Ledger,
                   shipId: string, year: int, amount: real)
    : (r: Outcome<(BankEntry, BankRepository.Ledger)>)
    ensures amount <= 0.0 ==> r == Err(NonPositiveBankAmount)
    ensures amount > 0.0 && ComplianceRepository.FindByShipAndYear(rows, shipId, year).None? ==>
      r == Err(ComplianceRecordNotFound(shipId, year))
    ensures amount > 0.0 && ComplianceRepository.FindByShipAndYear(rows, shipId, year).Some? ==>
      var cb := ComplianceRepository.FindByShipAndYear(rows, shipId, year).value.cbGco2eq;
      && (cb <= 0.0 ==> r == Err(NoSurplus(shipId, cb)))
      && (0.0 < cb < amount ==> r == Err(ExceedsSurplus(amount, cb)))
      && (amount <= cb <==> r.Ok?)
    ensures r.Ok? ==>
      var (entry, ledger') := r.value;
      && ledger' == ledger + [entry]
      && entry.shipId == shipId && entry.year == year
      && entry.amountGco2eq == amount && !entry.isApplied
      && (BankRepository.Wf(ledger) ==> BankRepository.Wf(ledger'))
  {
    if amount <= 0.0 then Err(NonPositiveBankAmount)
    else match ComplianceRepository.FindByShipAndYear(rows, shipId, year)
      case None => Err(ComplianceRecordNotFound(shipId, year))
      case Some(compliance) =>
        if compliance.cbGco2eq <= 0.0 then Err(NoSurplus(shipId, compliance.cbGco2eq))
        else if amount > compliance.cbGco2eq then Err(ExceedsSurplus(amount, compliance.cbGco2eq))
        else Ok(BankRepository.Create(ledger, shipId, year, amount, false))
  }

  /** Banking never reads the ledger: whether a request succeeds depends on
      the compliance store alone, so two bankings that each fit within the
      balance both succeed, even when together they exceed it. */
  lemma BankingIgnoresLedger(rows: ComplianceRepository.Store, ledger1: BankRepository.Ledger,
                             ledger2: BankRepository.Ledger, shipId: string, year: int, amount: real)
    ensures Execute(rows, ledger1, shipId, year, amount).Ok? == Execute(rows, ledger2, shipId, year, amount).Ok?
    ensures Execute(rows, ledger1, shipId, year, amount).Err? ==>
      Execute(rows, ledger1, shipId, year, amount) == Execute(rows, ledger2, shipId, year, amount)
  {
  }

  /** A successful banking raises the ship's available balance by the amount
      and leaves every other ship's alone. */
  lemma BankingRaisesAvailable(rows: ComplianceRepository.Store, ledger: BankRepository.Ledger,
                               shipId: string, year: int, amount: real, s: string)
    ensures var r := Execute(rows, ledger, shipId, year, amount);
      r.Ok? ==>
        BankRepository.FindAvailableBalance(r.value.1, s)
          == BankRepository.FindAvailableBalance(ledger, s) + (if s == shipId then amount else 0.0)
  {
    BankRepository.CreateAvailableBalance(ledger, shipId, year, amount, false, s);
  }
}
