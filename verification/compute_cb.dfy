/** Computing a ship-year's compliance balance from its actual intensity and
    fuel consumption, and storing it by upsert on (shipId, year). */
module ComputeCbUseCase {

  import opened Outcomes
  import opened Domain
  import Calc = ComplianceCalculator
  import ComplianceRepository

  function Execute(rows: ComplianceRepository.Store, shipId: string, year: int,
                   actualIntensity: real, fuelConsumption: real)
    : (r: (ComplianceBalance, ComplianceRepository.Store))
    ensures r.0.shipId == shipId && r.0.year == year
    ensures fuelConsumption == 0.0 ==> r.0.cbGco2eq == 0.0
    ensures actualIntensity == Calc.TargetIntensity(year) ==> r.0.cbGco2eq == 0.0
    ensures fuelConsumption > 0.0 ==>
      && (r.0.cbGco2eq > 0.0 <==> actualIntensity < Calc.TargetIntensity(year))
      && (r.0.cbGco2eq < 0.0 <==> actualIntensity > Calc.TargetIntensity(year))
    ensures fuelConsumption != 0.0 ==>
      r.0.cbGco2eq / (fuelConsumption * Calc.EnergyPerTonneFuel) == Calc.TargetIntensity(year) - actualIntensity
    ensures ComplianceRepository.Wf(rows) ==>
      && ComplianceRepository.Wf(r.1)
      && ComplianceRepository.FindByShipAndYear(r.1, shipId, year) == Some(r.0)
      && forall s, y :: (s, y) != (shipId, year) ==>
           ComplianceRepository.FindByShipAndYear(r.1, s, y) == ComplianceRepository.FindByShipAndYear(rows, s, y)
  {
    var target := Calc.TargetIntensity(year);
    var energy := Calc.EnergyInScope(fuelConsumption);
    var cb := Calc.ComplianceBalance(target, actualIntensity, energy);
    ComplianceRepository.Upsert(rows, shipId, year, cb)
  }
}
