/** The compliance calculator: the year-indexed target-intensity step function
    (the code's own table, which it attributes to Annex IV of Regulation (EU)
    2023/1805), the fuel-to-energy conversion, the compliance-balance formula,
    the percent difference with its zero-baseline guard, and the inclusive
    compliance predicate. */
module ComplianceCalculator {

  /** Target intensity (gCO2e/MJ) before the first threshold year. */
  const BaselineIntensity: real := 91.16
  /** MJ of energy per tonne of fuel. */
  const EnergyPerTonneFuel: real := 41000.0

  /** One row of the target table: from `fromYear` on, the target is `intensity`. */
  datatype Threshold = Threshold(fromYear: int, intensity: real)

  /** The target table, by ascending threshold year. */
  const TargetTable: seq<Threshold> := [
    Threshold(2025, 89.3368),
    Threshold(2026, 87.9832),
    Threshold(2027, 85.7176),
    Threshold(2030, 78.7792),
    Threshold(2035, 68.37),
    Threshold(2040, 58.8176),
    Threshold(2045, 49.6368),
    Threshold(2050, 18.232)
  ]

  /** The target intensity for `year`, testing the thresholds from the highest
      down and returning on the first one reached. */
  function TargetIntensity(year: int): (t: real)
    ensures year < 2025 ==> t == BaselineIntensity
    ensures year >= 2050 ==> t == 18.232
    ensures 18.232 <= t <= BaselineIntensity
  {
    if year >= 2050 then TargetTable[7].intensity
    else if year >= 2045 then TargetTable[6].intensity
    else if year >= 2040 then TargetTable[5].intensity
    else if year >= 2035 then TargetTable[4].intensity
    else if year >= 2030 then TargetTable[3].intensity
    else if year >= 2027 then TargetTable[2].intensity
    else if year >= 2026 then TargetTable[1].intensity
    else if year >= 2025 then TargetTable[0].intensity
    else BaselineIntensity
  }

  /** Reference reading of a threshold table: the intensity of the greatest
      threshold year not after `year`, or `default` when there is none. */
  function TableLookup(table: seq<Threshold>, year: int, default: real): real
  {
    if table == [] || year < table[0].fromYear then default
    else TableLookup(table[1..], year, table[0].intensity)
  }

  /** Threshold years strictly increase and intensities never increase,
      starting at or below `default`. */
  predicate WellOrderedTable(table: seq<Threshold>, default: real)
  {
    table == [] ||
    (&& table[0].intensity <= default
     && (|table| > 1 ==> table[0].fromYear < table[1].fromYear)
     && WellOrderedTable(table[1..], table[0].intensity))
  }

  /** The lookup picks the row whose year range contains `year`. */
  lemma {:induction false} TableLookupPicksRow(table: seq<Threshold>, year: int, default: real, i: nat)
    requires i < |table|
    requires forall k :: 0 <= k <= i ==> table[k].fromYear <= year
    requires i + 1 == |table| || year < table[i + 1].fromYear
    ensures TableLookup(table, year, default) == table[i].intensity
  {
    if i > 0 {
      TableLookupPicksRow(table[1..], year, table[0].intensity, i - 1);
    }
  }

  /** On a well-ordered table the lookup never increases with the year. */
  lemma {:induction false} TableLookupMonotone(table: seq<Threshold>, y1: int, y2: int, default: real)
    requires WellOrderedTable(table, default)
    requires y1 <= y2
    ensures TableLookup(table, y2, default) <= TableLookup(table, y1, default)
  {
    if table != [] && y1 >= table[0].fromYear {
      TableLookupMonotone(table[1..], y1, y2, table[0].intensity);
    } else if table != [] && y2 >= table[0].fromYear {
      TableLookupBounded(table[1..], y2, table[0].intensity);
    }
  }

  lemma {:induction false} TableLookupBounded(table: seq<Threshold>, year: int, default: real)
    requires WellOrderedTable(table, default)
    ensures TableLookup(table, year, default) <= default
  {
    if table != [] && year >= table[0].fromYear {
      TableLookupBounded(table[1..], year, table[0].intensity);
    }
  }

  /** The target table is well ordered below the baseline intensity. */
  lemma TargetTableWellOrdered()
    ensures WellOrderedTable(TargetTable, BaselineIntensity)
  {
  }

  /** The if-chain agrees with reading the table as a step function. */
  lemma TargetIntensityIsTableLookup(year: int)
    ensures TargetIntensity(year) == TableLookup(TargetTable, year, BaselineIntensity)
  {
    var t := TargetTable;
    if year < 2025 {
    } else if year < 2026 {
      TableLookupPicksRow(t, year, BaselineIntensity, 0);
    } else if year < 2027 {
      TableLookupPicksRow(t, year, BaselineIntensity, 1);
    } else if year < 2030 {
      TableLookupPicksRow(t, year, BaselineIntensity, 2);
    } else if year < 2035 {
      TableLookupPicksRow(t, year, BaselineIntensity, 3);
    } else if year < 2040 {
      TableLookupPicksRow(t, year, BaselineIntensity, 4);
    } else if year < 2045 {
      TableLookupPicksRow(t, year, BaselineIntensity, 5);
    } else if year < 2050 {
      TableLookupPicksRow(t, year, BaselineIntensity, 6);
    } else {
      TableLookupPicksRow(t, year, BaselineIntensity, 7);
    }
  }

  /** Targets tighten (never loosen) as the years advance. */
  lemma TargetIntensityNonIncreasing(y1: int, y2: int)
    requires y1 <= y2
    ensures TargetIntensity(y2) <= TargetIntensity(y1)
  {
    TargetIntensityIsTableLookup(y1);
    TargetIntensityIsTableLookup(y2);
    TargetTableWellOrdered();
    TableLookupMonotone(TargetTable, y1, y2, BaselineIntensity);
  }

  /** Energy in scope (MJ) of `fuelTonnes` tonnes of fuel. */
  function EnergyInScope(fuelTonnes: real): (e: real)
    ensures e / EnergyPerTonneFuel == fuelTonnes
    ensures fuelTonnes == 0.0 ==> e == 0.0
    ensures fuelTonnes > 0.0 ==> e > 0.0
  {
    fuelTonnes * EnergyPerTonneFuel
  }

  /** The compliance balance: positive is surplus, negative is deficit. */
  function ComplianceBalance(target: real, actual: real, energy: real): (cb: real)
    ensures actual == target || energy == 0.0 ==> cb == 0.0
    ensures energy > 0.0 ==> (cb > 0.0 <==> actual < target)
    ensures energy > 0.0 ==> (cb < 0.0 <==> actual > target)
    ensures energy != 0.0 ==> cb / energy == target - actual
  {
    (target - actual) * energy
  }

  /** Percent difference of `comparison` from `baseline`; 0 when the baseline is 0. */
  function PercentDiff(comparison: real, baseline: real): (p: real)
    ensures baseline == 0.0 ==> p == 0.0
    ensures comparison == baseline ==> p == 0.0
    ensures baseline != 0.0 ==> comparison == baseline * (1.0 + p / 100.0)
    ensures baseline > 0.0 ==> (p > 0.0 <==> comparison > baseline)
    ensures baseline > 0.0 ==> (p < 0.0 <==> comparison < baseline)
  {
    if baseline == 0.0 then 0.0 else ((comparison / baseline) - 1.0) * 100.0
  }

  /** A ship or route complies when its intensity is at most the target:
      inclusive at equality, and exactly when each megajoule of energy
      leaves a non-negative balance. */
  function IsCompliant(actual: real, target: real): (c: bool)
    ensures actual == target ==> c
    ensures c <==> ComplianceBalance(target, actual, 1.0) >= 0.0
  {
    actual <= target
  }

  /** Compliance, read through the balance: for any positive energy the
      predicate holds exactly when the balance is non-negative. */
  lemma CompliantIffBalanceNonNegative(actual: real, target: real, energy: real)
    requires energy > 0.0
    ensures IsCompliant(actual, target) <==> ComplianceBalance(target, actual, energy) >= 0.0
  {
  }
}
