/** The compliance-balance store: a table of rows with a unique
    (shipId, year) key. Row ids are positions (rows are never deleted), so a
    fresh id is the current row count. */
module ComplianceRepository {

  import opened Outcomes
  import opened Domain

  type Store = seq<ComplianceBalance>

  /** The store's invariant: ids are positions and (shipId, year) is unique. */
  predicate Wf(rows: Store)
  {
    && (forall i :: 0 <= i < |rows| ==> rows[i].id == i)
    && (forall i, j :: 0 <= i < j < |rows| ==>
          rows[i].shipId != rows[j].shipId || rows[i].year != rows[j].year)
  }

  predicate HasKey(row: ComplianceBalance, shipId: string, year: int)
  {
    row.shipId == shipId && row.year == year
  }

  /** Position of the row for (shipId, year), if there is one. */
  function IndexOfKey(rows: Store, shipId: string, year: int): (r: Option<nat>)
    ensures r.Some? ==> r.value < |rows| && HasKey(rows[r.value], shipId, year)
    ensures r.None? <==> forall i :: 0 <= i < |rows| ==> !HasKey(rows[i], shipId, year)
  {
    if rows == [] then None
    else if HasKey(rows[|rows| - 1], shipId, year) then Some(|rows| - 1)
    else IndexOfKey(rows[..|rows| - 1], shipId, year)
  }

  /** The row for (shipId, year), or none when it was never written. */
  function FindByShipAndYear(rows: Store, shipId: string, year: int): (r: Option<ComplianceBalance>)
    ensures r.Some? ==> r.value in rows && HasKey(r.value, shipId, year)
    ensures r.None? <==> forall i :: 0 <= i < |rows| ==> !HasKey(rows[i], shipId, year)
    ensures Wf(rows) ==> forall i :: 0 <= i < |rows| && HasKey(rows[i], shipId, year) ==> r == Some(rows[i])
  {
    match IndexOfKey(rows, shipId, year)
    case None => None
    case Some(i) => Some(rows[i])
  }

  /** Inserts a new row; the unique key rejects a second row for a ship-year. */
  function Create(rows: Store, shipId: string, year: int, cb: real): (r: Outcome<(ComplianceBalance, Store)>)
    ensures r.Err? <==> FindByShipAndYear(rows, shipId, year).Some?
    ensures r.Err? ==> r.error == DuplicateComplianceKey(shipId, year)
    ensures r.Ok? ==> r.value.1 == rows + [r.value.0]
    ensures r.Ok? ==> r.value.0 == ComplianceBalance(|rows|, shipId, year, cb)
    ensures r.Ok? && Wf(rows) ==> Wf(r.value.1)
  {
    if FindByShipAndYear(rows, shipId, year).Some? then Err(DuplicateComplianceKey(shipId, year))
    else
      var row := ComplianceBalance(|rows|, shipId, year, cb);
      Ok((row, rows + [row]))
  }

  /** A partial update; absent fields keep their value. */
  datatype Patch = Patch(shipId: Option<string>, year: Option<int>, cbGco2eq: Option<real>)

  function Patched(row: ComplianceBalance, patch: Patch): ComplianceBalance
  {
    ComplianceBalance(
      row.id,
      if patch.shipId.Some? then patch.shipId.value else row.shipId,
      if patch.year.Some? then patch.year.value else row.year,
      if patch.cbGco2eq.Some? then patch.cbGco2eq.value else row.cbGco2eq)
  }

  /** Position of the row with this id, if there is one. */
  function IndexOfId(rows: Store, id: nat): (r: Option<nat>)
    ensures r.Some? ==> r.value < |rows| && rows[r.value].id == id
    ensures r.None? <==> forall i :: 0 <= i < |rows| ==> rows[i].id != id
  {
    if rows == [] then None
    else if rows[|rows| - 1].id == id then Some(|rows| - 1)
    else IndexOfId(rows[..|rows| - 1], id)
  }

  /** Updates the row with id `id`; a missing id or a patch that would
      duplicate another row's key is rejected. */
  function Update(rows: Store, id: nat, patch: Patch): (r: Outcome<(ComplianceBalance, Store)>)
    ensures (forall i :: 0 <= i < |rows| ==> rows[i].id != id) ==> r == Err(ComplianceIdNotFound(id))
    ensures Wf(rows) && r.Ok? ==>
      && id < |rows|
      && r.value.0 == Patched(rows[id], patch)
      && r.value.1 == rows[id := r.value.0]
      && Wf(r.value.1)
    ensures Wf(rows) && id < |rows| ==>
      var row := Patched(rows[id], patch);
      (r.Ok? <==> forall j :: 0 <= j < |rows| && j != id ==> !HasKey(rows[j], row.shipId, row.year))
    ensures Wf(rows) && id < |rows| && r.Err? ==>
      r.error == DuplicateComplianceKey(Patched(rows[id], patch).shipId, Patched(rows[id], patch).year)
  {
    match IndexOfId(rows, id)
    case None => Err(ComplianceIdNotFound(id))
    case Some(i) =>
      var row := Patched(rows[i], patch);
      var clash := IndexOfKey(rows, row.shipId, row.year);
      if clash.Some? && clash.value != i then Err(DuplicateComplianceKey(row.shipId, row.year))
      else
        var rows' := rows[i := row];
        Ok((row, rows'))
  }

  /** Writes `cb` for (shipId, year): overwrites only the balance of an
      existing row, or inserts a new row. */
  function Upsert(rows: Store, shipId: string, year: int, cb: real): (r: (ComplianceBalance, Store))
    ensures HasKey(r.0, shipId, year) && r.0.cbGco2eq == cb
    ensures || r.1 == rows + [r.0]
            || (&& |r.1| == |rows|
                && forall i :: 0 <= i < |rows| ==>
                     r.1[i] == rows[i] || (HasKey(rows[i], shipId, year) && r.1[i] == r.0))
    ensures Wf(rows) ==> Wf(r.1)
  {
    match IndexOfKey(rows, shipId, year)
    case Some(i) =>
      var row := rows[i].(cbGco2eq := cb);
      (row, rows[i := row])
    case None =>
      var row := ComplianceBalance(|rows|, shipId, year, cb);
      (row, rows + [row])
  }

  /** After an upsert the key reads back the written balance, an existing
      row keeps its id, and every other ship-year reads back as before. */
  lemma UpsertReadBack(rows: Store, shipId: string, year: int, cb: real)
    requires Wf(rows)
    ensures var (row, rows') := Upsert(rows, shipId, year, cb);
      && FindByShipAndYear(rows', shipId, year) == Some(row)
      && row.cbGco2eq == cb
      && (FindByShipAndYear(rows, shipId, year).Some? ==>
            row == FindByShipAndYear(rows, shipId, year).value.(cbGco2eq := cb))
      && (FindByShipAndYear(rows, shipId, year).None? ==> row.id == |rows| && rows' == rows + [row])
      && (forall s, y :: (s, y) != (shipId, year) ==>
            FindByShipAndYear(rows', s, y) == FindByShipAndYear(rows, s, y))
  {
    var (row, rows') := Upsert(rows, shipId, year, cb);
    assert Wf(rows');
    forall s, y | (s, y) != (shipId, year)
      ensures FindByShipAndYear(rows', s, y) == FindByShipAndYear(rows, s, y)
    {
      var before := FindByShipAndYear(rows, s, y);
      if before.Some? {
        var i :| 0 <= i < |rows| && rows[i] == before.value;
        assert rows'[i] == rows[i];
      } else {
        forall i | 0 <= i < |rows'|
          ensures !HasKey(rows'[i], s, y)
        {
          if i < |rows| && rows'[i] != rows[i] {
            assert HasKey(rows'[i], shipId, year);
          }
        }
      }
    }
  }
}
