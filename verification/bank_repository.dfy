/** The banking ledger: an append-only sequence of entries whose ids are
    their positions, so insertion order is id order and "newest first" is
    descending id. Entries are never deleted; the only in-place change is
    setting an entry's `isApplied` flag. */
module BankRepository {

  import opened Outcomes
  import opened Domain
  import opened Seqs

  type Ledger = seq<BankEntry>

  /** The ledger's invariant: every entry's id is its position. */
  predicate Wf(ledger: Ledger)
  {
    forall i :: 0 <= i < |ledger| ==> ledger[i].id == i
  }

  function AmountOf(e: BankEntry): real { e.amountGco2eq }

  function OfShip(shipId: string): BankEntry -> bool
  {
    (e: BankEntry) => e.shipId == shipId
  }

  function OfShipAndYear(shipId: string, year: int): BankEntry -> bool
  {
    (e: BankEntry) => e.shipId == shipId && e.year == year
  }

  function OfYear(year: int): BankEntry -> bool
  {
    (e: BankEntry) => e.year == year
  }

  /** The entries counted as available: this ship's, not applied, any year. */
  function UnappliedOf(shipId: string): BankEntry -> bool
  {
    (e: BankEntry) => e.shipId == shipId && !e.isApplied
  }

  /** Strictly increasing ids: insertion order. */
  predicate OldestFirst(s: seq<BankEntry>)
  {
    forall a, b :: 0 <= a < b < |s| ==> s[a].id < s[b].id
  }

  /** Strictly decreasing ids: newest first. */
  predicate NewestFirst(s: seq<BankEntry>)
  {
    forall a, b :: 0 <= a < b < |s| ==> s[b].id < s[a].id
  }

  lemma {:induction false} FilterKeepsOldestFirst(s: seq<BankEntry>, p: BankEntry -> bool)
    requires OldestFirst(s)
    ensures OldestFirst(Filter(s, p))
  {
    if s != [] {
      var tail := s[1..];
      assert OldestFirst(tail) by {
        forall a, b | 0 <= a < b < |tail|
          ensures tail[a].id < tail[b].id
        {
          assert tail[a] == s[a + 1] && tail[b] == s[b + 1];
        }
      }
      FilterKeepsOldestFirst(tail, p);
      var rest := Filter(tail, p);
      forall k | 0 <= k < |rest|
        ensures s[0].id < rest[k].id
      {
        EntryAbove(tail, rest[k], s[0].id);
      }
      OldestFirstCons(s[0], rest, p(s[0]));
    }
  }

  /** An entry of a sequence whose ids all exceed `bound` has an id above it. */
  lemma EntryAbove(t: seq<BankEntry>, x: BankEntry, bound: nat)
    requires forall j :: 0 <= j < |t| ==> bound < t[j].id
    requires x in t
    ensures bound < x.id
  {
  }

  /** Putting, or not, an entry older than all others in front keeps the order. */
  lemma OldestFirstCons(h: BankEntry, rest: seq<BankEntry>, keep: bool)
    requires OldestFirst(rest)
    requires forall k :: 0 <= k < |rest| ==> h.id < rest[k].id
    ensures OldestFirst((if keep then [h] else []) + rest)
  {
    if keep {
      var r := [h] + rest;
      forall a, b | 0 <= a < b < |r|
        ensures r[a].id < r[b].id
      {
        assert r[b] == rest[b - 1];
        if a > 0 {
          assert r[a] == rest[a - 1];
        }
      }
    } else {
      assert [] + rest == rest;
    }
  }

  lemma ReverseNewestFirst(s: seq<BankEntry>)
    requires OldestFirst(s)
    ensures NewestFirst(Reverse(s))
  {
  }

  /** Entries matching `p`, newest first. */
  function NewestMatching(ledger: Ledger, p: BankEntry -> bool): (r: seq<BankEntry>)
    ensures forall k :: 0 <= k < |r| ==> r[k] in ledger && p(r[k])
    ensures forall i :: 0 <= i < |ledger| && p(ledger[i]) ==> ledger[i] in r
    ensures Wf(ledger) ==> NewestFirst(r)
  {
    var kept := Filter(ledger, p);
    var r := Reverse(kept);
    ReverseMembers(kept);
    assert Wf(ledger) ==> NewestFirst(r) by {
      if Wf(ledger) {
        FilterKeepsOldestFirst(ledger, p);
        ReverseNewestFirst(kept);
      }
    }
    r
  }

  /** Every entry of one ship, newest first. */
  function FindByShip(ledger: Ledger, shipId: string): (r: seq<BankEntry>)
    ensures forall k :: 0 <= k < |r| ==> r[k] in ledger && r[k].shipId == shipId
    ensures forall i :: 0 <= i < |ledger| && ledger[i].shipId == shipId ==> ledger[i] in r
    ensures Wf(ledger) ==> NewestFirst(r)
  {
    NewestMatching(ledger, OfShip(shipId))
  }

  /** Every entry of one ship for one year, newest first. */
  function FindByShipAndYear(ledger: Ledger, shipId: string, year: int): (r: seq<BankEntry>)
    ensures forall k :: 0 <= k < |r| ==> r[k] in ledger && r[k].shipId == shipId && r[k].year == year
    ensures forall i :: 0 <= i < |ledger| && ledger[i].shipId == shipId && ledger[i].year == year ==>
      ledger[i] in r
    ensures Wf(ledger) ==> NewestFirst(r)
  {
    NewestMatching(ledger, OfShipAndYear(shipId, year))
  }

  /** The ship-year query is the ship query narrowed to the year. */
  lemma ShipAndYearNarrowsShip(ledger: Ledger, shipId: string, year: int)
    ensures FindByShipAndYear(ledger, shipId, year) == Filter(FindByShip(ledger, shipId), OfYear(year))
  {
    FilterReverse(Filter(ledger, OfShip(shipId)), OfYear(year));
    FilterFilter(ledger, OfShip(shipId), OfYear(year), OfShipAndYear(shipId, year));
  }

  /** The banked surplus available to a ship: the sum of its unapplied
      entries across all years. */
  function FindAvailableBalance(ledger: Ledger, shipId: string): (b: real)
    ensures (forall i :: 0 <= i < |ledger| ==> !UnappliedOf(shipId)(ledger[i])) ==> b == 0.0
  {
    var kept := Filter(ledger, UnappliedOf(shipId));
    assert (forall i :: 0 <= i < |ledger| ==> !UnappliedOf(shipId)(ledger[i])) ==> kept == [] by {
      if forall i :: 0 <= i < |ledger| ==> !UnappliedOf(shipId)(ledger[i]) {
        FilterNone(ledger, UnappliedOf(shipId));
      }
    }
    Sum(kept, AmountOf)
  }

  function IsUnapplied(e: BankEntry): bool { !e.isApplied }

  /** The available balance is the ship's newest-first listing narrowed to
      its unapplied entries and summed: the order the query leaves to the
      database does not change the total. */
  lemma AvailableBalanceOfShipListing(ledger: Ledger, shipId: string)
    ensures FindAvailableBalance(ledger, shipId) == Sum(Filter(FindByShip(ledger, shipId), IsUnapplied), AmountOf)
  {
    var matching := Filter(ledger, OfShip(shipId));
    FilterReverse(matching, IsUnapplied);
    FilterFilter(ledger, OfShip(shipId), IsUnapplied, UnappliedOf(shipId));
    SumReverse(Filter(matching, IsUnapplied), AmountOf);
  }

  /** Appends an entry with the given fields and a fresh id. */
  function Create(ledger: Ledger, shipId: string, year: int, amount: real, isApplied: bool): (r: (BankEntry, Ledger))
    ensures r.1 == ledger + [r.0]
    ensures r.0.shipId == shipId && r.0.year == year && r.0.amountGco2eq == amount && r.0.isApplied == isApplied
    ensures Wf(ledger) ==> Wf(r.1) && forall i :: 0 <= i < |ledger| ==> ledger[i].id != r.0.id
  {
    var e := BankEntry(|ledger|, shipId, year, amount, isApplied);
    (e, ledger + [e])
  }

  /** Creating an entry raises its ship's available balance by its amount
      when it is unapplied, and changes no other balance. */
  lemma CreateAvailableBalance(ledger: Ledger, shipId: string, year: int, amount: real, isApplied: bool, s: string)
    ensures var ledger' := Create(ledger, shipId, year, amount, isApplied).1;
      FindAvailableBalance(ledger', s)
        == FindAvailableBalance(ledger, s) + (if shipId == s && !isApplied then amount else 0.0)
  {
    var (e, ledger') := Create(ledger, shipId, year, amount, isApplied);
    SumFilterSnoc(ledger, e, UnappliedOf(s), AmountOf);
  }

  function HasId(id: nat): BankEntry -> bool
  {
    (e: BankEntry) => e.id == id
  }

  /** Sets `isApplied` on the entry with id `id`; a missing id is an error. */
  function MarkAsApplied(ledger: Ledger, id: nat): (r: Outcome<(BankEntry, Ledger)>)
    ensures (forall i :: 0 <= i < |ledger| ==> ledger[i].id != id) <==> r == Err(BankEntryNotFound(id))
    ensures Wf(ledger) ==> (r.Ok? <==> id < |ledger|)
    ensures Wf(ledger) && r.Ok? ==>
      && id < |ledger|
      && r.value.0 == ledger[id].(isApplied := true)
      && r.value.1 == ledger[id := r.value.0]
      && Wf(r.value.1)
  {
    assert Wf(ledger) && id < |ledger| ==> HasId(id)(ledger[id]);
    match FirstIndex(ledger, HasId(id))
    case None => Err(BankEntryNotFound(id))
    case Some(i) =>
      var e := ledger[i].(isApplied := true);
      Ok((e, ledger[i := e]))
  }

  /** Marking lowers the entry's ship's available balance by its amount if
      it was unapplied, and changes no other balance. */
  lemma MarkAsAppliedAvailableBalance(ledger: Ledger, id: nat, s: string)
    requires Wf(ledger) && id < |ledger|
    ensures var ledger' := MarkAsApplied(ledger, id).value.1;
      var e := ledger[id];
      FindAvailableBalance(ledger', s)
        == FindAvailableBalance(ledger, s) - (if e.shipId == s && !e.isApplied then e.amountGco2eq else 0.0)
  {
    SumFilterUpdate(ledger, id, ledger[id].(isApplied := true), UnappliedOf(s), AmountOf);
  }

  /** Marking twice is marking once. */
  lemma MarkAsAppliedIdempotent(ledger: Ledger, id: nat)
    requires Wf(ledger)
    ensures var r := MarkAsApplied(ledger, id);
      r.Ok? ==> MarkAsApplied(r.value.1, id) == r
  {
    var r := MarkAsApplied(ledger, id);
    if r.Ok? {
      assert r.value.1[id := r.value.0] == r.value.1;
    }
  }
}
