/** The pool store: pools are created with their members in one step and are
    never updated or deleted. A pool's id is its position; member ids are
    handed out from a running count of all members stored so far. */
module PoolRepository {

  import opened Outcomes
  import opened Domain
  import opened Seqs

  type PoolStore = seq<Pool>

  /** The number of members stored across all pools. */
  function MemberCount(pools: PoolStore): nat
  {
    if pools == [] then 0 else MemberCount(pools[..|pools| - 1]) + |pools[|pools| - 1].members|
  }

  /** The store's invariant: pool ids are positions, every member points at
      its own pool, and every member id was handed out already. */
  predicate Wf(pools: PoolStore)
  {
    forall i :: 0 <= i < |pools| ==>
      && pools[i].id == i
      && forall k :: 0 <= k < |pools[i].members| ==>
           pools[i].members[k].poolId == i && pools[i].members[k].id < MemberCount(pools)
  }

  /** The cbAfter a member is stored with: the supplied one, else cbBefore. */
  function StoredCbAfter(m: MemberRecord): real
  {
    if m.cbAfter.Some? then m.cbAfter.value else m.cbBefore
  }

  /** Stores a new pool holding one member per requested member, in order. */
  function Create(pools: PoolStore, year: int, members: seq<MemberRecord>): (r: (Pool, PoolStore))
    ensures r.1 == pools + [r.0]
    ensures r.0.year == year && |r.0.members| == |members|
    ensures forall k :: 0 <= k < |members| ==>
      && r.0.members[k].shipId == members[k].shipId
      && r.0.members[k].cbBefore == members[k].cbBefore
      && (members[k].cbAfter.Some? ==> r.0.members[k].cbAfter == members[k].cbAfter.value)
      && (members[k].cbAfter.None? ==> r.0.members[k].cbAfter == members[k].cbBefore)
      && r.0.members[k].poolId == r.0.id
    ensures Wf(pools) ==> Wf(r.1)
    ensures Wf(pools) ==> forall i :: 0 <= i < |pools| ==> pools[i].id != r.0.id
    ensures Wf(pools) ==> forall i, j, k :: 0 <= i < |pools| && 0 <= j < |pools[i].members| && 0 <= k < |members| ==>
      pools[i].members[j].id != r.0.members[k].id
  {
    var base := MemberCount(pools);
    var id := |pools|;
    var stored := seq(|members|, k requires 0 <= k < |members| =>
      PoolMember(base + k, id, members[k].shipId, members[k].cbBefore, StoredCbAfter(members[k])));
    var pool := Pool(id, year, stored);
    assert (pools + [pool])[..|pools|] == pools;
    (pool, pools + [pool])
  }

  function InYear(year: int): Pool -> bool
  {
    (p: Pool) => p.year == year
  }

  function HasPoolId(id: nat): Pool -> bool
  {
    (p: Pool) => p.id == id
  }

  /** Every pool of a year, each with all its members. */
  function FindByYear(pools: PoolStore, year: int): (r: seq<Pool>)
    ensures forall k :: 0 <= k < |r| ==> r[k] in pools && r[k].year == year
    ensures forall i :: 0 <= i < |pools| && pools[i].year == year ==> pools[i] in r
  {
    Filter(pools, InYear(year))
  }

  /** A pool of the year is listed exactly as often as it is stored, and a
      pool of another year is never listed. */
  lemma FindByYearCounts(pools: PoolStore, year: int, p: Pool)
    ensures multiset(FindByYear(pools, year))[p] == if p.year == year then multiset(pools)[p] else 0
  {
    FilterMultiset(pools, InYear(year), p);
  }

  /** The pool with this id, or none. */
  function FindById(pools: PoolStore, id: nat): (r: Option<Pool>)
    ensures r.Some? ==> r.value in pools && r.value.id == id
    ensures r.None? <==> forall i :: 0 <= i < |pools| ==> pools[i].id != id
    ensures Wf(pools) ==> (r.Some? <==> id < |pools|) && (id < |pools| ==> r == Some(pools[id]))
  {
    assert Wf(pools) && id < |pools| ==> HasPoolId(id)(pools[id]);
    match FirstIndex(pools, HasPoolId(id))
    case None => None
    case Some(i) => Some(pools[i])
  }

  /** Creating a pool adds it to its year's listing and to the id lookup, and
      every earlier pool reads back as before. */
  lemma CreateThenFind(pools: PoolStore, year: int, members: seq<MemberRecord>, y: int, id: nat)
    requires Wf(pools)
    ensures var (pool, pools') := Create(pools, year, members);
      && FindByYear(pools', y) == FindByYear(pools, y) + (if year == y then [pool] else [])
      && FindById(pools', pool.id) == Some(pool)
      && (id != pool.id ==> FindById(pools', id) == FindById(pools, id))
  {
    var (pool, pools') := Create(pools, year, members);
    FilterAppend(pools, [pool], InYear(y));
    assert Filter([pool], InYear(y)) == (if year == y then [pool] else []) + Filter([pool][1..], InYear(y));
  }
}
