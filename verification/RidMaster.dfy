/** The in-memory RID master (crates/magnetite-addc/src/fsmo.rs): ranges handed to domain
    controllers from one watermark, in saturating 32-bit arithmetic. */
module RidMaster {

  const U32_MAX := 0xFFFF_FFFF

  type U32 = x: int | 0 <= x <= U32_MAX

  function SaturatingAdd(a: U32, b: U32): U32 { if a + b > U32_MAX then U32_MAX else a + b }

  datatype RidPool = RidPool(base: U32, count: U32) {
    function End(): U32 { SaturatingAdd(base, count) }

    predicate Contains(rid: U32) { base <= rid < End() }
  }

  class RidAllocator {
    var nextAvailable: U32
    var poolSize: U32
    var assignments: map<string, seq<RidPool>>

    /** A pool size of zero is taken as one. */
    constructor WithPoolSize(first: U32, size: U32)
      ensures nextAvailable == first && poolSize == (if size == 0 then 1 else size) && assignments == map[]
    {
      nextAvailable, poolSize, assignments := first, if size == 0 then 1 else size, map[];
    }

    ghost function Contents(): State
      reads this
    {
      State(nextAvailable, poolSize, assignments)
    }

    method Allocate(dsa: string) returns (pool: RidPool)
      modifies this
      ensures (Contents(), pool) == Allocated(old(Contents()), dsa)
    {
      pool := RidPool(nextAvailable, poolSize);
      nextAvailable := SaturatingAdd(nextAvailable, poolSize);
      if dsa !in assignments {
        assignments := assignments[dsa := []];
      }
      assignments := assignments[dsa := assignments[dsa] + [pool]];
      assert assignments == old(assignments)[dsa := PoolsFor(old(Contents()), dsa) + [pool]];
    }
  }

  datatype State = State(next: U32, size: U32, assignments: map<string, seq<RidPool>>)

  function PoolsFor(s: State, dsa: string): seq<RidPool> {
    if dsa in s.assignments then s.assignments[dsa] else []
  }

  function Allocated(s: State, dsa: string): (State, RidPool) {
    var pool := RidPool(s.next, s.size);
    (State(pool.End(), s.size, s.assignments[dsa := PoolsFor(s, dsa) + [pool]]), pool)
  }

  /** Allocations to `dsas` in turn, from a fresh master. */
  ghost predicate IsRun(run: seq<State>, dsas: seq<string>, pools: seq<RidPool>) {
    && |run| == |dsas| + 1 && |pools| == |dsas| && run[0].size > 0 && run[0].assignments == map[]
    && forall i {:trigger Step(run, dsas, pools, i)} :: 0 <= i < |dsas| ==> Step(run, dsas, pools, i)
  }

  ghost predicate Step(run: seq<State>, dsas: seq<string>, pools: seq<RidPool>, i: nat)
    requires i < |dsas| == |pools| && |dsas| < |run|
  {
    (run[i + 1], pools[i]) == Allocated(run[i], dsas[i])
  }

  /** A RID is in one of the first `n` pools exactly when it is below the watermark then, and no
      other of them holds it. */
  lemma {:induction false} PoolsPartition(run: seq<State>, dsas: seq<string>, pools: seq<RidPool>, n: nat, rid: U32)
    requires IsRun(run, dsas, pools) && n < |run|
    ensures run[0].next <= run[n].next && run[n].size == run[0].size
    ensures run[0].next <= rid < run[n].next <==> exists i :: 0 <= i < n && pools[i].Contains(rid)
    ensures forall i, j :: 0 <= i < j < n ==> !(pools[i].Contains(rid) && pools[j].Contains(rid))
  {
    if n > 0 {
      PoolsPartition(run, dsas, pools, n - 1, rid);
      assert Step(run, dsas, pools, n - 1);
      assert pools[n - 1].Contains(rid) <==> run[n - 1].next <= rid < run[n].next;
    }
  }

  /** The pools `dsa` was given, in order. */
  function Given(dsas: seq<string>, pools: seq<RidPool>, n: nat, dsa: string): seq<RidPool>
    requires n <= |dsas| == |pools|
  {
    if n == 0 then []
    else Given(dsas, pools, n - 1, dsa) + if dsas[n - 1] == dsa then [pools[n - 1]] else []
  }

  /** The record kept for a controller is what it was given. */
  lemma {:induction false} RecordsAreExact(run: seq<State>, dsas: seq<string>, pools: seq<RidPool>, n: nat, dsa: string)
    requires IsRun(run, dsas, pools) && n < |run|
    ensures PoolsFor(run[n], dsa) == Given(dsas, pools, n, dsa)
  {
    if n > 0 {
      RecordsAreExact(run, dsas, pools, n - 1, dsa);
      assert Step(run, dsas, pools, n - 1);
    }
  }

  lemma {:induction false} GivenComesFrom(dsas: seq<string>, pools: seq<RidPool>, n: nat, dsa: string)
    requires n <= |dsas| == |pools|
    ensures forall p <- Given(dsas, pools, n, dsa) :: exists i :: 0 <= i < n && dsas[i] == dsa && pools[i] == p
  {
    if n > 0 { GivenComesFrom(dsas, pools, n - 1, dsa); }
  }

  /** No RID is in the records of two controllers. */
  lemma ControllersNeverShare(run: seq<State>, dsas: seq<string>, pools: seq<RidPool>, n: nat,
                              a: string, b: string, p: RidPool, q: RidPool, rid: U32)
    requires IsRun(run, dsas, pools) && n < |run| && a != b
    requires p in PoolsFor(run[n], a) && q in PoolsFor(run[n], b)
    ensures !(p.Contains(rid) && q.Contains(rid))
  {
    RecordsAreExact(run, dsas, pools, n, a);
    RecordsAreExact(run, dsas, pools, n, b);
    GivenComesFrom(dsas, pools, n, a);
    GivenComesFrom(dsas, pools, n, b);
    PoolsPartition(run, dsas, pools, n, rid);
    var i :| 0 <= i < n && dsas[i] == a && pools[i] == p;
    var j :| 0 <= j < n && dsas[j] == b && pools[j] == q;
  }

  /** A pool holds as many RIDs as it says exactly while the watermark has room; past that pools come
      short, and in the end empty. */
  lemma PoolIsFullIff(s: State, dsa: string)
    requires s.size > 0
    ensures var pool := Allocated(s, dsa).1;
      (pool.End() - pool.base == pool.count <==> s.next + s.size <= U32_MAX)
      && ((exists rid: U32 :: pool.Contains(rid)) <==> s.next < U32_MAX)
  {
    var pool := Allocated(s, dsa).1;
    if s.next < U32_MAX { assert pool.Contains(s.next); }
  }

  /** At the end of the RID space: a pool of one RID that says five hundred, and then an empty one. */
  lemma LastPools(dsa: string)
    ensures var (s, pool) := Allocated(State(U32_MAX - 1, 500, map[]), dsa);
      pool.count == 500 && pool.End() - pool.base == 1
      && var next := Allocated(s, dsa).1; next.count == 500 && forall rid: U32 :: !next.Contains(rid)
  {
    PoolIsFullIff(State(U32_MAX - 1, 500, map[]), dsa);
    PoolIsFullIff(Allocated(State(U32_MAX - 1, 500, map[]), dsa).0, dsa);
  }
}
