/** The TTL cache for forwarded queries (crates/magnetite-dns/src/cache.rs) against an unbounded
    one. Times are parameters; a put reads the clock twice. */
module DnsCache {
  import opened Ordering

  const MAX_ENTRIES := 4096

  type Response = seq<bv8>

  datatype Entry = Entry(response: Response, expiresAt: nat)

  type Cache = map<string, Entry>

  function Live(c: Cache, now: nat): Cache {
    map k | k in c && c[k].expiresAt > now :: c[k]
  }

  /** What a get answers. */
  function Lookup(c: Cache, key: string, now: nat): Option<Response> {
    if key in c && c[key].expiresAt > now then Some(c[key].response) else None
  }

  /** What a get leaves behind. */
  function AfterGet(c: Cache, key: string, now: nat): Cache {
    if key in c && c[key].expiresAt <= now then c - {key} else c
  }

  /** What a put finds after dropping what has expired, if it had to. */
  function Purged(c: Cache, now: nat): Cache {
    if |c| >= MAX_ENTRIES then Live(c, now) else c
  }

  ghost predicate Oldest(c: Cache, k: string) {
    k in c && forall j <- c :: c[k].expiresAt <= c[j].expiresAt
  }

  /** What a put may leave behind: entries tied for oldest may be evicted in any order. */
  ghost predicate AfterPut(c: Cache, key: string, e: Entry, now: nat, after: Cache) {
    var kept := Purged(c, now);
    if |kept| < MAX_ENTRIES then after == kept[key := e]
    else exists victim :: Oldest(kept, victim) && after == (kept - {victim})[key := e]
  }

  class SharedCache {
    var entries: Cache

    constructor ()
      ensures entries == map[]
    {
      entries := map[];
    }

    method Get(key: string, now: nat) returns (r: Option<Response>)
      modifies this
      ensures r == Lookup(old(entries), key, now) && entries == AfterGet(old(entries), key, now)
    {
      if key in entries {
        if entries[key].expiresAt > now {
          return Some(entries[key].response);
        }
        entries := entries - {key};
      }
      r := None;
    }

    method Put(key: string, response: Response, ttl: nat, now: nat, later: nat)
      modifies this
      ensures ttl == 0 ==> entries == old(entries)
      ensures ttl > 0 ==> AfterPut(old(entries), key, Entry(response, later + ttl), now, entries)
    {
      if ttl == 0 {
        return;
      }
      if |entries| >= MAX_ENTRIES {
        entries := map k | k in entries && entries[k].expiresAt > now :: entries[k];
      }
      if |entries| >= MAX_ENTRIES {
        var oldest := FindOldest();
        entries := entries - {oldest};
      }
      entries := entries[key := Entry(response, later + ttl)];
    }

    /** `min_by_key` over the entries, met in any order. */
    method FindOldest() returns (oldest: string)
      requires entries != map[]
      ensures Oldest(entries, oldest)
    {
      oldest :| oldest in entries;
      var unseen := entries.Keys - {oldest};
      while unseen != {}
        invariant unseen <= entries.Keys && oldest in entries
        invariant forall k <- entries :: k !in unseen ==> entries[oldest].expiresAt <= entries[k].expiresAt
        decreases |unseen|
      {
        var k :| k in unseen;
        unseen := unseen - {k};
        if entries[k].expiresAt < entries[oldest].expiresAt {
          oldest := k;
        }
      }
    }
  }

  // ---- Runs --------------------------------------------------------------------------------

  datatype Op = Get(key: string, now: nat) | Put(key: string, response: Response, ttl: nat, now: nat, later: nat)

  function Started(op: Op): nat { op.now }

  function Ended(op: Op): nat { if op.Put? then op.later else op.now }

  ghost predicate Step(c: Cache, op: Op, after: Cache) {
    match op
    case Get(key, now) => after == AfterGet(c, key, now)
    case Put(key, response, ttl, now, later) =>
      if ttl == 0 then after == c else AfterPut(c, key, Entry(response, later + ttl), now, after)
  }

  /** Operations on an empty cache, under a clock that does not go back. */
  ghost predicate IsRun(run: seq<Cache>, ops: seq<Op>) {
    && |run| == |ops| + 1 && run[0] == map[]
    && (forall i {:trigger Stepped(run, ops, i)} :: 0 <= i < |ops| ==> Stepped(run, ops, i))
    && (forall i, j :: 0 <= i < j < |ops| ==> Ended(ops[i]) <= Started(ops[j]))
  }

  ghost predicate Stepped(run: seq<Cache>, ops: seq<Op>, i: nat)
    requires i < |ops| < |run|
  {
    Step(run[i], ops[i], run[i + 1]) && Started(ops[i]) <= Ended(ops[i])
  }

  function ReferenceAfter(full: Cache, op: Op): Cache {
    if op.Get? || op.ttl == 0 then full else full[op.key := Entry(op.response, op.later + op.ttl)]
  }

  /** The unbounded cache: every key's last put that had a lifetime. */
  function Reference(ops: seq<Op>): Cache {
    if ops == [] then map[] else ReferenceAfter(Reference(ops[..|ops| - 1]), ops[|ops| - 1])
  }

  /** Everything cached is what the unbounded cache holds. */
  ghost predicate Within(c: Cache, full: Cache) {
    forall k <- c :: k in full && full[k] == c[k]
  }

  lemma StepBounds(c: Cache, op: Op, after: Cache)
    requires |c| <= MAX_ENTRIES && Step(c, op, after)
    ensures |after| <= MAX_ENTRIES
  {
    if op.Put? && op.ttl > 0 {
      var e, kept := Entry(op.response, op.later + op.ttl), Purged(c, op.now);
      assert kept.Keys <= c.Keys;
      Smaller(kept.Keys, c.Keys);
      if |kept| >= MAX_ENTRIES {
        var victim :| Oldest(kept, victim) && after == (kept - {victim})[op.key := e];
        assert (kept - {victim}).Keys == kept.Keys - {victim};
        assert after.Keys == (kept.Keys - {victim}) + {op.key};
      } else {
        assert after.Keys == kept.Keys + {op.key};
      }
    } else {
      assert after.Keys <= c.Keys;
      Smaller(after.Keys, c.Keys);
    }
  }

  lemma {:induction false} Smaller<T>(a: set<T>, b: set<T>)
    requires a <= b
    ensures |a| <= |b|
    ensures |a| == |b| ==> a == b
  {
    if a != {} {
      var x :| x in a;
      Smaller(a - {x}, b - {x});
      if |a| == |b| { assert a == (a - {x}) + {x} && b == (b - {x}) + {x}; }
    }
  }

  lemma StepStaysWithin(c: Cache, full: Cache, op: Op, after: Cache)
    requires Within(c, full) && Step(c, op, after)
    ensures Within(after, ReferenceAfter(full, op))
  {
  }

  /** At every point of every run the cache is bounded and part of the unbounded one. */
  lemma {:induction false} RunIsBoundedAndWithin(run: seq<Cache>, ops: seq<Op>, i: nat)
    requires IsRun(run, ops) && i < |run|
    ensures |run[i]| <= MAX_ENTRIES && Within(run[i], Reference(ops[..i]))
  {
    if i > 0 {
      RunIsBoundedAndWithin(run, ops, i - 1);
      assert Stepped(run, ops, i - 1);
      StepBounds(run[i - 1], ops[i - 1], run[i]);
      assert ops[..i][..i - 1] == ops[..i - 1];
      StepStaysWithin(run[i - 1], Reference(ops[..i - 1]), ops[i - 1], run[i]);
    }
  }

  /** Every hit is the key's last put that had a lifetime, and has not expired. */
  lemma HitsAreLatestAndFresh(run: seq<Cache>, ops: seq<Op>, i: nat, key: string, now: nat)
    requires IsRun(run, ops) && i < |run| && Lookup(run[i], key, now).Some?
    ensures Lookup(Reference(ops[..i]), key, now) == Lookup(run[i], key, now)
  {
    RunIsBoundedAndWithin(run, ops, i);
  }

  /** The cache is full of entries that are all live. */
  ghost predicate FullOfLive(c: Cache, now: nat) { |c| == MAX_ENTRIES && Live(c, now) == c }

  /** Another key's live entry is gone. */
  ghost predicate Loses(c: Cache, key: string, now: nat, after: Cache) {
    exists k :: k in c && c[k].expiresAt > now && k != key && k !in after
  }

  /** What a put loses: at most one live entry of another key, an oldest one of a cache full of live
      entries. */
  lemma EvictionIsALastResort(c: Cache, key: string, e: Entry, now: nat, after: Cache, k: string)
    requires |c| <= MAX_ENTRIES && AfterPut(c, key, e, now, after)
    requires k in c && c[k].expiresAt > now && k != key && k !in after
    ensures FullOfLive(c, now) && Oldest(c, k)
    ensures forall j <- c :: j != k ==> j in after && (j != key ==> after[j] == c[j])
  {
    var kept := Purged(c, now);
    assert kept.Keys <= c.Keys;
    Smaller(kept.Keys, c.Keys);
    assert kept == c;
  }

  /** A put can lose another key's live entry exactly in a cache full of live entries in which another
      key is an oldest one; it is bound to lose one exactly when, besides, its own key is not. */
  lemma PutLosesIff(c: Cache, key: string, e: Entry, now: nat)
    requires |c| <= MAX_ENTRIES
    ensures (exists after :: AfterPut(c, key, e, now, after) && Loses(c, key, now, after))
      <==> FullOfLive(c, now) && exists k :: k != key && Oldest(c, k)
    ensures (forall after :: AfterPut(c, key, e, now, after) ==> Loses(c, key, now, after))
      <==> FullOfLive(c, now) && !Oldest(c, key)
  {
    if FullOfLive(c, now) {
      forall k | Oldest(c, k) ensures EvictedFrom(c, key, e, now, k) { EvictionLoses(c, key, e, now, k); }
      var k := AnOldest(c);
      assert EvictedFrom(c, key, e, now, k);
      assert Oldest(c, key) ==> EvictedFrom(c, key, e, now, key);
      forall after | AfterPut(c, key, e, now, after) && !Oldest(c, key) ensures Loses(c, key, now, after) {
        var victim :| Oldest(c, victim) && after == Evicted(c, victim, key, e);
        assert EvictedFrom(c, key, e, now, victim);
      }
    } else {
      var after := SomeAfterPut(c, key, e, now);
      forall t | AfterPut(c, key, e, now, t) ensures !Loses(c, key, now, t) {
        forall k | k in c && c[k].expiresAt > now && k != key ensures k in t {
          if k !in t { EvictionIsALastResort(c, key, e, now, t, k); }
        }
      }
    }
  }

  function Evicted(c: Cache, victim: string, key: string, e: Entry): Cache { (c - {victim})[key := e] }

  /** A put that evicts `k` from a full cache is possible, and loses a live entry unless `k` is its key. */
  ghost predicate EvictedFrom(c: Cache, key: string, e: Entry, now: nat, k: string) {
    var after := Evicted(c, k, key, e);
    AfterPut(c, key, e, now, after) && (Loses(c, key, now, after) <==> k != key)
  }

  lemma EvictionLoses(c: Cache, key: string, e: Entry, now: nat, k: string)
    requires FullOfLive(c, now) && Oldest(c, k)
    ensures EvictedFrom(c, key, e, now, k)
  {
    var after := Evicted(c, k, key, e);
    assert Purged(c, now) == c;
    assert k in Live(c, now) && c[k].expiresAt > now;
    if k != key { assert k !in after; }
  }

  lemma AnOldest(c: Cache) returns (k: string)
    requires c != map[]
    ensures Oldest(c, k)
  {
    k :| k in c;
    var unseen := c.Keys - {k};
    while unseen != {}
      invariant unseen <= c.Keys && k in c
      invariant forall j <- c :: j !in unseen ==> c[k].expiresAt <= c[j].expiresAt
      decreases |unseen|
    {
      var j :| j in unseen;
      unseen := unseen - {j};
      if c[j].expiresAt < c[k].expiresAt { k := j; }
    }
  }

  lemma SomeAfterPut(c: Cache, key: string, e: Entry, now: nat) returns (after: Cache)
    ensures AfterPut(c, key, e, now, after)
  {
    var kept := Purged(c, now);
    if |kept| < MAX_ENTRIES {
      after := kept[key := e];
    } else {
      var k := AnOldest(kept);
      after := Evicted(kept, k, key, e);
    }
  }

  // ---- Few keys ----------------------------------------------------------------------------

  /** Nothing the unbounded cache would still answer at `now` or later is missing. */
  ghost predicate Complete(c: Cache, full: Cache, now: nat) {
    forall k <- full :: full[k].expiresAt > now ==> k in c && c[k] == full[k]
  }

  lemma StepStaysComplete(c: Cache, full: Cache, op: Op, after: Cache, now: nat)
    requires Step(c, op, after) && now <= Started(op) <= Ended(op) && |c| < MAX_ENTRIES
    requires Within(c, full) && Complete(c, full, now)
    ensures Complete(after, ReferenceAfter(full, op), Ended(op))
  {
  }

  lemma {:induction false} ReferenceGrows(ops: seq<Op>, i: nat)
    requires i <= |ops|
    ensures Reference(ops[..i]).Keys <= Reference(ops).Keys
    decreases |ops| - i
  {
    if i < |ops| {
      ReferenceGrows(ops, i + 1);
      assert ops[..i + 1][..i] == ops[..i];
    } else {
      assert ops[..i] == ops;
    }
  }

  function Clock(ops: seq<Op>, i: nat): nat
    requires i <= |ops|
  {
    if i == 0 then 0 else Ended(ops[i - 1])
  }

  lemma FewKeysNeverFill(run: seq<Cache>, ops: seq<Op>, i: nat)
    requires IsRun(run, ops) && i < |run| && |Reference(ops)| < MAX_ENTRIES
    ensures |run[i]| < MAX_ENTRIES
  {
    RunIsBoundedAndWithin(run, ops, i);
    ReferenceGrows(ops, i);
    assert run[i].Keys <= Reference(ops).Keys;
    Smaller(run[i].Keys, Reference(ops).Keys);
  }

  lemma {:induction false} FewKeysAreAllKept(run: seq<Cache>, ops: seq<Op>, i: nat)
    requires IsRun(run, ops) && i < |run| && |Reference(ops)| < MAX_ENTRIES
    ensures Complete(run[i], Reference(ops[..i]), Clock(ops, i))
  {
    if i > 0 {
      FewKeysAreAllKept(run, ops, i - 1);
      RunIsBoundedAndWithin(run, ops, i - 1);
      FewKeysNeverFill(run, ops, i - 1);
      assert Stepped(run, ops, i - 1);
      assert ops[..i][..i - 1] == ops[..i - 1];
      StepStaysComplete(run[i - 1], Reference(ops[..i - 1]), ops[i - 1], run[i], Clock(ops, i - 1));
    }
  }

  /** With fewer than 4096 keys ever cached, every get answers as the unbounded cache would. */
  lemma FewKeysAgree(run: seq<Cache>, ops: seq<Op>, i: nat, key: string, now: nat)
    requires IsRun(run, ops) && i < |run| && |Reference(ops)| < MAX_ENTRIES && now >= Clock(ops, i)
    ensures Lookup(run[i], key, now) == Lookup(Reference(ops[..i]), key, now)
  {
    FewKeysAreAllKept(run, ops, i);
    RunIsBoundedAndWithin(run, ops, i);
  }

  // ---- Exactly 4096 keys -------------------------------------------------------------------

  /** Different keys for different numbers. */
  function Name(i: nat): string { seq(i, _ => 'a') }

  /** The `i`th key is put at time zero with a lifetime of `i + 1`. */
  function PutName(i: nat): Op { Put(Name(i), [], i + 1, 0, 0) }

  function Puts(n: nat): seq<Op> { if n == 0 then [] else Puts(n - 1) + [PutName(n - 1)] }

  /** The first `n` names with their lifetimes. */
  function Names(n: nat): Cache {
    if n == 0 then map[] else Names(n - 1)[Name(n - 1) := Entry([], n)]
  }

  lemma {:induction false} NamesHold(n: nat)
    ensures |Names(n)| == n
    ensures forall k <- Names(n) :: |k| < n && Names(n)[k] == Entry([], |k| + 1)
    ensures forall i :: 0 <= i < n ==> Name(i) in Names(n)
  {
    if n > 0 {
      NamesHold(n - 1);
      assert Name(n - 1) !in Names(n - 1);
      assert Names(n).Keys == Names(n - 1).Keys + {Name(n - 1)};
    }
  }

  ghost predicate AtZero(ops: seq<Op>) { forall op <- ops :: Started(op) == Ended(op) == 0 }

  lemma Extended(run: seq<Cache>, ops: seq<Op>, op: Op, after: Cache)
    requires IsRun(run, ops) && AtZero(ops) && AtZero([op]) && Step(run[|ops|], op, after)
    ensures IsRun(run + [after], ops + [op]) && AtZero(ops + [op])
    ensures (run + [after])[|ops| + 1] == after
  {
    var more, longer := run + [after], ops + [op];
    assert op in [op];
    forall i | 0 <= i < |longer| ensures Stepped(more, longer, i) {
      if i < |ops| { assert Stepped(run, ops, i); }
    }
    forall i, j | 0 <= i < j < |longer| ensures Ended(longer[i]) <= Started(longer[j]) {
      assert longer[i] in longer;
    }
  }

  /** Filling the cache with `n` keys. */
  lemma {:induction false} Filling(n: nat) returns (run: seq<Cache>)
    requires n <= MAX_ENTRIES
    ensures |Puts(n)| == n && IsRun(run, Puts(n)) && AtZero(Puts(n)) && run[n] == Names(n)
  {
    if n == 0 {
      run := [map[]];
    } else {
      var before := Filling(n - 1);
      NamesHold(n - 1);
      assert AtZero([PutName(n - 1)]);
      Extended(before, Puts(n - 1), PutName(n - 1), Names(n));
      run := before + [Names(n)];
    }
  }

  lemma {:induction false} ReferenceOfPuts(n: nat)
    ensures Reference(Puts(n)) == Names(n)
  {
    if n > 0 {
      ReferenceOfPuts(n - 1);
      assert Puts(n)[..|Puts(n)| - 1] == Puts(n - 1);
    }
  }

  /** The bound of `FewKeysAgree` is sharp: in a run with exactly 4096 keys, refreshing one of them makes
      the cache forget another that the unbounded cache still answers. */
  lemma FullCacheForgets() returns (run: seq<Cache>, ops: seq<Op>)
    ensures IsRun(run, ops) && |Reference(ops)| == MAX_ENTRIES
    ensures Lookup(run[|ops|], Name(0), 0).None? && Lookup(Reference(ops), Name(0), 0).Some?
  {
    var n := MAX_ENTRIES;
    var before := Filling(n);
    var after := RefreshForgets(n);
    assert AtZero([PutName(n - 1)]);
    Extended(before, Puts(n), PutName(n - 1), after);
    run, ops := before + [after], Puts(n) + [PutName(n - 1)];
    ReferenceOfRefresh(n);
  }

  lemma RefreshForgets(n: nat) returns (after: Cache)
    requires n == MAX_ENTRIES
    ensures Step(Names(n), PutName(n - 1), after) && Lookup(after, Name(0), 0).None?
    ensures Lookup(Names(n), Name(0), 0).Some?
  {
    NamesHold(n);
    var c := Names(n);
    after := Evicted(c, Name(0), Name(n - 1), Entry([], n));
    assert Live(c, 0) == c && Oldest(c, Name(0));
    assert |Name(0)| != |Name(n - 1)|;
  }

  lemma ReferenceOfRefresh(n: nat)
    requires n > 0
    ensures Reference(Puts(n) + [PutName(n - 1)]) == Names(n) && |Names(n)| == n
  {
    var ops := Puts(n) + [PutName(n - 1)];
    assert ops[..|ops| - 1] == Puts(n);
    ReferenceOfPuts(n);
    NamesHold(n);
  }
}
