/** RID allocation: one durable counter per store, and per front-end two queues of reserved
    ranges, refilled in the background and lost on restart. */
module RidAllocation {
  import opened Ordering

  const RID_BLOCK: nat := 256
  const RID_WATERMARK: nat := 64
  const RID_POOL_BLOCK: nat := 4096
  const RID_POOL_WATERMARK: nat := 1024
  const U32_MAX: nat := 0xFFFF_FFFF

  datatype RefillKind = Single | Pool

  /** A reserved range, of which `[next, end)` is unspent. */
  datatype Range = Range(next: nat, end: nat)

  function Size(r: Range): nat {
    if r.next <= r.end then r.end - r.next else 0
  }

  function Remaining(q: seq<Range>): nat {
    if q == [] then 0 else Remaining(q[..|q| - 1]) + Size(q[|q| - 1])
  }

  /** Drop the ranges at the front that cannot hold `size` more RIDs. */
  function Fitting(q: seq<Range>, size: nat): seq<Range> {
    if q != [] && Size(q[0]) < size then Fitting(q[1..], size) else q
  }

  /** Take `size` RIDs from the first range that can hold them. */
  function Take(q: seq<Range>, size: nat): (r: (Option<nat>, seq<Range>)) {
    var f := Fitting(q, size);
    if f == [] then (None, f) else (Some(f[0].next), f[0 := f[0].(next := f[0].next + size)])
  }

  class DbRidAllocator {
    var ranges: seq<Range>
    var poolRanges: seq<Range>
    var refills: seq<RefillKind>

    constructor ()
      ensures ranges == [] && poolRanges == [] && refills == []
    {
      ranges, poolRanges, refills := [], [], [];
    }

    /** Mint one RID: the first unspent one, or none when the queue is dry; a refill is asked for
        whenever the queue had fallen to the watermark. */
    method Allocate() returns (rid: Option<nat>)
      modifies this`ranges, this`refills
      ensures (rid, ranges) == Take(old(ranges), 1)
      ensures Remaining(Fitting(old(ranges), 1)) <= RID_WATERMARK || rid.None? ==>
                old(refills) < refills && forall i :: |old(refills)| <= i < |refills| ==> refills[i].Single?
      ensures Remaining(Fitting(old(ranges), 1)) > RID_WATERMARK && rid.Some? ==> refills == old(refills)
    {
      while ranges != [] && ranges[0].next >= ranges[0].end
        invariant Fitting(ranges, 1) == Fitting(old(ranges), 1)
        invariant refills == old(refills)
        decreases |ranges|
      {
        ranges := ranges[1..];
      }
      var remaining := SumRemaining(ranges);
      if remaining <= RID_WATERMARK {
        refills := refills + [Single];
      }
      if ranges != [] {
        rid := Some(ranges[0].next);
        ranges := ranges[0 := ranges[0].(next := ranges[0].next + 1)];
      } else {
        refills := refills + [Single];
        rid := None;
      }
    }

    /** Grant a whole pool from the first range that can hold it, discarding smaller ones. */
    method AllocatePool(requested: nat) returns (pool: Option<Range>)
      modifies this`poolRanges, this`refills
      ensures var size := if requested < 1 then 1 else requested;
        && poolRanges == Take(old(poolRanges), size).1
        && pool == (match Take(old(poolRanges), size).0 case Some(b) => Some(Range(b, b + size)) case None => None)
        && (Remaining(Fitting(old(poolRanges), size)) > RID_POOL_WATERMARK && pool.Some? ==> refills == old(refills))
        && (Remaining(Fitting(old(poolRanges), size)) <= RID_POOL_WATERMARK || pool.None? ==>
              old(refills) < refills && forall i :: |old(refills)| <= i < |refills| ==> refills[i].Pool?)
    {
      var size := if requested < 1 then 1 else requested;
      while poolRanges != [] && Size(poolRanges[0]) < size
        invariant Fitting(poolRanges, size) == Fitting(old(poolRanges), size)
        invariant refills == old(refills)
        decreases |poolRanges|
      {
        poolRanges := poolRanges[1..];
      }
      var remaining := SumRemaining(poolRanges);
      if remaining <= RID_POOL_WATERMARK {
        refills := refills + [Pool];
      }
      if poolRanges != [] {
        pool := Some(Range(poolRanges[0].next, poolRanges[0].next + size));
        poolRanges := poolRanges[0 := poolRanges[0].(next := poolRanges[0].next + size)];
      } else {
        refills := refills + [Pool];
        pool := None;
      }
    }

    method SumRemaining(q: seq<Range>) returns (sum: nat)
      ensures sum == Remaining(q)
    {
      sum := 0;
      for i := 0 to |q|
        invariant sum == Remaining(q[..i])
      {
        assert q[..i + 1][..i] == q[..i];
        sum := sum + Size(q[i]);
      }
      assert q[..|q|] == q;
    }

    /** The background refiller's push of a block it reserved. */
    method Refill(kind: RefillKind, base: nat)
      modifies this`ranges, this`poolRanges
      ensures kind.Single? ==> ranges == old(ranges) + [Range(base, base + RID_BLOCK)] && poolRanges == old(poolRanges)
      ensures kind.Pool? ==>
        poolRanges == old(poolRanges) + [Range(base, base + RID_POOL_BLOCK)] && ranges == old(ranges)
    {
      if kind.Single? {
        ranges := ranges + [Range(base, base + RID_BLOCK)];
      } else {
        poolRanges := poolRanges + [Range(base, base + RID_POOL_BLOCK)];
      }
    }
  }

  // ---- What a queue holds ------------------------------------------------------------------

  predicate Within(r: Range, i: nat) {
    r.next <= i < r.end
  }

  ghost function Ids(r: Range): (ids: set<nat>)
    ensures forall i :: i in ids <==> r.next <= i < r.end
  {
    set i: nat | r.next <= i < r.end && Within(r, i)
  }

  ghost function Rids(q: seq<Range>): set<nat> {
    if q == [] then {} else Ids(q[0]) + Rids(q[1..])
  }

  /** Ranges in reservation order, none overlapping another, all below `limit`. */
  ghost predicate Ordered(q: seq<Range>, limit: nat) {
    && (forall i :: 0 <= i < |q| ==> q[i].next <= q[i].end <= limit)
    && (forall i, j :: 0 <= i < j < |q| ==> q[i].end <= q[j].next)
  }

  lemma {:induction false} RidsBelow(q: seq<Range>, limit: nat, x: nat)
    requires Ordered(q, limit) && x in Rids(q)
    ensures x < limit && q != [] && q[0].next <= x
  {
    if x !in Ids(q[0]) { RidsBelow(q[1..], limit, x); }
  }

  lemma {:induction false} RidsAppend(q: seq<Range>, r: Range)
    ensures Rids(q + [r]) == Rids(q) + Ids(r)
  {
    if q == [] {
      assert q + [r] == [r] && [r][1..] == [];
    } else {
      RidsAppend(q[1..], r);
      assert (q + [r])[0] == q[0] && (q + [r])[1..] == q[1..] + [r];
    }
  }

  lemma {:induction false} FittingKeepsOrder(q: seq<Range>, size: nat, limit: nat)
    requires Ordered(q, limit)
    ensures Ordered(Fitting(q, size), limit) && Rids(Fitting(q, size)) <= Rids(q)
    ensures size == 1 ==> Rids(Fitting(q, size)) == Rids(q)
  {
    if q != [] && Size(q[0]) < size {
      FittingKeepsOrder(q[1..], size, limit);
      if size == 1 { assert Ids(q[0]) == {}; }
    }
  }

  /** A range a grant discards is smaller than the grant; every other range survives. */
  lemma {:induction false} DroppedAreSmaller(q: seq<Range>, size: nat)
    ensures var n := |q| - |Fitting(q, size)|;
      && 0 <= n && Fitting(q, size) == q[n..]
      && forall i :: 0 <= i < n ==> Size(q[i]) < size
  {
    if q != [] && Size(q[0]) < size {
      DroppedAreSmaller(q[1..], size);
      var n := |q| - |Fitting(q, size)|;
      assert q[1..][n - 1..] == q[n..];
      forall i | 0 <= i < n ensures Size(q[i]) < size {
        if i > 0 { assert q[i] == q[1..][i - 1]; }
      }
    }
  }

  /** What taking does to the set of unspent RIDs: the RIDs handed out were there, are the least
      that remain, and are gone; a single mint loses nothing else. */
  lemma TakeSpends(q: seq<Range>, size: nat, limit: nat)
    requires Ordered(q, limit) && size >= 1
    ensures Ordered(Take(q, size).1, limit) && Rids(Take(q, size).1) <= Rids(q)
    ensures Take(q, size).0.None? ==> Take(q, size).1 == [] && (size == 1 ==> Rids(q) == {})
    ensures Take(q, size).0.Some? ==> Spends(q, Take(q, size).0.value, size, Take(q, size).1, limit)
  {
    FittingKeepsOrder(q, size, limit);
    var f := Fitting(q, size);
    if f != [] {
      FirstFits(q, size);
      TakeFirst(f, size, limit);
      assert size == 1 ==> Rids(f) == Rids(q);
    }
  }

  ghost predicate Spends(q: seq<Range>, base: nat, size: nat, rest: seq<Range>, limit: nat) {
    var out := Ids(Range(base, base + size));
    && out <= Rids(q) && out !! Rids(rest) && base + size <= limit
    && (forall x <- Rids(rest) :: base + size <= x)
    && (size == 1 ==> Rids(rest) + out == Rids(q))
  }

  lemma TakeFirst(f: seq<Range>, size: nat, limit: nat)
    requires Ordered(f, limit) && f != [] && Size(f[0]) >= size >= 1
    ensures var rest := f[0 := f[0].(next := f[0].next + size)];
      && Ordered(rest, limit) && Rids(rest) + Ids(Range(f[0].next, f[0].next + size)) == Rids(f)
      && Spends(f, f[0].next, size, rest, limit)
  {
    var rest := f[0 := f[0].(next := f[0].next + size)];
    assert rest[1..] == f[1..];
    assert Ids(f[0]) == Ids(Range(f[0].next, f[0].next + size)) + Ids(rest[0]);
    forall x <- Rids(rest) ensures f[0].next + size <= x {
      RidsBelow(rest, limit, x);
    }
  }

  lemma {:induction false} FirstFits(q: seq<Range>, size: nat)
    ensures Fitting(q, size) != [] ==> Size(Fitting(q, size)[0]) >= size
  {
    if q != [] && Size(q[0]) < size { FirstFits(q[1..], size); }
  }

  // ---- Every run of many front-ends on one store -------------------------------------------

  /** A front-end: its queues, the block its refiller has reserved but not yet pushed, the single
      RIDs reserved and handed out in its current life, and the last single RID it handed out in
      any life. */
  datatype Front = Front(
    ranges: seq<Range>, pools: seq<Range>, pending: Option<(RefillKind, nat)>,
    reserved: set<nat>, minted: set<nat>, last: Option<nat>)

  /** `issued` is every RID anybody has handed out so far. */
  datatype State = State(counter: Option<nat>, fronts: map<string, Front>, issued: set<nat>)

  datatype Step =
    | Start(id: string)
    | Mint(id: string)
    | Grant(id: string, requested: nat)
    | Reserve(id: string, kind: RefillKind, first: nat)
    | ReserveFails(first: nat, block: nat, counted: bool)
    | Push(id: string)
    | Direct(first: nat, block: nat)

  function Base(counter: Option<nat>, first: nat): nat {
    match counter case Some(n) => n case None => first
  }

  function Block(kind: RefillKind): nat {
    match kind case Single => RID_BLOCK case Pool => RID_POOL_BLOCK
  }

  function AtLeastOne(requested: nat): nat {
    if requested < 1 then 1 else requested
  }

  predicate Enabled(s: State, step: Step) {
    match step
    case Start(_) => true
    case Mint(f) => f in s.fronts
    case Grant(f, _) => f in s.fronts
    case Reserve(f, kind, first) =>
      f in s.fronts && s.fronts[f].pending.None? && Base(s.counter, first) + Block(kind) <= U32_MAX
    case ReserveFails(_, _, _) => true
    case Push(f) => f in s.fronts && s.fronts[f].pending.Some?
    case Direct(first, block) => Base(s.counter, first) + block <= U32_MAX
  }

  ghost function Taken(q: seq<Range>, size: nat): set<nat> {
    match Take(q, size).0 case Some(b) => Ids(Range(b, b + size)) case None => {}
  }

  /** The RIDs a step hands out. */
  ghost function Out(s: State, step: Step): set<nat>
    requires Enabled(s, step)
  {
    match step
    case Mint(f) => Taken(s.fronts[f].ranges, 1)
    case Grant(f, requested) => Taken(s.fronts[f].pools, AtLeastOne(requested))
    case Direct(first, block) => Ids(Range(Base(s.counter, first), Base(s.counter, first) + block))
    case _ => {}
  }

  ghost function Started(was: Option<Front>): Front {
    Front([], [], None, {}, {}, match was case Some(f) => f.last case None => None)
  }

  ghost function Minted(fr: Front): Front {
    fr.(ranges := Take(fr.ranges, 1).1, minted := fr.minted + Taken(fr.ranges, 1),
        last := if Take(fr.ranges, 1).0.Some? then Take(fr.ranges, 1).0 else fr.last)
  }

  ghost function Granted(fr: Front, size: nat): Front {
    fr.(pools := Take(fr.pools, size).1)
  }

  ghost function Reserving(fr: Front, kind: RefillKind, base: nat): Front {
    fr.(pending := Some((kind, base)),
        reserved := fr.reserved + if kind.Single? then Ids(Range(base, base + Block(kind))) else {})
  }

  ghost function Pushed(fr: Front): Front
    requires fr.pending.Some?
  {
    var (kind, base) := fr.pending.value;
    var got := Range(base, base + Block(kind));
    if kind.Single? then fr.(pending := None, ranges := fr.ranges + [got])
    else fr.(pending := None, pools := fr.pools + [got])
  }

  /** One step. `Start` is also a restart: whatever the front-end held is forgotten. A failed
      reservation may or may not have advanced the counter. */
  ghost function Next(s: State, step: Step): State
    requires Enabled(s, step)
  {
    var issued := s.issued + Out(s, step);
    match step
    case Start(f) =>
      s.(fronts := s.fronts[f := Started(if f in s.fronts then Some(s.fronts[f]) else None)])
    case Mint(f) => State(s.counter, s.fronts[f := Minted(s.fronts[f])], issued)
    case Grant(f, requested) =>
      State(s.counter, s.fronts[f := Granted(s.fronts[f], AtLeastOne(requested))], issued)
    case Reserve(f, kind, first) =>
      var base := Base(s.counter, first);
      State(Some(base + Block(kind)), s.fronts[f := Reserving(s.fronts[f], kind, base)], s.issued)
    case ReserveFails(first, block, counted) =>
      s.(counter := if counted then Some(Base(s.counter, first) + block) else s.counter)
    case Push(f) => s.(fronts := s.fronts[f := Pushed(s.fronts[f])])
    case Direct(first, block) => State(Some(Base(s.counter, first) + block), s.fronts, issued)
  }

  ghost predicate IsRun(run: seq<State>, steps: seq<Step>) {
    && |run| == |steps| + 1 && run[0] == State(None, map[], {})
    && forall i :: 0 <= i < |steps| ==> Enabled(run[i], steps[i]) && run[i + 1] == Next(run[i], steps[i])
  }

  ghost function Pending(fr: Front, kind: RefillKind): set<nat> {
    match fr.pending
    case Some((k, base)) => if k == kind then Ids(Range(base, base + Block(k))) else {}
    case None => {}
  }

  ghost function Singles(fr: Front): set<nat> { Rids(fr.ranges) + Pending(fr, Single) }
  ghost function Pools(fr: Front): set<nat> { Rids(fr.pools) + Pending(fr, Pool) }
  ghost function Held(fr: Front): set<nat> { Singles(fr) + Pools(fr) }

  /** A front-end's own bookkeeping below the counter `limit`: nothing is held twice, every
      single RID reserved in this life is handed out or still held, and those still held lie
      above the last one handed out. */
  ghost predicate Tidy(fr: Front, limit: nat) {
    && Ordered(fr.ranges, limit) && Ordered(fr.pools, limit)
    && Singles(fr) !! Pools(fr)
    && (fr.pending.Some? ==> PendingTidy(fr, fr.pending.value.0, fr.pending.value.1, limit))
    && fr.reserved == fr.minted + Singles(fr) && fr.minted !! Singles(fr)
    && (fr.last.Some? ==> fr.last.value < limit && forall x <- Singles(fr) :: fr.last.value < x)
    && (forall x <- fr.minted :: fr.last.Some? && x <= fr.last.value)
  }

  ghost predicate PendingTidy(fr: Front, kind: RefillKind, base: nat, limit: nat) {
    && base + Block(kind) <= limit
    && (kind.Single? ==> Ordered(fr.ranges, base))
    && (kind.Pool? ==> Ordered(fr.pools, base))
  }

  lemma HeldBelow(fr: Front, limit: nat, x: nat)
    requires Tidy(fr, limit) && x in Held(fr)
    ensures x < limit
  {
    if x in Rids(fr.ranges) { RidsBelow(fr.ranges, limit, x); }
    if x in Rids(fr.pools) { RidsBelow(fr.pools, limit, x); }
  }

  lemma TidyMonotone(fr: Front, limit: nat, more: nat)
    requires Tidy(fr, limit) && limit <= more
    ensures Tidy(fr, more)
  {
  }

  /** A mint moves exactly one RID from held to handed out, larger than any before. */
  lemma MintIsTidy(fr: Front, limit: nat)
    requires Tidy(fr, limit)
    ensures Tidy(Minted(fr), limit)
    ensures var out := Taken(fr.ranges, 1);
      out <= Singles(fr) && Held(Minted(fr)) == Held(fr) - out
      && (fr.last.Some? ==> forall x <- out :: fr.last.value < x)
    ensures fr.last.Some? ==> Minted(fr).last.Some? && fr.last.value <= Minted(fr).last.value
  {
    var fr' := Minted(fr);
    TakeSpends(fr.ranges, 1, limit);
    var out := Taken(fr.ranges, 1);
    assert Pending(fr', Single) == Pending(fr, Single) && Pools(fr') == Pools(fr);
    if fr.pending.Some? && fr.pending.value.0.Single? {
      TakeSpends(fr.ranges, 1, fr.pending.value.1);
      forall x <- Rids(fr.ranges) ensures x < fr.pending.value.1 {
        RidsBelow(fr.ranges, fr.pending.value.1, x);
      }
    }
    assert out <= Rids(fr.ranges) && Rids(fr'.ranges) == Rids(fr.ranges) - out;
    assert out !! Pending(fr, Single);
    assert Singles(fr') == Singles(fr) - out;
    if Take(fr.ranges, 1).0.Some? {
      assert Take(fr.ranges, 1).0.value in out;
    }
  }

  lemma GrantIsTidy(fr: Front, size: nat, limit: nat)
    requires Tidy(fr, limit) && size >= 1
    ensures Tidy(Granted(fr, size), limit)
    ensures var out := Taken(fr.pools, size);
      out <= Pools(fr) && Held(Granted(fr, size)) <= Held(fr) - out
  {
    var fr' := Granted(fr, size);
    TakeSpends(fr.pools, size, limit);
    var out := Taken(fr.pools, size);
    assert Pending(fr', Pool) == Pending(fr, Pool) && Singles(fr') == Singles(fr);
    if fr.pending.Some? && fr.pending.value.0.Pool? {
      TakeSpends(fr.pools, size, fr.pending.value.1);
      forall x <- Rids(fr.pools) ensures x < fr.pending.value.1 {
        RidsBelow(fr.pools, fr.pending.value.1, x);
      }
    }
    assert out <= Rids(fr.pools) && out !! Rids(fr'.pools);
    assert out !! Pending(fr, Pool);
  }

  lemma ReserveIsTidy(fr: Front, kind: RefillKind, base: nat, limit: nat)
    requires Tidy(fr, limit) && fr.pending.None? && limit <= base
    ensures Tidy(Reserving(fr, kind, base), base + Block(kind))
    ensures Held(Reserving(fr, kind, base)) == Held(fr) + Ids(Range(base, base + Block(kind)))
  {
    var fr' := Reserving(fr, kind, base);
    var got := Ids(Range(base, base + Block(kind)));
    assert Pending(fr', kind) == got;
    forall x <- Held(fr) ensures x < base && x !in got { HeldBelow(fr, limit, x); }
    assert Singles(fr) <= Held(fr) && Pools(fr) <= Held(fr);
    assert Singles(fr) !! got && Pools(fr) !! got;
    assert Ordered(fr.ranges, base) && Ordered(fr.pools, base);
    if kind.Single? {
      assert Pending(fr', Pool) == {} && Singles(fr') == Singles(fr) + got && Pools(fr') == Pools(fr);
      assert fr.minted !! got;
    } else {
      assert Pending(fr', Single) == {} && Pools(fr') == Pools(fr) + got && Singles(fr') == Singles(fr);
    }
  }

  lemma PushIsTidy(fr: Front, limit: nat)
    requires Tidy(fr, limit) && fr.pending.Some?
    ensures Tidy(Pushed(fr), limit) && Held(Pushed(fr)) == Held(fr)
  {
    PushKeepsRids(fr);
    var (kind, base) := fr.pending.value;
    var got := Range(base, base + Block(kind));
    if kind.Single? { OrderedAppend(fr.ranges, got, limit); } else { OrderedAppend(fr.pools, got, limit); }
  }

  lemma PushKeepsRids(fr: Front)
    requires fr.pending.Some?
    ensures Singles(Pushed(fr)) == Singles(fr) && Pools(Pushed(fr)) == Pools(fr)
  {
    var (kind, base) := fr.pending.value;
    var got := Range(base, base + Block(kind));
    if kind.Single? { RidsAppend(fr.ranges, got); } else { RidsAppend(fr.pools, got); }
  }

  lemma OrderedAppend(q: seq<Range>, r: Range, limit: nat)
    requires Ordered(q, r.next) && r.next <= r.end <= limit
    ensures Ordered(q + [r], limit)
  {
  }

  ghost function Limit(s: State): nat {
    match s.counter case Some(n) => n case None => 0
  }

  /** A front-end is tidy and holds nothing that was handed out. */
  ghost predicate FrontOk(s: State, f: string) {
    f in s.fronts ==> Tidy(s.fronts[f], Limit(s)) && Held(s.fronts[f]) !! s.issued
  }

  ghost predicate Apart(s: State, f: string, g: string) {
    f in s.fronts && g in s.fronts && f != g ==> Held(s.fronts[f]) !! Held(s.fronts[g])
  }

  ghost predicate Sound(s: State) {
    && (forall f {:trigger FrontOk(s, f)} :: FrontOk(s, f))
    && (forall f, g {:trigger Apart(s, f, g)} :: Apart(s, f, g))
    && (forall x <- s.issued :: x < Limit(s))
  }

  /** What a step that changes one front-end must show about it. */
  lemma SoundWithOne(s: State, t: State, f: string)
    requires Sound(s) && f in t.fronts && t.fronts == s.fronts[f := t.fronts[f]]
    requires Limit(s) <= Limit(t) && Tidy(t.fronts[f], Limit(t)) && Held(t.fronts[f]) !! t.issued
    requires forall x <- t.issued :: x in s.issued || (f in s.fronts && x in Held(s.fronts[f]))
    requires forall x <- Held(t.fronts[f]) :: x >= Limit(s) || (f in s.fronts && x in Held(s.fronts[f]))
    ensures Sound(t)
  {
    assert FrontOk(s, f);
    forall g ensures FrontOk(t, g) && Apart(t, f, g) && Apart(t, g, f) {
      if g in t.fronts && g != f {
        assert FrontOk(s, g) && Apart(s, f, g);
        TidyMonotone(s.fronts[g], Limit(s), Limit(t));
        forall x | x in Held(t.fronts[f]) && x in Held(t.fronts[g]) ensures false {
          HeldBelow(s.fronts[g], Limit(s), x);
        }
      }
    }
    forall g, h ensures Apart(t, g, h) {
      assert Apart(s, g, h);
    }
    if f in s.fronts {
      forall x <- Held(s.fronts[f]) ensures x < Limit(t) { HeldBelow(s.fronts[f], Limit(s), x); }
    }
  }

  /** Moving the counter forward, and handing out what lay beyond it, disturbs no front-end. */
  lemma SoundBeyond(s: State, t: State)
    requires Sound(s) && t.fronts == s.fronts && Limit(s) <= Limit(t) && s.issued <= t.issued
    requires forall x <- t.issued :: x in s.issued || Limit(s) <= x < Limit(t)
    ensures Sound(t)
  {
    forall g ensures FrontOk(t, g) {
      assert FrontOk(s, g);
      if g in s.fronts {
        TidyMonotone(s.fronts[g], Limit(s), Limit(t));
        forall x <- Held(s.fronts[g]) ensures x < Limit(s) { HeldBelow(s.fronts[g], Limit(s), x); }
      }
    }
    forall g, h ensures Apart(t, g, h) { assert Apart(s, g, h); }
  }

  /** Every step keeps the books sound, and hands out only RIDs nobody had handed out before. */
  lemma StepIsSound(s: State, step: Step)
    requires Sound(s) && Enabled(s, step)
    ensures Sound(Next(s, step)) && Out(s, step) !! s.issued
  {
    var t := Next(s, step);
    match step
    case Start(f) =>
      assert FrontOk(s, f);
      assert Rids([]) == {};
      SoundWithOne(s, t, f);
    case Mint(f) =>
      assert FrontOk(s, f);
      MintIsTidy(s.fronts[f], Limit(s));
      SoundWithOne(s, t, f);
    case Grant(f, requested) =>
      assert FrontOk(s, f);
      GrantIsTidy(s.fronts[f], AtLeastOne(requested), Limit(s));
      SoundWithOne(s, t, f);
    case Reserve(f, kind, first) =>
      assert FrontOk(s, f);
      ReserveIsTidy(s.fronts[f], kind, Base(s.counter, first), Limit(s));
      SoundWithOne(s, t, f);
    case Push(f) =>
      assert FrontOk(s, f);
      PushIsTidy(s.fronts[f], Limit(s));
      SoundWithOne(s, t, f);
    case ReserveFails(_, _, _) => SoundBeyond(s, t);
    case Direct(first, block) => SoundBeyond(s, t);
  }

  lemma {:induction false} RunIsSound(run: seq<State>, steps: seq<Step>, i: nat)
    requires IsRun(run, steps) && i < |run|
    ensures Sound(run[i])
  {
    if i > 0 {
      RunIsSound(run, steps, i - 1);
      StepIsSound(run[i - 1], steps[i - 1]);
    }
  }

  lemma {:induction false} IssuedGrows(run: seq<State>, steps: seq<Step>, i: nat, j: nat)
    requires IsRun(run, steps) && i < j < |run|
    ensures run[i].issued + Out(run[i], steps[i]) <= run[j].issued
    decreases j - i
  {
    if i < j - 1 { IssuedGrows(run, steps, i, j - 1); }
  }

  /** No RID is handed out twice, by a mint, a pool grant or a direct reservation, by any
      front-end in any of its lives. */
  lemma NoRidTwice(run: seq<State>, steps: seq<Step>, i: nat, j: nat)
    requires IsRun(run, steps) && i < j < |steps|
    ensures Out(run[i], steps[i]) !! Out(run[j], steps[j])
  {
    RunIsSound(run, steps, j);
    StepIsSound(run[j], steps[j]);
    IssuedGrows(run, steps, i, j);
  }

  /** While a front-end runs, every single RID reserved for it has been handed out or is still
      held, never both. */
  lemma ReservedIsMintedOrHeld(run: seq<State>, steps: seq<Step>, i: nat, f: string)
    requires IsRun(run, steps) && i < |run| && f in run[i].fronts
    ensures var fr := run[i].fronts[f];
      fr.reserved == fr.minted + Singles(fr) && fr.minted !! Singles(fr) && fr.minted <= run[i].issued
  {
    RunIsSound(run, steps, i);
    assert FrontOk(run[i], f);
    MintedAreIssued(run, steps, i, f);
  }

  lemma {:induction false} MintedAreIssued(run: seq<State>, steps: seq<Step>, i: nat, f: string)
    requires IsRun(run, steps) && i < |run| && f in run[i].fronts
    ensures run[i].fronts[f].minted <= run[i].issued
  {
    if i > 0 && f in run[i - 1].fronts { MintedAreIssued(run, steps, i - 1, f); }
  }

  lemma {:induction false} LastSingleIsKept(run: seq<State>, steps: seq<Step>, i: nat, j: nat, f: string, r: nat)
    requires IsRun(run, steps) && i < j < |run| && steps[i] == Mint(f) && f in run[i].fronts
    requires Take(run[i].fronts[f].ranges, 1).0 == Some(r)
    ensures f in run[j].fronts && run[j].fronts[f].last.Some? && r <= run[j].fronts[f].last.value
    decreases j - i
  {
    if i < j - 1 {
      LastSingleIsKept(run, steps, i, j - 1, f, r);
      RunIsSound(run, steps, j - 1);
      LastNeverFalls(run[j - 1], steps[j - 1], f);
    } else {
      MintSetsLast(run[i], f, r);
    }
  }

  lemma MintSetsLast(s: State, f: string, r: nat)
    requires f in s.fronts && Take(s.fronts[f].ranges, 1).0 == Some(r)
    ensures var t := Next(s, Mint(f)); f in t.fronts && t.fronts[f].last == Some(r)
  {
  }

  /** No step, a restart included, takes back the last single RID of a front-end. */
  lemma LastNeverFalls(s: State, step: Step, f: string)
    requires Sound(s) && Enabled(s, step) && f in s.fronts && s.fronts[f].last.Some?
    ensures var t := Next(s, step);
      f in t.fronts && t.fronts[f].last.Some? && s.fronts[f].last.value <= t.fronts[f].last.value
  {
    if step == Mint(f) {
      assert FrontOk(s, f);
      MintIsTidy(s.fronts[f], Limit(s));
    }
  }

  /** A front-end's single RIDs strictly increase, across restarts too. */
  lemma SinglesIncrease(run: seq<State>, steps: seq<Step>, i: nat, j: nat, f: string, r: nat, q: nat)
    requires IsRun(run, steps) && i < j < |steps| && steps[i] == Mint(f) && steps[j] == Mint(f)
    requires f in run[i].fronts && Take(run[i].fronts[f].ranges, 1).0 == Some(r)
    requires f in run[j].fronts && Take(run[j].fronts[f].ranges, 1).0 == Some(q)
    ensures r < q
  {
    LastSingleIsKept(run, steps, i, j, f, r);
    RunIsSound(run, steps, j);
    assert FrontOk(run[j], f);
    MintIsTidy(run[j].fronts[f], Limit(run[j]));
    assert q in Taken(run[j].fronts[f].ranges, 1);
  }

  /** The seed a front-end asks for decides nothing once the counter exists: its next block lies
      at or above the seed exactly when there is no counter yet or the counter has passed it. */
  lemma SeedIsOnlyTheFirst(s: State, f: string, kind: RefillKind, first: nat)
    requires Enabled(s, Reserve(f, kind, first))
    ensures var t := Next(s, Reserve(f, kind, first));
      (forall x <- Pending(t.fronts[f], kind) :: first <= x) <==> (s.counter.None? || first <= s.counter.value)
  {
    var base := Base(s.counter, first);
    assert base in Pending(Next(s, Reserve(f, kind, first)).fronts[f], kind);
  }

  /** A front-end that restarts with a seed of 5000, above the counter, mints 1356 all the same. */
  lemma LateSeedIsIgnored(steps: seq<Step>) returns (run: seq<State>)
    requires steps == [Start("f"), Reserve("f", Single, 1100), Start("f"), Reserve("f", Single, 5000), Push("f")]
    ensures IsRun(run, steps) && "f" in run[5].fronts && Take(run[5].fronts["f"].ranges, 1).0 == Some(1356)
  {
    var s0 := State(None, map[], {});
    var s1 := Next(s0, steps[0]);
    var s2 := Next(s1, steps[1]);
    var s3 := Next(s2, steps[2]);
    var s4 := Next(s3, steps[3]);
    var s5 := Next(s4, steps[4]);
    assert s5.fronts["f"].ranges == [Range(1356, 1612)];
    run := [s0, s1, s2, s3, s4, s5];
  }
}
