/** Leader election among control-plane centres that share one lease row.

    Every statement of the source that can interleave with another centre's is a step of its
    own: reading the clock, the conditional UPDATE, the SELECT that follows an UPDATE that
    matched nothing, publishing the answer in the `is_leader` flag, a store error, a release
    and a stop. */
module LeaderLease {

  datatype Lease = Lease(holder: string, expires: nat, term: nat)

  /** The row `ensure_lease_sentinel` creates: unheld and expired since the epoch. */
  const SENTINEL := Lease("", 0, 0)

  predicate Claimable(l: Lease, me: string, now: nat) {
    l.holder == me || l.expires <= now
  }

  /** The conditional UPDATE of `try_acquire_leadership`; the row is unchanged when it does not
      match. */
  function Claim(l: Lease, me: string, now: nat, exp: nat): Lease {
    if Claimable(l, me, now)
    then Lease(me, exp, if l.holder == me then l.term else l.term + 1)
    else l
  }

  function Released(l: Lease, me: string): Lease {
    if l.holder == me then Lease("", 0, l.term) else l
  }

  function Expiry(now: nat, ttl: nat): nat {
    now + if ttl < 1 then 1 else ttl
  }

  datatype LeaderInfo = LeaderInfo(holder: string, isSelf: bool, term: nat, expires: nat)

  /** The singleton lease row. */
  class LeaseRow {
    var holder: string
    var expires: nat
    var term: nat

    function Row(): Lease
      reads this
    {
      Lease(holder, expires, term)
    }

    constructor ()
      ensures Row() == SENTINEL
    {
      holder, expires, term := "", 0, 0;
    }

    method CurrentLeader(me: string) returns (info: LeaderInfo)
      ensures info.holder == holder && info.term == term && info.expires == expires
      ensures info.isSelf <==> holder == me && me != ""
    {
      info := LeaderInfo(holder, holder == me && holder != "", term, expires);
    }

    /** One undisturbed call: the caller leads afterwards exactly when the row was its own or
        had expired, and then the row runs for the whole lease in a term no smaller. */
    method TryAcquireLeadership(me: string, now: nat, ttl: nat) returns (info: LeaderInfo)
      modifies this
      ensures Row() == Claim(old(Row()), me, now, Expiry(now, ttl))
      ensures info.isSelf <==> Claimable(old(Row()), me, now)
      ensures info.isSelf <==> holder == me
      ensures info == LeaderInfo(holder, info.isSelf, term, expires)
    {
      if holder == me || expires <= now {
        term := if holder == me then term else term + 1;
        holder, expires := me, Expiry(now, ttl);
        info := LeaderInfo(holder, holder == me, term, expires);
      } else {
        info := CurrentLeader(me);
      }
    }

    method ReleaseLeadership(me: string)
      modifies this
      ensures Row() == Released(old(Row()), me)
    {
      if holder == me {
        holder, expires := "", 0;
      }
    }
  }

  // ---- Many centres, every interleaving --------------------------------------------------

  /** Where one centre's election loop stands: between two ticks, holding the clock value it
      will compare with, about to read who leads, or about to publish its answer. */
  datatype Phase = Idle | Bidding(now: nat) | Reading | Answered(isSelf: bool)

  /** `leaseUntil` is the expiry this centre last wrote and has not released. */
  datatype Centre = Centre(isLeader: bool, phase: Phase, leaseUntil: nat)

  datatype State = State(clock: nat, lease: Lease, centres: map<string, Centre>)

  datatype Step =
    | Wait(until: nat)
    | Begin(id: string)
    | Update(id: string, stamp: nat, ttl: nat)
    | Read(id: string)
    | Publish(id: string)
    | StoreError(id: string)
    | Release(id: string)
    | Stop(id: string)

  ghost predicate Init(s: State) {
    s.lease == SENTINEL && "" !in s.centres
    && forall c <- s.centres :: s.centres[c] == Centre(false, Idle, 0)
  }

  predicate Enabled(s: State, step: Step) {
    match step
    case Wait(until) => s.clock <= until
    case Begin(c) => c in s.centres && s.centres[c].phase.Idle?
    case Update(c, stamp, _) =>
      c in s.centres && s.centres[c].phase.Bidding? && s.centres[c].phase.now <= stamp <= s.clock
    case Read(c) => c in s.centres && s.centres[c].phase.Reading?
    case Publish(c) => c in s.centres && s.centres[c].phase.Answered?
    case StoreError(c) => c in s.centres && !s.centres[c].phase.Idle?
    case Release(c) => c in s.centres
    case Stop(c) => c in s.centres
  }

  /** What one step does. `Update` writes an expiry counted from a second clock reading, taken
      no earlier than the one it compares with and no later than the UPDATE lands. */
  function Next(s: State, step: Step): State
    requires Enabled(s, step)
  {
    match step
    case Wait(until) => s.(clock := until)
    case Begin(c) => With(s, c, s.centres[c].(phase := Bidding(s.clock)))
    case Update(c, stamp, ttl) =>
      var me := s.centres[c];
      var exp := Expiry(stamp, ttl);
      if Claimable(s.lease, c, me.phase.now)
      then With(s.(lease := Claim(s.lease, c, me.phase.now, exp)), c,
                me.(phase := Answered(true), leaseUntil := exp))
      else With(s, c, me.(phase := Reading))
    case Read(c) => With(s, c, s.centres[c].(phase := Answered(s.lease.holder == c && c != "")))
    case Publish(c) =>
      With(s, c, s.centres[c].(isLeader := s.centres[c].phase.isSelf, phase := Idle))
    case StoreError(c) => With(s, c, s.centres[c].(isLeader := false, phase := Idle))
    case Release(c) =>
      With(s.(lease := Released(s.lease, c)), c, s.centres[c].(leaseUntil := 0))
    case Stop(c) => With(s, c, s.centres[c].(isLeader := false, phase := Idle))
  }

  function With(s: State, id: string, c: Centre): State {
    s.(centres := s.centres[id := c])
  }

  ghost predicate IsRun(run: seq<State>, steps: seq<Step>) {
    |run| == |steps| + 1 && Init(run[0])
    && forall i {:trigger StepAt(run, steps, i)} :: 0 <= i < |steps| ==> StepAt(run, steps, i)
  }

  ghost predicate StepAt(run: seq<State>, steps: seq<Step>, i: nat)
    requires i < |steps| < |run|
  {
    Enabled(run[i], steps[i]) && run[i + 1] == Next(run[i], steps[i])
  }

  /** The lease row names every centre that is still inside the lease it last wrote. */
  ghost predicate Owned(s: State) {
    "" !in s.centres
    && forall c <- s.centres :: s.clock < s.centres[c].leaseUntil ==>
         s.lease.holder == c && s.lease.expires == s.centres[c].leaseUntil
  }

  /** A clock reading a centre still holds lies in the past. */
  ghost predicate Honest(s: State) {
    forall c <- s.centres :: s.centres[c].phase.Bidding? ==> s.centres[c].phase.now <= s.clock
  }

  lemma StepKeepsOwnership(s: State, step: Step)
    requires Owned(s) && Honest(s) && Enabled(s, step)
    ensures Owned(Next(s, step)) && Honest(Next(s, step))
  {
  }

  lemma {:induction false} RunKeepsOwnership(run: seq<State>, steps: seq<Step>, i: nat)
    requires IsRun(run, steps) && i < |run|
    ensures Owned(run[i]) && Honest(run[i])
  {
    if i > 0 {
      RunKeepsOwnership(run, steps, i - 1);
      assert StepAt(run, steps, i - 1);
      StepKeepsOwnership(run[i - 1], steps[i - 1]);
    }
  }

  /** The operational assumption: whoever is flagged as leader has neither let the lease it
      wrote run out nor given it back. */
  ghost predicate Timely(s: State) {
    forall c <- s.centres :: s.centres[c].isLeader ==> s.clock < s.centres[c].leaseUntil
  }

  /** No two centres are flagged at once, in every state of every run in which flagged centres
      renew in time and a releasing centre has stopped first. */
  lemma AtMostOneLeader(run: seq<State>, steps: seq<Step>, i: nat, a: string, b: string)
    requires IsRun(run, steps) && i < |run| && Timely(run[i])
    requires a in run[i].centres && b in run[i].centres
    requires run[i].centres[a].isLeader && run[i].centres[b].isLeader
    ensures a == b && run[i].lease.holder == a && run[i].clock < run[i].lease.expires
  {
    RunKeepsOwnership(run, steps, i);
  }

  /** That assumption as a discipline on steps: nobody waits past a flagged centre's lease, a renewal
      lands before the lease it writes ends, a won answer is published inside the lease, and only a centre
      that is not flagged releases. */
  ghost predicate Disciplined(s: State, step: Step)
    requires Enabled(s, step)
  {
    match step
    case Wait(until) => forall c <- s.centres :: s.centres[c].isLeader ==> until < s.centres[c].leaseUntil
    case Update(c, stamp, ttl) =>
      s.centres[c].isLeader && Claimable(s.lease, c, s.centres[c].phase.now) ==> s.clock < Expiry(stamp, ttl)
    case Publish(c) => s.centres[c].phase.isSelf ==> s.clock < s.centres[c].leaseUntil
    case Release(c) => !s.centres[c].isLeader
    case _ => true
  }

  /** A step from a timely state leads to one exactly when it is disciplined. */
  lemma TimelyStepIff(s: State, step: Step)
    requires Timely(s) && Enabled(s, step)
    ensures Timely(Next(s, step)) <==> Disciplined(s, step)
  {
    var t := Next(s, step);
    if step.Wait? {
      forall c <- s.centres ensures t.centres[c] == s.centres[c] { }
    } else {
      assert step.id in t.centres;
      forall c <- s.centres | c != step.id ensures t.centres[c] == s.centres[c] { }
    }
  }

  ghost predicate DisciplinedAt(run: seq<State>, steps: seq<Step>, i: nat)
    requires i < |steps| < |run|
  {
    Enabled(run[i], steps[i]) && Disciplined(run[i], steps[i])
  }

  /** All states of a run up to some point are timely exactly when all steps up to there are disciplined. */
  lemma {:induction false} RunIsTimelyIff(run: seq<State>, steps: seq<Step>, i: nat)
    requires IsRun(run, steps) && i < |run|
    ensures (forall j :: 0 <= j <= i ==> Timely(run[j]))
      <==> (forall j {:trigger DisciplinedAt(run, steps, j)} :: 0 <= j < i ==> DisciplinedAt(run, steps, j))
  {
    if i > 0 {
      RunIsTimelyIff(run, steps, i - 1);
      assert StepAt(run, steps, i - 1);
      if Timely(run[i - 1]) { TimelyStepIff(run[i - 1], steps[i - 1]); }
      if forall j {:trigger DisciplinedAt(run, steps, j)} :: 0 <= j < i ==> DisciplinedAt(run, steps, j) {
        assert DisciplinedAt(run, steps, i - 1);
      }
    }
  }

  /** So a run of disciplined steps never has two leaders. */
  lemma DisciplinedRunHasOneLeader(run: seq<State>, steps: seq<Step>, i: nat, a: string, b: string)
    requires IsRun(run, steps) && i < |run|
    requires forall j {:trigger DisciplinedAt(run, steps, j)} :: 0 <= j < i ==> DisciplinedAt(run, steps, j)
    requires a in run[i].centres && b in run[i].centres
    requires run[i].centres[a].isLeader && run[i].centres[b].isLeader
    ensures a == b && run[i].lease.holder == a && run[i].clock < run[i].lease.expires
  {
    RunIsTimelyIff(run, steps, i);
    AtMostOneLeader(run, steps, i, a, b);
  }

  lemma ExtendedRun(run: seq<State>, steps: seq<Step>, step: Step)
    requires IsRun(run, steps) && Enabled(run[|run| - 1], step)
    ensures IsRun(run + [Next(run[|run| - 1], step)], steps + [step])
  {
    var all, allSteps := run + [Next(run[|run| - 1], step)], steps + [step];
    forall i | 0 <= i < |allSteps| ensures StepAt(all, allSteps, i) {
      assert all[i] == run[i];
      if i < |steps| { assert StepAt(run, steps, i); }
    }
  }

  lemma TwoMore(run: seq<State>, steps: seq<Step>, s: State, s1: State, a: Step, b: Step)
    requires IsRun(run, steps) && s == run[|run| - 1] && Enabled(s, a) && s1 == Next(s, a) && Enabled(s1, b)
    ensures IsRun(run + [s1] + [Next(s1, b)], steps + [a] + [b])
  {
    ExtendedRun(run, steps, a);
    ExtendedRun(run + [s1], steps + [a], b);
  }

  /** A release by a centre that keeps its flag is unsafe from every reachable state: any other
      idle centre can then be flagged beside it. Shutdown releases the lease while the election
      loop, and so the flag, is still there. */
  lemma ReleaseWithoutStopIsUnsafe(run: seq<State>, steps: seq<Step>, a: string, b: string, ttl: nat)
    returns (all: seq<State>)
    requires IsRun(run, steps)
    requires var s := run[|run| - 1];
      Timely(s) && a != b && a in s.centres && b in s.centres
      && s.centres[a].isLeader && s.centres[b].phase.Idle?
    ensures var s := run[|run| - 1];
      IsRun(all, steps + [Release(a)] + [Begin(b)] + [Update(b, s.clock, ttl)] + [Publish(b)])
      && run <= all && all != []
      && var t := all[|all| - 1];
         a in t.centres && b in t.centres && t.centres[a].isLeader && t.centres[b].isLeader
  {
    RunKeepsOwnership(run, steps, |run| - 1);
    var s := run[|run| - 1];
    var s1, s2, s3, s4 := Usurpation(s, a, b, ttl);
    TwoMore(run, steps, s, s1, Release(a), Begin(b));
    TwoMore(run + [s1] + [s2], steps + [Release(a)] + [Begin(b)], s2, s3, Update(b, s.clock, ttl), Publish(b));
    all := run + [s1] + [s2] + [s3] + [s4];
  }

  lemma Usurpation(s: State, a: string, b: string, ttl: nat) returns (s1: State, s2: State, s3: State, s4: State)
    requires Owned(s) && Timely(s) && a != b && a in s.centres && b in s.centres
    requires s.centres[a].isLeader && s.centres[b].phase.Idle?
    ensures s1 == Next(s, Release(a))
    ensures Enabled(s1, Begin(b)) && s2 == Next(s1, Begin(b))
    ensures Enabled(s2, Update(b, s.clock, ttl)) && s3 == Next(s2, Update(b, s.clock, ttl))
    ensures Enabled(s3, Publish(b)) && s4 == Next(s3, Publish(b))
    ensures a in s4.centres && b in s4.centres && s4.centres[a].isLeader && s4.centres[b].isLeader
  {
    s1 := Next(s, Release(a));
    s2 := Next(s1, Begin(b));
    s3 := Next(s2, Update(b, s.clock, ttl));
    s4 := Next(s3, Publish(b));
  }

  // ---- Terms and handovers ---------------------------------------------------------------

  /** How the row may move in one step: only its holder's release clears it, and only an UPDATE
      that lands after expiry, or on a cleared row, gives it to somebody else. */
  lemma HandoverNeedsExpiryOrRelease(s: State, step: Step)
    requires Owned(s) && Honest(s) && Enabled(s, step)
    requires Next(s, step).lease.holder != s.lease.holder
    ensures (step.Release? && step.id == s.lease.holder && Next(s, step).lease.holder == "")
         || (step.Update? && step.id == Next(s, step).lease.holder && s.lease.expires <= s.clock)
    ensures step.Update? ==> Next(s, step).lease.term == s.lease.term + 1
  {
  }

  /** Terms never decrease along a run, and no term is ever held by two centres: at equal terms
      a later state has the same holder or none. */
  lemma {:induction false} TermsIdentifyHolders(run: seq<State>, steps: seq<Step>, i: nat, j: nat)
    requires IsRun(run, steps) && i <= j < |run|
    ensures run[i].lease.term <= run[j].lease.term
    ensures run[i].lease.term == run[j].lease.term ==>
              run[j].lease.holder == run[i].lease.holder || run[j].lease.holder == ""
    decreases j - i
  {
    if i < j {
      TermsIdentifyHolders(run, steps, i, j - 1);
      RunKeepsOwnership(run, steps, j - 1);
      assert StepAt(run, steps, j - 1);
    }
  }

  /** Between two states of a run with different holders there is a release by the first holder
      or an instant at which its lease had expired. */
  lemma {:induction false} HolderKeepsLeaseUntilExpiryOrRelease(
    run: seq<State>, steps: seq<Step>, i: nat, j: nat)
    returns (k: nat)
    requires IsRun(run, steps) && i <= j < |run|
    requires run[i].lease.holder != "" && run[j].lease.holder != run[i].lease.holder
    ensures i <= k < j && run[k].lease.holder == run[i].lease.holder
    ensures steps[k] == Release(run[i].lease.holder) || run[k].lease.expires <= run[k].clock
    decreases j - i
  {
    if run[j - 1].lease.holder == run[i].lease.holder {
      k := j - 1;
      RunKeepsOwnership(run, steps, k);
      assert StepAt(run, steps, k);
      HandoverNeedsExpiryOrRelease(run[k], steps[k]);
    } else {
      k := HolderKeepsLeaseUntilExpiryOrRelease(run, steps, i, j - 1);
    }
  }

  /** A centre that was refused never reads itself as the leader: the SELECT that follows a
      failed UPDATE answers `false` however the other centres moved in between. */
  ghost predicate RefusalStands(s: State) {
    forall c <- s.centres :: s.centres[c].phase.Reading? ==> s.lease.holder != c
  }

  lemma {:induction false} RefusedCentreReadsFalse(run: seq<State>, steps: seq<Step>, i: nat)
    requires IsRun(run, steps) && i < |run|
    ensures RefusalStands(run[i])
  {
    if i > 0 {
      RefusedCentreReadsFalse(run, steps, i - 1);
      assert StepAt(run, steps, i - 1);
      RunKeepsOwnership(run, steps, i - 1);
    }
  }

  // ---- Takeover --------------------------------------------------------------------------

  ghost predicate LeasesAtMost(steps: seq<Step>, ttl: nat) {
    forall k <- steps :: k.Update? ==> k.ttl <= ttl
  }

  lemma {:induction false} LeaseNeverOutlivesTtl(run: seq<State>, steps: seq<Step>, ttl: nat, i: nat)
    requires IsRun(run, steps) && ttl >= 1 && LeasesAtMost(steps, ttl) && i < |run|
    ensures run[i].lease.expires <= run[i].clock + ttl
  {
    if i > 0 {
      LeaseNeverOutlivesTtl(run, steps, ttl, i - 1);
      assert StepAt(run, steps, i - 1) && steps[i - 1] in steps;
    }
  }

  /** Whatever happened before, once nothing but time passes for one lease, any idle centre that
      bids is flagged as the leader. */
  lemma StandbyTakesOverWithinOneLease(run: seq<State>, steps: seq<Step>, ttl: nat, b: string)
    returns (all: seq<State>)
    requires IsRun(run, steps) && ttl >= 1 && LeasesAtMost(steps, ttl)
    requires var s := run[|run| - 1]; b in s.centres && s.centres[b].phase.Idle?
    ensures var s := run[|run| - 1];
      IsRun(all, steps + [Wait(s.clock + ttl)] + [Begin(b)] + [Update(b, s.clock + ttl, ttl)] + [Publish(b)])
      && run <= all && all != []
      && var last := all[|all| - 1]; b in last.centres && last.centres[b].isLeader && last.lease.holder == b
  {
    LeaseNeverOutlivesTtl(run, steps, ttl, |run| - 1);
    var s := run[|run| - 1];
    var until := s.clock + ttl;
    var s1, s2, s3, s4 := Takeover(s, ttl, b);
    TwoMore(run, steps, s, s1, Wait(until), Begin(b));
    TwoMore(run + [s1] + [s2], steps + [Wait(until)] + [Begin(b)], s2, s3, Update(b, until, ttl), Publish(b));
    all := run + [s1] + [s2] + [s3] + [s4];
  }

  lemma Takeover(s: State, ttl: nat, b: string) returns (s1: State, s2: State, s3: State, s4: State)
    requires ttl >= 1 && s.lease.expires <= s.clock + ttl && b in s.centres && s.centres[b].phase.Idle?
    ensures s1 == Next(s, Wait(s.clock + ttl))
    ensures Enabled(s1, Begin(b)) && s2 == Next(s1, Begin(b))
    ensures Enabled(s2, Update(b, s.clock + ttl, ttl)) && s3 == Next(s2, Update(b, s.clock + ttl, ttl))
    ensures Enabled(s3, Publish(b)) && s4 == Next(s3, Publish(b))
    ensures b in s4.centres && s4.centres[b].isLeader && s4.lease.holder == b
  {
    s1 := Next(s, Wait(s.clock + ttl));
    s2 := Next(s1, Begin(b));
    s3 := Next(s2, Update(b, s.clock + ttl, ttl));
    s4 := Next(s3, Publish(b));
  }
}
