/** The failover evaluator: a cluster snapshot becomes promote, demote and fence decisions.

    `Evaluate` is the source's loop; `Decide` is the value it computes; the lemmas say what the
    decision achieves when its commands succeed, fail, or are repeated. */
module Failover {
  import opened Ordering

  datatype RoleIntent = Primary | Standby | Unset

  datatype ServerView = ServerView(
    sid: string, intent: RoleIntent, healthy: bool, failures: nat, fenced: bool, actsPrimary: bool)

  datatype ClusterView = ClusterView(
    armed: bool, threshold: nat, active: Option<string>, servers: seq<ServerView>)

  datatype Action = Promote(sid: string) | Demote(sid: string)

  datatype Decision = Decision(
    actions: seq<Action>, newActive: Option<string>, fence: seq<string>, unfence: seq<string>)
  {
    predicate IsEmpty() {
      actions == [] && newActive.None? && fence == [] && unfence == []
    }
  }

  const NOTHING := Decision([], None, [], [])

  /** The first server with this id. */
  function Find(servers: seq<ServerView>, sid: string): (r: Option<ServerView>)
    ensures r.Some? ==> r.value in servers && r.value.sid == sid
    ensures r.None? ==> forall s <- servers :: s.sid != sid
  {
    if servers == [] then None
    else if servers[0].sid == sid then Some(servers[0])
    else Find(servers[1..], sid)
  }

  /** The first healthy designated primary: the active one when none is recorded yet. */
  function Designated(servers: seq<ServerView>): (r: Option<string>)
    ensures r.Some? ==> exists s <- servers :: s.sid == r.value && s.intent.Primary? && s.healthy
    ensures r.None? ==> forall s <- servers :: !(s.intent.Primary? && s.healthy)
  {
    if servers == [] then None
    else if servers[0].intent.Primary? && servers[0].healthy then Some(servers[0].sid)
    else Designated(servers[1..])
  }

  predicate Eligible(s: ServerView) {
    s.intent.Standby? && s.healthy && !s.fenced
  }

  /** The eligible standby with the least id. */
  function Candidate(servers: seq<ServerView>): (r: Option<string>)
    ensures r.Some? ==> exists s <- servers :: s.sid == r.value && Eligible(s)
    ensures r.Some? ==> forall s <- servers :: Eligible(s) ==> !Less(s.sid, r.value)
    ensures r.None? ==> forall s <- servers :: !Eligible(s)
  {
    if servers == [] then None
    else
      var rest := Candidate(servers[1..]);
      var s := servers[0];
      if !Eligible(s) then rest
      else if rest.Some? && Less(rest.value, s.sid) then (LessAsymmetric(rest.value, s.sid); rest)
      else
        LessIrreflexive(s.sid);
        assert rest.Some? ==> forall t <- servers[1..] :: Eligible(t) ==> !Less(t.sid, s.sid) by {
          if rest.Some? {
            forall t <- servers[1..] | Eligible(t) ensures !Less(t.sid, s.sid) {
              LessTotal(s.sid, rest.value);
              if Less(t.sid, s.sid) && s.sid != rest.value { LessTransitive(t.sid, s.sid, rest.value); }
            }
          }
        }
        Some(s.sid)
  }

  function Recorded(v: ClusterView): Option<string> {
    if v.active.Some? then v.active else Designated(v.servers)
  }

  predicate Down(v: ClusterView) {
    var p := Recorded(v);
    p.Some? && var s := Find(v.servers, p.value);
    s.Some? && !s.value.healthy && s.value.failures >= if v.threshold < 1 then 1 else v.threshold
  }

  function Promotion(v: ClusterView): Option<string> {
    if Down(v) then Candidate(v.servers) else None
  }

  function Effective(v: ClusterView): Option<string> {
    if Promotion(v).Some? then Promotion(v) else Recorded(v)
  }

  function ActiveSid(v: ClusterView): string {
    match Effective(v) case Some(a) => a case None => ""
  }

  predicate Returning(s: ServerView, active: string) {
    s.fenced && s.healthy && s.sid != active
  }

  predicate Stray(s: ServerView, active: string) {
    s.healthy && s.actsPrimary && s.sid != active && !s.fenced
  }

  function FencedDemotions(servers: seq<ServerView>, active: string): seq<Action> {
    if servers == [] then []
    else
      var s := servers[|servers| - 1];
      FencedDemotions(servers[..|servers| - 1], active)
      + if Returning(s, active) && s.actsPrimary then [Demote(s.sid)] else []
  }

  function Unfenced(servers: seq<ServerView>, active: string): seq<string> {
    if servers == [] then []
    else
      var s := servers[|servers| - 1];
      Unfenced(servers[..|servers| - 1], active) + if Returning(s, active) then [s.sid] else []
  }

  function StraySweep(servers: seq<ServerView>, active: string, sofar: seq<Action>): seq<Action> {
    if servers == [] then sofar
    else
      var s := servers[|servers| - 1];
      var acts := StraySweep(servers[..|servers| - 1], active, sofar);
      if Stray(s, active) && Demote(s.sid) !in acts then acts + [Demote(s.sid)] else acts
  }

  function Decide(v: ClusterView): Decision {
    if !v.armed then NOTHING
    else
      var promotion, active := Promotion(v), ActiveSid(v);
      var first := if promotion.Some? then [Promote(promotion.value)] else [];
      Decision(
        StraySweep(v.servers, active, first + FencedDemotions(v.servers, active)),
        if promotion.Some? then promotion else if v.active.None? then Designated(v.servers) else None,
        if promotion.Some? && Recorded(v).value != "" then [Recorded(v).value] else [],
        Unfenced(v.servers, active))
  }

  method Evaluate(v: ClusterView) returns (d: Decision)
    ensures d == Decide(v)
  {
    if !v.armed {
      return NOTHING;
    }
    var threshold := if v.threshold < 1 then 1 else v.threshold;
    var actions: seq<Action>, newActive: Option<string>, fence, unfence := [], None, [], [];
    var active := v.active;
    if active.None? {
      active := Designated(v.servers);
      newActive := active;
    }
    var activeDown := false;
    if active.Some? {
      var s := Find(v.servers, active.value);
      activeDown := s.Some? && !s.value.healthy && s.value.failures >= threshold;
    }
    assert active == Recorded(v) && activeDown == Down(v);
    if activeDown {
      var standby := Candidate(v.servers);
      if standby.Some? {
        actions := [Promote(standby.value)];
        newActive := standby;
        if active.value != "" {
          fence := [active.value];
        }
        active := standby;
      }
    }
    var activeSid := if active.Some? then active.value else "";
    assert activeSid == ActiveSid(v) && newActive == Decide(v).newActive && fence == Decide(v).fence;
    actions, unfence := SweepFenced(v.servers, activeSid, actions);
    actions := SweepStrays(v.servers, activeSid, actions);
    d := Decision(actions, newActive, fence, unfence);
  }

  /** Fence-on-return: a fenced server that is healthy again is demoted and unfenced. */
  method SweepFenced(servers: seq<ServerView>, active: string, first: seq<Action>)
    returns (actions: seq<Action>, unfence: seq<string>)
    ensures actions == first + FencedDemotions(servers, active)
    ensures unfence == Unfenced(servers, active)
  {
    actions, unfence := first, [];
    for i := 0 to |servers|
      invariant actions == first + FencedDemotions(servers[..i], active)
      invariant unfence == Unfenced(servers[..i], active)
    {
      var s := servers[i];
      assert servers[..i + 1][..i] == servers[..i];
      if s.fenced && s.healthy && s.sid != active {
        if s.actsPrimary {
          actions := actions + [Demote(s.sid)];
        }
        unfence := unfence + [s.sid];
      }
    }
    assert servers[..|servers|] == servers;
  }

  /** Split-brain guard: a reachable stray primary is demoted, once. */
  method SweepStrays(servers: seq<ServerView>, active: string, sofar: seq<Action>) returns (actions: seq<Action>)
    ensures actions == StraySweep(servers, active, sofar)
  {
    actions := sofar;
    for i := 0 to |servers|
      invariant actions == StraySweep(servers[..i], active, sofar)
    {
      var s := servers[i];
      assert servers[..i + 1][..i] == servers[..i];
      if s.healthy && s.actsPrimary && s.sid != active && !s.fenced {
        if Demote(s.sid) !in actions {
          actions := actions + [Demote(s.sid)];
        }
      }
    }
    assert servers[..|servers|] == servers;
  }

  // ---- What the lists hold ---------------------------------------------------------------

  ghost predicate Distinct(servers: seq<ServerView>) {
    && (forall s <- servers :: s.sid != "")
    && forall i, j :: 0 <= i < j < |servers| ==> servers[i].sid != servers[j].sid
  }

  lemma {:induction false} FencedDemotionsHold(servers: seq<ServerView>, active: string, a: Action)
    ensures a in FencedDemotions(servers, active) <==>
      a.Demote? && exists s <- servers :: s.sid == a.sid && Returning(s, active) && s.actsPrimary
  {
    if servers != [] {
      SplitLast(servers);
      FencedDemotionsHold(servers[..|servers| - 1], active, a);
      assert servers[|servers| - 1] in servers;
    }
  }

  lemma {:induction false} UnfencedHold(servers: seq<ServerView>, active: string, x: string)
    ensures x in Unfenced(servers, active) <==> exists s <- servers :: s.sid == x && Returning(s, active)
  {
    if servers != [] {
      SplitLast(servers);
      UnfencedHold(servers[..|servers| - 1], active, x);
      assert servers[|servers| - 1] in servers;
    }
  }

  lemma {:induction false} StraySweepHolds(servers: seq<ServerView>, active: string, sofar: seq<Action>, a: Action)
    ensures a in StraySweep(servers, active, sofar) <==>
      a in sofar || (a.Demote? && exists s <- servers :: s.sid == a.sid && Stray(s, active))
  {
    if servers != [] {
      SplitLast(servers);
      StraySweepHolds(servers[..|servers| - 1], active, sofar, a);
      assert servers[|servers| - 1] in servers;
    }
  }

  /** A command is issued for exactly these reasons: the one promotion that is due, and one
      demotion for every healthy server that acts as primary without being the active one,
      whatever its designated role. */
  lemma CommandsIssued(v: ClusterView, a: Action)
    requires v.armed
    ensures a in Decide(v).actions <==>
      match a
      case Promote(x) => Promotion(v) == Some(x)
      case Demote(x) => x != ActiveSid(v) && exists s <- v.servers :: s.sid == x && s.healthy && s.actsPrimary
  {
    var active := ActiveSid(v);
    var first := if Promotion(v).Some? then [Promote(Promotion(v).value)] else [];
    StraySweepHolds(v.servers, active, first + FencedDemotions(v.servers, active), a);
    FencedDemotionsHold(v.servers, active, a);
  }

  /** A standby is promoted exactly when the effective primary is registered, unhealthy and at
      or over the threshold while an eligible standby exists; it is then the least one. */
  lemma PromotionDue(v: ClusterView, q: string)
    requires v.armed && Distinct(v.servers)
    ensures Promote(q) in Decide(v).actions <==>
      && (exists p <- v.servers :: Recorded(v) == Some(p.sid) && !p.healthy
            && p.failures >= v.threshold && p.failures >= 1)
      && (exists s <- v.servers :: s.sid == q && Eligible(s))
      && (forall s <- v.servers :: Eligible(s) && s.sid != q ==> Less(q, s.sid))
  {
    CommandsIssued(v, Promote(q));
    forall p | p in v.servers && Recorded(v) == Some(p.sid) ensures Find(v.servers, p.sid) == Some(p) {
      FindUnique(v.servers, p);
    }
    var c := Candidate(v.servers);
    if c.Some? {
      forall s <- v.servers | Eligible(s) && s.sid != c.value ensures Less(c.value, s.sid) {
        LessTotal(s.sid, c.value);
      }
      if exists s <- v.servers :: s.sid == q && Eligible(s) {
        if q != c.value && forall s <- v.servers :: Eligible(s) && s.sid != q ==> Less(q, s.sid) {
          LessAsymmetric(c.value, q);
        }
      }
    }
  }

  lemma {:induction false} FindUnique(servers: seq<ServerView>, s: ServerView)
    requires Distinct(servers) && s in servers
    ensures Find(servers, s.sid) == Some(s)
  {
    if servers[0].sid != s.sid { FindUnique(servers[1..], s); }
  }

  /** One decision never promotes and demotes the same server, nor fences and unfences it. */
  lemma DecisionIsConsistent(v: ClusterView, x: string)
    requires Distinct(v.servers)
    ensures !(Promote(x) in Decide(v).actions && Demote(x) in Decide(v).actions)
    ensures !(x in Decide(v).fence && x in Decide(v).unfence)
  {
    if v.armed {
      CommandsIssued(v, Promote(x));
      CommandsIssued(v, Demote(x));
      UnfencedHold(v.servers, ActiveSid(v), x);
      forall s | s in v.servers && s.sid == x ensures Find(v.servers, x) == Some(s) {
        FindUnique(v.servers, s);
      }
    }
  }

  /** A server without a role is demoted like any other: exactly when it is healthy and acts as primary
      without being the active one. */
  lemma UnsetIsDemotedIff(v: ClusterView, s: ServerView)
    requires v.armed && Distinct(v.servers) && s in v.servers && s.intent.Unset?
    ensures Demote(s.sid) in Decide(v).actions <==> s.healthy && s.actsPrimary && s.sid != ActiveSid(v)
  {
    CommandsIssued(v, Demote(s.sid));
    FindUnique(v.servers, s);
    forall t | t in v.servers && t.sid == s.sid ensures t == s { FindUnique(v.servers, t); }
  }

  /** Such a server, beside a healthy active primary. */
  lemma UnsetIsDemoted()
    ensures var p, s := ServerView("p", Primary, true, 0, false, true), ServerView("s", Unset, true, 0, false, true);
      Demote("s") in Decide(ClusterView(true, 3, Some("p"), [p, s])).actions
  {
    var p, s := ServerView("p", Primary, true, 0, false, true), ServerView("s", Unset, true, 0, false, true);
    var v := ClusterView(true, 3, Some("p"), [p, s]);
    assert v.servers[0] == p && v.servers[1] == s;
    FindUnique(v.servers, p);
    UnsetIsDemotedIff(v, s);
  }

  /** No failback: a recorded primary that is registered and healthy keeps its place. */
  lemma HealthyPrimaryStays(v: ClusterView, p: ServerView)
    requires Distinct(v.servers) && p in v.servers && p.healthy && v.active == Some(p.sid)
    ensures Decide(v).newActive.None? && Decide(v).fence == []
    ensures forall a <- Decide(v).actions :: a.Demote? && a.sid != p.sid
  {
    FindUnique(v.servers, p);
    forall a <- Decide(v).actions ensures a.Demote? && a.sid != p.sid {
      CommandsIssued(v, a);
    }
  }

  // ---- Carrying a decision out -----------------------------------------------------------

  ghost predicate PromoteOk(d: Decision, ok: Action -> bool) {
    forall a <- d.actions :: a.Promote? ==> ok(a)
  }

  /** A server after the commands of `d` were sent: its role follows the commands that
      succeeded, its fencing flag moves only if no promotion failed. */
  ghost function Served(s: ServerView, d: Decision, ok: Action -> bool): ServerView {
    s.(actsPrimary :=
         if Demote(s.sid) in d.actions && ok(Demote(s.sid)) then false
         else if Promote(s.sid) in d.actions && ok(Promote(s.sid)) then true
         else s.actsPrimary,
       fenced := FenceAfter(s.sid, s.fenced, d, PromoteOk(d, ok)))
  }

  function FenceAfter(sid: string, was: bool, d: Decision, promoteOk: bool): bool {
    if !promoteOk then was
    else if sid in d.unfence then false
    else if sid in d.fence then true
    else was
  }

  function ActiveAfter(was: Option<string>, d: Decision, promoteOk: bool): Option<string> {
    if promoteOk && d.newActive.Some? then d.newActive else was
  }

  /** One round: evaluate, send the commands, persist. Health and failure counts stay. */
  ghost function After(v: ClusterView, ok: Action -> bool): ClusterView {
    var d := Decide(v);
    v.(active := ActiveAfter(v.active, d, PromoteOk(d, ok)),
       servers := seq(|v.servers|, i requires 0 <= i < |v.servers| => Served(v.servers[i], d, ok)))
  }

  lemma {:induction false} FindServed(servers: seq<ServerView>, d: Decision, ok: Action -> bool,
                                      out: seq<ServerView>, x: string)
    requires |out| == |servers|
    requires forall i :: 0 <= i < |out| ==> out[i] == Served(servers[i], d, ok)
    ensures Find(servers, x).Some? <==> Find(out, x).Some?
    ensures Find(servers, x).Some? ==> Find(out, x).value == Served(Find(servers, x).value, d, ok)
    ensures Designated(out) == Designated(servers)
  {
    if servers != [] {
      assert out[0] == Served(servers[0], d, ok);
      FindServed(servers[1..], d, ok, out[1..], x);
    }
  }

  lemma RoundKeepsIdsAndHealth(v: ClusterView, ok: Action -> bool)
    ensures Distinct(v.servers) ==> Distinct(After(v, ok).servers)
    ensures Designated(After(v, ok).servers) == Designated(v.servers)
    ensures forall s <- After(v, ok).servers :: exists t <- v.servers :: s == Served(t, Decide(v), ok)
    ensures forall t <- v.servers :: Served(t, Decide(v), ok) in After(v, ok).servers
  {
    var w := After(v, ok).servers;
    FindServed(v.servers, Decide(v), ok, w, "");
    forall s <- w ensures exists t <- v.servers :: s == Served(t, Decide(v), ok) {
      var i :| 0 <= i < |w| && w[i] == s;
      assert v.servers[i] in v.servers;
    }
    forall t <- v.servers ensures Served(t, Decide(v), ok) in w {
      var i :| 0 <= i < |v.servers| && v.servers[i] == t;
      assert w[i] == Served(t, Decide(v), ok);
    }
  }

  /** After a round whose commands all succeed, no healthy server but the active one acts as
      primary, no healthy server but the active one is fenced, and the active one is recorded. */
  lemma OneActingPrimary(v: ClusterView, ok: Action -> bool)
    requires v.armed && Distinct(v.servers)
    requires forall a <- Decide(v).actions :: ok(a)
    ensures Recorded(After(v, ok)) == Effective(v)
    ensures Effective(v).Some? ==> After(v, ok).active == Effective(v)
    ensures forall s <- After(v, ok).servers ::
      s.healthy && s.sid != ActiveSid(v) ==> !s.actsPrimary && !s.fenced
  {
    var w := After(v, ok);
    RoundKeepsIdsAndHealth(v, ok);
    ActiveIsRecorded(v, ok);
    forall s <- w.servers | s.healthy && s.sid != ActiveSid(v) ensures !s.actsPrimary && !s.fenced {
      var t :| t in v.servers && s == Served(t, Decide(v), ok);
      OthersAreDemoted(v, ok, t);
    }
  }

  lemma ActiveIsRecorded(v: ClusterView, ok: Action -> bool)
    requires v.armed && (forall a <- Decide(v).actions :: ok(a))
    requires Designated(After(v, ok).servers) == Designated(v.servers)
    ensures Recorded(After(v, ok)) == Effective(v)
    ensures Effective(v).Some? ==> After(v, ok).active == Effective(v)
  {
  }

  lemma OthersAreDemoted(v: ClusterView, ok: Action -> bool, t: ServerView)
    requires v.armed && Distinct(v.servers) && t in v.servers && t.healthy && t.sid != ActiveSid(v)
    requires forall a <- Decide(v).actions :: ok(a)
    ensures var s := Served(t, Decide(v), ok); !s.actsPrimary && !s.fenced
  {
    CommandsIssued(v, Demote(t.sid));
    CommandsIssued(v, Promote(t.sid));
    UnfencedHold(v.servers, ActiveSid(v), t.sid);
    FindUnique(v.servers, t);
  }

  /** Exactly when an evaluation has nothing to do. */
  lemma QuietExactlyWhenSettled(v: ClusterView)
    requires v.armed
    ensures Decide(v).IsEmpty() <==>
      && Promotion(v).None?
      && (v.active.Some? || Designated(v.servers).None?)
      && forall s <- v.servers :: s.healthy && s.sid != ActiveSid(v) ==> !s.actsPrimary && !s.fenced
  {
    var d := Decide(v);
    forall s <- v.servers | s.healthy && s.sid != ActiveSid(v)
      ensures s.fenced ==> s.sid in d.unfence
      ensures s.actsPrimary ==> Demote(s.sid) in d.actions
    {
      UnfencedHold(v.servers, ActiveSid(v), s.sid);
      CommandsIssued(v, Demote(s.sid));
    }
    if d.actions != [] { CommandsIssued(v, d.actions[0]); }
    if d.unfence != [] { UnfencedHold(v.servers, ActiveSid(v), d.unfence[0]); }
    if Promotion(v).Some? { CommandsIssued(v, Promote(Promotion(v).value)); }
  }

  lemma DownServed(v: ClusterView, ok: Action -> bool)
    requires Recorded(After(v, ok)) == Recorded(v)
    ensures Down(After(v, ok)) == Down(v)
  {
    if Recorded(v).Some? {
      FindServed(v.servers, Decide(v), ok, After(v, ok).servers, Recorded(v).value);
    }
  }

  /** The one way a second round can have work left: the primary is down and its only healthy
      standbys were still fenced in the first round, which unfenced them. */
  ghost predicate OnlyFencedStandbys(v: ClusterView) {
    && Down(v) && Candidate(v.servers).None?
    && exists s <- v.servers :: s.intent.Standby? && s.healthy
  }

  lemma PromotedIsHealthy(v: ClusterView)
    requires Distinct(v.servers) && Promotion(v).Some?
    ensures Find(v.servers, Promotion(v).value).Some? && Find(v.servers, Promotion(v).value).value.healthy
    ensures Promotion(v) != Recorded(v)
  {
    var s :| s in v.servers && s.sid == Promotion(v).value && Eligible(s);
    FindUnique(v.servers, s);
  }

  /** After a promotion the new primary is healthy, and nothing is left to promote. */
  lemma AfterPromotion(v: ClusterView, ok: Action -> bool)
    requires v.armed && Distinct(v.servers) && Promotion(v).Some?
    requires forall a <- Decide(v).actions :: ok(a)
    ensures Promotion(After(v, ok)).None? && ActiveSid(After(v, ok)) == ActiveSid(v)
  {
    var w := After(v, ok);
    OneActingPrimary(v, ok);
    PromotedIsHealthy(v);
    FindServed(v.servers, Decide(v), ok, w.servers, Promotion(v).value);
    assert !Down(w);
  }

  /** Without one the next round promotes exactly if this one made standbys eligible. */
  lemma AfterNoPromotion(v: ClusterView, ok: Action -> bool)
    requires v.armed && Distinct(v.servers) && Promotion(v).None?
    requires forall a <- Decide(v).actions :: ok(a)
    ensures Promotion(After(v, ok)).Some? <==> OnlyFencedStandbys(v)
    ensures Promotion(After(v, ok)).None? ==> ActiveSid(After(v, ok)) == ActiveSid(v)
  {
    OneActingPrimary(v, ok);
    DownServed(v, ok);
    if Down(v) { StandbysUnfenced(v, ok); }
  }

  lemma SecondRoundWork(v: ClusterView, ok: Action -> bool)
    requires v.armed && Distinct(v.servers)
    requires forall a <- Decide(v).actions :: ok(a)
    ensures Decide(After(v, ok)).IsEmpty() <==> !OnlyFencedStandbys(v)
    ensures Promotion(After(v, ok)).Some? <==> OnlyFencedStandbys(v)
  {
    if Promotion(v).Some? { AfterPromotion(v, ok); } else { AfterNoPromotion(v, ok); }
    QuietUnlessPromotion(v, ok);
  }

  /** All a round leaves to the next is a promotion. */
  lemma QuietUnlessPromotion(v: ClusterView, ok: Action -> bool)
    requires v.armed && Distinct(v.servers) && forall a <- Decide(v).actions :: ok(a)
    requires Promotion(After(v, ok)).None? ==> ActiveSid(After(v, ok)) == ActiveSid(v)
    ensures Decide(After(v, ok)).IsEmpty() <==> Promotion(After(v, ok)).None?
  {
    OneActingPrimary(v, ok);
    QuietExactlyWhenSettled(After(v, ok));
  }

  /** With the primary down and nobody eligible, the round makes every healthy standby eligible. */
  lemma StandbysUnfenced(v: ClusterView, ok: Action -> bool)
    requires v.armed && Distinct(v.servers) && Down(v) && Promotion(v).None?
    requires forall a <- Decide(v).actions :: ok(a)
    ensures Candidate(After(v, ok).servers).Some? <==> exists s <- v.servers :: s.intent.Standby? && s.healthy
  {
    var w := After(v, ok);
    OneActingPrimary(v, ok);
    RoundKeepsIdsAndHealth(v, ok);
    if exists s <- v.servers :: s.intent.Standby? && s.healthy {
      var s :| s in v.servers && s.intent.Standby? && s.healthy;
      FindUnique(v.servers, s);
      var t := Served(s, Decide(v), ok);
      assert t in w.servers && t.sid != ActiveSid(v) && Eligible(t);
    }
  }

  lemma SecondRoundSuffices(w: ClusterView)
    requires w.armed && Distinct(w.servers)
    requires Decide(w).IsEmpty() || Promotion(w).Some?
    ensures !OnlyFencedStandbys(w)
  {
    if Down(w) && Promotion(w).None? {
      QuietExactlyWhenSettled(w);
      forall s <- w.servers | s.intent.Standby? && s.healthy ensures false {
        FindUnique(w.servers, s);
        assert Eligible(s);
      }
    }
  }

  /** Every command succeeds. */
  const ALL_OK: Action -> bool := a => true

  ghost function Rounds(v: ClusterView, n: nat): ClusterView
    decreases n
  {
    if n == 0 then v else After(Rounds(v, n - 1), ALL_OK)
  }

  lemma QuietRoundChangesNothing(v: ClusterView, ok: Action -> bool)
    requires Decide(v).IsEmpty()
    ensures After(v, ok) == v
  {
    assert After(v, ok).servers == v.servers;
  }

  lemma TwoRoundsSettle(v: ClusterView)
    requires v.armed && Distinct(v.servers)
    ensures Decide(Rounds(v, 2)).IsEmpty()
  {
    var w := After(v, ALL_OK);
    assert Rounds(v, 1) == w by { assert Rounds(v, 0) == v; }
    RoundKeepsIdsAndHealth(v, ALL_OK);
    SecondRoundWork(v, ALL_OK);
    SecondRoundSuffices(w);
    SecondRoundWork(w, ALL_OK);
  }

  /** Convergence: at most two rounds have anything to do, from any snapshot, and the second
      only when the standbys had to be unfenced first; from then on every round is idle. */
  lemma {:induction false} AtMostTwoBusyRounds(v: ClusterView, n: nat)
    requires Distinct(v.servers)
    ensures n >= 2 ==> Decide(Rounds(v, n)).IsEmpty() && Rounds(v, n) == Rounds(v, 2)
    ensures n == 1 && v.armed ==> (Decide(Rounds(v, 1)).IsEmpty() <==> !OnlyFencedStandbys(v))
  {
    if !v.armed {
      UnarmedStays(v, n);
      UnarmedStays(v, 2);
    } else if n == 1 {
      FirstRound(v);
    } else if n == 2 {
      TwoRoundsSettle(v);
    } else if n > 2 {
      AtMostTwoBusyRounds(v, n - 1);
      QuietStays(v, n - 1);
    }
  }

  lemma FirstRound(v: ClusterView)
    requires v.armed && Distinct(v.servers)
    ensures Decide(Rounds(v, 1)).IsEmpty() <==> !OnlyFencedStandbys(v)
  {
    assert Rounds(v, 1) == After(v, ALL_OK) by { assert Rounds(v, 0) == v; }
    SecondRoundWork(v, ALL_OK);
  }

  lemma QuietStays(v: ClusterView, n: nat)
    requires Decide(Rounds(v, n)).IsEmpty()
    ensures Rounds(v, n + 1) == Rounds(v, n)
  {
    QuietRoundChangesNothing(Rounds(v, n), ALL_OK);
  }

  lemma UnarmedRound(v: ClusterView, ok: Action -> bool)
    requires !v.armed
    ensures After(v, ok) == v
  {
    QuietRoundChangesNothing(v, ok);
  }

  lemma {:induction false} UnarmedStays(v: ClusterView, n: nat)
    requires !v.armed
    ensures Rounds(v, n) == v
  {
    if n > 0 {
      UnarmedStays(v, n - 1);
      assert Rounds(v, n) == After(v, ALL_OK);
      UnarmedRound(v, ALL_OK);
    }
  }

  /** A demotion whose command failed is issued again by the next evaluation of the same health,
      unless that evaluation makes this very server the active primary. */
  lemma FailedDemotionIsReissued(v: ClusterView, ok: Action -> bool, x: string)
    requires v.armed && Distinct(v.servers)
    requires Demote(x) in Decide(v).actions && !ok(Demote(x))
    ensures Demote(x) in Decide(After(v, ok)).actions <==> ActiveSid(After(v, ok)) != x
    ensures ActiveSid(After(v, ok)) == ActiveSid(v) ==> Demote(x) in Decide(After(v, ok)).actions
  {
    var w := After(v, ok);
    CommandsIssued(v, Demote(x));
    CommandsIssued(v, Promote(x));
    var s :| s in v.servers && s.sid == x && s.healthy && s.actsPrimary;
    RoundKeepsIdsAndHealth(v, ok);
    assert Served(s, Decide(v), ok).actsPrimary;
    CommandsIssued(w, Demote(x));
  }
}
