/** The self-healing topology manager: each pass reads replication health, withdraws or re-seeds
    the DNS locators of controllers that died or recovered, and reconciles its agents with the
    partners the ring asks for. */
module Topology {
  import opened Ring

  /** A controller as the topology knows it. `located` says whether its service name and address
      yield a locator identity. */
  datatype Dc = Dc(id: string, drs: string, located: bool)

  function Ids(dcs: seq<Dc>): (ids: seq<string>)
    ensures |ids| == |dcs| && forall i :: 0 <= i < |dcs| ==> ids[i] == dcs[i].id
  {
    if dcs == [] then [] else [dcs[0].id] + Ids(dcs[1..])
  }

  predicate IsDead(dc: Dc, health: map<string, nat>, threshold: nat) {
    dc.drs in health && health[dc.drs] >= if threshold < 1 then 1 else threshold
  }

  function DeadPeers(dcs: seq<Dc>, health: map<string, nat>, threshold: nat): set<string> {
    set dc | dc in dcs && IsDead(dc, health, threshold) :: dc.id
  }

  /** Raising the threshold never declares more controllers dead, and a controller without
      recorded failures never is. */
  lemma DeadPeersMonotone(dcs: seq<Dc>, health: map<string, nat>, low: nat, high: nat)
    requires low <= high
    ensures DeadPeers(dcs, health, high) <= DeadPeers(dcs, health, low)
    ensures (forall dc <- dcs :: dc.drs !in health || health[dc.drs] == 0) ==> DeadPeers(dcs, health, low) == {}
  {
    forall x <- DeadPeers(dcs, health, high) ensures x in DeadPeers(dcs, health, low) {
      var dc :| dc in dcs && IsDead(dc, health, high) && dc.id == x;
      assert IsDead(dc, health, low);
    }
  }

  datatype Event = Withdrew(id: string) | Reseeded(id: string)

  datatype Locators = Locators(withdrawn: set<string>, log: seq<Event>)

  /** One controller's turn: act only on a transition, and record it only if DNS accepted it. */
  function Turn(l: Locators, dc: Dc, dead: set<string>, ok: bool): Locators {
    if !dc.located || !ok then l
    else if dc.id in dead && dc.id !in l.withdrawn then
      Locators(l.withdrawn + {dc.id}, l.log + [Withdrew(dc.id)])
    else if dc.id !in dead && dc.id in l.withdrawn then
      Locators(l.withdrawn - {dc.id}, l.log + [Reseeded(dc.id)])
    else l
  }

  function Turns(l: Locators, dcs: seq<Dc>, dead: set<string>, ok: nat -> bool): Locators {
    if dcs == [] then l
    else Turn(Turns(l, dcs[..|dcs| - 1], dead, ok), dcs[|dcs| - 1], dead, ok(|dcs| - 1))
  }

  class TopologyManager {
    const dcs: seq<Dc>
    const selfId: string
    var running: set<string>
    var withdrawn: set<string>
    var log: seq<Event>

    constructor (dcs: seq<Dc>, selfId: string)
      ensures this.dcs == dcs && this.selfId == selfId && running == {} && withdrawn == {} && log == []
    {
      this.dcs, this.selfId := dcs, selfId;
      running, withdrawn, log := {}, {}, [];
    }

    /** One pass of the reconcile loop. `dnsOk(i)` is whether the DNS call for the `i`-th
        controller succeeds. Afterwards the agents are exactly the desired partners. */
    method Pass(health: map<string, nat>, threshold: nat, dnsOk: nat -> bool)
      modifies this
      ensures running == Desired(Ids(dcs), selfId, DeadPeers(dcs, health, threshold))
      ensures Locators(withdrawn, log)
           == Turns(old(Locators(withdrawn, log)), dcs, DeadPeers(dcs, health, threshold), dnsOk)
    {
      var dead := DeadPeers(dcs, health, threshold);
      UpdateLocators(dead, dnsOk);
      var staticRing := RingInboundPartners(Ids(dcs), selfId, {});
      var liveRing := RingInboundPartners(Ids(dcs), selfId, dead);
      Reconcile((set x | x in staticRing) + (set x | x in liveRing), dead);
    }

    method UpdateLocators(dead: set<string>, dnsOk: nat -> bool)
      modifies this`withdrawn, this`log
      ensures Locators(withdrawn, log) == Turns(old(Locators(withdrawn, log)), dcs, dead, dnsOk)
    {
      for i := 0 to |dcs|
        invariant Locators(withdrawn, log) == Turns(old(Locators(withdrawn, log)), dcs[..i], dead, dnsOk)
      {
        assert dcs[..i + 1][..i] == dcs[..i];
        var dc := dcs[i];
        if dc.located {
          if dc.id in dead && dc.id !in withdrawn {
            if dnsOk(i) {
              withdrawn, log := withdrawn + {dc.id}, log + [Withdrew(dc.id)];
            }
          } else if dc.id !in dead && dc.id in withdrawn {
            if dnsOk(i) {
              withdrawn, log := withdrawn - {dc.id}, log + [Reseeded(dc.id)];
            }
          }
        }
      }
      assert dcs[..|dcs|] == dcs;
    }

    /** Stop the agents no longer desired, start the missing ones; an id that is not listed could
        not be started, but every desired id is. */
    method Reconcile(desired: set<string>, ghost dead: set<string>)
      requires desired == Desired(Ids(dcs), selfId, dead)
      modifies this`running
      ensures running == desired
    {
      running := set x | x in running && x in desired;
      var left := desired;
      while left != {}
        invariant left <= desired && running <= desired && desired - left <= running
        decreases left
      {
        var id :| id in left;
        if id !in running {
          DesiredAreListed(dcs, selfId, dead, id);
          if id in Ids(dcs) {
            running := running + {id};
          }
        }
        left := left - {id};
      }
    }
  }

  lemma DesiredAreListed(dcs: seq<Dc>, self: string, dead: set<string>, x: string)
    requires x in Desired(Ids(dcs), self, dead)
    ensures x in Ids(dcs) && x != self
  {
    PartnersAgree(Ids(dcs), {}, self, x);
    PartnersAgree(Ids(dcs), dead, self, x);
  }

  // ---- Withdrawals and re-seeds over whole runs --------------------------------------------

  /** One reconcile pass of a run: who was dead, and which DNS calls succeeded. */
  datatype PassInput = PassInput(dead: set<string>, ok: nat -> bool)

  ghost function RunLocators(dcs: seq<Dc>, passes: seq<PassInput>): Locators {
    if passes == [] then Locators({}, [])
    else
      var p := passes[|passes| - 1];
      Turns(RunLocators(dcs, passes[..|passes| - 1]), dcs, p.dead, p.ok)
  }

  /** The events of one controller, oldest first; `true` is a withdrawal. */
  function History(log: seq<Event>, id: string): seq<bool> {
    if log == [] then []
    else
      History(log[..|log| - 1], id)
      + match log[|log| - 1]
        case Withdrew(x) => if x == id then [true] else []
        case Reseeded(x) => if x == id then [false] else []
  }

  ghost predicate Alternates(h: seq<bool>) {
    forall i :: 0 <= i < |h| ==> (h[i] <==> i % 2 == 0)
  }

  ghost predicate Balanced(l: Locators, id: string) {
    Alternates(History(l.log, id)) && (id in l.withdrawn <==> |History(l.log, id)| % 2 == 1)
  }

  lemma TurnKeepsBalance(l: Locators, dc: Dc, dead: set<string>, ok: bool, id: string)
    requires Balanced(l, id)
    ensures Balanced(Turn(l, dc, dead, ok), id)
  {
    var t := Turn(l, dc, dead, ok);
    if t != l {
      assert t.log[..|t.log| - 1] == l.log;
    }
  }

  lemma {:induction false} TurnsKeepBalance(l: Locators, dcs: seq<Dc>, dead: set<string>, ok: nat -> bool, id: string)
    requires Balanced(l, id)
    ensures Balanced(Turns(l, dcs, dead, ok), id)
  {
    if dcs != [] {
      TurnsKeepBalance(l, dcs[..|dcs| - 1], dead, ok, id);
      TurnKeepsBalance(Turns(l, dcs[..|dcs| - 1], dead, ok), dcs[|dcs| - 1], dead, ok(|dcs| - 1), id);
    }
  }

  /** Over every run of passes, each controller's successful withdrawals and re-seeds strictly
      alternate, a withdrawal first, and it counts as withdrawn exactly in between. */
  lemma {:induction false} WithdrawalsAlternate(dcs: seq<Dc>, passes: seq<PassInput>, id: string)
    ensures var l := RunLocators(dcs, passes);
      Alternates(History(l.log, id)) && (id in l.withdrawn <==> |History(l.log, id)| % 2 == 1)
  {
    if passes != [] {
      WithdrawalsAlternate(dcs, passes[..|passes| - 1], id);
      var p := passes[|passes| - 1];
      TurnsKeepBalance(RunLocators(dcs, passes[..|passes| - 1]), dcs, p.dead, p.ok, id);
    }
  }

  predicate CanBeLocated(dcs: seq<Dc>, id: string) { exists dc <- dcs :: dc.id == id && dc.located }

  /** A pass whose DNS calls all succeed leaves a listed controller withdrawn exactly when it is dead, if
      it can be located, and as it was, if it cannot. */
  lemma {:induction false} CleanPassMatchesDeaths(l: Locators, dcs: seq<Dc>, dead: set<string>, ok: nat -> bool,
                                                  id: string)
    requires forall k :: 0 <= k < |dcs| ==> ok(k)
    ensures id in Turns(l, dcs, dead, ok).withdrawn <==> if CanBeLocated(dcs, id) then id in dead else id in l.withdrawn
  {
    if dcs != [] {
      var init, dc := dcs[..|dcs| - 1], dcs[|dcs| - 1];
      CleanPassMatchesDeaths(l, init, dead, ok, id);
      assert dcs == init + [dc];
      assert CanBeLocated(dcs, id) <==> CanBeLocated(init, id) || (dc.id == id && dc.located);
    }
  }

  /** So, over every run, a controller that cannot be located is never withdrawn. */
  lemma {:induction false} UnlocatableStays(dcs: seq<Dc>, passes: seq<PassInput>, id: string)
    requires !CanBeLocated(dcs, id)
    ensures id !in RunLocators(dcs, passes).withdrawn
  {
    if passes != [] {
      var p := passes[|passes| - 1];
      UnlocatableStays(dcs, passes[..|passes| - 1], id);
      TurnsLeaveUnlocatable(RunLocators(dcs, passes[..|passes| - 1]), dcs, p.dead, p.ok, id);
    }
  }

  lemma {:induction false} TurnsLeaveUnlocatable(l: Locators, dcs: seq<Dc>, dead: set<string>, ok: nat -> bool,
                                                 id: string)
    requires !CanBeLocated(dcs, id)
    ensures id in Turns(l, dcs, dead, ok).withdrawn <==> id in l.withdrawn
  {
    if dcs != [] {
      var init, dc := dcs[..|dcs| - 1], dcs[|dcs| - 1];
      assert dcs == init + [dc] && dc in dcs;
      assert forall d <- init :: d in dcs;
      TurnsLeaveUnlocatable(l, init, dead, ok, id);
    }
  }
}
