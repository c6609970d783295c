/** Rounds of the whole control plane: every cluster is judged and commanded, and the next polls report
    the roles the servers then have. */
module FailoverRounds {
  import opened Ordering
  import opened Failover
  import opened FailoverRun

  function ClusterOf(clusters: seq<ClusterRow>, cid: string): (c: Option<ClusterRow>)
    ensures c.Some? ==> c.value in clusters && c.value.cid == cid
    ensures c.None? ==> forall d <- clusters :: d.cid != cid
  {
    if clusters == [] then None
    else if clusters[0].cid == cid then Some(clusters[0])
    else ClusterOf(clusters[1..], cid)
  }

  /** The role a server has once the commands of its cluster were carried out. */
  function RoleAfter(r: ServerRow, d: Decision): bool {
    if Demote(r.sid) in d.actions then false
    else if Promote(r.sid) in d.actions then true
    else r.actsPrimary
  }

  function ReportedRole(st: Store, r: ServerRow): bool {
    if r.cluster.None? || ClusterOf(st.clusters, r.cluster.value).None? then r.actsPrimary
    else RoleAfter(r, Decide(View(st, ClusterOf(st.clusters, r.cluster.value).value)))
  }

  const EVERY_COMMAND: (string, Action) -> bool := (c, a) => true

  /** One pass whose commands all succeed, and the polls after it; health stays. */
  ghost function Round(st: Store): (t: Store)
    ensures |t.servers| == |st.servers|
  {
    CommitAllCount(st, Verdicts(st, st.clusters, EVERY_COMMAND));
    var t := Tick(st, EVERY_COMMAND);
    t.(servers := seq(|st.servers|, i requires 0 <= i < |st.servers| =>
      t.servers[i].(actsPrimary := ReportedRole(st, st.servers[i]))))
  }

  lemma OwnCluster(st: Store, k: nat)
    requires Valid(st) && k < |st.clusters|
    ensures ClusterOf(st.clusters, st.clusters[k].cid) == Some(st.clusters[k])
  {
    var c := ClusterOf(st.clusters, st.clusters[k].cid);
    assert st.clusters[k] in st.clusters;
    var j :| 0 <= j < |st.clusters| && st.clusters[j] == c.value;
  }

  /** What a round makes of a server of the `k`th cluster. */
  lemma RowAfterRound(st: Store, k: nat, i: nat)
    requires Valid(st) && k < |st.clusters| && i < |st.servers| && st.servers[i].cluster == Some(st.clusters[k].cid)
    ensures ViewOf(Round(st).servers[i]) == Served(ViewOf(st.servers[i]), Decide(View(st, st.clusters[k])), ALL_OK)
  {
    var d := Decide(View(st, st.clusters[k]));
    var q := PassedRow(st, k, i, d);
    OwnCluster(st, k);
    RowIsServed(st.servers[i], q, st.clusters[k].cid, d);
  }

  lemma PassedRow(st: Store, k: nat, i: nat, d: Decision) returns (q: ServerRow)
    requires Valid(st) && k < |st.clusters| && i < |st.servers| && st.servers[i].cluster == Some(st.clusters[k].cid)
    requires d == Decide(View(st, st.clusters[k]))
    ensures q == RowAfter(st.servers[i], Verdict(st.clusters[k].cid, d, true))
    ensures Round(st).servers[i] == q.(actsPrimary := ReportedRole(st, st.servers[i]))
  {
    TickAt(st, EVERY_COMMAND);
    q := Tick(st, EVERY_COMMAND).servers[i];
    var vs := Verdicts(st, st.clusters, EVERY_COMMAND);
    assert vs[k] in vs && vs[k] == Verdict(st.clusters[k].cid, d, true);
    assert Follows(st.servers[i], vs, q);
  }

  lemma RowIsServed(r: ServerRow, q: ServerRow, cid: string, d: Decision)
    requires q == RowAfter(r, Verdict(cid, d, true))
    ensures ViewOf(q.(actsPrimary := RoleAfter(r, d))) == Served(ViewOf(r), d, ALL_OK)
  {
  }

  lemma RowIdsAfterRound(st: Store, i: nat)
    requires Valid(st) && i < |st.servers|
    ensures Round(st).servers[i].sid == st.servers[i].sid && Round(st).servers[i].cluster == st.servers[i].cluster
  {
    TickAt(st, EVERY_COMMAND);
    assert Follows(st.servers[i], Verdicts(st, st.clusters, EVERY_COMMAND), Tick(st, EVERY_COMMAND).servers[i]);
    FollowsKeepsIds(st.servers[i], Verdicts(st, st.clusters, EVERY_COMMAND), Tick(st, EVERY_COMMAND).servers[i]);
  }

  lemma FollowsKeepsIds(r: ServerRow, vs: seq<Verdict>, q: ServerRow)
    requires Follows(r, vs, q)
    ensures q.sid == r.sid && q.cluster == r.cluster
  {
    if v :| v in vs && r.cluster == Some(v.cid) {
      assert q == RowAfter(r, v);
    }
  }

  lemma ClustersAfterRound(st: Store)
    requires Valid(st)
    ensures var t := Round(st);
      && Valid(t) && |t.clusters| == |st.clusters|
      && forall k :: 0 <= k < |st.clusters| ==>
           t.clusters[k] == st.clusters[k].(active :=
             ActiveAfter(st.clusters[k].active, Decide(View(st, st.clusters[k])), true))
  {
    TickAt(st, EVERY_COMMAND);
    forall i | 0 <= i < |st.servers|
      ensures Round(st).servers[i].sid == st.servers[i].sid
    {
      RowIdsAfterRound(st, i);
    }
  }

  /** Members of a cluster, row by row. */
  lemma {:induction false} MembersServed(was: seq<ServerRow>, now: seq<ServerRow>, cid: string, d: Decision,
                                         ok: Action -> bool)
    requires |now| == |was| && forall i :: 0 <= i < |was| ==> now[i].cluster == was[i].cluster
    requires forall i :: 0 <= i < |was| && was[i].cluster == Some(cid) ==>
      ViewOf(now[i]) == Served(ViewOf(was[i]), d, ok)
    ensures |Members(now, cid)| == |Members(was, cid)|
    ensures forall j :: 0 <= j < |Members(was, cid)| ==> Members(now, cid)[j] == Served(Members(was, cid)[j], d, ok)
  {
    if was != [] {
      MembersServed(was[1..], now[1..], cid, d, ok);
    }
  }

  /** A round of the control plane is a round of every cluster. */
  lemma RoundIsEachClusters(st: Store, k: nat)
    requires Valid(st) && k < |st.clusters|
    ensures k < |Round(st).clusters|
    ensures View(Round(st), Round(st).clusters[k]) == After(View(st, st.clusters[k]), ALL_OK)
  {
    var t, c := Round(st), st.clusters[k];
    ClustersAfterRound(st);
    forall i | 0 <= i < |st.servers| ensures t.servers[i].cluster == st.servers[i].cluster { RowIdsAfterRound(st, i); }
    forall i | 0 <= i < |st.servers| && st.servers[i].cluster == Some(c.cid)
      ensures ViewOf(t.servers[i]) == Served(ViewOf(st.servers[i]), Decide(View(st, c)), ALL_OK)
    {
      RowAfterRound(st, k, i);
    }
    MembersServed(st.servers, t.servers, c.cid, Decide(View(st, c)), ALL_OK);
    assert Members(t.servers, c.cid) == After(View(st, c), ALL_OK).servers;
  }

  /** Idle clusters leave the store as it is. */
  lemma IdleRoundChangesNothing(st: Store)
    requires Valid(st) && Idle(st)
    ensures Round(st) == st
  {
    TickAt(st, EVERY_COMMAND);
    var t, vs := Tick(st, EVERY_COMMAND), Verdicts(st, st.clusters, EVERY_COMMAND);
    forall i | 0 <= i < |st.servers| ensures Round(st).servers[i] == st.servers[i] {
      IdleRow(st, vs, st.servers[i], t.servers[i]);
    }
    assert Round(st).servers == st.servers;
    assert Round(st).clusters == st.clusters;
  }

  lemma IdleRow(st: Store, vs: seq<Verdict>, r: ServerRow, q: ServerRow)
    requires Follows(r, vs, q) && forall v <- vs :: v.decision.IsEmpty()
    requires Idle(st)
    ensures q == r && ReportedRole(st, r) == r.actsPrimary
  {
    if v :| v in vs && r.cluster == Some(v.cid) {
      assert q == RowAfter(r, v);
    }
  }

  // ---- Rounds one after the other ----------------------------------------------------------

  ghost predicate IsRounds(run: seq<Store>) {
    && run != [] && Valid(run[0])
    && forall i {:trigger RoundAt(run, i)} :: 0 <= i < |run| - 1 ==> RoundAt(run, i)
  }

  ghost predicate RoundAt(run: seq<Store>, i: nat)
    requires i + 1 < |run|
  {
    run[i + 1] == Round(run[i])
  }

  ghost predicate Idle(st: Store) { forall c <- st.clusters :: Decide(View(st, c)).IsEmpty() }

  ghost predicate ViewMoves(s: Store, t: Store, k: nat)
    requires k < |s.clusters| == |t.clusters|
  {
    View(t, t.clusters[k]) == After(View(s, s.clusters[k]), ALL_OK)
  }

  /** What matters of a round when rounds follow each other. */
  ghost predicate Moves(s: Store, t: Store) {
    Valid(s) ==>
      && Valid(t) && |t.clusters| == |s.clusters|
      && (forall k {:trigger ViewMoves(s, t, k)} :: 0 <= k < |s.clusters| ==> ViewMoves(s, t, k))
      && (Idle(s) ==> t == s)
  }

  lemma RoundMoves(s: Store)
    ensures Moves(s, Round(s))
  {
    if Valid(s) {
      ClustersAfterRound(s);
      forall k | 0 <= k < |s.clusters| ensures ViewMoves(s, Round(s), k) { RoundIsEachClusters(s, k); }
      if Idle(s) { IdleRoundChangesNothing(s); }
    }
  }

  ghost predicate IsMoves(run: seq<Store>) {
    && run != [] && Valid(run[0])
    && forall i {:trigger MovesAt(run, i)} :: 0 <= i < |run| - 1 ==> MovesAt(run, i)
  }

  ghost predicate MovesAt(run: seq<Store>, i: nat)
    requires i + 1 < |run|
  {
    Moves(run[i], run[i + 1])
  }

  lemma RoundsMove(run: seq<Store>)
    requires IsRounds(run)
    ensures IsMoves(run)
  {
    forall i | 0 <= i < |run| - 1 ensures MovesAt(run, i) {
      assert RoundAt(run, i);
      RoundMoves(run[i]);
    }
  }

  lemma {:induction false} MovesKeepValid(run: seq<Store>, n: nat)
    requires IsMoves(run) && n < |run|
    ensures Valid(run[n]) && |run[n].clusters| == |run[0].clusters|
  {
    if n > 0 {
      MovesKeepValid(run, n - 1);
      assert MovesAt(run, n - 1);
    }
  }

  lemma {:induction false} MovesAreEachClusters(run: seq<Store>, n: nat, k: nat)
    requires IsMoves(run) && n < |run| && k < |run[0].clusters| == |run[n].clusters|
    ensures View(run[n], run[n].clusters[k]) == Rounds(View(run[0], run[0].clusters[k]), n)
  {
    if n > 0 {
      MovesKeepValid(run, n - 1);
      MovesAreEachClusters(run, n - 1, k);
      assert MovesAt(run, n - 1);
      OneViewMoves(run[n - 1], run[n], k, Rounds(View(run[0], run[0].clusters[k]), n - 1));
    }
  }

  lemma OneViewMoves(s: Store, t: Store, k: nat, v: ClusterView)
    requires Moves(s, t) && Valid(s) && k < |s.clusters| && View(s, s.clusters[k]) == v
    ensures k < |t.clusters| && View(t, t.clusters[k]) == After(v, ALL_OK)
  {
    assert ViewMoves(s, t, k);
  }

  lemma {:induction false} MovesSettle(run: seq<Store>, n: nat)
    requires IsMoves(run) && 2 <= n < |run|
    ensures run[n] == run[2] && Idle(run[n])
  {
    if n == 2 {
      forall c <- run[2].clusters ensures Decide(View(run[2], c)).IsEmpty() {
        var k :| 0 <= k < |run[2].clusters| && run[2].clusters[k] == c;
        TwoMovesSettleOne(run, k);
      }
    } else {
      MovesSettle(run, n - 1);
      MovesKeepValid(run, n - 1);
      assert MovesAt(run, n - 1);
    }
  }

  lemma TwoMovesSettleOne(run: seq<Store>, k: nat)
    requires IsMoves(run) && |run| > 2 && k < |run[2].clusters|
    ensures Decide(View(run[2], run[2].clusters[k])).IsEmpty()
  {
    MovesKeepValid(run, 2);
    MovesAreEachClusters(run, 2, k);
    MembersDistinct(run[0].servers, run[0].clusters[k].cid);
    AtMostTwoBusyRounds(View(run[0], run[0].clusters[k]), 2);
  }

  /** Convergence of the whole control plane: under fixed health, with every command succeeding, no
      cluster has anything to do after two rounds, and the store stays as it is from then on. */
  lemma EverythingSettles(run: seq<Store>, n: nat)
    requires IsRounds(run) && 2 <= n < |run|
    ensures run[n] == run[2] && Idle(run[n])
  {
    RoundsMove(run);
    MovesSettle(run, n);
  }

  /** No pass promotes and demotes one server, on behalf of one cluster or of two. */
  lemma PassIsConsistent(st: Store, k: nat, l: nat, x: string)
    requires Valid(st) && k < |st.clusters| && l < |st.clusters|
    ensures !(Promote(x) in Decide(View(st, st.clusters[k])).actions
              && Demote(x) in Decide(View(st, st.clusters[l])).actions)
  {
    var promotes, demotes := Promote(x) in Decide(View(st, st.clusters[k])).actions,
      Demote(x) in Decide(View(st, st.clusters[l])).actions;
    if promotes { CommandedIsMember(st, k, Promote(x)); }
    if demotes { CommandedIsMember(st, l, Demote(x)); }
    assert promotes && demotes ==> k == l;
    MembersDistinct(st.servers, st.clusters[k].cid);
    DecisionIsConsistent(View(st, st.clusters[k]), x);
  }

  lemma CommandedIsMember(st: Store, k: nat, a: Action)
    requires Valid(st) && k < |st.clusters| && a in Decide(View(st, st.clusters[k])).actions
    ensures exists r <- st.servers :: r.sid == a.sid && r.cluster == Some(st.clusters[k].cid)
  {
    var v := View(st, st.clusters[k]);
    CommandsIssued(v, a);
    var s :| s in v.servers && s.sid == a.sid;
    MembersHold(st.servers, st.clusters[k].cid, s);
  }
}
