/** The control plane's store and its whole runs: polls, failover ticks whose commands may fail,
    and the operator's edits in between. */
module FailoverRun {
  import opened Ordering
  import opened Failover

  datatype ServerRow = ServerRow(
    sid: string, cluster: Option<string>, intent: RoleIntent,
    lastOk: bool, failures: nat, fenced: bool, actsPrimary: bool)

  datatype ClusterRow = ClusterRow(cid: string, armed: bool, threshold: nat, active: Option<string>)

  datatype Store = Store(clusters: seq<ClusterRow>, servers: seq<ServerRow>)

  const DEFAULT_THRESHOLD: nat := 3

  function Threshold(c: ClusterRow): nat {
    if c.threshold == 0 then DEFAULT_THRESHOLD else c.threshold
  }

  function ViewOf(r: ServerRow): ServerView {
    ServerView(r.sid, r.intent, r.lastOk, r.failures, r.fenced, r.actsPrimary)
  }

  function Members(servers: seq<ServerRow>, cid: string): seq<ServerView> {
    if servers == [] then []
    else (if servers[0].cluster == Some(cid) then [ViewOf(servers[0])] else []) + Members(servers[1..], cid)
  }

  function View(st: Store, c: ClusterRow): ClusterView {
    ClusterView(c.armed, Threshold(c), c.active, Members(st.servers, c.cid))
  }

  // ---- UPDATE ... WHERE, as functions of the rows ------------------------------------------

  function SetActive(clusters: seq<ClusterRow>, cid: string, p: string): (r: seq<ClusterRow>)
    ensures |r| == |clusters|
    ensures forall i :: 0 <= i < |r| ==>
      r[i] == if clusters[i].cid == cid then clusters[i].(active := Some(p)) else clusters[i]
  {
    if clusters == [] then []
    else
      [if clusters[0].cid == cid then clusters[0].(active := Some(p)) else clusters[0]]
      + SetActive(clusters[1..], cid, p)
  }

  function SetFenced(servers: seq<ServerRow>, sid: string, on: bool): (r: seq<ServerRow>)
    ensures |r| == |servers|
    ensures forall i :: 0 <= i < |r| ==>
      r[i] == if servers[i].sid == sid then servers[i].(fenced := on) else servers[i]
  {
    if servers == [] then []
    else
      [if servers[0].sid == sid then servers[0].(fenced := on) else servers[0]]
      + SetFenced(servers[1..], sid, on)
  }

  /** A successful poll resets the counter and refreshes the role; a failed one counts. */
  function Polled(r: ServerRow, ok: bool, acts: bool): ServerRow {
    r.(lastOk := ok, failures := if ok then 0 else r.failures + 1, actsPrimary := ok && acts)
  }

  function RecordHealth(servers: seq<ServerRow>, sid: string, ok: bool, acts: bool): (r: seq<ServerRow>)
    ensures |r| == |servers|
    ensures forall i :: 0 <= i < |r| ==>
      r[i] == if servers[i].sid == sid then Polled(servers[i], ok, acts) else servers[i]
  {
    if servers == [] then []
    else
      [if servers[0].sid == sid then Polled(servers[0], ok, acts) else servers[0]]
      + RecordHealth(servers[1..], sid, ok, acts)
  }

  // ---- One failover tick -------------------------------------------------------------------

  function SetAllFenced(servers: seq<ServerRow>, sids: seq<string>, on: bool): seq<ServerRow> {
    if sids == [] then servers
    else SetFenced(SetAllFenced(servers, sids[..|sids| - 1], on), sids[|sids| - 1], on)
  }

  function PromotionSucceeds(cid: string, actions: seq<Action>, sent: (string, Action) -> bool): bool {
    forall a <- actions :: a.Promote? ==> sent(cid, a)
  }

  /** One cluster's decision together with whether its promotion, if any, was confirmed. */
  datatype Verdict = Verdict(cid: string, decision: Decision, promoteOk: bool)

  function Judge(st: Store, c: ClusterRow, sent: (string, Action) -> bool): Verdict {
    var d := Decide(View(st, c));
    Verdict(c.cid, d, PromotionSucceeds(c.cid, d.actions, sent))
  }

  /** The verdicts on the snapshot taken before the first cluster is handled. */
  function Verdicts(st: Store, clusters: seq<ClusterRow>, sent: (string, Action) -> bool): (r: seq<Verdict>)
    ensures |r| == |clusters| && forall i :: 0 <= i < |r| ==> r[i] == Judge(st, clusters[i], sent)
  {
    if clusters == [] then []
    else [Judge(st, clusters[0], sent)] + Verdicts(st, clusters[1..], sent)
  }

  /** What one cluster's pass persists. */
  function Commit(st: Store, v: Verdict): Store {
    var d := v.decision;
    if !v.promoteOk then st
    else
      var clusters := if d.newActive.Some? then SetActive(st.clusters, v.cid, d.newActive.value) else st.clusters;
      Store(clusters, SetAllFenced(SetAllFenced(st.servers, d.fence, true), d.unfence, false))
  }

  function CommitAll(st: Store, vs: seq<Verdict>): Store {
    if vs == [] then st else Commit(CommitAll(st, vs[..|vs| - 1]), vs[|vs| - 1])
  }

  function Tick(st: Store, sent: (string, Action) -> bool): Store {
    CommitAll(st, Verdicts(st, st.clusters, sent))
  }

  lemma CommitNext(st: Store, vs: seq<Verdict>, n: nat)
    requires n < |vs|
    ensures CommitAll(st, vs[..n + 1]) == Commit(CommitAll(st, vs[..n]), vs[n])
  {
    assert vs[..n + 1][..n] == vs[..n];
  }

  class CenterDb {
    var clusters: seq<ClusterRow>
    var servers: seq<ServerRow>

    function Contents(): Store
      reads this
    {
      Store(clusters, servers)
    }

    constructor ()
      ensures Contents() == Store([], [])
    {
      clusters, servers := [], [];
    }

    method RecordPoll(sid: string, ok: bool, acts: bool)
      modifies this`servers
      ensures servers == RecordHealth(old(servers), sid, ok, acts)
    {
      var i := 0;
      while i < |servers|
        invariant 0 <= i <= |servers| == |old(servers)|
        invariant forall j :: 0 <= j < i ==> servers[j] == RecordHealth(old(servers), sid, ok, acts)[j]
        invariant forall j :: i <= j < |servers| ==> servers[j] == old(servers)[j]
      {
        var r := servers[i];
        if r.sid == sid {
          if ok {
            r := r.(lastOk := true, failures := 0, actsPrimary := acts);
          } else {
            r := r.(lastOk := false, failures := r.failures + 1, actsPrimary := false);
          }
          servers := servers[i := r];
        }
        i := i + 1;
      }
    }

    method RunFailover(sent: (string, Action) -> bool)
      modifies this
      ensures Contents() == Tick(old(Contents()), sent)
    {
      var snapshot := Contents();
      ghost var vs := Verdicts(snapshot, snapshot.clusters, sent);
      for n := 0 to |snapshot.clusters|
        invariant Contents() == CommitAll(snapshot, vs[..n])
      {
        CommitNext(snapshot, vs, n);
        RunCluster(snapshot, snapshot.clusters[n], sent);
      }
      assert vs[..|vs|] == vs;
    }

    method RunCluster(snapshot: Store, c: ClusterRow, sent: (string, Action) -> bool)
      modifies this
      ensures Contents() == Commit(old(Contents()), Judge(snapshot, c, sent))
    {
      var d := Evaluate(View(snapshot, c));
      if d.IsEmpty() {
        return;
      }
      var promoteOk := SendCommands(c.cid, d.actions, sent);
      if promoteOk {
        Persist(c.cid, d);
      }
    }

    method SendCommands(cid: string, actions: seq<Action>, sent: (string, Action) -> bool) returns (promoteOk: bool)
      ensures promoteOk == PromotionSucceeds(cid, actions, sent)
    {
      promoteOk := true;
      for i := 0 to |actions|
        invariant promoteOk == PromotionSucceeds(cid, actions[..i], sent)
      {
        assert actions[..i + 1] == actions[..i] + [actions[i]];
        if !sent(cid, actions[i]) && actions[i].Promote? {
          promoteOk := false;
        }
      }
      assert actions[..|actions|] == actions;
    }

    method Persist(cid: string, d: Decision)
      modifies this
      ensures Contents() == Commit(old(Contents()), Verdict(cid, d, true))
    {
      if d.newActive.Some? {
        clusters := SetActive(clusters, cid, d.newActive.value);
      }
      FenceAll(d.fence, true);
      FenceAll(d.unfence, false);
    }

    method FenceAll(sids: seq<string>, on: bool)
      modifies this`servers
      ensures servers == SetAllFenced(old(servers), sids, on)
    {
      for i := 0 to |sids|
        invariant servers == SetAllFenced(old(servers), sids[..i], on)
      {
        assert sids[..i + 1][..i] == sids[..i];
        servers := SetFenced(servers, sids[i], on);
      }
      assert sids[..|sids|] == sids;
    }
  }

  // ---- What a tick does to every row -------------------------------------------------------

  ghost predicate DistinctSids(servers: seq<ServerRow>) {
    && (forall i, j :: 0 <= i < j < |servers| ==> servers[i].sid != servers[j].sid)
    && (forall r <- servers :: r.sid != "")
  }

  /** The store's unique indexes on `cid` and `sid`. */
  ghost predicate Valid(st: Store) {
    && (forall i, j :: 0 <= i < j < |st.clusters| ==> st.clusters[i].cid != st.clusters[j].cid)
    && DistinctSids(st.servers)
  }

  lemma {:induction false} SetAllFencedAt(servers: seq<ServerRow>, sids: seq<string>, on: bool)
    ensures |SetAllFenced(servers, sids, on)| == |servers|
    ensures forall i :: 0 <= i < |servers| ==>
      SetAllFenced(servers, sids, on)[i] == if servers[i].sid in sids then servers[i].(fenced := on) else servers[i]
  {
    if sids != [] {
      SetAllFencedAt(servers, sids[..|sids| - 1], on);
      assert sids == sids[..|sids| - 1] + [sids[|sids| - 1]];
    }
  }

  lemma CommitAt(st: Store, v: Verdict)
    ensures var t, d := Commit(st, v), v.decision;
      && |t.clusters| == |st.clusters| && |t.servers| == |st.servers|
      && (forall i :: 0 <= i < |t.clusters| ==>
            t.clusters[i] == if st.clusters[i].cid == v.cid then ClusterAfter(st.clusters[i], v) else st.clusters[i])
      && (forall i :: 0 <= i < |t.servers| ==> t.servers[i] == RowAfter(st.servers[i], v))
  {
    var d := v.decision;
    SetAllFencedAt(st.servers, d.fence, true);
    SetAllFencedAt(SetAllFenced(st.servers, d.fence, true), d.unfence, false);
  }

  ghost function ClusterAfter(c: ClusterRow, v: Verdict): ClusterRow {
    c.(active := ActiveAfter(c.active, v.decision, v.promoteOk))
  }

  ghost function RowAfter(r: ServerRow, v: Verdict): ServerRow {
    r.(fenced := FenceAfter(r.sid, r.fenced, v.decision, v.promoteOk))
  }

  lemma {:induction false} MembersHold(servers: seq<ServerRow>, cid: string, v: ServerView)
    ensures v in Members(servers, cid) <==> exists r <- servers :: r.cluster == Some(cid) && v == ViewOf(r)
  {
    if servers != [] {
      MembersHold(servers[1..], cid, v);
      assert servers == [servers[0]] + servers[1..];
      assert servers[0] in servers;
    }
  }

  lemma {:induction false} MembersDistinct(servers: seq<ServerRow>, cid: string)
    requires DistinctSids(servers)
    ensures Distinct(Members(servers, cid))
  {
    if servers != [] {
      MembersDistinct(servers[1..], cid);
      var rest := Members(servers[1..], cid);
      forall v <- rest ensures v.sid != servers[0].sid {
        MembersHold(servers[1..], cid, v);
      }
    }
  }

  /** A cluster's decision fences and unfences only its own registered servers. */
  lemma DecisionIsLocal(st: Store, c: ClusterRow, x: string)
    requires Valid(st)
    requires x in Decide(View(st, c)).fence || x in Decide(View(st, c)).unfence
    ensures exists r <- st.servers :: r.sid == x && r.cluster == Some(c.cid)
  {
    var v := View(st, c);
    UnfencedHold(v.servers, ActiveSid(v), x);
    var s: ServerView :| s in v.servers && s.sid == x;
    MembersHold(st.servers, c.cid, s);
  }

  /** A verdict touches no server of another cluster. */
  ghost predicate Local(v: Verdict, r: ServerRow) {
    r.cluster != Some(v.cid) ==> r.sid !in v.decision.fence && r.sid !in v.decision.unfence
  }

  /** A row follows the verdict on its own cluster and nobody else's. */
  ghost predicate Follows(r: ServerRow, vs: seq<Verdict>, q: ServerRow) {
    && (forall v <- vs :: r.cluster == Some(v.cid) ==> q == RowAfter(r, v))
    && ((forall v <- vs :: r.cluster != Some(v.cid)) ==> q == r)
  }

  ghost predicate DistinctCids(vs: seq<Verdict>) {
    forall i, j :: 0 <= i < j < |vs| ==> vs[i].cid != vs[j].cid
  }

  lemma {:induction false} CommitAllRows(st: Store, vs: seq<Verdict>, i: nat)
    requires i < |st.servers| && DistinctCids(vs)
    requires forall v <- vs :: Local(v, st.servers[i])
    ensures |CommitAll(st, vs).servers| == |st.servers|
    ensures Follows(st.servers[i], vs, CommitAll(st, vs).servers[i])
  {
    if vs != [] {
      var init, v := vs[..|vs| - 1], vs[|vs| - 1];
      CommitAllRows(st, init, i);
      CommitAt(CommitAll(st, init), v);
      FollowsOneMore(st.servers[i], vs, CommitAll(st, init).servers[i]);
    }
  }

  lemma FollowsOneMore(r: ServerRow, vs: seq<Verdict>, q: ServerRow)
    requires vs != [] && DistinctCids(vs) && Follows(r, vs[..|vs| - 1], q) && Local(vs[|vs| - 1], r)
    ensures Follows(r, vs, RowAfter(q, vs[|vs| - 1]))
  {
    var init, v := vs[..|vs| - 1], vs[|vs| - 1];
    SplitLast(vs);
    forall w <- init ensures w.cid != v.cid {
      var k :| 0 <= k < |init| && init[k] == w;
      assert vs[k] == w;
    }
    if w :| w in init && r.cluster == Some(w.cid) {
      assert q == RowAfter(r, w);
    }
  }

  lemma {:induction false} CommitAllClusters(st: Store, vs: seq<Verdict>)
    requires |vs| <= |st.clusters| && DistinctCids(vs)
    requires forall k :: 0 <= k < |vs| ==> vs[k].cid == st.clusters[k].cid
    requires forall i, j :: 0 <= i < j < |st.clusters| ==> st.clusters[i].cid != st.clusters[j].cid
    ensures var t := CommitAll(st, vs).clusters;
      && |t| == |st.clusters|
      && (forall k :: 0 <= k < |vs| ==> t[k] == ClusterAfter(st.clusters[k], vs[k]))
      && (forall k :: |vs| <= k < |t| ==> t[k] == st.clusters[k])
  {
    if vs != [] {
      var init, v := vs[..|vs| - 1], vs[|vs| - 1];
      CommitAllClusters(st, init);
      CommitAt(CommitAll(st, init), v);
    }
  }

  /** Clusters do not interfere: every cluster row follows its own verdict on the state before
      the tick, and every server row that on its own cluster. */
  lemma TickAt(st: Store, sent: (string, Action) -> bool)
    requires Valid(st)
    ensures var t, vs := Tick(st, sent), Verdicts(st, st.clusters, sent);
      && |t.clusters| == |st.clusters| && |t.servers| == |st.servers|
      && (forall k :: 0 <= k < |st.clusters| ==> t.clusters[k] == ClusterAfter(st.clusters[k], vs[k]))
      && (forall i :: 0 <= i < |st.servers| ==> Follows(st.servers[i], vs, t.servers[i]))
  {
    var t, vs := Tick(st, sent), Verdicts(st, st.clusters, sent);
    CommitAllClusters(st, vs);
    CommitAllCount(st, vs);
    forall i | 0 <= i < |st.servers| ensures Follows(st.servers[i], vs, t.servers[i]) {
      forall v <- vs ensures Local(v, st.servers[i]) {
        var k :| 0 <= k < |vs| && vs[k] == v;
        VerdictIsLocal(st, st.clusters[k], sent, st.servers[i]);
      }
      CommitAllRows(st, vs, i);
    }
  }

  lemma {:induction false} CommitAllCount(st: Store, vs: seq<Verdict>)
    ensures |CommitAll(st, vs).servers| == |st.servers|
  {
    if vs != [] {
      CommitAllCount(st, vs[..|vs| - 1]);
      CommitAt(CommitAll(st, vs[..|vs| - 1]), vs[|vs| - 1]);
    }
  }

  lemma VerdictIsLocal(st: Store, c: ClusterRow, sent: (string, Action) -> bool, r: ServerRow)
    requires Valid(st) && r in st.servers
    ensures Local(Judge(st, c, sent), r)
  {
    var d := Decide(View(st, c));
    if r.sid in d.fence || r.sid in d.unfence {
      DecisionIsLocal(st, c, r.sid);
      var r' :| r' in st.servers && r'.sid == r.sid && r'.cluster == Some(c.cid);
      assert r' == r;
    }
  }

  // ---- Whole runs --------------------------------------------------------------------------

  /** `polls` is the history of recorded poll outcomes per server, oldest first. */
  datatype State = State(store: Store, polls: map<string, seq<bool>>)

  datatype Step =
    | Poll(sid: string, ok: bool, acts: bool)
    | FailoverTick(sent: (string, Action) -> bool)
    | Register(row: ServerRow)
    | Remove(sid: string)
    | CreateCluster(cid: string)
    | SetIntent(sid: string, intent: RoleIntent)
    | SetPolicy(cid: string, armed: bool, threshold: nat)
    | OperatorPromote(cid: string, sid: string)

  function WithoutServer(servers: seq<ServerRow>, sid: string): (r: seq<ServerRow>)
    ensures forall q <- r :: q in servers
  {
    if servers == [] then []
    else (if servers[0].sid == sid then [] else [servers[0]]) + WithoutServer(servers[1..], sid)
  }

  ghost predicate Enabled(s: State, step: Step) {
    match step
    case Register(row) =>
      row.sid != "" && row.sid !in s.polls && !row.lastOk && row.failures == 0 && !row.fenced && !row.actsPrimary
    case CreateCluster(cid) => forall c <- s.store.clusters :: c.cid != cid
    case _ => true
  }

  ghost function Next(s: State, step: Step): State
    requires Enabled(s, step)
  {
    var st := s.store;
    match step
    case Poll(sid, ok, acts) =>
      State(st.(servers := RecordHealth(st.servers, sid, ok, acts)),
            if sid in s.polls then s.polls[sid := s.polls[sid] + [ok]] else s.polls)
    case FailoverTick(sent) => s.(store := Tick(st, sent))
    case Register(row) => State(st.(servers := st.servers + [row]), s.polls[row.sid := []])
    case Remove(sid) => s.(store := st.(servers := WithoutServer(st.servers, sid)))
    case CreateCluster(cid) =>
      s.(store := st.(clusters := st.clusters + [ClusterRow(cid, false, DEFAULT_THRESHOLD, None)]))
    case SetIntent(sid, intent) =>
      s.(store := st.(servers := seq(|st.servers|, i requires 0 <= i < |st.servers| =>
        if st.servers[i].sid == sid then st.servers[i].(intent := intent) else st.servers[i])))
    case SetPolicy(cid, armed, threshold) =>
      s.(store := st.(clusters := seq(|st.clusters|, i requires 0 <= i < |st.clusters| =>
        if st.clusters[i].cid == cid
        then st.clusters[i].(armed := armed, threshold := if threshold < 1 then 1 else threshold)
        else st.clusters[i])))
    case OperatorPromote(cid, sid) => s.(store := st.(clusters := SetActive(st.clusters, cid, sid)))
  }

  ghost predicate IsRun(run: seq<State>, steps: seq<Step>) {
    && |run| == |steps| + 1 && run[0] == State(Store([], []), map[])
    && forall i :: 0 <= i < |steps| ==> Enabled(run[i], steps[i]) && run[i + 1] == Next(run[i], steps[i])
  }

  function TrailingFailures(polls: seq<bool>): nat {
    if polls == [] || polls[|polls| - 1] then 0 else 1 + TrailingFailures(polls[..|polls| - 1])
  }

  /** The last `n` polls were all recorded as failures. */
  ghost predicate LastAllFailed(polls: seq<bool>, n: nat) {
    n <= |polls| && forall i :: |polls| - n <= i < |polls| ==> !polls[i]
  }

  lemma {:induction false} TrailingFailuresCount(polls: seq<bool>, n: nat)
    ensures n <= TrailingFailures(polls) <==> LastAllFailed(polls, n)
  {
    if polls != [] && !polls[|polls| - 1] && n > 0 {
      var init := polls[..|polls| - 1];
      TrailingFailuresCount(init, n - 1);
      if LastAllFailed(init, n - 1) {
        forall i | |polls| - n <= i < |polls| ensures !polls[i] {
          if i < |polls| - 1 { assert init[i] == polls[i]; }
        }
      }
      if LastAllFailed(polls, n) {
        forall i | |init| - (n - 1) <= i < |init| ensures !init[i] { assert init[i] == polls[i]; }
      }
    }
  }

  /** Each row's counter and health are those of its poll history. */
  ghost predicate Counted(s: State) {
    Valid(s.store) && forall r <- s.store.servers :: RowCounted(s.polls, r)
  }

  ghost predicate RowCounted(polls: map<string, seq<bool>>, r: ServerRow) {
    && r.sid in polls
    && r.failures == TrailingFailures(polls[r.sid])
    && (r.lastOk <==> polls[r.sid] != [] && polls[r.sid][|polls[r.sid]| - 1])
  }

  lemma {:induction false} WithoutServerDistinct(servers: seq<ServerRow>, sid: string)
    requires DistinctSids(servers)
    ensures DistinctSids(WithoutServer(servers, sid))
  {
    if servers != [] {
      var rest := WithoutServer(servers[1..], sid);
      WithoutServerDistinct(servers[1..], sid);
      forall i | 0 <= i < |rest| ensures rest[i].sid != servers[0].sid {
        assert rest[i] in servers[1..];
        var j :| 0 <= j < |servers[1..]| && servers[1..][j] == rest[i];
        assert servers[1 + j] == rest[i];
      }
    }
  }

  lemma TrailingFailuresAppend(polls: seq<bool>, ok: bool)
    ensures TrailingFailures(polls + [ok]) == if ok then 0 else 1 + TrailingFailures(polls)
  {
    assert (polls + [ok])[..|polls|] == polls;
  }

  lemma StepKeepsCounts(s: State, step: Step)
    requires Counted(s) && Enabled(s, step)
    ensures Counted(Next(s, step))
  {
    match step
    case Poll(sid, ok, acts) => PollKeepsCounts(s, sid, ok, acts);
    case FailoverTick(sent) => TickKeepsCounts(s, sent);
    case Remove(sid) => WithoutServerDistinct(s.store.servers, sid);
    case Register(row) => RegisterKeepsCounts(s, row);
    case CreateCluster(_) =>
    case SetIntent(_, _) =>
      SameCountsKept(s.polls, s.store.servers, Next(s, step).store.servers);
    case SetPolicy(_, _, _) =>
    case OperatorPromote(_, _) =>
  }

  lemma RegisterKeepsCounts(s: State, row: ServerRow)
    requires Counted(s) && Enabled(s, Register(row))
    ensures Counted(Next(s, Register(row)))
  {
    forall r <- s.store.servers ensures r.sid != row.sid {
      assert RowCounted(s.polls, r);
    }
  }

  ghost predicate SameCounts(was: seq<ServerRow>, now: seq<ServerRow>) {
    |now| == |was| && forall i :: 0 <= i < |now| ==>
      now[i].sid == was[i].sid && now[i].failures == was[i].failures && now[i].lastOk == was[i].lastOk
  }

  lemma SameCountsKept(polls: map<string, seq<bool>>, was: seq<ServerRow>, now: seq<ServerRow>)
    requires SameCounts(was, now) && DistinctSids(was) && forall r <- was :: RowCounted(polls, r)
    ensures DistinctSids(now) && forall r <- now :: RowCounted(polls, r)
  {
    forall r <- now ensures RowCounted(polls, r) && r.sid != "" {
      var i :| 0 <= i < |now| && now[i] == r;
      assert RowCounted(polls, was[i]) && was[i] in was;
    }
  }

  lemma TickKeepsCounts(s: State, sent: (string, Action) -> bool)
    requires Counted(s)
    ensures Counted(Next(s, FailoverTick(sent)))
  {
    TickAt(s.store, sent);
    var was, now, vs := s.store.servers, Tick(s.store, sent).servers, Verdicts(s.store, s.store.clusters, sent);
    forall i | 0 <= i < |now| ensures now[i] == was[i].(fenced := now[i].fenced) {
      FollowsOnlyFences(was[i], vs, now[i]);
    }
    SameCountsKept(s.polls, was, now);
  }

  lemma FollowsOnlyFences(r: ServerRow, vs: seq<Verdict>, q: ServerRow)
    requires Follows(r, vs, q)
    ensures q == r.(fenced := q.fenced)
  {
    if exists v <- vs :: r.cluster == Some(v.cid) {
      var v :| v in vs && r.cluster == Some(v.cid);
    }
  }

  lemma PollKeepsCounts(s: State, sid: string, ok: bool, acts: bool)
    requires Counted(s)
    ensures Counted(Next(s, Poll(sid, ok, acts)))
  {
    var was, now := s.store.servers, RecordHealth(s.store.servers, sid, ok, acts);
    forall r <- now ensures r.sid != "" {
      var i :| 0 <= i < |now| && now[i] == r;
      assert was[i] in was;
    }
    var polls := Next(s, Poll(sid, ok, acts)).polls;
    forall i | 0 <= i < |now| ensures RowCounted(polls, now[i]) {
      assert was[i] in was;
      PolledIsCounted(s.polls, polls, was[i], sid, ok, acts);
    }
  }

  lemma PolledIsCounted(was: map<string, seq<bool>>, now: map<string, seq<bool>>, r: ServerRow,
                        sid: string, ok: bool, acts: bool)
    requires RowCounted(was, r) && now == if sid in was then was[sid := was[sid] + [ok]] else was
    ensures RowCounted(now, if r.sid == sid then Polled(r, ok, acts) else r)
  {
    if r.sid == sid { TrailingFailuresAppend(was[sid], ok); }
  }

  lemma {:induction false} RunKeepsCounts(run: seq<State>, steps: seq<Step>, i: nat)
    requires IsRun(run, steps) && i < |run|
    ensures Counted(run[i])
  {
    if i > 0 {
      RunKeepsCounts(run, steps, i - 1);
      StepKeepsCounts(run[i - 1], steps[i - 1]);
    }
  }

  /** Safety of failover over whole runs. When a tick moves a cluster's recorded primary from
      `p` to `q`, then `p` is registered there and its most recent `threshold` recorded polls
      all failed, `q` was a healthy, unfenced standby of the same cluster, and `q` confirmed its
      promotion. */
  lemma FailoverIsJustified(run: seq<State>, steps: seq<Step>, i: nat, k: nat, p: string, q: string)
    requires IsRun(run, steps) && i < |steps| && steps[i].FailoverTick?
    requires k < |run[i].store.clusters| && k < |run[i + 1].store.clusters|
    requires run[i].store.clusters[k].active == Some(p)
    requires run[i + 1].store.clusters[k].active == Some(q) && q != p
    ensures var s, c := run[i], run[i].store.clusters[k];
      && c.armed
      && p in s.polls && LastAllFailed(s.polls[p], Threshold(c))
      && (exists r <- s.store.servers :: r.sid == p && r.cluster == Some(c.cid) && !r.lastOk)
      && (exists r <- s.store.servers :: r.sid == q && r.cluster == Some(c.cid)
            && r.intent.Standby? && r.lastOk && !r.fenced)
      && steps[i].sent(c.cid, Promote(q))
  {
    RunKeepsCounts(run, steps, i);
    var s, c := run[i], run[i].store.clusters[k];
    TickAt(s.store, steps[i].sent);
    var v := View(s.store, c);
    assert c in s.store.clusters;
    assert Decide(v).newActive == Some(q) && Promotion(v) == Some(q);
    CommandsIssued(v, Promote(q));
    var vp := Find(v.servers, p).value;
    MembersHold(s.store.servers, c.cid, vp);
    var rp :| rp in s.store.servers && rp.cluster == Some(c.cid) && vp == ViewOf(rp);
    TrailingFailuresCount(s.polls[p], Threshold(c));
    var vq :| vq in v.servers && vq.sid == q && Eligible(vq);
    MembersHold(s.store.servers, c.cid, vq);
  }

  /** A failed promotion holds everything back: the cluster row and every fenced flag of the
      cluster's servers stay as they were. */
  lemma FailedPromotionChangesNothing(st: Store, sent: (string, Action) -> bool, k: nat, q: string)
    requires Valid(st) && k < |st.clusters|
    requires Promote(q) in Decide(View(st, st.clusters[k])).actions && !sent(st.clusters[k].cid, Promote(q))
    ensures var t := Tick(st, sent);
      && |t.clusters| == |st.clusters| && |t.servers| == |st.servers|
      && t.clusters[k] == st.clusters[k]
      && forall i :: 0 <= i < |st.servers| && st.servers[i].cluster == Some(st.clusters[k].cid) ==>
           t.servers[i] == st.servers[i]
  {
    TickAt(st, sent);
    var t, vs := Tick(st, sent), Verdicts(st, st.clusters, sent);
    assert !vs[k].promoteOk && vs[k] in vs;
    forall i | 0 <= i < |st.servers| && st.servers[i].cluster == Some(st.clusters[k].cid)
      ensures t.servers[i] == st.servers[i]
    {
      assert Follows(st.servers[i], vs, t.servers[i]);
    }
  }
}
