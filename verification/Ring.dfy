/** The computed replication topology: the live controllers in id order form a ring, and each
    node derives its own partners from the same list. */
module Ring {
  import opened Ordering

  ghost predicate StrictlySorted(r: seq<string>) {
    forall i, j :: 0 <= i < j < |r| ==> Less(r[i], r[j])
  }

  /** Where a new id goes in a sorted ring. */
  function Insert(r: seq<string>, x: string): seq<string> {
    if r == [] || Less(r[|r| - 1], x) then r + [x]
    else Insert(r[..|r| - 1], x) + [r[|r| - 1]]
  }

  /** The ring: the listed ids that are not dead, in order, each once. */
  function RingOf(ids: seq<string>, dead: set<string>): seq<string> {
    if ids == [] then []
    else
      var rest, x := RingOf(ids[..|ids| - 1], dead), ids[|ids| - 1];
      if x in dead || x in rest then rest else Insert(rest, x)
  }

  lemma {:induction false} InsertHolds(r: seq<string>, x: string, y: string)
    ensures y in Insert(r, x) <==> y == x || y in r
  {
    if r != [] && !Less(r[|r| - 1], x) { InsertHolds(r[..|r| - 1], x, y); }
    if r != [] { assert r == r[..|r| - 1] + [r[|r| - 1]]; }
  }

  lemma {:induction false} InsertKeepsOrder(r: seq<string>, x: string)
    requires StrictlySorted(r) && x !in r
    ensures StrictlySorted(Insert(r, x))
  {
    if r != [] {
      var init, last, out := r[..|r| - 1], r[|r| - 1], Insert(r, x);
      assert last in r;
      if Less(last, x) {
        forall i | 0 <= i < |r| ensures Less(r[i], x) {
          if i < |r| - 1 { LessTransitive(r[i], last, x); }
        }
      } else {
        LessTotal(last, x);
        InsertKeepsOrder(init, x);
        forall i | 0 <= i < |out| - 1 ensures Less(out[i], last) {
          InsertHolds(init, x, out[i]);
          assert out[i] == Insert(init, x)[i];
          assert out[i] in Insert(init, x);
          if out[i] != x {
            var k :| 0 <= k < |init| && init[k] == out[i];
            assert r[k] == out[i];
          }
        }
      }
    }
  }

  lemma {:induction false} RingHolds(ids: seq<string>, dead: set<string>)
    ensures StrictlySorted(RingOf(ids, dead))
    ensures forall x :: x in RingOf(ids, dead) <==> x in ids && x !in dead
  {
    if ids != [] {
      var rest, x := RingOf(ids[..|ids| - 1], dead), ids[|ids| - 1];
      RingHolds(ids[..|ids| - 1], dead);
      assert ids == ids[..|ids| - 1] + [x];
      if x !in dead && x !in rest {
        InsertKeepsOrder(rest, x);
        forall y ensures y in Insert(rest, x) <==> y == x || y in rest { InsertHolds(rest, x, y); }
      }
    }
  }

  lemma DistinctIds(r: seq<string>, i: nat, j: nat)
    requires StrictlySorted(r) && i < |r| && j < |r| && r[i] == r[j]
    ensures i == j
  {
    if i < j { LessAsymmetric(r[i], r[j]); }
    if j < i { LessAsymmetric(r[j], r[i]); }
  }

  /** A strictly sorted list is determined by its elements. */
  lemma {:induction false} SortedIsUnique(a: seq<string>, b: seq<string>)
    requires StrictlySorted(a) && StrictlySorted(b) && forall x :: x in a <==> x in b
    ensures a == b
  {
    assert a != [] ==> a[0] in a;
    assert b != [] ==> b[0] in b;
    if a != [] && b != [] {
      SameLast(a, b);
      var ia, ib := a[..|a| - 1], b[..|b| - 1];
      forall x ensures x in ia <==> x in ib {
        InitHolds(a, x);
        InitHolds(b, x);
      }
      SortedIsUnique(ia, ib);
      assert a == ia + [a[|a| - 1]] && b == ib + [b[|b| - 1]];
    }
  }

  lemma SameLast(a: seq<string>, b: seq<string>)
    requires StrictlySorted(a) && StrictlySorted(b) && a != [] && b != []
    requires forall x :: x in a <==> x in b
    ensures a[|a| - 1] == b[|b| - 1]
  {
    var la, lb := a[|a| - 1], b[|b| - 1];
    assert la in a && lb in b;
    var i :| 0 <= i < |a| && a[i] == lb;
    var j :| 0 <= j < |b| && b[j] == la;
    if i < |a| - 1 && j < |b| - 1 {
      LessAsymmetric(lb, la);
    }
  }

  lemma InitHolds(a: seq<string>, x: string)
    requires StrictlySorted(a) && a != []
    ensures x in a[..|a| - 1] <==> x in a && x != a[|a| - 1]
  {
    assert a == a[..|a| - 1] + [a[|a| - 1]];
    if a[|a| - 1] in a[..|a| - 1] {
      var i :| 0 <= i < |a| - 1 && a[..|a| - 1][i] == a[|a| - 1];
      DistinctIds(a, i, |a| - 1);
    }
  }

  function Position(r: seq<string>, x: string): (p: Option<nat>)
    ensures p.Some? <==> x in r
    ensures p.Some? ==> p.value < |r| && r[p.value] == x
  {
    if r == [] then None
    else if r[0] == x then Some(0)
    else match Position(r[1..], x) case Some(i) => Some(i + 1) case None => None
  }

  function Pred(n: nat, i: nat): nat
    requires i < n
  {
    if i == 0 then n - 1 else i - 1
  }

  function Succ(n: nat, i: nat): nat
    requires i < n
  {
    if i + 1 == n then 0 else i + 1
  }

  /** The ids of this node's inbound partners. */
  function Partners(ids: seq<string>, self: string, dead: set<string>): seq<string> {
    var live := RingOf(ids, dead);
    match Position(live, self)
    case None => []
    case Some(pos) =>
      var n := |live|;
      if n < 2 then [] else if n == 2 then [live[1 - pos]] else [live[Pred(n, pos)], live[Succ(n, pos)]]
  }

  /** Find oneself on the ring and take the neighbours modulo its length. */
  method RingInboundPartners(ids: seq<string>, self: string, dead: set<string>) returns (p: seq<string>)
    ensures p == Partners(ids, self, dead)
  {
    var live := LiveIds(ids, dead);
    var n, pos := |live|, 0;
    while pos < n && live[pos] != self
      invariant pos <= n && forall k :: 0 <= k < pos ==> live[k] != self
    {
      pos := pos + 1;
    }
    if pos == n {
      return [];
    }
    RingHolds(ids, dead);
    DistinctIds(live, pos, Position(live, self).value);
    if n < 2 {
      p := [];
    } else if n == 2 {
      p := [live[1 - pos]];
    } else {
      p := [live[(pos + n - 1) % n], live[(pos + 1) % n]];
      WrapAround(n, pos);
    }
  }

  lemma WrapAround(n: nat, pos: nat)
    requires pos < n
    ensures (pos + n - 1) % n == Pred(n, pos) && (pos + 1) % n == Succ(n, pos)
  {
    if pos > 0 {
      OnceRound(pos - 1, n);
      assert pos + n - 1 == pos - 1 + n;
    } else {
      OnceRound(n - 1, n);
    }
    if pos + 1 < n { OnceRound(pos + 1, n); } else { OnceRound(0, n); }
  }

  lemma OnceRound(a: nat, n: nat)
    requires a < n
    ensures a % n == a && (a + n) % n == a && n % n == 0
  {
  }

  /** Filter, sort, drop duplicates. */
  method LiveIds(ids: seq<string>, dead: set<string>) returns (live: seq<string>)
    ensures live == RingOf(ids, dead)
  {
    live := [];
    for i := 0 to |ids|
      invariant forall x :: x in live <==> x in ids[..i] && x !in dead
    {
      assert ids[..i + 1] == ids[..i] + [ids[i]];
      if ids[i] !in dead {
        live := live + [ids[i]];
      }
    }
    assert ids[..|ids|] == ids;
    live := SortById(live);
    live := DedupById(live);
    RingHolds(ids, dead);
    SortedIsUnique(live, RingOf(ids, dead));
  }

  ghost predicate Sorted(r: seq<string>) {
    forall i, j :: 0 <= i < j < |r| ==> r[i] == r[j] || Less(r[i], r[j])
  }

  method SortById(xs: seq<string>) returns (out: seq<string>)
    ensures Sorted(out) && |out| == |xs| && forall x :: x in out <==> x in xs
  {
    out := [];
    for i := 0 to |xs|
      invariant Sorted(out) && |out| == i && forall x :: x in out <==> x in xs[..i]
    {
      assert xs[..i + 1] == xs[..i] + [xs[i]];
      out := PlaceSorted(out, xs[i]);
    }
    assert xs[..|xs|] == xs;
  }

  method PlaceSorted(r: seq<string>, x: string) returns (out: seq<string>)
    requires Sorted(r)
    ensures Sorted(out) && |out| == |r| + 1 && forall y :: y in out <==> y == x || y in r
  {
    var k := |r|;
    while k > 0 && Less(x, r[k - 1])
      invariant 0 <= k <= |r| && forall j :: k <= j < |r| ==> Less(x, r[j])
    {
      k := k - 1;
    }
    PlacedIsSorted(r, k, x);
    out := r[..k] + [x] + r[k..];
    assert r == r[..k] + r[k..];
  }

  lemma PlacedIsSorted(r: seq<string>, k: nat, x: string)
    requires Sorted(r) && k <= |r| && (k > 0 ==> !Less(x, r[k - 1])) && forall j :: k <= j < |r| ==> Less(x, r[j])
    ensures Sorted(r[..k] + [x] + r[k..])
  {
    forall i | 0 <= i < k ensures r[i] == x || Less(r[i], x) {
      LessTotal(r[k - 1], x);
      if i < k - 1 && r[i] != r[k - 1] && r[k - 1] != x { LessTransitive(r[i], r[k - 1], x); }
    }
  }

  method DedupById(r: seq<string>) returns (out: seq<string>)
    requires Sorted(r)
    ensures StrictlySorted(out) && forall x :: x in out <==> x in r
  {
    out := [];
    for i := 0 to |r|
      invariant StrictlySorted(out) && forall x :: x in out <==> x in r[..i]
      invariant if i == 0 then out == [] else out != [] && out[|out| - 1] == r[i - 1]
    {
      assert r[..i + 1] == r[..i] + [r[i]];
      if out == [] || out[|out| - 1] != r[i] {
        assert out != [] ==> i > 0 && (r[i - 1] == r[i] || Less(r[i - 1], r[i]));
        forall k | 0 <= k < |out| ensures Less(out[k], r[i]) {
          if k < |out| - 1 { LessTransitive(out[k], out[|out| - 1], r[i]); }
        }
        out := out + [r[i]];
      }
    }
    assert r[..|r|] == r;
  }

  // ---- Agreement ---------------------------------------------------------------------------

  /** Partners by ring position: `q` is next to `p` on one side or the other. */
  lemma PartnersByPosition(ids: seq<string>, dead: set<string>, i: nat, q: string)
    requires i < |RingOf(ids, dead)|
    ensures var r := RingOf(ids, dead);
      var n := |r|;
      && (n >= 2 ==> (q in Partners(ids, r[i], dead) <==> q == r[Pred(n, i)] || q == r[Succ(n, i)]))
      && (n < 2 ==> Partners(ids, r[i], dead) == [])
  {
    RingHolds(ids, dead);
    DistinctIds(RingOf(ids, dead), i, Position(RingOf(ids, dead), RingOf(ids, dead)[i]).value);
  }

  /** The partner relation is symmetric, touches only other live listed nodes, and gives every
      live node min(2, n - 1) distinct partners. */
  lemma PartnersAgree(ids: seq<string>, dead: set<string>, p: string, q: string)
    ensures q in Partners(ids, p, dead) <==> p in Partners(ids, q, dead)
    ensures q in Partners(ids, p, dead) ==> q != p && q in ids && q !in dead && p in ids && p !in dead
  {
    var r := RingOf(ids, dead);
    RingHolds(ids, dead);
    if p in r && q in r {
      var i, j := Position(r, p).value, Position(r, q).value;
      PartnersByPosition(ids, dead, i, q);
      PartnersByPosition(ids, dead, j, p);
      if |r| >= 2 {
        NextTo(r, i, j);
        NextTo(r, j, i);
      }
    }
  }

  /** Being next to a position is a matter of positions. */
  lemma NextTo(r: seq<string>, i: nat, j: nat)
    requires StrictlySorted(r) && |r| >= 2 && i < |r| && j < |r|
    ensures (r[j] == r[Pred(|r|, i)] || r[j] == r[Succ(|r|, i)]) <==> (j == Pred(|r|, i) || j == Succ(|r|, i))
  {
    if r[j] == r[Pred(|r|, i)] { DistinctIds(r, j, Pred(|r|, i)); }
    if r[j] == r[Succ(|r|, i)] { DistinctIds(r, j, Succ(|r|, i)); }
  }

  lemma PartnerCount(ids: seq<string>, dead: set<string>, p: string)
    ensures var n, ps := |RingOf(ids, dead)|, Partners(ids, p, dead);
      && (p in ids && p !in dead ==> |ps| == if n - 1 < 2 then n - 1 else 2)
      && (!(p in ids && p !in dead) ==> ps == [])
      && (|ps| == 2 ==> ps[0] != ps[1])
  {
    var r := RingOf(ids, dead);
    RingHolds(ids, dead);
    if p in r && |r| > 2 {
      var n, i := |r|, Position(r, p).value;
      if r[Pred(n, i)] == r[Succ(n, i)] { DistinctIds(r, Pred(n, i), Succ(n, i)); }
    }
  }

  /** Every node computes the same ring: the order and repetitions of the list do not matter. */
  lemma OrderDoesNotMatter(ids: seq<string>, others: seq<string>, dead: set<string>, p: string)
    requires forall x :: x in ids <==> x in others
    ensures RingOf(ids, dead) == RingOf(others, dead) && Partners(ids, p, dead) == Partners(others, p, dead)
  {
    RingHolds(ids, dead);
    RingHolds(others, dead);
    SortedIsUnique(RingOf(ids, dead), RingOf(others, dead));
  }

  // ---- Connectivity ------------------------------------------------------------------------

  ghost predicate IsPath(ids: seq<string>, dead: set<string>, path: seq<string>) {
    path != [] && forall i {:trigger LinkAt(ids, dead, path, i)} :: 0 <= i < |path| - 1 ==> LinkAt(ids, dead, path, i)
  }

  ghost predicate LinkAt(ids: seq<string>, dead: set<string>, path: seq<string>, i: nat)
    requires i + 1 < |path|
  {
    path[i + 1] in Partners(ids, path[i], dead)
  }

  lemma {:induction false} WalkForward(ids: seq<string>, dead: set<string>, i: nat, d: nat) returns (path: seq<string>)
    requires var n := |RingOf(ids, dead)|; n >= 2 && i < n && d < n
    ensures var r := RingOf(ids, dead);
      IsPath(ids, dead, path) && |path| == d + 1 && path[0] == r[i]
      && path[d] == r[if i + d < |r| then i + d else i + d - |r|]
    decreases d
  {
    var r := RingOf(ids, dead);
    if d == 0 {
      path := [r[i]];
    } else {
      var rest := WalkForward(ids, dead, Succ(|r|, i), d - 1);
      PartnersByPosition(ids, dead, i, r[Succ(|r|, i)]);
      path := [r[i]] + rest;
      forall k | 0 <= k < |path| - 1 ensures LinkAt(ids, dead, path, k) {
        if k > 0 { assert LinkAt(ids, dead, rest, k - 1); }
      }
    }
  }

  lemma {:induction false} Backwards(ids: seq<string>, dead: set<string>, path: seq<string>) returns (back: seq<string>)
    requires IsPath(ids, dead, path)
    ensures IsPath(ids, dead, back) && |back| == |path|
    ensures back[0] == path[|path| - 1] && back[|back| - 1] == path[0]
  {
    if |path| == 1 {
      back := path;
    } else {
      forall k | 0 <= k < |path| - 2 ensures LinkAt(ids, dead, path[1..], k) { assert LinkAt(ids, dead, path, k + 1); }
      var rest := Backwards(ids, dead, path[1..]);
      assert LinkAt(ids, dead, path, 0);
      PartnersAgree(ids, dead, path[0], path[1]);
      back := rest + [path[0]];
      forall k | 0 <= k < |back| - 1 ensures LinkAt(ids, dead, back, k) {
        if k < |rest| - 1 { assert LinkAt(ids, dead, rest, k); }
      }
    }
  }

  /** Any two live nodes are at most half the ring apart. */
  lemma RingConnects(ids: seq<string>, dead: set<string>, p: string, q: string) returns (path: seq<string>)
    requires p in ids && p !in dead && q in ids && q !in dead
    ensures IsPath(ids, dead, path) && path[0] == p && path[|path| - 1] == q
    ensures |path| - 1 <= |RingOf(ids, dead)| / 2
  {
    var r := RingOf(ids, dead);
    RingHolds(ids, dead);
    var i, j := Position(r, p).value, Position(r, q).value;
    if i == j {
      path := [p];
    } else {
      path := ShorterWay(ids, dead, i, j);
    }
  }

  lemma ShorterWay(ids: seq<string>, dead: set<string>, i: nat, j: nat) returns (path: seq<string>)
    requires var n := |RingOf(ids, dead)|; i < n && j < n && i != j
    ensures var r := RingOf(ids, dead);
      IsPath(ids, dead, path) && path[0] == r[i] && path[|path| - 1] == r[j] && |path| - 1 <= |r| / 2
  {
    var n := |RingOf(ids, dead)|;
    var d := if i < j then j - i else j - i + n;
    if d <= n / 2 {
      path := WalkForward(ids, dead, i, d);
    } else {
      var there := WalkForward(ids, dead, j, n - d);
      path := Backwards(ids, dead, there);
    }
  }

  // ---- Rerouting around dead nodes ---------------------------------------------------------

  function Live(r: seq<string>, dead: set<string>): seq<string> {
    if r == [] then [] else (if r[0] in dead then [] else [r[0]]) + Live(r[1..], dead)
  }

  /** The other nodes in ring order, starting right after position `i`. */
  function Others(r: seq<string>, i: nat): seq<string>
    requires i < |r|
  {
    r[i + 1..] + r[..i]
  }

  lemma {:induction false} LiveAppend(a: seq<string>, b: seq<string>, dead: set<string>)
    ensures Live(a + b, dead) == Live(a, dead) + Live(b, dead)
  {
    if a == [] {
      assert a + b == b;
    } else {
      LiveAppend(a[1..], b, dead);
      assert (a + b)[1..] == a[1..] + b && (a + b)[0] == a[0];
      var head := if a[0] in dead then [] else [a[0]];
      assert head + (Live(a[1..], dead) + Live(b, dead)) == (head + Live(a[1..], dead)) + Live(b, dead);
    }
  }

  lemma {:induction false} LiveHolds(r: seq<string>, dead: set<string>, x: string)
    ensures x in Live(r, dead) <==> x in r && x !in dead
  {
    if r != [] {
      LiveHolds(r[1..], dead, x);
      assert r == [r[0]] + r[1..];
    }
  }

  lemma {:induction false} LiveKeepsOrder(r: seq<string>, dead: set<string>)
    requires StrictlySorted(r)
    ensures StrictlySorted(Live(r, dead))
  {
    if r != [] {
      LiveKeepsOrder(r[1..], dead);
      forall k | 0 <= k < |Live(r[1..], dead)| ensures Less(r[0], Live(r[1..], dead)[k]) {
        var x := Live(r[1..], dead)[k];
        LiveHolds(r[1..], dead, x);
        var j :| 0 <= j < |r[1..]| && r[1..][j] == x;
        assert r[j + 1] == x;
      }
    }
  }

  /** Excluding the dead before the ring is built closes it around them. */
  lemma LiveRing(ids: seq<string>, dead: set<string>)
    ensures RingOf(ids, dead) == Live(RingOf(ids, {}), dead)
  {
    RingHolds(ids, dead);
    RingHolds(ids, {});
    LiveKeepsOrder(RingOf(ids, {}), dead);
    forall x ensures x in RingOf(ids, dead) <==> x in Live(RingOf(ids, {}), dead) {
      LiveHolds(RingOf(ids, {}), dead, x);
    }
    SortedIsUnique(RingOf(ids, dead), Live(RingOf(ids, {}), dead));
  }

  lemma SplitLive(ring: seq<string>, dead: set<string>, i: nat)
    requires i < |ring| && ring[i] !in dead
    ensures Live(ring, dead) == Live(ring[..i], dead) + [ring[i]] + Live(ring[i + 1..], dead)
  {
    var tail := [ring[i]] + ring[i + 1..];
    assert ring == ring[..i] + tail;
    LiveAppend(ring[..i], tail, dead);
    assert tail[1..] == ring[i + 1..];
  }

  /** A live node's successor is the first live node after it in the static ring, and its
      predecessor the last one, all the way round. */
  lemma NeighboursAreNearestLive(ids: seq<string>, dead: set<string>, i: nat)
    requires i < |RingOf(ids, {})| && RingOf(ids, {})[i] !in dead
    ensures Partners(ids, RingOf(ids, {})[i], dead) == EndsOf(Live(Others(RingOf(ids, {}), i), dead))
  {
    var ring := RingOf(ids, {});
    RingHolds(ids, dead);
    LiveRing(ids, dead);
    SplitLive(ring, dead, i);
    LiveAppend(ring[i + 1..], ring[..i], dead);
    NeighboursAreEnds(ids, dead, Live(ring[..i], dead), ring[i], Live(ring[i + 1..], dead));
  }

  /** Last and first, as the two sides of a ring that was cut open. */
  function EndsOf(others: seq<string>): seq<string> {
    if |others| == 0 then [] else if |others| == 1 then [others[0]] else [others[|others| - 1], others[0]]
  }

  lemma NeighboursAreEnds(ids: seq<string>, dead: set<string>, before: seq<string>, x: string, after: seq<string>)
    requires RingOf(ids, dead) == before + [x] + after && StrictlySorted(before + [x] + after)
    ensures Partners(ids, x, dead) == EndsOf(after + before)
  {
    var live, pos := before + [x] + after, |before|;
    assert live[pos] == x;
    DistinctIds(live, pos, Position(live, x).value);
    var others := after + before;
    assert |others| == |live| - 1;
    if |live| >= 2 {
      assert others[0] == live[Succ(|live|, pos)];
      assert others[|others| - 1] == live[Pred(|live|, pos)];
    }
  }

  /** The agents a node keeps: its static neighbours and its live ones. */
  function Desired(ids: seq<string>, self: string, dead: set<string>): set<string> {
    (set x | x in Partners(ids, self, {})) + (set x | x in Partners(ids, self, dead))
  }

  /** The reroute is minimal: static neighbours, dead ones included, are always kept; with both of
      them alive nothing is added; and there are never more than four agents. */
  lemma RerouteIsMinimal(ids: seq<string>, self: string, dead: set<string>)
    ensures forall x <- Partners(ids, self, {}) :: x in Desired(ids, self, dead)
    ensures |Desired(ids, self, dead)| <= 4
    ensures (forall x <- Partners(ids, self, {}) :: x !in dead) ==>
              Desired(ids, self, dead) == set x | x in Partners(ids, self, {})
    ensures self !in Desired(ids, self, dead)
  {
    PartnerCount(ids, {}, self);
    PartnerCount(ids, dead, self);
    FewElements(Partners(ids, self, {}));
    FewElements(Partners(ids, self, dead));
    PartnersAgree(ids, {}, self, self);
    PartnersAgree(ids, dead, self, self);
    if forall x <- Partners(ids, self, {}) :: x !in dead {
      SameWhenAlive(ids, self, dead);
    }
  }

  lemma FewElements(s: seq<string>)
    requires |s| <= 2
    ensures |set x | x in s| <= 2
  {
    var e := set x | x in s;
    if |s| == 0 {
      assert e == {};
    } else if |s| == 1 {
      assert e == {s[0]};
    } else {
      assert e == {s[0], s[1]};
    }
  }

  lemma SameWhenAlive(ids: seq<string>, self: string, dead: set<string>)
    requires forall x <- Partners(ids, self, {}) :: x !in dead
    ensures forall x <- Partners(ids, self, dead) :: x in Partners(ids, self, {})
  {
    RingHolds(ids, {});
    RingHolds(ids, dead);
    if self in ids && self !in dead {
      var ring := RingOf(ids, {});
      var i := Position(ring, self).value;
      NeighboursAreNearestLive(ids, dead, i);
      NeighboursAreNearestLive(ids, {}, i);
      var others := Others(ring, i);
      NobodyDead(others);
      LiveEnds(others, dead);
    }
  }

  lemma {:induction false} NobodyDead(r: seq<string>)
    ensures Live(r, {}) == r
  {
    if r != [] { NobodyDead(r[1..]); }
  }

  /** If both ends of a list are alive they are the ends of its live part. */
  lemma LiveEnds(r: seq<string>, dead: set<string>)
    requires r != [] ==> r[0] !in dead && r[|r| - 1] !in dead
    ensures var l := Live(r, dead);
      (r != [] <==> l != []) && (l != [] ==> l[0] == r[0] && l[|l| - 1] == r[|r| - 1])
  {
    if r != [] {
      assert r == r[..|r| - 1] + [r[|r| - 1]];
      LiveAppend(r[..|r| - 1], [r[|r| - 1]], dead);
      assert [r[|r| - 1]][1..] == [];
      assert Live([r[|r| - 1]], dead) == [r[|r| - 1]];
    }
  }
}
