/** Leases replicated between DHCP servers: the no-regress apply and the full sync it completes
    (crates/magnetite-db/src/dhcp.rs). Times are their RFC 3339 text, in text order. */
module LeaseReplication {
  import opened Ordering
  import opened Feeds
  import opened FeedCursors

  datatype Lease = Lease(updatedAt: string, pool: string, ip: string, body: string)

  predicate SameAddress(a: Lease, b: Lease) { a.pool == b.pool && a.ip == b.ip }

  /** At least as new. */
  predicate Covers(a: Lease, b: Lease) { SameAddress(a, b) && !Less(a.updatedAt, b.updatedAt) }

  function Upserted(rows: set<Lease>, lease: Lease): set<Lease> {
    (set r | r in rows && !SameAddress(r, lease)) + {lease}
  }

  function Applied(rows: set<Lease>, lease: Lease): set<Lease> {
    if exists r <- rows :: Covers(r, lease) then rows else Upserted(rows, lease)
  }

  /** One lease per pool and address. */
  ghost predicate Unique(rows: set<Lease>) {
    forall a, b :: a in rows && b in rows && SameAddress(a, b) ==> a == b
  }

  class LeaseDb {
    var rows: set<Lease>

    method UpsertLease(lease: Lease)
      modifies this
      ensures rows == Upserted(old(rows), lease)
      ensures old(Unique(rows)) ==> Unique(rows)
    {
      rows := set r | r in rows && !SameAddress(r, lease);
      rows := rows + {lease};
    }

    method ApplyReplicatedLease(lease: Lease) returns (wrote: bool)
      requires Unique(rows)
      modifies this
      ensures Unique(rows) && rows == Applied(old(rows), lease)
      ensures wrote <==> !exists r <- old(rows) :: Covers(r, lease)
      ensures wrote ==> lease in rows
    {
      var existing := set r | r in rows && SameAddress(r, lease);
      if existing != {} {
        var cur :| cur in existing;
        if !Less(cur.updatedAt, lease.updatedAt) {
          return false;
        }
      }
      UpsertLease(lease);
      wrote := true;
    }
  }

  function AppliedAll(rows: set<Lease>, leases: seq<Lease>): set<Lease> {
    if leases == [] then rows else Applied(AppliedAll(rows, leases[..|leases| - 1]), leases[|leases| - 1])
  }

  ghost predicate Covered(held: set<Lease>, l: Lease) { exists r <- held :: Covers(r, l) }

  /** `held` has one lease per address, comes from `seen` and covers all of it. */
  ghost predicate HoldsLatest(held: set<Lease>, seen: set<Lease>) {
    && Unique(held) && held <= seen
    && forall l {:trigger Covered(held, l)} :: l in seen ==> Covered(held, l)
  }

  lemma StepCovers(rows: set<Lease>, lease: Lease, l: Lease)
    requires Covered(rows, l) || l == lease
    ensures Covered(Applied(rows, lease), l)
  {
    var next := Applied(rows, lease);
    LessIrreflexive(lease.updatedAt);
    if l == lease {
      assert lease !in next ==> next == rows;
      assert Covers(lease, lease);
    } else {
      var m :| m in rows && Covers(m, l);
      if m !in next {
        NewerCovers(lease, m);
        CoversTransitive(lease, m, l);
        assert lease in next;
      }
    }
  }

  lemma NewerCovers(a: Lease, b: Lease)
    requires SameAddress(a, b) && !Covers(b, a)
    ensures Covers(a, b)
  {
    LessAsymmetric(b.updatedAt, a.updatedAt);
  }

  lemma CoversTransitive(a: Lease, b: Lease, c: Lease)
    requires Covers(a, b) && Covers(b, c)
    ensures Covers(a, c)
  {
    LessTotal(a.updatedAt, b.updatedAt);
    LessTotal(b.updatedAt, c.updatedAt);
    if Less(a.updatedAt, c.updatedAt) {
      if b.updatedAt != c.updatedAt { LessTransitive(a.updatedAt, c.updatedAt, b.updatedAt); }
    }
  }

  function Seen(rows: set<Lease>, leases: seq<Lease>): set<Lease> { rows + set l | l in leases }

  /** However leases arrive, nothing regresses: what was held or delivered is covered by what is
      held, and what is held was held or delivered. */
  lemma {:induction false} NothingRegresses(rows: set<Lease>, leases: seq<Lease>)
    requires Unique(rows)
    ensures HoldsLatest(AppliedAll(rows, leases), Seen(rows, leases))
  {
    if leases == [] {
      forall l | l in rows ensures Covered(rows, l) {
        LessIrreflexive(l.updatedAt);
        assert Covers(l, l);
      }
    } else {
      var init, last := leases[..|leases| - 1], leases[|leases| - 1];
      SplitLast(leases);
      NothingRegresses(rows, init);
      assert Seen(rows, leases) == Seen(rows, init) + {last};
      StepHoldsLatest(AppliedAll(rows, init), Seen(rows, init), last);
    }
  }

  lemma StepHoldsLatest(held: set<Lease>, seen: set<Lease>, lease: Lease)
    requires HoldsLatest(held, seen)
    ensures HoldsLatest(Applied(held, lease), seen + {lease})
  {
    var next := Applied(held, lease);
    forall l | l in seen + {lease} ensures Covered(next, l) {
      assert l in seen ==> Covered(held, l);
      StepCovers(held, lease, l);
    }
  }

  /** Delivering again what was already delivered changes nothing. */
  lemma {:induction false} RedeliveryChangesNothing(rows: set<Lease>, leases: seq<Lease>, again: seq<Lease>)
    requires Unique(rows) && forall l <- again :: l in leases
    ensures AppliedAll(AppliedAll(rows, leases), again) == AppliedAll(rows, leases)
  {
    if again != [] {
      NothingRegresses(rows, leases);
      RedeliveryChangesNothing(rows, leases, again[..|again| - 1]);
      var last := again[|again| - 1];
      assert last in again;
      assert Covered(AppliedAll(rows, leases), last);
    }
  }

  /** No two leases for one address carry the same time. */
  ghost predicate NoTies(leases: set<Lease>) {
    forall a, b :: a in leases && b in leases && SameAddress(a, b) && a.updatedAt == b.updatedAt ==> a == b
  }

  /** Servers that have seen the same leases, in any order and with repeats, agree when none tie. */
  lemma OrderDoesNotMatter(rows: set<Lease>, one: seq<Lease>, other: seq<Lease>)
    requires Unique(rows) && Seen(rows, one) == Seen(rows, other) && NoTies(Seen(rows, one))
    ensures AppliedAll(rows, one) == AppliedAll(rows, other)
  {
    NothingRegresses(rows, one);
    NothingRegresses(rows, other);
    LatestIsUnique(AppliedAll(rows, one), AppliedAll(rows, other), Seen(rows, one));
    LatestIsUnique(AppliedAll(rows, other), AppliedAll(rows, one), Seen(rows, one));
  }

  lemma LatestIsUnique(a: set<Lease>, b: set<Lease>, seen: set<Lease>)
    requires HoldsLatest(a, seen) && HoldsLatest(b, seen) && NoTies(seen)
    ensures a <= b
  {
    forall r <- a ensures r in b {
      assert Covered(b, r);
      var s :| s in b && Covers(s, r);
      assert Covered(a, s);
      var q :| q in a && Covers(q, s);
      LessTotal(r.updatedAt, s.updatedAt);
    }
  }

  // ---- Full sync ---------------------------------------------------------------------------

  function AsRow(l: Lease): Row { Row([l.updatedAt, l.pool, l.ip], l.body) }

  function Table(leases: seq<Lease>): seq<Row> {
    seq(|leases|, i requires 0 <= i < |leases| => AsRow(leases[i]))
  }

  lemma AsRowInjective(a: Lease, b: Lease)
    requires AsRow(a) == AsRow(b)
    ensures a == b
  {
    var k, l := AsRow(a).key, AsRow(b).key;
    assert k[0] == l[0] && k[1] == l[1] && k[2] == l[2];
  }

  /** `leases` lists `rows`, in whatever order the table stores them. */
  ghost predicate Listing(leases: seq<Lease>, rows: set<Lease>) {
    (forall l :: l in leases <==> l in rows) && forall i, j :: 0 <= i < j < |leases| ==> leases[i] != leases[j]
  }

  lemma TableIsKeyed(leases: seq<Lease>, rows: set<Lease>)
    requires Unique(rows) && Listing(leases, rows)
    ensures Keyed(Table(leases), LEASE_COLUMNS)
    ensures forall l :: AsRow(l) in Table(leases) <==> l in rows
  {
    var t := Table(leases);
    forall i, j | 0 <= i < j < |t| ensures t[i].key != t[j].key {
      assert leases[i] in leases && leases[j] in leases;
      assert t[i].key[1] == leases[i].pool && t[i].key[2] == leases[i].ip;
      assert t[j].key[1] == leases[j].pool && t[j].key[2] == leases[j].ip;
    }
    forall l ensures AsRow(l) in t <==> l in rows {
      if AsRow(l) in t {
        var k :| 0 <= k < |t| && t[k] == AsRow(l);
        AsRowInjective(leases[k], l);
        assert leases[k] in leases;
      }
      if l in rows {
        var k :| 0 <= k < |leases| && leases[k] == l;
        assert t[k] == AsRow(l);
      }
    }
  }

  /** A lease with nothing to order it by. */
  predicate Blank(l: Lease) { l.updatedAt == l.pool == l.ip == "" }

  /** A peer that starts empty and applies what the feed served, in any order and with repeats, ends
      with exactly the server's leases, a blank one excepted, once a page has come back empty. */
  lemma FullSync(rows: set<Lease>, leases: seq<Lease>, limit: nat, cursors: seq<string>, pages: seq<seq<Row>>, i: nat,
                 delivered: seq<Lease>)
    requires Unique(rows) && Listing(leases, rows) && LeaseRun(Table(leases), limit, cursors, pages)
    requires limit > 0 && cursors[0] == "" && i < |pages| && pages[i] == []
    requires forall l :: l in delivered <==> AsRow(l) in Concat(pages[..i])
    ensures AppliedAll({}, delivered) == set l | l in rows && !Blank(l)
  {
    var table := Table(leases);
    TableIsKeyed(leases, rows);
    forall l ensures l in delivered <==> l in rows && !Blank(l) {
      BlankIff(l);
      if l in rows && !Blank(l) {
        ServedByTheEnd(table, limit, cursors, pages, i, AsRow(l));
      } else if l in rows {
        BlankIsNeverServed(table, limit, cursors, pages, i, AsRow(l));
      } else {
        OnlyTableRows(table, limit, cursors, pages, i, AsRow(l));
      }
    }
    DeliveredIsHeld((set l | l in rows && !Blank(l)), delivered);
  }

  lemma BlankIff(l: Lease)
    ensures Blank(l) <==> AsRow(l).key == ["", "", ""]
  {
    var k := AsRow(l).key;
    if k == ["", "", ""] { assert k[0] == "" && k[1] == "" && k[2] == ""; }
  }

  lemma DeliveredIsHeld(rows: set<Lease>, delivered: seq<Lease>)
    requires Unique(rows) && forall l :: l in delivered <==> l in rows
    ensures AppliedAll({}, delivered) == rows
  {
    NothingRegresses({}, delivered);
    var held := AppliedAll({}, delivered);
    forall l <- rows ensures l in held {
      assert Covered(held, l);
      var r :| r in held && Covers(r, l);
    }
  }
}
