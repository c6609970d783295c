/** Domain-controller locator records in a shared zone (crates/magnetite-db/src/addc_dns.rs). Record
    data is its presentation text. */
module DcLocator {
  import opened Ordering
  import opened Text
  import opened DnsNames
  import opened DnsZone

  const SRV := Other("SRV")

  /** How names and targets are compared: without trailing dots, ignoring case. */
  function Fold(s: string): string { Lower(TrimDots(s)) }

  function Srv(name: string, port: string, target: string): Rr {
    Rr(name, SRV, Print(["0", "100", port, target], ' '), 600, true)
  }

  function ARecord(name: string, ip: string): Rr { Rr(name, A, ip, 600, true) }

  /** Each service's owner name under the domain and its port. */
  const SERVICES: seq<(string, string)> := [
    ("_kerberos._tcp.", "88"), ("_kerberos._udp.", "88"), ("_kerberos._tcp.dc._msdcs.", "88"),
    ("_kpasswd._tcp.", "464"), ("_kpasswd._udp.", "464"),
    ("_ldap._tcp.", "389"), ("_ldap._tcp.dc._msdcs.", "389"), ("_ldap._tcp.pdc._msdcs.", "389"),
    ("_gc._tcp.", "3268"), ("_ldap._tcp.gc._msdcs.", "3268")]

  function SrvRecords(domain: string, host: string): seq<Rr> {
    seq(|SERVICES|, i requires 0 <= i < |SERVICES| => Srv(SERVICES[i].0 + domain, SERVICES[i].1, host))
  }

  function AddressRecords(domain: string, host: string, ip: string): seq<Rr> {
    [ARecord(host, ip), ARecord(domain, ip), ARecord("gc._msdcs." + domain, ip)]
  }

  function LocatorRecords(domain: string, dc: string, ip: string): seq<Rr> {
    var host := dc + "." + domain;
    SrvRecords(domain, host) + AddressRecords(domain, host, ip)
  }

  /** An SRV record's host or an address record's address. */
  function Target(rr: Rr): string {
    Fold(if rr.rtype == SRV then SplitN(rr.data, 4, ' ')[3] else rr.data)
  }

  datatype RecKey = RecKey(rtype: RecordType, name: string, target: string)

  function KeyOf(rr: Rr): RecKey { RecKey(rr.rtype, Fold(rr.name), Target(rr)) }

  function Keys(rows: set<Row>, zone: string): set<RecKey> {
    set r | r in rows && r.zone == zone :: KeyOf(r.rr)
  }

  function KeysOf(recs: seq<Rr>): set<RecKey> {
    set rr | rr in recs :: KeyOf(rr)
  }

  // ---- Seed and withdraw -------------------------------------------------------------------

  /** Create what is missing among the keys read at the start; stop at the first refusal. */
  function Seeded(st: Store, zone: string, existing: set<RecKey>, recs: seq<Rr>): (Store, bool)
    decreases |recs|
  {
    if recs == [] then (st, true)
    else if KeyOf(recs[0]) in existing then Seeded(st, zone, existing, recs[1..])
    else if Conflict(st.rows, zone, recs[0].name, recs[0].rtype, None) then (st, false)
    else Seeded(Created(st, zone, recs[0]), zone, existing, recs[1..])
  }

  function Seed(st: Store, zone: string, recs: seq<Rr>): (Store, bool) {
    Seeded(st, zone, Keys(st.rows, zone), recs)
  }

  /** The first zone listed under the domain's name, compared without trimming. */
  function ZoneOf(zones: seq<Zone>, domain: string): (zone: Option<string>)
    ensures zone.Some? ==> exists z <- zones :: z.id == zone.value && Fold(z.name) == Fold(domain)
    ensures zone.None? <==> forall z <- zones :: Fold(z.name) != Fold(domain)
  {
    if zones == [] then None
    else if Fold(zones[0].name) == Fold(domain) then Some(zones[0].id)
    else ZoneOf(zones[1..], domain)
  }

  /** The domain's zone, created if it is not found. */
  function Opened(st: Store, domain: string, id: string): (Store, Result<string>) {
    match ZoneOf(st.zones, domain)
    case Some(zone) => (st, Ok(zone))
    case None =>
      if ZoneNamed(st.zones, Normalize(domain)) then (st, Refused) else (ZoneCreated(st, domain, id), Ok(id))
  }

  function SeedDomain(st: Store, id: string, domain: string, dc: string, ip: string): (Store, bool) {
    match Opened(st, domain, id)
    case (t, Refused) => (t, false)
    case (t, Ok(zone)) => Seed(t, zone, LocatorRecords(domain, dc, ip))
  }

  /** The rows a withdrawal leaves, and the count it reports. */
  function WithdrawDomain(st: Store, domain: string, dc: string, ip: string): (set<Row>, nat) {
    match ZoneOf(st.zones, domain)
    case None => (st.rows, 0)
    case Some(zone) =>
      var recs := LocatorRecords(domain, dc, ip);
      (Withdrawn(st.rows, zone, KeysOf(recs)), Counted(st.rows, zone, recs))
  }

  function Withdrawn(rows: set<Row>, zone: string, keys: set<RecKey>): set<Row> {
    set r | r in rows && !(r.zone == zone && KeyOf(r.rr) in keys)
  }

  function WithKey(rows: set<Row>, zone: string, key: RecKey): set<Row> {
    set r | r in rows && r.zone == zone && KeyOf(r.rr) == key
  }

  /** The count a withdrawal reports: the rows each record matched at the start. */
  function Counted(rows: set<Row>, zone: string, recs: seq<Rr>): nat {
    if recs == [] then 0
    else Counted(rows, zone, recs[..|recs| - 1]) + |WithKey(rows, zone, KeyOf(recs[|recs| - 1]))|
  }

  ghost predicate UniqueIds(rows: set<Row>) {
    forall a, b :: a in rows && b in rows && a.id == b.id ==> a == b
  }

  method HasKey(existing: seq<Row>, rr: Rr) returns (already: bool)
    ensures already <==> exists e <- existing :: KeyOf(e.rr) == KeyOf(rr)
  {
    for i := 0 to |existing|
      invariant forall j :: 0 <= j < i ==> KeyOf(existing[j].rr) != KeyOf(rr)
    {
      if KeyOf(existing[i].rr) == KeyOf(rr) {
        return true;
      }
    }
    return false;
  }

  /** `id` is the one the store draws if the zone has to be created. */
  method SeedDcLocator(db: DnsDb, id: string, domain: string, dc: string, ip: string) returns (r: Result<()>)
    modifies db
    ensures (db.Contents(), r.Ok?) == SeedDomain(old(db.Contents()), id, domain, dc, ip)
  {
    var zone := ZoneOf(db.zones, domain);
    if zone.None? {
      var created := db.CreateZone(domain, id);
      if created.Refused? {
        return Refused;
      }
      zone := Some(created.value);
    }
    var existing := db.ListRecords(zone.value);
    ListedKeys(existing, db.rows, zone.value);
    r := SeedMissing(db, zone.value, existing, LocatorRecords(domain, dc, ip));
  }

  /** The keys among the listed rows. */
  ghost function KeysIn(existing: seq<Row>): set<RecKey> { set e | e in existing :: KeyOf(e.rr) }

  lemma ListedKeys(existing: seq<Row>, rows: set<Row>, zone: string)
    requires Lists(existing, InZone(rows, zone))
    ensures KeysIn(existing) == Keys(rows, zone)
  {
    forall k | k in Keys(rows, zone) ensures k in KeysIn(existing) {
      var r :| r in rows && r.zone == zone && KeyOf(r.rr) == k;
      assert r in existing;
    }
  }

  method SeedMissing(db: DnsDb, zone: string, existing: seq<Row>, recs: seq<Rr>) returns (r: Result<()>)
    modifies db
    ensures (db.Contents(), r.Ok?) == Seeded(old(db.Contents()), zone, KeysIn(existing), recs)
  {
    var i := 0;
    assert recs[0..] == recs;
    while i < |recs|
      invariant 0 <= i <= |recs|
      invariant Seeded(old(db.Contents()), zone, KeysIn(existing), recs)
             == Seeded(db.Contents(), zone, KeysIn(existing), recs[i..])
    {
      assert recs[i..][1..] == recs[i + 1..];
      var already := HasKey(existing, recs[i]);
      if !already {
        var created := db.CreateRecord(zone, recs[i]);
        if created.Refused? {
          return Refused;
        }
      }
      i := i + 1;
    }
    return Ok(());
  }

  method WithdrawDcLocator(db: DnsDb, domain: string, dc: string, ip: string) returns (removed: nat)
    requires UniqueIds(db.rows)
    modifies db`rows
    ensures (db.rows, removed) == WithdrawDomain(old(db.Contents()), domain, dc, ip)
  {
    var zone := ZoneOf(db.zones, domain);
    if zone.None? {
      return 0;
    }
    var existing := db.ListRecords(zone.value);
    removed := WithdrawAll(db, zone.value, existing, LocatorRecords(domain, dc, ip));
  }

  method WithdrawAll(db: DnsDb, zone: string, existing: seq<Row>, recs: seq<Rr>) returns (removed: nat)
    requires UniqueIds(db.rows) && Lists(existing, InZone(db.rows, zone))
    modifies db`rows
    ensures db.rows == Withdrawn(old(db.rows), zone, KeysOf(recs))
    ensures removed == Counted(old(db.rows), zone, recs)
  {
    removed := 0;
    assert Withdrawn(db.rows, zone, KeysOf(recs[..0])) == db.rows;
    for i := 0 to |recs|
      invariant db.rows == Withdrawn(old(db.rows), zone, KeysOf(recs[..i]))
      invariant removed == Counted(old(db.rows), zone, recs[..i])
    {
      var n := WithdrawOne(db, zone, existing, KeyOf(recs[i]), old(db.rows));
      removed := removed + n;
      OneMoreRecord(old(db.rows), zone, recs, i);
    }
    assert recs[..|recs|] == recs;
  }

  lemma OneMoreRecord(rows: set<Row>, zone: string, recs: seq<Rr>, i: nat)
    requires i < |recs|
    ensures Withdrawn(rows, zone, KeysOf(recs[..i + 1]))
         == Withdrawn(Withdrawn(rows, zone, KeysOf(recs[..i])), zone, {KeyOf(recs[i])})
    ensures Counted(rows, zone, recs[..i + 1])
         == Counted(rows, zone, recs[..i]) + |WithKey(rows, zone, KeyOf(recs[i]))|
  {
    assert recs[..i + 1] == recs[..i] + [recs[i]] && recs[..i + 1][..i] == recs[..i];
    assert KeysOf(recs[..i + 1]) == KeysOf(recs[..i]) + {KeyOf(recs[i])};
  }

  /** Every listed row with this key goes, whether or not it is still there. */
  method WithdrawOne(db: DnsDb, zone: string, existing: seq<Row>, key: RecKey, ghost before: set<Row>)
    returns (removed: nat)
    requires UniqueIds(before) && db.rows <= before && Lists(existing, InZone(before, zone))
    modifies db`rows
    ensures db.rows == Withdrawn(old(db.rows), zone, {key})
    ensures removed == |WithKey(before, zone, key)|
  {
    removed := 0;
    for j := 0 to |existing|
      invariant db.rows == Without(old(db.rows), existing[..j], key)
      invariant removed == |Having(existing[..j], key)|
    {
      HavingNext(existing, j, key);
      assert existing[j] in existing;
      WithoutNext(old(db.rows), before, existing, j, key);
      if KeyOf(existing[j].rr) == key {
        db.DeleteRecord(existing[j].id);
        removed := removed + 1;
      }
    }
    assert existing[..|existing|] == existing;
    AllListed(old(db.rows), before, zone, existing, key);
  }

  ghost function Without(rows: set<Row>, listed: seq<Row>, key: RecKey): set<Row> {
    set r | r in rows && !(r in listed && KeyOf(r.rr) == key)
  }

  lemma WithoutNext(rows: set<Row>, before: set<Row>, listed: seq<Row>, j: nat, key: RecKey)
    requires UniqueIds(before) && rows <= before && j < |listed| && listed[j] in before
    ensures var part := Without(rows, listed[..j], key);
      Without(rows, listed[..j + 1], key)
        == if KeyOf(listed[j].rr) == key then (set r | r in part && r.id != listed[j].id) else part
  {
    assert listed[..j + 1] == listed[..j] + [listed[j]];
    assert forall r <- rows :: r.id == listed[j].id ==> r == listed[j];
  }

  lemma AllListed(rows: set<Row>, before: set<Row>, zone: string, listed: seq<Row>, key: RecKey)
    requires rows <= before && Lists(listed, InZone(before, zone))
    ensures Without(rows, listed, key) == Withdrawn(rows, zone, {key})
    ensures Having(listed, key) == WithKey(before, zone, key)
  {
  }

  ghost function Having(rows: seq<Row>, key: RecKey): set<Row> { set r | r in rows && KeyOf(r.rr) == key }

  lemma HavingNext(rows: seq<Row>, j: nat, key: RecKey)
    requires j < |rows| && forall i, k :: 0 <= i < k < |rows| ==> rows[i] != rows[k]
    ensures |Having(rows[..j + 1], key)| == |Having(rows[..j], key)| + if KeyOf(rows[j].rr) == key then 1 else 0
  {
    assert rows[..j + 1] == rows[..j] + [rows[j]];
    var before, after := Having(rows[..j], key), Having(rows[..j + 1], key);
    assert rows[j] !in before;
    assert after == if KeyOf(rows[j].rr) == key then before + {rows[j]} else before;
  }

  // ---- The algebra -------------------------------------------------------------------------

  /** Records whose stored name compares equal to the name they were seeded with. */
  ghost predicate Kept(rr: Rr) { Fold(Normalize(rr.name)) == Fold(rr.name) }

  lemma KeptIff(rr: Rr)
    ensures Kept(rr) <==> Trim(rr.name) == rr.name
  {
    FoldKeptIff(rr.name);
  }

  /** A stored name compares equal exactly when nothing was trimmed from its ends. */
  lemma FoldKeptIff(n: string)
    ensures Fold(Normalize(n)) == Fold(n) <==> Trim(n) == n
  {
    FoldLower(TrimDots(Trim(n)));
    TrimDotsEnds(Trim(n));
    assert TrimDots(TrimDots(Trim(n))) == TrimDots(Trim(n));
    if Trim(n) != n {
      TrimShortens(n);
    }
  }

  lemma {:induction false} FoldLower(s: string)
    ensures Fold(Lower(s)) == Fold(s)
  {
    LowerTwice(s);
    if s != "" && s[|s| - 1] == '.' {
      FoldLower(s[..|s| - 1]);
      assert Lower(s)[..|s| - 1] == Lower(s[..|s| - 1]);
    }
  }

  lemma LowerTwice(s: string)
    ensures Lower(Lower(s)) == Lower(s)
  {
  }

  /** White space at an end survives folding but not storing. */
  lemma TrimShortens(n: string)
    requires Trim(n) != n
    ensures Lower(TrimDots(Trim(n))) != Lower(TrimDots(n))
  {
    TrimDotsEnds(n);
    TrimDotsEnds(Trim(n));
    TrimEndEnds(TrimStart(n));
    TrimStartShorter(n);
    if n != "" && IsSpace(n[0]) {
      KeepsFirst(n);
      TrimmedStarts(n);
    } else {
      assert TrimStart(n) == n;
      assert IsSpace(n[|n| - 1]);
      assert TrimDots(n) == n;
    }
  }

  lemma {:induction false} KeepsFirst(s: string)
    requires s != "" && s[0] != '.'
    ensures TrimDots(s) != "" && TrimDots(s)[0] == s[0]
  {
    if s[|s| - 1] == '.' { KeepsFirst(s[..|s| - 1]); }
  }

  /** Locator records: none is a CNAME, and every name is kept. */
  ghost predicate Plain(recs: seq<Rr>) {
    forall rr <- recs :: !rr.rtype.Cname? && Kept(rr)
  }

  /** Some record that is missing would sit beside a CNAME. */
  ghost predicate Blocked(rows: set<Row>, zone: string, existing: set<RecKey>, recs: seq<Rr>) {
    exists rr <- recs :: KeyOf(rr) !in existing && Conflict(rows, zone, rr.name, rr.rtype, None)
  }

  /** Creating a record of another type blocks no other. */
  lemma CreateBlocksNothing(st: Store, zone: string, rr: Rr, other: Rr)
    requires !rr.rtype.Cname? && !other.rtype.Cname?
    ensures Conflict(Created(st, zone, rr).rows, zone, other.name, other.rtype, None)
        <==> Conflict(st.rows, zone, other.name, other.rtype, None)
  {
    var after := Created(st, zone, rr);
    if Conflict(st.rows, zone, other.name, other.rtype, None) {
      var r :| r in st.rows && r.zone == zone && Normalize(r.rr.name) == Normalize(other.name) && r.rr.rtype.Cname?;
      assert r in after.rows;
    }
  }

  lemma CreateAddsKey(st: Store, zone: string, rr: Rr)
    requires Kept(rr) && !Conflict(st.rows, zone, rr.name, rr.rtype, None)
    ensures Keys(Created(st, zone, rr).rows, zone) == Keys(st.rows, zone) + {KeyOf(rr)}
  {
    var row := Row(st.nextId, zone, Stored(rr));
    assert KeyOf(row.rr) == KeyOf(rr);
    var after := Created(st, zone, rr).rows;
    assert row in after;
    forall k ensures k in Keys(after, zone) <==> k in Keys(st.rows, zone) + {KeyOf(rr)} {
      if k in Keys(st.rows, zone) {
        var r :| r in st.rows && r.zone == zone && KeyOf(r.rr) == k;
        assert r in after;
      }
    }
  }

  /** The rows a run of seeding adds, all with keys of its records. */
  ghost predicate Adds(before: set<Row>, after: set<Row>, zone: string, keys: set<RecKey>) {
    before <= after && forall r <- after - before :: r.zone == zone && KeyOf(r.rr) in keys
  }

  ghost predicate NoAliases(recs: seq<Rr>) { forall rr <- recs :: !rr.rtype.Cname? }

  lemma CreateKeepsBlocked(st: Store, zone: string, existing: set<RecKey>, rr: Rr, rest: seq<Rr>)
    requires NoAliases([rr] + rest)
    ensures Blocked(Created(st, zone, rr).rows, zone, existing, rest) <==> Blocked(st.rows, zone, existing, rest)
  {
    assert rr in [rr] + rest;
    forall other <- rest ensures Conflict(Created(st, zone, rr).rows, zone, other.name, other.rtype, None)
        <==> Conflict(st.rows, zone, other.name, other.rtype, None) {
      assert other in [rr] + rest;
      CreateBlocksNothing(st, zone, rr, other);
    }
  }

  lemma {:induction false} SeededUnlessBlocked(st: Store, zone: string, existing: set<RecKey>, recs: seq<Rr>)
    requires NoAliases(recs)
    ensures Seeded(st, zone, existing, recs).1 <==> !Blocked(st.rows, zone, existing, recs)
    decreases |recs|
  {
    if recs != [] {
      var rr, rest := recs[0], recs[1..];
      assert recs == [rr] + rest;
      if KeyOf(rr) in existing {
        SeededUnlessBlocked(st, zone, existing, rest);
      } else if !Conflict(st.rows, zone, rr.name, rr.rtype, None) {
        SeededUnlessBlocked(Created(st, zone, rr), zone, existing, rest);
        CreateKeepsBlocked(st, zone, existing, rr, rest);
      }
    }
  }

  lemma {:induction false} SeededAdds(st: Store, zone: string, existing: set<RecKey>, recs: seq<Rr>)
    requires Plain(recs)
    ensures Adds(st.rows, Seeded(st, zone, existing, recs).0.rows, zone, KeysOf(recs) - existing)
    decreases |recs|
  {
    if recs != [] {
      var rr, rest := recs[0], recs[1..];
      assert recs == [rr] + rest;
      assert KeysOf(recs) == {KeyOf(rr)} + KeysOf(rest);
      if KeyOf(rr) in existing {
        SeededAdds(st, zone, existing, rest);
      } else if !Conflict(st.rows, zone, rr.name, rr.rtype, None) {
        SeededAdds(Created(st, zone, rr), zone, existing, rest);
        assert rr in recs && KeyOf(Stored(rr)) == KeyOf(rr);
      }
    }
  }

  lemma {:induction false} SeededKeys(st: Store, zone: string, existing: set<RecKey>, recs: seq<Rr>)
    requires Plain(recs) && existing <= Keys(st.rows, zone) && Seeded(st, zone, existing, recs).1
    ensures Keys(Seeded(st, zone, existing, recs).0.rows, zone) == Keys(st.rows, zone) + KeysOf(recs)
    decreases |recs|
  {
    if recs != [] {
      var rr, rest := recs[0], recs[1..];
      assert recs == [rr] + rest;
      assert KeysOf(recs) == {KeyOf(rr)} + KeysOf(rest);
      assert rr in recs;
      if KeyOf(rr) in existing {
        SeededKeys(st, zone, existing, rest);
      } else {
        CreateAddsKey(st, zone, rr);
        SeededKeys(Created(st, zone, rr), zone, existing, rest);
      }
    }
  }

  /** Seeding succeeds exactly when no missing record meets a CNAME; it then adds its keys, changing
      no row that was there. */
  lemma SeedAddsKeys(st: Store, zone: string, recs: seq<Rr>)
    requires Plain(recs)
    ensures var (after, ok) := Seed(st, zone, recs);
      (ok <==> !Blocked(st.rows, zone, Keys(st.rows, zone), recs))
      && Adds(st.rows, after.rows, zone, KeysOf(recs) - Keys(st.rows, zone))
      && (ok ==> Keys(after.rows, zone) == Keys(st.rows, zone) + KeysOf(recs))
  {
    var existing := Keys(st.rows, zone);
    SeededUnlessBlocked(st, zone, existing, recs);
    SeededAdds(st, zone, existing, recs);
    if Seed(st, zone, recs).1 { SeededKeys(st, zone, existing, recs); }
  }

  lemma {:induction false} NothingMissing(st: Store, zone: string, existing: set<RecKey>, recs: seq<Rr>)
    requires KeysOf(recs) <= existing
    ensures Seeded(st, zone, existing, recs) == (st, true)
  {
    if recs != [] {
      assert KeyOf(recs[0]) in KeysOf(recs);
      NothingMissing(st, zone, existing, recs[1..]);
    }
  }

  /** Seeding again changes nothing at all. */
  lemma SeedIsIdempotent(st: Store, zone: string, recs: seq<Rr>)
    requires Plain(recs) && Seed(st, zone, recs).1
    ensures Seed(Seed(st, zone, recs).0, zone, recs) == Seed(st, zone, recs)
  {
    SeedAddsKeys(st, zone, recs);
    var after := Seed(st, zone, recs).0;
    NothingMissing(after, zone, Keys(after.rows, zone), recs);
  }

  /** Within a zone a created record is found again exactly when its name was kept: one with white space
      at an end is not. */
  lemma FoundAgainIff(st: Store, zone: string, rr: Rr)
    requires KeyOf(rr) !in Keys(st.rows, zone) && !Conflict(st.rows, zone, rr.name, rr.rtype, None)
    ensures KeyOf(rr) in Keys(Created(st, zone, rr).rows, zone) <==> Trim(rr.name) == rr.name
  {
    KeptIff(rr);
    var row := Row(st.nextId, zone, Stored(rr));
    var after := Created(st, zone, rr).rows;
    assert row in after && KeyOf(row.rr) in Keys(after, zone);
  }

  /** Whether a seeding succeeds does not depend on one that succeeded before it. */
  lemma SeedsDoNotBlock(st: Store, zone: string, one: seq<Rr>, other: seq<Rr>)
    requires Plain(one) && Plain(other) && Seed(st, zone, one).1
    ensures Seed(Seed(st, zone, one).0, zone, other).1 <==> Seed(st, zone, other).1
  {
    var t := Seed(st, zone, one).0;
    SeedAddsKeys(st, zone, one);
    SeedAddsKeys(st, zone, other);
    SeedAddsKeys(t, zone, other);
    forall rr <- other ensures
      (KeyOf(rr) !in Keys(t.rows, zone) && Conflict(t.rows, zone, rr.name, rr.rtype, None))
      <==> (KeyOf(rr) !in Keys(st.rows, zone) && Conflict(st.rows, zone, rr.name, rr.rtype, None)) {
      AddsBlocksNothing(st.rows, t.rows, zone, one, rr);
      if KeyOf(rr) in KeysOf(one) && KeyOf(rr) !in Keys(st.rows, zone) {
        NotBlockedBySameKey(st.rows, zone, Keys(st.rows, zone), one, rr);
      }
    }
  }

  lemma AddsBlocksNothing(before: set<Row>, after: set<Row>, zone: string, recs: seq<Rr>, rr: Rr)
    requires Plain(recs) && !rr.rtype.Cname? && Adds(before, after, zone, KeysOf(recs) - Keys(before, zone))
    ensures Conflict(after, zone, rr.name, rr.rtype, None) <==> Conflict(before, zone, rr.name, rr.rtype, None)
  {
    forall r <- after - before ensures !r.rr.rtype.Cname? {
      var q :| q in recs && KeyOf(q) == KeyOf(r.rr);
    }
    if Conflict(before, zone, rr.name, rr.rtype, None) {
      var r :| r in before && r.zone == zone && Normalize(r.rr.name) == Normalize(rr.name) && r.rr.rtype.Cname?;
      assert r in after;
    }
  }

  /** Kept records with one key have one name, so that what blocks one blocks the other. */
  lemma NotBlockedBySameKey(rows: set<Row>, zone: string, existing: set<RecKey>, recs: seq<Rr>, rr: Rr)
    requires Plain(recs) && Kept(rr) && !rr.rtype.Cname? && !Blocked(rows, zone, existing, recs)
    requires KeyOf(rr) in KeysOf(recs) && KeyOf(rr) !in existing
    ensures !Conflict(rows, zone, rr.name, rr.rtype, None)
  {
    var q :| q in recs && KeyOf(q) == KeyOf(rr);
    KeptIff(q);
    KeptIff(rr);
    assert Normalize(q.name) == Normalize(rr.name);
    assert Conflict(rows, zone, q.name, q.rtype, None) <==> Conflict(rows, zone, rr.name, rr.rtype, None);
  }

  /** Two controllers may seed in either order: one order succeeds exactly when the other does, and then
      both leave the same keys. */
  lemma SeedOrderDoesNotMatter(st: Store, zone: string, one: seq<Rr>, other: seq<Rr>)
    requires Plain(one) && Plain(other)
    ensures BothSeeded(st, zone, one, other) <==> BothSeeded(st, zone, other, one)
    ensures BothSeeded(st, zone, one, other) ==>
      Keys(Seed(Seed(st, zone, one).0, zone, other).0.rows, zone)
      == Keys(Seed(Seed(st, zone, other).0, zone, one).0.rows, zone)
  {
    if Seed(st, zone, one).1 { SeedsDoNotBlock(st, zone, one, other); }
    if Seed(st, zone, other).1 { SeedsDoNotBlock(st, zone, other, one); }
    if BothSeeded(st, zone, one, other) {
      SeedAddsKeys(st, zone, one);
      SeedAddsKeys(Seed(st, zone, one).0, zone, other);
      SeedAddsKeys(st, zone, other);
      SeedAddsKeys(Seed(st, zone, other).0, zone, one);
    }
  }

  ghost predicate BothSeeded(st: Store, zone: string, first: seq<Rr>, second: seq<Rr>) {
    Seed(st, zone, first).1 && Seed(Seed(st, zone, first).0, zone, second).1
  }

  /** Withdrawing what was seeded restores the rows exactly when none of its keys was there before. */
  lemma WithdrawRestoresIff(st: Store, zone: string, recs: seq<Rr>)
    requires Plain(recs)
    ensures Withdrawn(Seed(st, zone, recs).0.rows, zone, KeysOf(recs)) == st.rows
        <==> Keys(st.rows, zone) !! KeysOf(recs)
  {
    SeedAddsKeys(st, zone, recs);
    var after := Seed(st, zone, recs).0.rows;
    var left := Withdrawn(after, zone, KeysOf(recs));
    if Keys(st.rows, zone) !! KeysOf(recs) {
      forall r <- st.rows ensures r in left {
        if r.zone == zone { assert KeyOf(r.rr) in Keys(st.rows, zone); }
      }
    } else {
      var k :| k in Keys(st.rows, zone) && k in KeysOf(recs);
      var r :| r in st.rows && r.zone == zone && KeyOf(r.rr) == k;
      assert r !in left;
    }
  }

  // ---- Controllers -------------------------------------------------------------------------

  lemma SrvKey(name: string, port: string, target: string)
    requires ' ' !in port
    ensures KeyOf(Srv(name, port, target)) == RecKey(SRV, Fold(name), Fold(target))
  {
    var k := ["0", "100", port, target];
    PrintedReadsBackIff(k, ' ');
  }

  /** Every locator key names the host or the address of its controller, and each occurs. */
  lemma LocatorKeys(domain: string, dc: string, ip: string)
    ensures var keys := KeysOf(LocatorRecords(domain, dc, ip));
      (forall k <- keys ::
         (k.rtype == SRV && k.target == Fold(dc + "." + domain)) || (k.rtype == A && k.target == Fold(ip)))
      && RecKey(SRV, Fold("_ldap._tcp." + domain), Fold(dc + "." + domain)) in keys
      && RecKey(A, Fold(domain), Fold(ip)) in keys
  {
    var recs, host := LocatorRecords(domain, dc, ip), dc + "." + domain;
    forall rr <- recs ensures (KeyOf(rr).rtype == SRV && KeyOf(rr).target == Fold(host))
                           || (KeyOf(rr).rtype == A && KeyOf(rr).target == Fold(ip)) {
      if rr in SrvRecords(domain, host) { ServiceKey(rr, domain, host); }
    }
    ServiceKey(SrvRecords(domain, host)[5], domain, host);
    assert SrvRecords(domain, host)[5] in recs;
    HostAndApex(domain, dc, ip);
  }

  lemma ServiceKey(rr: Rr, domain: string, host: string)
    requires rr in SrvRecords(domain, host)
    ensures KeyOf(rr) == RecKey(SRV, Fold(rr.name), Fold(host))
  {
    var i :| 0 <= i < |SERVICES| && rr == SrvRecords(domain, host)[i];
    Ports(i);
    SrvKey(rr.name, SERVICES[i].1, host);
  }

  lemma Ports(i: nat)
    requires i < |SERVICES|
    ensures ' ' !in SERVICES[i].1
    ensures var p := SERVICES[i].0; |p| > 2 && p[0] == '_' && p[|p| - 1] == '.' && p[|p| - 2] != '.'
  {
  }

  /** Two controllers of one domain share no key exactly when both hosts and addresses differ; then
      withdrawing one leaves the other's rows, and everything else, alone. */
  lemma ControllersAreSeparateIff(domain: string, dc: string, ip: string, dc2: string, ip2: string)
    ensures KeysOf(LocatorRecords(domain, dc, ip)) !! KeysOf(LocatorRecords(domain, dc2, ip2))
        <==> Fold(dc + "." + domain) != Fold(dc2 + "." + domain) && Fold(ip) != Fold(ip2)
  {
    LocatorKeys(domain, dc, ip);
    LocatorKeys(domain, dc2, ip2);
  }

  lemma WithdrawLeavesOthers(rows: set<Row>, zone: string, mine: set<RecKey>, others: set<RecKey>)
    requires mine !! others
    ensures forall r <- rows :: r.zone != zone || KeyOf(r.rr) in others ==> r in Withdrawn(rows, zone, mine)
    ensures Keys(Withdrawn(rows, zone, mine), zone) == Keys(rows, zone) - mine
  {
    var left := Withdrawn(rows, zone, mine);
    forall k <- Keys(rows, zone) - mine ensures k in Keys(left, zone) {
      var r :| r in rows && r.zone == zone && KeyOf(r.rr) == k;
      assert r in left;
    }
  }

  /** Some record repeats the key of an earlier one, and rows have it: these are counted twice. */
  ghost predicate Doubled(rows: set<Row>, zone: string, recs: seq<Rr>) {
    recs != [] && var init, key := recs[..|recs| - 1], KeyOf(recs[|recs| - 1]);
    Doubled(rows, zone, init) || (key in KeysOf(init) && WithKey(rows, zone, key) != {})
  }

  /** The count is the number of rows removed unless two of the records share a key with rows, as for
      a controller named like the catalog alias. */
  lemma {:induction false} CountIsRemovedIff(rows: set<Row>, zone: string, recs: seq<Rr>)
    ensures var removed := |rows| - |Withdrawn(rows, zone, KeysOf(recs))|;
      Counted(rows, zone, recs) >= removed && (Counted(rows, zone, recs) == removed <==> !Doubled(rows, zone, recs))
  {
    if recs == [] {
      assert KeysOf(recs) == {} && Withdrawn(rows, zone, {}) == rows;
    } else {
      var init, last := recs[..|recs| - 1], recs[|recs| - 1];
      SplitLast(recs);
      CountIsRemovedIff(rows, zone, init);
      WithdrawNext(rows, zone, KeysOf(init), KeyOf(last));
      assert KeysOf(recs) == KeysOf(init) + {KeyOf(last)};
    }
  }

  lemma WithdrawNext(rows: set<Row>, zone: string, keys: set<RecKey>, key: RecKey)
    ensures |Withdrawn(rows, zone, keys + {key})|
         == |Withdrawn(rows, zone, keys)| - if key in keys then 0 else |WithKey(rows, zone, key)|
  {
    var before, after := Withdrawn(rows, zone, keys), Withdrawn(rows, zone, keys + {key});
    var gone := WithKey(rows, zone, key);
    if key in keys {
      assert after == before;
    } else {
      assert before == after + gone && after !! gone;
    }
  }

  // ---- The count for a controller ----------------------------------------------------------

  const ALIAS_LABEL := "gc._msdcs"

  /** Host names under the domain compare equal: a domain of dots leaves only the labels, and their own
      trailing dots go with it. */
  ghost predicate SameHost(domain: string, dc: string, dc2: string) {
    if TrimDots(domain) == "" then Fold(dc) == Fold(dc2) else Lower(dc) == Lower(dc2)
  }

  /** The count is wrong exactly when rows have the address key of the catalog alias and the controller
      is named like it, or rows have the apex's and both label and domain are nothing but dots. */
  lemma CountIsWrongIff(rows: set<Row>, zone: string, domain: string, dc: string, ip: string)
    ensures var recs := LocatorRecords(domain, dc, ip);
      Counted(rows, zone, recs) != |rows| - |Withdrawn(rows, zone, KeysOf(recs))|
      <==> || (SameHost(domain, dc, ALIAS_LABEL)
               && WithKey(rows, zone, RecKey(A, Fold(ALIAS_LABEL + "." + domain), Fold(ip))) != {})
           || (TrimDots(domain) == TrimDots(dc) == "" && WithKey(rows, zone, RecKey(A, Fold(domain), Fold(ip))) != {})
  {
    CountIsRemovedIff(rows, zone, LocatorRecords(domain, dc, ip));
    DoubledLocators(rows, zone, domain, dc, ip);
  }

  /** A label cut from a service name at its first dot is counted right. */
  lemma CutLabelIsCountedRight(rows: set<Row>, zone: string, domain: string, dc: string, ip: string)
    requires dc != "" && '.' !in dc
    ensures var recs := LocatorRecords(domain, dc, ip);
      Counted(rows, zone, recs) == |rows| - |Withdrawn(rows, zone, KeysOf(recs))|
  {
    CountIsWrongIff(rows, zone, domain, dc, ip);
    assert TrimDots(dc) == dc && TrimDots(ALIAS_LABEL) == ALIAS_LABEL;
    assert Lower(ALIAS_LABEL)[2] == '.';
    assert |dc| > 2 ==> dc[2] in dc;
  }

  /** A controller named like the catalog alias: one row goes, two are counted. */
  lemma AliasIsCountedTwice(row: Row)
    requires row == Row(0, "z", ARecord("gc._msdcs.z", "192.0.2.1"))
    ensures var recs := LocatorRecords("z", ALIAS_LABEL, "192.0.2.1");
      Withdrawn({row}, "z", KeysOf(recs)) == {} && Counted({row}, "z", recs) >= 2
  {
    var recs := LocatorRecords("z", ALIAS_LABEL, "192.0.2.1");
    assert ALIAS_LABEL + "." + "z" == "gc._msdcs.z";
    AddressKey("gc._msdcs.z", "192.0.2.1");
    assert row in WithKey({row}, "z", KeyOf(row.rr));
    HostAndApex("z", ALIAS_LABEL, "192.0.2.1");
    assert KeyOf(row.rr) in KeysOf(recs);
    CountIsRemovedIff({row}, "z", recs);
    CountIsWrongIff({row}, "z", "z", ALIAS_LABEL, "192.0.2.1");
  }

  lemma DoubledLocators(rows: set<Row>, zone: string, domain: string, dc: string, ip: string)
    ensures Doubled(rows, zone, LocatorRecords(domain, dc, ip))
      <==> || (SameHost(domain, dc, ALIAS_LABEL)
               && WithKey(rows, zone, RecKey(A, Fold(ALIAS_LABEL + "." + domain), Fold(ip))) != {})
           || (TrimDots(domain) == TrimDots(dc) == "" && WithKey(rows, zone, RecKey(A, Fold(domain), Fold(ip))) != {})
  {
    var host := dc + "." + domain;
    var srvs := SrvRecords(domain, host);
    ServicesAreDistinct(rows, zone, domain, host, |srvs|);
    assert srvs[..|srvs|] == srvs;
    HostsDifferIff(domain, dc, ALIAS_LABEL);
    HostIsApexIff(domain, dc);
    HostIsApexIff(domain, ALIAS_LABEL);
    LocatorsInTurn(domain, dc, ip);
    AddressKey(host, ip);
    AddressKey(domain, ip);
    AddressKey(ALIAS_LABEL + "." + domain, ip);
    AddressIsNoService(domain, host, ARecord(host, ip));
    AddressIsNoService(domain, host, ARecord(domain, ip));
    AddressIsNoService(domain, host, ARecord(ALIAS_LABEL + "." + domain, ip));
    DoubledAddresses(rows, zone, srvs, ARecord(host, ip), ARecord(domain, ip), ARecord(ALIAS_LABEL + "." + domain, ip));
  }

  lemma AddressKey(name: string, ip: string)
    ensures KeyOf(ARecord(name, ip)) == RecKey(A, Fold(name), Fold(ip))
  {
  }

  lemma LocatorsInTurn(domain: string, dc: string, ip: string)
    ensures var host := dc + "." + domain;
      LocatorRecords(domain, dc, ip) == SrvRecords(domain, host)
        + [ARecord(host, ip)] + [ARecord(domain, ip)] + [ARecord(ALIAS_LABEL + "." + domain, ip)]
  {
    assert "gc._msdcs." == ALIAS_LABEL + ".";
  }

  lemma DoubledAddresses(rows: set<Row>, zone: string, srvs: seq<Rr>, host: Rr, apex: Rr, alias: Rr)
    requires !Doubled(rows, zone, srvs) && KeyOf(host) !in KeysOf(srvs) && KeyOf(apex) !in KeysOf(srvs)
    requires KeyOf(alias) !in KeysOf(srvs) && KeyOf(apex) != KeyOf(alias)
    ensures Doubled(rows, zone, srvs + [host] + [apex] + [alias])
      <==> || (KeyOf(host) == KeyOf(alias) && WithKey(rows, zone, KeyOf(alias)) != {})
           || (KeyOf(host) == KeyOf(apex) && WithKey(rows, zone, KeyOf(apex)) != {})
  {
    DoubledNext(rows, zone, srvs, host);
    DoubledNext(rows, zone, srvs + [host], apex);
    DoubledNext(rows, zone, srvs + [host] + [apex], alias);
  }

  lemma DoubledNext(rows: set<Row>, zone: string, recs: seq<Rr>, rr: Rr)
    ensures Doubled(rows, zone, recs + [rr])
      <==> Doubled(rows, zone, recs) || (KeyOf(rr) in KeysOf(recs) && WithKey(rows, zone, KeyOf(rr)) != {})
    ensures KeysOf(recs + [rr]) == KeysOf(recs) + {KeyOf(rr)}
  {
    assert (recs + [rr])[..|recs|] == recs;
  }

  lemma AddressIsNoService(domain: string, host: string, rr: Rr)
    requires rr.rtype == A
    ensures KeyOf(rr) !in KeysOf(SrvRecords(domain, host))
  {
    forall q <- SrvRecords(domain, host) ensures KeyOf(q) != KeyOf(rr) {
      ServiceKey(q, domain, host);
    }
  }

  lemma {:induction false} ServicesAreDistinct(rows: set<Row>, zone: string, domain: string, host: string, n: nat)
    requires n <= |SERVICES|
    ensures !Doubled(rows, zone, SrvRecords(domain, host)[..n])
  {
    if n > 0 {
      var srvs := SrvRecords(domain, host);
      ServicesAreDistinct(rows, zone, domain, host, n - 1);
      NewService(domain, host, n - 1);
      TakeNext(srvs, n - 1);
      DoubledNext(rows, zone, srvs[..n - 1], srvs[n - 1]);
    }
  }

  lemma TakeNext(recs: seq<Rr>, n: nat)
    requires n < |recs|
    ensures recs[..n + 1] == recs[..n] + [recs[n]]
  {
  }

  lemma NewService(domain: string, host: string, n: nat)
    requires n < |SERVICES|
    ensures KeyOf(SrvRecords(domain, host)[n]) !in KeysOf(SrvRecords(domain, host)[..n])
  {
    var srvs := SrvRecords(domain, host);
    forall q <- srvs[..n] ensures KeyOf(q).name != KeyOf(srvs[n]).name {
      var i :| 0 <= i < n && srvs[i] == q;
      ServiceNamesDiffer(domain, i, n);
    }
  }

  lemma ServiceNamesDiffer(domain: string, i: nat, j: nat)
    requires i < j < |SERVICES|
    ensures Fold(SERVICES[i].0 + domain) != Fold(SERVICES[j].0 + domain)
  {
    var p, q := SERVICES[i].0, SERVICES[j].0;
    Ports(i);
    Ports(j);
    ServiceFolds(p, domain);
    ServiceFolds(q, domain);
    PrefixesDiffer(i, j);
    if |p| == |q| {
      var k :| 0 <= k < |p| - 1 && LowerChar(p[k]) != LowerChar(q[k]);
      assert Fold(p + domain)[k] == LowerChar(p[k]) && Fold(q + domain)[k] == LowerChar(q[k]);
    } else {
      assert |Fold(p + domain)| != |Fold(q + domain)|;
    }
  }

  /** What a service's owner name compares as. */
  lemma ServiceFolds(p: string, domain: string)
    requires |p| >= 2 && p[|p| - 1] == '.' && p[|p| - 2] != '.'
    ensures var f, d := Fold(p + domain), TrimDots(domain);
      |f| == (if d == "" then |p| - 1 else |p| + |d|) && forall k :: 0 <= k < |p| - 1 ==> f[k] == LowerChar(p[k])
  {
    DotsOfHost(p, domain);
    assert TrimDots(p) == TrimDots(p[..|p| - 1]) == p[..|p| - 1];
  }

  lemma PrefixesDiffer(i: nat, j: nat)
    requires i < j < |SERVICES|
    ensures var p, q := SERVICES[i].0, SERVICES[j].0;
      |p| != |q| || exists k :: 0 <= k < |p| - 1 && LowerChar(p[k]) != LowerChar(q[k])
  {
    var p, q := SERVICES[i].0, SERVICES[j].0;
    if |p| == |q| {
      var k := if i == 3 then 10 else 11;
      assert LowerChar(p[k]) != LowerChar(q[k]);
    }
  }

  /** Hosts compare equal exactly when labels do: ignoring case and, in a domain of dots, trailing dots. */
  lemma HostsDifferIff(domain: string, dc: string, dc2: string)
    ensures Fold(dc + "." + domain) == Fold(dc2 + "." + domain) <==> SameHost(domain, dc, dc2)
  {
    var d := TrimDots(domain);
    HostFolds(dc, domain);
    HostFolds(dc2, domain);
    if d != "" {
      var tail := Lower("." + d);
      var a, b := Lower(dc) + tail, Lower(dc2) + tail;
      if a == b {
        assert Lower(dc) == a[..|a| - |tail|] && Lower(dc2) == b[..|b| - |tail|];
      }
    }
  }

  lemma HostIsApexIff(domain: string, dc: string)
    ensures Fold(dc + "." + domain) == Fold(domain) <==> TrimDots(domain) == TrimDots(dc) == ""
  {
    HostFolds(dc, domain);
    assert |Fold(domain)| == |TrimDots(domain)| && |Fold(dc)| == |TrimDots(dc)|;
  }

  lemma HostFolds(dc: string, domain: string)
    ensures var d := TrimDots(domain);
      Fold(dc + "." + domain) == if d == "" then Fold(dc) else Lower(dc) + Lower("." + d)
  {
    DotsOfHost(dc + ".", domain);
    if TrimDots(domain) == "" {
      DotGoes(dc);
    } else {
      LowerJoined(dc, TrimDots(domain));
    }
  }

  lemma DotGoes(s: string)
    ensures TrimDots(s + ".") == TrimDots(s)
  {
    assert (s + ".")[..|s|] == s;
  }

  lemma LowerJoined(dc: string, d: string)
    ensures Lower(dc + "." + d) == Lower(dc) + Lower("." + d)
  {
    assert dc + "." + d == dc + ("." + d);
  }

  lemma {:induction false} DotsOfHost(prefix: string, domain: string)
    ensures TrimDots(prefix + domain) == if TrimDots(domain) == "" then TrimDots(prefix) else prefix + TrimDots(domain)
  {
    if domain == "" {
      assert prefix + domain == prefix;
    } else if domain[|domain| - 1] == '.' {
      DotsOfHost(prefix, domain[..|domain| - 1]);
      assert (prefix + domain)[..|prefix + domain| - 1] == prefix + domain[..|domain| - 1];
    }
  }

  // ---- Plain controllers -------------------------------------------------------------------

  ghost predicate PlainLabel(dc: string) { dc != "" ==> !IsSpace(dc[0]) }

  /** A controller's records are plain exactly when its domain has no outer white space and its label
      does not start with any. */
  lemma LocatorsArePlainIff(domain: string, dc: string, ip: string)
    ensures Plain(LocatorRecords(domain, dc, ip)) <==> Trim(domain) == domain && PlainLabel(dc)
  {
    TrimIff(domain);
    HostAndApex(domain, dc, ip);
    KeptWhenUntrimmed(ARecord(dc + "." + domain, ip));
    KeptWhenUntrimmed(ARecord(domain, ip));
    if Untrimmed(domain) && PlainLabel(dc) {
      forall rr <- LocatorRecords(domain, dc, ip) ensures !rr.rtype.Cname? && Kept(rr) {
        LocatorIsKept(rr, domain, dc, ip);
      }
    }
  }

  lemma HostAndApex(domain: string, dc: string, ip: string)
    ensures ARecord(dc + "." + domain, ip) in LocatorRecords(domain, dc, ip)
    ensures ARecord(domain, ip) in LocatorRecords(domain, dc, ip)
  {
    var addresses := AddressRecords(domain, dc + "." + domain, ip);
    assert addresses[0] in addresses && addresses[1] in addresses;
  }

  /** In such a domain every record's name is kept, but the host's if the label starts with white space. */
  lemma LocatorIsKept(rr: Rr, domain: string, dc: string, ip: string)
    requires Untrimmed(domain) && rr in LocatorRecords(domain, dc, ip)
    requires PlainLabel(dc) || rr != ARecord(dc + "." + domain, ip)
    ensures !rr.rtype.Cname? && Kept(rr)
  {
    var prefix := LocatorName(rr, domain, dc, ip);
    KeptWhenUntrimmed(rr);
    assert prefix != "" ==> rr.name[0] == prefix[0];
  }

  lemma KeptWhenUntrimmed(rr: Rr)
    ensures Kept(rr) <==> Untrimmed(rr.name)
  {
    KeptIff(rr);
    TrimIff(rr.name);
  }

  /** Every owner name is the domain's, or the domain's after a service label, the alias or the host's. */
  lemma LocatorName(rr: Rr, domain: string, dc: string, ip: string) returns (prefix: string)
    requires rr in LocatorRecords(domain, dc, ip)
    ensures rr.name == prefix + domain && !rr.rtype.Cname?
    ensures prefix == "" || (prefix[|prefix| - 1] == '.' && (prefix[0] in ['_', 'g'] || prefix == dc + "."))
    ensures prefix != "" && prefix[0] !in ['_', 'g'] ==> rr == ARecord(dc + "." + domain, ip)
  {
    var host := dc + "." + domain;
    if rr in SrvRecords(domain, host) {
      var i :| 0 <= i < |SERVICES| && rr == SrvRecords(domain, host)[i];
      Ports(i);
      prefix := SERVICES[i].0;
    } else if rr == ARecord(domain, ip) {
      prefix := "";
      assert "" + domain == domain;
    } else if rr == ARecord("gc._msdcs." + domain, ip) {
      prefix := "gc._msdcs.";
    } else {
      prefix := dc + ".";
    }
  }

  ghost predicate Untrimmed(s: string) { s != "" ==> !IsSpace(s[0]) && !IsSpace(s[|s| - 1]) }

  lemma TrimIff(s: string)
    ensures Trim(s) == s <==> Untrimmed(s)
  {
    TrimEndEnds(TrimStart(s));
    TrimStartShorter(s);
    TrimmedStarts(s);
  }

  // ---- The domain's zone -------------------------------------------------------------------

  /** What a name looks like once it is stored: lower case, no leading white space, no trailing dot. */
  ghost predicate AsStored(s: string) {
    Lower(s) == s && (s != "" ==> !IsSpace(s[0]) && s[|s| - 1] != '.')
  }

  lemma NormalizedIsStored(name: string)
    ensures AsStored(Normalize(name))
  {
    TrimmedStarts(name);
    TrimDotsEnds(Trim(name));
    LowerTwice(TrimDots(Trim(name)));
  }

  ghost predicate ZonesStored(zones: seq<Zone>) { forall z <- zones :: AsStored(z.name) }

  ghost predicate RowsStored(rows: set<Row>) { forall r <- rows :: AsStored(r.rr.name) }

  lemma FoundIff(zones: seq<Zone>, domain: string)
    requires ZonesStored(zones)
    ensures ZoneOf(zones, domain).Some? <==> ZoneNamed(zones, Fold(domain))
  {
    forall z <- zones ensures Fold(z.name) == z.name { }
  }

  /** A seeding finds or creates its zone unless the domain has outer white space, is not found as it is
      written, and its trimmed name is taken. */
  lemma ZoneIsRefusedIff(st: Store, domain: string, id: string)
    requires ZonesStored(st.zones)
    ensures Opened(st, domain, id).1.Refused?
      <==> Trim(domain) != domain && ZoneNamed(st.zones, Normalize(domain)) && !ZoneNamed(st.zones, Fold(domain))
  {
    FoundIff(st.zones, domain);
    FoldKeptIff(domain);
    NormalizedIsStored(domain);
  }

  /** A zone that was created for a domain is found again exactly when nothing was trimmed from the name;
      otherwise it is in the way. */
  lemma CreatedZoneIsFoundIff(st: Store, domain: string, id: string, id2: string)
    requires ZonesStored(st.zones) && ZoneOf(st.zones, domain).None? && !ZoneNamed(st.zones, Normalize(domain))
    ensures var t := ZoneCreated(st, domain, id);
      Opened(t, domain, id2) == (t, if Trim(domain) == domain then Ok(id) else Refused)
      && ZoneOf(t.zones, domain) == if Trim(domain) == domain then Some(id) else None
  {
    var new_, t := Zone(id, Normalize(domain), 1), ZoneCreated(st, domain, id);
    FoldKeptIff(domain);
    assert new_ in t.zones;
    assert ZoneNamed(t.zones, Normalize(domain));
  }

  lemma {:induction false} SeededKeeps(st: Store, zone: string, existing: set<RecKey>, recs: seq<Rr>)
    requires RowsStored(st.rows) && NoAliases(recs)
    ensures var t := Seeded(st, zone, existing, recs).0;
      t.zones == st.zones && RowsStored(t.rows)
      && forall rr: Rr :: !rr.rtype.Cname? ==>
           (Conflict(t.rows, zone, rr.name, rr.rtype, None) <==> Conflict(st.rows, zone, rr.name, rr.rtype, None))
    decreases |recs|
  {
    if recs != [] {
      var rr, rest := recs[0], recs[1..];
      if KeyOf(rr) in existing {
        SeededKeeps(st, zone, existing, rest);
      } else if !Conflict(st.rows, zone, rr.name, rr.rtype, None) {
        NormalizedIsStored(rr.name);
        SeededKeeps(Created(st, zone, rr), zone, existing, rest);
        forall other: Rr | !other.rtype.Cname?
          ensures Conflict(Created(st, zone, rr).rows, zone, other.name, other.rtype, None)
              <==> Conflict(st.rows, zone, other.name, other.rtype, None)
        {
          CreateBlocksNothing(st, zone, rr, other);
        }
      }
    }
  }

  /** What is kept among the records is found afterwards. */
  lemma {:induction false} SeededFindsKept(st: Store, zone: string, existing: set<RecKey>, recs: seq<Rr>, rr: Rr)
    requires existing <= Keys(st.rows, zone) && Seeded(st, zone, existing, recs).1 && rr in recs && Kept(rr)
    ensures KeyOf(rr) in Keys(Seeded(st, zone, existing, recs).0.rows, zone)
    decreases |recs|
  {
    var first, rest := recs[0], recs[1..];
    var t := if KeyOf(first) in existing then st else Created(st, zone, first);
    KeysGrow(st.rows, t.rows, zone);
    SeededGrows(t, zone, existing, rest);
    KeysGrow(t.rows, Seeded(t, zone, existing, rest).0.rows, zone);
    if rr == first {
      if KeyOf(rr) !in existing { CreateAddsKey(st, zone, rr); }
    } else {
      SeededFindsKept(t, zone, existing, rest, rr);
    }
  }

  lemma KeysGrow(rows: set<Row>, more: set<Row>, zone: string)
    requires rows <= more
    ensures Keys(rows, zone) <= Keys(more, zone)
  {
  }

  lemma {:induction false} SeededGrows(st: Store, zone: string, existing: set<RecKey>, recs: seq<Rr>)
    ensures st.rows <= Seeded(st, zone, existing, recs).0.rows
    decreases |recs|
  {
    if recs != [] {
      if KeyOf(recs[0]) in existing {
        SeededGrows(st, zone, existing, recs[1..]);
      } else if !Conflict(st.rows, zone, recs[0].name, recs[0].rtype, None) {
        SeededGrows(Created(st, zone, recs[0]), zone, existing, recs[1..]);
      }
    }
  }

  /** A name that starts with white space is never found. */
  lemma LeadingSpaceIsNotFound(rows: set<Row>, zone: string, rr: Rr)
    requires RowsStored(rows) && rr.name != "" && IsSpace(rr.name[0])
    ensures KeyOf(rr) !in Keys(rows, zone)
  {
    KeepsFirst(rr.name);
    assert Fold(rr.name)[0] == rr.name[0];
    forall r <- rows ensures Fold(r.rr.name) != Fold(rr.name) {
      assert Fold(r.rr.name) == r.rr.name;
    }
  }

  lemma {:induction false} OnlyOneMissing(st: Store, zone: string, existing: set<RecKey>, pre: seq<Rr>, rr: Rr,
                                          post: seq<Rr>)
    requires KeysOf(pre) <= existing && KeysOf(post) <= existing && KeyOf(rr) !in existing
    requires !Conflict(st.rows, zone, rr.name, rr.rtype, None)
    ensures Seeded(st, zone, existing, pre + [rr] + post) == (Created(st, zone, rr), true)
  {
    var recs := pre + [rr] + post;
    if pre == [] {
      assert recs[1..] == post;
      NothingMissing(Created(st, zone, rr), zone, existing, post);
    } else {
      assert pre[0] in pre && KeyOf(pre[0]) in KeysOf(pre);
      assert recs[1..] == pre[1..] + [rr] + post;
      OnlyOneMissing(st, zone, existing, pre[1..], rr, post);
    }
  }

  lemma {:induction false} SeededCounts(st: Store, zone: string, existing: set<RecKey>, recs: seq<Rr>)
    ensures var t := Seeded(st, zone, existing, recs).0;
      st.nextId <= t.nextId && (Seeded(st, zone, existing, recs) == (st, true) <==> KeysOf(recs) <= existing)
    decreases |recs|
  {
    if recs != [] {
      var rr, rest := recs[0], recs[1..];
      assert recs == [rr] + rest;
      assert KeysOf(recs) == {KeyOf(rr)} + KeysOf(rest);
      if KeyOf(rr) in existing {
        SeededCounts(st, zone, existing, rest);
      } else if !Conflict(st.rows, zone, rr.name, rr.rtype, None) {
        SeededCounts(Created(st, zone, rr), zone, existing, rest);
      }
    }
  }

  /** Whatever the records, a seeding that succeeded succeeds again in its zone, and changes nothing exactly
      when every record's key is found by then. */
  lemma SeedSucceedsAgain(st: Store, zone: string, recs: seq<Rr>)
    requires RowsStored(st.rows) && NoAliases(recs) && Seed(st, zone, recs).1
    ensures var t := Seed(st, zone, recs).0;
      Seed(t, zone, recs).1 && (Seed(t, zone, recs).0 == t <==> KeysOf(recs) <= Keys(t.rows, zone))
  {
    var existing, t := Keys(st.rows, zone), Seed(st, zone, recs).0;
    SeededKeeps(st, zone, existing, recs);
    SeededGrows(st, zone, existing, recs);
    KeysGrow(st.rows, t.rows, zone);
    SeededUnlessBlocked(st, zone, existing, recs);
    SeededUnlessBlocked(t, zone, Keys(t.rows, zone), recs);
    SeededCounts(t, zone, Keys(t.rows, zone), recs);
  }

  /** One more host record in the zone. */
  function OneMoreHost(st: Store, zone: string, domain: string, dc: string, ip: string): Store {
    var row := Row(st.nextId, zone, ARecord(Normalize(dc + "." + domain), ip));
    st.(rows := st.rows + {row}, nextId := st.nextId + 1)
  }

  /** Under a domain without outer white space a controller that was seeded is seeded again without a
      change, unless its label starts with white space: then one more host record is created. */
  lemma SeedAgain(st: Store, zone: string, domain: string, dc: string, ip: string)
    requires RowsStored(st.rows) && Trim(domain) == domain && Seed(st, zone, LocatorRecords(domain, dc, ip)).1
    ensures var recs := LocatorRecords(domain, dc, ip);
      var t := Seed(st, zone, recs).0;
      Seed(t, zone, recs) == (if PlainLabel(dc) then t else OneMoreHost(t, zone, domain, dc, ip), true)
  {
    var recs := LocatorRecords(domain, dc, ip);
    if PlainLabel(dc) {
      LocatorsArePlainIff(domain, dc, ip);
      SeedIsIdempotent(st, zone, recs);
    } else {
      HostIsSeededAgain(st, zone, domain, dc, ip);
    }
  }

  lemma HostIsSeededAgain(st: Store, zone: string, domain: string, dc: string, ip: string)
    requires RowsStored(st.rows) && Trim(domain) == domain && !PlainLabel(dc)
    requires Seed(st, zone, LocatorRecords(domain, dc, ip)).1
    ensures var recs, host := LocatorRecords(domain, dc, ip), ARecord(dc + "." + domain, ip);
      var t := Seed(st, zone, recs).0;
      Seed(t, zone, recs) == (Created(t, zone, host), true) && !Conflict(t.rows, zone, host.name, host.rtype, None)
  {
    var recs, host := LocatorRecords(domain, dc, ip), ARecord(dc + "." + domain, ip);
    var existing, t := Keys(st.rows, zone), Seed(st, zone, recs).0;
    LocatorsAreNoAliases(domain, dc, ip);
    SeededKeeps(st, zone, existing, recs);
    LeadingSpaceIsNotFound(st.rows, zone, host);
    LeadingSpaceIsNotFound(t.rows, zone, host);
    SeededUnlessBlocked(st, zone, existing, recs);
    HostAndApex(domain, dc, ip);
    var pre, post := SrvRecords(domain, host.name), [ARecord(domain, ip), ARecord("gc._msdcs." + domain, ip)];
    assert recs == pre + [host] + post;
    forall rr | rr in pre || rr in post ensures KeyOf(rr) in Keys(t.rows, zone) {
      assert rr in recs && rr != host by { OthersAreNotTheHost(rr, domain, dc, ip); }
      TrimIff(domain);
      LocatorIsKept(rr, domain, dc, ip);
      SeededFindsKept(st, zone, existing, recs, rr);
    }
    OnlyOneMissing(t, zone, Keys(t.rows, zone), pre, host, post);
  }

  lemma OthersAreNotTheHost(rr: Rr, domain: string, dc: string, ip: string)
    requires !PlainLabel(dc) && Trim(domain) == domain
    requires rr in SrvRecords(domain, dc + "." + domain)
          || rr in [ARecord(domain, ip), ARecord("gc._msdcs." + domain, ip)]
    ensures rr != ARecord(dc + "." + domain, ip)
  {
    TrimIff(domain);
    assert (dc + "." + domain)[0] == dc[0];
  }

  lemma LocatorsAreNoAliases(domain: string, dc: string, ip: string)
    ensures NoAliases(LocatorRecords(domain, dc, ip))
  {
    forall rr <- LocatorRecords(domain, dc, ip) ensures !rr.rtype.Cname? {
      var _ := LocatorName(rr, domain, dc, ip);
    }
  }

  ghost predicate FirstSeeded(st: Store, id: string, domain: string, dc: string, ip: string) {
    ZonesStored(st.zones) && RowsStored(st.rows) && SeedDomain(st, id, domain, dc, ip).1
  }

  /** The zone a second seeding is given. */
  lemma OpenedAgain(st: Store, id: string, id2: string, domain: string, dc: string, ip: string)
    requires FirstSeeded(st, id, domain, dc, ip)
    ensures var t := SeedDomain(st, id, domain, dc, ip).0;
      if ZoneOf(st.zones, domain).Some? || Trim(domain) == domain then
        Opened(t, domain, id2) == (t, Opened(st, domain, id).1) && Opened(st, domain, id).1.Ok?
      else Opened(t, domain, id2) == (t, Refused) && ZoneOf(t.zones, domain).None?
  {
    var u, zone := Opened(st, domain, id).0, Opened(st, domain, id).1;
    SeededKeepsZones(u, zone.value, Keys(u.rows, zone.value), LocatorRecords(domain, dc, ip));
    if ZoneOf(st.zones, domain).None? { CreatedZoneIsFoundIff(st, domain, id, id2); }
  }

  lemma SeedsInZone(st: Store, id: string, domain: string, dc: string, ip: string)
    requires Opened(st, domain, id).1.Ok?
    ensures SeedDomain(st, id, domain, dc, ip)
         == Seed(Opened(st, domain, id).0, Opened(st, domain, id).1.value, LocatorRecords(domain, dc, ip))
  {
  }

  /** What a second seeding and a withdrawal meet after a seeding that succeeded. The second is refused
      exactly when the domain has outer white space and its zone was created by the first; then a withdrawal
      finds nothing. Otherwise it works in the zone of the first. There it changes nothing exactly when every
      record is found; without outer white space that leaves one host record for a label that starts with
      some. */
  lemma SecondSeeding(st: Store, id: string, id2: string, domain: string, dc: string, ip: string)
    requires FirstSeeded(st, id, domain, dc, ip)
    ensures var t, recs := SeedDomain(st, id, domain, dc, ip).0, LocatorRecords(domain, dc, ip);
      var (u, ok) := SeedDomain(t, id2, domain, dc, ip);
      && (ok <==> Trim(domain) == domain || ZoneOf(st.zones, domain).Some?)
      && (!ok ==> u == t && WithdrawDomain(t, domain, dc, ip) == (t.rows, 0))
      && (ok ==> Opened(st, domain, id).1.Ok?
                 && (u == t <==> KeysOf(recs) <= Keys(t.rows, Opened(st, domain, id).1.value)))
      && (Trim(domain) == domain ==>
            ok && u == if PlainLabel(dc) then t else OneMoreHost(t, Opened(st, domain, id).1.value, domain, dc, ip))
  {
    OpenedAgain(st, id, id2, domain, dc, ip);
    if Trim(domain) == domain || ZoneOf(st.zones, domain).Some? {
      SecondInZone(st, id, id2, domain, dc, ip);
    }
  }

  lemma SecondInZone(st: Store, id: string, id2: string, domain: string, dc: string, ip: string)
    requires FirstSeeded(st, id, domain, dc, ip) && (Trim(domain) == domain || ZoneOf(st.zones, domain).Some?)
    ensures var t, recs := SeedDomain(st, id, domain, dc, ip).0, LocatorRecords(domain, dc, ip);
      var (u, ok) := SeedDomain(t, id2, domain, dc, ip);
      && ok && Opened(st, domain, id).1.Ok?
      && (u == t <==> KeysOf(recs) <= Keys(t.rows, Opened(st, domain, id).1.value))
      && (Trim(domain) == domain ==>
            u == if PlainLabel(dc) then t else OneMoreHost(t, Opened(st, domain, id).1.value, domain, dc, ip))
  {
    OpenedAgain(st, id, id2, domain, dc, ip);
    var t, u, zone := SeedDomain(st, id, domain, dc, ip).0, Opened(st, domain, id).0, Opened(st, domain, id).1.value;
    SeedsInZone(st, id, domain, dc, ip);
    SeedsInZone(t, id2, domain, dc, ip);
    LocatorsAreNoAliases(domain, dc, ip);
    SeedSucceedsAgain(u, zone, LocatorRecords(domain, dc, ip));
    if Trim(domain) == domain { SeedAgain(u, zone, domain, dc, ip); }
  }

  /** Withdrawing a plain controller that was seeded restores the rows exactly when none of its keys was
      in the zone before, and so whenever the zone is new. */
  lemma SeedThenWithdraw(st: Store, id: string, domain: string, dc: string, ip: string)
    requires ZonesStored(st.zones) && Trim(domain) == domain && PlainLabel(dc)
    ensures var (t, zone) := Opened(st, domain, id);
      zone.Ok?
      && (WithdrawDomain(SeedDomain(st, id, domain, dc, ip).0, domain, dc, ip).0 == st.rows
          <==> Keys(st.rows, zone.value) !! KeysOf(LocatorRecords(domain, dc, ip)))
  {
    var recs := LocatorRecords(domain, dc, ip);
    var (u, zone) := Opened(st, domain, id);
    ZoneIsRefusedIff(st, domain, id);
    LocatorsArePlainIff(domain, dc, ip);
    if ZoneOf(st.zones, domain).None? { CreatedZoneIsFoundIff(st, domain, id, id); }
    SeededKeepsZones(u, zone.value, Keys(u.rows, zone.value), recs);
    WithdrawRestoresIff(u, zone.value, recs);
  }

  lemma {:induction false} SeededKeepsZones(st: Store, zone: string, existing: set<RecKey>, recs: seq<Rr>)
    ensures Seeded(st, zone, existing, recs).0.zones == st.zones
    decreases |recs|
  {
    if recs != [] {
      if KeyOf(recs[0]) in existing {
        SeededKeepsZones(st, zone, existing, recs[1..]);
      } else if !Conflict(st.rows, zone, recs[0].name, recs[0].rtype, None) {
        SeededKeepsZones(Created(st, zone, recs[0]), zone, existing, recs[1..]);
      }
    }
  }

  const EMPTY := Store([], {}, 0, [])

  /** In an empty store every controller is seeded. */
  lemma EmptyIsSeeded(domain: string, dc: string, ip: string)
    ensures FirstSeeded(EMPTY, "1", domain, dc, ip) && SeedDomain(EMPTY, "1", domain, dc, ip).0.rows != {}
    ensures Opened(EMPTY, domain, "1").1 == Ok("1") && ZoneOf(EMPTY.zones, domain).None?
  {
    var u, recs := ZoneCreated(EMPTY, domain, "1"), LocatorRecords(domain, dc, ip);
    LocatorsAreNoAliases(domain, dc, ip);
    SeededUnlessBlocked(u, "1", Keys(u.rows, "1"), recs);
    assert Keys(u.rows, "1") == {};
    SeedsInZone(EMPTY, "1", domain, dc, ip);
    SeededGrows(Created(u, "1", recs[0]), "1", {}, recs[1..]);
    assert Row(0, "1", Stored(recs[0])) in Created(u, "1", recs[0]).rows;
  }

  /** A domain that starts with white space: seeded once, then refused, and never withdrawn. */
  lemma SpacedDomainIsLost(dc: string, ip: string)
    ensures var (t, ok) := SeedDomain(EMPTY, "1", " z", dc, ip);
      ok && t.rows != {} && SeedDomain(t, "2", " z", dc, ip) == (t, false)
      && WithdrawDomain(t, " z", dc, ip) == (t.rows, 0)
  {
    EmptyIsSeeded(" z", dc, ip);
    TrimIff(" z");
    SecondSeeding(EMPTY, "1", "2", " z", dc, ip);
  }

  /** Beside the ordinary zone it is refused at once. */
  lemma SpacedDomainIsRefused(st: Store, dc: string, ip: string)
    requires st.zones == [Zone("1", "z", 1)]
    ensures SeedDomain(st, "2", " z", dc, ip) == (st, false) && WithdrawDomain(st, " z", dc, ip) == (st.rows, 0)
  {
    assert Lower("z") == "z" && Lower(" z") == " z";
    assert Trim(" z") == "z" by { assert " z"[1..] == "z"; }
    assert st.zones[0] in st.zones;
  }

  /** A label that starts with white space: each seeding leaves one more host record. */
  lemma SpacedLabelPilesUp(ip: string)
    ensures var (t, ok) := SeedDomain(EMPTY, "1", "z", " a", ip);
      ok && SeedDomain(t, "2", "z", " a", ip) == (OneMoreHost(t, "1", "z", " a", ip), true)
  {
    EmptyIsSeeded("z", " a", ip);
    TrimIff("z");
    SecondSeeding(EMPTY, "1", "2", "z", " a", ip);
  }
}
