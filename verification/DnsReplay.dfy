/** Incremental zone transfer: replaying the journal since a serial on a copy of the zone at that
    serial gives exactly the zone as it is now. */
module DnsReplay {
  import opened Ordering
  import opened DnsNames
  import opened DnsZone
  import opened DnsProperties

  ghost function Recs(rows: set<Row>, zone: string): set<Rr> {
    set r | r in rows && r.zone == zone :: r.rr
  }

  predicate SameKey(a: Rr, b: Rr) {
    a.name == b.name && a.rtype == b.rtype && a.data == b.data
  }

  /** No two rows of the zone agree on name, type and data. */
  ghost predicate NoDuplicates(rows: set<Row>, zone: string) {
    forall r, q {:trigger SameKey(r.rr, q.rr)} ::
      r in rows && q in rows && r.zone == zone && q.zone == zone && SameKey(r.rr, q.rr) ==> r == q
  }

  /** `a` may join the records `rs`: neither a CNAME clash nor a duplicate. */
  ghost predicate Fits(rs: set<Rr>, a: Rr) {
    forall r {:trigger SameKey(r, a)} :: r in rs ==>
      !SameKey(r, a) && (r.name == a.name ==> !r.rtype.Cname? && !a.rtype.Cname?)
  }

  ghost function Elems(s: seq<Rr>): set<Rr> {
    set x | x in s
  }

  // ---- A secondary applies one delta -------------------------------------------------------

  lemma MatchIsExact(st: Store, zone: string, existing: seq<Row>, rem: Rr)
    requires Good(st) && NoDuplicates(st.rows, zone) && Lists(existing, InZone(st.rows, zone))
    requires rem in Recs(st.rows, zone)
    ensures FirstMatch(existing, rem).Some?
    ensures var m := FirstMatch(existing, rem).value; m in st.rows && m.zone == zone && m.rr == rem
  {
    var row :| row in st.rows && row.zone == zone && row.rr == rem;
    NormalizeCanonical(rem.name);
    assert row in InZone(st.rows, zone) && Matches(row, rem);
    var m := FirstMatch(existing, rem).value;
    assert m in InZone(st.rows, zone);
    NormalizeCanonical(m.rr.name);
    assert SameKey(m.rr, row.rr);
  }

  lemma {:induction false} DroppedIsExact(st: Store, zone: string, existing: seq<Row>, removed: seq<Rr>)
    requires Good(st) && NoDuplicates(st.rows, zone) && Lists(existing, InZone(st.rows, zone))
    requires Elems(removed) <= Recs(st.rows, zone)
    ensures var t := Dropped(st, existing, removed);
      t.rows <= st.rows && t.nextId == st.nextId
      && forall r <- st.rows :: r.zone == zone ==> (r in t.rows <==> r.rr !in removed)
  {
    if removed != [] {
      var init, last := removed[..|removed| - 1], removed[|removed| - 1];
      assert removed == init + [last];
      assert forall x <- init :: x in removed;
      assert last in Elems(removed);
      DroppedIsExact(st, zone, existing, init);
      MatchIsExact(st, zone, existing, last);
      var m, t := FirstMatch(existing, last).value, Dropped(st, existing, removed);
      forall r <- st.rows | r.zone == zone ensures r in t.rows <==> r.rr !in removed {
        if r.rr == last { assert SameKey(r.rr, m.rr); }
      }
    }
  }

  lemma DroppedRecs(st: Store, zone: string, existing: seq<Row>, removed: seq<Rr>)
    requires Good(st) && NoDuplicates(st.rows, zone) && Lists(existing, InZone(st.rows, zone))
    requires Elems(removed) <= Recs(st.rows, zone)
    ensures var d := Dropped(st, existing, removed);
      Good(d) && NoDuplicates(d.rows, zone) && Recs(d.rows, zone) == Recs(st.rows, zone) - Elems(removed)
  {
    DroppedIsExact(st, zone, existing, removed);
    DroppedKeepsGood(st, existing, removed);
  }

  ghost function Settle(added: seq<Rr>): set<Rr> {
    set a | a in added :: Stored(a)
  }

  /** Each record fits beside what is there and the ones added before it, under an ordinary name. */
  ghost predicate FitInTurn(rs: set<Rr>, added: seq<Rr>) {
    added == [] ||
    var init, last := added[..|added| - 1], added[|added| - 1];
    FitInTurn(rs, init) && !SpaceBeforeDots(last.name) && Fits(rs + Settle(init), Stored(last))
  }

  /** A good store without duplicates, all records accepted. */
  ghost predicate AddsUp(d: Store, zone: string, added: seq<Rr>) {
    var t := CreatedAll(d, zone, added);
    AllAccepted(d, zone, added) && Good(t) && NoDuplicates(t.rows, zone)
  }

  lemma {:induction false} AddedIsExactIff(d: Store, zone: string, added: seq<Rr>)
    requires Good(d) && NoDuplicates(d.rows, zone)
    ensures AddsUp(d, zone, added) <==> FitInTurn(Recs(d.rows, zone), added)
    ensures AddsUp(d, zone, added) ==>
      Recs(CreatedAll(d, zone, added).rows, zone) == Recs(d.rows, zone) + Settle(added)
  {
    if added == [] {
      assert Settle(added) == {};
    } else {
      var init, last := added[..|added| - 1], added[|added| - 1];
      var mid := CreatedAll(d, zone, init);
      AddedIsExactIff(d, zone, init);
      SettleLast(added);
      if AddsUp(d, zone, added) {
        CreatesKeepGoodIff(d, zone, init);
        if !Good(mid) { BadStaysBad(mid, zone, last); }
        assert mid.rows <= Created(mid, zone, last).rows;
        AcceptedFits(mid, zone, last);
        AcceptedExactly(mid, zone, last);
      } else if FitInTurn(Recs(d.rows, zone), added) {
        AcceptedExactly(mid, zone, last);
        CreateKeepsGoodIff(mid, zone, last);
      }
    }
  }

  lemma SettleLast(added: seq<Rr>)
    requires added != []
    ensures Settle(added) == Settle(added[..|added| - 1]) + {Stored(added[|added| - 1])}
  {
    SplitLast(added);
  }

  lemma AcceptedFits(st: Store, zone: string, a: Rr)
    requires Good(st) && !Conflict(st.rows, zone, a.name, a.rtype, None)
    requires Good(Created(st, zone, a)) && NoDuplicates(Created(st, zone, a).rows, zone)
    ensures !SpaceBeforeDots(a.name) && Fits(Recs(st.rows, zone), Stored(a))
  {
    CreateKeepsGoodIff(st, zone, a);
    var new_, t := Row(st.nextId, zone, Stored(a)), Created(st, zone, a);
    assert t.rows == st.rows + {new_};
    NewRowFits(st, t, zone, new_);
    forall x <- Recs(st.rows, zone)
      ensures !SameKey(x, Stored(a)) && (x.name == Stored(a).name ==> !x.rtype.Cname? && !a.rtype.Cname?)
    {
      var r :| r in st.rows && r.zone == zone && r.rr == x;
      assert SameKey(r.rr, new_.rr) ==> r == new_;
    }
  }

  /** A delta whose removed records are there gives exactly the new records, good, without duplicates and
      with nothing refused, precisely when the added ones fit in turn. */
  lemma DeltaIsExactIff(st: Store, zone: string, existing: seq<Row>, removed: seq<Rr>, added: seq<Rr>)
    requires Good(st) && NoDuplicates(st.rows, zone) && Lists(existing, InZone(st.rows, zone))
    requires Elems(removed) <= Recs(st.rows, zone)
    ensures AddsUp(Dropped(st, existing, removed), zone, added)
      <==> FitInTurn(Recs(st.rows, zone) - Elems(removed), added)
    ensures AddsUp(Dropped(st, existing, removed), zone, added) ==>
      Recs(DeltaApplied(st, zone, existing, removed, added).rows, zone)
      == Recs(st.rows, zone) - Elems(removed) + Settle(added)
  {
    DroppedRecs(st, zone, existing, removed);
    AddedIsExactIff(Dropped(st, existing, removed), zone, added);
  }

  lemma OneFits(rs: set<Rr>, added: seq<Rr>)
    requires |added| <= 1 && forall a <- added :: !SpaceBeforeDots(a.name) && Fits(rs, Stored(a))
    ensures FitInTurn(rs, added)
  {
    if added != [] {
      assert added[0] in added && added[..0] == [] && Settle([]) == {} && rs + {} == rs;
    }
  }

  lemma AcceptedExactly(st: Store, zone: string, a: Rr)
    requires Good(st) && NoDuplicates(st.rows, zone) && !SpaceBeforeDots(a.name) && Fits(Recs(st.rows, zone), Stored(a))
    ensures !Conflict(st.rows, zone, a.name, a.rtype, None)
    ensures var t := Created(st, zone, a);
      Recs(t.rows, zone) == Recs(st.rows, zone) + {Stored(a)} && NoDuplicates(t.rows, zone)
  {
    forall r <- st.rows | r.zone == zone
      ensures !SameKey(r.rr, Stored(a))
      ensures Normalize(r.rr.name) == Normalize(a.name) ==> !r.rr.rtype.Cname? && !a.rtype.Cname?
    {
      NormalizeCanonical(r.rr.name);
      assert r.rr in Recs(st.rows, zone);
    }
    var new_, t := Row(st.nextId, zone, Stored(a)), Created(st, zone, a);
    assert t.rows == st.rows + {new_};
    assert Recs(t.rows, zone) == Recs(st.rows, zone) + {Stored(a)} by {
      assert new_ in t.rows;
    }
  }

  // ---- The primary's journaled edits -------------------------------------------------------

  /** An edit and, for a repoint, the order in which the replaced rows were read. */
  datatype Edit =
    | Repoint(apex: string, fqdn: string, ip: Address, ttl: nat, listed: seq<Row>)
    | Add(zone: string, rr: Rr)
    | Change(id: nat, zone: string, rr: Rr)
    | Drop(id: nat)

  /** The stored row with this id. */
  ghost function RowWith(st: Store, id: nat): (row: Option<Row>)
    ensures row.Some? ==> row.value in st.rows && row.value.id == id
    ensures row.None? ==> forall r <- st.rows :: r.id != id
  {
    if exists r <- st.rows :: r.id == id then var r :| r in st.rows && r.id == id; Some(r) else None
  }

  function ZoneIndex(zones: seq<Zone>, id: string): (i: Option<nat>)
    ensures i.Some? ==> i.value < |zones| && zones[i.value].id == id
    ensures i.None? ==> forall z <- zones :: z.id != id
  {
    if zones == [] then None
    else if zones[0].id == id then Some(0)
    else match ZoneIndex(zones[1..], id) case Some(k) => Some(k + 1) case None => None
  }

  /** Bump the zone's serial and journal the delta, as every record edit does after it succeeded;
      a zone that does not exist is left alone. */
  function Logged(st: Store, zone: string, added: seq<Rr>, removed: seq<Rr>): Store {
    match ZoneIndex(st.zones, zone)
    case None => st
    case Some(z) =>
      var zones := Bumped(st.zones, z);
      st.(zones := zones, journal := st.journal + [Entry(zone, zones[z].serial, added, removed)])
  }

  /** The zone named exists and the record's name is within it. */
  predicate Accepts(zones: seq<Zone>, zone: string, rr: Rr) {
    match ZoneIndex(zones, zone) case Some(z) => Within(zones[z].name, rr.name) case None => false
  }

  /** What an edit does to the store. A change looks the old record up by id, but checks, guards, bumps
      and journals the zone the caller names; that check and that guard can refuse it. */
  ghost function Edited(st: Store, e: Edit): Store {
    match e
    case Repoint(apex, fqdn, ip, ttl, listed) => Repointed(st, apex, fqdn, ip, ttl, listed).0
    case Add(zone, rr) =>
      if !Accepts(st.zones, zone, rr) || Conflict(st.rows, zone, rr.name, rr.rtype, None) then st
      else Logged(Created(st, zone, rr), zone, [rr], [])
    case Change(id, zone, rr) =>
      if !Accepts(st.zones, zone, rr) || Conflict(st.rows, zone, rr.name, rr.rtype, Some(id)) then st
      else Logged(Updated(st, id, zone, rr), zone, [rr], OldRecord(st, id))
    case Drop(id) =>
      match RowWith(st, id)
      case None => st
      case Some(row) => Logged(Deleted(st, id), row.zone, [], [row.rr])
  }

  ghost function OldRecord(st: Store, id: nat): seq<Rr> {
    match RowWith(st, id) case None => [] case Some(row) => [row.rr]
  }

  /** A repoint reads the rows it replaces, in some order. */
  ghost predicate ReadRight(st: Store, e: Edit) {
    e.Repoint? && FindZone(st.zones, e.apex).Some? ==>
      Lists(e.listed, Replaced(st.rows, st.zones[FindZone(st.zones, e.apex).value].id, Normalize(e.fqdn), Family(e.ip)))
  }

  /** No row of the zone, but the one excepted, has this name, type and data. */
  ghost predicate NewKey(rows: set<Row>, zone: string, rr: Rr, except: Option<Row>) {
    forall r <- rows :: r.zone == zone && Some(r) != except ==> !SameKey(r.rr, rr)
  }

  /** What an edit must meet for its journal entry to be true, if it is not refused: an ordinary name,
      no duplicate, and for a change a known row of the zone named. (A change that changes nothing is
      also true in another zone that holds the same record.) */
  ghost predicate Faithful(st: Store, e: Edit) {
    match e
    case Repoint(apex, fqdn, ip, ttl, _) =>
      FindZone(st.zones, apex).Some? && SpaceBeforeDots(fqdn) ==>
        var zone, owner := st.zones[FindZone(st.zones, apex).value].id, Normalize(fqdn);
        CnameAt(st.rows, zone, Normalize(owner))
        || (!SpaceBeforeDots(owner) && NewKey(st.rows, zone, Stored(Rr(owner, Family(ip), ip.text, ttl, true)), None))
    case Add(zone, rr) =>
      Accepts(st.zones, zone, rr) && !Conflict(st.rows, zone, rr.name, rr.rtype, None) ==>
        !SpaceBeforeDots(rr.name) && NewKey(st.rows, zone, Stored(rr), None)
    case Change(id, zone, rr) =>
      Accepts(st.zones, zone, rr) && !Conflict(st.rows, zone, rr.name, rr.rtype, Some(id)) ==>
        RowWith(st, id).Some? && !SpaceBeforeDots(rr.name) && ChangesTruly(st, RowWith(st, id).value, zone, rr)
    case Drop(id) => RowWith(st, id).Some? ==> ZoneIndex(st.zones, RowWith(st, id).value.zone).Some?
  }

  ghost predicate ChangesTruly(st: Store, row: Row, zone: string, rr: Rr) {
    if zone == row.zone then NewKey(st.rows, zone, Stored(rr), Some(row))
    else Stored(rr) == row.rr && row.rr in Recs(st.rows, zone)
  }

  ghost predicate Sane(st: Store, zone: string) {
    Good(st) && NoDuplicates(st.rows, zone)
    && forall i, j :: 0 <= i < j < |st.zones| ==> st.zones[i].id != st.zones[j].id
  }

  function Serial(st: Store, zone: string): nat {
    match ZoneIndex(st.zones, zone) case Some(z) => st.zones[z].serial case None => 0
  }

  /** The delta `e` is true of the zone: it removes records that are there and adds at most one
      that fits beside the rest. */
  ghost predicate TrueDelta(was: set<Rr>, added: seq<Rr>, removed: seq<Rr>, now: set<Rr>) {
    && Elems(removed) <= was && |added| <= 1
    && (forall a <- added :: !SpaceBeforeDots(a.name) && Fits(was - Elems(removed), Stored(a)))
    && now == was - Elems(removed) + Settle(added)
  }

  /** An edit either leaves the zone and its journal alone, or appends the one true delta under
      the next serial. */
  ghost predicate Journaled(st: Store, t: Store, zone: string) {
    || (t.journal == st.journal && Recs(t.rows, zone) == Recs(st.rows, zone) && Serial(t, zone) == Serial(st, zone))
    || (|t.journal| == |st.journal| + 1 && st.journal <= t.journal
        && var e := t.journal[|st.journal|];
           if e.zone == zone then
             e.serial == NextSerial(Serial(st, zone)) == Serial(t, zone)
             && TrueDelta(Recs(st.rows, zone), e.added, e.removed, Recs(t.rows, zone))
           else Recs(t.rows, zone) == Recs(st.rows, zone) && Serial(t, zone) == Serial(st, zone))
  }

  lemma RecsDelta(rows: set<Row>, zone: string, gone: set<Row>, new_: set<Row>)
    requires NoDuplicates(rows, zone) && gone <= InZone(rows, zone) && (forall r <- new_ :: r.zone == zone)
    ensures Recs(rows - gone + new_, zone) == Recs(rows, zone) - Recs(gone, zone) + Recs(new_, zone)
  {
    var out := rows - gone + new_;
    forall x ensures x in Recs(out, zone) <==> x in Recs(rows, zone) - Recs(gone, zone) + Recs(new_, zone) {
      if x in Recs(rows, zone) - Recs(gone, zone) {
        var r :| r in rows && r.zone == zone && r.rr == x;
        assert r !in gone;
        assert r in out;
      }
      if x in Recs(new_, zone) {
        var r :| r in new_ && r.zone == zone && r.rr == x;
        assert r in out;
      }
      if x in Recs(out, zone) {
        var r :| r in out && r.zone == zone && r.rr == x;
        if r !in new_ && x in Recs(gone, zone) {
          var g :| g in gone && g.rr == x;
          assert SameKey(r.rr, g.rr);
        }
      }
    }
  }

  lemma RecsElsewhere(rows: set<Row>, zone: string, gone: set<Row>, new_: set<Row>)
    requires (forall r <- gone :: r.zone != zone) && (forall r <- new_ :: r.zone != zone)
    ensures Recs(rows - gone + new_, zone) == Recs(rows, zone)
    ensures NoDuplicates(rows, zone) ==> NoDuplicates(rows - gone + new_, zone)
  {
    var out := rows - gone + new_;
    forall x ensures x in Recs(out, zone) <==> x in Recs(rows, zone) {
      if x in Recs(rows, zone) {
        var r :| r in rows && r.zone == zone && r.rr == x;
        assert r in out;
      }
    }
  }

  lemma {:induction false} IndexIsUnique(zones: seq<Zone>, z: nat)
    requires z < |zones| && forall i, j :: 0 <= i < j < |zones| ==> zones[i].id != zones[j].id
    ensures ZoneIndex(zones, zones[z].id) == Some(z)
  {
    if z > 0 {
      assert zones[0].id != zones[z].id;
      IndexIsUnique(zones[1..], z - 1);
    }
  }

  lemma BumpedSerials(st: Store, t: Store, z: nat, zone: string)
    requires z < |st.zones| && t.zones == Bumped(st.zones, z)
    requires forall i, j :: 0 <= i < j < |st.zones| ==> st.zones[i].id != st.zones[j].id
    ensures forall i, j :: 0 <= i < j < |t.zones| ==> t.zones[i].id != t.zones[j].id
    ensures Serial(t, zone) == if st.zones[z].id == zone then NextSerial(Serial(st, zone)) else Serial(st, zone)
    ensures t.zones[z].serial == NextSerial(st.zones[z].serial) && t.zones[z].id == st.zones[z].id
    ensures Serial(st, st.zones[z].id) == st.zones[z].serial
  {
    IndexIsUnique(st.zones, z);
    IndexIsUnique(t.zones, z);
    var k := ZoneIndex(st.zones, zone);
    if k.Some? {
      IndexIsUnique(t.zones, k.value);
    } else {
      forall m | 0 <= m < |t.zones| ensures t.zones[m].id != zone { assert st.zones[m] in st.zones; }
    }
  }

  /** The common shape of all edits: rows `gone` are replaced by `new_` in one zone, and that delta
      is logged under the bumped serial. */
  lemma LoggedDelta(
    st: Store, t: Store, z: nat, gone: set<Row>, new_: set<Row>, added: seq<Rr>, removed: seq<Rr>, zone: string)
    requires Sane(st, zone) && Good(t) && z < |st.zones|
    requires gone <= InZone(st.rows, st.zones[z].id) && (forall r <- new_ :: r.zone == st.zones[z].id)
    requires t.rows == st.rows - gone + new_ && t.zones == Bumped(st.zones, z)
    requires t.journal == st.journal + [Entry(st.zones[z].id, t.zones[z].serial, added, removed)]
    requires Elems(removed) == Recs(gone, st.zones[z].id) && Settle(added) == Recs(new_, st.zones[z].id) && |added| <= 1
    requires zone == st.zones[z].id ==> NoDuplicates(t.rows, zone)
    requires zone == st.zones[z].id ==>
      forall a <- added :: !SpaceBeforeDots(a.name) && Fits(Recs(st.rows, zone) - Elems(removed), Stored(a))
    ensures Journaled(st, t, zone) && Sane(t, zone)
  {
    BumpedSerials(st, t, z, zone);
    if zone == st.zones[z].id {
      RecsDelta(st.rows, zone, gone, new_);
      GoneIsThere(st.rows, zone, gone);
      assert t.journal[|st.journal|] == Entry(zone, t.zones[z].serial, added, removed);
    } else {
      RecsElsewhere(st.rows, zone, gone, new_);
      assert t.journal[|st.journal|].zone != zone;
    }
  }

  lemma GoneIsThere(rows: set<Row>, zone: string, gone: set<Row>)
    requires gone <= InZone(rows, zone)
    ensures Recs(gone, zone) <= Recs(rows, zone)
  {
    forall x <- Recs(gone, zone) ensures x in Recs(rows, zone) {
      var g :| g in gone && g.rr == x;
      assert g in InZone(rows, zone);
    }
  }

  /** A record fits beside the rows that stay if none of them has its key or clashes with it. */
  lemma FitsRest(rows: set<Row>, zone: string, gone: set<Row>, a: Rr)
    requires NoDuplicates(rows, zone) && gone <= InZone(rows, zone)
    requires forall r <- rows :: r.zone == zone && r !in gone ==>
      !SameKey(r.rr, a) && (r.rr.name == a.name ==> !r.rr.rtype.Cname? && !a.rtype.Cname?)
    ensures Fits(Recs(rows, zone) - Recs(gone, zone), a)
    ensures forall n: nat :: NoDuplicates(rows - gone + {Row(n, zone, a)}, zone)
  {
    forall x <- Recs(rows, zone) - Recs(gone, zone)
      ensures !SameKey(x, a) && (x.name == a.name ==> !x.rtype.Cname? && !a.rtype.Cname?)
    {
      var r :| r in rows && r.zone == zone && r.rr == x;
      assert r !in gone;
    }
    forall n: nat ensures NoDuplicates(rows - gone + {Row(n, zone, a)}, zone) {
      var out := rows - gone + {Row(n, zone, a)};
      assert forall r <- rows - gone :: r.zone == zone ==> !SameKey(r.rr, a) && !SameKey(a, r.rr);
      forall r, q | r in out && q in out && r.zone == zone && q.zone == zone && SameKey(r.rr, q.rr) ensures r == q {
      }
    }
  }

  // ---- Every faithful edit journals a true delta -------------------------------------------

  ghost predicate Keeps(st: Store, t: Store, zone: string) { Journaled(st, t, zone) && Sane(t, zone) }

  /** A new row in one zone, logged as added. */
  lemma NewRowIsLogged(st: Store, t: Store, z: nat, rr: Rr, logged: Rr, zone: string)
    requires Sane(st, zone) && z < |st.zones| && Good(t)
    requires Stored(logged) == Stored(rr) && !SpaceBeforeDots(logged.name)
    requires var at := st.zones[z].id;
      t.rows == st.rows + {Row(st.nextId, at, Stored(rr))} && t.zones == Bumped(st.zones, z)
      && t.journal == st.journal + [Entry(at, t.zones[z].serial, [logged], [])]
      && NewKey(st.rows, at, Stored(rr), None)
    ensures Keeps(st, t, zone)
  {
    var at, new_ := st.zones[z].id, Row(st.nextId, st.zones[z].id, Stored(rr));
    assert t.rows == st.rows - {} + {new_};
    assert Recs({new_}, at) == {Stored(rr)} && Settle([logged]) == {Stored(rr)};
    assert Elems([]) == Recs({}, at) == {};
    if zone == at {
      NewRowFits(st, t, zone, new_);
      FitsRest(st.rows, zone, {}, Stored(rr));
    }
    LoggedDelta(st, t, z, {}, {new_}, [logged], [], zone);
  }

  lemma NewRowFits(st: Store, t: Store, zone: string, new_: Row)
    requires Good(st) && Good(t) && t.rows == st.rows + {new_} && new_.id == st.nextId && new_.zone == zone
    ensures forall r <- st.rows :: r.zone == zone && r.rr.name == new_.rr.name ==>
      !r.rr.rtype.Cname? && !new_.rr.rtype.Cname?
  {
    forall r <- st.rows | r.zone == zone && r.rr.name == new_.rr.name
      ensures !r.rr.rtype.Cname? && !new_.rr.rtype.Cname?
    {
      assert r in t.rows && new_ in t.rows && r != new_;
      assert SameName(r, new_) && SameName(new_, r);
    }
  }

  lemma AddIsJournaled(st: Store, target: string, rr: Rr, zone: string)
    requires Sane(st, zone) && Faithful(st, Add(target, rr))
    ensures Keeps(st, Edited(st, Add(target, rr)), zone)
  {
    if Accepts(st.zones, target, rr) && !Conflict(st.rows, target, rr.name, rr.rtype, None) {
      CreateKeepsGoodIff(st, target, rr);
      NewRowIsLogged(st, Edited(st, Add(target, rr)), ZoneIndex(st.zones, target).value, rr, rr, zone);
    }
  }

  lemma DropIsJournaled(st: Store, id: nat, zone: string)
    requires Sane(st, zone) && Faithful(st, Drop(id))
    ensures Keeps(st, Edited(st, Drop(id)), zone)
  {
    if RowWith(st, id).Some? {
      var t, row := Edited(st, Drop(id)), RowWith(st, id).value;
      var z := ZoneIndex(st.zones, row.zone).value;
      DeleteKeepsGood(st, row.id);
      assert t.rows == st.rows - {row} + {};
      assert Recs({}, row.zone) == Settle([]) == {};
      assert Recs({row}, row.zone) == Elems([row.rr]) == {row.rr};
      LoggedDelta(st, t, z, {row}, {}, [], [row.rr], zone);
    }
  }

  lemma ChangeIsJournaled(st: Store, id: nat, target: string, rr: Rr, zone: string)
    requires Sane(st, zone) && Faithful(st, Change(id, target, rr))
    ensures Keeps(st, Edited(st, Change(id, target, rr)), zone)
  {
    if Accepts(st.zones, target, rr) && !Conflict(st.rows, target, rr.name, rr.rtype, Some(id)) {
      var row, z := RowWith(st, id).value, ZoneIndex(st.zones, target).value;
      if target == row.zone {
        OwnChangeIsJournaled(st, row, z, rr, zone);
      } else {
        IdleChangeIsJournaled(st, row, z, rr, zone);
      }
    }
  }

  ghost function Changed(st: Store, row: Row, target: string, rr: Rr): Store {
    Logged(Updated(st, row.id, target, rr), target, [rr], [row.rr])
  }

  lemma OwnChangeIsJournaled(st: Store, row: Row, z: nat, rr: Rr, zone: string)
    requires Sane(st, zone) && row in st.rows && ZoneIndex(st.zones, row.zone) == Some(z) && !SpaceBeforeDots(rr.name)
    requires !Conflict(st.rows, row.zone, rr.name, rr.rtype, Some(row.id))
    requires NewKey(st.rows, row.zone, Stored(rr), Some(row))
    ensures Keeps(st, Changed(st, row, row.zone, rr), zone)
  {
    var t, new_ := Changed(st, row, row.zone, rr), row.(rr := Stored(rr));
    UpdateKeepsGoodIff(st, row, row.zone, rr);
    UpdatedRows(st, row, row.zone, rr);
    assert t.rows == st.rows - {row} + {new_};
    ReplacementOfOneIsLogged(st, t, row, z, rr, zone);
  }

  lemma ReplacementOfOneIsLogged(st: Store, t: Store, row: Row, z: nat, rr: Rr, zone: string)
    requires Sane(st, zone) && Good(t) && row in st.rows && z < |st.zones| && row.zone == st.zones[z].id
    requires !SpaceBeforeDots(rr.name) && NewKey(st.rows, row.zone, Stored(rr), Some(row))
    requires t.rows == st.rows - {row} + {row.(rr := Stored(rr))} && t.zones == Bumped(st.zones, z)
    requires t.journal == st.journal + [Entry(row.zone, t.zones[z].serial, [rr], [row.rr])]
    ensures Keeps(st, t, zone)
  {
    var new_ := row.(rr := Stored(rr));
    assert Recs({new_}, row.zone) == Settle([rr]) == {Stored(rr)};
    assert Recs({row}, row.zone) == Elems([row.rr]) == {row.rr};
    if zone == row.zone {
      ChangedRowFits(st, t, row, new_);
      FitsRest(st.rows, zone, {row}, Stored(rr));
      assert new_ == Row(row.id, zone, Stored(rr));
    }
    LoggedDelta(st, t, z, {row}, {new_}, [rr], [row.rr], zone);
  }

  lemma ChangedRowFits(st: Store, t: Store, row: Row, new_: Row)
    requires Good(st) && Good(t) && row in st.rows && t.rows == st.rows - {row} + {new_} && new_.id == row.id
    requires new_.zone == row.zone
    ensures forall r <- st.rows :: r.zone == row.zone && r != row && r.rr.name == new_.rr.name ==>
      !r.rr.rtype.Cname? && !new_.rr.rtype.Cname?
  {
    forall r <- st.rows | r.zone == row.zone && r != row && r.rr.name == new_.rr.name
      ensures !r.rr.rtype.Cname? && !new_.rr.rtype.Cname?
    {
      assert r in t.rows && new_ in t.rows && r.id != row.id;
      assert SameName(r, new_) && SameName(new_, r);
    }
  }

  /** Writing a record as it is, in the name of a zone that holds the same record. */
  lemma IdleChangeIsJournaled(st: Store, row: Row, z: nat, rr: Rr, zone: string)
    requires Sane(st, zone) && row in st.rows && z < |st.zones| && st.zones[z].id != row.zone
    requires ZoneIndex(st.zones, st.zones[z].id) == Some(z) && !SpaceBeforeDots(rr.name)
    requires !Conflict(st.rows, st.zones[z].id, rr.name, rr.rtype, Some(row.id))
    requires Stored(rr) == row.rr && row.rr in Recs(st.rows, st.zones[z].id)
    ensures Keeps(st, Changed(st, row, st.zones[z].id, rr), zone)
  {
    var target := st.zones[z].id;
    var q := RowHolding(st.rows, target, row.rr);
    IdleUpdate(st, row, target, rr);
    assert Changed(st, row, target, rr) == Logged(st, target, [rr], [q.rr]);
    SameIsLogged(st, Logged(st, target, [rr], [q.rr]), z, q, rr, zone);
  }

  lemma RowHolding(rows: set<Row>, zone: string, x: Rr) returns (q: Row)
    requires x in Recs(rows, zone)
    ensures q in rows && q.zone == zone && q.rr == x
  {
    q :| q in rows && q.zone == zone && q.rr == x;
  }

  lemma SameIsLogged(st: Store, t: Store, z: nat, q: Row, rr: Rr, zone: string)
    requires Sane(st, zone) && z < |st.zones| && q in st.rows && q.zone == st.zones[z].id && Stored(rr) == q.rr
    requires !SpaceBeforeDots(rr.name) && t.rows == st.rows && t.nextId == st.nextId && t.zones == Bumped(st.zones, z)
    requires t.journal == st.journal + [Entry(q.zone, t.zones[z].serial, [rr], [q.rr])]
    ensures Keeps(st, t, zone)
  {
    assert t.rows == st.rows - {q} + {q};
    assert Recs({q}, q.zone) == Settle([rr]) == Elems([q.rr]) == {q.rr};
    if zone == q.zone { SameRecordFits(st, q); }
    LoggedDelta(st, t, z, {q}, {q}, [rr], [q.rr], zone);
  }

  lemma IdleUpdate(st: Store, row: Row, target: string, rr: Rr)
    requires Identified(st) && row in st.rows && Stored(rr) == row.rr
    requires !Conflict(st.rows, target, rr.name, rr.rtype, Some(row.id))
    ensures Updated(st, row.id, target, rr) == st
  {
    UpdatedRows(st, row, target, rr);
    assert row.(rr := Stored(rr)) == row;
    assert Updated(st, row.id, target, rr).rows == st.rows;
  }

  lemma SameRecordFits(st: Store, q: Row)
    requires Good(st) && NoDuplicates(st.rows, q.zone) && q in st.rows
    ensures Fits(Recs(st.rows, q.zone) - {q.rr}, q.rr)
  {
    forall x <- Recs(st.rows, q.zone) - {q.rr}
      ensures !SameKey(x, q.rr) && (x.name == q.rr.name ==> !x.rtype.Cname? && !q.rr.rtype.Cname?)
    {
      var r :| r in st.rows && r.zone == q.zone && r.rr == x;
      assert SameName(r, q) <==> SameName(q, r);
      assert SameKey(r.rr, q.rr) ==> r == q;
      if x.name == q.rr.name { assert SameName(r, q) && SameName(q, r); }
    }
  }

  lemma RepointIsJournaled(st: Store, e: Edit, zone: string)
    requires Sane(st, zone) && e.Repoint? && ReadRight(st, e) && Faithful(st, e)
    ensures Keeps(st, Edited(st, e), zone)
  {
    var found := FindZone(st.zones, e.apex);
    if found.Some? {
      var z := found.value;
      var rr := Rr(Normalize(e.fqdn), Family(e.ip), e.ip.text, e.ttl, true);
      if AlreadyThere(Replaced(st.rows, st.zones[z].id, rr.name, rr.rtype), e.ip.text, e.ttl) {
      } else if SpaceBeforeDots(e.fqdn) {
        SpacedShrinks(e.fqdn);
        ConflictIsCname(st, st.zones[z].id, rr.name, rr.rtype);
        SpacedRepointIsJournaled(st, z, rr, e.listed, zone);
      } else {
        NormalizeIdempotentIff(e.fqdn);
        PlainRepointIsJournaled(st, z, rr, e.listed, zone);
      }
    }
  }

  lemma PlainRepointIsJournaled(st: Store, z: nat, rr: Rr, listed: seq<Row>, zone: string)
    requires Sane(st, zone) && z < |st.zones| && Canonical(rr.name) && Normalize(rr.name) == rr.name && !rr.rtype.Cname?
    requires Lists(listed, Replaced(st.rows, st.zones[z].id, rr.name, rr.rtype))
    ensures Keeps(st, AddressReplaced(st, z, rr, listed).0, zone)
  {
    ReplacementIsSafe(st, z, rr, listed);
    if AddressReplaced(st, z, rr, listed).1.Ok? { ReplacementIsLogged(st, z, rr, listed, zone); }
  }

  lemma SpacedRepointIsJournaled(st: Store, z: nat, rr: Rr, listed: seq<Row>, zone: string)
    requires Sane(st, zone) && z < |st.zones| && Shrinks(rr.name) && !rr.rtype.Cname?
    requires AddressReplaced(st, z, rr, listed).1.Ok? ==>
      !SpaceBeforeDots(rr.name) && NewKey(st.rows, st.zones[z].id, Stored(rr), None)
    requires Lists(listed, Replaced(st.rows, st.zones[z].id, rr.name, rr.rtype))
    ensures Keeps(st, AddressReplaced(st, z, rr, listed).0, zone)
  {
    assert listed != [] ==> listed[0] in Replaced(st.rows, st.zones[z].id, rr.name, rr.rtype);
    SpacedReplacementAdds(st, z, rr, listed);
    if AddressReplaced(st, z, rr, listed).1.Ok? {
      NormalizeIdempotentIff(rr.name);
      SettledName(Normalize(rr.name));
      NewRowIsLogged(st, AddressReplaced(st, z, rr, listed).0, z, rr, Stored(rr), zone);
    }
  }

  lemma ReplacementIsLogged(st: Store, z: nat, rr: Rr, listed: seq<Row>, zone: string)
    requires Sane(st, zone) && z < |st.zones| && Canonical(rr.name) && Normalize(rr.name) == rr.name && !rr.rtype.Cname?
    requires Lists(listed, Replaced(st.rows, st.zones[z].id, rr.name, rr.rtype))
    requires AddressReplaced(st, z, rr, listed).1.Ok?
    ensures Keeps(st, AddressReplaced(st, z, rr, listed).0, zone)
  {
    var t, at := AddressReplaced(st, z, rr, listed).0, st.zones[z].id;
    var gone, new_ := Replaced(st.rows, at, rr.name, rr.rtype), Row(st.nextId, at, rr);
    ReplacementIsSafe(st, z, rr, listed);
    assert Remaining(st.rows, gone) == st.rows - gone;
    assert t.rows == st.rows - gone + {new_};
    ListedRecs(listed, gone, at);
    assert Recs({new_}, at) == Settle([rr]) == {rr};
    SettledName(rr.name);
    if zone == at {
      forall r <- st.rows | r.zone == zone && r !in gone
        ensures !SameKey(r.rr, rr) && (r.rr.name == rr.name ==> !r.rr.rtype.Cname? && !rr.rtype.Cname?)
      {
        NormalizeCanonical(r.rr.name);
        assert r in Remaining(st.rows, gone);
      }
      FitsRest(st.rows, zone, gone, rr);
    }
    LoggedDelta(st, t, z, gone, {new_}, [rr], Rrs(listed), zone);
  }

  lemma ListedRecs(listed: seq<Row>, gone: set<Row>, zone: string)
    requires Lists(listed, gone) && forall g <- gone :: g.zone == zone
    ensures Elems(Rrs(listed)) == Recs(gone, zone)
  {
    forall x <- Elems(Rrs(listed)) ensures x in Recs(gone, zone) {
      var i :| 0 <= i < |listed| && Rrs(listed)[i] == x;
      assert listed[i] in listed;
    }
    forall x <- Recs(gone, zone) ensures x in Elems(Rrs(listed)) {
      var g :| g in gone && g.rr == x;
      var i :| 0 <= i < |listed| && listed[i] == g;
      assert Rrs(listed)[i] == x;
    }
  }

  lemma EditIsJournaled(st: Store, e: Edit, zone: string)
    requires Sane(st, zone) && ReadRight(st, e) && Faithful(st, e)
    ensures Keeps(st, Edited(st, e), zone)
  {
    match e
    case Repoint(_, _, _, _, _) => RepointIsJournaled(st, e, zone);
    case Add(target, rr) => AddIsJournaled(st, target, rr, zone);
    case Change(id, target, rr) => ChangeIsJournaled(st, id, target, rr, zone);
    case Drop(id) => DropIsJournaled(st, id, zone);
  }

  /** An entry for the zone that is not a true delta is not what the zone needs. */
  lemma FalseEntry(st: Store, t: Store, zone: string, e: Entry)
    requires t.journal == st.journal + [e] && e.zone == zone
    requires !TrueDelta(Recs(st.rows, zone), e.added, e.removed, Recs(t.rows, zone))
    ensures !Journaled(st, t, zone)
  {
    assert |t.journal| == |st.journal| + 1 && t.journal[|st.journal|] == e;
  }

  /** A record of the zone that comes or goes without an entry is not what the zone needs. */
  lemma MissingEntry(st: Store, t: Store, zone: string)
    requires Recs(t.rows, zone) != Recs(st.rows, zone)
    requires t.journal == st.journal || exists e: Entry :: e.zone != zone && t.journal == st.journal + [e]
    ensures !Journaled(st, t, zone)
  {
    if t.journal != st.journal {
      var e: Entry :| e.zone != zone && t.journal == st.journal + [e];
      assert t.journal[|st.journal|] == e;
    }
  }

  lemma NotNewIsFalse(rows: set<Row>, zone: string, rr: Rr, except: Option<Row>,
                      removed: seq<Rr>, added: Rr, now: set<Rr>)
    requires !NewKey(rows, zone, rr, except) && Stored(added) == rr
    requires forall r <- rows :: r.zone == zone && Some(r) != except ==> r.rr !in removed
    ensures !TrueDelta(Recs(rows, zone), [added], removed, now)
  {
    var r :| r in rows && r.zone == zone && Some(r) != except && SameKey(r.rr, rr);
    assert r.rr in Recs(rows, zone) - Elems(removed);
    assert added in [added];
    var was := Recs(rows, zone);
    assert TrueDelta(was, [added], removed, now) ==> Fits(was - Elems(removed), Stored(added));
  }

  lemma SpacedIsFalse(was: set<Rr>, added: Rr, removed: seq<Rr>, now: set<Rr>)
    requires SpaceBeforeDots(added.name)
    ensures !TrueDelta(was, [added], removed, now)
  {
    assert added in [added];
  }

  lemma FalseAdd(st: Store, target: string, rr: Rr)
    requires !Faithful(st, Add(target, rr))
    ensures !Journaled(st, Edited(st, Add(target, rr)), target)
  {
    var t, was := Edited(st, Add(target, rr)), Recs(st.rows, target);
    var e := t.journal[|st.journal|];
    if SpaceBeforeDots(rr.name) {
      SpacedIsFalse(was, rr, [], Recs(t.rows, target));
    } else {
      NotNewIsFalse(st.rows, target, Stored(rr), None, [], rr, Recs(t.rows, target));
    }
    FalseEntry(st, t, target, e);
  }

  lemma FalseDrop(st: Store, id: nat)
    requires !Faithful(st, Drop(id)) && Identified(st)
    requires NoDuplicates(st.rows, RowWith(st, id).value.zone)
    ensures !Journaled(st, Edited(st, Drop(id)), RowWith(st, id).value.zone)
  {
    var t, row := Edited(st, Drop(id)), RowWith(st, id).value;
    LostRecord(st.rows, t.rows, row);
    MissingEntry(st, t, row.zone);
  }

  /** In a zone without duplicates a record that loses its row is gone. */
  lemma LostRecord(was: set<Row>, now: set<Row>, row: Row)
    requires row in was && NoDuplicates(was, row.zone)
    requires forall r <- now :: r.zone == row.zone && r.rr == row.rr ==> r in was && r != row
    ensures Recs(now, row.zone) != Recs(was, row.zone)
  {
    assert row.rr in Recs(was, row.zone);
    forall r <- now | r.zone == row.zone ensures r.rr != row.rr {
      assert SameKey(r.rr, row.rr) || r.rr != row.rr;
    }
  }

  lemma FalseChange(st: Store, id: nat, target: string, rr: Rr) returns (zone: string)
    requires !Faithful(st, Change(id, target, rr)) && Identified(st) && forall z :: NoDuplicates(st.rows, z)
    ensures !Journaled(st, Edited(st, Change(id, target, rr)), zone)
  {
    var t := Edited(st, Change(id, target, rr));
    var was, e := Recs(st.rows, target), t.journal[|st.journal|];
    zone := target;
    if RowWith(st, id).None? {
      PhantomAdd(st, id, target, rr);
    } else if SpaceBeforeDots(rr.name) {
      SpacedIsFalse(was, rr, e.removed, Recs(t.rows, target));
      FalseEntry(st, t, target, e);
    } else if target == RowWith(st, id).value.zone {
      assert NoDuplicates(st.rows, target);
      DuplicatingChange(st, RowWith(st, id).value, rr);
    } else {
      zone := FalseElsewhere(st, RowWith(st, id).value, target, rr);
    }
  }

  lemma DuplicatingChange(st: Store, row: Row, rr: Rr)
    requires row in st.rows && NoDuplicates(st.rows, row.zone) && ZoneIndex(st.zones, row.zone).Some?
    requires !Conflict(st.rows, row.zone, rr.name, rr.rtype, Some(row.id))
    requires !NewKey(st.rows, row.zone, Stored(rr), Some(row))
    ensures !Journaled(st, Changed(st, row, row.zone, rr), row.zone)
  {
    var t := Changed(st, row, row.zone, rr);
    forall r <- st.rows | r.zone == row.zone && Some(r) != Some(row) ensures r.rr !in [row.rr] {
      assert SameKey(r.rr, row.rr) ==> r == row;
    }
    NotNewIsFalse(st.rows, row.zone, Stored(rr), Some(row), [row.rr], rr, Recs(t.rows, row.zone));
    FalseEntry(st, t, row.zone, t.journal[|st.journal|]);
  }

  /** A change of a row that does not exist journals a record that is not there. */
  lemma PhantomAdd(st: Store, id: nat, target: string, rr: Rr)
    requires RowWith(st, id).None? && Accepts(st.zones, target, rr)
    requires !Conflict(st.rows, target, rr.name, rr.rtype, Some(id))
    ensures !Journaled(st, Edited(st, Change(id, target, rr)), target)
  {
    var t, was := Edited(st, Change(id, target, rr)), Recs(st.rows, target);
    assert t.rows == st.rows;
    var e := t.journal[|st.journal|];
    if TrueDelta(was, [rr], [], was) {
      assert rr in [rr];
      assert Stored(rr) in Settle([rr]);
      assert SameKey(Stored(rr), Stored(rr));
    }
    FalseEntry(st, t, target, e);
  }

  /** A change in the name of another zone is missing where it happened, or false where it is logged. */
  lemma FalseElsewhere(st: Store, row: Row, target: string, rr: Rr) returns (zone: string)
    requires Identified(st) && row in st.rows && target != row.zone && forall z :: NoDuplicates(st.rows, z)
    requires ZoneIndex(st.zones, target).Some? && !Conflict(st.rows, target, rr.name, rr.rtype, Some(row.id))
    requires !ChangesTruly(st, row, target, rr)
    ensures !Journaled(st, Changed(st, row, target, rr), zone)
  {
    var t := Changed(st, row, target, rr);
    var e := t.journal[|st.journal|];
    if Stored(rr) != row.rr {
      zone := row.zone;
      UpdatedRows(st, row, target, rr);
      LostRecord(st.rows, t.rows, row);
      assert t.journal == st.journal + [e] && e.zone != zone;
      MissingEntry(st, t, zone);
    } else {
      zone := target;
      assert row.rr in Elems([row.rr]);
      FalseEntry(st, t, target, e);
    }
  }

  lemma ChangedElsewhere(st: Store, row: Row, target: string, rr: Rr) returns (zone: string)
    requires Identified(st) && row in st.rows && target != row.zone && forall z :: NoDuplicates(st.rows, z)
    requires Accepts(st.zones, target, rr) && !Conflict(st.rows, target, rr.name, rr.rtype, Some(row.id))
    requires Stored(rr).name != row.rr.name
    ensures !Journaled(st, Edited(st, Change(row.id, target, rr)), zone)
  {
    assert RowWith(st, row.id) == Some(row);
    zone := FalseElsewhere(st, row, target, rr);
  }

  /** So it is in `NESTED`, where the record editor takes a row of the upper zone for one of the lower. */
  lemma WrongZoneIsJournaledFalse(rr: Rr) returns (zone: string)
    requires rr == Rr("a.z", A, "192.0.2.1", 60, true)
    ensures !Journaled(NESTED, Edited(NESTED, Change(OTHER.id, "y", rr)), zone)
  {
    WrongZoneSlipsPast(rr);
    NestedIsGood();
    NestedNames();
    NestedHasNoDuplicates();
    assert ZoneIndex(NESTED.zones, "y") == Some(0);
    zone := ChangedElsewhere(NESTED, OTHER, "y", rr);
  }

  lemma NestedHasNoDuplicates()
    ensures forall z :: NoDuplicates(NESTED.rows, z)
  {
    assert !SameKey(UPPER.rr, OTHER.rr) && !SameKey(OTHER.rr, UPPER.rr);
  }

  lemma FalseRepoint(st: Store, e: Edit) returns (zone: string)
    requires e.Repoint? && ReadRight(st, e) && !Faithful(st, e) && Good(st)
    ensures !Journaled(st, Edited(st, e), zone)
  {
    var z := FindZone(st.zones, e.apex).value;
    zone := st.zones[z].id;
    var rr := Rr(Normalize(e.fqdn), Family(e.ip), e.ip.text, e.ttl, true);
    SpacedShrinks(e.fqdn);
    SpacedReplacementAdds(st, z, rr, e.listed);
    ConflictIsCname(st, zone, rr.name, rr.rtype);
    FalseSpacedRepoint(st, z, rr, e.listed);
  }

  lemma FalseSpacedRepoint(st: Store, z: nat, rr: Rr, listed: seq<Row>)
    requires z < |st.zones| && AddressReplaced(st, z, rr, listed).1.Ok? && Named(st.rows)
    requires Replaced(st.rows, st.zones[z].id, rr.name, rr.rtype) == {}
    requires Lists(listed, Replaced(st.rows, st.zones[z].id, rr.name, rr.rtype))
    requires SpaceBeforeDots(rr.name) || !NewKey(st.rows, st.zones[z].id, Stored(rr), None)
    ensures !Journaled(st, AddressReplaced(st, z, rr, listed).0, st.zones[z].id)
  {
    var t, zone := AddressReplaced(st, z, rr, listed).0, st.zones[z].id;
    CountListed(listed, {});
    assert Rrs(listed) == [];
    var e := t.journal[|st.journal|];
    assert e.added == [Stored(rr)] && e.removed == [];
    if SpaceBeforeDots(rr.name) {
      assert Row(st.nextId, zone, Stored(rr)) in t.rows;
      StoredIsNotLogged(st.rows, t.rows, zone, rr);
    } else {
      NormalizeIdempotentIff(rr.name);
      NotNewIsFalse(st.rows, zone, Stored(rr), None, [], Stored(rr), Recs(t.rows, zone));
    }
    FalseEntry(st, t, zone, e);
  }

  /** What is stored under a name that is still not settled is not what replaying its entry gives. */
  lemma StoredIsNotLogged(was: set<Row>, now: set<Row>, zone: string, rr: Rr)
    requires Named(was) && SpaceBeforeDots(rr.name) && Stored(rr) in Recs(now, zone)
    ensures !TrueDelta(Recs(was, zone), [Stored(rr)], [], Recs(now, zone))
  {
    NormalizeIdempotentIff(rr.name);
    CanonicalIff(rr.name);
    forall r <- was ensures r.rr != Stored(rr) { }
    assert Settle([Stored(rr)]) == {Stored(Stored(rr))};
  }

  /** An edit keeps every zone's journal true exactly when it is faithful. */
  lemma EditIsJournaledIff(st: Store, e: Edit)
    requires ReadRight(st, e) && forall zone :: Sane(st, zone)
    ensures (forall zone :: Journaled(st, Edited(st, e), zone)) <==> Faithful(st, e)
  {
    assert Sane(st, "");
    forall zone ensures NoDuplicates(st.rows, zone) { assert Sane(st, zone); }
    if Faithful(st, e) {
      forall zone ensures Journaled(st, Edited(st, e), zone) { EditIsJournaled(st, e, zone); }
    } else {
      match e
      case Repoint(_, _, _, _, _) => var zone := FalseRepoint(st, e);
      case Add(target, rr) => FalseAdd(st, target, rr);
      case Change(id, target, rr) => var zone := FalseChange(st, id, target, rr);
      case Drop(id) => FalseDrop(st, id);
    }
  }

  ghost predicate SettledZones(zones: seq<Zone>) { forall z <- zones :: !SpaceBeforeDots(z.name) }

  /** What an addition or a change must meet where zone names are settled: nothing about its name. */
  ghost predicate FaithfulEdit(st: Store, e: Edit)
    requires e.Add? || e.Change?
  {
    match e
    case Add(zone, rr) =>
      Accepts(st.zones, zone, rr) && !Conflict(st.rows, zone, rr.name, rr.rtype, None) ==>
        NewKey(st.rows, zone, Stored(rr), None)
    case Change(id, zone, rr) =>
      Accepts(st.zones, zone, rr) && !Conflict(st.rows, zone, rr.name, rr.rtype, Some(id)) ==>
        RowWith(st, id).Some? && ChangesTruly(st, RowWith(st, id).value, zone, rr)
  }

  /** In a store whose zone names are settled the record editor's journal entries are true exactly unless
      they repeat a record, or change an unknown row or one of another zone. */
  lemma SettledEditIsJournaledIff(st: Store, e: Edit)
    requires (forall zone :: Sane(st, zone)) && SettledZones(st.zones) && (e.Add? || e.Change?)
    ensures (forall zone :: Journaled(st, Edited(st, e), zone)) <==> FaithfulEdit(st, e)
  {
    EditIsJournaledIff(st, e);
    if Accepts(st.zones, e.zone, e.rr) {
      WithinSettled(st.zones[ZoneIndex(st.zones, e.zone).value].name, e.rr.name);
    }
  }

  // ---- The journal since a serial ----------------------------------------------------------

  function Newer(journal: seq<Entry>, zone: string, from: nat): seq<Entry> {
    if journal == [] then []
    else
      var e := journal[|journal| - 1];
      Newer(journal[..|journal| - 1], zone, from) + if e.zone == zone && e.serial > from then [e] else []
  }

  function InsertBySerial(sorted: seq<Entry>, e: Entry): seq<Entry> {
    if sorted == [] || sorted[|sorted| - 1].serial <= e.serial then sorted + [e]
    else InsertBySerial(sorted[..|sorted| - 1], e) + [sorted[|sorted| - 1]]
  }

  function BySerial(es: seq<Entry>): seq<Entry> {
    if es == [] then [] else InsertBySerial(BySerial(es[..|es| - 1]), es[|es| - 1])
  }

  /** `zone_journal_since`: entries newer than `from`, ordered by serial. */
  function JournalSince(journal: seq<Entry>, zone: string, from: nat): seq<Entry> {
    BySerial(Newer(journal, zone, from))
  }

  /** The chain a secondary needs: one entry per serial from the one after `from`, in order. */
  ghost predicate Chain(es: seq<Entry>, zone: string, from: nat) {
    forall i :: 0 <= i < |es| ==> es[i].zone == zone && es[i].serial == from + 1 + i
  }

  lemma {:induction false} ChainIsSorted(es: seq<Entry>, zone: string, from: nat)
    requires Chain(es, zone, from)
    ensures BySerial(es) == es
  {
    if es != [] {
      var init, e := es[..|es| - 1], es[|es| - 1];
      ChainIsSorted(init, zone, from);
      assert init != [] ==> init[|init| - 1].serial <= e.serial;
      assert InsertBySerial(init, e) == init + [e];
      SplitLast(es);
    }
  }

  lemma {:induction false} NoneNewer(journal: seq<Entry>, zone: string, from: nat)
    requires forall e <- journal :: e.zone == zone ==> e.serial <= from
    ensures Newer(journal, zone, from) == []
  {
    if journal != [] { NoneNewer(journal[..|journal| - 1], zone, from); }
  }

  // ---- Runs of edits and their replay ------------------------------------------------------

  /** A run of faithful edits on a store whose journal does not run ahead of the zone's serial,
      and during which that serial does not wrap. */
  ghost predicate IsRun(run: seq<Store>, edits: seq<Edit>, zone: string) {
    && |run| == |edits| + 1 && Sane(run[0], zone)
    && (forall e <- run[0].journal :: e.zone == zone ==> e.serial <= Serial(run[0], zone))
    && forall i {:trigger EditedAt(run, edits, zone, i)} :: 0 <= i < |edits| ==> EditedAt(run, edits, zone, i)
  }

  ghost predicate EditedAt(run: seq<Store>, edits: seq<Edit>, zone: string, i: nat)
    requires i < |edits| < |run|
  {
    ReadRight(run[i], edits[i]) && Faithful(run[i], edits[i])
    && run[i + 1] == Edited(run[i], edits[i]) && Serial(run[i], zone) < U32_MAX
  }

  ghost predicate JournalBelow(st: Store, zone: string) {
    forall e <- st.journal :: e.zone == zone ==> e.serial <= Serial(st, zone)
  }

  lemma {:induction false} RunIsSane(run: seq<Store>, edits: seq<Edit>, zone: string, i: nat)
    requires IsRun(run, edits, zone) && i < |run|
    ensures Sane(run[i], zone) && JournalBelow(run[i], zone)
  {
    if i > 0 {
      RunIsSane(run, edits, zone, i - 1);
      assert EditedAt(run, edits, zone, i - 1);
      EditIsJournaled(run[i - 1], edits[i - 1], zone);
      JournalStaysBelow(run[i - 1], run[i], zone);
    }
  }

  lemma JournalStaysBelow(s: Store, t: Store, zone: string)
    requires Journaled(s, t, zone) && JournalBelow(s, zone) && Serial(s, zone) < U32_MAX
    ensures JournalBelow(t, zone)
  {
    forall e <- t.journal | e.zone == zone ensures e.serial <= Serial(t, zone) {
      var k :| 0 <= k < |t.journal| && t.journal[k] == e;
      if k < |s.journal| { assert s.journal[k] == e; }
    }
  }

  /** The newer entries stay as the zone stays, or gain the one true delta to the next serial. */
  ghost predicate Grows(s: Store, t: Store, zone: string, was: seq<Entry>, now: seq<Entry>) {
    || (now == was && Recs(t.rows, zone) == Recs(s.rows, zone) && Serial(t, zone) == Serial(s, zone))
    || (|now| == |was| + 1 && was <= now
        && var e := now[|was|];
           e.zone == zone && e.serial == Serial(s, zone) + 1 == Serial(t, zone)
           && TrueDelta(Recs(s.rows, zone), e.added, e.removed, Recs(t.rows, zone)))
  }

  /** What one edit adds to the entries newer than `from`. */
  lemma NewerGrows(s: Store, t: Store, zone: string, from: nat)
    requires Journaled(s, t, zone) && Serial(s, zone) < U32_MAX && from <= Serial(s, zone)
    ensures Grows(s, t, zone, Newer(s.journal, zone, from), Newer(t.journal, zone, from))
  {
    if t.journal != s.journal {
      var e := t.journal[|s.journal|];
      assert t.journal[..|s.journal|] == s.journal;
      if e.zone == zone {
        assert Newer(t.journal, zone, from) == Newer(s.journal, zone, from) + [e];
      }
    }
  }

  /** One step of a run, seen from its journal. */
  lemma StepGrows(run: seq<Store>, edits: seq<Edit>, zone: string, from: nat, n: nat)
    requires IsRun(run, edits, zone) && 0 < n < |run| && from <= Serial(run[n - 1], zone)
    ensures Grows(run[n - 1], run[n], zone, Newer(run[n - 1].journal, zone, from), Newer(run[n].journal, zone, from))
  {
    RunIsSane(run, edits, zone, n - 1);
    assert EditedAt(run, edits, zone, n - 1);
    EditIsJournaled(run[n - 1], edits[n - 1], zone);
    NewerGrows(run[n - 1], run[n], zone, from);
  }

  lemma {:induction false} SerialsGrow(run: seq<Store>, edits: seq<Edit>, zone: string, k: nat, n: nat)
    requires IsRun(run, edits, zone) && k <= n < |run|
    ensures Serial(run[k], zone) <= Serial(run[n], zone)
    decreases n - k
  {
    if k < n {
      SerialsGrow(run, edits, zone, k, n - 1);
      StepGrows(run, edits, zone, Serial(run[n - 1], zone), n);
    }
  }

  lemma NothingNewer(run: seq<Store>, edits: seq<Edit>, zone: string, k: nat)
    requires IsRun(run, edits, zone) && k < |run|
    ensures Newer(run[k].journal, zone, Serial(run[k], zone)) == []
  {
    RunIsSane(run, edits, zone, k);
    NoneNewer(run[k].journal, zone, Serial(run[k], zone));
  }

  lemma ChainGrows(s: Store, t: Store, zone: string, from: nat, was: seq<Entry>, now: seq<Entry>)
    requires Grows(s, t, zone, was, now) && Chain(was, zone, from) && Serial(s, zone) == from + |was|
    ensures Chain(now, zone, from) && Serial(t, zone) == from + |now|
  {
    forall i | 0 <= i < |now| ensures now[i].zone == zone && now[i].serial == from + 1 + i {
      if i < |was| { assert now[i] == was[i]; }
    }
  }

  ghost predicate GrowsAt(run: seq<Store>, news: seq<seq<Entry>>, zone: string, i: nat)
    requires i + 1 < |run| == |news|
  {
    Grows(run[i], run[i + 1], zone, news[i], news[i + 1])
  }

  /** What a run looks like from its journal: `news[i]` is what has been logged by `run[i]`. */
  ghost predicate Growing(run: seq<Store>, news: seq<seq<Entry>>, zone: string) {
    && |run| == |news| > 0 && news[0] == []
    && forall i {:trigger GrowsAt(run, news, zone, i)} :: 0 <= i < |run| - 1 ==> GrowsAt(run, news, zone, i)
  }

  lemma RunIsGrowing(run: seq<Store>, edits: seq<Edit>, zone: string, k: nat) returns (news: seq<seq<Entry>>)
    requires IsRun(run, edits, zone) && k < |run|
    ensures Growing(run[k..], news, zone)
    ensures forall i :: 0 <= i < |news| ==> news[i] == Newer(run[k..][i].journal, zone, Serial(run[k], zone))
  {
    var from := Serial(run[k], zone);
    news := seq(|run| - k, i requires 0 <= i < |run| - k => Newer(run[k + i].journal, zone, from));
    NothingNewer(run, edits, zone, k);
    forall i | 0 <= i < |run| - k - 1 ensures GrowsAt(run[k..], news, zone, i) {
      SerialsGrow(run, edits, zone, k, k + i);
      StepGrows(run, edits, zone, from, k + i + 1);
    }
  }

  lemma {:induction false} GrowingIsChain(run: seq<Store>, news: seq<seq<Entry>>, zone: string, n: nat)
    requires Growing(run, news, zone) && n < |run|
    ensures Chain(news[n], zone, Serial(run[0], zone))
    ensures Serial(run[n], zone) == Serial(run[0], zone) + |news[n]|
  {
    if n > 0 {
      GrowingIsChain(run, news, zone, n - 1);
      assert GrowsAt(run, news, zone, n - 1);
      ChainGrows(run[n - 1], run[n], zone, Serial(run[0], zone), news[n - 1], news[n]);
    }
  }

  /** The journal bridges every gap: since any earlier serial it holds one entry per serial, up to
      the current one. */
  lemma JournalBridges(run: seq<Store>, edits: seq<Edit>, zone: string, k: nat, n: nat)
    requires IsRun(run, edits, zone) && k <= n < |run|
    ensures var from := Serial(run[k], zone);
      var es := JournalSince(run[n].journal, zone, from);
      es == Newer(run[n].journal, zone, from) && Chain(es, zone, from) && Serial(run[n], zone) == from + |es|
  {
    var news := RunIsGrowing(run, edits, zone, k);
    GrowingIsChain(run[k..], news, zone, n - k);
    ChainIsSorted(Newer(run[n].journal, zone, Serial(run[k], zone)), zone, Serial(run[k], zone));
  }

  /** `copies` is what a secondary holds after each entry, whatever order its rows were read in. */
  ghost predicate Replays(copies: seq<Store>, lists: seq<seq<Row>>, zone: string, es: seq<Entry>) {
    && |copies| == |es| + 1 && |lists| == |es|
    && forall i {:trigger ReplayedAt(copies, lists, zone, es, i)} :: 0 <= i < |es| ==>
         ReplayedAt(copies, lists, zone, es, i)
  }

  ghost predicate ReplayedAt(copies: seq<Store>, lists: seq<seq<Row>>, zone: string, es: seq<Entry>, i: nat)
    requires i < |es| <= |lists| && |es| < |copies|
  {
    Lists(lists[i], InZone(copies[i].rows, zone))
    && copies[i + 1] == DeltaApplied(copies[i], zone, lists[i], es[i].removed, es[i].added)
  }

  ghost predicate CopyOf(copy: Store, at: string, st: Store, zone: string) {
    Good(copy) && NoDuplicates(copy.rows, at) && Recs(copy.rows, at) == Recs(st.rows, zone)
  }

  ghost predicate NothingRefused(copies: seq<Store>, lists: seq<seq<Row>>, at: string, es: seq<Entry>)
    requires |copies| > |es| && |lists| >= |es|
  {
    forall i :: 0 <= i < |es| ==> AllAccepted(Dropped(copies[i], lists[i], es[i].removed), at, es[i].added)
  }

  lemma ReplayPrefix(copies: seq<Store>, lists: seq<seq<Row>>, at: string, es: seq<Entry>, before: seq<Entry>)
    requires Replays(copies, lists, at, es) && before <= es
    ensures Replays(copies[..|before| + 1], lists[..|before|], at, before)
  {
    var fewer, less := copies[..|before| + 1], lists[..|before|];
    forall i | 0 <= i < |before| ensures ReplayedAt(fewer, less, at, before, i) {
      assert ReplayedAt(copies, lists, at, es, i) && before[i] == es[i];
    }
  }

  /** The copy follows one more edit. */
  lemma CarryOn(s: Store, t: Store, zone: string, before: seq<Entry>, es: seq<Entry>,
                copies: seq<Store>, lists: seq<seq<Row>>, at: string)
    requires Grows(s, t, zone, before, es) && Replays(copies, lists, at, es)
    requires CopyOf(copies[|before|], at, s, zone)
    ensures CopyOf(copies[|es|], at, t, zone)
    ensures NothingRefused(copies, lists, at, before) ==> NothingRefused(copies, lists, at, es)
  {
    if es != before {
      var n := |before|;
      assert ReplayedAt(copies, lists, at, es, n);
      OneMore(copies[n], at, lists[n], s, t, zone, es[n]);
      if NothingRefused(copies, lists, at, before) {
        forall i | 0 <= i < |es|
          ensures AllAccepted(Dropped(copies[i], lists[i], es[i].removed), at, es[i].added)
        {
          if i < n { assert before[i] == es[i]; }
        }
      }
    }
  }

  lemma {:induction false} ReplayFollows(
    run: seq<Store>, news: seq<seq<Entry>>, zone: string, n: nat, copies: seq<Store>, lists: seq<seq<Row>>, at: string)
    requires Growing(run, news, zone) && n < |run| && Replays(copies, lists, at, news[n])
    requires CopyOf(copies[0], at, run[0], zone)
    ensures CopyOf(copies[|copies| - 1], at, run[n], zone)
    ensures NothingRefused(copies, lists, at, news[n])
  {
    if n > 0 {
      assert GrowsAt(run, news, zone, n - 1);
      var before := news[n - 1];
      assert before <= news[n];
      ReplayPrefix(copies, lists, at, news[n], before);
      var fewer := copies[..|before| + 1];
      ReplayFollows(run, news, zone, n - 1, fewer, lists[..|before|], at);
      assert fewer[|before|] == copies[|before|];
      SameRefusals(copies, lists, at, before);
      CarryOn(run[n - 1], run[n], zone, before, news[n], copies, lists, at);
    }
  }

  lemma SameRefusals(copies: seq<Store>, lists: seq<seq<Row>>, at: string, es: seq<Entry>)
    requires |copies| > |es| && |lists| >= |es|
    requires NothingRefused(copies[..|es| + 1], lists[..|es|], at, es)
    ensures NothingRefused(copies, lists, at, es)
  {
    forall i | 0 <= i < |es|
      ensures AllAccepted(Dropped(copies[i], lists[i], es[i].removed), at, es[i].added)
    {
      assert copies[..|es| + 1][i] == copies[i] && lists[..|es|][i] == lists[i];
    }
  }

  lemma LoggedSince(run: seq<Store>, edits: seq<Edit>, zone: string, k: nat, n: nat)
    returns (tail: seq<Store>, news: seq<seq<Entry>>)
    requires IsRun(run, edits, zone) && k <= n < |run|
    ensures Growing(tail, news, zone) && |tail| > n - k && tail[0] == run[k] && tail[n - k] == run[n]
    ensures news[n - k] == JournalSince(run[n].journal, zone, Serial(run[k], zone))
  {
    tail := run[k..];
    news := RunIsGrowing(run, edits, zone, k);
    JournalBridges(run, edits, zone, k, n);
  }

  /** Replay is exact: a good copy of the zone at serial `s`, brought forward by the journal since
      `s`, holds exactly the zone's current records, and no entry is refused on the way. */
  lemma ReplayIsExact(
    run: seq<Store>, edits: seq<Edit>, zone: string, k: nat, n: nat,
    copies: seq<Store>, lists: seq<seq<Row>>, at: string)
    requires IsRun(run, edits, zone) && k <= n < |run|
    requires Replays(copies, lists, at, JournalSince(run[n].journal, zone, Serial(run[k], zone)))
    requires CopyOf(copies[0], at, run[k], zone)
    ensures CopyOf(copies[|copies| - 1], at, run[n], zone)
    ensures NothingRefused(copies, lists, at, JournalSince(run[n].journal, zone, Serial(run[k], zone)))
  {
    var tail, news := LoggedSince(run, edits, zone, k, n);
    ReplayFollows(tail, news, zone, n - k, copies, lists, at);
  }

  lemma OneMore(copy: Store, at: string, list: seq<Row>, s: Store, t: Store, zone: string, e: Entry)
    requires CopyOf(copy, at, s, zone) && Lists(list, InZone(copy.rows, at))
    requires TrueDelta(Recs(s.rows, zone), e.added, e.removed, Recs(t.rows, zone))
    ensures CopyOf(DeltaApplied(copy, at, list, e.removed, e.added), at, t, zone)
    ensures AllAccepted(Dropped(copy, list, e.removed), at, e.added)
  {
    DeltaIsExactIff(copy, at, list, e.removed, e.added);
    OneFits(Recs(s.rows, zone) - Elems(e.removed), e.added);
  }

  // ---- Duplicates ----------------------------------------------------------------------------

  lemma {:induction false} DroppedRows(st: Store, existing: seq<Row>, removed: seq<Rr>)
    requires Identified(st) && forall e <- existing :: e in st.rows
    ensures Dropped(st, existing, removed).rows
      == set r | r in st.rows && !exists x <- removed :: FirstMatch(existing, x) == Some(r)
  {
    if removed != [] {
      var init, last := removed[..|removed| - 1], removed[|removed| - 1];
      DroppedRows(st, existing, init);
      SplitLast(removed);
      var m, t, d := FirstMatch(existing, last), Dropped(st, existing, removed), Dropped(st, existing, init);
      forall r <- st.rows ensures r in t.rows <==> r in d.rows && FirstMatch(existing, last) != Some(r) { }
      forall r <- st.rows ensures (exists x <- removed :: FirstMatch(existing, x) == Some(r))
        <==> (exists x <- init :: FirstMatch(existing, x) == Some(r)) || FirstMatch(existing, last) == Some(r) { }
    }
  }

  /** No row of the zone that matches a removed record is left. */
  ghost predicate Gone(rows: set<Row>, zone: string, removed: seq<Rr>) {
    forall r, x :: r in rows && r.zone == zone && x in removed ==> !Matches(r, x)
  }

  /** Each removed record matches at most one row of the zone. */
  ghost predicate MatchOnce(rows: set<Row>, zone: string, removed: seq<Rr>) {
    forall r, q, x {:trigger Matches(r, x), Matches(q, x)} ::
      (r in rows && q in rows && r.zone == zone && q.zone == zone && x in removed && Matches(r, x) && Matches(q, x)) ==>
        r == q
  }

  /** A removal is exact precisely when no removed record has a duplicate: the secondary finds one row
      for each record, and the same one for the same record. */
  lemma RemovalIsExactIff(st: Store, zone: string, existing: seq<Row>, removed: seq<Rr>)
    requires Identified(st) && Lists(existing, InZone(st.rows, zone))
    ensures Gone(Dropped(st, existing, removed).rows, zone, removed) <==> MatchOnce(st.rows, zone, removed)
  {
    DroppedRows(st, existing, removed);
    var d := Dropped(st, existing, removed).rows;
    if MatchOnce(st.rows, zone, removed) {
      forall r, x | r in d && r.zone == zone && x in removed ensures !Matches(r, x) {
        if Matches(r, x) { FoundIsTheOne(st, zone, existing, removed, r, x); }
      }
    }
    if Gone(d, zone, removed) {
      forall r, q, x | r in st.rows && q in st.rows && r.zone == zone && q.zone == zone && x in removed
        && Matches(r, x) && Matches(q, x) ensures r == q
      {
        FoundForBoth(st, existing, removed, r, x);
        FoundForBoth(st, existing, removed, q, x);
      }
    }
  }

  lemma FoundIsTheOne(st: Store, zone: string, existing: seq<Row>, removed: seq<Rr>, r: Row, x: Rr)
    requires Lists(existing, InZone(st.rows, zone)) && MatchOnce(st.rows, zone, removed)
    requires r in st.rows && r.zone == zone && x in removed && Matches(r, x)
    ensures FirstMatch(existing, x) == Some(r)
  {
    assert r in existing;
    var m := FirstMatch(existing, x).value;
    assert m in InZone(st.rows, zone);
  }

  /** A matching row that is gone was the first match of the record. */
  lemma FoundForBoth(st: Store, existing: seq<Row>, removed: seq<Rr>, r: Row, x: Rr)
    requires r in st.rows && x in removed && Matches(r, x)
    requires exists y <- removed :: FirstMatch(existing, y) == Some(r)
    ensures FirstMatch(existing, x) == Some(r)
  {
    var y :| y in removed && FirstMatch(existing, y) == Some(r);
    SameMatches(existing, x, y);
  }

  lemma {:induction false} SameMatches(existing: seq<Row>, x: Rr, y: Rr)
    requires Normalize(x.name) == Normalize(y.name) && x.rtype == y.rtype && x.data == y.data
    ensures FirstMatch(existing, x) == FirstMatch(existing, y)
  {
    if existing != [] { SameMatches(existing[1..], x, y); }
  }

  /** So two rows with one name, type and data do not both go, though both are listed as removed. */
  lemma DuplicateSurvivesReplay(st: Store, zone: string, existing: seq<Row>, removed: seq<Rr>, a: Row, b: Row)
    requires Identified(st) && Lists(existing, InZone(st.rows, zone)) && a in st.rows && b in st.rows && a != b
    requires a.zone == b.zone == zone && a.rr in removed && b.rr in removed && SameKey(a.rr, b.rr)
    ensures a in Dropped(st, existing, removed).rows || b in Dropped(st, existing, removed).rows
  {
    DroppedRows(st, existing, removed);
    if a !in Dropped(st, existing, removed).rows && b !in Dropped(st, existing, removed).rows {
      FoundForBoth(st, existing, removed, a, a.rr);
      FoundForBoth(st, existing, removed, b, a.rr);
    }
  }
}
