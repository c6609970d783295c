/** What the zone store keeps: CNAME coexistence and no lost address. */
module DnsProperties {
  import opened Ordering
  import opened DnsNames
  import opened DnsZone

  // ---- CNAME coexistence -------------------------------------------------------------------

  predicate SameName(r: Row, q: Row) {
    r.zone == q.zone && Normalize(r.rr.name) == Normalize(q.rr.name)
  }

  /** No record shares a zone and name with a CNAME. */
  ghost predicate Coexist(rows: set<Row>) {
    forall r, q {:trigger SameName(r, q)} :: r in rows && q in rows && r != q && SameName(r, q) ==> !r.rr.rtype.Cname?
  }

  ghost predicate Identified(st: Store) {
    && (forall r <- st.rows :: r.id < st.nextId)
    && (forall r, q :: r in st.rows && q in st.rows && r.id == q.id ==> r == q)
  }

  ghost predicate Named(rows: set<Row>) {
    forall r <- rows :: Canonical(r.rr.name)
  }

  ghost predicate Good(st: Store) {
    Identified(st) && Named(st.rows) && Coexist(st.rows)
  }

  /** An accepted create keeps coexistence exactly when the guard would also have passed on the
      name as it is stored. */
  lemma CreateKeepsCoexistenceIff(st: Store, zone: string, rr: Rr)
    requires Identified(st) && Coexist(st.rows) && !Conflict(st.rows, zone, rr.name, rr.rtype, None)
    ensures Coexist(Created(st, zone, rr).rows) <==> !Conflict(st.rows, zone, Normalize(rr.name), rr.rtype, None)
  {
    var new_, t := Row(st.nextId, zone, Stored(rr)), Created(st, zone, rr);
    if Conflict(st.rows, zone, Normalize(rr.name), rr.rtype, None) {
      var r :| r in st.rows && r.zone == zone && Normalize(r.rr.name) == Normalize(Normalize(rr.name))
               && (rr.rtype.Cname? || r.rr.rtype.Cname?);
      assert SameName(r, new_) && SameName(new_, r);
    } else {
      forall r, q | r in t.rows && q in t.rows && r != q && SameName(r, q) ensures !r.rr.rtype.Cname? {
        if r != new_ && q != new_ { assert SameName(r, q); }
      }
    }
  }

  /** An accepted create keeps a good store good exactly for names without white space in front of
      trailing dots. */
  lemma CreateKeepsGoodIff(st: Store, zone: string, rr: Rr)
    requires Good(st)
    ensures Good(Created(st, zone, rr))
      <==> Conflict(st.rows, zone, rr.name, rr.rtype, None) || !SpaceBeforeDots(rr.name)
  {
    NormalizeIdempotentIff(rr.name);
    if !Conflict(st.rows, zone, rr.name, rr.rtype, None) {
      CreateKeepsCoexistenceIff(st, zone, rr);
      var new_ := Row(st.nextId, zone, Stored(rr));
      assert new_ in Created(st, zone, rr).rows;
      CanonicalIff(rr.name);
    }
  }

  lemma CanonicalIff(name: string)
    ensures Canonical(Normalize(name)) <==> !SpaceBeforeDots(name)
  {
    NormalizeIdempotentIff(name);
    if Canonical(Normalize(name)) { NormalizeCanonical(Normalize(name)); }
  }

  /** An accepted update keeps coexistence exactly when the guard would also have passed on the name
      as it is stored, in the zone the row is stored in. */
  lemma UpdateKeepsCoexistenceIff(st: Store, row: Row, zone: string, rr: Rr)
    requires Good(st) && row in st.rows && !Conflict(st.rows, zone, rr.name, rr.rtype, Some(row.id))
    ensures Coexist(Updated(st, row.id, zone, rr).rows)
      <==> !Conflict(st.rows, row.zone, Normalize(rr.name), rr.rtype, Some(row.id))
  {
    var new_, t := row.(rr := Stored(rr)), Updated(st, row.id, zone, rr);
    UpdatedRows(st, row, zone, rr);
    if Conflict(st.rows, row.zone, Normalize(rr.name), rr.rtype, Some(row.id)) {
      var r :| r in st.rows && r.zone == row.zone && Normalize(r.rr.name) == Normalize(Normalize(rr.name))
               && Some(row.id) != Some(r.id) && (rr.rtype.Cname? || r.rr.rtype.Cname?);
      assert SameName(r, new_) && SameName(new_, r);
    } else {
      forall r, q | r in t.rows && q in t.rows && r != q && SameName(r, q) ensures !r.rr.rtype.Cname? {
        if r != new_ && q != new_ { assert SameName(r, q); }
      }
    }
  }

  lemma UpdatedRows(st: Store, row: Row, zone: string, rr: Rr)
    requires Identified(st) && row in st.rows && !Conflict(st.rows, zone, rr.name, rr.rtype, Some(row.id))
    ensures var new_, t := row.(rr := Stored(rr)), Updated(st, row.id, zone, rr);
      new_ in t.rows && (forall r <- t.rows :: r == new_ || (r in st.rows && r.id != row.id))
      && forall r <- st.rows :: r.id != row.id ==> r in t.rows
  {
    var new_, t := row.(rr := Stored(rr)), Updated(st, row.id, zone, rr);
    assert new_ in t.rows;
    forall r <- st.rows | r.id != row.id ensures r in t.rows { }
  }

  /** It keeps a good store good exactly for an ordinary name that passes the guard in the row's own
      zone, which it does when the caller named that zone. */
  lemma UpdateKeepsGoodIff(st: Store, row: Row, zone: string, rr: Rr)
    requires Good(st) && row in st.rows && !Conflict(st.rows, zone, rr.name, rr.rtype, Some(row.id))
    ensures Good(Updated(st, row.id, zone, rr))
      <==> !SpaceBeforeDots(rr.name) && !Conflict(st.rows, row.zone, rr.name, rr.rtype, Some(row.id))
  {
    UpdateKeepsCoexistenceIff(st, row, zone, rr);
    UpdatedRows(st, row, zone, rr);
    NormalizeIdempotentIff(rr.name);
    CanonicalIff(rr.name);
  }

  /** A zone with a CNAME and another record. */
  const ALIAS := Row(0, "z", Rr("a", Cname, "b", 60, true))
  const BESIDE := Row(1, "z", Rr("c", A, "192.0.2.1", 60, true))
  const SMALL := Store([], {ALIAS, BESIDE}, 2, [])

  lemma PairIsGood(zones: seq<Zone>, a: Row, b: Row)
    requires a.id == 0 && b.id == 1 && Canonical(a.rr.name) && Canonical(b.rr.name) && a.rr.name != b.rr.name
    ensures Good(Store(zones, {a, b}, 2, []))
  {
    NormalizeCanonical(a.rr.name);
    NormalizeCanonical(b.rr.name);
    assert !SameName(a, b) && !SameName(b, a);
  }

  lemma SmallIsGood()
    ensures Good(SMALL) && ALIAS in SMALL.rows && BESIDE in SMALL.rows
  {
    PairIsGood([], ALIAS, BESIDE);
  }

  /** White space in front of a trailing dot slips past the guard of a create: an address record lands
      beside a CNAME of the same name. */
  lemma SpacedNameSlipsPast()
    ensures var rr := Rr("a .", A, "192.0.2.1", 60, true);
      Good(SMALL) && !Conflict(SMALL.rows, "z", rr.name, rr.rtype, None) && !Coexist(Created(SMALL, "z", rr).rows)
  {
    SmallIsGood();
    SpacedName();
    PlainLetters();
    CreateKeepsCoexistenceIff(SMALL, "z", Rr("a .", A, "192.0.2.1", 60, true));
  }

  /** Two updates that pass the guard and break coexistence. The first, under a name that is stored
      differently, needs a direct call of `update_record`: the record editor checks names first, and in a
      zone with a settled name refuses this one. */
  lemma SpacedUpdateSlipsPast()
    ensures var rr := Rr("a .", A, "192.0.2.1", 60, true);
      Good(SMALL) && !Conflict(SMALL.rows, "z", rr.name, rr.rtype, Some(1)) && !Coexist(Updated(SMALL, 1, "z", rr).rows)
  {
    SmallIsGood();
    SpacedName();
    PlainLetters();
    UpdateKeepsCoexistenceIff(SMALL, BESIDE, "z", Rr("a .", A, "192.0.2.1", 60, true));
  }

  /** A zone and one below it; the rows are in the upper one. */
  const UPPER := Row(0, "z", Rr("a.z", Cname, "b.z", 60, true))
  const OTHER := Row(1, "z", Rr("c.z", A, "192.0.2.1", 60, true))
  const NESTED := Store([Zone("y", "a.z", 1), Zone("z", "z", 1)], {UPPER, OTHER}, 2, [])

  lemma NestedNames()
    ensures Canonical("a.z") && Canonical("c.z")
    ensures Normalize("a.z") == "a.z" && Normalize("c.z") == "c.z" && Normalize("z") == "z"
  {
    NormalizeCanonical("a.z");
    NormalizeCanonical("c.z");
    NormalizeCanonical("z");
  }

  lemma NestedIsGood()
    ensures Good(NESTED) && OTHER in NESTED.rows && UPPER in NESTED.rows
  {
    PairIsGood(NESTED.zones, UPPER, OTHER);
  }

  lemma WithinBoth()
    ensures Within("a.z", "a.z") && Within("z", "a.z")
  {
    NestedNames();
    assert "a.z"[1..] == "." + "z";
  }

  /** The second is by a caller who names another zone the record's name is also within, and so reaches
      the store through the record editor. */
  lemma WrongZoneSlipsPast(rr: Rr)
    requires rr == Rr("a.z", A, "192.0.2.1", 60, true)
    ensures Good(NESTED) && Within("a.z", rr.name) && Within("z", rr.name)
    ensures !Conflict(NESTED.rows, "y", rr.name, rr.rtype, Some(1)) && !Coexist(Updated(NESTED, 1, "y", rr).rows)
  {
    NestedIsGood();
    WithinBoth();
    NestedNames();
    assert Conflict(NESTED.rows, "z", rr.name, rr.rtype, Some(1));
    UpdateKeepsCoexistenceIff(NESTED, OTHER, "y", rr);
  }

  lemma PlainLetters()
    ensures Canonical("a") && Canonical("c") && Normalize("a") == "a" && Normalize("c") == "c"
  {
    NormalizeCanonical("a");
    NormalizeCanonical("c");
  }

  lemma DeleteKeepsGood(st: Store, id: nat)
    requires Good(st)
    ensures Good(Deleted(st, id))
  {
    var t := Deleted(st, id);
    assert t.rows <= st.rows;
  }

  lemma {:induction false} DroppedKeepsGood(st: Store, existing: seq<Row>, removed: seq<Rr>)
    requires Good(st)
    ensures Good(Dropped(st, existing, removed))
  {
    if removed != [] {
      DroppedKeepsGood(st, existing, removed[..|removed| - 1]);
      var m := FirstMatch(existing, removed[|removed| - 1]);
      if m.Some? { DeleteKeepsGood(Dropped(st, existing, removed[..|removed| - 1]), m.value.id); }
    }
  }

  /** Some added record is accepted in its turn under a name with white space before trailing dots. */
  ghost predicate AcceptsSpaced(st: Store, zone: string, added: seq<Rr>) {
    exists i :: 0 <= i < |added| && SpaceBeforeDots(added[i].name)
      && !Conflict(CreatedAll(st, zone, added[..i]).rows, zone, added[i].name, added[i].rtype, None)
  }

  /** A delta keeps a good store good, whatever it removes and has refused, unless it adds a record
      under such a name. */
  lemma DeltaKeepsGoodIff(st: Store, zone: string, existing: seq<Row>, removed: seq<Rr>, added: seq<Rr>)
    requires Good(st)
    ensures Good(DeltaApplied(st, zone, existing, removed, added))
      <==> !AcceptsSpaced(Dropped(st, existing, removed), zone, added)
  {
    DroppedKeepsGood(st, existing, removed);
    CreatesKeepGoodIff(Dropped(st, existing, removed), zone, added);
  }

  lemma {:induction false} CreatesKeepGoodIff(st: Store, zone: string, added: seq<Rr>)
    requires Good(st)
    ensures Identified(CreatedAll(st, zone, added))
    ensures Good(CreatedAll(st, zone, added)) <==> !AcceptsSpaced(st, zone, added)
  {
    if added != [] {
      var init, last := added[..|added| - 1], added[|added| - 1];
      var mid := CreatedAll(st, zone, init);
      CreatesKeepGoodIff(st, zone, init);
      AcceptsSpacedNext(st, zone, added);
      if Good(mid) { CreateKeepsGoodIff(mid, zone, last); } else { BadStaysBad(mid, zone, last); }
    }
  }

  lemma AcceptsSpacedNext(st: Store, zone: string, added: seq<Rr>)
    requires added != []
    ensures var init, last := added[..|added| - 1], added[|added| - 1];
      AcceptsSpaced(st, zone, added) <==>
        || AcceptsSpaced(st, zone, init)
        || (SpaceBeforeDots(last.name) && !Conflict(CreatedAll(st, zone, init).rows, zone, last.name, last.rtype, None))
  {
    var init, n := added[..|added| - 1], |added| - 1;
    forall i | 0 <= i < n ensures added[i] == init[i] && added[..i] == init[..i] { }
    if AcceptsSpaced(st, zone, init) {
      var i :| 0 <= i < n && SpaceBeforeDots(init[i].name)
               && !Conflict(CreatedAll(st, zone, init[..i]).rows, zone, init[i].name, init[i].rtype, None);
      assert SpaceBeforeDots(added[i].name);
    }
  }

  lemma BadStaysBad(st: Store, zone: string, rr: Rr)
    requires Identified(st) && !Good(st)
    ensures Identified(Created(st, zone, rr)) && !Good(Created(st, zone, rr))
  {
    var t := Created(st, zone, rr);
    assert st.rows <= t.rows;
    CreateKeepsIds(st, zone, rr);
    if !Named(st.rows) { StaysUnnamed(st.rows, t.rows); } else { StaysApart(st.rows, t.rows); }
  }

  lemma CreateKeepsIds(st: Store, zone: string, rr: Rr)
    requires Identified(st)
    ensures Identified(Created(st, zone, rr))
  {
  }

  lemma StaysUnnamed(rows: set<Row>, more: set<Row>)
    requires rows <= more && !Named(rows)
    ensures !Named(more)
  {
  }

  lemma StaysApart(rows: set<Row>, more: set<Row>)
    requires rows <= more && !Coexist(rows)
    ensures !Coexist(more)
  {
    var r, q :| r in rows && q in rows && r != q && SameName(r, q) && r.rr.rtype.Cname?;
    assert r in more && q in more;
  }

  // ---- Repointing --------------------------------------------------------------------------

  ghost predicate CnameAt(rows: set<Row>, zone: string, owner: string) {
    exists r <- rows :: r.zone == zone && Normalize(r.rr.name) == owner && r.rr.rtype.Cname?
  }

  lemma ConflictIsCname(st: Store, zone: string, owner: string, family: RecordType)
    requires Identified(st) && !family.Cname?
    ensures Conflict(Remaining(st.rows, Replaced(st.rows, zone, owner, family)), zone, owner, family, None)
      <==> CnameAt(st.rows, zone, Normalize(owner))
  {
    var gone := Replaced(st.rows, zone, owner, family);
    var left := Remaining(st.rows, gone);
    forall r <- st.rows | r.rr.rtype.Cname? ensures r in left {
      forall k <- gone ensures k.id != r.id { }
    }
  }

  /** When a repoint loses an address: it replaces something while a CNAME sits where the new record is
      to be stored. Then the old records are gone and the new one is refused. */
  lemma RepointLosesExactlyWhen(st: Store, apex: string, z: nat, fqdn: string, ip: Address, ttl: nat, listed: seq<Row>)
    requires Identified(st) && FindZone(st.zones, apex) == Some(z)
    ensures var zone, owner := st.zones[z].id, Normalize(fqdn);
      var gone, blocked := Replaced(st.rows, zone, owner, Family(ip)), CnameAt(st.rows, zone, Normalize(owner));
      var (t, r) := Repointed(st, apex, fqdn, ip, ttl, listed);
      && (r.Refused? <==> blocked && !AlreadyThere(gone, ip.text, ttl))
      && (r.Refused? && t.rows != st.rows <==> gone != {} && blocked && !AlreadyThere(gone, ip.text, ttl))
  {
    var zone, owner := st.zones[z].id, Normalize(fqdn);
    var gone := Replaced(st.rows, zone, owner, Family(ip));
    ConflictIsCname(st, zone, owner, Family(ip));
    if gone != {} {
      var g :| g in gone;
      assert g in st.rows && g !in Remaining(st.rows, gone);
    } else {
      assert Remaining(st.rows, gone) == st.rows;
    }
  }

  /** In a good store a repoint never loses an address: it is refused with nothing changed, or it
      succeeds. Success leaves exactly one record of the family at the name, with this address and
      TTL, exactly for ordinary names. That record answers queries unless it was there before,
      disabled. */
  lemma RepointNeverLosesAddress(st: Store, apex: string, z: nat, fqdn: string, ip: Address, ttl: nat, listed: seq<Row>)
    requires Good(st) && FindZone(st.zones, apex) == Some(z)
    ensures var zone, owner, family := st.zones[z].id, Normalize(fqdn), Family(ip);
      var before := Replaced(st.rows, zone, owner, family);
      var (t, r) := Repointed(st, apex, fqdn, ip, ttl, listed);
      var now := Replaced(t.rows, zone, owner, family);
      && (r.Refused? ==> t == st)
      && (Good(t) <==> r.Refused? || !SpaceBeforeDots(owner))
      && (r.Ok? ==> (AlreadyThere(now, ip.text, ttl) <==> !SpaceBeforeDots(fqdn)))
      && (r.Ok? ==> (Enabled(now) <==> !(AlreadyThere(before, ip.text, ttl) && !Enabled(before))))
  {
    if SpaceBeforeDots(fqdn) {
      SpacedRepointAdds(st, apex, z, fqdn, ip, ttl, listed);
    } else {
      PlainRepointReplaces(st, apex, z, fqdn, ip, ttl, listed);
    }
  }

  ghost predicate Enabled(rows: set<Row>) { forall k <- rows :: k.rr.enabled }

  lemma SpacedRepointAdds(st: Store, apex: string, z: nat, fqdn: string, ip: Address, ttl: nat, listed: seq<Row>)
    requires Good(st) && FindZone(st.zones, apex) == Some(z) && SpaceBeforeDots(fqdn)
    ensures var zone, owner, family := st.zones[z].id, Normalize(fqdn), Family(ip);
      var (t, r) := Repointed(st, apex, fqdn, ip, ttl, listed);
      && (r.Refused? ==> t == st) && (Good(t) <==> r.Refused? || !SpaceBeforeDots(owner))
      && Replaced(st.rows, zone, owner, family) == {} == Replaced(t.rows, zone, owner, family)
  {
    SpacedShrinks(fqdn);
    SpacedReplacementAdds(st, z, Rr(Normalize(fqdn), Family(ip), ip.text, ttl, true), listed);
  }

  lemma PlainRepointReplaces(st: Store, apex: string, z: nat, fqdn: string, ip: Address, ttl: nat, listed: seq<Row>)
    requires Good(st) && FindZone(st.zones, apex) == Some(z) && !SpaceBeforeDots(fqdn)
    ensures var zone, owner, family := st.zones[z].id, Normalize(fqdn), Family(ip);
      var before := Replaced(st.rows, zone, owner, family);
      var (t, r) := Repointed(st, apex, fqdn, ip, ttl, listed);
      && !SpaceBeforeDots(owner) && (r.Refused? ==> t == st) && Good(t)
      && (r.Ok? && AlreadyThere(before, ip.text, ttl) ==> t == st)
      && (r.Ok? && !AlreadyThere(before, ip.text, ttl) ==>
            Replaced(t.rows, zone, owner, family) == {Row(st.nextId, zone, Rr(owner, family, ip.text, ttl, true))})
  {
    var rr := Rr(Normalize(fqdn), Family(ip), ip.text, ttl, true);
    NormalizeIdempotentIff(fqdn);
    SettledName(rr.name);
    if !AlreadyThere(Replaced(st.rows, st.zones[z].id, rr.name, rr.rtype), ip.text, ttl) {
      ReplacementIsSafe(st, z, rr, listed);
    }
  }

  ghost predicate Shrinks(name: string) {
    |Normalize(name)| < |name| && |Normalize(Normalize(name))| < |name|
  }

  /** Under a name that is stored shorter nothing is found to replace, and what is created is not found
      again. */
  lemma SpacedReplacementAdds(st: Store, z: nat, rr: Rr, listed: seq<Row>)
    requires Good(st) && z < |st.zones| && Shrinks(rr.name) && !rr.rtype.Cname?
    ensures var zone := st.zones[z].id;
      var (t, r) := AddressReplaced(st, z, rr, listed);
      && Replaced(st.rows, zone, rr.name, rr.rtype) == {} == Replaced(t.rows, zone, rr.name, rr.rtype)
      && (r.Refused? ==> t == st)
      && (r.Ok? ==> (Good(t) <==> !SpaceBeforeDots(rr.name)) && SpacedAdded(st, t, zone, rr))
  {
    var zone := st.zones[z].id;
    NotFound(st.rows, zone, rr.name, rr.rtype);
    assert Remaining(st.rows, {}) == st.rows;
    var (t, r) := AddressReplaced(st, z, rr, listed);
    if r.Ok? {
      CreateKeepsGoodIff(st, zone, rr);
      assert t.rows == Created(st, zone, rr).rows;
      assert Good(t) <==> Good(Created(st, zone, rr));
    }
  }

  ghost predicate SpacedAdded(st: Store, t: Store, zone: string, rr: Rr) {
    t.rows == st.rows + {Row(st.nextId, zone, Stored(rr))} && t.nextId == st.nextId + 1
    && |t.journal| == |st.journal| + 1 && !CnameAt(t.rows, zone, Normalize(rr.name))
  }

  lemma NotFound(rows: set<Row>, zone: string, name: string, family: RecordType)
    requires Named(rows) && Shrinks(name)
    ensures Replaced(rows, zone, name, family) == {}
  {
    forall r <- rows ensures Normalize(r.rr.name) != name {
      NormalizeCanonical(r.rr.name);
    }
  }

  lemma ReplacementIsSafe(st: Store, z: nat, rr: Rr, listed: seq<Row>)
    requires Good(st) && z < |st.zones| && Canonical(rr.name) && Normalize(rr.name) == rr.name && !rr.rtype.Cname?
    ensures var zone := st.zones[z].id;
      var (t, r) := AddressReplaced(st, z, rr, listed);
      && Good(t)
      && (r.Refused? ==> t == st)
      && (r.Ok? ==> Replaced(t.rows, zone, rr.name, rr.rtype) == {Row(st.nextId, zone, rr)} && t.journal != st.journal)
  {
    var zone := st.zones[z].id;
    ConflictIsCname(st, zone, rr.name, rr.rtype);
    if CnameAt(st.rows, zone, rr.name) {
      NothingBesideCname(st, zone, rr.name, rr.rtype);
      assert Remaining(st.rows, {}) == st.rows;
    } else {
      ReplacementIsMade(st, z, rr, listed);
    }
  }

  lemma ReplacementIsMade(st: Store, z: nat, rr: Rr, listed: seq<Row>)
    requires Good(st) && z < |st.zones| && Canonical(rr.name) && Normalize(rr.name) == rr.name && !rr.rtype.Cname?
    requires AddressReplaced(st, z, rr, listed).1.Ok?
    ensures var zone, t := st.zones[z].id, AddressReplaced(st, z, rr, listed).0;
      Good(t) && Replaced(t.rows, zone, rr.name, rr.rtype) == {Row(st.nextId, zone, rr)} && t.journal != st.journal
  {
    var zone := st.zones[z].id;
    var gone := Replaced(st.rows, zone, rr.name, rr.rtype);
    var left := st.(rows := Remaining(st.rows, gone));
    RemainingKeepsGood(st, gone);
    SettledName(rr.name);
    CreateKeepsGoodIff(left, zone, rr);
    var new_, t := Row(st.nextId, zone, rr), AddressReplaced(st, z, rr, listed).0;
    assert t.rows == left.rows + {new_};
    forall k <- left.rows ensures k !in gone { }
    forall k <- Replaced(t.rows, zone, rr.name, rr.rtype) ensures k == new_ { }
    assert new_ in Replaced(t.rows, zone, rr.name, rr.rtype);
  }

  lemma SettledName(name: string)
    requires Normalize(name) == name
    ensures !SpaceBeforeDots(name)
  {
    NormalizeIdempotentIff(name);
  }

  lemma NothingBesideCname(st: Store, zone: string, owner: string, family: RecordType)
    requires Good(st) && CnameAt(st.rows, zone, owner) && !family.Cname?
    ensures Replaced(st.rows, zone, owner, family) == {}
  {
    var c :| c in st.rows && c.zone == zone && Normalize(c.rr.name) == owner && c.rr.rtype.Cname?;
    forall g | g in Replaced(st.rows, zone, owner, family) ensures false {
      assert SameName(c, g);
    }
  }

  lemma RemainingKeepsGood(st: Store, gone: set<Row>)
    requires Good(st)
    ensures Good(st.(rows := Remaining(st.rows, gone)))
  {
    assert Remaining(st.rows, gone) <= st.rows;
  }

  /** Repeating a successful repoint changes nothing, no record, serial or journal entry, exactly for
      ordinary names. Under the others every repetition adds a record and a journal entry. */
  lemma RepointTwiceIff(st: Store, apex: string, z: nat, fqdn: string, ip: Address, ttl: nat,
                        l1: seq<Row>, l2: seq<Row>)
    requires Good(st) && FindZone(st.zones, apex) == Some(z) && Repointed(st, apex, fqdn, ip, ttl, l1).1.Ok?
    ensures var t := Repointed(st, apex, fqdn, ip, ttl, l1).0;
      var (u, r) := Repointed(t, apex, fqdn, ip, ttl, l2);
      && ((u, r) == (t, Ok(None)) <==> !SpaceBeforeDots(fqdn))
      && (SpaceBeforeDots(fqdn) ==>
            r.Ok? && SpacedAdded(t, u, st.zones[z].id, Rr(Normalize(fqdn), Family(ip), ip.text, ttl, true)))
  {
    RepointNeverLosesAddress(st, apex, z, fqdn, ip, ttl, l1);
    var t := Repointed(st, apex, fqdn, ip, ttl, l1).0;
    BumpKeepsNames(st.zones, z, apex);
    assert t.zones == st.zones || t.zones == Bumped(st.zones, z);
    if SpaceBeforeDots(fqdn) {
      SpacedShrinks(fqdn);
      var rr := Rr(Normalize(fqdn), Family(ip), ip.text, ttl, true);
      SpacedReplacementAdds(st, z, rr, l1);
      SpacedAddsAgain(st, t, z, rr, l2);
    }
  }

  lemma SpacedAddsAgain(st: Store, t: Store, z: nat, rr: Rr, listed: seq<Row>)
    requires Good(st) && z < |st.zones| && z < |t.zones| && t.zones[z].id == st.zones[z].id
    requires Shrinks(rr.name) && !rr.rtype.Cname? && SpacedAdded(st, t, st.zones[z].id, rr)
    ensures var zone := st.zones[z].id;
      Replaced(t.rows, zone, rr.name, rr.rtype) == {}
      && AddressReplaced(t, z, rr, listed).1.Ok? && SpacedAdded(t, AddressReplaced(t, z, rr, listed).0, zone, rr)
  {
    NotFound(st.rows, st.zones[z].id, rr.name, rr.rtype);
    assert Remaining(t.rows, {}) == t.rows;
  }

  /** So at `"a ."`, in every good store, a repeated repoint adds one more address record at `"a"` and
      one more journal entry. */
  lemma SpacedRepointPilesUp(st: Store, apex: string, z: nat, ip: Address, ttl: nat, l1: seq<Row>, l2: seq<Row>)
    requires Good(st) && FindZone(st.zones, apex) == Some(z) && Repointed(st, apex, "a .", ip, ttl, l1).1.Ok?
    ensures var t := Repointed(st, apex, "a .", ip, ttl, l1).0;
      var u := Repointed(t, apex, "a .", ip, ttl, l2).0;
      u.rows == t.rows + {Row(t.nextId, st.zones[z].id, Rr("a", Family(ip), ip.text, ttl, true))}
      && |u.journal| == |t.journal| + 1
  {
    SpacedName();
    NormalizeIdempotentIff("a .");
    RepointTwiceIff(st, apex, z, "a .", ip, ttl, l1, l2);
  }

  /** A repoint at a name that is stored twice shorter can land beside a CNAME. */
  lemma RepointLandsBeside(st: Store, fqdn: string, alias: Row, ip: Address, ttl: nat)
    requires |st.zones| == 1 && st.rows == {alias} && alias.id < st.nextId && alias.zone == st.zones[0].id
    requires alias.rr.rtype.Cname? && Canonical(alias.rr.name) && TwiceShorter(fqdn, alias.rr.name)
    ensures var (t, r) := Repointed(st, st.zones[0].name, fqdn, ip, ttl, []);
      Good(st) && r.Ok? && !Coexist(t.rows)
  {
    LandsBeside(st, Rr(Normalize(fqdn), Family(ip), ip.text, ttl, true), alias);
  }

  ghost predicate TwiceShorter(fqdn: string, name: string) {
    var owner := Normalize(fqdn);
    Shrinks(owner) && Normalize(owner) != name == Normalize(Normalize(owner))
  }

  /** So it does at `"a . ."`, a name nothing checks on the way to a repoint, where `"a"` is a CNAME. */
  lemma SpacedRepointSlipsPast(st: Store, fqdn: string, ip: Address, ttl: nat)
    requires st == Store([Zone("z", "z", 1)], {ALIAS}, 1, []) && fqdn == "a . ."
    ensures var (t, r) := Repointed(st, "z", fqdn, ip, ttl, []);
      Good(st) && r.Ok? && !Coexist(t.rows)
  {
    assert TwiceShorter(fqdn, "a") by { TwiceSpacedName(); }
    assert Canonical(ALIAS.rr.name);
    RepointLandsBeside(st, fqdn, ALIAS, ip, ttl);
  }

  lemma LandsBeside(st: Store, rr: Rr, alias: Row)
    requires |st.zones| == 1 && st.rows == {alias} && alias.id < st.nextId && alias.zone == st.zones[0].id
    requires alias.rr.rtype.Cname? && !rr.rtype.Cname? && Shrinks(rr.name) && Canonical(alias.rr.name)
    requires Normalize(rr.name) != alias.rr.name == Normalize(Normalize(rr.name))
    ensures var (t, r) := AddressReplaced(st, 0, rr, []);
      Good(st) && Replaced(st.rows, alias.zone, rr.name, rr.rtype) == {} && r.Ok? && !Coexist(t.rows)
  {
    NormalizeCanonical(alias.rr.name);
    SpacedReplacementAdds(st, 0, rr, []);
    var t, new_ := AddressReplaced(st, 0, rr, []).0, Row(st.nextId, alias.zone, Stored(rr));
    assert new_ in t.rows && alias in t.rows && SameName(alias, new_);
  }

  /** A repoint to an address that is there, disabled, leaves it disabled. */
  lemma DisabledStays(r: Row)
    requires r == Row(0, "z", Rr("a", A, "192.0.2.1", 60, false))
    ensures var st := Store([Zone("z", "z", 1)], {r}, 1, []);
      Repointed(st, "z", "a", V4("192.0.2.1"), 60, [r]) == (st, Ok(None))
  {
    PlainLetters();
    var st := Store([Zone("z", "z", 1)], {r}, 1, []);
    assert Replaced(st.rows, "z", "a", A) == {r};
  }

  lemma {:induction false} BumpKeepsNames(zones: seq<Zone>, z: nat, apex: string)
    requires z < |zones|
    ensures FindZone(Bumped(zones, z), apex) == FindZone(zones, apex)
  {
    if z > 0 {
      BumpKeepsNames(zones[1..], z - 1, apex);
      assert Bumped(zones, z)[1..] == Bumped(zones[1..], z - 1);
    } else {
      assert Bumped(zones, z)[1..] == zones[1..];
    }
  }
}
