/** The DNS zone store: the CNAME-coexistence guard, address repointing with serial and journal,
    and the application of journal deltas by a secondary. */
module DnsZone {
  import opened Ordering
  import opened DnsNames

  const U32_MAX: nat := 0xFFFF_FFFF

  datatype RecordType = A | Aaaa | Cname | Other(code: string)

  datatype Rr = Rr(name: string, rtype: RecordType, data: string, ttl: nat, enabled: bool)

  /** A stored record row; the store draws a fresh id for each. */
  datatype Row = Row(id: nat, zone: string, rr: Rr)

  datatype Zone = Zone(id: string, name: string, serial: nat)

  /** The delta that produced `serial`. */
  datatype Entry = Entry(zone: string, serial: nat, added: seq<Rr>, removed: seq<Rr>)

  /** `zones` is what `list_zones` answers: all zones, ordered by name. */
  datatype Store = Store(zones: seq<Zone>, rows: set<Row>, nextId: nat, journal: seq<Entry>)

  datatype Result<T> = Ok(value: T) | Refused

  // ---- Zones -------------------------------------------------------------------------------

  predicate ZoneNamed(zones: seq<Zone>, name: string) { exists z <- zones :: z.name == name }

  function InsertZone(zones: seq<Zone>, z: Zone): (all: seq<Zone>)
    ensures forall x :: x in all <==> x == z || x in zones
  {
    if zones == [] || Less(z.name, zones[0].name) then [z] + zones
    else [zones[0]] + InsertZone(zones[1..], z)
  }

  /** A zone is stored under its normalised name, unless that name is taken. */
  function ZoneCreated(st: Store, name: string, id: string): Store {
    if ZoneNamed(st.zones, Normalize(name)) then st
    else st.(zones := InsertZone(st.zones, Zone(id, Normalize(name), 1)))
  }

  // ---- Record operations -------------------------------------------------------------------

  /** The guard of every create and update: another record at this name, when either is a CNAME. */
  predicate Conflict(rows: set<Row>, zone: string, name: string, rtype: RecordType, exclude: Option<nat>) {
    exists r <- rows :: r.zone == zone && Normalize(r.rr.name) == Normalize(name)
      && exclude != Some(r.id) && (rtype.Cname? || r.rr.rtype.Cname?)
  }

  function Stored(rr: Rr): Rr {
    rr.(name := Normalize(rr.name))
  }

  function Created(st: Store, zone: string, rr: Rr): Store {
    if Conflict(st.rows, zone, rr.name, rr.rtype, None) then st
    else st.(rows := st.rows + {Row(st.nextId, zone, Stored(rr))}, nextId := st.nextId + 1)
  }

  /** The row is found by id; `zone` is only where the guard looks. */
  function Updated(st: Store, id: nat, zone: string, rr: Rr): Store {
    if Conflict(st.rows, zone, rr.name, rr.rtype, Some(id)) then st
    else st.(rows := set r | r in st.rows :: if r.id == id then r.(rr := Stored(rr)) else r)
  }

  function Deleted(st: Store, id: nat): Store {
    st.(rows := set r | r in st.rows && r.id != id)
  }

  // ---- Repointing --------------------------------------------------------------------------

  datatype Address = V4(text: string) | V6(text: string)

  function Family(ip: Address): RecordType {
    if ip.V4? then A else Aaaa
  }

  function FindZone(zones: seq<Zone>, apex: string): (i: Option<nat>)
    ensures i.Some? ==> i.value < |zones| && Normalize(zones[i.value].name) == Normalize(apex)
  {
    if zones == [] then None
    else if Normalize(zones[0].name) == Normalize(apex) then Some(0)
    else match FindZone(zones[1..], apex) case Some(i) => Some(i + 1) case None => None
  }

  /** The address records a repoint replaces: same family, same name. */
  function Replaced(rows: set<Row>, zone: string, owner: string, family: RecordType): set<Row> {
    set r | r in rows && r.zone == zone && r.rr.rtype == family && Normalize(r.rr.name) == owner
  }

  predicate AlreadyThere(replaced: set<Row>, data: string, ttl: nat) {
    |replaced| == 1 && forall r <- replaced :: r.rr.data == data && r.rr.ttl == ttl
  }

  function NextSerial(serial: nat): nat {
    if serial >= U32_MAX then 1 else serial + 1
  }

  function Bumped(zones: seq<Zone>, i: nat): seq<Zone>
    requires i < |zones|
  {
    zones[i := zones[i].(serial := NextSerial(zones[i].serial))]
  }

  class DnsDb {
    var zones: seq<Zone>
    var rows: set<Row>
    var nextId: nat
    var journal: seq<Entry>

    function Contents(): Store
      reads this
    {
      Store(zones, rows, nextId, journal)
    }

    constructor (zones: seq<Zone>)
      ensures Contents() == Store(zones, {}, 0, [])
    {
      this.zones, rows, nextId, journal := zones, {}, 0, [];
    }

    /** `id` is the one the store draws for the new zone. */
    method CreateZone(name: string, id: string) returns (r: Result<string>)
      modifies this`zones
      ensures Contents() == ZoneCreated(old(Contents()), name, id)
      ensures r == if ZoneNamed(old(zones), Normalize(name)) then Refused else Ok(id)
    {
      if ZoneNamed(zones, Normalize(name)) {
        return Refused;
      }
      zones := InsertZone(zones, Zone(id, Normalize(name), 1));
      r := Ok(id);
    }

    method CreateRecord(zone: string, rr: Rr) returns (r: Result<Rr>)
      modifies this`rows, this`nextId
      ensures Contents() == Created(old(Contents()), zone, rr)
      ensures r == if Conflict(old(rows), zone, rr.name, rr.rtype, None) then Refused else Ok(Stored(rr))
    {
      if Conflict(rows, zone, rr.name, rr.rtype, None) {
        return Refused;
      }
      rows := rows + {Row(nextId, zone, Stored(rr))};
      nextId := nextId + 1;
      r := Ok(Stored(rr));
    }

    method UpdateRecord(id: nat, zone: string, rr: Rr) returns (r: Result<()>)
      modifies this`rows
      ensures Contents() == Updated(old(Contents()), id, zone, rr)
      ensures r.Refused? <==> Conflict(old(rows), zone, rr.name, rr.rtype, Some(id))
    {
      if Conflict(rows, zone, rr.name, rr.rtype, Some(id)) {
        return Refused;
      }
      rows := set r | r in rows :: if r.id == id then r.(rr := Stored(rr)) else r;
      r := Ok(());
    }

    method DeleteRecord(id: nat)
      modifies this`rows
      ensures Contents() == Deleted(old(Contents()), id)
    {
      rows := set r | r in rows && r.id != id;
    }

    /** The rows of a zone, in some order. */
    method ListRecords(zone: string) returns (list: seq<Row>)
      ensures Lists(list, InZone(rows, zone))
    {
      list := [];
      var left := InZone(rows, zone);
      while left != {}
        invariant left <= InZone(rows, zone) && Lists(list, InZone(rows, zone) - left)
        decreases left
      {
        var r :| r in left;
        list := list + [r];
        left := left - {r};
      }
    }

    method DeleteAll(ids: seq<Row>)
      modifies this`rows
      ensures rows == set r | r in old(rows) && forall k <- ids :: k.id != r.id
    {
      for i := 0 to |ids|
        invariant rows == set r | r in old(rows) && forall k <- ids[..i] :: k.id != r.id
      {
        assert ids[..i + 1] == ids[..i] + [ids[i]];
        DeleteRecord(ids[i].id);
      }
      assert ids[..|ids|] == ids;
    }

    /** `listed` is the order in which the replaced rows were read. */
    method RepointAddressRecord(apex: string, fqdn: string, ip: Address, ttl: nat)
      returns (r: Result<Option<nat>>, ghost listed: seq<Row>)
      modifies this
      ensures (Contents(), r) == Repointed(old(Contents()), apex, fqdn, ip, ttl, listed)
      ensures FindZone(old(zones), apex).Some? ==>
        Lists(listed, Replaced(old(rows), old(zones)[FindZone(old(zones), apex).value].id, Normalize(fqdn), Family(ip)))
    {
      var found := FindZone(zones, apex);
      if found.None? {
        return Ok(None), [];
      }
      var z, owner, family := found.value, Normalize(fqdn), Family(ip);
      var removed := ListReplaced(zones[z].id, owner, family);
      listed := removed;
      AlreadyListed(removed, Replaced(rows, zones[z].id, owner, family), ip.text, ttl);
      if |removed| == 1 && removed[0].rr.data == ip.text && removed[0].rr.ttl == ttl {
        r := Ok(None);
      } else {
        r := ReplaceAddress(z, owner, family, ip.text, ttl, removed);
      }
    }

    method ListReplaced(zone: string, owner: string, family: RecordType) returns (removed: seq<Row>)
      ensures Lists(removed, Replaced(rows, zone, owner, family))
    {
      var all := ListRecords(zone);
      removed := SelectReplaced(all, owner, family);
      assert Picked(all, owner, family) == Replaced(rows, zone, owner, family);
    }

    method ReplaceAddress(z: nat, owner: string, family: RecordType, text: string, ttl: nat, removed: seq<Row>)
      returns (r: Result<Option<nat>>)
      requires z < |zones| && Lists(removed, Replaced(rows, zones[z].id, owner, family))
      modifies this
      ensures (Contents(), r) == AddressReplaced(old(Contents()), z, Rr(owner, family, text, ttl, true), removed)
    {
      var zone := zones[z].id;
      DeleteAll(removed);
      assert rows == Remaining(old(rows), Replaced(old(rows), zone, owner, family));
      var created := CreateRecord(zone, Rr(owner, family, text, ttl, true));
      if created.Refused? {
        return Refused;
      }
      zones := Bumped(zones, z);
      journal := journal + [Entry(zone, zones[z].serial, [created.value], Rrs(removed))];
      r := Ok(Some(zones[z].serial));
    }

    /** Apply one IXFR difference sequence: matches are looked up once, before anything is deleted;
        records that are refused are counted, the others still created. */
    method ApplyZoneDelta(zone: string, removed: seq<Rr>, added: seq<Rr>)
      returns (r: Result<()>, ghost existing: seq<Row>)
      modifies this`rows, this`nextId
      ensures Lists(existing, InZone(old(rows), zone))
      ensures Contents() == DeltaApplied(old(Contents()), zone, existing, removed, added)
      ensures r.Ok? <==> AllAccepted(Dropped(old(Contents()), existing, removed), zone, added)
    {
      var list := ListRecords(zone);
      existing := list;
      for i := 0 to |removed|
        invariant Contents() == Dropped(old(Contents()), list, removed[..i])
      {
        assert removed[..i + 1][..i] == removed[..i];
        var m := FirstMatch(list, removed[i]);
        if m.Some? {
          DeleteRecord(m.value.id);
        }
      }
      assert removed[..|removed|] == removed;
      var failed := 0;
      ghost var base := Contents();
      for i := 0 to |added|
        invariant Contents() == CreatedAll(base, zone, added[..i])
        invariant failed == 0 <==> AllAccepted(base, zone, added[..i])
      {
        assert added[..i + 1][..i] == added[..i];
        var c := CreateRecord(zone, added[i]);
        if c.Refused? {
          failed := failed + 1;
        }
      }
      assert added[..|added|] == added;
      r := if failed > 0 then Refused else Ok(());
    }

    method SelectReplaced(all: seq<Row>, owner: string, family: RecordType) returns (removed: seq<Row>)
      requires forall i, j :: 0 <= i < j < |all| ==> all[i] != all[j]
      ensures Lists(removed, Picked(all, owner, family))
    {
      removed := [];
      for i := 0 to |all|
        invariant Lists(removed, Picked(all[..i], owner, family))
      {
        PickedNext(all, i, owner, family);
        if Picks(all[i], owner, family) {
          ListOne(removed, Picked(all[..i], owner, family), all[i]);
          removed := removed + [all[i]];
        }
      }
      assert all[..|all|] == all;
    }
  }

  lemma AlreadyListed(removed: seq<Row>, replaced: set<Row>, data: string, ttl: nat)
    requires Lists(removed, replaced)
    ensures AlreadyThere(replaced, data, ttl)
      <==> |removed| == 1 && removed[0].rr.data == data && removed[0].rr.ttl == ttl
  {
    CountListed(removed, replaced);
    assert removed != [] ==> removed[0] in replaced;
  }

  predicate Picks(r: Row, owner: string, family: RecordType) {
    r.rr.rtype == family && Normalize(r.rr.name) == owner
  }

  function Picked(all: seq<Row>, owner: string, family: RecordType): set<Row> {
    set r | r in all && Picks(r, owner, family)
  }

  lemma PickedNext(all: seq<Row>, i: nat, owner: string, family: RecordType)
    requires forall i, j :: 0 <= i < j < |all| ==> all[i] != all[j]
    requires i < |all|
    ensures var part := Picked(all[..i], owner, family);
      all[i] !in part
      && Picked(all[..i + 1], owner, family) == if Picks(all[i], owner, family) then part + {all[i]} else part
  {
    assert all[..i + 1] == all[..i] + [all[i]];
  }

  // ---- Deltas ------------------------------------------------------------------------------

  predicate Matches(e: Row, rem: Rr) {
    Normalize(e.rr.name) == Normalize(rem.name) && e.rr.rtype == rem.rtype && e.rr.data == rem.data
  }

  function FirstMatch(existing: seq<Row>, rem: Rr): (m: Option<Row>)
    ensures m.Some? ==> m.value in existing && Matches(m.value, rem)
    ensures m.None? ==> forall e <- existing :: !Matches(e, rem)
  {
    if existing == [] then None
    else if Matches(existing[0], rem) then Some(existing[0])
    else FirstMatch(existing[1..], rem)
  }

  function Dropped(st: Store, existing: seq<Row>, removed: seq<Rr>): Store {
    if removed == [] then st
    else
      var rest := Dropped(st, existing, removed[..|removed| - 1]);
      match FirstMatch(existing, removed[|removed| - 1])
      case Some(m) => Deleted(rest, m.id)
      case None => rest
  }

  function CreatedAll(st: Store, zone: string, added: seq<Rr>): Store {
    if added == [] then st
    else Created(CreatedAll(st, zone, added[..|added| - 1]), zone, added[|added| - 1])
  }

  /** Whether every record of `added` passes the guard in its turn. */
  predicate AllAccepted(st: Store, zone: string, added: seq<Rr>) {
    added == [] ||
    (AllAccepted(st, zone, added[..|added| - 1])
     && var last := added[|added| - 1];
        !Conflict(CreatedAll(st, zone, added[..|added| - 1]).rows, zone, last.name, last.rtype, None))
  }

  function DeltaApplied(st: Store, zone: string, existing: seq<Row>, removed: seq<Rr>, added: seq<Rr>): Store {
    CreatedAll(Dropped(st, existing, removed), zone, added)
  }

  lemma ListOne(list: seq<Row>, rows: set<Row>, r: Row)
    requires Lists(list, rows) && r !in rows
    ensures Lists(list + [r], rows + {r})
  {
    assert forall i :: 0 <= i < |list| ==> list[i] in list;
  }

  function InZone(rows: set<Row>, zone: string): set<Row> {
    set r | r in rows && r.zone == zone
  }

  /** `list` enumerates the rows without repetition. */
  ghost predicate Lists(list: seq<Row>, rows: set<Row>) {
    && (forall r :: r in list <==> r in rows)
    && (forall i, j :: 0 <= i < j < |list| ==> list[i] != list[j])
  }

  lemma {:induction false} CountListed(list: seq<Row>, rows: set<Row>)
    requires Lists(list, rows)
    ensures |list| == |rows|
  {
    if list != [] {
      var last := list[|list| - 1];
      assert list == list[..|list| - 1] + [last];
      assert last in list;
      CountListed(list[..|list| - 1], rows - {last});
    } else {
      assert rows == {};
    }
  }

  function Remaining(rows: set<Row>, gone: set<Row>): set<Row> {
    set r | r in rows && forall k <- gone :: k.id != r.id
  }

  function Rrs(list: seq<Row>): (rrs: seq<Rr>)
    ensures |rrs| == |list| && forall i :: 0 <= i < |list| ==> rrs[i] == list[i].rr
  {
    seq(|list|, i requires 0 <= i < |list| => list[i].rr)
  }

  /** Delete what is replaced, create the new record, bump the serial, journal the delta. */
  ghost function AddressReplaced(st: Store, z: nat, rr: Rr, listed: seq<Row>): (Store, Result<Option<nat>>)
    requires z < |st.zones|
  {
    var zone := st.zones[z].id;
    var left := st.(rows := Remaining(st.rows, Replaced(st.rows, zone, rr.name, rr.rtype)));
    if Conflict(left.rows, zone, rr.name, rr.rtype, None) then (left, Refused)
    else
      var zones := Bumped(st.zones, z);
      (Created(left, zone, rr).(
         zones := zones,
         journal := st.journal + [Entry(zone, zones[z].serial, [Stored(rr)], Rrs(listed))]),
       Ok(Some(zones[z].serial)))
  }

  /** The whole repoint as a function of the store. */
  ghost function Repointed(st: Store, apex: string, fqdn: string, ip: Address, ttl: nat, listed: seq<Row>)
    : (Store, Result<Option<nat>>)
  {
    match FindZone(st.zones, apex)
    case None => (st, Ok(None))
    case Some(z) =>
      var owner, family := Normalize(fqdn), Family(ip);
      if AlreadyThere(Replaced(st.rows, st.zones[z].id, owner, family), ip.text, ttl) then (st, Ok(None))
      else AddressReplaced(st, z, Rr(owner, family, ip.text, ttl, true), listed)
  }
}
