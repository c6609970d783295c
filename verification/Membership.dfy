/** Multi-master group membership: each domain controller keeps one link per member, present or
    removed, with the stamp of the write that made it, and takes a replicated link only when its
    stamp wins.  */
module Membership {
  import opened Ordering

  /** One membership link. `dsa` is the invocation id of the controller that wrote it, as the
      string of its bytes. */
  datatype Link = Link(member: string, present: bool, version: nat, dsa: string, usn: nat, time: int)

  /** Conflict resolution: higher version, then later time, then higher originating controller. */
  predicate WinsOver(a: Link, b: Link) {
    a.version > b.version
    || (a.version == b.version && (a.time > b.time || (a.time == b.time && Less(b.dsa, a.dsa))))
  }

  predicate SameStamp(a: Link, b: Link) {
    a.version == b.version && a.time == b.time && a.dsa == b.dsa
  }

  lemma WinsTransitive(a: Link, b: Link, c: Link)
    requires WinsOver(a, b) && WinsOver(b, c)
    ensures WinsOver(a, c)
  {
    if a.version == b.version == c.version && a.time == b.time == c.time {
      LessTransitive(c.dsa, b.dsa, a.dsa);
    }
  }

  lemma WinsTotal(a: Link, b: Link)
    ensures SameStamp(a, b) || WinsOver(a, b) || WinsOver(b, a)
    ensures SameStamp(a, b) ==> !WinsOver(a, b)
    ensures WinsOver(a, b) ==> !WinsOver(b, a)
  {
    LessTotal(a.dsa, b.dsa);
    LessIrreflexive(a.dsa);
    if Less(a.dsa, b.dsa) { LessAsymmetric(a.dsa, b.dsa); }
    if Less(b.dsa, a.dsa) { LessAsymmetric(b.dsa, a.dsa); }
  }

  type Links = map<string, Link>

  /** Merge one incoming link: an unknown member is taken as it comes. */
  function Taken(cur: Links, l: Link): Links {
    if l.member !in cur || WinsOver(l, cur[l.member]) then cur[l.member := l] else cur
  }

  function Merge(cur: Links, incoming: seq<Link>): Links {
    if incoming == [] then cur
    else Taken(Merge(cur, incoming[..|incoming| - 1]), incoming[|incoming| - 1])
  }

  function NextVersion(cur: Links, member: string): nat {
    if member in cur then cur[member].version + 1 else 1
  }

  // ---- The stored table --------------------------------------------------------------------

  /** Collecting rows by member, later rows overwriting earlier ones. */
  function ByMember(rows: seq<Link>): Links {
    if rows == [] then map[]
    else ByMember(rows[..|rows| - 1])[rows[|rows| - 1].member := rows[|rows| - 1]]
  }

  ghost predicate Sorted(rows: seq<Link>) {
    forall i, j :: 0 <= i < j < |rows| ==> Less(rows[i].member, rows[j].member)
  }

  lemma {:induction false} RowAt(rows: seq<Link>, i: nat)
    requires i < |rows|
    ensures rows[i].member in ByMember(rows)
    ensures Sorted(rows) ==> ByMember(rows)[rows[i].member] == rows[i]
  {
    var init, last := rows[..|rows| - 1], rows[|rows| - 1];
    if i < |rows| - 1 {
      RowAt(init, i);
      if Sorted(rows) { LessAsymmetric(rows[i].member, last.member); }
    }
  }

  lemma {:induction false} RowOf(rows: seq<Link>, m: string) returns (i: nat)
    requires m in ByMember(rows)
    ensures i < |rows| && rows[i] == ByMember(rows)[m] && rows[i].member == m
  {
    if rows[|rows| - 1].member == m {
      i := |rows| - 1;
    } else {
      i := RowOf(rows[..|rows| - 1], m);
    }
  }

  /** The stored order is forced: two sorted tables with the same links are the same table. */
  lemma {:induction false} SortedTableIsUnique(a: seq<Link>, b: seq<Link>)
    requires Sorted(a) && Sorted(b) && ByMember(a) == ByMember(b)
    ensures a == b
  {
    if a == [] || b == [] {
      if a != [] { RowAt(a, 0); }
      if b != [] { RowAt(b, 0); }
    } else {
      SameLast(a, b);
      InitTable(a);
      InitTable(b);
      SortedTableIsUnique(a[..|a| - 1], b[..|b| - 1]);
      assert a == a[..|a| - 1] + [a[|a| - 1]] && b == b[..|b| - 1] + [b[|b| - 1]];
    }
  }

  lemma SameLast(a: seq<Link>, b: seq<Link>)
    requires Sorted(a) && Sorted(b) && ByMember(a) == ByMember(b) && a != [] && b != []
    ensures a[|a| - 1] == b[|b| - 1]
  {
    var la, lb := a[|a| - 1], b[|b| - 1];
    RowAt(a, |a| - 1);
    RowAt(b, |b| - 1);
    var i := RowOf(a, lb.member);
    var j := RowOf(b, la.member);
    if i < |a| - 1 && j < |b| - 1 {
      LessAsymmetric(lb.member, la.member);
    }
  }

  lemma LastIsNew(a: seq<Link>)
    requires Sorted(a) && a != []
    ensures a[|a| - 1].member !in ByMember(a[..|a| - 1])
  {
    var last := a[|a| - 1].member;
    if last in ByMember(a[..|a| - 1]) {
      var i := RowOf(a[..|a| - 1], last);
      LessAsymmetric(a[i].member, last);
    }
  }

  lemma InitTable(a: seq<Link>)
    requires Sorted(a) && a != []
    ensures ByMember(a[..|a| - 1]) == ByMember(a) - {a[|a| - 1].member}
  {
    LastIsNew(a);
    var init, last := ByMember(a[..|a| - 1]), a[|a| - 1];
    assert ByMember(a) == init[last.member := last];
    assert init[last.member := last] - {last.member} == init;
  }

  // ---- One edit of the stored table --------------------------------------------------------

  /** Where the stable sort puts a row: behind those that are not greater. */
  function Insert(rows: seq<Link>, l: Link): (out: seq<Link>)
    ensures |out| == |rows| + 1
  {
    if rows == [] || !Less(l.member, rows[|rows| - 1].member) then rows + [l]
    else Insert(rows[..|rows| - 1], l) + [rows[|rows| - 1]]
  }

  /** `sort_by` on the member. */
  function SortByMember(rows: seq<Link>): (out: seq<Link>)
    ensures |out| == |rows|
  {
    if rows == [] then [] else Insert(SortByMember(rows[..|rows| - 1]), rows[|rows| - 1])
  }

  ghost predicate InMemberOrder(rows: seq<Link>) {
    forall i, j :: 0 <= i < j < |rows| ==> !Less(rows[j].member, rows[i].member)
  }

  lemma {:induction false} InsertSetsLink(rows: seq<Link>, l: Link)
    ensures ByMember(Insert(rows, l)) == ByMember(rows)[l.member := l]
  {
    var out := Insert(rows, l);
    if rows == [] || !Less(l.member, rows[|rows| - 1].member) {
      assert out[..|rows|] == rows;
    } else {
      InsertSetsLink(rows[..|rows| - 1], l);
      assert out[..|out| - 1] == Insert(rows[..|rows| - 1], l);
      LessAsymmetric(l.member, rows[|rows| - 1].member);
    }
  }

  lemma {:induction false} InsertAdds(rows: seq<Link>, l: Link)
    ensures multiset(Insert(rows, l)) == multiset(rows) + multiset{l}
  {
    if rows != [] {
      SplitLast(rows);
      InsertAdds(rows[..|rows| - 1], l);
    }
  }

  /** The greatest row comes last. */
  ghost predicate AtMost(rows: seq<Link>, member: string) {
    forall i :: 0 <= i < |rows| ==> !Less(member, rows[i].member)
  }

  lemma {:induction false} InsertAtMost(rows: seq<Link>, l: Link, member: string)
    requires AtMost(rows, member) && !Less(member, l.member)
    ensures AtMost(Insert(rows, l), member)
  {
    if rows != [] && Less(l.member, rows[|rows| - 1].member) { InsertAtMost(rows[..|rows| - 1], l, member); }
  }

  lemma {:induction false} InsertKeepsOrder(rows: seq<Link>, l: Link)
    requires InMemberOrder(rows)
    ensures InMemberOrder(Insert(rows, l))
  {
    if rows != [] {
      var init, last := rows[..|rows| - 1], rows[|rows| - 1];
      if Less(l.member, last.member) {
        LessAsymmetric(l.member, last.member);
        InsertKeepsOrder(init, l);
        InsertAtMost(init, l, last.member);
      } else {
        forall i | 0 <= i < |rows| ensures !Less(l.member, rows[i].member) {
          if i < |rows| - 1 { NotLessTransitive(l.member, last.member, rows[i].member); }
        }
      }
    }
  }

  lemma NotLessTransitive(a: string, b: string, c: string)
    requires !Less(a, b) && !Less(b, c)
    ensures !Less(a, c)
  {
    LessTotal(a, b);
    LessTotal(b, c);
    if Less(a, c) {
      if Less(b, a) { LessTransitive(b, a, c); }
    }
  }

  /** The sort only changes the order, and with it no link: of several rows with one member the last stays
      the last. */
  lemma {:induction false} SortKeepsLinks(rows: seq<Link>)
    ensures InMemberOrder(SortByMember(rows)) && ByMember(SortByMember(rows)) == ByMember(rows)
    ensures multiset(SortByMember(rows)) == multiset(rows)
  {
    if rows != [] {
      SortKeepsLinks(rows[..|rows| - 1]);
      var init, last := SortByMember(rows[..|rows| - 1]), rows[|rows| - 1];
      InsertSetsLink(init, last);
      InsertAdds(init, last);
      InsertKeepsOrder(init, last);
      SplitLast(rows);
    }
  }

  /** The first row of a member, if it has one. */
  function FirstOf(rows: seq<Link>, member: string): (i: nat)
    ensures i <= |rows| && (i < |rows| ==> rows[i].member == member)
    ensures forall k :: 0 <= k < i ==> rows[k].member != member
  {
    if rows == [] || rows[0].member == member then 0 else 1 + FirstOf(rows[1..], member)
  }

  function LocalVersion(rows: seq<Link>, member: string): nat {
    var i := FirstOf(rows, member);
    if i < |rows| then rows[i].version + 1 else 1
  }

  /** The link a local edit writes over the first row of the member, or behind the others. */
  function LocalLink(rows: seq<Link>, member: string, present: bool, dsa: string, usn: nat, now: int): Link {
    Link(member, present, LocalVersion(rows, member), dsa, usn, now)
  }

  function Put(rows: seq<Link>, l: Link): seq<Link> {
    var i := FirstOf(rows, l.member);
    if i < |rows| then rows[i := l] else rows + [l]
  }

  /** The rows after a local edit. */
  function LocalRows(rows: seq<Link>, member: string, present: bool, dsa: string, usn: nat, now: int): seq<Link> {
    SortByMember(Put(rows, LocalLink(rows, member, present, dsa, usn, now)))
  }

  /** The member has at most one row. */
  ghost predicate Once(rows: seq<Link>, member: string) {
    forall i, j :: RowFor(rows, member, i) && RowFor(rows, member, j) ==> i == j
  }

  predicate RowFor(rows: seq<Link>, member: string, i: int) { 0 <= i < |rows| && rows[i].member == member }

  ghost predicate Distinct(rows: seq<Link>) {
    forall i, j :: 0 <= i < j < |rows| ==> rows[i].member != rows[j].member
  }

  lemma {:induction false} InsertedFrom(rows: seq<Link>, l: Link, i: nat)
    requires i <= |rows|
    ensures Insert(rows, l)[i] == l || Insert(rows, l)[i] in rows
  {
    if rows != [] && Less(l.member, rows[|rows| - 1].member) && i < |rows| {
      InsertedFrom(rows[..|rows| - 1], l, i);
    }
  }

  lemma {:induction false} InsertKeepsSorted(rows: seq<Link>, l: Link)
    requires Sorted(rows) && forall i :: 0 <= i < |rows| ==> rows[i].member != l.member
    ensures Sorted(Insert(rows, l))
  {
    if rows != [] {
      var init, last, out := rows[..|rows| - 1], rows[|rows| - 1], Insert(rows, l);
      LessTotal(last.member, l.member);
      if Less(l.member, last.member) {
        InsertKeepsSorted(init, l);
        forall i | 0 <= i < |init| + 1 ensures Less(out[i].member, last.member) {
          InsertedFrom(init, l, i);
          assert out[i] == Insert(init, l)[i];
          if out[i] != l {
            var k :| 0 <= k < |init| && init[k] == out[i];
            assert rows[k] == out[i];
          }
        }
      } else {
        forall i | 0 <= i < |rows| ensures Less(rows[i].member, l.member) {
          if i < |rows| - 1 { LessTransitive(rows[i].member, last.member, l.member); }
        }
      }
    }
  }

  lemma CollectOne(out: seq<Link>, m: Links, left: set<string>, k: string)
    requires Sorted(out) && ByMember(out) == m - left && k in left && k in m && m[k].member == k
    ensures Sorted(Insert(out, m[k])) && ByMember(Insert(out, m[k])) == m - (left - {k})
  {
    forall i | 0 <= i < |out| ensures out[i].member != k {
      RowAt(out, i);
    }
    InsertKeepsSorted(out, m[k]);
    InsertSetsLink(out, m[k]);
    assert (m - left)[k := m[k]] == m - (left - {k});
  }

  /** Rows with different members are sorted strictly. */
  lemma {:induction false} DistinctAreSorted(rows: seq<Link>)
    requires Distinct(rows)
    ensures Sorted(SortByMember(rows))
  {
    if rows != [] {
      var init, last := rows[..|rows| - 1], rows[|rows| - 1];
      DistinctAreSorted(init);
      SortKeepsLinks(init);
      var out := SortByMember(init);
      forall i | 0 <= i < |out| ensures out[i].member != last.member {
        assert out[i] in multiset(out);
        var k :| 0 <= k < |init| && init[k] == out[i];
      }
      InsertKeepsSorted(out, last);
    }
  }

  /** An edit keeps a strictly sorted table so. */
  lemma EditKeepsSorted(rows: seq<Link>, l: Link)
    requires Sorted(rows)
    ensures Sorted(SortByMember(Put(rows, l)))
  {
    forall i, j | 0 <= i < j < |rows| ensures rows[i].member != rows[j].member {
      LessAsymmetric(rows[i].member, rows[j].member);
    }
    assert Distinct(Put(rows, l));
    DistinctAreSorted(Put(rows, l));
  }

  lemma {:induction false} ReplacedRow(rows: seq<Link>, i: nat, l: Link)
    requires i < |rows| && rows[i].member == l.member
    ensures ByMember(rows[i := l]) ==
      if forall j :: i < j < |rows| ==> rows[j].member != l.member then ByMember(rows)[l.member := l]
      else ByMember(rows)
  {
    var init, last, out := rows[..|rows| - 1], rows[|rows| - 1], rows[i := l];
    if i < |rows| - 1 {
      ReplacedRow(init, i, l);
      assert out[..|out| - 1] == init[i := l];
      if last.member == l.member {
        assert rows[|rows| - 1].member == l.member;
      } else {
        assert (forall j :: i < j < |rows| ==> rows[j].member != l.member)
          <==> (forall j :: i < j < |init| ==> init[j].member != l.member);
      }
    } else {
      assert out[..|out| - 1] == init;
    }
  }

  lemma {:induction false} LastRowOf(rows: seq<Link>, i: nat)
    requires i < |rows| && forall j :: i < j < |rows| ==> rows[j].member != rows[i].member
    ensures rows[i].member in ByMember(rows) && ByMember(rows)[rows[i].member] == rows[i]
  {
    if i < |rows| - 1 {
      LastRowOf(rows[..|rows| - 1], i);
    }
  }

  lemma EditSetsLink(rows: seq<Link>, l: Link)
    requires Once(rows, l.member)
    ensures ByMember(Put(rows, l)) == ByMember(rows)[l.member := l]
  {
    var i := FirstOf(rows, l.member);
    if i < |rows| {
      assert RowFor(rows, l.member, i);
      forall j | i < j < |rows| ensures rows[j].member != l.member {
        assert RowFor(rows, l.member, j) ==> i == j;
      }
      ReplacedRow(rows, i, l);
    } else {
      assert Put(rows, l)[..|rows|] == rows;
    }
  }

  lemma EditIsHidden(rows: seq<Link>, l: Link)
    requires !Once(rows, l.member)
    ensures ByMember(Put(rows, l)) == ByMember(rows) && l.member in ByMember(rows)
  {
    var i := FirstOf(rows, l.member);
    var j, k :| RowFor(rows, l.member, j) && RowFor(rows, l.member, k) && j < k;
    assert i <= j;
    ReplacedRow(rows, i, l);
    RowAt(rows, k);
  }

  /** An edit under a new stamp sets its member's link, and nothing else, exactly when the member has at
      most one row: otherwise a later row hides it, and no link changes. */
  lemma EditSetsLinkIff(rows: seq<Link>, l: Link)
    requires l !in rows
    ensures var table := ByMember(SortByMember(Put(rows, l)));
      (table == ByMember(rows)[l.member := l] <==> Once(rows, l.member))
      && (!Once(rows, l.member) ==> table == ByMember(rows))
  {
    SortKeepsLinks(Put(rows, l));
    if Once(rows, l.member) {
      EditSetsLink(rows, l);
    } else {
      EditIsHidden(rows, l);
      var q := RowOf(rows, l.member);
      assert ByMember(rows)[l.member] != l;
    }
  }

  lemma NextVersionIsFirst(rows: seq<Link>, member: string)
    requires Once(rows, member)
    ensures NextVersion(ByMember(rows), member) == LocalVersion(rows, member)
  {
    var i := FirstOf(rows, member);
    if i < |rows| {
      assert RowFor(rows, member, i);
      forall j | i < j < |rows| ensures rows[j].member != member {
        assert RowFor(rows, member, j) ==> i == j;
      }
      LastRowOf(rows, i);
    } else if member in ByMember(rows) {
      var k := RowOf(rows, member);
      assert false;
    }
  }

  datatype ObjectStamp = ObjectStamp(version: nat, time: int, dsa: string, usn: nat, localUsn: nat)

  predicate ObjectWins(a: ObjectStamp, b: ObjectStamp) {
    a.version > b.version
    || (a.version == b.version && (a.time > b.time || (a.time == b.time && Less(b.dsa, a.dsa))))
  }

  datatype Outcome = Done | NotFound

  /** One controller's stored copy of one group. */
  class GroupStore {
    const dsa: string
    var exists_: bool
    var rows: seq<Link>
    var stamp: Option<ObjectStamp>
    var usn: nat

    ghost predicate Valid()
      reads this
    {
      !exists_ ==> rows == []
    }

    ghost function Table(): Links
      reads this
    {
      ByMember(rows)
    }

    constructor (dsa: string)
      ensures Valid() && !exists_ && rows == [] && stamp.None? && usn == 0 && this.dsa == dsa
    {
      this.dsa := dsa;
      exists_, rows, stamp, usn := false, [], None, 0;
    }

    /** The links become the winners of stored and incoming, in the stored order, and the
        object's own stamp never regresses. */
    method ApplyReplicatedGroup(incoming: seq<Link>, remote: ObjectStamp)
      requires Valid()
      modifies this
      ensures Valid() && exists_ && Sorted(rows)
      ensures Table() == Merge(old(Table()), incoming)
      ensures stamp.Some? && (old(stamp).Some? ==> stamp == old(stamp) || ObjectWins(stamp.value, old(stamp).value))
      ensures old(stamp).None? || ObjectWins(remote, old(stamp).value) ==>
                stamp == Some(remote.(localUsn := usn)) && usn == old(usn) + 1
    {
      var byMember := ByMember(rows);
      forall m <- byMember ensures byMember[m].member == m {
        var _ := RowOf(rows, m);
      }
      ghost var before := byMember;
      for i := 0 to |incoming|
        invariant byMember == Merge(before, incoming[..i])
        invariant forall m <- byMember :: byMember[m].member == m
      {
        assert incoming[..i + 1][..i] == incoming[..i];
        var inc := incoming[i];
        var take := true;
        if inc.member in byMember {
          take := WinsOver(inc, byMember[inc.member]);
        }
        if take {
          byMember := byMember[inc.member := inc];
        }
      }
      assert incoming[..|incoming|] == incoming;
      rows := InOrder(byMember);
      exists_ := true;
      if stamp.None? || ObjectWins(remote, stamp.value) {
        usn := usn + 1;
        stamp := Some(remote.(localUsn := usn));
      }
    }

    method InOrder(m: Links) returns (out: seq<Link>)
      requires forall k <- m :: m[k].member == k
      ensures Sorted(out) && ByMember(out) == m
    {
      out := [];
      var left := m.Keys;
      while left != {}
        invariant left <= m.Keys
        invariant Sorted(out) && ByMember(out) == m - left
        decreases left
      {
        var k :| k in left;
        CollectOne(out, m, left, k);
        out := Insert(out, m[k]);
        left := left - {k};
      }
      assert m - {} == m;
    }

    /** A local edit writes one link over the first row of its member, or a new row, and sorts. Where the
        member has at most one row that sets its link, with the next version and this controller as
        originator, and leaves every other link alone. The object's stamp, once it exists, stays. */
    method SetGroupMemberLocal(member: string, present: bool, now: int) returns (r: Outcome)
      requires Valid()
      modifies this
      ensures Valid() && exists_ == old(exists_) && (Sorted(old(rows)) ==> Sorted(rows))
      ensures r == if old(exists_) then Done else NotFound
      ensures r.NotFound? ==> rows == old(rows) && usn == old(usn) && stamp == old(stamp)
      ensures r.Done? ==> usn == old(usn) + 1
      ensures r.Done? ==> rows == LocalRows(old(rows), member, present, dsa, usn, now) && InMemberOrder(rows)
      ensures r.Done? && Once(old(rows), member) ==>
        Table() == old(Table())[member := Link(member, present, NextVersion(old(Table()), member), dsa, usn, now)]
      ensures old(stamp).Some? ==> stamp == old(stamp)
    {
      if !exists_ {
        return NotFound;
      }
      usn := usn + 1;
      EditedTable(rows, member, present, dsa, usn, now);
      WriteLink(member, present, now);
      if stamp.None? {
        stamp := Some(ObjectStamp(1, now, dsa, usn, usn));
      }
      r := Done;
    }

    method WriteLink(member: string, present: bool, now: int)
      modifies this`rows
      ensures rows == LocalRows(old(rows), member, present, dsa, usn, now)
    {
      var i := FindFirst(member);
      var version := if i < |rows| then rows[i].version + 1 else 1;
      var link := Link(member, present, version, dsa, usn, now);
      rows := if i < |rows| then rows[i := link] else rows + [link];
      rows := SortByMember(rows);
    }

    method FindFirst(member: string) returns (i: nat)
      ensures i == FirstOf(rows, member)
    {
      i := 0;
      while i < |rows| && rows[i].member != member
        invariant i <= |rows| && forall k :: 0 <= k < i ==> rows[k].member != member
      {
        i := i + 1;
      }
    }

    /** Writing the group anew stores one row per listed member, in the order of the list. */
    method UpsertGroup(members: seq<string>, now: int)
      modifies this
      ensures Valid() && exists_ && usn == old(usn) + |members| && stamp == old(stamp)
      ensures rows == NewRows(members, dsa, old(usn), now)
    {
      var links: seq<Link> := [];
      for k := 0 to |members|
        invariant links == NewRows(members[..k], dsa, old(usn), now)
        invariant usn == old(usn) + k && exists_ == old(exists_) && stamp == old(stamp) && rows == old(rows)
      {
        assert members[..k + 1][..k] == members[..k];
        usn := usn + 1;
        links := links + [Link(members[k], true, 1, dsa, usn, now)];
      }
      assert members[..|members|] == members;
      rows := links;
      exists_ := true;
    }
  }

  function NewRows(members: seq<string>, dsa: string, usn: nat, now: int): seq<Link> {
    if members == [] then []
    else NewRows(members[..|members| - 1], dsa, usn, now)
         + [Link(members[|members| - 1], true, 1, dsa, usn + |members|, now)]
  }

  lemma EditedTable(rows: seq<Link>, member: string, present: bool, dsa: string, usn: nat, now: int)
    ensures InMemberOrder(LocalRows(rows, member, present, dsa, usn, now))
    ensures Sorted(rows) ==> Sorted(LocalRows(rows, member, present, dsa, usn, now))
    ensures Once(rows, member) ==>
      ByMember(LocalRows(rows, member, present, dsa, usn, now))
      == ByMember(rows)[member := Link(member, present, NextVersion(ByMember(rows), member), dsa, usn, now)]
  {
    var l := LocalLink(rows, member, present, dsa, usn, now);
    SortKeepsLinks(Put(rows, l));
    if Sorted(rows) { EditKeepsSorted(rows, l); }
    if Once(rows, member) {
      NextVersionIsFirst(rows, member);
      EditSetsLink(rows, l);
    }
  }

  // ---- Many controllers --------------------------------------------------------------------

  /** `seen` is every link this controller has written or been sent. */
  datatype Node = Node(links: Links, usn: nat, seen: set<Link>)

  /** `writes` is every link any controller ever wrote: replication may deliver any of them, in
      any order and any number of times. */
  datatype State = State(nodes: map<string, Node>, writes: set<Link>)

  datatype Step =
    | Edit(dsa: string, member: string, present: bool, time: int)
    | Deliver(dsa: string, links: seq<Link>)

  function Written(s: State, dsa: string, member: string, present: bool, time: int): Link
    requires dsa in s.nodes
  {
    var n := s.nodes[dsa];
    Link(member, present, NextVersion(n.links, member), dsa, n.usn + 1, time)
  }

  predicate Enabled(s: State, step: Step) {
    match step
    case Edit(dsa, _, _, _) => dsa in s.nodes
    case Deliver(dsa, links) => dsa in s.nodes && forall l <- links :: l in s.writes
  }

  function Next(s: State, step: Step): State
    requires Enabled(s, step)
  {
    match step
    case Edit(dsa, member, present, time) =>
      var n, l := s.nodes[dsa], Written(s, dsa, member, present, time);
      State(s.nodes[dsa := Node(n.links[member := l], n.usn + 1, n.seen + {l})], s.writes + {l})
    case Deliver(dsa, links) =>
      var n := s.nodes[dsa];
      s.(nodes := s.nodes[dsa := Node(Merge(n.links, links), n.usn, n.seen + set l | l in links)])
  }

  ghost predicate Init(s: State) {
    s.writes == {} && forall d <- s.nodes :: s.nodes[d] == Node(map[], 0, {})
  }

  ghost predicate IsRun(run: seq<State>, steps: seq<Step>) {
    |run| == |steps| + 1 && Init(run[0])
    && forall i {:trigger StepAt(run, steps, i)} :: 0 <= i < |steps| ==> StepAt(run, steps, i)
  }

  ghost predicate StepAt(run: seq<State>, steps: seq<Step>, i: nat)
    requires i < |steps| < |run|
  {
    Enabled(run[i], steps[i]) && run[i + 1] == Next(run[i], steps[i])
  }

  /** A controller's links are the winners among everything it has seen. */
  ghost predicate Winners(links: Links, seen: set<Link>) {
    && (forall m <- links :: links[m].member == m && links[m] in seen)
    && (forall l <- seen :: l.member in links && (links[l.member] == l || WinsOver(links[l.member], l)))
  }

  ghost predicate StampsUnique(ls: set<Link>) {
    forall a, b {:trigger SameStamp(a, b)} :: a in ls && b in ls && a.member == b.member && SameStamp(a, b) ==> a == b
  }

  /** A controller still holds, for every write of its own, at least that version. */
  ghost predicate OriginatorsAhead(s: State) {
    forall w {:trigger Ahead(s, w)} :: w in s.writes ==> Ahead(s, w)
  }

  ghost predicate Ahead(s: State, w: Link) {
    w.dsa in s.nodes && w.member in s.nodes[w.dsa].links && s.nodes[w.dsa].links[w.member].version >= w.version
  }

  ghost predicate Consistent(s: State) {
    && (forall d <- s.nodes :: Winners(s.nodes[d].links, s.nodes[d].seen) && s.nodes[d].seen <= s.writes)
    && StampsUnique(s.writes)
    && OriginatorsAhead(s)
  }

  /** A link moves forward: it stays, or the new one wins over it. */
  predicate Forward(was: Link, now: Link) {
    now == was || WinsOver(now, was)
  }

  lemma ForwardTransitive(a: Link, b: Link, c: Link)
    requires Forward(a, b) && Forward(b, c)
    ensures Forward(a, c)
  {
    if a != b && b != c { WinsTransitive(c, b, a); }
  }

  lemma TakenKeepsWinners(cur: Links, seen: set<Link>, l: Link)
    requires Winners(cur, seen) && StampsUnique(seen + {l})
    ensures Winners(Taken(cur, l), seen + {l})
    ensures forall m <- cur :: m in Taken(cur, l) && Forward(cur[m], Taken(cur, l)[m])
  {
    if l.member in cur {
      WinsTotal(l, cur[l.member]);
      if WinsOver(l, cur[l.member]) {
        forall k <- seen | k.member == l.member && k != cur[l.member] ensures WinsOver(l, k) {
          WinsTransitive(l, cur[l.member], k);
        }
      }
    }
  }

  lemma {:induction false} MergeKeepsWinners(cur: Links, seen: set<Link>, incoming: seq<Link>)
    requires Winners(cur, seen) && StampsUnique(seen + set l | l in incoming)
    ensures Winners(Merge(cur, incoming), seen + set l | l in incoming)
    ensures forall m <- cur :: m in Merge(cur, incoming) && Forward(cur[m], Merge(cur, incoming)[m])
  {
    if incoming == [] {
      assert seen + (set l | l in incoming) == seen;
    } else {
      var init, last := incoming[..|incoming| - 1], incoming[|incoming| - 1];
      assert incoming == init + [last];
      var part := seen + set l | l in init;
      assert part + {last} == seen + set l | l in incoming;
      MergeKeepsWinners(cur, seen, init);
      var mid := Merge(cur, init);
      TakenKeepsWinners(mid, part, last);
      forall m <- cur ensures Forward(cur[m], Taken(mid, last)[m]) {
        ForwardTransitive(cur[m], mid[m], Taken(mid, last)[m]);
      }
    }
  }

  lemma EditKeepsWinners(links: Links, seen: set<Link>, l: Link)
    requires Winners(links, seen) && l.version == NextVersion(links, l.member)
    ensures Winners(links[l.member := l], seen + {l})
  {
    forall k <- seen | k.member == l.member ensures WinsOver(l, k) {
    }
  }

  lemma EditStampIsNew(s: State, dsa: string, l: Link)
    requires StampsUnique(s.writes) && OriginatorsAhead(s) && dsa in s.nodes && l.dsa == dsa
    requires l.version == NextVersion(s.nodes[dsa].links, l.member)
    ensures StampsUnique(s.writes + {l})
  {
    forall w <- s.writes | w.member == l.member ensures !SameStamp(w, l) && !SameStamp(l, w) {
      assert Ahead(s, w);
    }
  }

  lemma EditIsConsistent(s: State, step: Step)
    requires Consistent(s) && step.Edit? && Enabled(s, step)
    ensures Consistent(Next(s, step))
  {
    var n, l, t := s.nodes[step.dsa], Written(s, step.dsa, step.member, step.present, step.time), Next(s, step);
    EditKeepsWinners(n.links, n.seen, l);
    EditStampIsNew(s, step.dsa, l);
    forall d <- t.nodes ensures Winners(t.nodes[d].links, t.nodes[d].seen) && t.nodes[d].seen <= t.writes {
      assert d in s.nodes;
    }
    forall w <- t.writes ensures Ahead(t, w) {
      assert w != l ==> Ahead(s, w);
    }
  }

  lemma DeliveryIsConsistent(s: State, step: Step)
    requires Consistent(s) && step.Deliver? && Enabled(s, step)
    ensures Consistent(Next(s, step))
  {
    var n, t := s.nodes[step.dsa], Next(s, step);
    MergeKeepsWinners(n.links, n.seen, step.links);
    forall d <- t.nodes ensures Winners(t.nodes[d].links, t.nodes[d].seen) && t.nodes[d].seen <= t.writes {
      assert d in s.nodes;
    }
    forall w <- t.writes ensures Ahead(t, w) {
      assert Ahead(s, w);
      if w.dsa == step.dsa {
        assert Forward(n.links[w.member], t.nodes[w.dsa].links[w.member]);
      }
    }
  }

  lemma {:induction false} RunIsConsistent(run: seq<State>, steps: seq<Step>, i: nat)
    requires IsRun(run, steps) && i < |run|
    ensures Consistent(run[i])
  {
    if i > 0 {
      RunIsConsistent(run, steps, i - 1);
      assert StepAt(run, steps, i - 1);
      if steps[i - 1].Edit? {
        EditIsConsistent(run[i - 1], steps[i - 1]);
      } else {
        DeliveryIsConsistent(run[i - 1], steps[i - 1]);
      }
    }
  }

  /** No two different writes to a link ever carry the same stamp. */
  lemma WritesNeverShareAStamp(run: seq<State>, steps: seq<Step>, i: nat, a: Link, b: Link)
    requires IsRun(run, steps) && i < |run| && a in run[i].writes && b in run[i].writes
    requires a.member == b.member && a != b
    ensures !SameStamp(a, b)
  {
    RunIsConsistent(run, steps, i);
  }

  /** Along every run a stored link is only ever replaced by one that wins over it. So versions
      never fall, and an add that lost to a removal never resurrects the member. */
  lemma {:induction false} LinksOnlyMoveForward(run: seq<State>, steps: seq<Step>, i: nat, j: nat, d: string, m: string)
    requires IsRun(run, steps) && i <= j < |run| && d in run[i].nodes && m in run[i].nodes[d].links
    ensures d in run[j].nodes && m in run[j].nodes[d].links
    ensures var was, now := run[i].nodes[d].links[m], run[j].nodes[d].links[m];
      Forward(was, now) && now.version >= was.version
    decreases j - i
  {
    if i < j {
      LinksOnlyMoveForward(run, steps, i, j - 1, d, m);
      NextMovesForward(run, steps, j - 1, d, m);
      ForwardTransitive(run[i].nodes[d].links[m], run[j - 1].nodes[d].links[m], run[j].nodes[d].links[m]);
    }
  }

  lemma NextMovesForward(run: seq<State>, steps: seq<Step>, i: nat, d: string, m: string)
    requires IsRun(run, steps) && i < |steps| && d in run[i].nodes && m in run[i].nodes[d].links
    ensures d in run[i + 1].nodes && m in run[i + 1].nodes[d].links
    ensures Forward(run[i].nodes[d].links[m], run[i + 1].nodes[d].links[m])
  {
    RunIsConsistent(run, steps, i);
    assert StepAt(run, steps, i);
    StepMovesForward(run[i], steps[i], d, m);
  }

  lemma StepMovesForward(s: State, step: Step, d: string, m: string)
    requires Consistent(s) && Enabled(s, step) && d in s.nodes && m in s.nodes[d].links
    ensures d in Next(s, step).nodes && m in Next(s, step).nodes[d].links
    ensures Forward(s.nodes[d].links[m], Next(s, step).nodes[d].links[m])
  {
    if step.Deliver? && step.dsa == d {
      MergeKeepsWinners(s.nodes[d].links, s.nodes[d].seen, step.links);
    }
  }

  lemma WinnersAreUnique(a: Links, b: Links, seen: set<Link>)
    requires Winners(a, seen) && Winners(b, seen)
    ensures a == b
  {
    forall m <- a ensures m in b && a[m] == b[m] {
      WinsTotal(a[m], b[m]);
    }
    forall m <- b ensures m in a {
    }
  }

  /** Strong convergence: two controllers that have seen the same links hold the same links,
      whatever the order and the repetitions in which they saw them. */
  lemma SameSeenSameLinks(run: seq<State>, steps: seq<Step>, i: nat, a: string, b: string)
    requires IsRun(run, steps) && i < |run| && a in run[i].nodes && b in run[i].nodes
    requires run[i].nodes[a].seen == run[i].nodes[b].seen
    ensures run[i].nodes[a].links == run[i].nodes[b].links
  {
    RunIsConsistent(run, steps, i);
    WinnersAreUnique(run[i].nodes[a].links, run[i].nodes[b].links, run[i].nodes[a].seen);
  }

  // ---- A full exchange ---------------------------------------------------------------------

  /** `xs` is a controller's whole link table, in some order. */
  ghost predicate Enumerates(xs: seq<Link>, links: Links) {
    forall l :: l in xs <==> l in links.Values
  }

  lemma ExchangeIsUnion(a: Links, seenA: set<Link>, b: Links, seenB: set<Link>, xs: seq<Link>)
    requires Winners(a, seenA) && Winners(b, seenB) && StampsUnique(seenA + seenB) && Enumerates(xs, b)
    ensures Winners(Merge(a, xs), seenA + seenB)
  {
    var got := set l | l in xs;
    forall l <- got ensures l in seenB {
      assert l in b.Values;
      var m :| m in b && b[m] == l;
    }
    MergeKeepsWinners(a, seenA, xs);
    var out := Merge(a, xs);
    forall l <- seenB ensures l.member in out && (out[l.member] == l || WinsOver(out[l.member], l)) {
      var w := b[l.member];
      assert w in b.Values && w in got;
      if out[l.member] != w && w != l { WinsTransitive(out[l.member], w, l); }
    }
  }

  /** Once edits stop, each of two controllers sending the other its whole table leaves both
      with identical links, sent at the same time or one after the other. */
  lemma FullExchangeConverges(
    run: seq<State>, steps: seq<Step>, i: nat, a: string, b: string, xs: seq<Link>, ys: seq<Link>, ys': seq<Link>)
    requires IsRun(run, steps) && i < |run| && a in run[i].nodes && b in run[i].nodes
    requires Enumerates(xs, run[i].nodes[a].links) && Enumerates(ys, run[i].nodes[b].links)
    requires Enumerates(ys', Merge(run[i].nodes[b].links, xs))
    ensures var la, lb := run[i].nodes[a].links, run[i].nodes[b].links;
      Merge(la, ys) == Merge(lb, xs) == Merge(la, ys')
  {
    RunIsConsistent(run, steps, i);
    var na, nb := run[i].nodes[a], run[i].nodes[b];
    var all := na.seen + nb.seen;
    assert nb.seen + na.seen == all && na.seen + all == all;
    ExchangeIsUnion(na.links, na.seen, nb.links, nb.seen, ys);
    ExchangeIsUnion(nb.links, nb.seen, na.links, na.seen, xs);
    WinnersAreUnique(Merge(na.links, ys), Merge(nb.links, xs), all);
    ExchangeIsUnion(na.links, na.seen, Merge(nb.links, xs), all, ys');
    WinnersAreUnique(Merge(na.links, ys'), Merge(nb.links, xs), all);
  }

  // ---- Re-creating a group -----------------------------------------------------------------

  /** The links `upsert_ad_group` writes: every listed member present at version 1. */
  function Recreated(members: seq<string>, dsa: string, usn: nat, now: int): Links {
    if members == [] then map[]
    else
      var m := members[|members| - 1];
      Recreated(members[..|members| - 1], dsa, usn, now)[m := Link(m, true, 1, dsa, usn + |members|, now)]
  }

  /** The links of the rows it stores. */
  lemma {:induction false} RecreatedAreStored(members: seq<string>, dsa: string, usn: nat, now: int)
    ensures ByMember(NewRows(members, dsa, usn, now)) == Recreated(members, dsa, usn, now)
  {
    if members != [] {
      RecreatedAreStored(members[..|members| - 1], dsa, usn, now);
      var rows := NewRows(members, dsa, usn, now);
      assert rows[..|rows| - 1] == NewRows(members[..|members| - 1], dsa, usn, now);
    }
  }

  lemma {:induction false} RecreatedHolds(members: seq<string>, dsa: string, usn: nat, now: int)
    ensures forall m :: m in Recreated(members, dsa, usn, now) <==> m in members
    ensures forall m <- Recreated(members, dsa, usn, now) ::
      Recreated(members, dsa, usn, now)[m].version == 1 && Recreated(members, dsa, usn, now)[m].present
  {
    if members != [] {
      RecreatedHolds(members[..|members| - 1], dsa, usn, now);
      assert members == members[..|members| - 1] + [members[|members| - 1]];
    }
  }

  /** Writing a group over an existing one keeps every stored version exactly when each stored
      link is still listed and was never edited: otherwise a tombstone or a later version is lost. */
  lemma RecreationKeepsVersionsIff(links: Links, members: seq<string>, dsa: string, usn: nat, now: int)
    ensures (forall m <- links :: m in Recreated(members, dsa, usn, now)
               && Recreated(members, dsa, usn, now)[m].version >= links[m].version)
      <==> (forall m <- links :: m in members && links[m].version <= 1)
  {
    RecreatedHolds(members, dsa, usn, now);
  }

  /** A member removed at version 2 is forgotten by a group written without it, and a group written with
      it is overruled by the first peer that still has the removal. */
  lemma RecreationForgets(gone: Link, dsa: string, usn: nat, now: int)
    requires gone == Link("m", false, 2, "d", 7, 0)
    ensures "m" !in Recreated([], dsa, usn, now)
    ensures var again := Recreated(["m"], dsa, usn, now);
      "m" in again && again["m"].present && again["m"].version == 1 && Merge(again, [gone]) == map["m" := gone]
  {
    assert ["m"][..0] == [];
    assert Recreated(["m"], dsa, usn, now) == map["m" := Link("m", true, 1, dsa, usn + 1, now)];
    assert [gone][..0] == [];
  }

  /** A group written with a member listed twice, which only a direct caller can do, keeps it: its removal
      changes no link. */
  lemma RemovalIsHidden(dsa: string, now: int, later: int)
    ensures var rows := NewRows(["m", "m"], dsa, 0, now);
      var out := LocalRows(rows, "m", false, dsa, 3, later);
      ByMember(out) == ByMember(rows) && "m" in ByMember(out) && ByMember(out)["m"].present
  {
    var one, two := Link("m", true, 1, dsa, 1, now), Link("m", true, 1, dsa, 2, now);
    var rows := NewRows(["m", "m"], dsa, 0, now);
    assert ["m", "m"][..1] == ["m"] && ["m"][..0] == [];
    assert NewRows(["m"], dsa, 0, now) == [one];
    assert rows == [one, two];
    assert RowFor(rows, "m", 0) && RowFor(rows, "m", 1);
    EditSetsLinkIff(rows, LocalLink(rows, "m", false, dsa, 3, later));
    LastRowOf(rows, 1);
  }
}
