/** The text form of feed cursors, and the lease feed driven by one. */
module FeedCursors {
  import opened Ordering
  import opened Text
  import opened Feeds

  // ---- One query with a text cursor --------------------------------------------------------

  /** A page and the cursor to ask with next: its last row's key, or the same again. */
  function Query(table: seq<Row>, cursor: string, arity: nat, sep: char, limit: nat): (seq<Row>, string) {
    var page := Page(table, SplitN(cursor, arity, sep), limit);
    (page, if page == [] then cursor else Print(page[|page| - 1].key, sep))
  }

  lemma PageIsPast(table: seq<Row>, cursor: Key, arity: nat, limit: nat)
    requires Keyed(table, arity)
    ensures forall r <- Page(table, cursor, limit) :: r in table && KeyLess(cursor, r.key)
  {
    NewerHolds(table, cursor, arity);
    SortLists(Newer(table, cursor), arity);
    var rows := Sort(Newer(table, cursor));
    forall r <- Page(table, cursor, limit) ensures r in table && KeyLess(cursor, r.key) {
      assert r in rows;
    }
  }

  // ---- The lease feed ----------------------------------------------------------------------

  /** Leases are ordered by update time, pool and address. */
  const LEASE_COLUMNS := 3

  function LeaseFeed(table: seq<Row>, cursor: string, limit: nat): (seq<Row>, string) {
    Query(table, cursor, LEASE_COLUMNS, '|', limit)
  }

  ghost predicate LeaseRun(table: seq<Row>, limit: nat, cursors: seq<string>, pages: seq<seq<Row>>) {
    && |cursors| == |pages| + 1
    && forall i {:trigger ServedAt(table, limit, cursors, pages, i)} :: 0 <= i < |pages| ==>
         ServedAt(table, limit, cursors, pages, i)
  }

  ghost predicate ServedAt(table: seq<Row>, limit: nat, cursors: seq<string>, pages: seq<seq<Row>>, i: nat)
    requires i < |pages| < |cursors|
  {
    (pages[i], cursors[i + 1]) == LeaseFeed(table, cursors[i], limit)
  }

  /** A lease cursor as the key the next query starts after. */
  function CursorKey(cursor: string): Key { SplitN(cursor, LEASE_COLUMNS, '|') }

  /** What is left of a key once it was printed and read. */
  function ReadBack(k: Key): Key { SplitN(Print(k, '|'), |k|, '|') }

  /** A key that is not plain reads back strictly smaller: its column is cut at its first bar. */
  lemma ReadBackIsNoLater(k: Key)
    requires k != []
    ensures PlainParts(k, '|') ==> ReadBack(k) == k
    ensures !PlainParts(k, '|') ==> KeyLess(ReadBack(k), k)
  {
    PrintedIsNoLater(k, '|');
  }

  /** The same for any separator. */
  lemma {:induction false} PrintedIsNoLater(k: Key, sep: char)
    requires k != []
    ensures PlainParts(k, sep) ==> SplitN(Print(k, sep), |k|, sep) == k
    ensures !PlainParts(k, sep) ==> KeyLess(SplitN(Print(k, sep), |k|, sep), k)
  {
    PrintedReadsBackIff(k, sep);
    if !PlainParts(k, sep) {
      var rest := Print(k[1..], sep);
      if sep in k[0] {
        CutInside(k[0], rest, sep);
      } else {
        CutJoined(k[0], rest, sep);
        PrintedIsNoLater(k[1..], sep);
      }
    }
  }

  lemma {:induction false} CutInside(a: string, b: string, sep: char)
    requires sep in a
    ensures Cut(a + [sep] + b, sep).1.Some? && Less(Cut(a + [sep] + b, sep).0, a)
  {
    var s := a + [sep] + b;
    if a[0] != sep {
      CutInside(a[1..], b, sep);
      assert s[1..] == a[1..] + [sep] + b;
    }
  }

  /** One query of a run, in terms of keys. */
  lemma LeaseStep(table: seq<Row>, limit: nat, cursors: seq<string>, pages: seq<seq<Row>>, i: nat)
    requires Keyed(table, LEASE_COLUMNS) && LeaseRun(table, limit, cursors, pages) && i < |pages|
    ensures pages[i] == Page(table, CursorKey(cursors[i]), limit)
    ensures pages[i] == [] ==> cursors[i + 1] == cursors[i]
    ensures pages[i] != [] ==>
      var last := pages[i][|pages[i]| - 1];
      last in table && |last.key| == LEASE_COLUMNS && CursorKey(cursors[i + 1]) == ReadBack(last.key)
  {
    assert ServedAt(table, limit, cursors, pages, i);
    PageIsPast(table, CursorKey(cursors[i]), LEASE_COLUMNS, limit);
  }

  /** The leases a full sync can serve, in the order in which it should. */
  function Listing(table: seq<Row>): seq<Row> { Sort(Newer(table, ["", "", ""])) }

  lemma ListingHolds(table: seq<Row>)
    requires Keyed(table, LEASE_COLUMNS)
    ensures Increasing(Listing(table)) && forall x :: x in Listing(table) <==> x in table && x.key != ["", "", ""]
    ensures CursorKey("") == ["", "", ""]
  {
    EmptyParts(LEASE_COLUMNS, '|');
    assert seq(LEASE_COLUMNS, _ => "") == ["", "", ""];
    EverythingIsPastTheStart(table, LEASE_COLUMNS);
  }

  /** The `i`th page is the `i`th stretch of the listing. */
  ghost predicate InOrderAt(all: seq<Row>, limit: nat, pages: seq<seq<Row>>, i: nat)
    requires i < |pages|
  {
    Served(i, limit, |all|) <= Served(i + 1, limit, |all|)
    && pages[i] == all[Served(i, limit, |all|)..Served(i + 1, limit, |all|)]
  }

  /** The row that should end the `i`th page, if there is one, is plain. */
  ghost predicate PlainEnd(all: seq<Row>, limit: nat, i: nat) {
    0 < Served(i + 1, limit, |all|) && Served(i, limit, |all|) < |all| ==>
      PlainParts(all[Served(i + 1, limit, |all|) - 1].key, '|')
  }

  /** As long as pages end in plain rows, the cursor marks what has been served. */
  lemma {:induction false} OrderWhilePlain(table: seq<Row>, limit: nat, cursors: seq<string>, pages: seq<seq<Row>>,
                                           i: nat)
    requires Keyed(table, LEASE_COLUMNS) && LeaseRun(table, limit, cursors, pages)
    requires limit > 0 && cursors[0] == "" && i <= |pages|
    requires forall j {:trigger PlainEnd(Listing(table), limit, j)} :: 0 <= j < i ==> PlainEnd(Listing(table), limit, j)
    ensures var all := Listing(table);
      CursorKey(cursors[i]) == Mark(["", "", ""], all, Served(i, limit, |all|))
      && (i < |pages| ==> InOrderAt(all, limit, pages, i))
  {
    var all := Listing(table);
    ListingHolds(table);
    if i > 0 {
      OrderWhilePlain(table, limit, cursors, pages, i - 1);
      MarkMovesOn(table, limit, cursors, pages, all, i - 1);
    }
    if i < |pages| { StretchServed(table, limit, cursors, pages, all, i); }
  }

  lemma StretchServed(table: seq<Row>, limit: nat, cursors: seq<string>, pages: seq<seq<Row>>, all: seq<Row>, i: nat)
    requires Keyed(table, LEASE_COLUMNS) && LeaseRun(table, limit, cursors, pages) && i < |pages|
    requires all == Listing(table) && CursorKey(cursors[i]) == Mark(["", "", ""], all, Served(i, limit, |all|))
    ensures InOrderAt(all, limit, pages, i)
  {
    LeaseStep(table, limit, cursors, pages, i);
    ServedNext(i, limit, |all|);
    var k, upto := Served(i, limit, |all|), Served(i + 1, limit, |all|);
    PageFrom(table, ["", "", ""], LEASE_COLUMNS, limit, all, k, upto);
  }

  lemma MarkMovesOn(table: seq<Row>, limit: nat, cursors: seq<string>, pages: seq<seq<Row>>, all: seq<Row>, i: nat)
    requires Keyed(table, LEASE_COLUMNS) && LeaseRun(table, limit, cursors, pages) && i < |pages| && limit > 0
    requires all == Listing(table) && CursorKey(cursors[i]) == Mark(["", "", ""], all, Served(i, limit, |all|))
    requires PlainEnd(all, limit, i)
    ensures CursorKey(cursors[i + 1]) == Mark(["", "", ""], all, Served(i + 1, limit, |all|))
  {
    StretchServed(table, limit, cursors, pages, all, i);
    ServedNext(i, limit, |all|);
    EndOfStretch(table, limit, cursors, pages, all, i);
    var upto := Served(i + 1, limit, |all|);
    if Served(i, limit, |all|) < upto { ReadBackIsNoLater(all[upto - 1].key); }
  }

  /** Where the cursor stands after a page that is a stretch of the listing. */
  lemma EndOfStretch(table: seq<Row>, limit: nat, cursors: seq<string>, pages: seq<seq<Row>>, all: seq<Row>, i: nat)
    requires Keyed(table, LEASE_COLUMNS) && LeaseRun(table, limit, cursors, pages) && i < |pages|
    requires InOrderAt(all, limit, pages, i)
    ensures var k, upto := Served(i, limit, |all|), Served(i + 1, limit, |all|);
      if k == upto then cursors[i + 1] == cursors[i]
      else |all[upto - 1].key| == LEASE_COLUMNS && CursorKey(cursors[i + 1]) == ReadBack(all[upto - 1].key)
  {
    LeaseStep(table, limit, cursors, pages, i);
  }

  /** After a page that ends in a row that is not plain, a row that was already served comes again. */
  lemma NotPlainRepeats(table: seq<Row>, limit: nat, cursors: seq<string>, pages: seq<seq<Row>>, all: seq<Row>, i: nat)
    requires Keyed(table, LEASE_COLUMNS) && LeaseRun(table, limit, cursors, pages) && i + 1 < |pages| && limit > 0
    requires all == Listing(table) && CursorKey(cursors[i]) == Mark(["", "", ""], all, Served(i, limit, |all|))
    requires !PlainEnd(all, limit, i)
    ensures pages[i + 1] != [] && !InOrderAt(all, limit, pages, i + 1)
    ensures pages[i + 1][0] in all[..Served(i + 1, limit, |all|)]
  {
    CursorFallsBack(table, limit, cursors, pages, all, i);
    LeaseStep(table, limit, cursors, pages, i + 1);
    LeaseStartsAgain(table, CursorKey(cursors[i + 1]), limit, all, Served(i + 1, limit, |all|));
  }

  lemma CursorFallsBack(table: seq<Row>, limit: nat, cursors: seq<string>, pages: seq<seq<Row>>, all: seq<Row>, i: nat)
    requires Keyed(table, LEASE_COLUMNS) && LeaseRun(table, limit, cursors, pages) && i < |pages| && limit > 0
    requires all == Listing(table) && CursorKey(cursors[i]) == Mark(["", "", ""], all, Served(i, limit, |all|))
    requires !PlainEnd(all, limit, i)
    ensures var upto := Served(i + 1, limit, |all|);
      0 < upto && KeyLess(CursorKey(cursors[i + 1]), all[upto - 1].key)
  {
    StretchServed(table, limit, cursors, pages, all, i);
    ServedNext(i, limit, |all|);
    EndOfStretch(table, limit, cursors, pages, all, i);
    ReadBackIsNoLater(all[Served(i + 1, limit, |all|) - 1].key);
  }

  /** A cursor that falls back behind a row of the listing brings up a row from before it. */
  lemma StartsAgain(table: seq<Row>, arity: nat, cursor: Key, limit: nat, all: seq<Row>, upto: nat)
    requires Keyed(table, arity) && limit > 0 && all == Sort(Newer(table, seq(arity, _ => ""))) && 0 < upto <= |all|
    requires KeyLess(cursor, all[upto - 1].key)
    ensures var page := Page(table, cursor, limit);
      page != [] && page[0] in all[..upto] && (upto < |all| ==> page[0] != all[upto])
  {
    EverythingIsPastTheStart(table, arity);
    assert all[upto - 1] in all;
    FirstOfPage(table, arity, cursor, limit, all[upto - 1]);
    var first := Page(table, cursor, limit)[0];
    NothingBelowEmpty(cursor, arity);
    assert first in all;
    var k :| 0 <= k < |all| && all[k] == first;
    assert all[..upto][k] == first;
  }

  lemma LeaseStartsAgain(table: seq<Row>, cursor: Key, limit: nat, all: seq<Row>, upto: nat)
    requires Keyed(table, LEASE_COLUMNS) && limit > 0 && all == Listing(table) && 0 < upto <= |all|
    requires KeyLess(cursor, all[upto - 1].key)
    ensures var page := Page(table, cursor, limit);
      page != [] && page[0] in all[..upto] && (upto < |all| ==> page[0] != all[upto])
  {
    assert seq(LEASE_COLUMNS, _ => "") == ["", "", ""];
    StartsAgain(table, LEASE_COLUMNS, cursor, limit, all, upto);
  }

  lemma FirstOfPage(table: seq<Row>, arity: nat, cursor: Key, limit: nat, r: Row)
    requires Keyed(table, arity) && limit > 0 && r in table && KeyLess(cursor, r.key)
    ensures var page := Page(table, cursor, limit);
      page != [] && page[0] in table && KeyLess(cursor, page[0].key) && !KeyLess(r.key, page[0].key)
  {
    NewerHolds(table, cursor, arity);
    SortLists(Newer(table, cursor), arity);
    var rows := Sort(Newer(table, cursor));
    assert r in rows && rows[0] in rows;
    var k :| 0 <= k < |rows| && rows[k] == r;
    KeyIrreflexive(r.key);
    if KeyLess(r.key, rows[0].key) { NotBefore(rows, k, 0); }
  }

  lemma {:induction false} NothingBelowEmpty(k: Key, n: nat)
    ensures !KeyLess(k, seq(n, _ => ""))
  {
    if n > 0 && k != [] {
      NothingBelowEmpty(k[1..], n - 1);
      assert seq(n, _ => "")[1..] == seq(n - 1, _ => "");
    }
  }

  /** A full sync from the empty cursor serves every lease once and in key order, and then empty pages
      with the cursor unchanged, exactly when each row that ends a page is plain. (A lease with neither
      update time nor pool nor address is never served.) */
  lemma LeaseFeedServesAllIff(table: seq<Row>, limit: nat, cursors: seq<string>, pages: seq<seq<Row>>)
    requires Keyed(table, LEASE_COLUMNS) && LeaseRun(table, limit, cursors, pages) && limit > 0 && cursors[0] == ""
    ensures var all := Listing(table);
      (forall i {:trigger InOrderAt(all, limit, pages, i)} :: 0 <= i < |pages| ==> InOrderAt(all, limit, pages, i))
      <==> (forall i {:trigger PlainEnd(all, limit, i)} :: 0 <= i < |pages| - 1 ==> PlainEnd(all, limit, i))
    ensures forall i :: 0 <= i < |pages| && pages[i] == [] ==> cursors[i + 1] == cursors[i]
  {
    var all := Listing(table);
    forall i | 0 <= i < |pages| && pages[i] == [] ensures cursors[i + 1] == cursors[i] {
      LeaseStep(table, limit, cursors, pages, i);
    }
    if forall i {:trigger PlainEnd(all, limit, i)} :: 0 <= i < |pages| - 1 ==> PlainEnd(all, limit, i) {
      forall i | 0 <= i < |pages| ensures InOrderAt(all, limit, pages, i) {
        OrderWhilePlain(table, limit, cursors, pages, i);
      }
    }
    if forall i {:trigger InOrderAt(all, limit, pages, i)} :: 0 <= i < |pages| ==> InOrderAt(all, limit, pages, i) {
      PlainWhileOrder(table, limit, cursors, pages, all, |pages| - 1);
    }
  }

  lemma {:induction false} PlainWhileOrder(
    table: seq<Row>, limit: nat, cursors: seq<string>, pages: seq<seq<Row>>, all: seq<Row>, m: int)
    requires Keyed(table, LEASE_COLUMNS) && LeaseRun(table, limit, cursors, pages) && limit > 0 && cursors[0] == ""
    requires all == Listing(table) && m < |pages|
    requires forall i {:trigger InOrderAt(all, limit, pages, i)} :: 0 <= i < |pages| ==> InOrderAt(all, limit, pages, i)
    ensures forall i {:trigger PlainEnd(all, limit, i)} :: 0 <= i < m ==> PlainEnd(all, limit, i)
  {
    if m > 0 {
      PlainWhileOrder(table, limit, cursors, pages, all, m - 1);
      OrderWhilePlain(table, limit, cursors, pages, m - 1);
      assert InOrderAt(all, limit, pages, m);
      if !PlainEnd(all, limit, m - 1) {
        NotPlainRepeats(table, limit, cursors, pages, all, m - 1);
      }
    }
  }

  /** In order, the stretches end: a page is empty exactly when everything has been served. */
  lemma EmptyWhenServed(all: seq<Row>, limit: nat, pages: seq<seq<Row>>, i: nat)
    requires limit > 0 && i < |pages| && InOrderAt(all, limit, pages, i)
    ensures pages[i] == [] <==> i * limit >= |all|
  {
    ServedNext(i, limit, |all|);
  }

  /** Whatever the keys, nothing is ever skipped: what is not past the cursor has been served. */
  lemma {:induction false} NothingIsSkipped(table: seq<Row>, limit: nat, cursors: seq<string>, pages: seq<seq<Row>>,
                                            i: nat, r: Row)
    requires Keyed(table, LEASE_COLUMNS) && LeaseRun(table, limit, cursors, pages) && cursors[0] == "" && i <= |pages|
    requires r in table && r.key != ["", "", ""] && !KeyLess(CursorKey(cursors[i]), r.key)
    ensures r in Concat(pages[..i])
  {
    if i == 0 {
      PastTheStart(table, r);
    } else {
      ConcatLast(pages, i - 1);
      if KeyLess(CursorKey(cursors[i - 1]), r.key) {
        ServedInStep(table, limit, cursors, pages, i - 1, r);
      } else {
        NothingIsSkipped(table, limit, cursors, pages, i - 1, r);
      }
    }
  }

  lemma PastTheStart(table: seq<Row>, r: Row)
    requires Keyed(table, LEASE_COLUMNS) && r in table && r.key != ["", "", ""]
    ensures KeyLess(CursorKey(""), r.key)
  {
    ListingHolds(table);
    EmptyIsLeast(r.key);
    assert seq(LEASE_COLUMNS, _ => "") == ["", "", ""];
  }

  lemma ConcatLast(pages: seq<seq<Row>>, i: nat)
    requires i < |pages|
    ensures Concat(pages[..i + 1]) == Concat(pages[..i]) + pages[i]
  {
    assert pages[..i + 1][..i] == pages[..i];
  }

  /** What the cursor passes in one query is on that query's page. */
  lemma ServedInStep(table: seq<Row>, limit: nat, cursors: seq<string>, pages: seq<seq<Row>>, i: nat, r: Row)
    requires Keyed(table, LEASE_COLUMNS) && LeaseRun(table, limit, cursors, pages) && i < |pages| && r in table
    requires KeyLess(CursorKey(cursors[i]), r.key) && !KeyLess(CursorKey(cursors[i + 1]), r.key)
    ensures r in pages[i]
  {
    LeaseStep(table, limit, cursors, pages, i);
    NotPast(pages[i][|pages[i]| - 1].key, r.key);
    InPage(table, CursorKey(cursors[i]), limit, r);
  }

  lemma NotPast(last: Key, k: Key)
    requires |last| == LEASE_COLUMNS && !KeyLess(ReadBack(last), k)
    ensures !KeyLess(last, k)
  {
    ReadBackIsNoLater(last);
    if KeyLess(last, k) && ReadBack(last) != last { KeyTransitive(ReadBack(last), last, k); }
  }

  lemma InPage(table: seq<Row>, cursor: Key, limit: nat, r: Row)
    requires Keyed(table, LEASE_COLUMNS) && r in table && KeyLess(cursor, r.key)
    requires var page := Page(table, cursor, limit); page != [] && !KeyLess(page[|page| - 1].key, r.key)
    ensures r in Page(table, cursor, limit)
  {
    NewerHolds(table, cursor, LEASE_COLUMNS);
    SortLists(Newer(table, cursor), LEASE_COLUMNS);
    var rows, page := Sort(Newer(table, cursor)), Page(table, cursor, limit);
    assert r in rows;
    var k :| 0 <= k < |rows| && rows[k] == r;
    if k < |page| { assert page[k] == r; }
  }

  /** So an empty page means that everything has been served. */
  lemma ServedByTheEnd(table: seq<Row>, limit: nat, cursors: seq<string>, pages: seq<seq<Row>>, i: nat, r: Row)
    requires Keyed(table, LEASE_COLUMNS) && LeaseRun(table, limit, cursors, pages) && cursors[0] == ""
    requires limit > 0 && i < |pages| && pages[i] == [] && r in table && r.key != ["", "", ""]
    ensures r in Concat(pages[..i])
  {
    LeaseStep(table, limit, cursors, pages, i);
    if KeyLess(CursorKey(cursors[i]), r.key) { FirstOfPage(table, LEASE_COLUMNS, CursorKey(cursors[i]), limit, r); }
    NothingIsSkipped(table, limit, cursors, pages, i, r);
  }

  lemma {:induction false} OnlyTableRows(table: seq<Row>, limit: nat, cursors: seq<string>, pages: seq<seq<Row>>,
                                         i: nat, r: Row)
    requires Keyed(table, LEASE_COLUMNS) && LeaseRun(table, limit, cursors, pages) && i <= |pages| && r !in table
    ensures r !in Concat(pages[..i])
  {
    if i > 0 {
      OnlyTableRows(table, limit, cursors, pages, i - 1, r);
      assert ServedAt(table, limit, cursors, pages, i - 1);
      PageIsPast(table, CursorKey(cursors[i - 1]), LEASE_COLUMNS, limit);
      assert pages[..i][..i - 1] == pages[..i - 1];
    }
  }

  lemma {:induction false} BlankIsNeverServed(table: seq<Row>, limit: nat, cursors: seq<string>, pages: seq<seq<Row>>,
                                              i: nat, r: Row)
    requires Keyed(table, LEASE_COLUMNS) && LeaseRun(table, limit, cursors, pages) && i <= |pages|
    requires r.key == ["", "", ""]
    ensures r !in Concat(pages[..i])
  {
    if i > 0 {
      BlankIsNeverServed(table, limit, cursors, pages, i - 1, r);
      assert ServedAt(table, limit, cursors, pages, i - 1);
      var k := CursorKey(cursors[i - 1]);
      PageIsPast(table, k, LEASE_COLUMNS, limit);
      NothingBelowEmpty(k, LEASE_COLUMNS);
      assert seq(LEASE_COLUMNS, _ => "") == ["", "", ""];
      assert pages[..i][..i - 1] == pages[..i - 1];
    }
  }

  /** A page that leaves the cursor where it was, though it is not empty, is served for ever. */
  lemma {:induction false} StuckForever(table: seq<Row>, limit: nat, cursors: seq<string>, pages: seq<seq<Row>>,
                                        i: nat, j: nat)
    requires LeaseRun(table, limit, cursors, pages) && i <= j < |pages| && cursors[i + 1] == cursors[i]
    ensures pages[j] == pages[i] && cursors[j + 1] == cursors[i]
    decreases j - i
  {
    if i < j {
      StuckForever(table, limit, cursors, pages, i, j - 1);
      SameCursorSamePage(table, limit, cursors, pages, i, j);
    }
  }

  lemma SameCursorSamePage(table: seq<Row>, limit: nat, cursors: seq<string>, pages: seq<seq<Row>>, i: nat, j: nat)
    requires LeaseRun(table, limit, cursors, pages) && i < |pages| && j < |pages| && cursors[j] == cursors[i]
    ensures pages[j] == pages[i] && cursors[j + 1] == cursors[i + 1]
  {
    assert ServedAt(table, limit, cursors, pages, i) && ServedAt(table, limit, cursors, pages, j);
  }

  /** An input for which that happens at any limit: one lease, with a bar in its pool id. */
  lemma BarInPoolRepeats(limit: nat)
    requires limit > 0
    ensures var r := Row(["t", "a|b", "1"], "");
      LeaseFeed([r], "", limit) == ([r], "t|a|b|1") && LeaseFeed([r], "t|a|b|1", limit) == ([r], "t|a|b|1")
  {
    var r := Row(["t", "a|b", "1"], "");
    PrintedBar();
    ListingHolds([r]);
    ThreeLevels("", "", "", r.key);
    ThreeLevels("t", "a", "b|1", r.key);
    assert Less("a", "a|b");
    OnlyRow(r, ["", "", ""], limit);
    OnlyRow(r, ["t", "a", "b|1"], limit);
  }

  lemma PrintedBar()
    ensures Print(["t", "a|b", "1"], '|') == "t|a|b|1" && CursorKey("t|a|b|1") == ["t", "a", "b|1"]
  {
    var k, m := ["t", "a", "b|1"], ["t", "a|b", "1"];
    assert k[1..] == ["a", "b|1"] && ["a", "b|1"][1..] == ["b|1"];
    assert m[1..] == ["a|b", "1"] && ["a|b", "1"][1..] == ["1"];
    PrintedReadsBackIff(k, '|');
  }

  lemma OnlyRow(r: Row, cursor: Key, limit: nat)
    requires limit > 0 && KeyLess(cursor, r.key)
    ensures Page([r], cursor, limit) == [r]
  {
    assert [r][1..] == [];
    assert Newer([r], cursor) == [r];
    assert Sort([r]) == [r];
  }
}
