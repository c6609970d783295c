/** The mailbox feed (crates/magnetite-db/src/mail.rs): additions, deletions and flag changes in three
    streams under one text cursor. */
module MailFeed {
  import opened Ordering
  import opened Text
  import opened Feeds
  import opened FeedCursors

  datatype Message = Message(receivedAt: string, replId: Option<string>, body: string)

  /** The messages the feed can serve: those with a replication id. */
  function Replicable(messages: seq<Message>): seq<Row> {
    if messages == [] then []
    else
      var m := messages[0];
      (if m.replId.Some? then [Row([m.receivedAt, m.replId.value], m.body)] else []) + Replicable(messages[1..])
  }

  const STREAMS := 3
  const STREAM_COLUMNS := 2

  datatype MailTables = MailTables(messages: seq<Message>, deletions: seq<Row>, flags: seq<Row>) {
    function Stream(s: nat): seq<Row> {
      if s == 0 then Replicable(messages) else if s == 1 then deletions else flags
    }
  }

  function StreamPage(table: seq<Row>, part: string, limit: nat): (seq<Row>, string) {
    Query(table, part, STREAM_COLUMNS, ',', limit)
  }

  /** One query: a page of each stream, and the three parts of the next cursor. */
  function Feed(t: MailTables, cursor: string, limit: nat): (seq<seq<Row>>, string) {
    var parts := SplitN(cursor, STREAMS, '|');
    var (added, p0) := StreamPage(Replicable(t.messages), parts[0], limit);
    var (deleted, p1) := StreamPage(t.deletions, parts[1], limit);
    var (flagged, p2) := StreamPage(t.flags, parts[2], limit);
    ([added, deleted, flagged], Print([p0, p1, p2], '|'))
  }

  ghost predicate MailRun(t: MailTables, limit: nat, cursors: seq<string>, pages: seq<seq<seq<Row>>>) {
    && |cursors| == |pages| + 1
    && forall i {:trigger MailedAt(t, limit, cursors, pages, i)} :: 0 <= i < |pages| ==>
         MailedAt(t, limit, cursors, pages, i)
  }

  ghost predicate MailedAt(t: MailTables, limit: nat, cursors: seq<string>, pages: seq<seq<seq<Row>>>, i: nat)
    requires i < |pages| < |cursors|
  {
    (pages[i], cursors[i + 1]) == Feed(t, cursors[i], limit)
  }

  ghost predicate KeyedMail(t: MailTables) {
    forall s :: 0 <= s < STREAMS ==> Keyed(t.Stream(s), STREAM_COLUMNS)
  }

  // ---- One query ---------------------------------------------------------------------------

  /** The part of a cursor that is a stream's, and the key it stands for. */
  function Part(cursor: string, s: nat): string
    requires s < STREAMS
  {
    SplitN(cursor, STREAMS, '|')[s]
  }

  function PartKey(part: string): Key { SplitN(part, STREAM_COLUMNS, ',') }

  /** What a stream puts into the next cursor. */
  function NextPart(t: MailTables, cursor: string, limit: nat, s: nat): string
    requires s < STREAMS
  {
    StreamPage(t.Stream(s), Part(cursor, s), limit).1
  }

  function PageOf(t: MailTables, cursor: string, limit: nat, s: nat): seq<Row>
    requires s < STREAMS
  {
    Page(t.Stream(s), PartKey(Part(cursor, s)), limit)
  }

  lemma FeedParts(t: MailTables, cursor: string, limit: nat)
    ensures var (pages, next) := Feed(t, cursor, limit);
      |pages| == STREAMS && (forall s :: 0 <= s < STREAMS ==> pages[s] == PageOf(t, cursor, limit, s))
      && var p0, p1, p2 := NextPart(t, cursor, limit, 0), NextPart(t, cursor, limit, 1), NextPart(t, cursor, limit, 2);
         next == Print([p0, p1, p2], '|')
  {
  }

  /** Each part of the next cursor reads back as its own stream's. */
  ghost predicate PartsAdvance(t: MailTables, cursor: string, limit: nat) {
    var next := Feed(t, cursor, limit).1;
    forall s :: 0 <= s < STREAMS ==> Part(next, s) == NextPart(t, cursor, limit, s)
  }

  lemma PartsReadBackIff(t: MailTables, cursor: string, limit: nat)
    ensures PartsAdvance(t, cursor, limit)
      <==> '|' !in NextPart(t, cursor, limit, 0) && '|' !in NextPart(t, cursor, limit, 1)
  {
    FeedParts(t, cursor, limit);
    ThreePartsIff(NextPart(t, cursor, limit, 0), NextPart(t, cursor, limit, 1), NextPart(t, cursor, limit, 2));
  }

  /** The row a stream's page ends with, if there is one, holds no bar. */
  ghost predicate EndsWithoutBar(t: MailTables, cursor: string, limit: nat, s: nat)
    requires s < STREAMS
  {
    var page := PageOf(t, cursor, limit, s);
    page != [] ==> forall c <- page[|page| - 1].key :: '|' !in c
  }

  /** Whatever the cursor, the streams advance independently exactly when no message and no deletion that
      ends a page holds a bar. */
  lemma PartsAdvanceIff(t: MailTables, cursor: string, limit: nat)
    ensures PartsAdvance(t, cursor, limit)
      <==> EndsWithoutBar(t, cursor, limit, 0) && EndsWithoutBar(t, cursor, limit, 1)
  {
    PartsReadBackIff(t, cursor, limit);
    PartsArePlain(cursor, STREAMS, '|');
    BarInEnd(t, cursor, limit, 0);
    BarInEnd(t, cursor, limit, 1);
  }

  lemma BarInEnd(t: MailTables, cursor: string, limit: nat, s: nat)
    requires s < STREAMS && '|' !in Part(cursor, s)
    ensures '|' !in NextPart(t, cursor, limit, s) <==> EndsWithoutBar(t, cursor, limit, s)
  {
    var page := PageOf(t, cursor, limit, s);
    if page != [] { PrintedPartsIff(page[|page| - 1].key, ',', '|'); }
  }

  lemma ThreePartsIff(p0: string, p1: string, p2: string)
    ensures var parts := SplitN(Print([p0, p1, p2], '|'), STREAMS, '|');
      (forall s :: 0 <= s < STREAMS ==> parts[s] == [p0, p1, p2][s]) <==> '|' !in p0 && '|' !in p1
  {
    var k := [p0, p1, p2];
    PrintedReadsBackIff(k, '|');
    var parts := SplitN(Print(k, '|'), STREAMS, '|');
    assert parts == k <==> forall s :: 0 <= s < STREAMS ==> parts[s] == k[s];
    assert PlainParts(k, '|') <==> '|' !in k[0] && '|' !in k[1];
  }

  /** A bar cuts the first part that holds one. */
  lemma BarCutsPart(p0: string, p1: string, p2: string)
    ensures var parts := SplitN(Print([p0, p1, p2], '|'), STREAMS, '|');
      parts[0] == Cut(p0, '|').0 && ('|' !in p0 ==> parts[1] == Cut(p1, '|').0)
  {
    var rest := p1 + "|" + p2;
    PrintThree(p0, p1, p2);
    CutFirst(p0, rest, '|');
    SplitHead(p0 + "|" + rest, 3);
    if '|' !in p0 {
      CutJoined(p0, rest, '|');
      CutFirst(p1, p2, '|');
      SplitHead(rest, 2);
    }
  }

  lemma PrintThree(p0: string, p1: string, p2: string)
    ensures Print([p0, p1, p2], '|') == p0 + "|" + (p1 + "|" + p2)
  {
    assert [p0, p1, p2][1..] == [p1, p2] && [p1, p2][1..] == [p2];
    assert Print([p1, p2], '|') == p1 + "|" + p2;
  }

  lemma SplitHead(s: string, n: nat)
    requires n > 1 && Cut(s, '|').1.Some?
    ensures SplitN(s, n, '|') == [Cut(s, '|').0] + SplitN(Cut(s, '|').1.value, n - 1, '|')
  {
  }

  lemma {:induction false} CutFirst(a: string, b: string, sep: char)
    ensures Cut(a + [sep] + b, sep).0 == Cut(a, sep).0 && Cut(a + [sep] + b, sep).1.Some?
    ensures sep !in a ==> Cut(a, sep).0 == a
  {
    var s := a + [sep] + b;
    if a != "" && a[0] != sep {
      CutFirst(a[1..], b, sep);
      assert s[1..] == a[1..] + [sep] + b;
      assert a == [a[0]] + a[1..];
    }
  }

  /** A key's text cut at a bar reads back strictly smaller. */
  lemma CutTextIsLess(k: Key)
    requires |k| == STREAM_COLUMNS && '|' in Print(k, ',')
    ensures KeyLess(PartKey(Cut(Print(k, ','), '|').0), k)
  {
    var time, id := k[0], k[1];
    assert k == [time, id] && k[1..] == [id];
    assert Print(k, ',') == time + "," + id;
    if '|' in time {
      CutInFront(time, "," + id);
      assert time + ("," + id) == Print(k, ',');
      FirstColumn(Cut(time, '|').0);
      LessOrSame(PartKey(Cut(time, '|').0)[0], Cut(time, '|').0, time);
    } else {
      CutBehind(time + ",", id);
      var less := [time, Cut(id, '|').0];
      assert less[1..] == [Cut(id, '|').0];
      CutIsLess(id);
      PrintedIsNoLater(less, ',');
      assert KeyLess(less, k) by { LessIrreflexive(time); }
      assert Print(less, ',') == time + "," + Cut(id, '|').0;
      if PartKey(Print(less, ',')) != less { KeyTransitive(PartKey(Print(less, ',')), less, k); }
    }
  }

  lemma {:induction false} CutInFront(a: string, b: string)
    requires '|' in a
    ensures Cut(a + b, '|').0 == Cut(a, '|').0 && Less(Cut(a, '|').0, a)
  {
    if a[0] != '|' {
      CutInFront(a[1..], b);
      assert (a + b)[1..] == a[1..] + b;
    }
  }

  lemma {:induction false} CutBehind(a: string, b: string)
    requires '|' !in a
    ensures Cut(a + b, '|').0 == a + Cut(b, '|').0
  {
    if a == "" {
      assert a + b == b;
    } else {
      CutBehind(a[1..], b);
      assert (a + b)[1..] == a[1..] + b;
      assert a == [a[0]] + a[1..];
    }
  }

  lemma CutIsLess(a: string)
    requires '|' in a
    ensures Less(Cut(a, '|').0, a)
  {
    CutInFront(a, "");
  }

  /** The first column read from a text is the text or comes before it. */
  lemma FirstColumn(a: string)
    ensures PartKey(a)[0] == a || Less(PartKey(a)[0], a)
  {
    ColumnOf(a);
  }

  lemma {:induction false} ColumnOf(a: string)
    ensures Cut(a, ',').0 == a || Less(Cut(a, ',').0, a)
  {
    if a != "" && a[0] != ',' {
      ColumnOf(a[1..]);
      assert a == [a[0]] + a[1..];
    }
  }

  lemma LessOrSame(a: string, b: string, c: string)
    requires (a == b || Less(a, b)) && Less(b, c)
    ensures Less(a, c)
  {
    if a != b { LessTransitive(a, b, c); }
  }

  // ---- Every run ---------------------------------------------------------------------------

  const BLANK: Key := ["", ""]

  /** What a stream can serve, in the order in which it should. */
  function MailListing(t: MailTables, s: nat): seq<Row> { Sort(Newer(t.Stream(s), BLANK)) }

  lemma ListingIs(t: MailTables, s: nat)
    requires KeyedMail(t) && s < STREAMS
    ensures seq(STREAM_COLUMNS, _ => "") == BLANK
    ensures Increasing(MailListing(t, s)) && forall x :: x in MailListing(t, s) <==> x in t.Stream(s) && x.key != BLANK
  {
    assert seq(STREAM_COLUMNS, _ => "") == BLANK;
    EverythingIsPastTheStart(t.Stream(s), STREAM_COLUMNS);
  }

  ghost predicate PlainMailKey(k: Key, s: nat) {
    PlainParts(k, ',') && (s < 2 ==> forall c <- k :: '|' !in c)
  }

  /** The row that should end the `i`th page of a stream, if there is one, has a time without a comma and,
      but for a flag change, no bar. */
  ghost predicate PlainMailEnd(t: MailTables, limit: nat, i: nat, s: nat) {
    var all := MailListing(t, s);
    0 < Served(i + 1, limit, |all|) && Served(i, limit, |all|) < |all| ==>
      PlainMailKey(all[Served(i + 1, limit, |all|) - 1].key, s)
  }

  /** The `i`th page of a stream is the `i`th stretch of its listing. */
  ghost predicate MailInOrderAt(t: MailTables, limit: nat, pages: seq<seq<seq<Row>>>, i: nat, s: nat)
    requires i < |pages|
  {
    var all := MailListing(t, s);
    s < |pages[i]| && Served(i, limit, |all|) <= Served(i + 1, limit, |all|)
    && pages[i][s] == all[Served(i, limit, |all|)..Served(i + 1, limit, |all|)]
  }

  /** A stream's part of the cursor marks what it has served in `i` pages. */
  ghost predicate Marks(t: MailTables, limit: nat, part: string, i: nat, s: nat) {
    var all := MailListing(t, s);
    PartKey(part) == Mark(BLANK, all, Served(i, limit, |all|))
  }

  lemma Stretch(t: MailTables, limit: nat, part: string, i: nat, s: nat)
    requires KeyedMail(t) && s < STREAMS && Marks(t, limit, part, i, s)
    ensures var all := MailListing(t, s);
      Served(i, limit, |all|) <= Served(i + 1, limit, |all|)
      && Page(t.Stream(s), PartKey(part), limit) == all[Served(i, limit, |all|)..Served(i + 1, limit, |all|)]
  {
    var all := MailListing(t, s);
    ServedNext(i, limit, |all|);
    PageFrom(t.Stream(s), BLANK, STREAM_COLUMNS, limit, all, Served(i, limit, |all|), Served(i + 1, limit, |all|));
  }

  /** What a stream that is in order puts into the next cursor: its own part again, or its last row's key. */
  lemma NextPartIs(t: MailTables, limit: nat, part: string, i: nat, s: nat)
    requires KeyedMail(t) && s < STREAMS && Marks(t, limit, part, i, s) && limit > 0
    ensures var all, next := MailListing(t, s), StreamPage(t.Stream(s), part, limit).1;
      var k, upto := Served(i, limit, |all|), Served(i + 1, limit, |all|);
      if k == |all| then upto == k && next == part
      else k < upto && |all[upto - 1].key| == STREAM_COLUMNS && next == Print(all[upto - 1].key, ',')
  {
    var all := MailListing(t, s);
    var k, upto := Served(i, limit, |all|), Served(i + 1, limit, |all|);
    Stretch(t, limit, part, i, s);
    ServedNext(i, limit, |all|);
    NextOfStretch(t.Stream(s), part, limit, all, k, upto);
    if k < |all| { ListedKey(t, s, upto - 1); }
  }

  lemma NextOfStretch(table: seq<Row>, part: string, limit: nat, all: seq<Row>, k: nat, upto: nat)
    requires k <= upto <= |all| && Page(table, PartKey(part), limit) == all[k..upto]
    ensures StreamPage(table, part, limit).1 == if k == upto then part else Print(all[upto - 1].key, ',')
  {
  }

  lemma ListedKey(t: MailTables, s: nat, k: nat)
    requires KeyedMail(t) && s < STREAMS && k < |MailListing(t, s)|
    ensures |MailListing(t, s)[k].key| == STREAM_COLUMNS
  {
    ListingIs(t, s);
    assert MailListing(t, s)[k] in MailListing(t, s);
  }

  lemma {:induction false} PrintedPartsIff(k: Key, sep: char, c: char)
    requires c != sep
    ensures c !in Print(k, sep) <==> forall x <- k :: c !in x
  {
    if |k| > 1 {
      PrintedPartsIff(k[1..], sep, c);
      assert k == [k[0]] + k[1..];
    }
  }

  /** A plain end marks what has been served. */
  lemma PlainEndMarks(t: MailTables, limit: nat, part: string, i: nat, s: nat)
    requires KeyedMail(t) && s < STREAMS && Marks(t, limit, part, i, s) && limit > 0
    requires PlainMailEnd(t, limit, i, s) && (s < 2 ==> '|' !in part)
    ensures var next := StreamPage(t.Stream(s), part, limit).1;
      Marks(t, limit, next, i + 1, s) && (s < 2 ==> '|' !in next)
  {
    NextPartIs(t, limit, part, i, s);
    var all := MailListing(t, s);
    if Served(i, limit, |all|) < |all| {
      var k := all[Served(i + 1, limit, |all|) - 1].key;
      PrintedIsNoLater(k, ',');
      PrintedPartsIff(k, ',', '|');
    }
  }

  /** A stream's part of the cursor is behind the end of its `i`th page. */
  ghost predicate Behind(t: MailTables, limit: nat, part: string, i: nat, s: nat) {
    var all := MailListing(t, s);
    var upto := Served(i + 1, limit, |all|);
    0 < upto && KeyLess(PartKey(part), all[upto - 1].key)
  }

  /** Another end reads back too small, cut at its first bar where another part follows. */
  lemma OtherEndIsLess(t: MailTables, limit: nat, part: string, i: nat, s: nat)
    requires KeyedMail(t) && s < STREAMS && Marks(t, limit, part, i, s) && limit > 0 && !PlainMailEnd(t, limit, i, s)
    ensures var next := StreamPage(t.Stream(s), part, limit).1;
      Behind(t, limit, if s < 2 then Cut(next, '|').0 else next, i, s)
  {
    NextPartIs(t, limit, part, i, s);
    var all := MailListing(t, s);
    EndIsLess(all[Served(i + 1, limit, |all|) - 1].key, s);
  }

  lemma EndIsLess(k: Key, s: nat)
    requires |k| == STREAM_COLUMNS && !PlainMailKey(k, s)
    ensures KeyLess(PartKey(if s < 2 then Cut(Print(k, ','), '|').0 else Print(k, ',')), k)
  {
    PrintedPartsIff(k, ',', '|');
    PrintedIsNoLater(k, ',');
    if s < 2 {
      if '|' in Print(k, ',') {
        CutTextIsLess(k);
      } else {
        CutFirst(Print(k, ','), "", '|');
      }
    }
  }

  ghost predicate AllMark(t: MailTables, limit: nat, cursor: string, i: nat) {
    forall s :: 0 <= s < STREAMS ==> Marks(t, limit, Part(cursor, s), i, s)
  }

  /** All ends of a query are plain. */
  ghost predicate PlainEnds(t: MailTables, limit: nat, i: nat) {
    forall s {:trigger PlainMailEnd(t, limit, i, s)} :: 0 <= s < STREAMS ==> PlainMailEnd(t, limit, i, s)
  }

  lemma PlainEndsMark(t: MailTables, limit: nat, cursor: string, i: nat)
    requires KeyedMail(t) && limit > 0 && AllMark(t, limit, cursor, i) && PlainEnds(t, limit, i)
    ensures AllMark(t, limit, Feed(t, cursor, limit).1, i + 1)
  {
    PartsArePlain(cursor, STREAMS, '|');
    forall s | 0 <= s < STREAMS
      ensures Marks(t, limit, NextPart(t, cursor, limit, s), i + 1, s)
      ensures s < 2 ==> '|' !in NextPart(t, cursor, limit, s)
    {
      assert PlainMailEnd(t, limit, i, s);
      PlainEndMarks(t, limit, Part(cursor, s), i, s);
    }
    PartsReadBackIff(t, cursor, limit);
  }

  /** After a query with an end that is not plain, the first such stream falls back behind it. */
  lemma FirstFallsBack(t: MailTables, limit: nat, cursor: string, i: nat) returns (s: nat)
    requires KeyedMail(t) && limit > 0 && AllMark(t, limit, cursor, i) && !PlainEnds(t, limit, i)
    ensures s < STREAMS && Behind(t, limit, Part(Feed(t, cursor, limit).1, s), i, s)
  {
    s := FirstOtherEnd(t, limit, i);
    OtherEndIsLess(t, limit, Part(cursor, s), i, s);
    PartReadBack(t, limit, cursor, i, s);
  }

  lemma FirstOtherEnd(t: MailTables, limit: nat, i: nat) returns (s: nat)
    requires !PlainEnds(t, limit, i)
    ensures s < STREAMS && !PlainMailEnd(t, limit, i, s)
    ensures forall r {:trigger PlainMailEnd(t, limit, i, r)} :: 0 <= r < s ==> PlainMailEnd(t, limit, i, r)
  {
    s := if !PlainMailEnd(t, limit, i, 0) then 0 else if !PlainMailEnd(t, limit, i, 1) then 1 else 2;
  }

  /** How a stream's part reads back if the ends before it are plain. */
  lemma PartReadBack(t: MailTables, limit: nat, cursor: string, i: nat, s: nat)
    requires KeyedMail(t) && limit > 0 && AllMark(t, limit, cursor, i) && s < STREAMS
    requires forall r {:trigger PlainMailEnd(t, limit, i, r)} :: 0 <= r < s ==> PlainMailEnd(t, limit, i, r)
    ensures var next := NextPart(t, cursor, limit, s);
      Part(Feed(t, cursor, limit).1, s) == if s < 2 then Cut(next, '|').0 else next
  {
    PartsArePlain(cursor, STREAMS, '|');
    FeedParts(t, cursor, limit);
    var p0, p1, p2 := NextPart(t, cursor, limit, 0), NextPart(t, cursor, limit, 1), NextPart(t, cursor, limit, 2);
    if s > 0 { PlainEndMarks(t, limit, Part(cursor, 0), i, 0); }
    if s > 1 { PlainEndMarks(t, limit, Part(cursor, 1), i, 1); }
    BarCutsPart(p0, p1, p2);
    ThreePartsIff(p0, p1, p2);
  }

  lemma MailStep(t: MailTables, limit: nat, cursors: seq<string>, pages: seq<seq<seq<Row>>>, i: nat)
    requires MailRun(t, limit, cursors, pages) && i < |pages|
    ensures |pages[i]| == STREAMS && cursors[i + 1] == Feed(t, cursors[i], limit).1
    ensures forall s :: 0 <= s < STREAMS ==> pages[i][s] == PageOf(t, cursors[i], limit, s)
  {
    assert MailedAt(t, limit, cursors, pages, i);
    FeedParts(t, cursors[i], limit);
  }

  /** All ends of the first `m` queries are plain. */
  ghost predicate PlainUpTo(t: MailTables, limit: nat, m: nat) {
    m > 0 ==> PlainUpTo(t, limit, m - 1) && PlainEnds(t, limit, m - 1)
  }

  lemma {:induction false} PlainUpToIff(t: MailTables, limit: nat, m: nat)
    ensures PlainUpTo(t, limit, m)
      <==> (forall i {:trigger PlainEnds(t, limit, i)} :: 0 <= i < m ==> PlainEnds(t, limit, i))
  {
    if m > 0 { PlainUpToIff(t, limit, m - 1); }
  }

  ghost predicate AllInOrder(t: MailTables, limit: nat, pages: seq<seq<seq<Row>>>, i: nat)
    requires i < |pages|
  {
    forall s :: 0 <= s < STREAMS ==> MailInOrderAt(t, limit, pages, i, s)
  }

  /** As long as all pages end in plain rows, the cursor marks what each stream has served. */
  lemma {:induction false} MarksWhilePlain(
    t: MailTables, limit: nat, cursors: seq<string>, pages: seq<seq<seq<Row>>>, i: nat)
    requires KeyedMail(t) && MailRun(t, limit, cursors, pages) && limit > 0 && cursors[0] == "" && i <= |pages|
    requires PlainUpTo(t, limit, i)
    ensures AllMark(t, limit, cursors[i], i)
  {
    if i == 0 {
      StartMarks(t, limit);
    } else {
      MarksWhilePlain(t, limit, cursors, pages, i - 1);
      PlainEndsMark(t, limit, cursors[i - 1], i - 1);
      MailStep(t, limit, cursors, pages, i - 1);
    }
  }

  lemma StartMarks(t: MailTables, limit: nat)
    ensures AllMark(t, limit, "", 0)
  {
    EmptyParts(STREAMS, '|');
    EmptyParts(STREAM_COLUMNS, ',');
    assert seq(STREAM_COLUMNS, _ => "") == BLANK;
  }

  lemma MarkedIsInOrder(t: MailTables, limit: nat, cursors: seq<string>, pages: seq<seq<seq<Row>>>, i: nat)
    requires KeyedMail(t) && MailRun(t, limit, cursors, pages) && i < |pages| && AllMark(t, limit, cursors[i], i)
    ensures AllInOrder(t, limit, pages, i)
  {
    MailStep(t, limit, cursors, pages, i);
    forall s | 0 <= s < STREAMS ensures MailInOrderAt(t, limit, pages, i, s) {
      Stretch(t, limit, Part(cursors[i], s), i, s);
    }
  }

  /** A stream that fell back serves a row again. */
  lemma FallenBackRepeats(t: MailTables, limit: nat, cursors: seq<string>, pages: seq<seq<seq<Row>>>, i: nat, s: nat)
    requires KeyedMail(t) && MailRun(t, limit, cursors, pages) && limit > 0 && i + 1 < |pages| && s < STREAMS
    requires Behind(t, limit, Part(cursors[i + 1], s), i, s)
    ensures !MailInOrderAt(t, limit, pages, i + 1, s)
  {
    var all := MailListing(t, s);
    ListingIs(t, s);
    MailStep(t, limit, cursors, pages, i + 1);
    StartsAgain(t.Stream(s), STREAM_COLUMNS, PartKey(Part(cursors[i + 1], s)), limit, all,
                Served(i + 1, limit, |all|));
  }

  lemma {:induction false} PlainWhileInOrder(
    t: MailTables, limit: nat, cursors: seq<string>, pages: seq<seq<seq<Row>>>, m: nat)
    requires KeyedMail(t) && MailRun(t, limit, cursors, pages) && limit > 0 && cursors[0] == "" && m < |pages|
    requires forall i {:trigger AllInOrder(t, limit, pages, i)} :: 0 <= i < |pages| ==> AllInOrder(t, limit, pages, i)
    ensures PlainUpTo(t, limit, m)
  {
    if m > 0 {
      PlainWhileInOrder(t, limit, cursors, pages, m - 1);
      MarksWhilePlain(t, limit, cursors, pages, m - 1);
      assert AllInOrder(t, limit, pages, m);
      if !PlainEnds(t, limit, m - 1) { OtherEndsRepeat(t, limit, cursors, pages, m - 1); }
    }
  }

  lemma OtherEndsRepeat(t: MailTables, limit: nat, cursors: seq<string>, pages: seq<seq<seq<Row>>>, i: nat)
    requires KeyedMail(t) && MailRun(t, limit, cursors, pages) && limit > 0 && i + 1 < |pages|
    requires AllMark(t, limit, cursors[i], i) && !PlainEnds(t, limit, i)
    ensures !AllInOrder(t, limit, pages, i + 1)
  {
    var s := FirstFallsBack(t, limit, cursors[i], i);
    MailStep(t, limit, cursors, pages, i);
    FallenBackRepeats(t, limit, cursors, pages, i, s);
  }

  /** A full sync serves every row of every stream once and in order exactly when each row that ends a page
      is plain. */
  lemma MailFeedServesAllIff(t: MailTables, limit: nat, cursors: seq<string>, pages: seq<seq<seq<Row>>>)
    requires KeyedMail(t) && MailRun(t, limit, cursors, pages) && limit > 0 && cursors[0] == ""
    ensures (forall i {:trigger AllInOrder(t, limit, pages, i)} :: 0 <= i < |pages| ==> AllInOrder(t, limit, pages, i))
      <==> (forall i {:trigger PlainEnds(t, limit, i)} :: 0 <= i < |pages| - 1 ==> PlainEnds(t, limit, i))
  {
    if pages != [] {
      var m := |pages| - 1;
      PlainUpToIff(t, limit, m);
      if PlainUpTo(t, limit, m) {
        forall i | 0 <= i < |pages| ensures AllInOrder(t, limit, pages, i) {
          PlainUpToIff(t, limit, i);
          MarksWhilePlain(t, limit, cursors, pages, i);
          MarkedIsInOrder(t, limit, cursors, pages, i);
        }
      } else if forall i {:trigger AllInOrder(t, limit, pages, i)} :: 0 <= i <= m ==> AllInOrder(t, limit, pages, i) {
        PlainWhileInOrder(t, limit, cursors, pages, m);
      }
    }
  }

  // ---- What a stream has served ------------------------------------------------------------

  /** In order, what a stream has served is the start of its listing, and a page is empty exactly when that
      is all of it. */
  lemma {:induction false} StreamServes(t: MailTables, limit: nat, pages: seq<seq<seq<Row>>>, s: nat,
                                        own: seq<seq<Row>>, i: nat)
    requires limit > 0 && s < STREAMS && i <= |pages| == |own|
    requires forall j :: 0 <= j < |pages| ==> |pages[j]| == STREAMS && own[j] == pages[j][s]
    requires forall j {:trigger MailInOrderAt(t, limit, pages, j, s)} :: 0 <= j < |pages| ==>
      MailInOrderAt(t, limit, pages, j, s)
    ensures var all := MailListing(t, s);
      Concat(own[..i]) == all[..Served(i, limit, |all|)]
      && (i < |pages| ==> (own[i] == [] <==> Concat(own[..i]) == all))
  {
    var all := MailListing(t, s);
    if i > 0 {
      StreamServes(t, limit, pages, s, own, i - 1);
      assert MailInOrderAt(t, limit, pages, i - 1, s);
      ConcatNext(own, all, i - 1, Served(i - 1, limit, |all|), Served(i, limit, |all|));
    }
    if i < |pages| {
      assert MailInOrderAt(t, limit, pages, i, s);
      ServedNext(i, limit, |all|);
      assert Served(i, limit, |all|) == |all| <==> all[..Served(i, limit, |all|)] == all;
    }
  }

  /** A stream that has nothing left keeps its place. */
  lemma ExhaustedStreamStays(t: MailTables, limit: nat, cursors: seq<string>, pages: seq<seq<seq<Row>>>, i: nat, s: nat)
    requires KeyedMail(t) && MailRun(t, limit, cursors, pages) && limit > 0 && cursors[0] == "" && i < |pages|
    requires PlainUpTo(t, limit, i + 1) && s < STREAMS && |pages[i]| == STREAMS && pages[i][s] == []
    ensures PartKey(Part(cursors[i + 1], s)) == PartKey(Part(cursors[i], s))
  {
    var all := MailListing(t, s);
    MarksWhilePlain(t, limit, cursors, pages, i);
    MarksWhilePlain(t, limit, cursors, pages, i + 1);
    MarkedIsInOrder(t, limit, cursors, pages, i);
    assert MailInOrderAt(t, limit, pages, i, s);
    assert Marks(t, limit, Part(cursors[i], s), i, s) && Marks(t, limit, Part(cursors[i + 1], s), i + 1, s);
  }

  /** Once every stream is exhausted the cursor keeps its parts and, from the next query on, its text:
      only the empty cursor and shorter ones come back changed, as three parts. */
  lemma IdleCursorStays(t: MailTables, limit: nat, cursor: string)
    requires Feed(t, cursor, limit).0 == [[], [], []]
    ensures var next := Feed(t, cursor, limit).1;
      SplitN(next, STREAMS, '|') == SplitN(cursor, STREAMS, '|') && Feed(t, next, limit) == ([[], [], []], next)
  {
    var next := Feed(t, cursor, limit).1;
    PartsArePlain(cursor, STREAMS, '|');
    PartsReadBackIff(t, cursor, limit);
    forall s | 0 <= s < STREAMS ensures NextPart(t, cursor, limit, s) == Part(cursor, s) {
      assert Feed(t, cursor, limit).0[s] == [];
    }
    var before, after := SplitN(cursor, STREAMS, '|'), SplitN(next, STREAMS, '|');
    forall s | 0 <= s < STREAMS ensures after[s] == before[s] {
      assert Part(next, s) == NextPart(t, cursor, limit, s);
    }
    assert after == before;
  }

  // ---- A bar in an id ----------------------------------------------------------------------

  /** One message with a bar in its id, and two deletions. */
  ghost predicate Barred(t: MailTables) {
    t.messages == [Message("t", Some("a|z"), "")] && t.deletions == [Row(["m", "1"], ""), Row(["n", "2"], "")]
  }

  /** Read one row at a time, such a mailbox never serves both deletions: the rest of the message's id is
      taken for the place in the deletions, and they count as served. */
  lemma BarSkipsDeletion(t: MailTables, cursors: seq<string>, pages: seq<seq<seq<Row>>>, i: nat)
    requires Barred(t) && MailRun(t, 1, cursors, pages) && cursors[0] == "" && i < |pages|
    ensures |pages[i]| == STREAMS && if i == 0 then |pages[i][1]| <= 1 else pages[i][1] == []
  {
    MailStep(t, 1, cursors, pages, i);
    if i > 0 {
      DeletionsPassed(t, cursors, pages, i);
      assert PageOf(t, cursors[i], 1, 1) == Page(t.deletions, PartKey("z"), 1);
      NothingPastZ(t.deletions);
    }
  }

  lemma {:induction false} DeletionsPassed(t: MailTables, cursors: seq<string>, pages: seq<seq<seq<Row>>>, i: nat)
    requires Barred(t) && MailRun(t, 1, cursors, pages) && cursors[0] == "" && 0 < i <= |pages|
    ensures Part(cursors[i], 0) == "t,a" && Part(cursors[i], 1) == "z"
  {
    MailStep(t, 1, cursors, pages, i - 1);
    var cursor := cursors[i - 1];
    if i == 1 { EmptyParts(STREAMS, '|'); } else { DeletionsPassed(t, cursors, pages, i - 1); }
    MessageAgain(t, Part(cursor, 0));
    FeedParts(t, cursor, 1);
    BarredParts(NextPart(t, cursor, 1, 1), NextPart(t, cursor, 1, 2));
  }

  lemma MessageAgain(t: MailTables, part: string)
    requires Barred(t) && part in ["", "t,a"]
    ensures StreamPage(t.Stream(0), part, 1).1 == "t,a|z"
  {
    var r := Row(["t", "a|z"], "");
    assert t.messages[1..] == [] && Replicable([]) == [];
    assert Replicable(t.messages) == [r];
    KeyOfPart(part);
    OnlyRow(r, PartKey(part), 1);
    assert r.key[1..] == ["a|z"];
    assert Print(r.key, ',') == "t,a|z";
  }

  lemma KeyOfPart(part: string)
    requires part in ["", "t,a"]
    ensures KeyLess(PartKey(part), ["t", "a|z"])
  {
    if part == "" {
      EmptyParts(STREAM_COLUMNS, ',');
    } else {
      CutJoined("t", "a", ',');
      assert "t" + "," + "a" == part;
      assert PartKey(part) == ["t", "a"];
      assert Less("a", "a|z");
    }
  }

  lemma BarredParts(p1: string, p2: string)
    ensures var parts := SplitN(Print(["t,a|z", p1, p2], '|'), STREAMS, '|'); parts[0] == "t,a" && parts[1] == "z"
  {
    var rest := p1 + "|" + p2;
    PrintThree("t,a|z", p1, p2);
    assert "t,a|z" + "|" + rest == "t,a" + "|" + ("z" + "|" + rest);
    CutJoined("t,a", "z" + "|" + rest, '|');
    CutJoined("z", rest, '|');
    SplitHead("t,a|z" + "|" + rest, 3);
    SplitHead("z" + "|" + rest, 2);
  }

  lemma NothingPastZ(table: seq<Row>)
    requires table == [Row(["m", "1"], ""), Row(["n", "2"], "")]
    ensures Page(table, PartKey("z"), 1) == []
  {
    var k := PartKey("z");
    CutFirst("z", "", ',');
    assert k[0] == "z";
    assert !Less("z", "m") && !Less("z", "n");
    NothingPast(table, k);
  }

  lemma {:induction false} NothingPast(table: seq<Row>, k: Key)
    requires forall r <- table :: !KeyLess(k, r.key)
    ensures Newer(table, k) == []
  {
    if table != [] { NothingPast(table[1..], k); }
  }
}
