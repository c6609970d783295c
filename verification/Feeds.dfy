/** Compound-cursor feeds: DHCP leases (crates/magnetite-db/src/dhcp.rs) and the three mailbox
    streams (crates/magnetite-db/src/mail.rs), over a table that does not change meanwhile. */
module Feeds {
  import opened Ordering

  // ---- Keys and queries --------------------------------------------------------------------

  /** The columns a feed is ordered by, compared left to right. */
  type Key = seq<string>

  /** A row with its ordering columns and the rest of its contents. */
  datatype Row = Row(key: Key, body: string)

  predicate KeyLess(a: Key, b: Key) {
    a != [] && b != [] && (Less(a[0], b[0]) || (a[0] == b[0] && KeyLess(a[1..], b[1..])))
  }

  /** The WHERE clause of the lease feed, level by level, is the order of the three columns. */
  lemma ThreeLevels(ts: string, pool: string, ip: string, r: Key)
    requires |r| == 3
    ensures KeyLess([ts, pool, ip], r) <==>
      Less(ts, r[0]) || (r[0] == ts && Less(pool, r[1])) || (r[0] == ts && r[1] == pool && Less(ip, r[2]))
  {
    assert [ts, pool, ip][1..] == [pool, ip] && [pool, ip][1..] == [ip];
    assert r[1..][1..] == [r[2]];
    assert KeyLess([ip], [r[2]]) <==> Less(ip, r[2]) by {
      assert [ip][1..] == [];
    }
  }

  lemma {:induction false} KeyIrreflexive(a: Key)
    ensures !KeyLess(a, a)
  {
    if a != [] {
      LessIrreflexive(a[0]);
      KeyIrreflexive(a[1..]);
    }
  }

  lemma {:induction false} KeyTransitive(a: Key, b: Key, c: Key)
    requires KeyLess(a, b) && KeyLess(b, c)
    ensures KeyLess(a, c)
  {
    if Less(a[0], b[0]) && Less(b[0], c[0]) {
      LessTransitive(a[0], b[0], c[0]);
    } else if a[0] == b[0] && b[0] == c[0] && KeyLess(a[1..], b[1..]) && KeyLess(b[1..], c[1..]) {
      KeyTransitive(a[1..], b[1..], c[1..]);
    }
  }

  lemma {:induction false} KeyTotal(a: Key, b: Key)
    requires |a| == |b|
    ensures KeyLess(a, b) || a == b || KeyLess(b, a)
  {
    if a != [] {
      LessTotal(a[0], b[0]);
      KeyTotal(a[1..], b[1..]);
      assert a == [a[0]] + a[1..] && b == [b[0]] + b[1..];
    }
  }

  function Newer(table: seq<Row>, cursor: Key): seq<Row> {
    if table == [] then []
    else (if KeyLess(cursor, table[0].key) then [table[0]] else []) + Newer(table[1..], cursor)
  }

  function Insert(rows: seq<Row>, r: Row): seq<Row> {
    if rows == [] || KeyLess(r.key, rows[0].key) then [r] + rows else [rows[0]] + Insert(rows[1..], r)
  }

  function Sort(rows: seq<Row>): seq<Row> {
    if rows == [] then [] else Insert(Sort(rows[1..]), rows[0])
  }

  /** One query: the rows past the cursor, in key order, at most `limit` of them. */
  function Page(table: seq<Row>, cursor: Key, limit: nat): seq<Row> {
    var rows := Sort(Newer(table, cursor));
    if |rows| <= limit then rows else rows[..limit]
  }

  // ---- What a query returns ----------------------------------------------------------------

  ghost predicate Increasing(rows: seq<Row>) {
    forall i, j :: 0 <= i < j < |rows| ==> KeyLess(rows[i].key, rows[j].key)
  }

  /** A table whose rows have `arity` key columns and distinct keys. */
  ghost predicate Keyed(table: seq<Row>, arity: nat) {
    && (forall r <- table :: |r.key| == arity)
    && (forall i, j :: 0 <= i < j < |table| ==> table[i].key != table[j].key)
  }

  lemma {:induction false} InsertSorts(rows: seq<Row>, r: Row)
    requires Increasing(rows)
    requires forall x <- rows :: |x.key| == |r.key| && x.key != r.key
    ensures Increasing(Insert(rows, r))
    ensures forall x :: x in Insert(rows, r) <==> x in rows || x == r
  {
    if rows == [] {
    } else if KeyLess(r.key, rows[0].key) {
      forall i, j | 0 <= i < j < |rows| + 1 ensures KeyLess(([r] + rows)[i].key, ([r] + rows)[j].key) {
        if i == 0 && j > 1 { KeyTransitive(r.key, rows[0].key, rows[j - 1].key); }
      }
    } else {
      var rest := Insert(rows[1..], r);
      InsertSorts(rows[1..], r);
      KeyTotal(r.key, rows[0].key);
      forall i, j | 0 <= i < j < |rest| + 1 ensures KeyLess(([rows[0]] + rest)[i].key, ([rows[0]] + rest)[j].key) {
        if i == 0 { assert rest[j - 1] in rest; }
      }
    }
  }

  lemma {:induction false} SortLists(rows: seq<Row>, arity: nat)
    requires Keyed(rows, arity)
    ensures Increasing(Sort(rows)) && forall x :: x in Sort(rows) <==> x in rows
  {
    if rows != [] {
      SortLists(rows[1..], arity);
      forall x <- Sort(rows[1..]) ensures x.key != rows[0].key {
        var k :| 0 <= k < |rows| - 1 && rows[1..][k] == x;
      }
      InsertSorts(Sort(rows[1..]), rows[0]);
    }
  }

  lemma {:induction false} NewerHolds(table: seq<Row>, cursor: Key, arity: nat)
    requires Keyed(table, arity)
    ensures Keyed(Newer(table, cursor), arity)
    ensures forall x :: x in Newer(table, cursor) <==> x in table && KeyLess(cursor, x.key)
  {
    if table != [] {
      var rest := Newer(table[1..], cursor);
      NewerHolds(table[1..], cursor, arity);
      forall i | 0 <= i < |rest| ensures rest[i].key != table[0].key {
        assert rest[i] in table[1..];
      }
    }
  }

  /** There is one way to list rows in key order. */
  lemma {:induction false} ListingIsUnique(a: seq<Row>, b: seq<Row>)
    requires Increasing(a) && Increasing(b) && forall x :: x in a <==> x in b
    ensures a == b
  {
    assert (a != [] ==> a[0] in b) && (b != [] ==> b[0] in a);
    if a != [] && b != [] {
      HeadsAgree(a, b);
      TailsAgree(a, b);
      ListingIsUnique(a[1..], b[1..]);
      assert a == [a[0]] + a[1..] && b == [b[0]] + b[1..];
    }
  }

  lemma HeadsAgree(a: seq<Row>, b: seq<Row>)
    requires Increasing(a) && Increasing(b) && a != [] && b != [] && forall x :: x in a <==> x in b
    ensures a[0] == b[0]
  {
    assert a[0] in b && b[0] in a;
    var i :| 0 <= i < |b| && b[i] == a[0];
    var j :| 0 <= j < |a| && a[j] == b[0];
    if i > 0 && j > 0 {
      KeyTransitive(a[0].key, b[0].key, a[0].key);
      KeyIrreflexive(a[0].key);
    }
  }

  lemma TailsAgree(a: seq<Row>, b: seq<Row>)
    requires Increasing(a) && Increasing(b) && a != [] && b != [] && a[0] == b[0] && forall x :: x in a <==> x in b
    ensures forall x :: x in a[1..] <==> x in b[1..]
  {
    InTail(a);
    InTail(b);
  }

  lemma InTail(a: seq<Row>)
    requires Increasing(a) && a != []
    ensures forall x :: x in a[1..] <==> x in a && x != a[0]
  {
    KeyIrreflexive(a[0].key);
    assert a == [a[0]] + a[1..];
  }

  /** What is left past the `i`th row of a listing is the rest of that listing. */
  lemma RestOfListing(table: seq<Row>, start: Key, arity: nat, i: nat)
    requires Keyed(table, arity) && i < |Sort(Newer(table, start))|
    ensures var all := Sort(Newer(table, start)); Sort(Newer(table, all[i].key)) == all[i + 1..]
  {
    var all := Sort(Newer(table, start));
    NewerHolds(table, start, arity);
    SortLists(Newer(table, start), arity);
    var cursor := all[i].key;
    NewerHolds(table, cursor, arity);
    SortLists(Newer(table, cursor), arity);
    PastIth(table, all, start, i);
    ListingIsUnique(Sort(Newer(table, cursor)), all[i + 1..]);
  }

  lemma PastIth(table: seq<Row>, all: seq<Row>, start: Key, i: nat)
    requires Increasing(all) && i < |all|
    requires forall x :: x in all <==> x in table && KeyLess(start, x.key)
    ensures forall x :: x in all[i + 1..] <==> x in table && KeyLess(all[i].key, x.key)
  {
    forall x ensures x in all[i + 1..] <==> x in table && KeyLess(all[i].key, x.key) {
      if x in all[i + 1..] {
        assert x in all;
      } else if x in table && KeyLess(all[i].key, x.key) {
        assert all[i] in all;
        KeyTransitive(start, all[i].key, x.key);
        assert x in all;
        var k :| 0 <= k < |all| && all[k] == x;
        NotBefore(all, i, k);
      }
    }
  }

  lemma NotBefore(all: seq<Row>, i: nat, k: nat)
    requires Increasing(all) && i < |all| && k < |all| && KeyLess(all[i].key, all[k].key)
    ensures k > i
  {
    KeyIrreflexive(all[i].key);
    if k < i { KeyTransitive(all[i].key, all[k].key, all[i].key); }
  }

  // ---- Repeated queries --------------------------------------------------------------------

  function Next(cursor: Key, page: seq<Row>): Key {
    if page == [] then cursor else page[|page| - 1].key
  }

  /** Repeated queries, each from where the last one stopped. */
  ghost predicate Paging(table: seq<Row>, limit: nat, cursors: seq<Key>, pages: seq<seq<Row>>) {
    && |cursors| == |pages| + 1
    && forall i {:trigger PagedAt(table, limit, cursors, pages, i)} :: 0 <= i < |pages| ==>
         PagedAt(table, limit, cursors, pages, i)
  }

  ghost predicate PagedAt(table: seq<Row>, limit: nat, cursors: seq<Key>, pages: seq<seq<Row>>, i: nat)
    requires i < |pages| < |cursors|
  {
    pages[i] == Page(table, cursors[i], limit) && cursors[i + 1] == Next(cursors[i], pages[i])
  }

  function Concat(pages: seq<seq<Row>>): seq<Row> {
    if pages == [] then [] else Concat(pages[..|pages| - 1]) + pages[|pages| - 1]
  }

  function Min(a: nat, b: nat): nat { if a < b then a else b }

  /** The cursor once the first `k` rows of a listing have been served. */
  function Mark(start: Key, all: seq<Row>, k: nat): Key
    requires k <= |all|
  {
    if k == 0 then start else all[k - 1].key
  }

  lemma LeftAfter(table: seq<Row>, start: Key, arity: nat, all: seq<Row>, k: nat)
    requires Keyed(table, arity) && all == Sort(Newer(table, start)) && k <= |all|
    ensures Sort(Newer(table, Mark(start, all, k))) == all[k..]
  {
    if k > 0 { RestOfListing(table, start, arity, k - 1); }
  }

  lemma Taken(all: seq<Row>, start: Key, k: nat, limit: nat, upto: nat)
    requires k <= |all| && upto == Min(k + limit, |all|)
    ensures (if |all[k..]| <= limit then all[k..] else all[k..][..limit]) == all[k..upto]
    ensures Next(Mark(start, all, k), all[k..upto]) == Mark(start, all, upto)
  {
    if |all[k..]| <= limit {
      assert all[k..] == all[k..upto];
    } else {
      assert all[k..][..limit] == all[k..upto];
    }
  }

  lemma PageFrom(table: seq<Row>, start: Key, arity: nat, limit: nat, all: seq<Row>, k: nat, upto: nat)
    requires Keyed(table, arity) && all == Sort(Newer(table, start)) && k <= |all| && upto == Min(k + limit, |all|)
    ensures Page(table, Mark(start, all, k), limit) == all[k..upto]
    ensures Next(Mark(start, all, k), all[k..upto]) == Mark(start, all, upto)
  {
    LeftAfter(table, start, arity, all, k);
    Taken(all, start, k, limit, upto);
  }

  /** How many of `n` rows `i` pages have served. */
  function Served(i: nat, limit: nat, n: nat): nat { Min(i * limit, n) }

  lemma ServedNext(i: nat, limit: nat, n: nat)
    ensures Served(i + 1, limit, n) == Min(Served(i, limit, n) + limit, n)
  {
    assert (i + 1) * limit == i * limit + limit;
  }

  lemma NextPage(table: seq<Row>, arity: nat, limit: nat, cursors: seq<Key>, pages: seq<seq<Row>>,
                 all: seq<Row>, i: nat, k: nat, upto: nat)
    requires Keyed(table, arity) && Paging(table, limit, cursors, pages) && i < |pages|
    requires all == Sort(Newer(table, cursors[0])) && k <= |all| && upto == Min(k + limit, |all|)
    requires cursors[i] == Mark(cursors[0], all, k)
    ensures pages[i] == all[k..upto] && cursors[i + 1] == Mark(cursors[0], all, upto)
  {
    PageFrom(table, cursors[0], arity, limit, all, k, upto);
    assert PagedAt(table, limit, cursors, pages, i);
  }

  lemma ConcatNext(pages: seq<seq<Row>>, all: seq<Row>, i: nat, k: nat, upto: nat)
    requires i < |pages| && k <= upto <= |all| && Concat(pages[..i]) == all[..k] && pages[i] == all[k..upto]
    ensures Concat(pages[..i + 1]) == all[..upto]
  {
    assert pages[..i + 1][..i] == pages[..i];
  }

  /** After `i` pages the first `i * limit` rows past the start have been served, in key order and
      once each. */
  lemma {:induction false} PagesServe(table: seq<Row>, arity: nat, limit: nat, cursors: seq<Key>, pages: seq<seq<Row>>,
                                      all: seq<Row>, i: nat)
    requires Keyed(table, arity) && Paging(table, limit, cursors, pages) && i <= |pages|
    requires all == Sort(Newer(table, cursors[0]))
    ensures Concat(pages[..i]) == all[..Served(i, limit, |all|)]
    ensures cursors[i] == Mark(cursors[0], all, Served(i, limit, |all|))
  {
    if i > 0 {
      PagesServe(table, arity, limit, cursors, pages, all, i - 1);
      ServedNext(i - 1, limit, |all|);
      var k, upto := Served(i - 1, limit, |all|), Served(i, limit, |all|);
      NextPage(table, arity, limit, cursors, pages, all, i - 1, k, upto);
      ConcatNext(pages, all, i - 1, k, upto);
    }
  }

  /** Once everything has been served, pages are empty and the cursor stays; never before. */
  lemma EndOfFeed(table: seq<Row>, arity: nat, limit: nat, cursors: seq<Key>, pages: seq<seq<Row>>, all: seq<Row>,
                  i: nat)
    requires Keyed(table, arity) && Paging(table, limit, cursors, pages) && i < |pages| && limit > 0
    requires all == Sort(Newer(table, cursors[0]))
    ensures pages[i] == [] <==> Concat(pages[..i]) == all
    ensures pages[i] == [] ==> cursors[i + 1] == cursors[i]
    ensures i * limit >= |all| ==> pages[i] == []
  {
    PagesServe(table, arity, limit, cursors, pages, all, i);
    var k := Served(i, limit, |all|);
    NextPage(table, arity, limit, cursors, pages, all, i, k, Min(k + limit, |all|));
    assert k == |all| <==> all[..k] == all;
  }

  /** A full sync leaves out only a row whose key columns are all empty. */
  lemma EverythingIsPastTheStart(table: seq<Row>, arity: nat)
    requires Keyed(table, arity)
    ensures var all := Sort(Newer(table, seq(arity, _ => "")));
      Increasing(all) && forall x :: x in all <==> x in table && x.key != seq(arity, _ => "")
  {
    var start := seq(arity, _ => "");
    NewerHolds(table, start, arity);
    SortLists(Newer(table, start), arity);
    forall x <- table ensures KeyLess(start, x.key) <==> x.key != start {
      EmptyIsLeast(x.key);
    }
  }

  lemma {:induction false} EmptyIsLeast(k: Key)
    ensures KeyLess(seq(|k|, _ => ""), k) <==> k != seq(|k|, _ => "")
  {
    if k != [] {
      var low := seq(|k|, _ => "");
      assert low[1..] == seq(|k[1..]|, _ => "");
      EmptyIsLeast(k[1..]);
      assert k == [k[0]] + k[1..] && low == [""] + low[1..];
    }
  }
}
