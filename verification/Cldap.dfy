/** Netlogon pings over connectionless LDAP (crates/magnetite-addc/src/cldap.rs): reading a search
    request's id and framing the two-message answer. */
module Cldap {
  import opened Ordering
  import opened Ber

  // ---- Requests ----------------------------------------------------------------------------

  /** The id of a search request: SEQUENCE, INTEGER, then [APPLICATION 3]; nothing for the rest. */
  function MessageId(d: Bytes): Option<I32> {
    if d == [] || d[0] != 0x30 then None
    else match LengthAt(d, 1)
      case None => None
      case Some((_, adv)) => IdAt(d, 1 + adv)
  }

  function IdAt(d: Bytes, p: nat): Option<I32> {
    if p >= |d| || d[p] != 0x02 then None
    else match LengthAt(d, p + 1)
      case None => None
      case Some((n, adv)) =>
        var from := p + 1 + adv;
        if from + n >= |d| || d[from + n] != 0x63 then None else Some(Signed(Value(d[from..from + n])))
  }

  method ParseSearchMessageId(d: Bytes) returns (r: Option<I32>)
    ensures r == MessageId(d)
  {
    if d == [] || d[0] != 0x30 {
      return None;
    }
    var outer := ReadLen(d, 1);
    if outer.None? {
      return None;
    }
    var p := 1 + outer.value.1;
    if p >= |d| || d[p] != 0x02 {
      return None;
    }
    p := p + 1;
    var inner := ReadLen(d, p);
    if inner.None? {
      return None;
    }
    p := p + inner.value.1;
    var n := inner.value.0;
    if p + n > |d| {
      return None;
    }
    var v := ReadId(d[p..p + n]);
    p := p + n;
    if p >= |d| || d[p] != 0x63 {
      return None;
    }
    r := Some(v);
  }

  /** Octets are shifted into a 32-bit register; what does not fit falls off the top. */
  method ReadId(bytes: Bytes) returns (v: I32)
    ensures v == Signed(Value(bytes))
  {
    v := 0;
    for i := 0 to |bytes|
      invariant v == Signed(Value(bytes[..i]))
    {
      assert bytes[..i + 1][..i] == bytes[..i];
      ShiftIn(Value(bytes[..i]), bytes[i]);
      v := Signed(v * 256 + bytes[i]);
    }
    assert bytes[..|bytes|] == bytes;
  }

  lemma ShiftIn(x: int, b: Byte)
    ensures Signed(Signed(x) * 256 + b) == Signed(x * 256 + b)
  {
    var k := x / TWO_32;
    var m := x % TWO_32;
    assert x == k * TWO_32 + m;
    var y := m * 256 + b;
    SameLowBits(y, 256 * k);
    assert x * 256 + b == y + 256 * k * TWO_32;
    SameLowBits(y, -256);
  }

  lemma SameLowBits(y: int, n: int)
    ensures (y + n * TWO_32) % TWO_32 == y % TWO_32
  {
    var q := y / TWO_32;
    assert y + n * TWO_32 == (q + n) * TWO_32 + y % TWO_32;
  }

  /** The id read is the INTEGER sent exactly when that fits in 32 bits and, if negative, was sent in
      at least four octets; an INTEGER without octets reads as zero. */
  lemma ReadIdIsIntegerIff(c: Bytes)
    ensures c == [] ==> Signed(Value(c)) == 0
    ensures c != [] ==> (Signed(Value(c)) == IntegerValue(c)
      <==> -TWO_31 <= IntegerValue(c) < TWO_31 && (c[0] < 0x80 || |c| >= 4))
  {
    if |c| >= 4 {
      WholeWords(|c|);
      WrapsToSigned(Value(c), IntegerValue(c), if c[0] < 0x80 then 0 else Words(|c|));
    } else if c != [] {
      ShortIds(c);
    }
  }

  lemma WrapsToSigned(x: int, y: int, n: int)
    requires y == x - n * TWO_32
    ensures Signed(x) == y <==> -TWO_31 <= y < TWO_31
  {
    SameLowBits(x, 0 - n);
    if -TWO_31 <= y < TWO_31 { SignedIsItself(y); }
  }

  lemma SignedIsItself(y: int)
    requires -TWO_31 <= y < TWO_31
    ensures Signed(y) == y
  {
    if y < 0 { SameLowBits(y, 1); }
  }

  /** How many times 2^32 fits in 256^n. */
  function Words(n: nat): nat
    requires n >= 4
  {
    Pow256(n - 4)
  }

  lemma {:induction false} WholeWords(n: nat)
    requires n >= 4
    ensures Pow256(n) == Words(n) * TWO_32
  {
    Powers();
    if n > 4 { WholeWords(n - 1); }
  }

  lemma ShortIds(c: Bytes)
    requires 1 <= |c| <= 3
    ensures -TWO_31 <= IntegerValue(c) < TWO_31
    ensures Signed(Value(c)) == IntegerValue(c) <==> c[0] < 0x80
  {
    Powers();
    ValueBelow(c);
    Pow256Grows(|c|, 3);
    SignedIsItself(Value(c));
  }

  /** A minimal INTEGER, 2^31, that reads as -2^31. */
  lemma LargeIdWraps()
    ensures var c := [0x00, 0x80, 0x00, 0x00, 0x00];
      Minimal(c) && IntegerValue(c) == TWO_31 && MessageId([0x30, 0x08, 0x02, 0x05] + c + [0x63]) == Some(-TWO_31)
  {
    var c := [0x00, 0x80, 0x00, 0x00, 0x00];
    var d := [0x30, 0x08, 0x02, 0x05] + c + [0x63];
    ZerosAreNothing(c, 1);
    ValueSplit([0x80], [0x00, 0x00, 0x00]);
    AllZero([0x00, 0x00, 0x00]);
    Powers();
    assert c[1..] == [0x80] + [0x00, 0x00, 0x00];
    assert Value([0x80]) == 0x80 by { assert [0x80][..0] == []; }
    assert Value(c) == TWO_31;
    assert d[4..9] == c && d[9] == 0x63;
    assert LengthAt(d, 1) == Some((8, 1)) && LengthAt(d, 3) == Some((5, 1));
  }

  /** And a minimal INTEGER, -1, that reads as 255. */
  lemma ShortNegativeIsMisread()
    ensures Minimal([0xFF]) && IntegerValue([0xFF]) == -1
    ensures MessageId([0x30, 0x04, 0x02, 0x01, 0xFF, 0x63]) == Some(255)
  {
    var d: Bytes := [0x30, 0x04, 0x02, 0x01, 0xFF, 0x63];
    assert Value([0xFF]) == 0xFF by { assert [0xFF][..0] == []; }
    assert Pow256(1) == 256;
    assert d[4..5] == [0xFF] && d[5] == 0x63;
    assert LengthAt(d, 1) == Some((4, 1)) && LengthAt(d, 3) == Some((1, 1));
  }

  /** A framed search request parses to its id, for every id, exactly when its length is readable. */
  lemma RequestParsesIff(id: I32, integer: Bytes, search: Bytes, message: Bytes)
    requires IsInteger(id, integer) && IsElement(0x30, integer + [0x63] + search, message)
    ensures MessageId(message) == Some(id) <==> |integer + [0x63] + search| < TWO_32
  {
    var content := IntegerOctets(id, integer);
    var body := integer + [0x63] + search;
    var len: Bytes :| IsLength(|body|, len) && message == [0x30] + len + body;
    if |body| < TWO_32 {
      ReadableParses(id, content, integer, search, len);
      Regroup([0x30] + len, integer, [0x63], search);
    } else {
      LongLengthIsUnreadable(message, 0x30, |body|, len, body);
    }
  }

  lemma Regroup(a: Bytes, b: Bytes, c: Bytes, d: Bytes)
    ensures a + (b + c + d) == a + b + c + d
  {
  }

  lemma ReadableParses(id: I32, content: Bytes, integer: Bytes, search: Bytes, len: Bytes)
    requires IsElement(0x02, content, integer) && 1 <= |content| <= 4 && IntegerValue(content) == id
    requires id < 0 ==> |content| == 4
    requires IsLength(|integer + [0x63] + search|, len) && |integer + [0x63] + search| < TWO_32
    ensures MessageId([0x30] + len + integer + [0x63] + search) == Some(id)
  {
    var body := integer + [0x63] + search;
    LengthRoundTripIff([0x30], |body|, len, body);
    Regroup([0x30] + len, integer, [0x63], search);
    IdAfterLength([0x30] + len, id, content, integer, search);
  }

  lemma IdAfterLength(before: Bytes, id: I32, content: Bytes, integer: Bytes, search: Bytes)
    requires IsElement(0x02, content, integer) && 1 <= |content| <= 4 && IntegerValue(content) == id
    requires id < 0 ==> |content| == 4
    ensures IdAt(before + integer + [0x63] + search, |before|) == Some(id)
  {
    var d := before + integer + [0x63] + search;
    var len: Bytes :| IsLength(|content|, len) && integer == [0x02] + len + content;
    assert len == [|content|];
    var rest := content + [0x63] + search;
    assert before + [0x02] + len + rest == d;
    LengthRoundTripIff(before + [0x02], |content|, len, rest);
    var from := |before| + 2;
    assert d[|before|] == 0x02;
    assert d[from..from + |content|] == content && d[from + |content|] == 0x63;
    ValueBelow(content);
    ReadIdIsIntegerIff(content);
  }

  lemma LongLengthIsUnreadable(message: Bytes, tag: Byte, n: nat, len: Bytes, body: Bytes)
    requires IsLength(n, len) && n >= TWO_32 && message == [tag] + len + body
    ensures LengthAt(message, 1) == None
  {
    Powers();
    ValueBelow(len[1..]);
    if |len| <= 5 { Pow256Grows(|len| - 1, 4); }
    assert message[1] == len[0];
  }

  // ---- Answers -----------------------------------------------------------------------------

  datatype Element = Element(tag: Byte, content: Bytes)

  /** All elements of a string of bytes, if it is made of whole elements. */
  function Elements(d: Bytes): Option<seq<Element>> {
    if d == [] then Some([])
    else match ElementAt(d, 0)
      case None => None
      case Some((tag, content, next)) =>
        match Elements(d[next..])
        case None => None
        case Some(rest) => Some([Element(tag, content)] + rest)
  }

  lemma ElementThen(tag: Byte, content: Bytes, b: Bytes, rest: Bytes, es: seq<Element>)
    requires IsElement(tag, content, b) && |content| < TWO_32 && Elements(rest) == Some(es)
    ensures Elements(b + rest) == Some([Element(tag, content)] + es)
  {
    ElementReadsBack([], tag, content, b, rest);
    assert [] + b + rest == b + rest;
    assert [] + b == b;
    assert (b + rest)[|b|..] == rest;
  }

  lemma OneElement(tag: Byte, content: Bytes, b: Bytes)
    requires IsElement(tag, content, b) && |content| < TWO_32
    ensures Elements(b) == Some([Element(tag, content)])
  {
    ElementThen(tag, content, b, [], []);
    assert b + [] == b && [Element(tag, content)] + [] == [Element(tag, content)];
  }

  lemma TwoElements(t0: Byte, c0: Bytes, b0: Bytes, t1: Byte, c1: Bytes, b1: Bytes)
    requires IsElement(t0, c0, b0) && |c0| < TWO_32 && IsElement(t1, c1, b1) && |c1| < TWO_32
    ensures Elements(b0 + b1) == Some([Element(t0, c0), Element(t1, c1)])
  {
    OneElement(t1, c1, b1);
    ElementThen(t0, c0, b0, b1, [Element(t1, c1)]);
    assert [Element(t0, c0)] + [Element(t1, c1)] == [Element(t0, c0), Element(t1, c1)];
  }

  const NETLOGON: Bytes := [0x4E, 0x65, 0x74, 0x6C, 0x6F, 0x67, 0x6F, 0x6E]

  /** The contents of exactly one element with this tag. */
  function Single(b: Bytes, tag: Byte): Option<Bytes> {
    match Elements(b)
    case None => None
    case Some(es) => if |es| == 1 && es[0].tag == tag then Some(es[0].content) else None
  }

  /** The contents of exactly two elements with these tags. */
  function Pair(b: Bytes, t0: Byte, t1: Byte): Option<(Bytes, Bytes)> {
    match Elements(b)
    case None => None
    case Some(es) =>
      if |es| == 2 && es[0].tag == t0 && es[1].tag == t1 then Some((es[0].content, es[1].content)) else None
  }

  /** The one value of a Netlogon attribute. */
  function ReadAttribute(b: Bytes): Option<Bytes> {
    match Pair(b, 0x04, 0x31)
    case None => None
    case Some((name, vals)) => if name == NETLOGON then Single(vals, 0x04) else None
  }

  /** The value in a search entry for the root with that one attribute. */
  function ReadEntry(b: Bytes): Option<Bytes> {
    match Pair(b, 0x04, 0x30)
    case None => None
    case Some((name, list)) =>
      match Single(list, 0x30)
      case None => None
      case Some(attribute) => if name == [] then ReadAttribute(attribute) else None
  }

  /** A message's id and the contents of its operation. */
  function ReadMessage(b: Bytes, op: Byte): Option<(int, Bytes)> {
    match Pair(b, 0x02, op)
    case None => None
    case Some((id, body)) => if id == [] then None else Some((IntegerValue(id), body))
  }

  /** Success, with no matched name and no message. */
  ghost predicate IsSuccess(b: Bytes) {
    Elements(b) == Some([Element(0x0a, [0]), Element(0x04, []), Element(0x04, [])])
  }

  /** The ids of exactly two messages, an entry and a success, and the blob the entry carries. */
  ghost function ReadAnswer(d: Bytes): Option<(int, int, Bytes)> {
    match Pair(d, 0x30, 0x30)
    case None => None
    case Some((first, second)) =>
      match (ReadMessage(first, 0x64), ReadMessage(second, 0x65))
      case (Some((id, entry)), Some((again, done))) =>
        (match ReadEntry(entry)
         case None => None
         case Some(blob) => if IsSuccess(done) then Some((id, again, blob)) else None)
      case _ => None
  }

  // What an answer is made of, at any size.

  ghost predicate IsAttribute(blob: Bytes, b: Bytes) {
    exists name: Bytes, value: Bytes, vals: Bytes ::
      IsElement(0x04, NETLOGON, name) && IsElement(0x04, blob, value) && IsElement(0x31, value, vals)
      && b == name + vals
  }

  ghost predicate IsEntryBody(blob: Bytes, b: Bytes) {
    exists attribute: Bytes, partial: Bytes, name: Bytes, list: Bytes ::
      IsAttribute(blob, attribute) && IsElement(0x30, attribute, partial)
      && IsElement(0x04, [], name) && IsElement(0x30, partial, list) && b == name + list
  }

  ghost predicate IsMessage(id: I32, op: Byte, body: Bytes, b: Bytes) {
    exists integer: Bytes, operation: Bytes ::
      IsInteger(id, integer) && IsElement(op, body, operation) && b == integer + operation
  }

  /** The contents of the two messages of an answer, and the messages. */
  datatype Answer = Answer(entryBody: Bytes, entry: Bytes, doneBody: Bytes, done: Bytes, first: Bytes, second: Bytes)

  ghost predicate IsAnswer(id: I32, blob: Bytes, a: Answer, b: Bytes) {
    && IsEntryBody(blob, a.entryBody) && IsMessage(id, 0x64, a.entryBody, a.entry)
    && IsSuccess(a.doneBody) && |a.doneBody| <= 31 && IsMessage(id, 0x65, a.doneBody, a.done)
    && IsElement(0x30, a.entry, a.first) && IsElement(0x30, a.done, a.second) && b == a.first + a.second
  }

  lemma AttributeReads(blob: Bytes, b: Bytes)
    requires IsAttribute(blob, b) && |b| < TWO_32
    ensures ReadAttribute(b) == Some(blob)
  {
    var name: Bytes, value: Bytes, vals: Bytes :|
      IsElement(0x04, NETLOGON, name) && IsElement(0x04, blob, value) && IsElement(0x31, value, vals)
      && b == name + vals;
    OneElement(0x04, blob, value);
    TwoElements(0x04, NETLOGON, name, 0x31, value, vals);
  }

  lemma EntryReads(blob: Bytes, b: Bytes)
    requires IsEntryBody(blob, b) && |b| < TWO_32
    ensures ReadEntry(b) == Some(blob)
  {
    var attribute: Bytes, partial: Bytes, name: Bytes, list: Bytes :|
      IsAttribute(blob, attribute) && IsElement(0x30, attribute, partial)
      && IsElement(0x04, [], name) && IsElement(0x30, partial, list) && b == name + list;
    AttributeReads(blob, attribute);
    OneElement(0x30, attribute, partial);
    TwoElements(0x04, [], name, 0x30, partial, list);
  }

  lemma MessageReads(id: I32, op: Byte, body: Bytes, b: Bytes)
    requires IsMessage(id, op, body, b) && |body| < TWO_32
    ensures ReadMessage(b, op) == Some((id as int, body)) && |b| > |body|
  {
    var integer: Bytes, operation: Bytes :|
      IsInteger(id, integer) && IsElement(op, body, operation) && b == integer + operation;
    var c := IntegerOctets(id, integer);
    TwoElements(0x02, c, integer, op, body, operation);
  }

  /** The answer reads back as exactly two messages with the request's id, the first carrying the blob
      unchanged, exactly when the first message's length is readable. */
  lemma AnswerReadsIff(id: I32, blob: Bytes, a: Answer, b: Bytes)
    requires IsAnswer(id, blob, a, b)
    ensures ReadAnswer(b) == Some((id as int, id as int, blob)) <==> |a.entry| < TWO_32
  {
    if |a.entry| < TWO_32 {
      ReadableAnswer(id, blob, a, b);
    } else {
      LongElementIsUnreadable(0x30, a.entry, a.first, a.second);
    }
  }

  lemma ReadableAnswer(id: I32, blob: Bytes, a: Answer, b: Bytes)
    requires IsAnswer(id, blob, a, b) && |a.entry| < TWO_32
    ensures ReadAnswer(b) == Some((id as int, id as int, blob))
  {
    assert ReadMessage(a.entry, 0x64) == Some((id as int, a.entryBody)) && ReadEntry(a.entryBody) == Some(blob) by {
      BodyIsShorter(id, 0x64, a.entryBody, a.entry);
      EntryReads(blob, a.entryBody);
      MessageReads(id, 0x64, a.entryBody, a.entry);
    }
    assert ReadMessage(a.done, 0x65) == Some((id as int, a.doneBody)) by {
      MessageReads(id, 0x65, a.doneBody, a.done);
    }
    assert Pair(b, 0x30, 0x30) == Some((a.entry, a.done)) by {
      ShortMessage(id, 0x65, a.doneBody, a.done);
      PairReads(0x30, a.entry, a.first, 0x30, a.done, a.second);
    }
  }

  lemma PairReads(t0: Byte, c0: Bytes, b0: Bytes, t1: Byte, c1: Bytes, b1: Bytes)
    requires IsElement(t0, c0, b0) && |c0| < TWO_32 && IsElement(t1, c1, b1) && |c1| < TWO_32
    ensures Pair(b0 + b1, t0, t1) == Some((c0, c1))
  {
    TwoElements(t0, c0, b0, t1, c1, b1);
  }

  lemma LongElementIsUnreadable(tag: Byte, content: Bytes, b: Bytes, rest: Bytes)
    requires IsElement(tag, content, b) && |content| >= TWO_32
    ensures Elements(b + rest) == None
  {
    var len: Bytes :| IsLength(|content|, len) && b == [tag] + len + content;
    assert b + rest == [tag] + len + (content + rest);
    LongLengthIsUnreadable(b + rest, tag, |content|, len, content + rest);
  }

  lemma BodyIsShorter(id: I32, op: Byte, body: Bytes, b: Bytes)
    requires IsMessage(id, op, body, b)
    ensures |body| < |b|
  {
    var integer: Bytes, operation: Bytes :|
      IsInteger(id, integer) && IsElement(op, body, operation) && b == integer + operation;
  }

  lemma ShortMessage(id: I32, op: Byte, body: Bytes, b: Bytes)
    requires IsMessage(id, op, body, b) && |body| <= 31
    ensures |b| < TWO_32
  {
    var integer: Bytes, operation: Bytes :|
      IsInteger(id, integer) && IsElement(op, body, operation) && b == integer + operation;
    var c := IntegerOctets(id, integer);
    ElementSize(0x02, c, integer);
    ElementSize(op, body, operation);
  }

  /** What the first message holds besides the blob and the octets of the id, once lengths take four
      octets. */
  const AROUND := 44

  lemma AttributeSize(blob: Bytes, b: Bytes)
    requires IsAttribute(blob, b)
    ensures |blob| < TWO_32 - 22 ==> |b| <= |blob| + 22
    ensures |blob| >= 0x100_0000 ==> |b| >= |blob| + 22
  {
    var name: Bytes, value: Bytes, vals: Bytes :|
      IsElement(0x04, NETLOGON, name) && IsElement(0x04, blob, value) && IsElement(0x31, value, vals)
      && b == name + vals;
    ElementSize(0x04, NETLOGON, name);
    ElementSize(0x04, blob, value);
    ElementSize(0x31, value, vals);
  }

  lemma EntryBodySize(blob: Bytes, b: Bytes)
    requires IsEntryBody(blob, b)
    ensures |blob| < TWO_32 - 36 ==> |b| <= |blob| + 36
    ensures |blob| >= 0x100_0000 ==> |b| >= |blob| + 36
  {
    var attribute: Bytes, partial: Bytes, name: Bytes, list: Bytes :|
      IsAttribute(blob, attribute) && IsElement(0x30, attribute, partial)
      && IsElement(0x04, [], name) && IsElement(0x30, partial, list) && b == name + list;
    AttributeSize(blob, attribute);
    ElementSize(0x30, attribute, partial);
    ElementSize(0x04, [], name);
    ElementSize(0x30, partial, list);
  }

  /** The first message's length is readable exactly up to this size of the blob. */
  lemma EntryIsReadableIff(id: I32, blob: Bytes, body: Bytes, entry: Bytes)
    requires IsEntryBody(blob, body) && IsMessage(id, 0x64, body, entry)
    ensures |entry| < TWO_32 <==> |blob| < TWO_32 - AROUND - Octets(id)
  {
    var integer: Bytes, operation: Bytes :|
      IsInteger(id, integer) && IsElement(0x64, body, operation) && entry == integer + operation;
    var c := IntegerOctets(id, integer);
    ContentSize(id, c);
    ElementSize(0x02, c, integer);
    EntryBodySize(blob, body);
    ElementSize(0x64, body, operation);
  }

  /** Room for an answer around a blob in memory. */
  const MAX_SLICE := MAX_USIZE - 0x100

  method Attribute(blob: Bytes) returns (content: Bytes)
    requires |blob| <= MAX_SLICE
    ensures |content| <= |blob| + 38 && IsAttribute(blob, content)
  {
    var name := Tlv(0x04, NETLOGON);
    var value := Tlv(0x04, blob);
    var vals := Tlv(0x31, value);
    content := name + vals;
  }

  method EntryBody(blob: Bytes) returns (body: Bytes)
    requires |blob| <= MAX_SLICE
    ensures |body| <= |blob| + 68 && IsEntryBody(blob, body)
  {
    var attribute := Attribute(blob);
    var partial := Tlv(0x30, attribute);
    var name := Tlv(0x04, []);
    var list := Tlv(0x30, partial);
    body := name + list;
  }

  method DoneBody() returns (body: Bytes)
    ensures IsSuccess(body) && |body| <= 31
  {
    var code := Tlv(0x0a, [0]);
    var matched := Tlv(0x04, []);
    var diagnostic := Tlv(0x04, []);
    body := code;
    body := body + matched;
    body := body + diagnostic;
    TwoElements(0x04, [], matched, 0x04, [], diagnostic);
    ElementThen(0x0a, [0], code, matched + diagnostic, [Element(0x04, []), Element(0x04, [])]);
    assert body == code + (matched + diagnostic);
    assert [Element(0x0a, [0])] + [Element(0x04, []), Element(0x04, [])]
        == [Element(0x0a, [0]), Element(0x04, []), Element(0x04, [])];
  }

  method Message(id: I32, op: Byte, body: Bytes) returns (content: Bytes)
    requires |body| <= MAX_SLICE + 68
    ensures |content| <= |body| + 24 && IsMessage(id, op, body, content)
  {
    var integer := Integer(id);
    var protocolOp := Tlv(op, body);
    content := integer + protocolOp;
  }

  /** A searchResEntry with the blob, then a success, in one datagram. */
  method BuildCldapResponse(id: I32, blob: Bytes) returns (out: Bytes, ghost a: Answer)
    requires |blob| <= MAX_SLICE
    ensures IsAnswer(id, blob, a, out)
    ensures ReadAnswer(out) == Some((id as int, id as int, blob)) <==> |blob| < TWO_32 - AROUND - Octets(id)
  {
    var entryBody := EntryBody(blob);
    var entry := Message(id, 0x64, entryBody);
    var entryMessage := Tlv(0x30, entry);
    var doneBody := DoneBody();
    var done := Message(id, 0x65, doneBody);
    var doneMessage := Tlv(0x30, done);
    out := entryMessage;
    out := out + doneMessage;
    a := Answer(entryBody, entry, doneBody, done, entryMessage, doneMessage);
    AnswerReadsIff(id, blob, a, out);
    EntryIsReadableIff(id, blob, entryBody, entry);
  }
}
