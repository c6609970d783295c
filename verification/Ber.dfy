/** The BER framing of connectionless LDAP (crates/magnetite-addc/src/cldap.rs): definite lengths
    and integers as in sections 8.1.3 and 8.3 of X.690, messages as in section 4.1.1 of RFC 4511. */
module Ber {
  import opened Ordering

  type Byte = x: int | 0 <= x < 256

  type Bytes = seq<Byte>

  const MAX_USIZE := 0xFFFF_FFFF_FFFF_FFFF
  const TWO_32 := 0x1_0000_0000
  const TWO_31 := 0x8000_0000

  type Usize = x: int | 0 <= x <= MAX_USIZE
  type I32 = x: int | -TWO_31 <= x < TWO_31

  // ---- Big-endian numbers ------------------------------------------------------------------

  function Pow256(n: nat): nat {
    if n == 0 then 1 else 256 * Pow256(n - 1)
  }

  /** What a string of bytes means, most significant first. */
  function Value(b: Bytes): nat {
    if b == [] then 0 else Value(b[..|b| - 1]) * 256 + b[|b| - 1]
  }

  function BigEndian(x: nat, width: nat): (b: Bytes)
    ensures |b| == width
  {
    if width == 0 then [] else BigEndian(x / 256, width - 1) + [x % 256]
  }

  lemma {:induction false} BigEndianValue(x: nat, width: nat)
    requires x < Pow256(width)
    ensures Value(BigEndian(x, width)) == x
  {
    if width > 0 {
      BigEndianValue(x / 256, width - 1);
      var b := BigEndian(x, width);
      assert b[..|b| - 1] == BigEndian(x / 256, width - 1);
    }
  }

  lemma {:induction false} ValueSplit(a: Bytes, b: Bytes)
    ensures Value(a + b) == Value(a) * Pow256(|b|) + Value(b)
  {
    if b == [] {
      assert a + b == a;
    } else {
      var init := b[..|b| - 1];
      assert (a + b)[..|a + b| - 1] == a + init;
      ValueSplit(a, init);
      Shifted(Value(a), Pow256(|init|), Value(init), b[|b| - 1]);
    }
  }

  lemma Shifted(x: nat, p: nat, y: nat, z: nat)
    ensures (x * p + y) * 256 + z == x * (256 * p) + (y * 256 + z)
  {
  }

  lemma {:induction false} ValueBelow(b: Bytes)
    ensures Value(b) < Pow256(|b|)
  {
    if b != [] { ValueBelow(b[..|b| - 1]); }
  }

  /** Leading zeros do not change the value; without them it fills its length. */
  lemma {:induction false} NoLeadingZero(b: Bytes)
    requires b != [] && b[0] != 0
    ensures Value(b) >= Pow256(|b| - 1)
  {
    if |b| > 1 { NoLeadingZero(b[..|b| - 1]); }
  }

  lemma {:induction false} ZerosAreNothing(b: Bytes, n: nat)
    requires n <= |b| && forall i :: 0 <= i < n ==> b[i] == 0
    ensures Value(b) == Value(b[n..])
  {
    assert b == b[..n] + b[n..];
    ValueSplit(b[..n], b[n..]);
    AllZero(b[..n]);
  }

  lemma {:induction false} AllZero(b: Bytes)
    requires forall i :: 0 <= i < |b| ==> b[i] == 0
    ensures Value(b) == 0
  {
    if b != [] { AllZero(b[..|b| - 1]); }
  }

  lemma {:induction false} Pow256Grows(a: nat, b: nat)
    requires a <= b
    ensures Pow256(a) <= Pow256(b)
  {
    if a < b { Pow256Grows(a, b - 1); }
  }

  lemma Powers()
    ensures Pow256(3) == 0x100_0000 && Pow256(4) == TWO_32 && Pow256(8) == MAX_USIZE + 1
  {
    assert Pow256(2) == 0x1_0000;
    assert Pow256(5) == 256 * Pow256(4);
    assert Pow256(7) == 256 * Pow256(6);
  }

  // ---- Lengths -----------------------------------------------------------------------------

  /** The only minimal length octets: short form below 128, else the fewest octets that hold it. */
  ghost predicate IsLength(len: nat, b: Bytes) {
    if len < 0x80 then b == [len]
    else |b| >= 2 && b[0] == 0x80 + |b| - 1 && b[1] != 0 && Value(b[1..]) == len
  }

  method BerLen(len: Usize) returns (out: Bytes)
    ensures IsLength(len, out) && 1 <= |out| <= 9
  {
    if len < 0x80 {
      return [len];
    }
    var bytes := BigEndian(len, 8);
    Powers();
    BigEndianValue(len, 8);
    var first := 0;
    while first < 8 && bytes[first] == 0
      invariant first <= 8 && forall i :: 0 <= i < first ==> bytes[i] == 0
    {
      first := first + 1;
    }
    ZerosAreNothing(bytes, first);
    out := [0x80 + 8 - first] + bytes[first..];
    assert out[1..] == bytes[first..];
  }

  lemma LengthIsUnique(len: nat, a: Bytes, b: Bytes)
    requires IsLength(len, a) && IsLength(len, b)
    ensures a == b
  {
    if len >= 0x80 {
      SameLength(a[1..], b[1..]);
      SameLength(b[1..], a[1..]);
      ValueInjective(a[1..], b[1..]);
      assert a == [a[0]] + a[1..] && b == [b[0]] + b[1..];
    }
  }

  lemma SameLength(a: Bytes, b: Bytes)
    requires a != [] && b != [] && b[0] != 0 && Value(a) == Value(b)
    ensures |a| >= |b|
  {
    ValueBelow(a);
    NoLeadingZero(b);
    if |a| < |b| { Pow256Grows(|a|, |b| - 1); }
  }

  lemma {:induction false} ValueInjective(a: Bytes, b: Bytes)
    requires |a| == |b| && Value(a) == Value(b)
    ensures a == b
  {
    if a != [] {
      ValueInjective(a[..|a| - 1], b[..|b| - 1]);
      SplitLast(a);
      SplitLast(b);
    }
  }

  /** What `read_len` reads at `p`: the length and the octets it took. */
  function LengthAt(d: Bytes, p: nat): Option<(nat, nat)> {
    if p >= |d| then None
    else if d[p] < 0x80 then Some((d[p], 1))
    else
      var n := d[p] - 0x80;
      if n == 0 || n > 4 || p + 1 + n > |d| then None else Some((Value(d[p + 1..p + 1 + n]), 1 + n))
  }

  method ReadLen(d: Bytes, p: nat) returns (r: Option<(nat, nat)>)
    ensures r == LengthAt(d, p)
    ensures r.Some? ==> p + r.value.1 <= |d|
  {
    if p >= |d| {
      return None;
    }
    var first := d[p];
    if first < 0x80 {
      return Some((first, 1));
    }
    var n := first - 0x80;
    if n == 0 || n > 4 {
      return None;
    }
    var len: nat := 0;
    for i := 0 to n
      invariant p + 1 + i <= |d| && len == Value(d[p + 1..p + 1 + i])
    {
      if p + 1 + i >= |d| {
        return None;
      }
      assert d[p + 1..p + 1 + i + 1][..i] == d[p + 1..p + 1 + i];
      len := len * 256 + d[p + 1 + i];
    }
    r := Some((len, 1 + n));
  }

  /** Reading back a length works exactly below 2^32. */
  lemma LengthRoundTripIff(before: Bytes, len: nat, b: Bytes, rest: Bytes)
    requires IsLength(len, b)
    ensures LengthAt(before + b + rest, |before|) == Some((len, |b|)) <==> len < TWO_32
  {
    var d := before + b + rest;
    assert d[|before|] == b[0];
    if len >= 0x80 {
      Powers();
      var sig := b[1..];
      ValueBelow(sig);
      NoLeadingZero(sig);
      if |sig| <= 4 {
        Pow256Grows(|sig|, 4);
        assert d[|before| + 1..|before| + 1 + |sig|] == sig;
      } else {
        Pow256Grows(4, |sig| - 1);
      }
    }
  }

  // ---- Elements ----------------------------------------------------------------------------

  /** One element: tag, minimal length, contents. */
  ghost predicate IsElement(tag: Byte, content: Bytes, b: Bytes) {
    exists len: Bytes :: IsLength(|content|, len) && b == [tag] + len + content
  }

  method Tlv(tag: Byte, content: Bytes) returns (out: Bytes)
    requires |content| <= MAX_USIZE
    ensures IsElement(tag, content, out) && |out| <= |content| + 10
  {
    out := [tag];
    var len := BerLen(|content|);
    out := out + len;
    out := out + content;
  }

  /** Tag and length take at most six octets below 2^32, and at least six from 2^24 on. */
  lemma ElementSize(tag: Byte, content: Bytes, b: Bytes)
    requires IsElement(tag, content, b)
    ensures |content| < TWO_32 ==> |b| <= |content| + 6
    ensures |content| >= 0x100_0000 ==> |b| >= |content| + 6
    ensures |content| < 0x80 ==> |b| == |content| + 2
  {
    var len: Bytes :| IsLength(|content|, len) && b == [tag] + len + content;
    if |content| >= 0x80 {
      Powers();
      var sig := len[1..];
      ValueBelow(sig);
      NoLeadingZero(sig);
      if |sig| > 4 { Pow256Grows(4, |sig| - 1); }
      if |sig| < 4 { Pow256Grows(|sig|, 3); }
    }
  }

  /** Reading one element: its tag, contents and where the next one starts. */
  function ElementAt(d: Bytes, p: nat): Option<(Byte, Bytes, nat)> {
    if p >= |d| then None
    else match LengthAt(d, p + 1)
      case None => None
      case Some((len, adv)) =>
        var from := p + 1 + adv;
        if from + len > |d| then None else Some((d[p], d[from..from + len], from + len))
  }

  /** An element reads back wherever it stands. */
  lemma ElementReadsBack(before: Bytes, tag: Byte, content: Bytes, b: Bytes, rest: Bytes)
    requires IsElement(tag, content, b) && |content| < TWO_32
    ensures ElementAt(before + b + rest, |before|) == Some((tag, content, |before + b|))
  {
    var len: Bytes :| IsLength(|content|, len) && b == [tag] + len + content;
    var d := before + b + rest;
    LengthRoundTripIff(before + [tag], |content|, len, content + rest);
    assert before + [tag] + len + (content + rest) == d;
    assert d[|before|] == tag;
    var from := |before| + 1 + |len|;
    assert d[from..from + |content|] == content;
  }

  // ---- Integers ----------------------------------------------------------------------------

  /** The low 32 bits as a signed number. */
  function Signed(x: int): I32 {
    var m := x % TWO_32;
    if m < TWO_31 then m else m - TWO_32
  }

  /** What the contents of an INTEGER mean: two's complement, section 8.3.3 of X.690. */
  function IntegerValue(c: Bytes): int
    requires c != []
  {
    if c[0] < 0x80 then Value(c) else Value(c) - Pow256(|c|)
  }

  /** Section 8.3.2 of X.690: the first nine bits are not all alike. */
  ghost predicate Minimal(c: Bytes) {
    |c| >= 1 && (|c| > 1 ==> !(c[0] == 0 && c[1] < 0x80) && !(c[0] == 0xFF && c[1] >= 0x80))
  }

  /** The octets `integer` keeps. */
  method IntegerContent(v: I32) returns (content: Bytes)
    ensures 1 <= |content| <= 4 && IntegerValue(content) == v
    ensures |content| > 1 ==> !(content[0] == 0 && content[1] < 0x80)
    ensures v < 0 ==> |content| == 4
  {
    var bits := v % TWO_32;
    var bytes := BigEndian(bits, 4);
    Powers();
    BigEndianValue(bits, 4);
    TopByte(bytes);
    var start := 0;
    while start < 3 && bytes[start] == 0 && bytes[start + 1] < 0x80
      invariant start <= 3 && forall i :: 0 <= i < start ==> bytes[i] == 0
      invariant start > 0 ==> bytes[start] < 0x80
    {
      start := start + 1;
    }
    ZerosAreNothing(bytes, start);
    content := bytes[start..];
  }

  lemma TopByte(b: Bytes)
    requires |b| == 4
    ensures b[0] < 0x80 <==> Value(b) < TWO_31
  {
    assert b == [b[0]] + b[1..];
    ValueSplit([b[0]], b[1..]);
    ValueBelow(b[1..]);
    Powers();
    assert [b[0]][..0] == [];
    assert Value([b[0]]) == b[0];
  }

  /** The octets are minimal exactly for ids that are not negative, or need all four octets. */
  lemma MinimalIff(v: I32, content: Bytes)
    requires 1 <= |content| <= 4 && IntegerValue(content) == v
    requires |content| > 1 ==> !(content[0] == 0 && content[1] < 0x80)
    requires v < 0 ==> |content| == 4
    ensures Minimal(content) <==> v >= 0 || v < -0x80_0000
  {
    Powers();
    if v < 0 {
      assert content == content[..1] + content[1..];
      ValueSplit(content[..1], content[1..]);
      ValueBelow(content[1..]);
      assert Value(content[..1]) == content[0] by { assert content[..1][..0] == []; }
      var rest := content[1..];
      assert rest == rest[..1] + rest[1..];
      ValueSplit(rest[..1], rest[1..]);
      ValueBelow(rest[1..]);
      assert Value(rest[..1]) == rest[0] by { assert rest[..1][..0] == []; }
      assert Pow256(2) == 0x1_0000;
    } else {
      ValueBelow(content);
    }
  }

  /** An INTEGER element for `v`, minimal unless `v` is negative and fits in three octets. */
  ghost predicate IsInteger(v: I32, b: Bytes) {
    exists content: Bytes :: IsElement(0x02, content, b) && IsContent(v, content)
  }

  ghost predicate IsContent(v: I32, content: Bytes) {
    && 1 <= |content| <= 4 && IntegerValue(content) == v && (v < 0 ==> |content| == 4)
    && (Minimal(content) <==> v >= 0 || v < -0x80_0000)
  }

  /** The octets an id takes. */
  function Octets(v: I32): nat {
    if 0 <= v < 0x80 then 1 else if 0 <= v < 0x8000 then 2 else if 0 <= v < 0x80_0000 then 3 else 4
  }

  lemma ContentSize(v: I32, content: Bytes)
    requires IsContent(v, content)
    ensures |content| == Octets(v)
  {
    if v >= 0 {
      Powers();
      assert content == content[..1] + content[1..];
      ValueSplit(content[..1], content[1..]);
      ValueBelow(content[1..]);
      assert Value(content[..1]) == content[0] by { assert content[..1][..0] == []; }
      assert Pow256(0) == 1 && Pow256(1) == 256 && Pow256(2) == 0x1_0000;
      if |content| > 1 { SecondOctet(content[1..]); }
    }
  }

  lemma SecondOctet(rest: Bytes)
    requires 1 <= |rest| <= 3
    ensures rest[0] >= 0x80 ==> Value(rest) >= 0x80 * Pow256(|rest| - 1)
  {
    assert rest == rest[..1] + rest[1..];
    ValueSplit(rest[..1], rest[1..]);
    assert Value(rest[..1]) == rest[0] by { assert rest[..1][..0] == []; }
  }

  lemma IntegerOctets(v: I32, b: Bytes) returns (content: Bytes)
    requires IsInteger(v, b)
    ensures IsElement(0x02, content, b) && IsContent(v, content)
  {
    content :| IsElement(0x02, content, b) && IsContent(v, content);
  }

  method Integer(v: I32) returns (out: Bytes)
    ensures IsInteger(v, out) && |out| <= 14
  {
    var content := IntegerContent(v);
    MinimalIff(v, content);
    out := Tlv(0x02, content);
    assert IsContent(v, content);
  }

  /** -1 is written in four octets where one would do. */
  lemma MinusOneIsLong(content: Bytes)
    requires IsContent(-1, content)
    ensures |content| == 4 && !Minimal(content) && Minimal([0xFF]) && IntegerValue([0xFF]) == -1
  {
    assert [0xFF][..0] == [];
    Powers();
    assert Value([0xFF]) == 0xFF;
    assert Pow256(1) == 256;
  }
}
