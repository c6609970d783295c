/** Text as the standard library's string functions see it: white space, and lists of strings joined
    by a separator. */
module Text {
  import opened Ordering

  /** Characters `str::trim` removes (the Unicode White_Space property). */
  predicate IsSpace(c: char) {
    ('\t' <= c <= '\r') || c == ' ' || c == '\U{85}' || c == '\U{A0}' || c == '\U{1680}'
    || ('\U{2000}' <= c <= '\U{200A}') || c == '\U{2028}' || c == '\U{2029}' || c == '\U{202F}'
    || c == '\U{205F}' || c == '\U{3000}'
  }

  function TrimStart(s: string): string {
    if s != [] && IsSpace(s[0]) then TrimStart(s[1..]) else s
  }

  function TrimEnd(s: string): string {
    if s != [] && IsSpace(s[|s| - 1]) then TrimEnd(s[..|s| - 1]) else s
  }

  function Trim(s: string): string {
    TrimEnd(TrimStart(s))
  }

  lemma {:induction false} TrimEndEnds(s: string)
    ensures TrimEnd(s) <= s && (TrimEnd(s) != [] ==> !IsSpace(TrimEnd(s)[|TrimEnd(s)| - 1]))
  {
    if s != [] && IsSpace(s[|s| - 1]) { TrimEndEnds(s[..|s| - 1]); }
  }

  lemma {:induction false} TrimStartStarts(s: string)
    ensures TrimStart(s) != [] ==> !IsSpace(TrimStart(s)[0])
  {
    if s != [] && IsSpace(s[0]) { TrimStartStarts(s[1..]); }
  }

  // ---- Lists of strings in one text --------------------------------------------------------

  /** Split at the first separator, if there is one. */
  function Cut(s: string, sep: char): (string, Option<string>) {
    if s == "" then ("", None)
    else if s[0] == sep then ("", Some(s[1..]))
    else var (head, tail) := Cut(s[1..], sep); ([s[0]] + head, tail)
  }

  /** At most `n` parts; missing parts read as empty. */
  function SplitN(s: string, n: nat, sep: char): (parts: seq<string>)
    ensures |parts| == n
    decreases n
  {
    if n == 0 then []
    else if n == 1 then [s]
    else match Cut(s, sep)
      case (head, None) => [head] + seq(n - 1, _ => "")
      case (head, Some(tail)) => [head] + SplitN(tail, n - 1, sep)
  }

  function Print(parts: seq<string>, sep: char): string {
    if parts == [] then "" else if |parts| == 1 then parts[0] else parts[0] + [sep] + Print(parts[1..], sep)
  }

  /** Only the last part may hold the separator. */
  ghost predicate PlainParts(parts: seq<string>, sep: char) {
    forall i :: 0 <= i < |parts| - 1 ==> sep !in parts[i]
  }

  lemma {:induction false} CutJoined(a: string, b: string, sep: char)
    requires sep !in a
    ensures Cut(a + [sep] + b, sep) == (a, Some(b))
  {
    var s := a + [sep] + b;
    if a == "" {
      assert s[1..] == b;
    } else {
      CutJoined(a[1..], b, sep);
      assert s[1..] == a[1..] + [sep] + b;
      assert a == [a[0]] + a[1..];
    }
  }

  lemma {:induction false} CutHead(s: string, sep: char)
    ensures sep !in Cut(s, sep).0
  {
    if s != "" && s[0] != sep { CutHead(s[1..], sep); }
  }

  lemma {:induction false} PartsArePlain(s: string, n: nat, sep: char)
    ensures PlainParts(SplitN(s, n, sep), sep)
    decreases n
  {
    if n > 1 {
      CutHead(s, sep);
      match Cut(s, sep)
      case (head, None) =>
      case (head, Some(tail)) => PartsArePlain(tail, n - 1, sep);
    }
  }

  /** Printed parts read back exactly when they are plain. */
  lemma {:induction false} PrintedReadsBackIff(parts: seq<string>, sep: char)
    requires parts != []
    ensures SplitN(Print(parts, sep), |parts|, sep) == parts <==> PlainParts(parts, sep)
  {
    PartsArePlain(Print(parts, sep), |parts|, sep);
    if |parts| > 1 && PlainParts(parts, sep) {
      PrintedReadsBackIff(parts[1..], sep);
      assert PlainParts(parts[1..], sep);
      CutJoined(parts[0], Print(parts[1..], sep), sep);
      assert parts == [parts[0]] + parts[1..];
    }
  }

  lemma EmptyParts(n: nat, sep: char)
    ensures SplitN("", n, sep) == seq(n, _ => "")
  {
  }
}
