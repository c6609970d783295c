/** Domain names as the zone store compares them. */
module DnsNames {
  import opened Text

  function TrimDots(s: string): string {
    if s != [] && s[|s| - 1] == '.' then TrimDots(s[..|s| - 1]) else s
  }

  function LowerChar(c: char): char {
    if 'A' <= c <= 'Z' then c + 32 as char else c
  }

  /** ASCII lower case; other characters stay. */
  function Lower(s: string): (r: string)
    ensures |r| == |s| && forall i :: 0 <= i < |s| ==> r[i] == LowerChar(s[i])
  {
    seq(|s|, i requires 0 <= i < |s| => LowerChar(s[i]))
  }

  /** `normalize_name`: surrounding white space, then trailing dots, then upper case removed. */
  function Normalize(name: string): string {
    Lower(TrimDots(Trim(name)))
  }

  /** Already in stored form: lower case, no outer white space, no trailing dot. */
  ghost predicate Canonical(s: string) {
    && (forall i :: 0 <= i < |s| ==> !('A' <= s[i] <= 'Z'))
    && (s != [] ==> !IsSpace(s[0]) && !IsSpace(s[|s| - 1]) && s[|s| - 1] != '.')
  }

  lemma {:induction false} TrimDotsEnds(s: string)
    ensures TrimDots(s) <= s && (TrimDots(s) != [] ==> TrimDots(s)[|TrimDots(s)| - 1] != '.')
  {
    if s != [] && s[|s| - 1] == '.' { TrimDotsEnds(s[..|s| - 1]); }
  }

  lemma NormalizeCanonical(s: string)
    requires Canonical(s)
    ensures Normalize(s) == s
  {
    assert Lower(s) == s;
  }

  lemma TrimmedStarts(name: string)
    ensures Trim(name) != [] ==> !IsSpace(Trim(name)[0])
  {
    TrimStartStarts(name);
    TrimEndEnds(TrimStart(name));
  }

  /** The exact shape of names that normalisation does not settle in one go: white space in front
      of the trailing dots, as in `"a ."`. */
  predicate SpaceBeforeDots(name: string) {
    var core := TrimDots(Trim(name));
    core != [] && IsSpace(core[|core| - 1])
  }

  /** Normalisation is idempotent exactly on the other names. */
  lemma NormalizeIdempotentIff(name: string)
    ensures Normalize(Normalize(name)) == Normalize(name) <==> !SpaceBeforeDots(name)
    ensures !SpaceBeforeDots(name) ==> Canonical(Normalize(name))
  {
    var core := TrimDots(Trim(name));
    TrimmedStarts(name);
    TrimDotsEnds(Trim(name));
    var n := Normalize(name);
    if SpaceBeforeDots(name) {
      SpacedShrinks(name);
    } else {
      NormalizeCanonical(n);
    }
  }

  /** The other names get shorter the second time, and stay shorter. */
  lemma SpacedShrinks(name: string)
    requires SpaceBeforeDots(name)
    ensures var n := Normalize(name); |Normalize(n)| < |n| && |Normalize(Normalize(n))| < |n|
  {
    var n := Normalize(name);
    NormalizeShorter(n);
    NormalizeNotLonger(Normalize(n));
  }

  lemma NormalizeNotLonger(n: string)
    ensures |Normalize(n)| <= |n|
  {
    TrimStartShorter(n);
    TrimEndEnds(TrimStart(n));
    TrimDotsEnds(Trim(n));
  }

  lemma NormalizeShorter(n: string)
    requires n != [] && IsSpace(n[|n| - 1])
    ensures |Normalize(n)| < |n|
  {
    TrimStartShorter(n);
    var t := TrimStart(n);
    TrimEndEnds(t);
    if t != [] && |t| == |n| { TrimEndEnds(t[..|t| - 1]); }
    TrimDotsEnds(Trim(n));
  }

  lemma {:induction false} TrimStartShorter(s: string)
    ensures |TrimStart(s)| <= |s| && (|TrimStart(s)| == |s| ==> TrimStart(s) == s)
  {
    if s != [] && IsSpace(s[0]) { TrimStartShorter(s[1..]); }
  }

  /** A record's name is its zone's or ends with it after a dot, as `check_record` demands. */
  predicate Within(zone: string, name: string) {
    var z, n := Normalize(zone), Normalize(name);
    n == z || (|z| < |n| && n[|n| - |z| - 1..] == "." + z)
  }

  lemma SpacedAtEnd(name: string)
    ensures var n := Normalize(name);
      (SpaceBeforeDots(name) <==> n != [] && IsSpace(n[|n| - 1])) && (n != [] ==> n[|n| - 1] != '.')
  {
    TrimDotsEnds(Trim(name));
  }

  /** In a zone whose own name is settled all names are. */
  lemma WithinSettled(zone: string, name: string)
    requires Within(zone, name) && !SpaceBeforeDots(zone)
    ensures !SpaceBeforeDots(name)
  {
    SpacedAtEnd(zone);
    SpacedAtEnd(name);
    SameEnd(Normalize(zone), Normalize(name));
  }

  lemma SameEnd(z: string, n: string)
    requires n == z || (|z| < |n| && n[|n| - |z| - 1..] == "." + z)
    ensures n != [] ==> n[|n| - 1] == if z == [] then '.' else z[|z| - 1]
  {
    if n != z { assert n[|n| - 1] == ("." + z)[|z|]; }
  }

  lemma TwiceSpacedName()
    ensures Normalize("a . .") == "a . " && Normalize("a . ") == "a " && Normalize("a ") == "a"
  {
    SpacedName();
    assert Trim("a . .") == "a . .";
    assert TrimDots("a . .") == "a . " by { assert "a . ."[..4] == "a . "; }
    assert Lower("a . ") == "a . ";
    assert TrimEnd("a . ") == "a ." by { assert "a . "[..3] == "a ."; }
  }

  lemma SpacedName()
    ensures Normalize("a .") == "a " && Normalize("a ") == "a" && Normalize("a") == "a"
  {
    assert Trim("a .") == "a .";
    assert TrimDots("a .") == "a " by { assert "a ."[..2] == "a "; }
    assert Lower("a ") == "a " && Lower("a") == "a";
    assert TrimEnd("a ") == "a" by { assert "a "[..1] == "a"; }
  }
}
