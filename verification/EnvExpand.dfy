/** Environment references in the configuration text (crates/magnetite-core/src/config.rs). */
module EnvExpand {
  import opened Ordering
  import opened Text

  type Env = map<string, string>

  datatype Error = Unterminated | EmptyName | Unset(name: string)

  datatype Result = Ok(text: string) | Err(error: Error)

  /** Put text in front of what the rest expands to; an error in the rest stays. */
  function Prepend(s: string, r: Result): Result {
    if r.Ok? then Ok(s + r.text) else r
  }

  /** The first error, or both texts in turn. */
  function Then(v: Result, r: Result): Result {
    if v.Err? then v else Prepend(v.text, r)
  }

  function Find(t: string, c: char): (k: Option<nat>)
    ensures k.Some? ==> k.value < |t|
  {
    if t == "" then None
    else if t[0] == c then Some(0)
    else match Find(t[1..], c)
      case None => None
      case Some(k) => Some(k + 1)
  }

  /** It finds the first occurrence. */
  lemma {:induction false} FindIsFirst(t: string, c: char)
    ensures match Find(t, c)
      case None => c !in t
      case Some(k) => t[k] == c && c !in t[..k]
  {
    if t != "" && t[0] != c {
      FindIsFirst(t[1..], c);
      match Find(t[1..], c)
      case None =>
      case Some(k) => assert t[..k + 1] == [t[0]] + t[1..][..k];
    }
  }

  // ---- References --------------------------------------------------------------------------

  /** Split at the first `:-`. */
  function SplitDefault(inner: string): (string, Option<string>) {
    if |inner| < 2 then (inner, None)
    else if inner[..2] == ":-" then ("", Some(inner[2..]))
    else var (name, default) := SplitDefault(inner[1..]); ([inner[0]] + name, default)
  }

  /** What the inside of a `${...}` stands for. */
  function LookedUp(inner: string, env: Env): Result {
    var (n, default) := SplitDefault(inner);
    var name := Trim(n);
    if name == "" then Err(EmptyName)
    else if name in env then Ok(env[name])
    else if default.Some? then Ok(default.value)
    else Err(Unset(name))
  }

  function Lookup(env: Env): string -> Result {
    inner => LookedUp(inner, env)
  }

  // ---- Tokens: the shape of a text, whatever the environment -------------------------------

  datatype Token = Literal(c: char) | Reference(inner: string) | Broken

  /** The token a text starts with and how many characters it takes; nothing follows a broken one. */
  function First(t: string): (r: (Token, nat))
    requires t != ""
    ensures 0 < r.1 <= |t|
  {
    if t[0] != '$' then (Literal(t[0]), 1)
    else if |t| > 1 && t[1] == '$' then (Literal('$'), 2)
    else if |t| > 1 && t[1] == '{' then
      match Find(t[2..], '}')
      case None => (Broken, |t|)
      case Some(k) => (Reference(t[2..2 + k]), 3 + k)
    else (Literal('$'), 1)
  }

  function Tokens(t: string): seq<Token> {
    if t == "" then [] else [First(t).0] + if First(t).0.Broken? then [] else Tokens(t[First(t).1..])
  }

  function Value(token: Token, look: string -> Result): Result {
    match token
    case Literal(c) => Ok([c])
    case Broken => Err(Unterminated)
    case Reference(inner) => look(inner)
  }

  /** One pass over the tokens, left to right, stopping at the first error. */
  function Render(tokens: seq<Token>, look: string -> Result): Result {
    if tokens == [] then Ok("") else Then(Value(tokens[0], look), Render(tokens[1..], look))
  }

  /** One pass over the text, for any meaning of references. */
  function Scan(t: string, look: string -> Result): Result {
    if t == "" then Ok("") else Then(Value(First(t).0, look), Scan(t[First(t).1..], look))
  }

  function Expand(t: string, env: Env): Result {
    Scan(t, Lookup(env))
  }

  // ---- The loop ----------------------------------------------------------------------------

  /** What reading on from `i` yields: the value of the token there, and where the next one starts. */
  ghost predicate Reads(content: string, i: nat, look: string -> Result, v: Result, next: nat) {
    i < |content|
    && (v.Err? ==> Scan(content[i..], look) == v)
    && (v.Ok? ==> i < next <= |content| && Scan(content[i..], look) == Prepend(v.text, Scan(content[next..], look)))
  }

  lemma LiteralReads(content: string, i: nat, c: char, n: nat, look: string -> Result)
    requires i < |content| && First(content[i..]) == (Literal(c), n)
    ensures Reads(content, i, look, Ok([c]), i + n)
  {
    assert content[i..][n..] == content[i + n..];
  }

  lemma ReferenceReads(content: string, i: nat, k: nat, look: string -> Result)
    requires i + 2 + k < |content| && content[i] == '$' && content[i + 1] == '{'
    requires Find(content[i + 2..], '}') == Some(k)
    ensures Reads(content, i, look, look(content[i + 2..i + 2 + k]), i + 3 + k)
  {
    var rest := content[i..];
    assert rest[2..] == content[i + 2..];
    assert rest[2..2 + k] == content[i + 2..i + 2 + k];
    assert rest[3 + k..] == content[i + 3 + k..];
  }

  lemma UnterminatedReads(content: string, i: nat, look: string -> Result)
    requires i + 1 < |content| && content[i] == '$' && content[i + 1] == '{' && Find(content[i + 2..], '}') == None
    ensures Reads(content, i, look, Err(Unterminated), i)
  {
    assert content[i..][2..] == content[i + 2..];
  }

  method ReadToken(content: string, i: nat, look: string -> Result) returns (v: Result, next: nat)
    requires i < |content|
    ensures Reads(content, i, look, v, next)
  {
    if content[i] != '$' {
      LiteralReads(content, i, content[i], 1, look);
      v, next := Ok([content[i]]), i + 1;
    } else if i + 1 < |content| && content[i + 1] == '$' {
      LiteralReads(content, i, '$', 2, look);
      v, next := Ok("$"), i + 2;
    } else if i + 1 < |content| && content[i + 1] == '{' {
      v, next := ReadReference(content, i, look);
    } else {
      LiteralReads(content, i, '$', 1, look);
      v, next := Ok("$"), i + 1;
    }
  }

  /** Read on from just past the `${` at `i`: find the closing brace, step over it, look the inside up. */
  method ReadReference(content: string, i: nat, look: string -> Result) returns (v: Result, next: nat)
    requires i + 1 < |content| && content[i] == '$' && content[i + 1] == '{'
    ensures Reads(content, i, look, v, next)
  {
    var start := i + 2;
    next := start;
    var rel := Find(content[start..], '}');
    if rel.None? {
      UnterminatedReads(content, i, look);
      return Err(Unterminated), i;
    }
    while next < |content| && next <= start + rel.value
      invariant start <= next <= start + rel.value + 1
    {
      next := next + 1;
    }
    ReferenceReads(content, i, rel.value, look);
    v := look(content[start..start + rel.value]);
  }

  /** The character loop computes the one-pass meaning. */
  method ExpandWith(content: string, look: string -> Result) returns (r: Result)
    ensures r == Scan(content, look)
  {
    var out, i := "", 0;
    assert content[0..] == content;
    ghost var goal := Scan(content, look);
    while i < |content|
      invariant 0 <= i <= |content|
      invariant goal == Prepend(out, Scan(content[i..], look))
    {
      var v, next := ReadToken(content, i, look);
      if v.Ok? { PrependTwice(out, v.text, Scan(content[next..], look)); }
      if v.Err? {
        return v;
      }
      out, i := out + v.text, next;
    }
    assert content[i..] == "";
    r := Ok(out);
  }

  method ExpandEnvVars(content: string, env: Env) returns (r: Result)
    ensures r == Expand(content, env)
  {
    r := ExpandWith(content, Lookup(env));
  }

  lemma PrependTwice(a: string, b: string, r: Result)
    ensures Prepend(a, Prepend(b, r)) == Prepend(a + b, r)
  {
    if r.Ok? { assert a + (b + r.text) == a + b + r.text; }
  }

  // ---- What it promises --------------------------------------------------------------------

  /** A pass over the text is a pass over its tokens, which do not depend on the environment. */
  lemma {:induction false} ScanIsRender(t: string, look: string -> Result)
    ensures Scan(t, look) == Render(Tokens(t), look)
  {
    if t != "" {
      var token, n := First(t).0, First(t).1;
      var rest := if token.Broken? then [] else Tokens(t[n..]);
      assert ([token] + rest)[1..] == rest;
      if !token.Broken? { ScanIsRender(t[n..], look); }
    }
  }

  /** The text of a token list none of which fails. */
  function Joined(tokens: seq<Token>, look: string -> Result): string
    requires forall k <- tokens :: Value(k, look).Ok?
  {
    if tokens == [] then "" else Value(tokens[0], look).text + Joined(tokens[1..], look)
  }

  /** The result is token `i`'s error, and no token before it fails. */
  ghost predicate FirstFailure(tokens: seq<Token>, look: string -> Result, i: nat)
    requires i < |tokens|
  {
    Value(tokens[i], look) == Render(tokens, look) && Value(tokens[i], look).Err?
    && forall j :: 0 <= j < i ==> Value(tokens[j], look).Ok?
  }

  /** Substituted values are never read again: a success joins the values of the tokens as they are,
      and a failure is that of the first token that fails. */
  lemma {:induction false} OnePass(tokens: seq<Token>, look: string -> Result)
    ensures Render(tokens, look).Ok? <==> forall k <- tokens :: Value(k, look).Ok?
    ensures Render(tokens, look).Ok? ==> Render(tokens, look).text == Joined(tokens, look)
    ensures Render(tokens, look).Err? ==> exists i :: 0 <= i < |tokens| && FirstFailure(tokens, look, i)
  {
    if tokens != [] {
      var rest := tokens[1..];
      OnePass(rest, look);
      assert tokens == [tokens[0]] + rest;
      if Value(tokens[0], look).Err? {
        assert FirstFailure(tokens, look, 0);
      } else if Render(rest, look).Err? {
        var i :| 0 <= i < |rest| && FirstFailure(rest, look, i);
        assert tokens[i + 1] == rest[i];
        forall j | 0 <= j < i + 1 ensures Value(tokens[j], look).Ok? {
          if j > 0 { assert tokens[j] == rest[j - 1]; }
        }
        assert FirstFailure(tokens, look, i + 1);
      }
    }
  }

  /** A reference that cannot be looked up: blank, or unset and without a default. */
  predicate Missing(inner: string, env: Env) {
    var (n, default) := SplitDefault(inner);
    Trim(n) == "" || (default.None? && Trim(n) !in env)
  }

  /** It fails exactly on an unterminated reference, an empty name, or an unset one without default. */
  lemma FailsExactlyWhen(t: string, env: Env)
    ensures Expand(t, env).Err? <==> exists k <- Tokens(t) :: k.Broken? || (k.Reference? && Missing(k.inner, env))
  {
    var look := Lookup(env);
    OnePass(Tokens(t), look);
    ScanIsRender(t, look);
    forall k <- Tokens(t) ensures Value(k, look).Err? <==> k.Broken? || (k.Reference? && Missing(k.inner, env)) {
      if k.Reference? { LookupFails(k.inner, env); }
    }
  }

  lemma LookupFails(inner: string, env: Env)
    ensures LookedUp(inner, env).Err? <==> Missing(inner, env)
  {
  }

  /** Whether it succeeds depends on which names are set, not on their values. */
  lemma ValuesCannotBreakIt(t: string, env: Env, other: Env)
    requires env.Keys == other.Keys
    ensures Expand(t, env).Ok? <==> Expand(t, other).Ok?
  {
    FailsExactlyWhen(t, env);
    FailsExactlyWhen(t, other);
    forall inner ensures Missing(inner, env) <==> Missing(inner, other) { }
  }

  function Double(t: string): string {
    if t == "" then "" else (if t[0] == '$' then "$$" else [t[0]]) + Double(t[1..])
  }

  /** Doubling every dollar quotes a text. */
  lemma {:induction false} DoubledTextIsLiteral(t: string, look: string -> Result)
    ensures Scan(Double(t), look) == Ok(t)
  {
    if t != "" {
      var d := Double(t);
      DoubledTextIsLiteral(t[1..], look);
      assert d[First(d).1..] == Double(t[1..]);
      assert t == [t[0]] + t[1..];
    }
  }

  /** What a reference with a default expands to, in any text: the variable's value if it is set, even
      to nothing, and the default, as it stands, otherwise; a blank name is an error. */
  lemma DefaultIsForUnsetNames(n: string, d: string, rest: string, env: Env)
    requires SplitDefault(n).1.None? && '}' !in n && '}' !in d
    ensures Expand("${" + n + ":-" + d + "}" + rest, env)
      == if Trim(n) == "" then Err(EmptyName)
         else Prepend(if Trim(n) in env then env[Trim(n)] else d, Expand(rest, env))
  {
    SplitAt(n, d);
    Regroup(n, d, rest);
    BracedText(n + ":-" + d, rest, Lookup(env));
  }

  /** A variable set to nothing: the default is not used. */
  lemma EmptyValueIsKept()
    ensures Expand("${A:-d}", map["A" := ""]) == Ok("")
  {
    assert "${" + "A" + ":-" + "d" + "}" + "" == "${A:-d}";
    assert Trim("A") == "A" && SplitDefault("A").1.None?;
    DefaultIsForUnsetNames("A", "d", "", map["A" := ""]);
  }

  lemma Regroup(n: string, d: string, rest: string)
    ensures "${" + n + ":-" + d + "}" + rest == "${" + (n + ":-" + d) + "}" + rest
    ensures '}' !in n && '}' !in d ==> '}' !in n + ":-" + d
  {
  }

  /** Without a default the name has to be set. */
  lemma BareNamesMustBeSet(n: string, rest: string, env: Env)
    requires SplitDefault(n).1.None? && '}' !in n
    ensures Expand("${" + n + "}" + rest, env)
      == if Trim(n) == "" then Err(EmptyName)
         else if Trim(n) in env then Prepend(env[Trim(n)], Expand(rest, env))
         else Err(Unset(Trim(n)))
  {
    NoDefault(n);
    BracedText(n, rest, Lookup(env));
  }

  lemma BracedText(inner: string, rest: string, look: string -> Result)
    requires '}' !in inner
    ensures Scan("${" + inner + "}" + rest, look) == Then(look(inner), Scan(rest, look))
  {
    var t := "${" + inner + "}" + rest;
    FindAt(inner, rest, '}');
    assert t[2..] == inner + "}" + rest;
    assert t[2..2 + |inner|] == inner;
    assert t[3 + |inner|..] == rest;
  }

  lemma {:induction false} FindAt(a: string, b: string, c: char)
    requires c !in a
    ensures Find(a + [c] + b, c) == Some(|a|)
  {
    var s := a + [c] + b;
    if a == "" {
      assert s[0] == c;
    } else {
      assert s[1..] == a[1..] + [c] + b;
      FindAt(a[1..], b, c);
    }
  }

  lemma {:induction false} SplitAt(name: string, default: string)
    requires SplitDefault(name).1.None?
    ensures SplitDefault(name + ":-" + default) == (name, Some(default))
  {
    var s := name + ":-" + default;
    if name == "" {
      assert s[..2] == ":-" && s[2..] == default;
    } else {
      assert s[1..] == name[1..] + ":-" + default;
      assert |name| >= 2 ==> s[..2] == name[..2];
      assert |name| == 1 ==> s[..2][1] == ':';
      SplitAt(name[1..], default);
      assert name == [name[0]] + name[1..];
    }
  }

  lemma {:induction false} NoDefault(name: string)
    requires SplitDefault(name).1.None?
    ensures SplitDefault(name) == (name, None)
  {
    if |name| >= 2 {
      NoDefault(name[1..]);
      assert name == [name[0]] + name[1..];
    }
  }
}
