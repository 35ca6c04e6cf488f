/**
  `${VAR}` placeholders in configuration strings
  (crates/server/src/bootstrap.rs). Strings are their UTF-8 bytes; the process
  environment is a map, without the variables that are unset or not Unicode.
*/
module Placeholders {
  import opened Wrappers
  import opened Utf8

  type Env = map<seq<Byte>, seq<Byte>>

  const DOLLAR: Byte := 36
  const OPEN: Byte := 123
  const CLOSE: Byte := 125
  const PLACEHOLDER_NAME_LEN_MAX := 256

  datatype PlaceholderError =
    | Malformed
    | EmptyName
    | UnsetVariable(name: seq<Byte>)
    | EmptyVariable(name: seq<Byte>)

  type Outcome = Result<seq<Byte>, PlaceholderError>

  // ---- Specification: tokenise from the left, then substitute ----

  datatype Token = Text(bytes: seq<Byte>) | Escape | Placeholder(name: seq<Byte>) | Unclosed

  predicate OpenerAt(s: seq<Byte>, i: nat) {
    i + 1 < |s| && s[i] == DOLLAR && s[i + 1] == OPEN
  }

  /** Position of the first `${` at or after `from`, or the length. */
  function FirstOpener(s: seq<Byte>, from: nat): (p: nat)
    requires from <= |s|
    ensures from <= p <= |s|
    ensures p < |s| ==> OpenerAt(s, p)
    ensures forall i: nat | from <= i < p :: !OpenerAt(s, i)
    decreases |s| - from
  {
    if from == |s| || OpenerAt(s, from) then from else FirstOpener(s, from + 1)
  }

  /** Position of the first `}` before `bound`. */
  function FirstClose(s: seq<Byte>, from: nat, bound: nat): (r: Option<nat>)
    requires from <= bound <= |s|
    ensures r.Some? ==> from <= r.value < bound && s[r.value] == CLOSE && forall i | from <= i < r.value :: s[i] != CLOSE
    ensures r.None? ==> forall i | from <= i < bound :: s[i] != CLOSE
    decreases bound - from
  {
    if from == bound then None
    else if s[from] == CLOSE then Some(from)
    else FirstClose(s, from + 1, bound)
  }

  /** `scan_placeholder_name`: the length of the name that follows an opener. */
  function ScanName(rest: seq<Byte>): (r: Option<nat>)
    ensures r.Some? ==> r.value < |rest| && rest[r.value] == CLOSE
  {
    FirstClose(rest, 0, if |rest| < PLACEHOLDER_NAME_LEN_MAX then |rest| else PLACEHOLDER_NAME_LEN_MAX)
  }

  function OpenerToken(rest: seq<Byte>): Token {
    match ScanName(rest)
    case None => Unclosed
    case Some(n) => Placeholder(rest[..n])
  }

  /** A `$` directly before the first `${` escapes it; an opener that is not closed in time ends the tokens. */
  function Tokens(s: seq<Byte>): seq<Token>
    decreases |s|
  {
    var p := FirstOpener(s, 0);
    if p == |s| then [Text(s)]
    else if p > 0 && s[p - 1] == DOLLAR then [Text(s[..p - 1]), Escape] + Tokens(s[p + 2..])
    else
      var rest := s[p + 2..];
      [Text(s[..p]), OpenerToken(rest)] + TokensAfterName(rest)
  }

  function TokensAfterName(rest: seq<Byte>): seq<Token>
    decreases |rest|
  {
    match ScanName(rest)
    case None => []
    case Some(n) => Tokens(rest[n + 1..])
  }

  function Substituted(t: Token, env: Env): Outcome {
    match t
    case Text(bytes) => Ok(bytes)
    case Escape => Ok([DOLLAR, OPEN])
    case Unclosed => Err(Malformed)
    case Placeholder(name) =>
      if name == [] then Err(EmptyName)
      else if name !in env then Err(UnsetVariable(name))
      else if env[name] == [] then Err(EmptyVariable(name))
      else Ok(env[name])
  }

  function Prepend(bytes: seq<Byte>, r: Outcome): Outcome {
    if r.Ok? then Ok(bytes + r.value) else r
  }

  /** The substitutions side by side, or the leftmost error. Substituted values are never looked at again. */
  function Rendered(ts: seq<Token>, env: Env): Outcome {
    if ts == [] then Ok([])
    else
      var first := Substituted(ts[0], env);
      if first.Ok? then Prepend(first.value, Rendered(ts[1..], env)) else first
  }

  function Resolved(s: seq<Byte>, env: Env): Outcome {
    Rendered(Tokens(s), env)
  }

  predicate Bound(t: Token, env: Env) {
    match t
    case Text(_) => true
    case Escape => true
    case Unclosed => false
    case Placeholder(name) => name != [] && name in env && env[name] != []
  }

  lemma {:induction false} RendersIffBound(ts: seq<Token>, env: Env)
    ensures Rendered(ts, env).Ok? <==> forall i | 0 <= i < |ts| :: Bound(ts[i], env)
  {
    if ts != [] {
      RendersIffBound(ts[1..], env);
      assert forall i | 0 <= i < |ts| - 1 :: ts[1..][i] == ts[i + 1];
      if Rendered(ts, env).Ok? {
        forall i | 0 <= i < |ts| ensures Bound(ts[i], env) {
          assert i > 0 ==> ts[i] == ts[1..][i - 1];
        }
      }
    }
  }

  /** Resolution succeeds exactly when every token can be substituted. */
  lemma ResolvesIffTokensBound(s: seq<Byte>, env: Env)
    ensures Resolved(s, env).Ok? <==> forall t | t in Tokens(s) :: Bound(t, env)
  {
    RendersIffBound(Tokens(s), env);
  }

  /** The text a token was read from. */
  function Source(t: Token): seq<Byte> {
    match t
    case Text(bytes) => bytes
    case Escape => [DOLLAR, DOLLAR, OPEN]
    case Placeholder(name) => [DOLLAR, OPEN] + name + [CLOSE]
    case Unclosed => []
  }

  function Spelled(ts: seq<Token>): seq<Byte> {
    if ts == [] then [] else Source(ts[0]) + Spelled(ts[1..])
  }

  lemma SpelledTwo(a: Token, b: Token, ts: seq<Token>)
    ensures Spelled([a, b] + ts) == Source(a) + (Source(b) + Spelled(ts))
  {
    assert ([a, b] + ts)[1..] == [b] + ts && ([b] + ts)[1..] == ts;
  }

  /** Tokenising loses nothing: the tokens of a string without a malformed opener spell that string. */
  lemma {:induction false} TokensSpellTheString(s: seq<Byte>)
    requires Unclosed !in Tokens(s)
    ensures Spelled(Tokens(s)) == s
    decreases |s|
  {
    var p := FirstOpener(s, 0);
    if p == |s| {
      assert [Text(s)][1..] == [];
    } else if p > 0 && s[p - 1] == DOLLAR {
      EscapedTokens(s, p);
      hide Tokens, Spelled;
      TokensSpellTheString(s[p + 2..]);
      EscapeSpells(s, p);
    } else {
      UnescapedTokens(s, p);
      hide Tokens, Spelled, ScanName, FirstOpener;
      ClosedOpener(s, p);
      var n := ScanName(s[p + 2..]).value;
      TokensSpellTheString(s[p + 2..][n + 1..]);
      PlaceholderSpells(s, p, n);
    }
  }

  lemma EscapedTokens(s: seq<Byte>, p: nat)
    requires OpenerAt(s, p) && FirstOpener(s, 0) == p > 0 && s[p - 1] == DOLLAR
    ensures Tokens(s) == [Text(s[..p - 1]), Escape] + Tokens(s[p + 2..])
    ensures forall t | t in Tokens(s[p + 2..]) :: t in Tokens(s)
  {
  }

  lemma EscapeSpells(s: seq<Byte>, p: nat)
    requires OpenerAt(s, p) && p > 0 && s[p - 1] == DOLLAR
    requires Spelled(Tokens(s[p + 2..])) == s[p + 2..]
    ensures Spelled([Text(s[..p - 1]), Escape] + Tokens(s[p + 2..])) == s
  {
    hide Tokens, Spelled;
    SpelledTwo(Text(s[..p - 1]), Escape, Tokens(s[p + 2..]));
    EscapeReassembled(s, p);
  }

  lemma EscapeReassembled(s: seq<Byte>, p: nat)
    requires OpenerAt(s, p) && p > 0 && s[p - 1] == DOLLAR
    ensures s[..p - 1] + ([DOLLAR, DOLLAR, OPEN] + s[p + 2..]) == s
  {
  }

  lemma ClosedOpener(s: seq<Byte>, p: nat)
    requires OpenerAt(s, p) && Unclosed !in Tokens(s)
    requires var rest := s[p + 2..];
             Tokens(s) == [Text(s[..p]), OpenerToken(rest)] + TokensAfterName(rest)
    ensures var rest := s[p + 2..];
            && ScanName(rest).Some?
            && OpenerToken(rest) == Placeholder(rest[..ScanName(rest).value])
            && Unclosed !in Tokens(rest[ScanName(rest).value + 1..])
  {
    hide Tokens, ScanName, FirstOpener;
    assert ([Text(s[..p]), Unclosed] + [])[1] == Unclosed;
  }

  lemma PlaceholderSpells(s: seq<Byte>, p: nat, n: nat)
    requires OpenerAt(s, p) && ScanName(s[p + 2..]) == Some(n)
    requires Spelled(Tokens(s[p + 2..][n + 1..])) == s[p + 2..][n + 1..]
    ensures var rest := s[p + 2..];
            Spelled([Text(s[..p]), Placeholder(rest[..n])] + Tokens(rest[n + 1..])) == s
  {
    var rest := s[p + 2..];
    assert rest[n] == CLOSE;
    SpelledTwo(Text(s[..p]), Placeholder(rest[..n]), Tokens(rest[n + 1..]));
    hide Tokens, Spelled, ScanName;
    Reassembled(s, p, rest[..n], rest[n + 1..]);
  }

  lemma Reassembled(s: seq<Byte>, p: nat, name: seq<Byte>, tail: seq<Byte>)
    requires OpenerAt(s, p) && |s| == p + 2 + |name| + 1 + |tail|
    requires s[p + 2..][..|name|] == name && s[p + 2..][|name|] == CLOSE && s[p + 2..][|name| + 1..] == tail
    ensures s[..p] + (([DOLLAR, OPEN] + name + [CLOSE]) + tail) == s
  {
    var rest := s[p + 2..];
    assert rest == name + [CLOSE] + tail;
    assert s == s[..p] + [DOLLAR, OPEN] + rest;
  }

  // ---- How resolution consumes its input ----

  predicate EscapeAt(s: seq<Byte>, i: nat) {
    i + 2 < |s| && s[i] == DOLLAR && s[i + 1] == DOLLAR && s[i + 2] == OPEN
  }

  lemma FirstOpenerIs(s: seq<Byte>, p: nat)
    requires p <= |s| && (p == |s| || OpenerAt(s, p)) && forall i: nat | i < p :: !OpenerAt(s, i)
    ensures FirstOpener(s, 0) == p
  {
    var q := FirstOpener(s, 0);
    assert q < p ==> !OpenerAt(s, q);
  }

  lemma PrependNothing(r: Outcome)
    ensures Prepend([], r) == r
  {
    assert r.Ok? ==> [] + r.value == r.value;
  }

  lemma PrependTwice(a: seq<Byte>, b: seq<Byte>, r: Outcome)
    ensures Prepend(a, Prepend(b, r)) == Prepend(a + b, r)
  {
    assert r.Ok? ==> a + (b + r.value) == a + b + r.value;
  }

  lemma RenderText(bytes: seq<Byte>, ts: seq<Token>, env: Env)
    ensures Rendered([Text(bytes)] + ts, env) == Prepend(bytes, Rendered(ts, env))
  {
    assert ([Text(bytes)] + ts)[1..] == ts;
  }

  lemma RenderTwo(bytes: seq<Byte>, t: Token, ts: seq<Token>, env: Env)
    ensures var second := Substituted(t, env);
            Rendered([Text(bytes), t] + ts, env)
            == Prepend(bytes, if second.Ok? then Prepend(second.value, Rendered(ts, env)) else second)
  {
    assert [Text(bytes), t] + ts == [Text(bytes)] + ([t] + ts);
    RenderText(bytes, [t] + ts, env);
    assert ([t] + ts)[1..] == ts;
  }

  lemma EscapeStep(s: seq<Byte>, env: Env)
    requires EscapeAt(s, 0)
    ensures Resolved(s, env) == Prepend([DOLLAR, OPEN], Resolved(s[3..], env))
  {
    FirstOpenerIs(s, 1);
    RenderTwo(s[..0], Escape, Tokens(s[3..]), env);
    assert s[..0] == [];
    PrependNothing(Prepend([DOLLAR, OPEN], Rendered(Tokens(s[3..]), env)));
  }

  lemma PlaceholderStep(s: seq<Byte>, env: Env)
    requires OpenerAt(s, 0)
    ensures var rest := s[2..];
            Resolved(s, env) ==
              match ScanName(rest)
              case None => Err(Malformed)
              case Some(n) =>
                var value := Substituted(Placeholder(rest[..n]), env);
                if value.Ok? then Prepend(value.value, Resolved(rest[n + 1..], env)) else value
  {
    FirstOpenerIs(s, 0);
    UnescapedTokens(s, 0);
    hide ScanName, Tokens;
    assert s[..0] == [];
    var rest := s[2..];
    match ScanName(rest)
    case None =>
      RenderTwo([], Unclosed, [], env);
    case Some(n) =>
      var value := Substituted(Placeholder(rest[..n]), env);
      RenderTwo([], Placeholder(rest[..n]), Tokens(rest[n + 1..]), env);
      PrependNothing(if value.Ok? then Prepend(value.value, Rendered(Tokens(rest[n + 1..]), env)) else value);
  }

  /** The scan finds the first `}` if it is among the first 256 bytes, and nothing otherwise. */
  lemma ScanFindsIff(rest: seq<Byte>, n: nat)
    ensures ScanName(rest) == Some(n) <==> n < |rest| && n < 256 && rest[n] == 125 && 125 !in rest[..n]
    ensures ScanName(rest) == None <==> forall i | 0 <= i < |rest| && i < 256 :: rest[i] != 125
  {
    if n < |rest| && n < 256 && rest[n] == 125 && 125 !in rest[..n] {
      assert forall i | 0 <= i < n :: rest[i] == rest[..n][i];
    }
  }

  /** A placeholder whose name has at most 255 bytes is replaced by its value and never looked at again, or refused. */
  lemma PlaceholderResolves(name: seq<Byte>, tail: seq<Byte>, env: Env)
    requires |name| <= 255 && 125 !in name
    ensures Resolved([36, 123] + name + [125] + tail, env) ==
              if name == [] then Err(EmptyName)
              else if name !in env then Err(UnsetVariable(name))
              else if env[name] == [] then Err(EmptyVariable(name))
              else Prepend(env[name], Resolved(tail, env))
  {
    var s := [36, 123] + name + [125] + tail;
    var rest := s[2..];
    assert rest == name + [125] + tail;
    assert rest[..|name|] == name && rest[|name| + 1..] == tail;
    ScanFindsIff(rest, |name|);
    PlaceholderStep(s, env);
  }

  /** An opener without a `}` in the 256 bytes after it is malformed. */
  lemma UnclosedIsMalformed(rest: seq<Byte>, env: Env)
    requires forall i | 0 <= i < |rest| && i < 256 :: rest[i] != 125
    ensures Resolved([36, 123] + rest, env) == Err(Malformed)
  {
    var s := [36, 123] + rest;
    assert s[2..] == rest;
    ScanFindsIff(rest, 0);
    PlaceholderStep(s, env);
  }

  /** Dropping a byte that starts no token moves the first opener by one. */
  lemma OpenerMoves(s: seq<Byte>)
    requires s != [] && !OpenerAt(s, 0)
    ensures FirstOpener(s, 0) == FirstOpener(s[1..], 0) + 1
  {
    var p := FirstOpener(s[1..], 0);
    assert forall i: nat | 0 < i <= |s| :: OpenerAt(s, i) <==> OpenerAt(s[1..], i - 1);
    FirstOpenerIs(s, p + 1);
  }

  lemma PlainTextStep(s: seq<Byte>, env: Env)
    requires s != [] && FirstOpener(s, 0) == |s| && FirstOpener(s[1..], 0) == |s[1..]|
    ensures Resolved(s, env) == Prepend([s[0]], Resolved(s[1..], env))
  {
    var t := s[1..];
    RenderText(s, [], env);
    RenderText(t, [], env);
    assert [Text(s)] + [] == [Text(s)] && [Text(t)] + [] == [Text(t)];
    assert s + [] == s && t + [] == t;
    assert s == [s[0]] + t;
  }

  lemma TextBeforeEscapeStep(s: seq<Byte>, p: nat, env: Env)
    requires 0 < p && OpenerAt(s, p + 1) && FirstOpener(s, 0) == p + 1 && FirstOpener(s[1..], 0) == p && s[p] == DOLLAR
    ensures Resolved(s, env) == Prepend([s[0]], Resolved(s[1..], env))
  {
    var t := s[1..];
    assert s[p + 3..] == t[p + 2..];
    assert s[1..][..p - 1] == t[..p - 1];
    CopiedHead(s, p, Escape, Tokens(s[p + 3..]), env);
  }

  lemma TextBeforePlaceholderStep(s: seq<Byte>, p: nat, env: Env)
    requires OpenerAt(s, p + 1) && FirstOpener(s, 0) == p + 1 && FirstOpener(s[1..], 0) == p && s[p] != DOLLAR
    ensures Resolved(s, env) == Prepend([s[0]], Resolved(s[1..], env))
  {
    hide Tokens, Rendered, ScanName, OpenerToken, FirstOpener, TokensAfterName;
    var t := s[1..];
    assert s[p + 3..] == t[p + 2..];
    var rest := s[p + 3..];
    UnescapedTokens(s, p + 1);
    UnescapedTokens(t, p);
    CopiedHead(s, p + 1, OpenerToken(rest), TokensAfterName(rest), env);
  }

  /** The tokens when the first opener is not escaped. */
  lemma UnescapedTokens(s: seq<Byte>, p: nat)
    requires OpenerAt(s, p) && FirstOpener(s, 0) == p && !(p > 0 && s[p - 1] == DOLLAR)
    ensures var rest := s[p + 2..];
            Tokens(s) == [Text(s[..p]), OpenerToken(rest)] + TokensAfterName(rest)
  {
    hide ScanName, OpenerToken, FirstOpener, TokensAfterName;
  }

  /** A byte that starts neither an escape nor an opener is copied. */
  lemma TextStep(s: seq<Byte>, env: Env)
    requires s != [] && !EscapeAt(s, 0) && !OpenerAt(s, 0)
    ensures Resolved(s, env) == Prepend([s[0]], Resolved(s[1..], env))
  {
    OpenerMoves(s);
    hide Resolved, Tokens;
    var p := FirstOpener(s[1..], 0);
    if p == |s[1..]| {
      PlainTextStep(s, env);
    } else if s[p] == DOLLAR {
      TextBeforeEscapeStep(s, p, env);
    } else {
      TextBeforePlaceholderStep(s, p, env);
    }
  }

  lemma CopiedHead(s: seq<Byte>, k: nat, t: Token, ts: seq<Token>, env: Env)
    requires 0 < k <= |s|
    ensures Rendered([Text(s[..k]), t] + ts, env) == Prepend([s[0]], Rendered([Text(s[1..][..k - 1]), t] + ts, env))
  {
    RenderTwo(s[..k], t, ts, env);
    RenderTwo(s[1..][..k - 1], t, ts, env);
    hide Rendered;
    assert s[..k] == [s[0]] + s[1..][..k - 1];
    var second := Substituted(t, env);
    var tail := if second.Ok? then Prepend(second.value, Rendered(ts, env)) else second;
    assert tail.Ok? ==> s[..k] + tail.value == [s[0]] + (s[1..][..k - 1] + tail.value);
  }

  /** So is a whole scalar value, since its later bytes are no ASCII. */
  lemma {:induction false} ScalarStep(s: seq<Byte>, n: nat, env: Env)
    requires 0 < n <= |s| && !EscapeAt(s, 0) && !OpenerAt(s, 0)
    requires forall i | 0 < i < n :: Continuation(s[i])
    ensures Resolved(s, env) == Prepend(s[..n], Resolved(s[n..], env))
  {
    hide Resolved, Prepend;
    TextStep(s, env);
    if n == 1 {
      assert s[..1] == [s[0]];
    } else {
      ScalarStep(s[1..], n - 1, env);
      assert s[1..][n - 1..] == s[n..];
      assert s[..n] == [s[0]] + s[1..][..n - 1];
      PrependTwice([s[0]], s[1..][..n - 1], Resolved(s[n..], env));
    }
  }

  // ---- When resolution succeeds ----

  /**
    Read from the left, every opener that is not escaped has its `}` within 256
    bytes, after a non-empty name bound to a non-empty value.
  */
  ghost predicate EveryOpenerBound(s: seq<Byte>, env: Env)
    decreases |s|
  {
    if s == [] then true
    else if |s| >= 3 && s[0] == 36 && s[1] == 36 && s[2] == 123 then EveryOpenerBound(s[3..], env)
    else if |s| >= 2 && s[0] == 36 && s[1] == 123 then
      exists n: nat ::
        && ClosesAt(s, n)
        && n > 0 && s[2..n + 2] in env && env[s[2..n + 2]] != []
        && EveryOpenerBound(s[n + 3..], env)
    else EveryOpenerBound(s[1..], env)
  }

  /** The name after the opener at the front has `n` bytes. */
  predicate ClosesAt(s: seq<Byte>, n: nat) {
    n < 256 && n + 2 < |s| && s[n + 2] == 125 && 125 !in s[2..n + 2]
  }

  lemma {:induction false} ResolvesIffBound(s: seq<Byte>, env: Env)
    ensures Resolved(s, env).Ok? <==> EveryOpenerBound(s, env)
    decreases |s|
  {
    hide Resolved;
    if s == [] {
      NothingResolves(env);
    } else if EscapeAt(s, 0) {
      EscapeStep(s, env);
      ResolvesIffBound(s[3..], env);
    } else if OpenerAt(s, 0) {
      OpenerResolvesIff(s, env);
      if n: nat :| ClosesAt(s, n) {
        ResolvesIffBound(s[n + 3..], env);
        forall m: nat | ClosesAt(s, m) ensures m == n {
          OneClose(s, m, n);
        }
      }
    } else {
      TextStep(s, env);
      ResolvesIffBound(s[1..], env);
    }
  }

  lemma OneClose(s: seq<Byte>, m: nat, n: nat)
    requires ClosesAt(s, m) && ClosesAt(s, n)
    ensures m == n
  {
  }

  lemma OpenerResolvesIff(s: seq<Byte>, env: Env)
    requires OpenerAt(s, 0)
    ensures Resolved(s, env).Ok? <==>
              exists n: nat :: ClosesAt(s, n) && n > 0 && s[2..n + 2] in env && env[s[2..n + 2]] != [] && Resolved(s[n + 3..], env).Ok?
  {
    hide Resolved;
    var rest := s[2..];
    PlaceholderStep(s, env);
    forall n: nat ensures ClosesAt(s, n) <==> ScanName(rest) == Some(n) {
      ScanFindsIff(rest, n);
      if n + 2 < |s| {
        assert s[2..n + 2] == rest[..n];
      }
    }
    hide ScanName;
    if ScanName(rest).Some? {
      var n := ScanName(rest).value;
      assert ClosesAt(s, n);
      assert s[2..n + 2] == rest[..n] && s[n + 3..] == rest[n + 1..];
    }
  }

  // ---- The loop ----

  /** `&s[i..]`, which panics off a character boundary. */
  function StrFrom(s: seq<Byte>, i: nat): (r: seq<Byte>)
    requires ValidUtf8(s) && IsCharBoundary(s, i)
    ensures i <= |s| && r == s[i..] && ValidUtf8(r)
  {
    BoundarySplits(s, i);
    s[i..]
  }

  /** `&s[..i]`. */
  function StrTo(s: seq<Byte>, i: nat): (r: seq<Byte>)
    requires ValidUtf8(s) && IsCharBoundary(s, i)
    ensures i <= |s| && r == s[..i] && ValidUtf8(r)
  {
    BoundarySplits(s, i);
    s[..i]
  }

  /** After an ASCII byte on a boundary comes a boundary. */
  lemma BoundaryAfterAscii(s: seq<Byte>, i: nat)
    requires ValidUtf8(s) && i < |s| && s[i] < 0x80
    ensures IsCharBoundary(s, i) && IsCharBoundary(s, i + 1)
  {
    BoundarySplits(s, i);
    assert s[i..][1..] == s[i + 1..];
    if i + 1 < |s| {
      assert ScalarLen(s[i..]) == 1;
      assert ScalarLen(s[i + 1..]) > 0;
    }
  }

  /** The loop invariant: what is output, followed by what the rest resolves to. */
  ghost predicate Progress(input: seq<Byte>, env: Env, i: nat, output: seq<Byte>)
    requires i <= |input|
  {
    Resolved(input, env) == Prepend(output, Resolved(input[i..], env))
  }

  lemma Advance(input: seq<Byte>, env: Env, i: nat, j: nat, output: seq<Byte>, more: seq<Byte>)
    requires i <= j <= |input| && Progress(input, env, i, output)
    requires Resolved(input[i..], env) == Prepend(more, Resolved(input[j..], env))
    ensures Progress(input, env, j, output + more)
  {
    hide Resolved;
    PrependTwice(output, more, Resolved(input[j..], env));
  }

  method ResolvePlaceholdersInStr(input: seq<Byte>, env: Env) returns (r: Outcome)
    requires ValidUtf8(input)
    requires forall name | name in env :: ValidUtf8(env[name])
    ensures r == Resolved(input, env)
    ensures r.Ok? ==> ValidUtf8(r.value)
  {
    hide Resolved, Progress, ValidUtf8, Substituted;
    var output: seq<Byte> := [];
    var i := 0;
    Start(input, env);
    while i < |input|
      invariant i <= |input| && IsCharBoundary(input, i)
      invariant ValidUtf8(output)
      invariant Progress(input, env, i, output)
    {
      if input[i] == DOLLAR && i + 1 < |input| && input[i + 1] == DOLLAR && i + 2 < |input| && input[i + 2] == OPEN {
        PastEscape(input, env, i, output);
        output := output + [DOLLAR, OPEN];
        i := i + 3;
        continue;
      }
      if input[i] == DOLLAR && i + 1 < |input| && input[i + 1] == OPEN {
        BoundaryAfterAscii(input, i + 1);
        var rest := StrFrom(input, i + 2);
        AtPlaceholder(input, env, i, output);
        var scan := ScanName(rest);
        if scan == None {
          return Err(Malformed);
        }
        BoundaryAfterAscii(rest, scan.value);
        var name := StrTo(rest, scan.value);
        UnboundStops(input, env, i, output, name);
        if name == [] {
          return Err(EmptyName);
        }
        if name !in env {
          return Err(UnsetVariable(name));
        }
        var value := env[name];
        if value == [] {
          return Err(EmptyVariable(name));
        }
        var consumed := scan.value + 1;
        PastPlaceholder(input, env, i, output, scan.value);
        ConcatValid(output, value);
        output := output + value;
        i := i + 2 + consumed;
        continue;
      }
      var n := ScalarLen(StrFrom(input, i));
      PastScalar(input, env, i, output, n);
      output := output + input[i..i + n];
      i := i + n;
    }
    Finish(input, env, output);
    r := Ok(output);
  }

  lemma PastEscape(input: seq<Byte>, env: Env, i: nat, output: seq<Byte>)
    requires ValidUtf8(input) && ValidUtf8(output) && i < |input| && Progress(input, env, i, output) && EscapeAt(input, i)
    ensures IsCharBoundary(input, i + 3) && Progress(input, env, i + 3, output + [DOLLAR, OPEN])
    ensures ValidUtf8(output + [DOLLAR, OPEN])
  {
    hide Resolved, Progress, ValidUtf8;
    EscapeStep(input[i..], env);
    assert input[i..][3..] == input[i + 3..];
    Advance(input, env, i, i + 3, output, [DOLLAR, OPEN]);
    BoundaryAfterAscii(input, i + 2);
    OpenerIsText();
    ConcatValid(output, [DOLLAR, OPEN]);
  }

  /** What the input resolves to when an opener is met at `i`, in terms of the scan. */
  lemma AtPlaceholder(input: seq<Byte>, env: Env, i: nat, output: seq<Byte>)
    requires i < |input| && Progress(input, env, i, output) && OpenerAt(input, i)
    ensures ScanName(input[i + 2..]) == None ==> Resolved(input, env) == Err(Malformed)
    ensures ScanName(input[i + 2..]).Some? ==>
              var value := Substituted(Placeholder(input[i + 2..][..ScanName(input[i + 2..]).value]), env);
              value.Err? ==> Resolved(input, env) == value
  {
    hide Resolved, Substituted;
    PlaceholderStep(input[i..], env);
    assert input[i..][2..] == input[i + 2..];
  }

  lemma UnboundStops(input: seq<Byte>, env: Env, i: nat, output: seq<Byte>, name: seq<Byte>)
    requires Substituted(Placeholder(name), env).Err? ==> Resolved(input, env) == Substituted(Placeholder(name), env)
    ensures name == [] ==> Resolved(input, env) == Err(EmptyName)
    ensures name != [] && name !in env ==> Resolved(input, env) == Err(UnsetVariable(name))
    ensures name != [] && name in env && env[name] == [] ==> Resolved(input, env) == Err(EmptyVariable(name))
  {
  }

  lemma PastPlaceholder(input: seq<Byte>, env: Env, i: nat, output: seq<Byte>, n: nat)
    requires ValidUtf8(input) && i < |input| && Progress(input, env, i, output) && OpenerAt(input, i)
    requires ScanName(input[i + 2..]) == Some(n)
    requires var name := input[i + 2..][..n]; name != [] && name in env && env[name] != []
    ensures i + 2 + n + 1 <= |input| && IsCharBoundary(input, i + 2 + n + 1)
    ensures Progress(input, env, i + 2 + n + 1, output + env[input[i + 2..][..n]])
  {
    hide Resolved, Progress, ValidUtf8;
    var s := input[i..];
    PlaceholderStep(s, env);
    assert s[2..] == input[i + 2..];
    assert input[i + 2..][n + 1..] == input[i + 2 + n + 1..];
    Advance(input, env, i, i + 2 + n + 1, output, env[input[i + 2..][..n]]);
    BoundaryAfterAscii(input, i + 2 + n);
  }

  lemma PastScalar(input: seq<Byte>, env: Env, i: nat, output: seq<Byte>, n: nat)
    requires ValidUtf8(input) && ValidUtf8(output) && i < |input| && IsCharBoundary(input, i) && Progress(input, env, i, output)
    requires !EscapeAt(input, i) && !OpenerAt(input, i)
    requires n == ScalarLen(input[i..])
    ensures 0 < n && i + n <= |input| && IsCharBoundary(input, i + n)
    ensures Progress(input, env, i + n, output + input[i..i + n]) && ValidUtf8(output + input[i..i + n])
  {
    hide Resolved, Progress, ValidUtf8;
    var s := input[i..];
    BoundarySplits(input, i);
    LeadingScalar(s);
    ScalarStep(s, n, env);
    assert s[n..] == input[i + n..] && s[..n] == input[i..i + n];
    Advance(input, env, i, i + n, output, s[..n]);
    ConcatValid(output, s[..n]);
    AfterScalar(input, i, n);
  }

  lemma Start(input: seq<Byte>, env: Env)
    ensures Progress(input, env, 0, []) && ValidUtf8([])
  {
    hide Resolved;
    assert input[0..] == input;
    PrependNothing(Resolved(input, env));
  }

  lemma NothingResolves(env: Env)
    ensures Resolved([], env) == Ok([])
  {
    RenderText([], [], env);
    assert [Text([])] + [] == [Text([])];
    PrependNothing(Rendered([], env));
  }

  lemma Finish(input: seq<Byte>, env: Env, output: seq<Byte>)
    requires Progress(input, env, |input|, output)
    ensures Resolved(input, env) == Ok(output)
  {
    hide Resolved;
    assert input[|input|..] == [];
    NothingResolves(env);
    assert output + [] == output;
  }

  lemma OpenerIsText()
    ensures ValidUtf8([DOLLAR, OPEN])
  {
    assert [DOLLAR, OPEN][1..] == [OPEN] && [OPEN][1..] == [];
  }

  lemma LeadingScalar(s: seq<Byte>)
    requires ValidUtf8(s) && s != []
    ensures ScalarLen(s) > 0 && ValidUtf8(s[..ScalarLen(s)])
  {
    var n := ScalarLen(s);
    SameHead(s, s[..n]);
    assert s[..n][n..] == [];
  }

  lemma AfterScalar(s: seq<Byte>, i: nat, n: nat)
    requires ValidUtf8(s) && i < |s| && IsCharBoundary(s, i) && n == ScalarLen(s[i..])
    ensures n > 0 && i + n <= |s| && IsCharBoundary(s, i + n)
  {
    BoundarySplits(s, i);
    assert s[i..][n..] == s[i + n..];
    if i + n < |s| {
      assert ScalarLen(s[i + n..]) > 0;
    }
  }

  // ---- Every string can be written literally ----

  /** One `$` added before each `${`. */
  function Escaped(s: seq<Byte>): seq<Byte> {
    if s == [] then []
    else if OpenerAt(s, 0) then [DOLLAR, DOLLAR, OPEN] + Escaped(s[2..])
    else [s[0]] + Escaped(s[1..])
  }

  lemma {:induction false} EscapedHead(s: seq<Byte>)
    ensures s == [] ==> Escaped(s) == []
    ensures s != [] ==> Escaped(s) != [] && Escaped(s)[0] == s[0]
    ensures !OpenerAt(Escaped(s), 0)
  {
    if s != [] && !OpenerAt(s, 0) {
      if |s| > 1 {
        EscapedHead(s[1..]);
      }
    }
  }

  lemma NoEscapeAtHead(e: seq<Byte>)
    requires e != [] && !OpenerAt(e[1..], 0)
    ensures !EscapeAt(e, 0)
  {
  }

  /** Escaping and then resolving gives the string back, whatever the environment. */
  lemma {:induction false} EscapedResolvesToItself(s: seq<Byte>, env: Env)
    ensures Resolved(Escaped(s), env) == Ok(s)
  {
    var e := Escaped(s);
    if s == [] {
      NothingResolves(env);
    } else if OpenerAt(s, 0) {
      EscapedResolvesToItself(s[2..], env);
      EscapeStep(e, env);
      assert e[3..] == Escaped(s[2..]);
      assert s == [DOLLAR, OPEN] + s[2..];
    } else {
      EscapedResolvesToItself(s[1..], env);
      EscapedHead(s);
      EscapedHead(s[1..]);
      assert e[1..] == Escaped(s[1..]);
      NoEscapeAtHead(e);
      TextStep(e, env);
      assert s == [s[0]] + s[1..];
    }
  }
}
