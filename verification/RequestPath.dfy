/**
  Path normalisation at the FFI boundary (crates/ffi/src/lib.rs) and the
  byte-level percent decoder (crates/test-utils/src/telemetry.rs). Escapes are
  those of section 2.1 of RFC 3986, and the bytes left alone are the unreserved
  characters of its section 2.3.
*/
module RequestPath {
  import opened Wrappers
  import opened Utf8

  const PERCENT: Byte := 37
  const SLASH: Byte := 47
  const QUESTION: Byte := 63
  const HASH: Byte := 35

  predicate Alphanumeric(b: Byte) {
    48 <= b <= 57 || 65 <= b <= 90 || 97 <= b <= 122
  }

  /** The complement of `PATH_ENCODE_SET`: letters, digits, `.`, `-`, `_`, `~`. */
  predicate Unreserved(b: Byte) {
    Alphanumeric(b) || b == 46 || b == 45 || b == 95 || b == 126
  }

  type Nibble = n: int | 0 <= n < 16

  function HexDigit(n: Nibble): Byte {
    if n < 10 then 48 + n else 55 + n
  }

  /** `char::to_digit(16)`, upper and lower case. */
  function DigitValue(b: Byte): Option<Nibble> {
    if 48 <= b <= 57 then Some(b - 48)
    else if 65 <= b <= 70 then Some(b - 55)
    else if 97 <= b <= 102 then Some(b - 87)
    else None
  }

  function ByteOf(hi: Nibble, lo: Nibble): Byte {
    16 * (hi as int) + lo as int
  }

  function Escape(b: Byte): seq<Byte> {
    [PERCENT, HexDigit(b / 16), HexDigit(b % 16)]
  }

  /** `utf8_percent_encode` with `PATH_ENCODE_SET`. */
  function PercentEncoded(s: seq<Byte>): seq<Byte> {
    if s == [] then []
    else (if Unreserved(s[0]) then [s[0]] else Escape(s[0])) + PercentEncoded(s[1..])
  }

  predicate SlashEscapeAt(s: seq<Byte>, i: nat) {
    i + 2 < |s| && s[i] == PERCENT && s[i + 1] == 50 && s[i + 2] == 70
  }

  /** `.replace("%2F", "/")`. */
  function SlashesRestored(s: seq<Byte>): seq<Byte> {
    if s == [] then []
    else if SlashEscapeAt(s, 0) then [SLASH] + SlashesRestored(s[3..])
    else [s[0]] + SlashesRestored(s[1..])
  }

  predicate EscapeAt(s: seq<Byte>, i: nat) {
    i + 2 < |s| && s[i] == PERCENT && DigitValue(s[i + 1]).Some? && DigitValue(s[i + 2]).Some?
  }

  /** Escapes become bytes; malformed sequences are copied. */
  function Decoded(s: seq<Byte>): seq<Byte> {
    if s == [] then []
    else if EscapeAt(s, 0) then [ByteOf(DigitValue(s[1]).value, DigitValue(s[2]).value)] + Decoded(s[3..])
    else [s[0]] + Decoded(s[1..])
  }

  lemma DecodedFrom(text: seq<Byte>, i: nat)
    requires i < |text|
    ensures EscapeAt(text, i) ==>
              Decoded(text[i..]) == [ByteOf(DigitValue(text[i + 1]).value, DigitValue(text[i + 2]).value)] + Decoded(text[i + 3..])
    ensures !EscapeAt(text, i) ==> Decoded(text[i..]) == [text[i]] + Decoded(text[i + 1..])
  {
    hide DigitValue, ByteOf;
    var rest := text[i..];
    if EscapeAt(text, i) {
      assert EscapeAt(rest, 0) && rest[3..] == text[i + 3..];
    } else {
      assert !EscapeAt(rest, 0) && rest[1..] == text[i + 1..];
    }
  }

  lemma DecodeStep(text: seq<Byte>, i: nat, out: seq<Byte>)
    requires i < |text| && out + Decoded(text[i..]) == Decoded(text)
    ensures EscapeAt(text, i) ==>
              out + [ByteOf(DigitValue(text[i + 1]).value, DigitValue(text[i + 2]).value)] + Decoded(text[i + 3..]) == Decoded(text)
    ensures !EscapeAt(text, i) ==> out + [text[i]] + Decoded(text[i + 1..]) == Decoded(text)
  {
    DecodedFrom(text, i);
    hide Decoded, DigitValue, ByteOf;
  }

  method PercentDecode(text: seq<Byte>) returns (out: seq<Byte>)
    ensures out == Decoded(text)
    ensures |out| <= |text|
  {
    out := [];
    var i := 0;
    assert text[0..] == text;
    hide Decoded;
    while i < |text|
      invariant i <= |text| && |out| <= i
      invariant out + Decoded(text[i..]) == Decoded(text)
    {
      DecodeStep(text, i, out);
      if text[i] == PERCENT && i + 2 < |text| {
        var h, l := DigitValue(text[i + 1]), DigitValue(text[i + 2]);
        if h.Some? && l.Some? {
          out := out + [ByteOf(h.value, l.value)];
          i := i + 3;
          continue;
        }
      }
      out := out + [text[i]];
      i := i + 1;
    }
    NothingDecodes();
    assert text[i..] == [];
  }

  lemma NothingDecodes()
    ensures Decoded([]) == []
  {
  }

  // ---- What the digits, escapes and literal bytes are ----

  const UPPER_HEX := "0123456789ABCDEF"
  const LOWER_HEX := "0123456789abcdef"

  /** A digit is read in either case. */
  lemma HexReadInBothCases(b: Byte, n: Nibble)
    ensures DigitValue(b) == Some(n) <==> b as char == UPPER_HEX[n] || b as char == LOWER_HEX[n]
  {
  }

  predicate IsHex(b: Byte) {
    b as char in UPPER_HEX || b as char in LOWER_HEX
  }

  lemma IsHexIff(b: Byte)
    ensures IsHex(b) <==> DigitValue(b).Some?
  {
    if DigitValue(b).Some? {
      HexReadInBothCases(b, DigitValue(b).value);
    }
    if IsHex(b) {
      var n: Nibble :| b as char == UPPER_HEX[n] || b as char == LOWER_HEX[n];
      HexReadInBothCases(b, n);
    }
  }

  /** Two hexadecimal digits after a `%` become one byte. */
  lemma EscapeDecodes(h: Byte, l: Byte, hi: Nibble, lo: Nibble, t: seq<Byte>)
    requires h as char == UPPER_HEX[hi] || h as char == LOWER_HEX[hi]
    requires l as char == UPPER_HEX[lo] || l as char == LOWER_HEX[lo]
    ensures Decoded([37, h, l] + t) == [16 * hi as int + lo as int] + Decoded(t)
  {
    HexReadInBothCases(h, hi);
    HexReadInBothCases(l, lo);
    hide DigitValue;
    assert ([37, h, l] + t)[3..] == t;
  }

  /** A `%` without two digits after it is copied, like every other byte. */
  lemma MalformedEscapeIsCopied(b: Byte, t: seq<Byte>)
    requires b != 37 || |t| < 2 || !IsHex(t[0]) || !IsHex(t[1])
    ensures Decoded([b] + t) == [b] + Decoded(t)
  {
    if |t| >= 2 {
      IsHexIff(t[0]);
      IsHexIff(t[1]);
    }
    hide DigitValue, IsHex;
    assert ([b] + t)[1..] == t;
  }

  // ---- The encoder, the slash restoration and the decoder together ----

  /** The encoding of one path byte in the assembled URI. */
  function PathByte(b: Byte): seq<Byte> {
    if Unreserved(b) || b == SLASH then [b] else Escape(b)
  }

  function PathEncoded(s: seq<Byte>): seq<Byte> {
    if s == [] then [] else PathByte(s[0]) + PathEncoded(s[1..])
  }

  /** In a URI path exactly the unreserved characters and `/` stand for themselves; any other byte is `%` and two upper-case digits. */
  lemma PathByteIsLiteralIff(b: Byte)
    ensures var c := b as char;
            PathByte(b) == [b] <==> 'A' <= c <= 'Z' || 'a' <= c <= 'z' || '0' <= c <= '9' || c in "-._~/"
    ensures PathByte(b) == [b] ||
              (|PathByte(b)| == 3 && PathByte(b)[0] == 37
               && PathByte(b)[1] as char == UPPER_HEX[b / 16] && PathByte(b)[2] as char == UPPER_HEX[b % 16])
  {
  }

  lemma HexDigitInverts(n: Nibble)
    ensures DigitValue(HexDigit(n)) == Some(n)
    ensures HexDigit(n) != PERCENT && Alphanumeric(HexDigit(n))
  {
  }

  lemma OnlySlashEscapesToSlash(b: Byte)
    ensures Escape(b)[1] == 50 && Escape(b)[2] == 70 <==> b == SLASH
  {
    assert b == (b / 16) * 16 + b % 16;
  }

  lemma RestoreCopies(b: Byte, t: seq<Byte>)
    requires b != PERCENT
    ensures SlashesRestored([b] + t) == [b] + SlashesRestored(t)
  {
    assert ([b] + t)[1..] == t;
  }

  lemma RestoreEscape(b: Byte, t: seq<Byte>)
    ensures SlashesRestored(Escape(b) + t) == (if b == SLASH then [SLASH] else Escape(b)) + SlashesRestored(t)
  {
    var e := Escape(b) + t;
    OnlySlashEscapesToSlash(b);
    HexDigitInverts(b / 16);
    HexDigitInverts(b % 16);
    if b == SLASH {
      assert e[3..] == t;
    } else {
      var h, l := HexDigit(b / 16), HexDigit(b % 16);
      assert e[1..] == [h] + ([l] + t);
      RestoreCopies(h, [l] + t);
      RestoreCopies(l, t);
      assert [PERCENT] + ([h] + ([l] + SlashesRestored(t))) == Escape(b) + SlashesRestored(t);
    }
  }

  /** Restoring `%2F` undoes exactly the escapes of slashes and touches no other escape. */
  lemma {:induction false} RestoringTouchesOnlySlashes(s: seq<Byte>)
    ensures SlashesRestored(PercentEncoded(s)) == PathEncoded(s)
  {
    if s != [] {
      RestoringTouchesOnlySlashes(s[1..]);
      if Unreserved(s[0]) {
        RestoreCopies(s[0], PercentEncoded(s[1..]));
      } else {
        RestoreEscape(s[0], PercentEncoded(s[1..]));
      }
    }
  }

  lemma DecodePathByte(b: Byte, t: seq<Byte>)
    ensures Decoded(PathByte(b) + t) == [b] + Decoded(t)
  {
    var e := PathByte(b) + t;
    if Unreserved(b) || b == SLASH {
      assert e[1..] == t;
    } else {
      HexDigitInverts(b / 16);
      HexDigitInverts(b % 16);
      assert EscapeAt(e, 0) && e[3..] == t;
      assert (b / 16) * 16 + b % 16 == b;
    }
  }

  lemma {:induction false} DecodingInvertsPathEncoding(s: seq<Byte>)
    ensures Decoded(PathEncoded(s)) == s
  {
    if s != [] {
      DecodePathByte(s[0], PathEncoded(s[1..]));
      DecodingInvertsPathEncoding(s[1..]);
    }
  }

  predicate PathChar(b: Byte) {
    Unreserved(b) || b == SLASH || b == PERCENT
  }

  lemma {:induction false} EncodedPathChars(s: seq<Byte>)
    ensures forall i | 0 <= i < |PathEncoded(s)| :: PathChar(PathEncoded(s)[i])
  {
    if s != [] {
      EncodedPathChars(s[1..]);
      HexDigitInverts(s[0] / 16);
      HexDigitInverts(s[0] % 16);
      assert forall i | 0 <= i < |PathByte(s[0])| :: PathChar(PathByte(s[0])[i]);
    }
  }

  lemma {:induction false} AsciiIsValid(s: seq<Byte>)
    requires forall i | 0 <= i < |s| :: s[i] < 0x80
    ensures ValidUtf8(s)
  {
    if s != [] {
      AsciiIsValid(s[1..]);
    }
  }

  // ---- Requests ----

  datatype Wire = Wire(rawPath: seq<Byte>, pathIsRaw: bool, query: Option<seq<Byte>>)

  datatype Status = BadRequest

  function EffectivePath(w: Wire): seq<Byte> {
    if w.rawPath == [] then [SLASH] else w.rawPath
  }

  predicate OneLeadingSlash(s: seq<Byte>) {
    |s| > 0 && s[0] == SLASH && !(|s| > 1 && s[1] == SLASH)
  }

  /** The decoded path the request names. */
  function HostPath(w: Wire): seq<Byte> {
    if w.pathIsRaw then Decoded(EffectivePath(w)) else EffectivePath(w)
  }

  function HostQuery(w: Wire): Option<seq<Byte>> {
    if w.query == Some([]) then None else w.query
  }

  predicate Accepted(w: Wire) {
    && OneLeadingSlash(EffectivePath(w))
    && ValidUtf8(EffectivePath(w))
    && (w.pathIsRaw ==> QUESTION !in EffectivePath(w) && HASH !in EffectivePath(w))
    && ValidUtf8(HostPath(w))
    && (HostQuery(w).Some? ==> ValidUtf8(HostQuery(w).value))
  }

  /** The string handed to the URI parser. */
  function PathAndQuery(w: Wire): Result<seq<Byte>, Status> {
    if !Accepted(w) then Err(BadRequest)
    else
      var encoded := SlashesRestored(PercentEncoded(HostPath(w)));
      match HostQuery(w)
      case None => Ok(encoded)
      case Some(query) => Ok(encoded + [QUESTION] + query)
  }

  /**
    What is refused, for both hint forms: a path that is not empty and does not
    begin with exactly one slash, invalid UTF-8 before or after decoding or in
    the query, and a raw path with a `?` or a `#`.
  */
  lemma RefusedIff(w: Wire)
    ensures PathAndQuery(w).Err? <==>
              || (|w.rawPath| > 0 && w.rawPath[0] != 47)
              || (|w.rawPath| > 1 && w.rawPath[1] == 47)
              || !ValidUtf8(w.rawPath)
              || (w.pathIsRaw && (63 in w.rawPath || 35 in w.rawPath || !ValidUtf8(Decoded(w.rawPath))))
              || (w.query.Some? && !ValidUtf8(w.query.value))
  {
    if w.rawPath == [] {
      AsciiIsValid([SLASH]);
      SlashDecodes();
    }
    hide Decoded, SlashesRestored, PercentEncoded;
  }

  lemma SlashDecodes()
    ensures Decoded([SLASH]) == [SLASH]
  {
    assert [SLASH][1..] == [];
  }

  /** Position of the first `?`, where a URI parser ends the path. */
  function QueryMark(uri: seq<Byte>): (i: nat)
    ensures i <= |uri| && forall j | 0 <= j < i :: uri[j] != QUESTION
    ensures i < |uri| ==> uri[i] == QUESTION
  {
    if uri == [] || uri[0] == QUESTION then 0 else 1 + QueryMark(uri[1..])
  }

  function UriPath(uri: seq<Byte>): seq<Byte> {
    uri[..QueryMark(uri)]
  }

  function UriQuery(uri: seq<Byte>): Option<seq<Byte>> {
    if QueryMark(uri) == |uri| then None else Some(uri[QueryMark(uri) + 1..])
  }

  lemma MarkAfter(path: seq<Byte>, tail: seq<Byte>)
    requires QUESTION !in path && (tail == [] || tail[0] == QUESTION)
    ensures QueryMark(path + tail) == |path|
  {
    forall j | 0 <= j < |path| ensures (path + tail)[j] != QUESTION {
      assert path[j] in path;
    }
    assert tail != [] ==> (path + tail)[|path|] == QUESTION;
  }

  lemma {:induction false} DecodedHead(s: seq<Byte>)
    requires s != [] && s[0] != PERCENT
    ensures Decoded(s) != [] && Decoded(s)[0] == s[0]
  {
  }

  /**
    The first `?` of the assembled string is the true query boundary: what
    precedes it decodes to the host's path and holds no `?` or `#`, what follows
    it is the host's query.
  */
  lemma AssembledUriIsFaithful(w: Wire)
    requires Accepted(w)
    ensures var uri := PathAndQuery(w).value;
            && UriPath(uri) == PathEncoded(HostPath(w))
            && Decoded(UriPath(uri)) == HostPath(w)
            && UriQuery(uri) == (if w.query == Some([]) then None else w.query)
            && QUESTION !in UriPath(uri) && HASH !in UriPath(uri)
            && UriPath(uri) != [] && UriPath(uri)[0] == SLASH
  {
    var path := HostPath(w);
    var encoded := PathEncoded(path);
    RestoringTouchesOnlySlashes(path);
    DecodingInvertsPathEncoding(path);
    EncodedPathChars(path);
    LeadingSlashSurvives(w);
    assert HostQuery(w) == if w.query == Some([]) then None else w.query;
    hide Accepted, HostPath, HostQuery, PathEncoded, Decoded, SlashesRestored, PercentEncoded, UriPath, UriQuery;
    SplitAtMark(encoded, HostQuery(w));
  }

  lemma SplitAtMark(path: seq<Byte>, query: Option<seq<Byte>>)
    requires forall i | 0 <= i < |path| :: PathChar(path[i])
    ensures var uri := if query.None? then path else path + [QUESTION] + query.value;
            UriPath(uri) == path && UriQuery(uri) == query && QUESTION !in path && HASH !in path
  {
    match query
    case None =>
      MarkAfter(path, []);
      assert path + [] == path && path[..|path|] == path;
    case Some(q) =>
      var uri := path + [QUESTION] + q;
      assert uri == path + ([QUESTION] + q);
      MarkAfter(path, [QUESTION] + q);
      assert uri[..|path|] == path && uri[|path| + 1..] == q;
  }

  lemma LeadingSlashSurvives(w: Wire)
    requires Accepted(w)
    ensures HostPath(w) != [] && HostPath(w)[0] == SLASH
    ensures PathEncoded(HostPath(w)) != [] && PathEncoded(HostPath(w))[0] == SLASH
    ensures PathAndQuery(w).Ok?
  {
    DecodedHead(EffectivePath(w));
  }

  /** So different paths or queries never collide. */
  lemma SameUriSameRequest(v: Wire, w: Wire)
    requires Accepted(v) && Accepted(w) && PathAndQuery(v) == PathAndQuery(w)
    ensures HostPath(v) == HostPath(w)
    ensures v.query == w.query || (v.query == None && w.query == Some([])) || (v.query == Some([]) && w.query == None)
  {
    hide *;
    AssembledUriIsFaithful(v);
    AssembledUriIsFaithful(w);
  }

  /** The same request with its path already decoded by the host. */
  function DecodedForm(w: Wire): Wire {
    Wire(HostPath(w), false, w.query)
  }

  /**
    The raw and the decoded hint form of one path give the same URI exactly when
    the decoded path does not begin with two slashes.
  */
  lemma RawAndDecodedAgreeIff(w: Wire)
    requires Accepted(w) && w.pathIsRaw
    ensures PathAndQuery(DecodedForm(w)) == PathAndQuery(w) <==> OneLeadingSlash(HostPath(w))
  {
    LeadingSlashSurvives(w);
    var d := DecodedForm(w);
    assert EffectivePath(d) == HostPath(w) && HostPath(d) == HostPath(w) && HostQuery(d) == HostQuery(w);
    hide Decoded, SlashesRestored, PercentEncoded, ValidUtf8;
    assert Accepted(d) <==> OneLeadingSlash(HostPath(w));
  }

  /** `/%2Fx` is accepted raw, but its decoded form `//x` is not. */
  lemma RawSlashExample()
    ensures var w := Wire([SLASH] + Escape(SLASH) + [120], true, None);
            Accepted(w) && PathAndQuery(DecodedForm(w)) == Err(BadRequest)
  {
    hide Decoded, ValidUtf8, PercentEncoded, SlashesRestored;
    var w := Wire([SLASH] + Escape(SLASH) + [120], true, None);
    EscapedSlashDecodes();
    AsciiIsValid(w.rawPath);
    AsciiIsValid([SLASH, SLASH, 120]);
  }

  lemma EscapedSlashDecodes()
    ensures Decoded([SLASH] + Escape(SLASH) + [120]) == [SLASH, SLASH, 120]
  {
    var tail := Escape(SLASH) + [120];
    assert ([SLASH] + Escape(SLASH) + [120])[1..] == tail;
    assert EscapeAt(tail, 0) && tail[3..] == [120] && [120][1..] == [];
    assert Decoded([120]) == [120];
    assert Decoded(tail) == [SLASH, 120];
  }

  /** Normalising an assembled URI again as a raw path changes nothing, under the same condition. */
  lemma NormalisingTwice(w: Wire)
    requires Accepted(w)
    ensures var uri := PathAndQuery(w).value;
            PathAndQuery(Wire(UriPath(uri), true, UriQuery(uri))) == Ok(uri) <==> OneLeadingSlash(HostPath(w))
  {
    var uri := PathAndQuery(w).value;
    var again := Wire(UriPath(uri), true, UriQuery(uri));
    AssembledUriIsFaithful(w);
    LeadingSlashSurvives(w);
    EncodedPathChars(HostPath(w));
    AsciiIsValid(UriPath(uri));
    SlashesAlign(HostPath(w));
    assert HostPath(again) == HostPath(w) && HostQuery(again) == HostQuery(w);
    hide Decoded, SlashesRestored, PercentEncoded, ValidUtf8, PathEncoded;
    assert Accepted(again) <==> OneLeadingSlash(HostPath(w));
  }

  lemma SlashesAlign(s: seq<Byte>)
    requires s != [] && s[0] == SLASH
    ensures OneLeadingSlash(PathEncoded(s)) <==> OneLeadingSlash(s)
  {
    var rest := s[1..];
    assert PathEncoded(s) == [SLASH] + PathEncoded(rest);
    if rest != [] {
      assert PathEncoded(rest)[0] == PathByte(rest[0])[0];
    }
  }
}
