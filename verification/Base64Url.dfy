/** Unpadded base64url (section 5 of RFC 4648), as `URL_SAFE_NO_PAD` encodes and strictly decodes it. */
module Base64Url {
  import opened Wrappers
  import opened Utf8

  type Sextet = n: int | 0 <= n < 64

  function CharOf(n: Sextet): char
  {
    if n < 26 then 'A' + n as char
    else if n < 52 then 'a' + (n - 26) as char
    else if n < 62 then '0' + (n - 52) as char
    else if n == 62 then '-' else '_'
  }

  function SextetOf(c: char): Option<Sextet> {
    if 'A' <= c <= 'Z' then Some((c - 'A') as int)
    else if 'a' <= c <= 'z' then Some((c - 'a') as int + 26)
    else if '0' <= c <= '9' then Some((c - '0') as int + 52)
    else if c == '-' then Some(62)
    else if c == '_' then Some(63)
    else None
  }

  lemma CharsAndSextets(c: char, n: Sextet)
    ensures SextetOf(c) == Some(n) <==> c == CharOf(n)
  {
  }

  // ---- Bytes and sextets ----

  function Sextet0(a: Byte): Sextet {
    (a as int) / 4
  }

  function Sextet1(a: Byte, b: Byte): Sextet {
    (a as int) % 4 * 16 + (b as int) / 16
  }

  function Sextet2(b: Byte, c: Byte): Sextet {
    (b as int) % 16 * 4 + (c as int) / 64
  }

  function Sextet3(c: Byte): Sextet {
    (c as int) % 64
  }

  function Byte0(w: Sextet, x: Sextet): Byte {
    (w as int) * 4 + (x as int) / 16
  }

  function Byte1(x: Sextet, y: Sextet): Byte {
    (x as int) % 16 * 16 + (y as int) / 4
  }

  function Byte2(y: Sextet, z: Sextet): Byte {
    (y as int) % 4 * 64 + z as int
  }

  predicate TrailingBits(n: Sextet, modulus: int)
    requires modulus > 0
  {
    n % modulus != 0
  }

  lemma GroupBytes(a: Byte, b: Byte, c: Byte)
    ensures Byte0(Sextet0(a), Sextet1(a, b)) == a
    ensures Byte1(Sextet1(a, b), Sextet2(b, c)) == b
    ensures Byte2(Sextet2(b, c), Sextet3(c)) == c
    ensures !TrailingBits(Sextet1(a, 0), 16) && !TrailingBits(Sextet2(b, 0), 4)
  {
  }

  lemma GroupSextets(w: Sextet, x: Sextet, y: Sextet, z: Sextet)
    ensures Sextet0(Byte0(w, x)) == w
    ensures Sextet1(Byte0(w, x), Byte1(x, y)) == x
    ensures Sextet2(Byte1(x, y), Byte2(y, z)) == y
    ensures Sextet3(Byte2(y, z)) == z
    ensures !TrailingBits(x, 16) ==> Sextet1(Byte0(w, x), 0) == x
    ensures !TrailingBits(y, 4) ==> Sextet2(Byte1(x, y), 0) == y
  {
  }

  function Split(bs: seq<Byte>): seq<Sextet> {
    if |bs| == 0 then []
    else if |bs| == 1 then [Sextet0(bs[0]), Sextet1(bs[0], 0)]
    else if |bs| == 2 then [Sextet0(bs[0]), Sextet1(bs[0], bs[1]), Sextet2(bs[1], 0)]
    else [Sextet0(bs[0]), Sextet1(bs[0], bs[1]), Sextet2(bs[1], bs[2]), Sextet3(bs[2])] + Split(bs[3..])
  }

  /** A lone sextet and non-zero trailing bits are rejected. */
  function Joined(ss: seq<Sextet>): Option<seq<Byte>> {
    if |ss| == 0 then Some([])
    else if |ss| == 1 then None
    else if |ss| == 2 then if TrailingBits(ss[1], 16) then None else Some([Byte0(ss[0], ss[1])])
    else if |ss| == 3 then if TrailingBits(ss[2], 4) then None else Some([Byte0(ss[0], ss[1]), Byte1(ss[1], ss[2])])
    else
      match Joined(ss[4..])
      case None => None
      case Some(rest) => Some([Byte0(ss[0], ss[1]), Byte1(ss[1], ss[2]), Byte2(ss[2], ss[3])] + rest)
  }

  lemma {:induction false} JoinedInvertsSplit(bs: seq<Byte>)
    ensures Joined(Split(bs)) == Some(bs)
  {
    hide Sextet0, Sextet1, Sextet2, Sextet3, Byte0, Byte1, Byte2, TrailingBits;
    if |bs| >= 3 {
      JoinedInvertsSplit(bs[3..]);
      GroupBytes(bs[0], bs[1], bs[2]);
      assert Split(bs)[4..] == Split(bs[3..]);
      assert bs == [bs[0], bs[1], bs[2]] + bs[3..];
    } else if |bs| == 2 {
      GroupBytes(bs[0], bs[1], 0);
      assert bs == [bs[0], bs[1]];
    } else if |bs| == 1 {
      GroupBytes(bs[0], 0, 0);
      assert bs == [bs[0]];
    }
  }

  lemma {:induction false} SplitInvertsJoined(ss: seq<Sextet>)
    requires Joined(ss).Some?
    ensures Split(Joined(ss).value) == ss
  {
    hide Sextet0, Sextet1, Sextet2, Sextet3, Byte0, Byte1, Byte2, TrailingBits;
    if |ss| >= 4 {
      SplitInvertsJoined(ss[4..]);
      GroupSextets(ss[0], ss[1], ss[2], ss[3]);
      assert Joined(ss).value[3..] == Joined(ss[4..]).value;
      assert ss == [ss[0], ss[1], ss[2], ss[3]] + ss[4..];
    } else if |ss| == 3 {
      GroupSextets(ss[0], ss[1], ss[2], 0);
    } else if |ss| == 2 {
      GroupSextets(ss[0], ss[1], 0, 0);
    }
  }

  // ---- Text ----

  function Written(ss: seq<Sextet>): string {
    seq(|ss|, i requires 0 <= i < |ss| => CharOf(ss[i]))
  }

  function Read(s: string): Option<seq<Sextet>> {
    if s == "" then Some([])
    else
      match (SextetOf(s[0]), Read(s[1..]))
      case (Some(n), Some(rest)) => Some([n] + rest)
      case _ => None
  }

  lemma {:induction false} ReadIffWritten(s: string, ss: seq<Sextet>)
    ensures Read(s) == Some(ss) <==> s == Written(ss)
  {
    if s != "" && ss != [] {
      ReadIffWritten(s[1..], ss[1..]);
      CharsAndSextets(s[0], ss[0]);
      assert Written(ss) == [CharOf(ss[0])] + Written(ss[1..]);
      assert ss == [ss[0]] + ss[1..];
      assert s == [s[0]] + s[1..];
      assert Read(s).Some? ==> Read(s).value[0] == SextetOf(s[0]).value && Read(s).value[1..] == Read(s[1..]).value;
    }
  }

  function Encoded(bs: seq<Byte>): string {
    Written(Split(bs))
  }

  function Decoded(s: string): Option<seq<Byte>> {
    match Read(s)
    case None => None
    case Some(ss) => Joined(ss)
  }

  /** Decoding accepts exactly the canonical encoding of each byte string. */
  lemma DecodesIffEncoded(s: string, bs: seq<Byte>)
    ensures Decoded(s) == Some(bs) <==> s == Encoded(bs)
  {
    JoinedInvertsSplit(bs);
    ReadIffWritten(s, Split(bs));
    if Decoded(s) == Some(bs) {
      SplitInvertsJoined(Read(s).value);
    }
  }

  // ---- Which text it is ----

  /** The alphabet of Table 2: `A` to `Z`, `a` to `z`, `0` to `9`, `-`, `_`. */
  lemma AlphabetIsUrlSafe(n: Sextet)
    ensures CharOf(0) == 'A' && CharOf(25) == 'Z' && CharOf(26) == 'a' && CharOf(51) == 'z'
    ensures CharOf(52) == '0' && CharOf(61) == '9' && CharOf(62) == '-' && CharOf(63) == '_'
    ensures n < 61 && n != 25 && n != 51 ==> CharOf(n + 1) as int == CharOf(n) as int + 1
  {
  }

  lemma GroupIsBigEndian(a: Byte, b: Byte, c: Byte)
    ensures var n := 65536 * a as int + 256 * b as int + c as int;
            && Sextet0(a) == n / 262144 && Sextet1(a, b) == n / 4096 % 64
            && Sextet2(b, c) == n / 64 % 64 && Sextet3(c) == n % 64
  {
    var n := 65536 * a as int + 256 * b as int + c as int;
    assert n / 64 == 1024 * a as int + 4 * b as int + c as int / 64;
    assert n / 4096 == 16 * a as int + b as int / 16;
  }

  lemma WrittenGroup(group: seq<Sextet>, rest: seq<Sextet>)
    ensures Written(group + rest) == Written(group) + Written(rest)
  {
  }

  /** Three bytes become the four digits, in base 64, of their big-endian number. */
  lemma EncodedByGroups(a: Byte, b: Byte, c: Byte, rest: seq<Byte>)
    ensures var n := 65536 * a as int + 256 * b as int + c as int;
            Encoded([a, b, c] + rest)
            == [CharOf(n / 262144), CharOf(n / 4096 % 64), CharOf(n / 64 % 64), CharOf(n % 64)] + Encoded(rest)
  {
    GroupIsBigEndian(a, b, c);
    hide CharOf, Sextet0, Sextet1, Sextet2, Sextet3;
    var group := [Sextet0(a), Sextet1(a, b), Sextet2(b, c), Sextet3(c)];
    assert ([a, b, c] + rest)[3..] == rest;
    assert Split([a, b, c] + rest) == group + Split(rest);
    WrittenGroup(group, Split(rest));
  }

  /** One or two bytes left over become the leading two or three digits, without padding. */
  lemma EncodedRemainder(a: Byte, b: Byte)
    ensures Encoded([]) == ""
    ensures var n := 65536 * a as int; Encoded([a]) == [CharOf(n / 262144), CharOf(n / 4096 % 64)]
    ensures var n := 65536 * a as int + 256 * b as int;
            Encoded([a, b]) == [CharOf(n / 262144), CharOf(n / 4096 % 64), CharOf(n / 64 % 64)]
  {
    GroupIsBigEndian(a, 0, 0);
    GroupIsBigEndian(a, b, 0);
    hide CharOf, Sextet0, Sextet1, Sextet2, Sextet3;
  }
}
