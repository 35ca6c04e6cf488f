/** Byte strings and well-formed UTF-8 (Table 3-7 of the Unicode Standard, chapter 3). */
module Utf8 {
  type Byte = b: int | 0 <= b < 256

  predicate Continuation(b: Byte) {
    0x80 <= b <= 0xBF
  }

  /** Length of the well-formed scalar value at the front, or zero. */
  function ScalarLen(s: seq<Byte>): (n: nat)
    ensures n <= |s| && n <= 4
    ensures n > 0 ==> !Continuation(s[0]) && forall i | 0 < i < n :: Continuation(s[i])
    ensures s != [] && s[0] < 0x80 ==> n == 1
  {
    if |s| >= 1 && s[0] <= 0x7F then 1
    else if |s| >= 2 && 0xC2 <= s[0] <= 0xDF && Continuation(s[1]) then 2
    else if |s| >= 3 && Continuation(s[1]) && Continuation(s[2])
            && ((s[0] == 0xE0 && s[1] >= 0xA0) || 0xE1 <= s[0] <= 0xEC || (s[0] == 0xED && s[1] <= 0x9F) || 0xEE <= s[0] <= 0xEF)
    then 3
    else if |s| >= 4 && Continuation(s[1]) && Continuation(s[2]) && Continuation(s[3])
            && ((s[0] == 0xF0 && s[1] >= 0x90) || 0xF1 <= s[0] <= 0xF3 || (s[0] == 0xF4 && s[1] <= 0x8F))
    then 4
    else 0
  }

  predicate ValidUtf8(s: seq<Byte>) {
    s == [] || (ScalarLen(s) > 0 && ValidUtf8(s[ScalarLen(s)..]))
  }

  /** Where a `&str` may be sliced without panicking. */
  predicate IsCharBoundary(s: seq<Byte>, i: nat) {
    i == 0 || i == |s| || (i < |s| && !Continuation(s[i]))
  }

  lemma {:induction false} BoundarySplits(s: seq<Byte>, i: nat)
    requires ValidUtf8(s) && IsCharBoundary(s, i)
    ensures i <= |s| && ValidUtf8(s[..i]) && ValidUtf8(s[i..])
  {
    if i > 0 {
      var n := ScalarLen(s);
      assert n <= i && n > 0;
      SameHead(s, s[..i]);
      hide ScalarLen;
      assert s[n..][i - n..] == s[i..] && s[..i][n..] == s[n..][..i - n];
      BoundarySplits(s[n..], i - n);
    }
  }

  /** A scalar value is recognised by its own bytes alone. */
  lemma SameHead(s: seq<Byte>, t: seq<Byte>)
    requires ScalarLen(s) > 0 && |t| >= ScalarLen(s) && t[..ScalarLen(s)] == s[..ScalarLen(s)]
    ensures ScalarLen(t) == ScalarLen(s)
  {
    assert forall i | 0 <= i < ScalarLen(s) :: t[i] == t[..ScalarLen(s)][i] && s[i] == s[..ScalarLen(s)][i];
  }

  lemma {:induction false} ConcatValid(a: seq<Byte>, b: seq<Byte>)
    requires ValidUtf8(a) && ValidUtf8(b)
    ensures ValidUtf8(a + b)
  {
    if a == [] {
      assert a + b == b;
    } else {
      var n := ScalarLen(a);
      assert (a + b)[..n] == a[..n];
      SameHead(a, a + b);
      hide ScalarLen;
      assert (a + b)[n..] == a[n..] + b;
      ConcatValid(a[n..], b);
    }
  }

  // ---- Valid strings are exactly the encodings of scalar values ----

  type Scalar = n: int | 0 <= n < 0xD800 || 0xE000 <= n <= 0x10FFFF

  /** The UTF-8 encoding form (section 3 of RFC 3629). */
  function EncodeScalar(n: Scalar): seq<Byte> {
    if n < 0x80 then [n]
    else if n < 0x800 then [0xC0 + n / 64, 0x80 + n % 64]
    else if n < 0x10000 then [0xE0 + n / 4096, 0x80 + n / 64 % 64, 0x80 + n % 64]
    else [0xF0 + n / 262144, 0x80 + n / 4096 % 64, 0x80 + n / 64 % 64, 0x80 + n % 64]
  }

  function EncodeScalars(ns: seq<Scalar>): seq<Byte> {
    if ns == [] then [] else EncodeScalar(ns[0]) + EncodeScalars(ns[1..])
  }

  lemma EncodedScalarIsRead(n: Scalar, tail: seq<Byte>)
    ensures ScalarLen(EncodeScalar(n) + tail) == |EncodeScalar(n)| > 0
  {
  }

  /** The scalar value at the front of a string that has one. */
  function DecodeScalar(s: seq<Byte>): Scalar
    requires ScalarLen(s) > 0
  {
    match ScalarLen(s)
    case 1 => s[0]
    case 2 => (s[0] as int - 0xC0) * 64 + (s[1] as int - 0x80)
    case 3 => (s[0] as int - 0xE0) * 4096 + (s[1] as int - 0x80) * 64 + (s[2] as int - 0x80)
    case _ => (s[0] as int - 0xF0) * 262144 + (s[1] as int - 0x80) * 4096 + (s[2] as int - 0x80) * 64 + (s[3] as int - 0x80)
  }

  lemma Base64Digits(a: nat, b: nat, c: nat, d: nat, n: nat)
    requires b < 64 && c < 64 && d < 64 && n == a * 262144 + b * 4096 + c * 64 + d
    ensures n % 64 == d && n / 64 % 64 == c && n / 4096 % 64 == b && n / 262144 == a
    ensures a == 0 ==> n / 4096 == b
    ensures a == 0 && b == 0 ==> n / 64 == c
  {
    assert n / 64 == a * 4096 + b * 64 + c;
    assert n / 4096 == a * 64 + b;
  }

  lemma ShortScalarDecodes(s: seq<Byte>)
    requires 0 < ScalarLen(s) <= 2
    ensures EncodeScalar(DecodeScalar(s)) == s[..ScalarLen(s)]
  {
    if ScalarLen(s) == 2 {
      Base64Digits(0, 0, s[0] as int - 0xC0, s[1] as int - 0x80, DecodeScalar(s));
    }
  }

  lemma ThreeByteScalarDecodes(s: seq<Byte>)
    requires ScalarLen(s) == 3
    ensures EncodeScalar(DecodeScalar(s)) == s[..3]
  {
    Base64Digits(0, s[0] as int - 0xE0, s[1] as int - 0x80, s[2] as int - 0x80, DecodeScalar(s));
  }

  lemma FourByteScalarDecodes(s: seq<Byte>)
    requires ScalarLen(s) == 4
    ensures EncodeScalar(DecodeScalar(s)) == s[..4]
  {
    Base64Digits(s[0] as int - 0xF0, s[1] as int - 0x80, s[2] as int - 0x80, s[3] as int - 0x80, DecodeScalar(s));
  }

  lemma ScalarDecodes(s: seq<Byte>)
    requires ScalarLen(s) > 0
    ensures EncodeScalar(DecodeScalar(s)) == s[..ScalarLen(s)]
  {
    hide *;
    if ScalarLen(s) <= 2 {
      ShortScalarDecodes(s);
    } else if ScalarLen(s) == 3 {
      ThreeByteScalarDecodes(s);
    } else {
      FourByteScalarDecodes(s);
    }
  }

  /** A byte string is valid exactly when it encodes some sequence of scalar values. */
  lemma {:induction false} ValidIffEncoding(s: seq<Byte>)
    ensures ValidUtf8(s) <==> exists ns :: s == EncodeScalars(ns)
  {
    if ValidUtf8(s) {
      var ns := Scalars(s);
    }
    if ns :| s == EncodeScalars(ns) {
      EncodingIsValid(ns);
    }
  }

  lemma {:induction false} Scalars(s: seq<Byte>) returns (ns: seq<Scalar>)
    requires ValidUtf8(s)
    ensures s == EncodeScalars(ns)
  {
    if s == [] {
      ns := [];
    } else {
      ScalarDecodes(s);
      var n := DecodeScalar(s);
      var rest := Scalars(s[ScalarLen(s)..]);
      ns := [n] + rest;
    }
  }

  lemma {:induction false} EncodingIsValid(ns: seq<Scalar>)
    ensures ValidUtf8(EncodeScalars(ns))
  {
    if ns != [] {
      EncodingIsValid(ns[1..]);
      EncodedScalarIsRead(ns[0], EncodeScalars(ns[1..]));
      hide ScalarLen, EncodeScalar;
    }
  }
}
