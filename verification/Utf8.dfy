/** UTF-8 (RFC 3629) of sequences of Unicode scalar values. */
module Utf8 {
  import opened Prelude

  type Scalar = n: nat | n < 0xD800 || 0xE000 <= n < 0x110000

  function EncodeScalar(n: Scalar): (bytes: Bytes)
    ensures 1 <= |bytes| <= 4
  {
    if n < 0x80 then [n]
    else if n < 0x800 then [0xC0 + n / 64, 0x80 + n % 64]
    else if n < 0x10000 then [0xE0 + n / 4096, 0x80 + n / 64 % 64, 0x80 + n % 64]
    else [0xF0 + n / 262144, 0x80 + n / 4096 % 64, 0x80 + n / 64 % 64, 0x80 + n % 64]
  }

  function Encode(text: seq<Scalar>): Bytes {
    if |text| == 0 then [] else EncodeScalar(text[0]) + Encode(text[1..])
  }

  predicate IsContinuation(b: Byte) {
    0x80 <= b < 0xC0
  }

  /** The bits `b` carries once its marker `base` is taken off. */
  function Bits(b: Byte, base: nat): nat
    requires base <= b
  {
    var value: int := b;
    value - base
  }

  /** The first scalar and how many bytes it takes. Over-long forms are left to the caller. */
  function DecodeScalar(b: Bytes): Option<(Scalar, nat)> {
    if |b| == 0 then None
    else if b[0] < 0x80 then Some((b[0], 1))
    else if 0xC0 <= b[0] < 0xE0 then
      if |b| >= 2 && IsContinuation(b[1]) then Checked(64 * Bits(b[0], 0xC0) + Bits(b[1], 0x80), 2) else None
    else if 0xE0 <= b[0] < 0xF0 then
      if |b| >= 3 && IsContinuation(b[1]) && IsContinuation(b[2])
      then Checked(4096 * Bits(b[0], 0xE0) + 64 * Bits(b[1], 0x80) + Bits(b[2], 0x80), 3) else None
    else if 0xF0 <= b[0] < 0xF8 then
      if |b| >= 4 && IsContinuation(b[1]) && IsContinuation(b[2]) && IsContinuation(b[3])
      then Checked(262144 * Bits(b[0], 0xF0) + 4096 * Bits(b[1], 0x80) + 64 * Bits(b[2], 0x80) + Bits(b[3], 0x80), 4)
      else None
    else None
  }

  function Checked(n: nat, size: nat): Option<(Scalar, nat)> {
    if n < 0xD800 || 0xE000 <= n < 0x110000 then Some((n, size)) else None
  }

  function Decode(b: Bytes): Option<seq<Scalar>> {
    if |b| == 0 then Some([])
    else
      match DecodeScalar(b)
      case None => None
      case Some((n, size)) =>
        if size > |b| || size == 0 || EncodeScalar(n) != b[..size] then None
        else
          match Decode(b[size..])
          case None => None
          case Some(rest) => Some([n] + rest)
  }

  lemma SixBitGroups(n: nat)
    ensures n == 64 * (n / 64) + n % 64
    ensures n == 4096 * (n / 4096) + 64 * (n / 64 % 64) + n % 64
    ensures n == 262144 * (n / 262144) + 4096 * (n / 4096 % 64) + 64 * (n / 64 % 64) + n % 64
  {
    assert n / 64 / 64 == n / 4096 && n / 4096 / 64 == n / 262144;
  }

  lemma DecodeScalarOfEncode(n: Scalar, rest: Bytes)
    ensures DecodeScalar(EncodeScalar(n) + rest) == Some((n, |EncodeScalar(n)|))
  {
    var code, b := EncodeScalar(n), EncodeScalar(n) + rest;
    assert |b| >= |code| && b[0] == code[0];
    SixBitGroups(n);
    if 0x80 <= n < 0x800 {
      assert b[1] == code[1];
    } else if 0x800 <= n < 0x10000 {
      assert b[1] == code[1] && b[2] == code[2];
    } else if n >= 0x10000 {
      assert b[1] == code[1] && b[2] == code[2] && b[3] == code[3];
    }
  }

  lemma DecodeFirst(n: Scalar, b: Bytes, code: Bytes, rest: Bytes, text: seq<Scalar>)
    requires b == code + rest && code == EncodeScalar(n) && DecodeScalar(b) == Some((n, |code|))
    requires Decode(rest) == Some(text)
    ensures Decode(b) == Some([n] + text)
  {
    assert b[..|code|] == code && b[|code|..] == rest;
  }

  lemma {:induction false} DecodeOfEncode(text: seq<Scalar>)
    ensures Decode(Encode(text)) == Some(text)
    decreases |text|
  {
    if |text| > 0 {
      var rest := Encode(text[1..]);
      DecodeScalarOfEncode(text[0], rest);
      DecodeOfEncode(text[1..]);
      DecodeFirst(text[0], Encode(text), EncodeScalar(text[0]), rest, text[1..]);
      assert [text[0]] + text[1..] == text;
    }
  }

  lemma EncodePrepended(n: Scalar, b: Bytes, size: nat, rest: seq<Scalar>)
    requires size <= |b| && EncodeScalar(n) == b[..size] && Encode(rest) == b[size..]
    ensures Encode([n] + rest) == b
  {
    assert ([n] + rest)[1..] == rest;
    assert b == b[..size] + b[size..];
  }

  /** What decodes is the encoding of what it decodes to. */
  lemma {:induction false} EncodeOfDecode(b: Bytes, text: seq<Scalar>)
    requires Decode(b) == Some(text)
    ensures Encode(text) == b
    decreases |b|
  {
    if |b| > 0 {
      var (n, size) := DecodeScalar(b).value;
      var rest := Decode(b[size..]).value;
      EncodeOfDecode(b[size..], rest);
      EncodePrepended(n, b, size, rest);
    }
  }

  lemma EncodeInjective(a: seq<Scalar>, b: seq<Scalar>)
    requires Encode(a) == Encode(b)
    ensures a == b
  {
    DecodeOfEncode(a);
    DecodeOfEncode(b);
  }

  /** ASCII is written as it is. */
  lemma {:induction false} EncodeAscii(text: seq<Scalar>)
    requires forall i :: 0 <= i < |text| ==> text[i] < 0x80
    ensures Encode(text) == text
    decreases |text|
  {
    if |text| > 0 {
      EncodeAscii(text[1..]);
      assert text == [text[0]] + text[1..];
    }
  }

  // ----- Python strings: a Dafny `char` is a Unicode scalar value ---------------------------

  function Scalars(s: string): (text: seq<Scalar>)
    ensures |text| == |s|
  {
    seq(|s|, i requires 0 <= i < |s| => s[i] as int)
  }

  function FromScalars(text: seq<Scalar>): (s: string)
    ensures |s| == |text|
  {
    seq(|text|, i requires 0 <= i < |text| => text[i] as char)
  }

  lemma FromScalarsOfScalars(s: string)
    ensures FromScalars(Scalars(s)) == s
  {
  }

  lemma ScalarsOfFromScalars(text: seq<Scalar>)
    ensures Scalars(FromScalars(text)) == text
  {
  }
}
