/** Hexadecimal texts of byte strings: Python's `bytes.hex` and `bytes.fromhex`, and the stricter
    reading of the TypeScript side. */
module Hex {
  import opened Prelude
  import Joining

  predicate IsHexDigit(c: char) {
    '0' <= c <= '9' || 'a' <= c <= 'f' || 'A' <= c <= 'F'
  }

  predicate IsLowerHexDigit(c: char) {
    '0' <= c <= '9' || 'a' <= c <= 'f'
  }

  function HexDigitValue(c: char): (v: nat)
    requires IsHexDigit(c)
    ensures v < 16
  {
    if c <= '9' then c as int - '0' as int
    else if c <= 'F' then c as int - 'A' as int + 10
    else c as int - 'a' as int + 10
  }

  function LowerHexDigit(v: nat): (c: char)
    requires v < 16
    ensures IsLowerHexDigit(c) && HexDigitValue(c) == v
  {
    if v < 10 then ('0' as int + v) as char else ('a' as int + v - 10) as char
  }

  function LowerChar(c: char): char {
    if 'A' <= c <= 'Z' then (c as int + 32) as char else c
  }

  /** The text with ASCII capitals in lower case. */
  function Lower(s: string): (l: string)
    ensures |l| == |s|
  {
    seq(|s|, i requires 0 <= i < |s| => LowerChar(s[i]))
  }

  function Print(bytes: Bytes): (s: string)
    ensures |s| == 2 * |bytes|
    ensures forall i :: 0 <= i < |s| ==> IsLowerHexDigit(s[i])
  {
    if |bytes| == 0 then ""
    else [LowerHexDigit(bytes[0] / 16), LowerHexDigit(bytes[0] % 16)] + Print(bytes[1..])
  }

  /** The byte a pair of hex digits stands for. */
  function PairByte(high: char, low: char): Byte
    requires IsHexDigit(high) && IsHexDigit(low)
  {
    16 * HexDigitValue(high) + HexDigitValue(low)
  }

  predicate IsAsciiSpace(c: char) {
    c == ' ' || '\t' <= c <= '\r'
  }

  /** `bytes.fromhex`: pairs of hex digits, with ASCII whitespace allowed around the pairs. */
  function FromHex(s: string): Option<Bytes> {
    if |s| == 0 then Some([])
    else if IsAsciiSpace(s[0]) then FromHex(s[1..])
    else if |s| == 1 || !IsHexDigit(s[0]) || !IsHexDigit(s[1]) then None
    else
      match FromHex(s[2..])
      case None => None
      case Some(rest) => Some([PairByte(s[0], s[1])] + rest)
  }

  predicate AllHexDigits(s: string) {
    forall i :: 0 <= i < |s| ==> IsHexDigit(s[i])
  }

  lemma LowerHexDigitOfValue(c: char)
    requires IsHexDigit(c)
    ensures LowerHexDigit(HexDigitValue(c)) == LowerChar(c)
    ensures IsLowerHexDigit(c) ==> LowerChar(c) == c
  {
  }

  lemma PrintPair(high: char, low: char, rest: Bytes)
    requires IsHexDigit(high) && IsHexDigit(low)
    ensures Print([PairByte(high, low)] + rest) == [LowerChar(high), LowerChar(low)] + Print(rest)
  {
    var b := PairByte(high, low);
    assert b / 16 == HexDigitValue(high) && b % 16 == HexDigitValue(low);
    LowerHexDigitOfValue(high);
    LowerHexDigitOfValue(low);
    assert ([b] + rest)[1..] == rest;
  }

  lemma {:induction false} FromHexOfPrint(bytes: Bytes)
    ensures FromHex(Print(bytes)) == Some(bytes)
    decreases |bytes|
  {
    if |bytes| > 0 {
      var s := Print(bytes);
      assert PairByte(s[0], s[1]) == bytes[0];
      assert s[2..] == Print(bytes[1..]);
      FromHexOfPrint(bytes[1..]);
      assert [bytes[0]] + bytes[1..] == bytes;
    }
  }

  lemma {:induction false} PrintOfFromHex(s: string)
    requires AllHexDigits(s) && |s| % 2 == 0
    ensures FromHex(s).Some? && |FromHex(s).value| == |s| / 2 && Print(FromHex(s).value) == Lower(s)
    decreases |s|
  {
    if |s| > 0 {
      PrintOfFromHex(s[2..]);
      PrintPair(s[0], s[1], FromHex(s[2..]).value);
      assert Lower(s) == [LowerChar(s[0]), LowerChar(s[1])] + Lower(s[2..]);
    }
  }

  /** What `bytes.fromhex` accepts besides digits is blanks. */
  lemma {:induction false} BlankAmongDigits(s: string) returns (i: nat)
    requires FromHex(s).Some? && !AllHexDigits(s)
    ensures i < |s| && IsAsciiSpace(s[i])
    decreases |s|
  {
    if IsAsciiSpace(s[0]) {
      i := 0;
    } else {
      assert !AllHexDigits(s[2..]);
      i := BlankAmongDigits(s[2..]);
      i := i + 2;
    }
  }

  /** And which blank stands there makes no difference. */
  lemma {:induction false} BlanksAlike(s: string, i: nat, blank: char)
    requires i < |s| && FromHex(s).Some? && IsAsciiSpace(s[i]) && IsAsciiSpace(blank)
    ensures FromHex(s[i := blank]) == FromHex(s)
    decreases |s|
  {
    var t := s[i := blank];
    if IsAsciiSpace(s[0]) {
      if i == 0 {
        assert t[1..] == s[1..];
      } else {
        assert t[1..] == s[1..][i - 1 := blank];
        BlanksAlike(s[1..], i - 1, blank);
      }
    } else {
      assert i >= 2 && t[2..] == s[2..][i - 2 := blank];
      BlanksAlike(s[2..], i - 2, blank);
    }
  }

  lemma {:induction false} FromHexLength(s: string)
    requires FromHex(s).Some?
    ensures 2 * |FromHex(s).value| <= |s|
    ensures 2 * |FromHex(s).value| == |s| ==> AllHexDigits(s)
    decreases |s|
  {
    if |s| > 0 {
      if IsAsciiSpace(s[0]) {
        FromHexLength(s[1..]);
      } else {
        FromHexLength(s[2..]);
        assert AllHexDigits(s[2..]) ==> AllHexDigits(s);
      }
    }
  }

  // ----- Texts of 32-byte hashes ---------------------------------------------------------

  /** `hx`. */
  function Prefixed(bytes: Bytes): string {
    "0x" + Print(bytes)
  }

  /** `hex_bytes` of the golden-vector checker: a length test on the text, not on the bytes. */
  function HexBytes(value: string): Option<Bytes> {
    if |value| != 66 || value[..2] != "0x" then None else FromHex(value[2..])
  }

  /** A hash text with nothing but hex digits after the prefix. */
  predicate IsPlainHash(value: string) {
    |value| == 66 && value[..2] == "0x" && AllHexDigits(value[2..])
  }

  /** `expectPrefixedHex32` of the TypeScript side: `^0x[0-9a-f]{64}$`. */
  predicate IsPrefixedHex32(value: string) {
    |value| == 66 && value[..2] == "0x" && forall i :: 2 <= i < 66 ==> IsLowerHexDigit(value[i])
  }

  /** `hexToBytes`, and the dapp's own `hexToByteArray`. */
  function PairsToBytes(digits: string): (bytes: Bytes)
    requires AllHexDigits(digits) && |digits| % 2 == 0
    ensures |bytes| == |digits| / 2
  {
    if |digits| == 0 then []
    else [PairByte(digits[0], digits[1])] + PairsToBytes(digits[2..])
  }

  function Hex32ToBytes(value: string): (d: Digest)
    requires IsPrefixedHex32(value)
  {
    assert AllHexDigits(value[2..]);
    PairsToBytes(value[2..])
  }

  lemma {:induction false} PrintOfPairs(digits: string)
    requires |digits| % 2 == 0 && forall i :: 0 <= i < |digits| ==> IsLowerHexDigit(digits[i])
    ensures AllHexDigits(digits) && Print(PairsToBytes(digits)) == digits
    decreases |digits|
  {
    if |digits| > 0 {
      PrintOfPairs(digits[2..]);
      PrintPair(digits[0], digits[1], PairsToBytes(digits[2..]));
      LowerHexDigitOfValue(digits[0]);
      LowerHexDigitOfValue(digits[1]);
      assert digits == [digits[0], digits[1]] + digits[2..];
    }
  }

  /** On the texts the dapp accepts, text and bytes determine each other. */
  lemma Hex32RoundTrip(value: string)
    requires IsPrefixedHex32(value)
    ensures Prefixed(Hex32ToBytes(value)) == value
  {
    assert AllHexDigits(value[2..]);
    PrintOfPairs(value[2..]);
    assert value == value[..2] + value[2..];
  }

  lemma PrefixedInjective(a: Bytes, b: Bytes)
    requires Prefixed(a) == Prefixed(b)
    ensures a == b
  {
    assert Prefixed(a)[2..] == Print(a) && Prefixed(b)[2..] == Print(b);
    FromHexOfPrint(a);
    FromHexOfPrint(b);
  }

  /** A hash text with a blank in it has a twin with another blank there: other text, same bytes. */
  lemma BlankTwin(value: string) returns (twin: string)
    requires HexBytes(value).Some? && !IsPlainHash(value)
    ensures HexBytes(twin) == HexBytes(value) && Lower(twin) != Lower(value)
  {
    var digits := value[2..];
    var i := BlankAmongDigits(digits);
    var blank := if digits[i] == ' ' then '\t' else ' ';
    BlanksAlike(digits, i, blank);
    twin := value[2 + i := blank];
    assert twin[2..] == digits[i := blank] && twin[..2] == value[..2];
    assert Lower(twin)[2 + i] == blank && Lower(value)[2 + i] == digits[i];
  }

  /** A hash text is plain exactly if it reads as 32 bytes, and never reads as more. */
  lemma PlainIffFull(value: string)
    requires HexBytes(value).Some?
    ensures |HexBytes(value).value| <= 32
    ensures IsPlainHash(value) <==> |HexBytes(value).value| == 32
  {
    FromHexLength(value[2..]);
    if IsPlainHash(value) {
      PrintOfFromHex(value[2..]);
    }
  }

  /** The printed hash of 32 bytes is plain and reads back. */
  lemma PrintedHash(bytes: Bytes)
    requires |bytes| == 32
    ensures IsPlainHash(Prefixed(bytes)) && HexBytes(Prefixed(bytes)) == Some(bytes)
  {
    assert Prefixed(bytes)[2..] == Print(bytes);
    FromHexOfPrint(bytes);
  }

  lemma PairsStep(value: string, index: nat)
    requires index + 2 <= |value| && (|value| - index) % 2 == 0 && AllHexDigits(value[index..])
    ensures AllHexDigits(value[index + 2..]) && IsHexDigit(value[index]) && IsHexDigit(value[index + 1])
    ensures PairsToBytes(value[index..])
            == [PairByte(value[index], value[index + 1])] + PairsToBytes(value[index + 2..])
  {
    var rest := value[index..];
    assert rest[0] == value[index] && rest[1] == value[index + 1];
    assert rest[2..] == value[index + 2..];
  }

  /** `hexToByteArray`: two characters at a time, from index 2. */
  method HexToByteArray(value: string) returns (bytes: Bytes)
    requires IsPrefixedHex32(value)
    ensures bytes == Hex32ToBytes(value)
  {
    bytes := [];
    var index := 2;
    assert AllHexDigits(value[2..]);
    while index < |value|
      invariant 2 <= index <= |value| && index % 2 == 0
      invariant AllHexDigits(value[index..])
      invariant bytes + PairsToBytes(value[index..]) == Hex32ToBytes(value)
    {
      PairsStep(value, index);
      var byte := PairByte(value[index], value[index + 1]);
      Joining.Regroup(bytes, [byte], PairsToBytes(value[index + 2..]));
      bytes := bytes + [byte];
      index := index + 2;
    }
    assert bytes + [] == bytes;
  }

  /** Between digit pairs exactly tabs, line feeds, vertical tabs, form feeds, carriage returns and blanks are skipped,
      and a single other character is refused. */
  lemma SkippedBlanks(c: char, s: string)
    ensures FromHex([c]).Some? <==> c as int in {9, 10, 11, 12, 13, 32}
    ensures c as int in {9, 10, 11, 12, 13, 32} ==> FromHex([c] + s) == FromHex(s)
  {
    assert ([c] + s)[1..] == s && [c][1..] == "";
  }

  /** Two digits are a byte, the first one worth sixteen times as much. */
  lemma PairIsByte(high: char, low: char, s: string)
    requires IsHexDigit(high) && IsHexDigit(low)
    ensures FromHex([high, low] + s) ==
            match FromHex(s)
            case None => None
            case Some(rest) => Some([16 * DigitWorth(high) + DigitWorth(low)] + rest)
  {
    assert ([high, low] + s)[2..] == s;
  }

  function DigitWorth(c: char): (n: nat)
    requires IsHexDigit(c)
    ensures n < 16
  {
    if '0' <= c <= '9' then c as int - 48 else if 'a' <= c <= 'f' then c as int - 87 else c as int - 55
  }
}
