/** The World ID duplicate key of dapp/app/claim/claim-identity.ts: the nullifier in one spelling, the parts
    joined with NUL, and the UTF-8 bytes that are hashed. A text of that program is a sequence of UTF-16 code
    units, which need not be well formed. */
module WorldIdKey {
  import opened Prelude
  import Decimal
  import Hex
  import opened Joining
  import Utf8

  type CodeUnit = n: nat | n < 0x10000
  type Text = seq<CodeUnit>

  const NUL: CodeUnit := 0
  const REPLACEMENT: Utf8.Scalar := 0xFFFD

  predicate IsHigh(n: CodeUnit) {
    0xD800 <= n < 0xDC00
  }

  predicate IsLow(n: CodeUnit) {
    0xDC00 <= n < 0xE000
  }

  predicate StartsPair(s: Text) {
    |s| >= 2 && IsHigh(s[0]) && IsLow(s[1])
  }

  function PairScalar(high: CodeUnit, low: CodeUnit): Utf8.Scalar
    requires IsHigh(high) && IsLow(low)
  {
    0x10000 + 0x400 * (high - 0xD800) + (low - 0xDC00)
  }

  /** How many code units the first scalar value takes. */
  function FirstSize(s: Text): (size: nat)
    requires |s| > 0
    ensures 1 <= size <= |s|
  {
    if StartsPair(s) then 2 else 1
  }

  /** The first scalar value `TextEncoder` writes: a surrogate without its partner becomes U+FFFD. */
  function FirstScalar(s: Text): Utf8.Scalar
    requires |s| > 0
  {
    if StartsPair(s) then PairScalar(s[0], s[1])
    else if IsHigh(s[0]) || IsLow(s[0]) then REPLACEMENT
    else s[0]
  }

  function Scalars(s: Text): seq<Utf8.Scalar>
    decreases |s|
  {
    if |s| == 0 then [] else [FirstScalar(s)] + Scalars(s[FirstSize(s)..])
  }

  function TextEncoder(s: Text): Bytes {
    Utf8.Encode(Scalars(s))
  }

  /** No surrogate without its partner. */
  predicate WellFormed(s: Text)
    decreases |s|
  {
    if |s| == 0 then true
    else if StartsPair(s) then WellFormed(s[2..])
    else !IsHigh(s[0]) && !IsLow(s[0]) && WellFormed(s[1..])
  }

  function Utf16(n: Utf8.Scalar): Text {
    if n < 0x10000 then [n]
    else
      var offset: int := n - 0x10000;
      [0xD800 + offset / 0x400, 0xDC00 + offset % 0x400]
  }

  function FromScalars(scalars: seq<Utf8.Scalar>): Text {
    if |scalars| == 0 then [] else Utf16(scalars[0]) + FromScalars(scalars[1..])
  }

  lemma PairRoundTrip(high: CodeUnit, low: CodeUnit)
    requires IsHigh(high) && IsLow(low)
    ensures Utf16(PairScalar(high, low)) == [high, low]
  {
    var offset: int := 0x400 * (high - 0xD800) + (low - 0xDC00);
    assert offset / 0x400 == high - 0xD800 && offset % 0x400 == low - 0xDC00;
  }

  lemma FirstRoundTrip(s: Text)
    requires |s| > 0 && WellFormed(s)
    ensures Utf16(FirstScalar(s)) == s[..FirstSize(s)] && WellFormed(s[FirstSize(s)..])
  {
    if StartsPair(s) {
      PairRoundTrip(s[0], s[1]);
      assert s[..2] == [s[0], s[1]];
    } else {
      assert s[..1] == [s[0]];
    }
  }

  lemma {:induction false} FromScalarsOfScalars(s: Text)
    requires WellFormed(s)
    ensures FromScalars(Scalars(s)) == s
    decreases |s|
  {
    if |s| > 0 {
      var rest := Scalars(s[FirstSize(s)..]);
      FirstRoundTrip(s);
      FromScalarsOfScalars(s[FirstSize(s)..]);
      assert Scalars(s)[1..] == rest;
      Cut(s, FirstSize(s));
    }
  }

  /** What the encoder forgets is exactly which lone surrogate stood where. */
  lemma ScalarsInjectiveOnWellFormed(a: Text, b: Text)
    requires WellFormed(a) && WellFormed(b) && Scalars(a) == Scalars(b)
    ensures a == b
  {
    FromScalarsOfScalars(a);
    FromScalarsOfScalars(b);
  }

  // ----- Joining the parts -----------------------------------------------------------------------

  lemma FirstAcrossNul(a: Text, b: Text)
    requires |a| > 0
    ensures FirstSize(a + ([NUL] + b)) == FirstSize(a) && FirstScalar(a + ([NUL] + b)) == FirstScalar(a)
  {
    assert |a| == 1 ==> (a + ([NUL] + b))[1] == NUL;
  }

  lemma {:induction false} ScalarsAcrossNul(a: Text, b: Text)
    ensures Scalars(a + ([NUL] + b)) == Scalars(a) + ([NUL] + Scalars(b))
    decreases |a|
  {
    if |a| == 0 {
      assert a + ([NUL] + b) == [NUL] + b && ([NUL] + b)[1..] == b;
    } else {
      FirstAcrossNul(a, b);
      DropOfConcat(a, [NUL] + b, FirstSize(a));
      ScalarsAcrossNul(a[FirstSize(a)..], b);
      Regroup([FirstScalar(a)], Scalars(a[FirstSize(a)..]), [NUL] + Scalars(b));
    }
  }

  lemma {:induction false} ScalarsWithoutNul(a: Text)
    requires NUL !in a
    ensures NUL !in Scalars(a)
    decreases |a|
  {
    if |a| > 0 {
      ScalarsWithoutNul(a[FirstSize(a)..]);
    }
  }

  // ----- The nullifier ---------------------------------------------------------------------------

  /** The characters of a text of ASCII code units. */
  function Ascii(s: Text): (chars: string)
    requires forall i :: 0 <= i < |s| ==> s[i] < 0x80
    ensures |chars| == |s|
  {
    seq(|s|, i requires 0 <= i < |s| => s[i] as char)
  }

  function Units(s: string): (units: Text)
    requires forall i :: 0 <= i < |s| ==> s[i] < '\U{80}'
    ensures |units| == |s|
  {
    seq(|s|, i requires 0 <= i < |s| => s[i] as int)
  }

  predicate IsAscii(s: Text) {
    forall i :: 0 <= i < |s| ==> s[i] < 0x80
  }

  predicate IsDecimal(s: Text) {
    |s| > 0 && IsAscii(s) && Decimal.AllDigits(Ascii(s))
  }

  predicate IsPrefixedHex(s: Text) {
    |s| > 2 && IsAscii(s) && Ascii(s)[0] == '0' && Ascii(s)[1] in "xX" && Hex.AllHexDigits(Ascii(s)[2..])
  }

  /** The value of hex digits of either case. */
  function HexValue(s: string): nat
    requires Hex.AllHexDigits(s)
  {
    if |s| == 0 then 0 else 16 * HexValue(s[..|s| - 1]) + Hex.HexDigitValue(s[|s| - 1])
  }

  /** The number a nullifier text stands for, if it is a nullifier. */
  function NullifierValue(s: Text): Option<nat> {
    if IsPrefixedHex(s) then Some(HexValue(Ascii(s)[2..]))
    else if IsDecimal(s) then Some(Decimal.Value(Ascii(s)))
    else None
  }

  datatype Error = BadNullifier | BadPart

  /** `BigInt(nullifier).toString(10)` behind the format checks. */
  function CanonicalNullifier(s: Text): Result<Text, Error> {
    if |s| == 0 || NUL in s then Err(BadNullifier)
    else if IsPrefixedHex(s) then Ok(Printed(HexValue(Ascii(s)[2..])))
    else if IsDecimal(s) then Ok(Printed(Decimal.Value(Ascii(s))))
    else Err(BadNullifier)
  }

  function Printed(n: nat): (s: Text)
    ensures IsDecimal(s) && Ascii(s) == Decimal.Print(n) && NUL !in s
  {
    var digits := Decimal.Print(n);
    assert forall i :: 0 <= i < |digits| ==> Decimal.IsDigit(digits[i]);
    assert Ascii(Units(digits)) == digits;
    Units(digits)
  }

  lemma NulIsNoDigit(s: Text)
    requires NullifierValue(s).Some?
    ensures |s| > 0 && NUL !in s
  {
    var chars := Ascii(s);
    forall i | 0 <= i < |s| ensures s[i] != NUL {
      if IsPrefixedHex(s) {
        assert i >= 2 ==> chars[2..][i - 2] == chars[i];
      } else {
        assert Decimal.IsDigit(chars[i]);
      }
      assert chars[i] == s[i] as char;
    }
  }

  lemma CanonicalIsPrinted(s: Text)
    ensures CanonicalNullifier(s) ==
            match NullifierValue(s) case None => Err(BadNullifier) case Some(n) => Ok(Printed(n))
  {
    if NullifierValue(s).Some? {
      NulIsNoDigit(s);
    }
  }

  lemma PrintedValue(n: nat)
    ensures NullifierValue(Printed(n)) == Some(n)
  {
    Decimal.ValueOfPrint(n);
    var s := Printed(n);
    if |s| > 2 {
      assert Decimal.IsDigit(Ascii(s)[1]);
    }
  }

  /** Two spellings are written alike exactly when they are the same number. */
  lemma CanonicalIffSameValue(a: Text, b: Text)
    requires CanonicalNullifier(a).Ok? && CanonicalNullifier(b).Ok?
    ensures NullifierValue(a).Some? && NullifierValue(b).Some?
    ensures CanonicalNullifier(a) == CanonicalNullifier(b) <==> NullifierValue(a) == NullifierValue(b)
  {
    CanonicalIsPrinted(a);
    CanonicalIsPrinted(b);
    PrintedValue(NullifierValue(a).value);
    PrintedValue(NullifierValue(b).value);
  }

  lemma CanonicalIsIdempotent(s: Text)
    requires CanonicalNullifier(s).Ok?
    ensures CanonicalNullifier(CanonicalNullifier(s).value) == CanonicalNullifier(s)
  {
    CanonicalIsPrinted(s);
    var n := NullifierValue(s).value;
    PrintedValue(n);
    CanonicalIsPrinted(Printed(n));
  }

  lemma {:induction false} HexLeadingZeros(zeros: string, digits: string)
    requires (forall i :: 0 <= i < |zeros| ==> zeros[i] == '0') && Hex.AllHexDigits(digits)
    ensures Hex.AllHexDigits(zeros + digits) && HexValue(zeros + digits) == HexValue(digits)
    decreases |zeros + digits|
  {
    var s := zeros + digits;
    if |digits| > 0 {
      assert s[..|s| - 1] == zeros + digits[..|digits| - 1];
      HexLeadingZeros(zeros, digits[..|digits| - 1]);
    } else if |zeros| > 0 {
      assert s[..|s| - 1] == zeros[..|zeros| - 1] + "";
      HexLeadingZeros(zeros[..|zeros| - 1], "");
    }
  }

  lemma UnitsRoundTrip(s: string)
    requires forall i :: 0 <= i < |s| ==> s[i] < '\U{80}'
    ensures IsAscii(Units(s)) && Ascii(Units(s)) == s
  {
  }

  lemma DecimalSpelling(digits: string)
    requires |digits| > 0 && Decimal.AllDigits(digits)
    ensures (forall i :: 0 <= i < |digits| ==> digits[i] < '\U{80}')
    ensures NullifierValue(Units(digits)) == Some(Decimal.Value(digits))
  {
    assert forall i :: 0 <= i < |digits| ==> Decimal.IsDigit(digits[i]);
    UnitsRoundTrip(digits);
    assert |digits| > 1 ==> Decimal.IsDigit(digits[1]);
  }

  lemma HexSpelling(x: char, digits: string)
    requires x in "xX" && |digits| > 0 && Hex.AllHexDigits(digits)
    ensures (forall i :: 0 <= i < |['0', x] + digits| ==> (['0', x] + digits)[i] < '\U{80}')
    ensures NullifierValue(Units(['0', x] + digits)) == Some(HexValue(digits))
  {
    var s := ['0', x] + digits;
    forall i | 0 <= i < |s| ensures s[i] < '\U{80}' {
      if i >= 2 {
        assert Hex.IsHexDigit(digits[i - 2]);
      }
    }
    UnitsRoundTrip(s);
    assert s[2..] == digits;
  }

  /** Zeros in front of the digits change nothing, in decimal and after either hex prefix. */
  lemma LeadingZerosIgnored(zeros: string, digits: string, hexDigits: string)
    requires forall i :: 0 <= i < |zeros| ==> zeros[i] == '0'
    requires Decimal.AllDigits(digits) && Hex.AllHexDigits(hexDigits)
    ensures Decimal.AllDigits(zeros + digits) && Decimal.Value(zeros + digits) == Decimal.Value(digits)
    ensures Hex.AllHexDigits(zeros + hexDigits) && HexValue(zeros + hexDigits) == HexValue(hexDigits)
  {
    Decimal.ValueOfZeros(zeros);
    Decimal.ValueOfConcat(zeros, digits);
    HexLeadingZeros(zeros, hexDigits);
  }

  // ----- The key ---------------------------------------------------------------------------------

  const SCHEME: string := "sonari:world_id:v2"

  function Scheme(): Text {
    Units(SCHEME)
  }

  predicate GoodPart(part: Text) {
    |part| > 0 && NUL !in part
  }

  function JoinParts(parts: seq<Text>): Result<Text, Error>
    requires |parts| > 0
  {
    if exists i :: 0 <= i < |parts| && !GoodPart(parts[i]) then Err(BadPart) else Ok(Join(parts, NUL))
  }

  /** The bytes that are hashed into the duplicate key. The scheme is `Scheme()`. */
  function Preimage(scheme: Text, rpId: Text, action: Text, nullifier: Text): Result<Bytes, Error> {
    match CanonicalNullifier(nullifier)
    case Err(e) => Err(e)
    case Ok(canonical) =>
      match JoinParts([scheme, rpId, action, canonical])
      case Err(e) => Err(e)
      case Ok(joined) => Ok(TextEncoder(joined))
  }

  lemma SchemeIsGood()
    ensures GoodPart(Scheme())
  {
    assert |SCHEME| == 18;
    forall i | 0 <= i < |Scheme()| ensures Scheme()[i] != NUL {
      assert SCHEME[i] != '\0';
    }
  }

  /** The parts of the key, which fail only on an empty part, a NUL or a text that is no nullifier. */
  predicate Accepted(rpId: Text, action: Text, nullifier: Text) {
    GoodPart(rpId) && GoodPart(action) && NullifierValue(nullifier).Some?
  }

  function Parts(scheme: Text, rpId: Text, action: Text, n: nat): seq<Text> {
    [scheme, rpId, action, Printed(n)]
  }

  function KeyBytes(scheme: Text, rpId: Text, action: Text, n: nat): Bytes {
    TextEncoder(Join(Parts(scheme, rpId, action, n), NUL))
  }

  lemma PreimageOfAccepted(scheme: Text, rpId: Text, action: Text, nullifier: Text)
    requires GoodPart(scheme)
    ensures Preimage(scheme, rpId, action, nullifier).Ok? <==> Accepted(rpId, action, nullifier)
    ensures Accepted(rpId, action, nullifier) ==>
              Preimage(scheme, rpId, action, nullifier)
              == Ok(KeyBytes(scheme, rpId, action, NullifierValue(nullifier).value))
  {
    CanonicalIsPrinted(nullifier);
    if NullifierValue(nullifier).Some? {
      var parts := Parts(scheme, rpId, action, NullifierValue(nullifier).value);
      assert GoodPart(parts[0]) && parts[1] == rpId && parts[2] == action && GoodPart(parts[3]);
      assert (forall i :: 0 <= i < |parts| ==> GoodPart(parts[i])) <==> GoodPart(rpId) && GoodPart(action);
    }
  }

  /** The scalars of joined parts are the joined scalars of the parts. */
  lemma {:induction false} ScalarsOfJoin(parts: seq<Text>)
    requires |parts| > 0
    ensures Scalars(Join(parts, NUL)) == Join(EachScalars(parts), NUL)
  {
    if |parts| > 1 {
      var rest := Join(parts[1..], NUL);
      Regroup(parts[0], [NUL], rest);
      ScalarsAcrossNul(parts[0], rest);
      ScalarsOfJoin(parts[1..]);
      assert EachScalars(parts)[1..] == EachScalars(parts[1..]);
      Regroup(Scalars(parts[0]), [NUL], Scalars(rest));
    }
  }

  function EachScalars(parts: seq<Text>): (each: seq<seq<Utf8.Scalar>>)
    ensures |each| == |parts|
  {
    seq(|parts|, i requires 0 <= i < |parts| => Scalars(parts[i]))
  }

  lemma NulFreeScalars(parts: seq<Text>)
    requires forall i :: 0 <= i < |parts| ==> NUL !in parts[i]
    ensures forall i :: 0 <= i < |parts| ==> NUL !in EachScalars(parts)[i]
  {
    forall i | 0 <= i < |parts| ensures NUL !in EachScalars(parts)[i] {
      ScalarsWithoutNul(parts[i]);
    }
  }

  /** The parts are recovered from the joined text's scalars. */
  lemma SplitOfEncoded(parts: seq<Text>)
    requires |parts| > 0 && forall i :: 0 <= i < |parts| ==> NUL !in parts[i]
    ensures Split(Scalars(Join(parts, NUL)), NUL) == EachScalars(parts)
  {
    ScalarsOfJoin(parts);
    NulFreeScalars(parts);
    SplitOfJoin(EachScalars(parts), NUL);
  }

  /** Two lists of NUL-free parts are hashed from the same bytes exactly when their scalars agree part by part. */
  lemma SameBytesIffSameParts(a: seq<Text>, b: seq<Text>)
    requires |a| > 0 && |b| > 0
    requires forall i :: 0 <= i < |a| ==> NUL !in a[i]
    requires forall i :: 0 <= i < |b| ==> NUL !in b[i]
    ensures TextEncoder(Join(a, NUL)) == TextEncoder(Join(b, NUL)) <==> EachScalars(a) == EachScalars(b)
  {
    var x, y := Scalars(Join(a, NUL)), Scalars(Join(b, NUL));
    if TextEncoder(Join(a, NUL)) == TextEncoder(Join(b, NUL)) {
      Utf8.EncodeInjective(x, y);
      SplitOfEncoded(a);
      SplitOfEncoded(b);
    } else if EachScalars(a) == EachScalars(b) {
      ScalarsOfJoin(a);
      ScalarsOfJoin(b);
    }
  }

  lemma {:induction false} AsciiScalars(s: Text)
    requires IsAscii(s)
    ensures Scalars(s) == s
    decreases |s|
  {
    if |s| > 0 {
      AsciiScalars(s[1..]);
      assert s == [s[0]] + s[1..];
    }
  }

  lemma PrintedScalarsInjective(m: nat, n: nat)
    requires Scalars(Printed(m)) == Scalars(Printed(n))
    ensures m == n
  {
    AsciiScalars(Printed(m));
    AsciiScalars(Printed(n));
    assert Printed(m) == Printed(n);
    Decimal.PrintInjective(m, n);
  }

  lemma AcceptedPartsNulFree(scheme: Text, rpId: Text, action: Text, n: nat)
    requires GoodPart(scheme) && GoodPart(rpId) && GoodPart(action)
    ensures forall i :: 0 <= i < 4 ==> NUL !in Parts(scheme, rpId, action, n)[i]
  {
  }

  lemma EachOfParts(scheme: Text, rpId: Text, action: Text, n: nat)
    ensures EachScalars(Parts(scheme, rpId, action, n))
            == [Scalars(scheme), Scalars(rpId), Scalars(action), Scalars(Printed(n))]
  {
  }

  lemma PrintedScalarsIff(m: nat, n: nat)
    ensures Scalars(Printed(m)) == Scalars(Printed(n)) <==> m == n
  {
    if Scalars(Printed(m)) == Scalars(Printed(n)) {
      PrintedScalarsInjective(m, n);
    }
  }

  lemma SameAt(a: seq<Text>, b: seq<Text>, i: nat, x: Text, y: Text)
    requires EachScalars(a) == EachScalars(b) && i < |a| && i < |b| && a[i] == x && b[i] == y
    ensures Scalars(x) == Scalars(y)
  {
    assert EachScalars(a)[i] == EachScalars(b)[i];
  }

  lemma SamePrinted(a: seq<Text>, b: seq<Text>, i: nat, m: nat, n: nat)
    requires EachScalars(a) == EachScalars(b) && i < |a| && i < |b| && a[i] == Printed(m) && b[i] == Printed(n)
    ensures m == n
  {
    SameAt(a, b, i, Printed(m), Printed(n));
    PrintedScalarsIff(m, n);
  }

  lemma SamePartsForward(scheme: Text, rpId: Text, action: Text, n: nat, rpId': Text, action': Text, n': nat)
    requires EachScalars(Parts(scheme, rpId, action, n)) == EachScalars(Parts(scheme, rpId', action', n'))
    ensures Scalars(rpId) == Scalars(rpId') && Scalars(action) == Scalars(action') && n == n'
  {
    var a, b := Parts(scheme, rpId, action, n), Parts(scheme, rpId', action', n');
    SameAt(a, b, 1, rpId, rpId');
    SameAt(a, b, 2, action, action');
    SamePrinted(a, b, 3, n, n');
  }

  lemma SamePartsBack(scheme: Text, rpId: Text, action: Text, n: nat, rpId': Text, action': Text)
    requires Scalars(rpId) == Scalars(rpId') && Scalars(action) == Scalars(action')
    ensures EachScalars(Parts(scheme, rpId, action, n)) == EachScalars(Parts(scheme, rpId', action', n))
  {
    EachOfParts(scheme, rpId, action, n);
    EachOfParts(scheme, rpId', action', n);
  }

  predicate SameInputs(rpId: Text, action: Text, n: nat, rpId': Text, action': Text, n': nat) {
    Scalars(rpId) == Scalars(rpId') && Scalars(action) == Scalars(action') && n == n'
  }

  lemma SamePartsIff(scheme: Text, rpId: Text, action: Text, n: nat, rpId': Text, action': Text, n': nat)
    ensures EachScalars(Parts(scheme, rpId, action, n)) == EachScalars(Parts(scheme, rpId', action', n'))
            <==> SameInputs(rpId, action, n, rpId', action', n')
  {
    if SameInputs(rpId, action, n, rpId', action', n') {
      SamePartsBack(scheme, rpId, action, n, rpId', action');
    } else if EachScalars(Parts(scheme, rpId, action, n)) == EachScalars(Parts(scheme, rpId', action', n')) {
      SamePartsForward(scheme, rpId, action, n, rpId', action', n');
    }
  }

  lemma PartsDetermine(scheme: Text, rpId: Text, action: Text, n: nat, rpId': Text, action': Text, n': nat)
    requires GoodPart(scheme) && GoodPart(rpId) && GoodPart(action) && GoodPart(rpId') && GoodPart(action')
    ensures KeyBytes(scheme, rpId, action, n) == KeyBytes(scheme, rpId', action', n')
            <==> SameInputs(rpId, action, n, rpId', action', n')
  {
    AcceptedPartsNulFree(scheme, rpId, action, n);
    AcceptedPartsNulFree(scheme, rpId', action', n');
    SameBytesIffSameParts(Parts(scheme, rpId, action, n), Parts(scheme, rpId', action', n'));
    SamePartsIff(scheme, rpId, action, n, rpId', action', n');
  }

  /** The key tells two accepted inputs apart exactly by what the encoder keeps of the relying party and the
      action, and by the number of the nullifier, however each was spelt. */
  lemma KeyDeterminesInputs(scheme: Text, rpId: Text, action: Text, nullifier: Text,
                            rpId': Text, action': Text, nullifier': Text)
    requires GoodPart(scheme) && Accepted(rpId, action, nullifier) && Accepted(rpId', action', nullifier')
    ensures Preimage(scheme, rpId, action, nullifier) == Preimage(scheme, rpId', action', nullifier')
            <==> Scalars(rpId) == Scalars(rpId') && Scalars(action) == Scalars(action')
                 && NullifierValue(nullifier) == NullifierValue(nullifier')
  {
    var n, n' := NullifierValue(nullifier).value, NullifierValue(nullifier').value;
    PreimageOfAccepted(scheme, rpId, action, nullifier);
    PreimageOfAccepted(scheme, rpId', action', nullifier');
    PartsDetermine(scheme, rpId, action, n, rpId', action', n');
    SameOk(Preimage(scheme, rpId, action, nullifier), Preimage(scheme, rpId', action', nullifier'),
           KeyBytes(scheme, rpId, action, n), KeyBytes(scheme, rpId', action', n'));
  }

  lemma SameOk(p: Result<Bytes, Error>, q: Result<Bytes, Error>, x: Bytes, y: Bytes)
    requires p == Ok(x) && q == Ok(y)
    ensures p == q <==> x == y
  {
  }

  /** On well-formed texts the key is injective in the relying party, the action and the number. */
  lemma KeyInjectiveOnWellFormed(scheme: Text, rpId: Text, action: Text, nullifier: Text,
                                 rpId': Text, action': Text, nullifier': Text)
    requires GoodPart(scheme) && Accepted(rpId, action, nullifier) && Accepted(rpId', action', nullifier')
    requires WellFormed(rpId) && WellFormed(action) && WellFormed(rpId') && WellFormed(action')
    ensures Preimage(scheme, rpId, action, nullifier) == Preimage(scheme, rpId', action', nullifier')
            <==> rpId == rpId' && action == action' && NullifierValue(nullifier) == NullifierValue(nullifier')
  {
    KeyDeterminesInputs(scheme, rpId, action, nullifier, rpId', action', nullifier');
    if Scalars(rpId) == Scalars(rpId') && Scalars(action) == Scalars(action') {
      ScalarsInjectiveOnWellFormed(rpId, rpId');
      ScalarsInjectiveOnWellFormed(action, action');
    }
  }

  /** Well-formedness is needed: two relying parties that differ in a lone surrogate share every key. */
  lemma LoneSurrogatesCollide(scheme: Text, action: Text, nullifier: Text)
    requires GoodPart(scheme) && GoodPart(action) && NullifierValue(nullifier).Some?
    ensures Preimage(scheme, [0xD800], action, nullifier).Ok?
    ensures Preimage(scheme, [0xD800], action, nullifier) == Preimage(scheme, [0xDC00], action, nullifier)
  {
    PreimageOfAccepted(scheme, [0xD800], action, nullifier);
    PreimageOfAccepted(scheme, [0xDC00], action, nullifier);
    assert Scalars([0xD800]) == [REPLACEMENT] && Scalars([0xDC00]) == [REPLACEMENT];
    KeyDeterminesInputs(scheme, [0xD800], action, nullifier, [0xDC00], action, nullifier);
  }
}
