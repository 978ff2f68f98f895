/** Which texts are nullifiers, code unit by code unit, what number each spells, and what the bytes of the duplicate
    key hold. */
module NullifierSpelling {
  import opened Prelude
  import opened WorldIdKey
  import Decimal
  import Hex
  import Joining
  import Utf8

  // ----- Hexadecimal digits --------------------------------------------------------------------------

  /** What each digit is worth. */
  lemma DigitIsWorth(c: char)
    requires Hex.IsHexDigit(c)
    ensures '0' <= c <= '9' ==> HexValue([c]) == c as int - 48
    ensures 'a' <= c <= 'f' ==> HexValue([c]) == c as int - 87
    ensures 'A' <= c <= 'F' ==> HexValue([c]) == c as int - 55
  {
    assert [c][..0] == "";
  }

  lemma HexSnoc(s: string, c: char)
    requires Hex.AllHexDigits(s) && Hex.IsHexDigit(c)
    ensures Hex.AllHexDigits(s + [c]) && HexValue(s + [c]) == 16 * HexValue(s) + HexValue([c])
  {
    assert (s + [c])[..|s|] == s && [c][..0] == "";
  }

  lemma Pow2Plus4(e: nat)
    ensures Pow2(e + 4) == 16 * Pow2(e)
  {
    assert Pow2(e + 1) == 2 * Pow2(e) && Pow2(e + 2) == 2 * Pow2(e + 1) && Pow2(e + 3) == 2 * Pow2(e + 2);
  }

  lemma Sixteenfold(a: nat, p: nat, b: nat, c: nat)
    ensures 16 * (a * p + b) + c == a * (16 * p) + (16 * b + c)
  {
  }

  /** Each digit further left is worth sixteen times as much. */
  lemma {:induction false} HexConcat(s: string, t: string)
    requires Hex.AllHexDigits(s) && Hex.AllHexDigits(t)
    ensures Hex.AllHexDigits(s + t) && HexValue(s + t) == HexValue(s) * Pow2(4 * |t|) + HexValue(t)
    decreases |t|
  {
    if |t| == 0 {
      assert s + t == s;
    } else {
      var front, last := t[..|t| - 1], t[|t| - 1];
      HexConcat(s, front);
      assert s + t == (s + front) + [last] && t == front + [last];
      HexSnoc(s + front, last);
      HexSnoc(front, last);
      Pow2Plus4(4 * |front|);
      Sixteenfold(HexValue(s), Pow2(4 * |front|), HexValue(front), HexValue([last]));
    }
  }

  /** A number in hexadecimal, without leading zeros. */
  function HexDigits(n: nat): (s: string)
    ensures |s| > 0 && Hex.AllHexDigits(s)
  {
    if n < 16 then [Hex.LowerHexDigit(n)] else HexDigits(n / 16) + [Hex.LowerHexDigit(n % 16)]
  }

  lemma {:induction false} ValueOfHexDigits(n: nat)
    ensures HexValue(HexDigits(n)) == n
    decreases n
  {
    if n < 16 {
      assert [Hex.LowerHexDigit(n)][..0] == "";
    } else {
      ValueOfHexDigits(n / 16);
      HexSnoc(HexDigits(n / 16), Hex.LowerHexDigit(n % 16));
      assert [Hex.LowerHexDigit(n % 16)][..0] == "";
    }
  }

  /** Capitals are worth what small letters are. */
  lemma {:induction false} LowerIsWorthTheSame(s: string)
    requires Hex.AllHexDigits(s)
    ensures Hex.AllHexDigits(Hex.Lower(s)) && HexValue(Hex.Lower(s)) == HexValue(s)
    decreases |s|
  {
    if |s| > 0 {
      LowerIsWorthTheSame(s[..|s| - 1]);
      assert Hex.Lower(s)[..|s| - 1] == Hex.Lower(s[..|s| - 1]);
    }
  }

  // ----- The spellings of a number -------------------------------------------------------------------

  predicate AllZeros(s: string) {
    forall i :: 0 <= i < |s| ==> s[i] == '0'
  }

  /** Every number is written in decimal whichever way it was spelt: in decimal or in hexadecimal, with either prefix,
      digits of either case, and any zeros in front. */
  lemma SpellingsOfNumber(n: nat, zeros: string, x: char, digits: string)
    requires AllZeros(zeros) && x in "xX" && Hex.AllHexDigits(digits) && Hex.Lower(digits) == HexDigits(n)
    ensures (forall i :: 0 <= i < |['0', x] + (zeros + digits)| ==> (['0', x] + (zeros + digits))[i] < '\U{80}')
    ensures (forall i :: 0 <= i < |zeros + Decimal.Print(n)| ==> (zeros + Decimal.Print(n))[i] < '\U{80}')
    ensures (forall i :: 0 <= i < |Decimal.Print(n)| ==> Decimal.Print(n)[i] < '\U{80}')
    ensures CanonicalNullifier(Units(['0', x] + (zeros + digits))) == Ok(Units(Decimal.Print(n)))
    ensures CanonicalNullifier(Units(zeros + Decimal.Print(n))) == Ok(Units(Decimal.Print(n)))
  {
    LowerIsWorthTheSame(digits);
    ValueOfHexDigits(n);
    Decimal.ValueOfPrint(n);
    LeadingZerosIgnored(zeros, Decimal.Print(n), digits);
    assert Printed(n) == Units(Decimal.Print(n)) by {
      PrintedIsUnits(n);
    }
    HexSpelling(x, zeros + digits);
    CanonicalIsPrinted(Units(['0', x] + (zeros + digits)));
    DecimalSpelling(zeros + Decimal.Print(n));
    CanonicalIsPrinted(Units(zeros + Decimal.Print(n)));
  }

  lemma PrintedIsUnits(n: nat)
    ensures (forall i :: 0 <= i < |Decimal.Print(n)| ==> Decimal.Print(n)[i] < '\U{80}')
    ensures Printed(n) == Units(Decimal.Print(n))
  {
    forall i | 0 <= i < |Decimal.Print(n)| ensures Decimal.Print(n)[i] < '\U{80}' {
      assert Decimal.IsDigit(Decimal.Print(n)[i]);
    }
  }

  // ----- Which texts are nullifiers ------------------------------------------------------------------

  predicate DecimalUnit(u: CodeUnit) {
    48 <= u <= 57
  }

  predicate HexUnit(u: CodeUnit) {
    48 <= u <= 57 || 97 <= u <= 102 || 65 <= u <= 70
  }

  /** Exactly the texts of decimal digits, and those of hexadecimal digits behind `0x` or `0X`, are accepted. */
  lemma NullifierGrammar(s: Text)
    ensures CanonicalNullifier(s).Ok?
            <==> (|s| > 0 && forall i :: 0 <= i < |s| ==> DecimalUnit(s[i]))
                 || (|s| > 2 && s[0] == 48 && (s[1] == 120 || s[1] == 88)
                     && forall i :: 2 <= i < |s| ==> HexUnit(s[i]))
  {
    CanonicalIsPrinted(s);
    DecimalGrammar(s);
    HexGrammar(s);
  }

  lemma DecimalGrammar(s: Text)
    ensures IsDecimal(s) <==> |s| > 0 && forall i :: 0 <= i < |s| ==> DecimalUnit(s[i])
  {
    if IsDecimal(s) {
      forall i | 0 <= i < |s| ensures DecimalUnit(s[i]) {
        assert Decimal.IsDigit(Ascii(s)[i]);
      }
    }
  }

  lemma HexGrammar(s: Text)
    ensures IsPrefixedHex(s)
            <==> |s| > 2 && s[0] == 48 && (s[1] == 120 || s[1] == 88) && forall i :: 2 <= i < |s| ==> HexUnit(s[i])
  {
    if IsPrefixedHex(s) {
      forall i | 2 <= i < |s| ensures HexUnit(s[i]) {
        assert Hex.IsHexDigit(Ascii(s)[2..][i - 2]);
      }
    } else if |s| > 2 && s[0] == 48 && (s[1] == 120 || s[1] == 88) && forall i :: 2 <= i < |s| ==> HexUnit(s[i]) {
      assert IsAscii(s);
      assert Ascii(s)[0] == '0' && Ascii(s)[1] in "xX";
      forall i | 0 <= i < |Ascii(s)[2..]| ensures Hex.IsHexDigit(Ascii(s)[2..][i]) {
        assert HexUnit(s[i + 2]);
      }
    }
  }

  // ----- The bytes of the key ------------------------------------------------------------------------

  lemma ScalarsUnfold(s: Text)
    requires |s| > 0
    ensures |Scalars(s)| > 0 && Scalars(s)[0] == FirstScalar(s) && Scalars(s)[1..] == Scalars(s[FirstSize(s)..])
  {
  }

  /** A surrogate without its partner is written as U+FFFD, a pair as the scalar value it stands for, and any other
      code unit as itself. */
  lemma FirstScalarIs(s: Text)
    requires |s| > 0
    ensures |Scalars(s)| > 0
    ensures var first: int := s[0];
            if 0xD800 <= first < 0xDC00 && |s| > 1 && 0xDC00 <= s[1] < 0xE000
            then
              && Scalars(s)[0] == 0x10000 + 1024 * (first - 0xD800) + (s[1] as int - 0xDC00)
              && Scalars(s)[1..] == Scalars(s[2..])
            else
              && Scalars(s)[0] == (if 0xD800 <= first < 0xE000 then 0xFFFD else first)
              && Scalars(s)[1..] == Scalars(s[1..])
  {
    ScalarsUnfold(s);
  }

  lemma PrependScalar(n: Utf8.Scalar, rest: Text)
    requires WellFormed(rest)
    ensures WellFormed(Utf16(n) + rest)
  {
    var s := Utf16(n) + rest;
    if n < 0x10000 {
      assert s[1..] == rest && !StartsPair(s);
    } else {
      assert s[2..] == rest && StartsPair(s);
    }
  }

  lemma {:induction false} ScalarsAreWellFormed(scalars: seq<Utf8.Scalar>)
    ensures WellFormed(FromScalars(scalars))
    decreases |scalars|
  {
    if |scalars| > 0 {
      ScalarsAreWellFormed(scalars[1..]);
      PrependScalar(scalars[0], FromScalars(scalars[1..]));
    }
  }

  /** The well-formed texts are exactly those that scalar values are written as. */
  lemma WellFormedIff(s: Text)
    ensures WellFormed(s) <==> exists scalars :: s == FromScalars(scalars)
  {
    if WellFormed(s) {
      FromScalarsOfScalars(s);
      assert s == FromScalars(Scalars(s));
    }
    forall scalars | s == FromScalars(scalars) ensures WellFormed(s) {
      ScalarsAreWellFormed(scalars);
    }
  }

  /** Four texts with a NUL between them: the scheme, the relying party, the action, and the digits. */
  predicate KeyLayout(scalars: seq<Utf8.Scalar>, scheme: string, rpId: Text, action: Text, digits: Text) {
    var parts := Joining.Split(scalars, NUL);
    && |parts| == 4 && parts[0] == Utf8.Scalars(scheme)
    && parts[1] == Scalars(rpId) && parts[2] == Scalars(action) && parts[3] == digits
  }

  predicate AllAscii(s: string) {
    forall i :: 0 <= i < |s| ==> s[i] < '\U{80}'
  }

  lemma AsciiUnitsScalars(s: string)
    requires AllAscii(s)
    ensures Scalars(Units(s)) == Utf8.Scalars(s)
  {
    AsciiScalars(Units(s));
  }

  lemma PartsAt(scheme: Text, rpId: Text, action: Text, n: nat)
    ensures var each := EachScalars(Parts(scheme, rpId, action, n));
            && |each| == 4 && each[0] == Scalars(scheme) && each[1] == Scalars(rpId) && each[2] == Scalars(action)
            && each[3] == Scalars(Printed(n))
  {
  }

  lemma KeySplits(scheme: string, rpId: Text, action: Text, n: nat)
    requires AllAscii(scheme) && GoodPart(Units(scheme)) && GoodPart(rpId) && GoodPart(action)
    ensures KeyLayout(Scalars(Joining.Join(Parts(Units(scheme), rpId, action, n), NUL)), scheme, rpId, action,
                      Printed(n))
  {
    AcceptedPartsNulFree(Units(scheme), rpId, action, n);
    SplitOfEncoded(Parts(Units(scheme), rpId, action, n));
    PartsAt(Units(scheme), rpId, action, n);
    AsciiScalars(Printed(n));
    AsciiUnitsScalars(scheme);
  }

  lemma KeyBytesLayout(scheme: string, rpId: Text, action: Text, n: nat)
    requires AllAscii(scheme) && GoodPart(Units(scheme)) && GoodPart(rpId) && GoodPart(action)
    ensures var b := KeyBytes(Units(scheme), rpId, action, n);
            Utf8.Decode(b).Some? && KeyLayout(Utf8.Decode(b).value, scheme, rpId, action, Printed(n))
  {
    KeySplits(scheme, rpId, action, n);
    Utf8.DecodeOfEncode(Scalars(Joining.Join(Parts(Units(scheme), rpId, action, n), NUL)));
  }

  lemma AnyPreimageLayout(scheme: string, rpId: Text, action: Text, nullifier: Text)
    requires AllAscii(scheme) && GoodPart(Units(scheme))
    ensures var b, canonical := Preimage(Units(scheme), rpId, action, nullifier), CanonicalNullifier(nullifier);
            && (b.Ok? <==> |rpId| > 0 && 0 !in rpId && |action| > 0 && 0 !in action && canonical.Ok?)
            && (b.Ok? ==>
                  && Utf8.Decode(b.value).Some?
                  && KeyLayout(Utf8.Decode(b.value).value, scheme, rpId, action, canonical.value))
  {
    CanonicalIsPrinted(nullifier);
    PreimageOfAccepted(Units(scheme), rpId, action, nullifier);
    if Accepted(rpId, action, nullifier) {
      KeyBytesLayout(scheme, rpId, action, NullifierValue(nullifier).value);
    }
  }

  lemma SchemeText()
    ensures SCHEME == "sonari:world_id:v2" && AllAscii(SCHEME) && Scheme() == Units(SCHEME)
  {
  }

  /** The key is refused for an empty part, a NUL, or a text that is no nullifier, and for nothing else. Otherwise the
      bytes are UTF-8 of the four texts, the nullifier in decimal. */
  lemma PreimageLayout(rpId: Text, action: Text, nullifier: Text)
    ensures var b, canonical := Preimage(Scheme(), rpId, action, nullifier), CanonicalNullifier(nullifier);
            && (b.Ok? <==> |rpId| > 0 && 0 !in rpId && |action| > 0 && 0 !in action && canonical.Ok?)
            && (b.Ok? ==>
                  && Utf8.Decode(b.value).Some?
                  && KeyLayout(Utf8.Decode(b.value).value, "sonari:world_id:v2", rpId, action, canonical.value))
  {
    SchemeText();
    SchemeIsGood();
    AnyPreimageLayout(SCHEME, rpId, action, nullifier);
  }
}
