/** The donation amount parser of dapp/app/donate/donate-amount.ts. */
module DonationAmount {
  import opened Prelude
  import opened Decimal
  import opened JsText
  import Joining

  datatype ErrorCode = Empty | InvalidFormat | Negative | Zero | TooManyDecimals | Overflow

  const USDC_DECIMALS: nat := 6
  const MICRO_USDC_SCALE: nat := 1_000_000
  const MAX_U64: nat := 18_446_744_073_709_551_615

  /** `(?:,\d{3})*$`. */
  predicate CommaTriples(s: string) {
    |s| == 0 || (|s| >= 4 && s[0] == ',' && AllDigits(s[1..4]) && CommaTriples(s[4..]))
  }

  predicate GroupsFrom(s: string, k: nat) {
    1 <= k <= 3 && k <= |s| && AllDigits(s[..k]) && CommaTriples(s[k..])
  }

  /** `^(?:\d{1,3})(?:,\d{3})*$`. */
  predicate MatchesGroups(s: string) {
    exists k: nat | k <= 3 :: GroupsFrom(s, k)
  }

  predicate IsValidIntegerPart(value: string) {
    if |value| == 0 then true
    else if ',' in value then MatchesGroups(value)
    else AllDigits(value)
  }

  function RemoveCommas(s: string): (r: string)
    ensures ',' !in r
  {
    if |s| == 0 then "" else if s[0] == ',' then RemoveCommas(s[1..]) else [s[0]] + RemoveCommas(s[1..])
  }

  function PadEnd(s: string): (r: string)
    ensures |s| <= USDC_DECIMALS ==> |r| == USDC_DECIMALS
    decreases USDC_DECIMALS - |s|
  {
    if |s| >= USDC_DECIMALS then s else PadEnd(s + "0")
  }

  function AmountOf(whole: string, fraction: Option<string>): Result<nat, ErrorCode> {
    var digits := if fraction.Some? then fraction.value else "";
    if |whole| == 0 && |digits| == 0 then Err(InvalidFormat)
    else if |digits| > USDC_DECIMALS then Err(TooManyDecimals)
    else if !IsValidIntegerPart(whole) then Err(InvalidFormat)
    else if !AllDigits(digits) then Err(InvalidFormat)
    else
      IntegerPartDigits(whole);
      PadEndValue(digits);
      var micro := Value(RemoveCommas(whole)) * MICRO_USDC_SCALE + Value(PadEnd(digits));
      if micro == 0 then Err(Zero) else if micro > MAX_U64 then Err(Overflow) else Ok(micro)
  }

  function Validate(input: string): Result<nat, ErrorCode> {
    var trimmed := Trim(input);
    if |trimmed| == 0 then Err(Empty)
    else
      var amount := Trim(if trimmed[0] == '$' then trimmed[1..] else trimmed);
      if |amount| == 0 then Err(InvalidFormat)
      else if amount[0] == '-' then Err(Negative)
      else
        var parts := Joining.Split(amount, '.');
        if |parts| > 2 then Err(InvalidFormat)
        else AmountOf(parts[0], if |parts| == 2 then Some(parts[1]) else None)
  }

  // ----- The pieces ------------------------------------------------------------------------------

  lemma OneMoreZero(s: string)
    requires AllDigits(s)
    ensures AllDigits(s + "0") && Value(s + "0") == 10 * Value(s)
  {
    assert (s + "0")[..|s|] == s && (s + "0")[|s|] == '0';
  }

  lemma {:induction false} PadEndValue(s: string)
    requires |s| <= USDC_DECIMALS && AllDigits(s)
    ensures AllDigits(PadEnd(s)) && Value(PadEnd(s)) == Value(s) * Pow10(USDC_DECIMALS - |s|)
    decreases USDC_DECIMALS - |s|
  {
    if |s| < USDC_DECIMALS {
      var places := USDC_DECIMALS - |s| - 1;
      OneMoreZero(s);
      PadEndValue(s + "0");
      assert PadEnd(s) == PadEnd(s + "0");
      MultiplyByTen(Value(s), Pow10(places));
      assert Pow10(places + 1) == 10 * Pow10(places);
    }
  }

  /** A comma and what follows it. */
  function Comma(last: string): (s: string)
    ensures |s| == |last| + 1
  {
    [','] + last
  }

  /** The digits with a comma before every third from the right. */
  function Commas(digits: string): string
    decreases |digits|
  {
    if |digits| <= 3 then digits else Commas(digits[..|digits| - 3]) + Comma(digits[|digits| - 3..])
  }

  lemma {:induction false} RemoveCommasConcat(a: string, b: string)
    ensures RemoveCommas(a + b) == RemoveCommas(a) + RemoveCommas(b)
  {
    if |a| == 0 {
      assert a + b == b;
    } else {
      assert (a + b)[1..] == a[1..] + b;
      RemoveCommasConcat(a[1..], b);
    }
  }

  lemma {:induction false} RemoveCommasOfDigits(s: string)
    requires AllDigits(s)
    ensures RemoveCommas(s) == s
  {
    if |s| > 0 {
      assert IsDigit(s[0]);
      RemoveCommasOfDigits(s[1..]);
      assert s == [s[0]] + s[1..];
    }
  }

  lemma {:induction false} CommaTriplesConcat(a: string, b: string)
    requires CommaTriples(a) && CommaTriples(b)
    ensures CommaTriples(a + b)
  {
    if |a| == 0 {
      assert a + b == b;
    } else {
      assert (a + b)[4..] == a[4..] + b && (a + b)[1..4] == a[1..4];
      CommaTriplesConcat(a[4..], b);
    }
  }

  lemma OneTriple(last: string)
    requires |last| == 3 && AllDigits(last)
    ensures CommaTriples(Comma(last)) && RemoveCommas(Comma(last)) == last
  {
    var s := Comma(last);
    assert s[1..4] == last && s[4..] == "" && s[1..] == last;
    RemoveCommasOfDigits(last);
  }

  lemma GroupsOneMore(s: string, k: nat, triple: string)
    requires GroupsFrom(s, k) && CommaTriples(triple)
    ensures GroupsFrom(s + triple, k)
  {
    CommaTriplesConcat(s[k..], triple);
    Joining.DropOfConcat(s, triple, k);
  }

  lemma CommasOfLonger(front: string, last: string)
    requires |front| > 0 && |last| == 3
    ensures Commas(front + last) == Commas(front) + Comma(last)
  {
    Joining.Halves(front, last);
  }

  lemma FewDigitsMatch(digits: string)
    requires 1 <= |digits| <= 3 && AllDigits(digits)
    ensures MatchesGroups(digits)
  {
    assert digits[..|digits|] == digits && digits[|digits|..] == "";
    assert GroupsFrom(digits, |digits|);
  }

  /** Grouping prints what the pattern matches, and removing the commas gives the digits back. */
  lemma {:induction false} CommasMatch(digits: string)
    requires |digits| > 0 && AllDigits(digits)
    ensures MatchesGroups(Commas(digits)) && RemoveCommas(Commas(digits)) == digits
    ensures |digits| > 3 ==> ',' in Commas(digits)
    decreases |digits|
  {
    if |digits| <= 3 {
      RemoveCommasOfDigits(digits);
      FewDigitsMatch(digits);
    } else {
      CommasMatch(digits[..|digits| - 3]);
      CommasMatchLonger(digits[..|digits| - 3], digits[|digits| - 3..]);
      assert digits == digits[..|digits| - 3] + digits[|digits| - 3..];
    }
  }

  lemma CommasMatchLonger(front: string, last: string)
    requires |front| > 0 && |last| == 3 && AllDigits(last)
    requires MatchesGroups(Commas(front)) && RemoveCommas(Commas(front)) == front
    ensures MatchesGroups(Commas(front + last)) && RemoveCommas(Commas(front + last)) == front + last
    ensures ',' in Commas(front + last)
  {
    CommasOfLonger(front, last);
    var k: nat :| k <= 3 && GroupsFrom(Commas(front), k);
    OneTriple(last);
    GroupsOneMore(Commas(front), k, Comma(last));
    RemoveCommasConcat(Commas(front), Comma(last));
    assert (Commas(front) + Comma(last))[|Commas(front)|] == ',';
  }

  lemma CommaFirst(s: string)
    requires |s| >= 4 && s[0] == ','
    ensures s == Comma(s[1..4]) + s[4..]
  {
  }

  lemma TriplesUnfold(s: string)
    requires CommaTriples(s) && |s| > 0
    ensures |s| >= 4 && AllDigits(s[1..4]) && CommaTriples(s[4..])
    ensures s == Comma(s[1..4]) + s[4..] && RemoveCommas(s) == s[1..4] + RemoveCommas(s[4..])
  {
    CommaFirst(s);
    OneTriple(s[1..4]);
    RemoveCommasConcat(Comma(s[1..4]), s[4..]);
  }

  lemma {:induction false} TriplesDigits(head: string, s: string)
    requires CommaTriples(s) && |head| > 0 && AllDigits(head)
    ensures AllDigits(head + RemoveCommas(s)) && Commas(head) + s == Commas(head + RemoveCommas(s))
    decreases |s|
  {
    if |s| == 0 {
      assert head + "" == head && Commas(head) + s == Commas(head);
    } else {
      TriplesUnfold(s);
      var triple, rest := s[1..4], s[4..];
      TriplesDigits(head + triple, rest);
      CommasOfLonger(head, triple);
      Joining.Regroup(head, triple, RemoveCommas(rest));
      Joining.Regroup(Commas(head), Comma(triple), rest);
    }
  }

  lemma GroupsAreCommas(head: string, triples: string)
    requires 1 <= |head| <= 3 && AllDigits(head) && CommaTriples(triples)
    ensures var digits := RemoveCommas(head + triples);
            |digits| > 0 && AllDigits(digits) && head + triples == Commas(digits)
  {
    RemoveCommasOfDigits(head);
    RemoveCommasConcat(head, triples);
    TriplesDigits(head, triples);
    assert Commas(head) == head;
  }

  /** The pattern matches nothing but grouped digits. */
  lemma MatchIsCommas(s: string)
    requires MatchesGroups(s)
    ensures |RemoveCommas(s)| > 0 && AllDigits(RemoveCommas(s)) && s == Commas(RemoveCommas(s))
  {
    var k: nat :| k <= 3 && GroupsFrom(s, k);
    GroupsAreCommas(s[..k], s[k..]);
    Joining.Cut(s, k);
  }

  lemma IntegerPartDigits(whole: string)
    requires IsValidIntegerPart(whole)
    ensures AllDigits(RemoveCommas(whole))
    ensures whole == RemoveCommas(whole) || (',' in whole && whole == Commas(RemoveCommas(whole)))
  {
    if ',' in whole {
      MatchIsCommas(whole);
    } else {
      RemoveCommasOfDigits(whole);
    }
  }

  // ----- The grammar -----------------------------------------------------------------------------

  /** An amount taken apart: padding, an optional dollar sign, the whole digits with or without their commas,
      an optional point and up to six more digits. */
  datatype Shape = Shape(
    lead: string, dollar: bool, gap: string, whole: string, grouped: bool,
    point: bool, fraction: string, trail: string)

  predicate WellFormed(s: Shape) {
    && AllSpace(s.lead) && AllSpace(s.gap) && AllSpace(s.trail) && (s.dollar || s.gap == "")
    && AllDigits(s.whole) && AllDigits(s.fraction) && |s.fraction| <= 6
    && (s.point || s.fraction == "") && |s.whole| + |s.fraction| > 0
  }

  function Whole(s: Shape): string {
    if s.grouped then Commas(s.whole) else s.whole
  }

  function Body(s: Shape): string {
    if s.point then Whole(s) + ['.'] + s.fraction else Whole(s)
  }

  /** An amount behind its dollar sign, if it has one. */
  function Core(dollar: bool, gap: string, amount: string): string {
    if dollar then ['$'] + (gap + amount) else amount
  }

  function Text(s: Shape): string {
    s.lead + Core(s.dollar, s.gap, Body(s)) + s.trail
  }

  /** The amount in millionths. */
  function Micro(s: Shape): nat
    requires WellFormed(s)
  {
    Value(s.whole) * 1_000_000 + Value(s.fraction) * Pow10(6 - |s.fraction|)
  }

  function Ranged(micro: nat): Result<nat, ErrorCode> {
    if micro == 0 then Err(Zero) else if micro >= 0x1_0000_0000_0000_0000 then Err(Overflow) else Ok(micro)
  }

  predicate IsAmountChar(c: char) {
    IsDigit(c) || c == ','
  }

  lemma {:induction false} CommasChars(digits: string)
    requires AllDigits(digits)
    ensures |Commas(digits)| >= |digits|
    ensures forall i :: 0 <= i < |Commas(digits)| ==> IsAmountChar(Commas(digits)[i])
    decreases |digits|
  {
    if |digits| > 3 {
      CommasChars(digits[..|digits| - 3]);
    }
  }

  lemma WholeIsValid(s: Shape)
    requires WellFormed(s)
    ensures IsValidIntegerPart(Whole(s)) && RemoveCommas(Whole(s)) == s.whole
    ensures |Whole(s)| == 0 <==> |s.whole| == 0
    ensures forall i :: 0 <= i < |Whole(s)| ==> IsAmountChar(Whole(s)[i])
  {
    CommasChars(s.whole);
    if s.grouped && |s.whole| > 0 {
      CommasMatch(s.whole);
    } else {
      RemoveCommasOfDigits(s.whole);
    }
    if ',' !in Whole(s) && s.grouped && |s.whole| > 0 {
      assert Whole(s) == s.whole;
    }
  }

  lemma WholeHasNoPoint(s: Shape)
    requires WellFormed(s)
    ensures '.' !in Whole(s) && '.' !in s.fraction
  {
    WholeIsValid(s);
    forall i | 0 <= i < |s.fraction| ensures s.fraction[i] != '.' {
      assert IsDigit(s.fraction[i]);
    }
  }

  /** The body splits at its point into the whole part and the fraction. */
  lemma BodyParts(s: Shape)
    requires WellFormed(s)
    ensures Joining.Split(Body(s), '.') == if s.point then [Whole(s), s.fraction] else [Whole(s)]
  {
    WholeHasNoPoint(s);
    if s.point {
      Joining.SplitOfOne(s.fraction, '.');
      Joining.SplitOfFirst(Whole(s), '.', s.fraction);
    } else {
      Joining.SplitOfOne(Whole(s), '.');
    }
  }

  predicate IsBodyChar(c: char) {
    IsAmountChar(c) || c == '.'
  }

  lemma BodyChars(s: Shape)
    requires WellFormed(s)
    ensures |Body(s)| > 0
    ensures forall i :: 0 <= i < |Body(s)| ==> IsBodyChar(Body(s)[i])
  {
    WholeIsValid(s);
    forall i | 0 <= i < |Body(s)| ensures IsBodyChar(Body(s)[i]) {
      if i > |Whole(s)| {
        assert Body(s)[i] == s.fraction[i - |Whole(s)| - 1] && IsDigit(Body(s)[i]);
      } else if i < |Whole(s)| {
        assert IsAmountChar(Whole(s)[i]);
      }
    }
  }

  lemma AmountOfShape(s: Shape)
    requires WellFormed(s)
    ensures AmountOf(Whole(s), if s.point then Some(s.fraction) else None) == Ranged(Micro(s))
  {
    WholeIsValid(s);
    PadEndValue(s.fraction);
  }

  lemma BodyIsTrimmed(s: Shape)
    requires WellFormed(s)
    ensures Trimmed(Body(s)) && Body(s)[0] != '$' && Body(s)[0] != '-'
  {
    BodyChars(s);
    assert IsBodyChar(Body(s)[0]) && IsBodyChar(Body(s)[|Body(s)| - 1]);
  }

  lemma CoreIsTrimmed(dollar: bool, gap: string, amount: string)
    requires AllSpace(gap) && |amount| > 0 && Trimmed(amount) && amount[0] != '$'
    ensures var core := Core(dollar, gap, amount);
            && |core| > 0 && Trimmed(core) && (core[0] == '$' <==> dollar)
            && Trim(if dollar then core[1..] else core) == amount
  {
    var core := Core(dollar, gap, amount);
    if dollar {
      assert core[|core| - 1] == amount[|amount| - 1];
      assert core[1..] == gap + amount + "";
      TrimOfPadded(gap, amount, "");
    } else {
      assert "" + amount + "" == amount;
      TrimOfPadded("", amount, "");
    }
  }

  /** What is left after both trims and the dollar sign. */
  lemma StripToBody(s: Shape)
    requires WellFormed(s)
    ensures var trimmed := Trim(Text(s));
            |trimmed| > 0 && Trim(if trimmed[0] == '$' then trimmed[1..] else trimmed) == Body(s)
  {
    BodyChars(s);
    BodyIsTrimmed(s);
    CoreIsTrimmed(s.dollar, s.gap, Body(s));
    TrimOfPadded(s.lead, Core(s.dollar, s.gap, Body(s)), s.trail);
  }

  /** Every text of the grammar is answered by its value alone. */
  lemma GrammarIsParsed(s: Shape)
    requires WellFormed(s)
    ensures Validate(Text(s)) == Ranged(Micro(s))
  {
    StripToBody(s);
    BodyIsTrimmed(s);
    BodyParts(s);
    AmountOfShape(s);
  }

  lemma Unstrip(input: string) returns (lead: string, gap: string, trail: string)
    requires |Trim(input)| > 0
    ensures AllSpace(lead) && AllSpace(gap) && AllSpace(trail)
    ensures var trimmed := Trim(input);
            var dollar := trimmed[0] == '$';
            && (dollar || gap == "")
            && input == lead + Core(dollar, gap, Trim(if dollar then trimmed[1..] else trimmed)) + trail
  {
    var outer;
    lead, outer := TrimParts(input);
    var trimmed := Trim(input);
    if trimmed[0] == '$' {
      var inner;
      gap, inner := TrimParts(trimmed[1..]);
      var amount := Trim(trimmed[1..]);
      trail := inner + outer;
      assert trimmed == ['$'] + (gap + amount + inner);
      Joining.Regroup(['$'], gap + amount, inner);
      assert trimmed == Core(true, gap, amount) + inner;
      Joining.Regroup(lead, Core(true, gap, amount), inner);
      Joining.Regroup(lead + Core(true, gap, amount), inner, outer);
    } else {
      TrimOfPadded("", trimmed, "");
      assert "" + trimmed + "" == trimmed;
      gap, trail := "", outer;
    }
  }

  lemma PartsOfBody(amount: string)
    ensures var parts := Joining.Split(amount, '.');
            && (|parts| == 1 ==> amount == parts[0])
            && (|parts| == 2 ==> amount == parts[0] + ['.'] + parts[1])
  {
    Joining.JoinOfSplit(amount, '.');
    var parts := Joining.Split(amount, '.');
    if |parts| == 2 {
      assert parts[1..] == [parts[1]];
    }
  }

  /** Whatever is accepted, or refused only for its size, is a text of the grammar. */
  lemma ParsedIsGrammar(input: string) returns (s: Shape)
    requires Validate(input).Ok? || Validate(input).error in {Zero, Overflow}
    ensures WellFormed(s) && Text(s) == input && Validate(input) == Ranged(Micro(s))
  {
    var lead, gap, trail := Unstrip(input);
    var trimmed := Trim(input);
    var dollar := trimmed[0] == '$';
    var amount := Trim(if dollar then trimmed[1..] else trimmed);
    var parts := Joining.Split(amount, '.');
    PartsOfBody(amount);
    var whole := parts[0];
    var fraction := if |parts| == 2 then parts[1] else "";
    IntegerPartDigits(whole);
    s := Shape(lead, dollar, gap, RemoveCommas(whole), whole != RemoveCommas(whole), |parts| == 2, fraction, trail);
    assert Whole(s) == whole;
    RemovedIsEmpty(whole);
    assert Body(s) == amount;
    GrammarIsParsed(s);
  }

  lemma RemovedIsEmpty(whole: string)
    requires IsValidIntegerPart(whole)
    ensures |RemoveCommas(whole)| == 0 <==> |whole| == 0
  {
    if ',' in whole {
      MatchIsCommas(whole);
    } else {
      RemoveCommasOfDigits(whole);
    }
  }

  /** The parser accepts exactly the grammar's texts of value 1 to 2^64-1 millionths, at that value. */
  lemma AcceptsExactlyTheGrammar(input: string, micro: nat)
    ensures Validate(input) == Ok(micro)
            <==> 1 <= micro <= 18_446_744_073_709_551_615
                 && exists s :: WellFormed(s) && Text(s) == input && Micro(s) == micro
  {
    if Validate(input) == Ok(micro) {
      var s := ParsedIsGrammar(input);
      assert Ranged(Micro(s)) == Ok(micro);
    } else {
      forall s | WellFormed(s) && Text(s) == input
        ensures Micro(s) != micro || !(1 <= micro < 0x1_0000_0000_0000_0000)
      {
        GrammarIsParsed(s);
      }
    }
  }

  // ----- Refusals --------------------------------------------------------------------------------

  /** A text is called empty exactly if it is white space. */
  lemma EmptyIff(input: string)
    ensures Validate(input) == Err(Empty) <==> AllSpace(input)
  {
    if AllSpace(input) {
      TrimOfPadded(input, "", "");
      assert input + "" + "" == input;
    }
    if |Trim(input)| == 0 {
      var lead, trail := TrimParts(input);
      assert input == lead + trail;
    }
  }

  /** What both trims and one dollar sign leave. */
  lemma StripOf(lead: string, dollar: bool, gap: string, amount: string, trail: string)
    requires AllSpace(lead) && AllSpace(gap) && AllSpace(trail) && |amount| > 0 && Trimmed(amount)
    requires dollar || (gap == "" && amount[0] != '$')
    ensures var trimmed := Trim(lead + Core(dollar, gap, amount) + trail);
            |trimmed| > 0 && Trim(if trimmed[0] == '$' then trimmed[1..] else trimmed) == amount
  {
    var core := Core(dollar, gap, amount);
    if dollar {
      assert core[|core| - 1] == amount[|amount| - 1];
      assert core[1..] == gap + amount + "";
      TrimOfPadded(gap, amount, "");
    } else {
      assert "" + amount + "" == amount;
      TrimOfPadded("", amount, "");
    }
    TrimOfPadded(lead, core, trail);
  }

  /** A text whose amount begins with a minus sign. */
  predicate SaysMinus(input: string, lead: string, dollar: bool, gap: string, rest: string) {
    AllSpace(lead) && AllSpace(gap) && (dollar || gap == "") && input == lead + Core(dollar, gap, ['-'] + rest)
  }

  lemma NegativeSaysMinus(input: string) returns (lead: string, dollar: bool, gap: string, rest: string)
    requires Validate(input) == Err(Negative)
    ensures SaysMinus(input, lead, dollar, gap, rest)
  {
    var trail;
    lead, gap, trail := Unstrip(input);
    dollar := Trim(input)[0] == '$';
    var amount := Trim(if dollar then Trim(input)[1..] else Trim(input));
    assert amount == ['-'] + amount[1..];
    CoreWithTrail(lead, dollar, gap, amount[1..], trail);
    rest := amount[1..] + trail;
  }

  lemma MinusIsTrimmed(rest: string) returns (amount: string, trail: string)
    ensures AllSpace(trail) && Trimmed(amount) && |amount| > 0 && amount[0] == '-' && ['-'] + rest == amount + trail
  {
    var none;
    none, trail := TrimParts(['-'] + rest);
    amount := Trim(['-'] + rest);
    assert (['-'] + rest)[0] == '-';
    assert none == "";
    assert ['-'] + rest == amount + trail;
    assert |amount| > 0;
  }

  lemma MinusIsNegative(input: string, lead: string, dollar: bool, gap: string, rest: string)
    requires SaysMinus(input, lead, dollar, gap, rest)
    ensures Validate(input) == Err(Negative)
  {
    var amount, trail := MinusIsTrimmed(rest);
    StripOf(lead, dollar, gap, amount, trail);
    CoreAndTrail(lead, dollar, gap, amount, trail);
  }

  /** A text is called negative exactly if its amount begins with a minus sign. */
  lemma NegativeIff(input: string)
    ensures Validate(input) == Err(Negative)
            <==> exists lead, dollar, gap, rest :: SaysMinus(input, lead, dollar, gap, rest)
  {
    if Validate(input) == Err(Negative) {
      var lead, dollar, gap, rest := NegativeSaysMinus(input);
    }
    forall lead, dollar, gap, rest | SaysMinus(input, lead, dollar, gap, rest)
      ensures Validate(input) == Err(Negative)
    {
      MinusIsNegative(input, lead, dollar, gap, rest);
    }
  }

  lemma CoreAndTrail(lead: string, dollar: bool, gap: string, amount: string, trail: string)
    ensures lead + Core(dollar, gap, amount + trail) == lead + Core(dollar, gap, amount) + trail
  {
    if dollar {
      assert ['$'] + (gap + (amount + trail)) == ['$'] + (gap + amount) + trail;
    }
  }

  lemma CoreWithTrail(lead: string, dollar: bool, gap: string, rest: string, trail: string)
    ensures lead + Core(dollar, gap, ['-'] + rest) + trail == lead + Core(dollar, gap, ['-'] + (rest + trail))
  {
    assert ['-'] + (rest + trail) == (['-'] + rest) + trail;
    CoreAndTrail(lead, dollar, gap, ['-'] + rest, trail);
  }

  /** A text with one point and more than six characters behind it, before the padding. */
  predicate LongFraction(input: string, lead: string, dollar: bool, gap: string, whole: string, fraction: string,
                         trail: string) {
    && AllSpace(lead) && AllSpace(gap) && AllSpace(trail) && (dollar || gap == "")
    && '.' !in whole && '.' !in fraction && |fraction| > 6
    && var amount := whole + ['.'] + fraction;
       && Trimmed(amount) && amount[0] != '-' && (dollar || amount[0] != '$')
       && input == lead + Core(dollar, gap, amount) + trail
  }

  lemma LongIsRefused(input: string, lead: string, dollar: bool, gap: string, whole: string, fraction: string,
                      trail: string)
    requires LongFraction(input, lead, dollar, gap, whole, fraction, trail)
    ensures Validate(input) == Err(TooManyDecimals)
  {
    StripOf(lead, dollar, gap, whole + ['.'] + fraction, trail);
    Joining.SplitOfOne(fraction, '.');
    Joining.SplitOfFirst(whole, '.', fraction);
  }

  /** What is left after both trims, which is not trimmed any further, nor a dollar sign if there was none. */
  lemma AmountIsTrimmed(input: string)
    requires |Trim(input)| > 0
    ensures var trimmed := Trim(input);
            var amount := Trim(if trimmed[0] == '$' then trimmed[1..] else trimmed);
            Trimmed(amount) && (trimmed[0] != '$' && |amount| > 0 ==> amount[0] != '$')
  {
    var trimmed := Trim(input);
    var before, after := TrimParts(input);
    var lead, trail := TrimParts(if trimmed[0] == '$' then trimmed[1..] else trimmed);
    if trimmed[0] != '$' {
      TrimOfPadded("", trimmed, "");
      assert "" + trimmed + "" == trimmed;
    }
  }

  lemma TwoParts(amount: string)
    requires |Joining.Split(amount, '.')| == 2
    ensures var parts := Joining.Split(amount, '.');
            amount == parts[0] + ['.'] + parts[1] && '.' !in parts[0] && '.' !in parts[1]
  {
    PartsOfBody(amount);
    Joining.JoinOfSplit(amount, '.');
  }

  lemma LongAmount(input: string, lead: string, dollar: bool, gap: string, amount: string, trail: string)
    requires AllSpace(lead) && AllSpace(gap) && AllSpace(trail) && (dollar || gap == "")
    requires input == lead + Core(dollar, gap, amount) + trail && |amount| > 0 && Trimmed(amount) && amount[0] != '-'
    requires dollar || amount[0] != '$'
    requires |Joining.Split(amount, '.')| == 2 && |Joining.Split(amount, '.')[1]| > 6
    ensures LongFraction(input, lead, dollar, gap, Joining.Split(amount, '.')[0], Joining.Split(amount, '.')[1], trail)
  {
    TwoParts(amount);
  }

  lemma RefusedIsLong(input: string)
    returns (lead: string, dollar: bool, gap: string, whole: string, fraction: string, trail: string)
    requires Validate(input) == Err(TooManyDecimals)
    ensures LongFraction(input, lead, dollar, gap, whole, fraction, trail)
  {
    lead, gap, trail := Unstrip(input);
    AmountIsTrimmed(input);
    dollar := Trim(input)[0] == '$';
    var amount := Trim(if dollar then Trim(input)[1..] else Trim(input));
    LongAmount(input, lead, dollar, gap, amount, trail);
    whole, fraction := Joining.Split(amount, '.')[0], Joining.Split(amount, '.')[1];
  }

  /** It is said to have too many decimals exactly if it is such a text, whatever its characters. */
  lemma TooManyDecimalsIff(input: string)
    ensures Validate(input) == Err(TooManyDecimals)
            <==> exists lead, dollar, gap, whole, fraction, trail ::
                   LongFraction(input, lead, dollar, gap, whole, fraction, trail)
  {
    if Validate(input) == Err(TooManyDecimals) {
      var lead, dollar, gap, whole, fraction, trail := RefusedIsLong(input);
    }
    forall lead, dollar, gap, whole, fraction, trail | LongFraction(input, lead, dollar, gap, whole, fraction, trail)
      ensures Validate(input) == Err(TooManyDecimals)
    {
      LongIsRefused(input, lead, dollar, gap, whole, fraction, trail);
    }
  }

  // ----- Renderings ------------------------------------------------------------------------------

  /** A number in a fixed number of digits. */
  function FixedDigits(n: nat, places: nat): (s: string)
    requires n < Pow10(places)
    ensures |s| == places && AllDigits(s)
  {
    if places == 0 then "" else FixedDigits(n / 10, places - 1) + [DigitChar(n % 10)]
  }

  lemma {:induction false} FixedDigitsValue(n: nat, places: nat)
    requires n < Pow10(places)
    ensures Value(FixedDigits(n, places)) == n
  {
    if places > 0 {
      FixedDigitsValue(n / 10, places - 1);
      var s := FixedDigits(n, places);
      assert s[..|s| - 1] == FixedDigits(n / 10, places - 1);
    }
  }

  lemma SixPlaces()
    ensures Pow10(USDC_DECIMALS) == MICRO_USDC_SCALE && Pow10(0) == 1
  {
    assert Pow10(3) == 1000;
  }

  /** The whole dollars of an amount, its fraction, and the shape they are written in. */
  function Rendering(micro: nat, grouped: bool, dollar: bool): (s: Shape)
    ensures WellFormed(s)
  {
    SixPlaces();
    ValueOfPrint(micro / MICRO_USDC_SCALE);
    Shape("", dollar, "", Print(micro / MICRO_USDC_SCALE), grouped, true,
          FixedDigits(micro % MICRO_USDC_SCALE, USDC_DECIMALS), "")
  }

  /** An amount as it is written, plain or with its thousands grouped. */
  function Render(micro: nat, grouped: bool, dollar: bool): string {
    SixPlaces();
    var digits := Print(micro / MICRO_USDC_SCALE);
    var whole := if grouped then Commas(digits) else digits;
    Core(dollar, "", whole + ['.'] + FixedDigits(micro % MICRO_USDC_SCALE, USDC_DECIMALS))
  }

  lemma RenderingValue(micro: nat, grouped: bool, dollar: bool)
    ensures Micro(Rendering(micro, grouped, dollar)) == micro
  {
    SixPlaces();
    ValueOfPrint(micro / MICRO_USDC_SCALE);
    FixedDigitsValue(micro % MICRO_USDC_SCALE, USDC_DECIMALS);
  }

  lemma UnpaddedText(s: Shape)
    requires s.lead == "" && s.trail == ""
    ensures Text(s) == Core(s.dollar, s.gap, Body(s))
  {
  }

  lemma RenderIsText(micro: nat, grouped: bool, dollar: bool)
    ensures Text(Rendering(micro, grouped, dollar)) == Render(micro, grouped, dollar)
  {
    UnpaddedText(Rendering(micro, grouped, dollar));
  }

  /** Every accepted value has a plain and a grouped rendering, and both parse back to it. */
  lemma RenderRoundTrip(micro: nat, grouped: bool, dollar: bool)
    ensures Validate(Render(micro, grouped, dollar)) == Ranged(micro)
  {
    RenderingValue(micro, grouped, dollar);
    RenderIsText(micro, grouped, dollar);
    GrammarIsParsed(Rendering(micro, grouped, dollar));
  }
}
