/** Amounts as the dashboard prints them: micro-USDC rounded to whole dollars, then to at most three digits of
    K, M, B or T (dapp/app/dashboard/dashboard-view-model.ts). */
module CompactDollars {
  const MICRO_USDC_PER_DOLLAR := 1_000_000
  const LAST_UNIT := 4

  /** The scale of unit `u`: 1, K, M, B, T. */
  function Scale(u: nat): (scale: nat)
    requires u <= LAST_UNIT
    ensures scale >= 1
  {
    if u == 0 then 1
    else if u == 1 then 1_000
    else if u == 2 then 1_000_000
    else if u == 3 then 1_000_000_000
    else 1_000_000_000_000
  }

  /** Division rounded half up; truncating division agrees with it on the amounts shown. */
  function RoundDiv(value: nat, divisor: nat): nat
    requires divisor > 0
  {
    (value + divisor / 2) / divisor
  }

  /** The largest unit not above the value. */
  function NaturalUnit(value: nat): (u: nat)
    ensures u <= LAST_UNIT
  {
    if value >= Scale(4) then 4
    else if value >= Scale(3) then 3
    else if value >= Scale(2) then 2
    else if value >= Scale(1) then 1
    else 0
  }

  datatype Compact = Compact(value: nat, unit: nat)

  /** Promotes while rounding reaches a thousand. */
  function Promote(value: nat, u: nat): Compact
    requires u <= LAST_UNIT
    decreases LAST_UNIT - u
  {
    if RoundDiv(value, Scale(u)) >= 1_000 && u < LAST_UNIT then Promote(value, u + 1)
    else Compact(RoundDiv(value, Scale(u)), u)
  }

  function CompactWholeDollars(value: nat): Compact {
    Promote(value, NaturalUnit(value))
  }

  method CompactLoop(value: nat) returns (compact: Compact)
    ensures compact == CompactWholeDollars(value)
  {
    var unitIndex, index := 0, LAST_UNIT;
    while index > 0
      invariant 0 <= index <= LAST_UNIT && unitIndex == 0
      invariant forall u :: index < u <= LAST_UNIT ==> value < Scale(u)
    {
      if value >= Scale(index) {
        unitIndex := index;
        break;
      }
      index := index - 1;
    }
    assert value < Scale(1) || unitIndex > 0;
    assert unitIndex == NaturalUnit(value);
    var compactValue := RoundDiv(value, Scale(unitIndex));
    while compactValue >= 1_000 && unitIndex < LAST_UNIT
      invariant 0 <= unitIndex <= LAST_UNIT && compactValue == RoundDiv(value, Scale(unitIndex))
      invariant Promote(value, unitIndex) == CompactWholeDollars(value)
      decreases LAST_UNIT - unitIndex
    {
      unitIndex := unitIndex + 1;
      compactValue := RoundDiv(value, Scale(unitIndex));
    }
    compact := Compact(compactValue, unitIndex);
  }

  /** What is shown, in dollars. */
  function Shown(c: Compact): nat
    requires c.unit <= LAST_UNIT
  {
    c.value * Scale(c.unit)
  }

  lemma RoundDivBounds(value: nat, divisor: nat)
    requires divisor > 0
    ensures 2 * value < 2 * (RoundDiv(value, divisor) * divisor) + divisor + 1
    ensures 2 * (RoundDiv(value, divisor) * divisor) <= 2 * value + divisor
  {
    var q, r := (value + divisor / 2) / divisor, (value + divisor / 2) % divisor;
    assert value + divisor / 2 == q * divisor + r;
  }

  /** One promotion is enough, and it happens where rounding reaches a thousand units. */
  lemma PromotesAtMostOnce(value: nat)
    ensures var u, c := NaturalUnit(value), CompactWholeDollars(value);
      && c.unit <= LAST_UNIT && c.value == RoundDiv(value, Scale(c.unit))
      && (c.unit == u || c.unit == u + 1)
      && (c.unit == u + 1 <==> u < LAST_UNIT && RoundDiv(value, Scale(u)) >= 1_000)
      && (c.unit == u + 1 ==> c.value == 1)
  {
  }

  /** Fewer than four digits, unless the unit is T, and within half a unit of the dollars. */
  lemma ShownDigitsAndError(value: nat)
    ensures var c := CompactWholeDollars(value);
      && c.unit <= LAST_UNIT
      && (c.unit < LAST_UNIT ==> c.value < 1_000)
      && 2 * Shown(c) <= 2 * value + Scale(c.unit)
      && 2 * value <= 2 * Shown(c) + Scale(c.unit)
  {
    PromotesAtMostOnce(value);
    RoundDivBounds(value, Scale(CompactWholeDollars(value).unit));
  }

  lemma ScaleUp(m: nat, n: nat, scale: nat)
    requires m <= n
    ensures m * scale <= n * scale
  {
  }

  lemma RoundDivMonotone(a: nat, b: nat, divisor: nat)
    requires a <= b && divisor > 0
    ensures RoundDiv(a, divisor) <= RoundDiv(b, divisor)
  {
    var p, q := RoundDiv(a, divisor), RoundDiv(b, divisor);
    var x, y := a + divisor / 2, b + divisor / 2;
    assert x == p * divisor + x % divisor && y == q * divisor + y % divisor;
    assert (q + 1) * divisor == q * divisor + divisor;
    if p > q {
      ScaleUp(q + 1, p, divisor);
    }
  }

  /** What is shown never leaves the range its natural unit spans. */
  lemma ShownStaysInUnit(value: nat)
    ensures var u, shown := NaturalUnit(value), Shown(CompactWholeDollars(value));
      && (u > 0 ==> Scale(u) <= shown)
      && (u < LAST_UNIT ==> shown <= Scale(u + 1))
  {
    PromotesAtMostOnce(value);
    if NaturalUnit(value) == LAST_UNIT {
      assert RoundDiv(value, Scale(LAST_UNIT)) >= 1;
    }
  }

  lemma ScalesAscend(u: nat, w: nat)
    requires u < w <= LAST_UNIT
    ensures Scale(u + 1) <= Scale(w)
  {
  }

  lemma UnitsAscend(a: nat, b: nat)
    requires a <= b
    ensures NaturalUnit(a) <= NaturalUnit(b) <= LAST_UNIT
  {
  }

  lemma MonotoneUnpromoted(a: nat, b: nat)
    requires a <= b && CompactWholeDollars(a).unit == CompactWholeDollars(b).unit
    ensures Shown(CompactWholeDollars(a)) <= Shown(CompactWholeDollars(b))
  {
    var scale := Scale(CompactWholeDollars(a).unit);
    PromotesAtMostOnce(a);
    PromotesAtMostOnce(b);
    RoundDivMonotone(a, b, scale);
    ScaleUp(RoundDiv(a, scale), RoundDiv(b, scale), scale);
  }

  lemma MonotoneInUnit(a: nat, b: nat)
    requires a <= b && NaturalUnit(a) == NaturalUnit(b)
    ensures Shown(CompactWholeDollars(a)) <= Shown(CompactWholeDollars(b))
  {
    var u := NaturalUnit(a);
    PromotesAtMostOnce(a);
    PromotesAtMostOnce(b);
    if CompactWholeDollars(a).unit == CompactWholeDollars(b).unit {
      MonotoneUnpromoted(a, b);
    } else {
      RoundDivMonotone(a, b, Scale(u));
      ShownStaysInUnit(a);
      assert Shown(CompactWholeDollars(b)) == Scale(u + 1);
    }
  }

  /** A larger amount is never shown as less, across unit boundaries too. */
  lemma ShownIsMonotone(a: nat, b: nat)
    requires a <= b
    ensures Shown(CompactWholeDollars(a)) <= Shown(CompactWholeDollars(b))
  {
    UnitsAscend(a, b);
    if NaturalUnit(a) == NaturalUnit(b) {
      MonotoneInUnit(a, b);
    } else {
      ShownStaysInUnit(a);
      ShownStaysInUnit(b);
      ScalesAscend(NaturalUnit(a), NaturalUnit(b));
    }
  }

  /** After both roundings of `formatUsdc` the shown amount is within half a unit plus half a dollar. */
  lemma FormattedError(microUsdc: nat)
    ensures var c := CompactWholeDollars(RoundDiv(microUsdc, MICRO_USDC_PER_DOLLAR));
      && c.unit <= LAST_UNIT
      && 2 * Shown(c) * MICRO_USDC_PER_DOLLAR <=
         2 * microUsdc + Scale(c.unit) * MICRO_USDC_PER_DOLLAR + MICRO_USDC_PER_DOLLAR
      && 2 * microUsdc <=
         2 * Shown(c) * MICRO_USDC_PER_DOLLAR + Scale(c.unit) * MICRO_USDC_PER_DOLLAR + MICRO_USDC_PER_DOLLAR
  {
    RoundDivBounds(microUsdc, MICRO_USDC_PER_DOLLAR);
    ShownDigitsAndError(RoundDiv(microUsdc, MICRO_USDC_PER_DOLLAR));
  }

  // ----- Exactly what is shown ------------------------------------------------------------------------

  /** `n` divisors are the value, rounded with halves up: half of a divisor below, and less than half above. */
  predicate Rounds(value: nat, divisor: nat, n: nat) {
    2 * n * divisor <= 2 * value + divisor && 2 * value < 2 * n * divisor + divisor
  }

  lemma RoundDivRounds(value: nat, divisor: nat)
    requires divisor > 0 && (divisor == 1 || divisor % 2 == 0)
    ensures Rounds(value, divisor, RoundDiv(value, divisor))
  {
    var q, r := (value + divisor / 2) / divisor, (value + divisor / 2) % divisor;
    assert value + divisor / 2 == q * divisor + r;
    assert 2 * q * divisor == 2 * (q * divisor);
  }

  lemma Scales()
    ensures Scale(0) == 1 && Scale(1) == 1_000 && Scale(2) == 1_000_000 && Scale(3) == 1_000_000_000
    ensures Scale(4) == 1_000_000_000_000
  {
  }

  /** The unit shown is the least of 1, K, M, B and T in which the dollars round to less than a thousand, or T; and the
      number shown is the dollars in that unit, rounded with halves up. */
  lemma LeastUnit(value: nat)
    ensures var c := CompactWholeDollars(value);
      && c.unit <= 4
      && Rounds(value, if c.unit == 0 then 1 else if c.unit == 1 then 1_000 else if c.unit == 2 then 1_000_000
                       else if c.unit == 3 then 1_000_000_000 else 1_000_000_000_000, c.value)
      && (c.unit < 4 ==> c.value < 1_000)
      && (c.unit >= 1 ==> 2 * value >= 1_999 * (if c.unit == 1 then 1 else if c.unit == 2 then 1_000
                                                else if c.unit == 3 then 1_000_000 else 1_000_000_000))
  {
    var c := CompactWholeDollars(value);
    Scales();
    PromotesAtMostOnce(value);
    RoundDivRounds(value, Scale(c.unit));
    if c.unit >= 1 {
      RoundDivRounds(value, Scale(c.unit - 1));
    }
  }

  /** Micro-USDC are rounded to dollars with halves up first. */
  lemma DollarsRound(microUsdc: nat)
    ensures Rounds(microUsdc, 1_000_000, RoundDiv(microUsdc, MICRO_USDC_PER_DOLLAR))
  {
    RoundDivRounds(microUsdc, 1_000_000);
  }
}
