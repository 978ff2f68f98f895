/** Decimal numerals, as `BigInt(text)` reads them and `toString(10)` writes them. */
module Decimal {
  predicate IsDigit(c: char) {
    '0' <= c <= '9'
  }

  predicate AllDigits(s: string) {
    forall i :: 0 <= i < |s| ==> IsDigit(s[i])
  }

  function DigitValue(c: char): nat
    requires IsDigit(c)
  {
    c as int - '0' as int
  }

  function DigitChar(d: nat): (c: char)
    requires d < 10
    ensures IsDigit(c) && DigitValue(c) == d
  {
    ('0' as int + d) as char
  }

  function Pow10(e: nat): (p: nat)
    ensures p >= 1
  {
    if e == 0 then 1 else 10 * Pow10(e - 1)
  }

  /** The value of a digit string; the empty one is zero. */
  function Value(s: string): nat
    requires AllDigits(s)
  {
    if |s| == 0 then 0 else 10 * Value(s[..|s| - 1]) + DigitValue(s[|s| - 1])
  }

  function Print(n: nat): (s: string)
    ensures AllDigits(s) && |s| > 0
  {
    if n < 10 then [DigitChar(n)] else Print(n / 10) + [DigitChar(n % 10)]
  }

  /** `^(0|[1-9]\d*)$`. */
  predicate Canonical(s: string) {
    |s| > 0 && AllDigits(s) && (s[0] == '0' ==> |s| == 1)
  }

  lemma {:induction false} ValueOfPrint(n: nat)
    ensures Value(Print(n)) == n && Canonical(Print(n))
    ensures n > 0 ==> Print(n)[0] != '0'
  {
    if n >= 10 {
      ValueOfPrint(n / 10);
      var front := Print(n / 10);
      assert Print(n)[..|Print(n)| - 1] == front && Print(n)[0] == front[0];
    }
  }

  lemma {:induction false} LeadingDigitBounds(s: string)
    requires |s| > 0 && AllDigits(s) && s[0] != '0'
    ensures Value(s) >= Pow10(|s| - 1) >= 1
    decreases |s|
  {
    if |s| > 1 {
      assert s[..|s| - 1][0] == s[0];
      LeadingDigitBounds(s[..|s| - 1]);
    } else {
      assert s[..0] == "";
    }
  }

  lemma {:induction false} PrintOfValue(s: string)
    requires Canonical(s)
    ensures Print(Value(s)) == s
    decreases |s|
  {
    var front := s[..|s| - 1];
    if |s| == 1 {
      assert front == "" && s == [s[0]];
    } else {
      assert Canonical(front) && front[0] == s[0];
      LeadingDigitBounds(front);
      PrintOfValue(front);
      assert s == front + [s[|s| - 1]];
    }
  }

  lemma PrintInjective(m: nat, n: nat)
    requires Print(m) == Print(n)
    ensures m == n
  {
    ValueOfPrint(m);
    ValueOfPrint(n);
  }

  lemma MultiplyByTen(v: nat, p: nat)
    ensures v * (10 * p) == 10 * (v * p) == 10 * v * p
  {
  }

  lemma ButLast(a: string, b: string)
    requires |b| > 0
    ensures (a + b)[..|a + b| - 1] == a + b[..|b| - 1]
  {
  }

  lemma {:induction false} ValueOfConcat(a: string, b: string)
    requires AllDigits(a) && AllDigits(b)
    ensures AllDigits(a + b) && Value(a + b) == Value(a) * Pow10(|b|) + Value(b)
    decreases |b|
  {
    if |b| == 0 {
      assert a + b == a;
    } else {
      var front := b[..|b| - 1];
      ValueOfConcat(a, front);
      ButLast(a, b);
      assert Pow10(|b|) == 10 * Pow10(|front|);
      MultiplyByTen(Value(a), Pow10(|front|));
    }
  }

  lemma {:induction false} ValueOfZeros(zeros: string)
    requires forall i :: 0 <= i < |zeros| ==> zeros[i] == '0'
    ensures AllDigits(zeros) && Value(zeros) == 0
    decreases |zeros|
  {
    if |zeros| > 0 {
      ValueOfZeros(zeros[..|zeros| - 1]);
    }
  }
}
