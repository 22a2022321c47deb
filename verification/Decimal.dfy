/** Decimal numerals: printing, padding, and the value a run of digits stands for. */
module Decimal {

  function Pow10(k: nat): (p: nat)
    ensures p > 0
  {
    if k == 0 then 1 else 10 * Pow10(k - 1)
  }

  function DigitChar(d: nat): char
    requires d < 10
  {
    '0' + d as char
  }

  predicate IsDigit(c: char) { '0' <= c <= '9' }

  function DigitValue(c: char): (d: nat)
    requires IsDigit(c)
    ensures d < 10 && DigitChar(d) == c
  {
    (c - '0') as nat
  }

  predicate AllDigits(s: string) { forall i :: 0 <= i < |s| ==> IsDigit(s[i]) }

  /** The value of a run of digits. */
  function Value(s: string): nat
    requires AllDigits(s)
  {
    if s == [] then 0 else Value(s[..|s| - 1]) * 10 + DigitValue(s[|s| - 1])
  }

  /** Exactly `width` digits, the low ones of `n`. */
  function Padded(n: nat, width: nat): (s: string)
    ensures |s| == width && AllDigits(s)
  {
    if width == 0 then [] else Padded(n / 10, width - 1) + [DigitChar(n % 10)]
  }

  /** No leading zeros, but at least `least` digits. */
  function AtLeast(n: nat, least: nat): (s: string)
    requires least > 0
    ensures |s| >= least && AllDigits(s)
    decreases n, least
  {
    if n < 10 then Padded(n, least)
    else AtLeast(n / 10, if least > 1 then least - 1 else 1) + [DigitChar(n % 10)]
  }

  /** No zero in front, but for nought itself. */
  lemma {:induction false} NoLeadingZero(n: nat)
    ensures |AtLeast(n, 1)| == 1 || AtLeast(n, 1)[0] != '0'
    ensures n > 0 ==> AtLeast(n, 1)[0] != '0'
    decreases n
  {
    if n >= 10 {
      NoLeadingZero(n / 10);
    } else {
      assert AtLeast(n, 1) == Padded(n / 10, 0) + [DigitChar(n)] == [DigitChar(n)];
    }
  }

  lemma ValueSnoc(s: string, d: nat)
    requires AllDigits(s) && d < 10
    ensures AllDigits(s + [DigitChar(d)]) && Value(s + [DigitChar(d)]) == Value(s) * 10 + d
  {
    assert (s + [DigitChar(d)])[..|s|] == s;
  }

  lemma {:induction false} PaddedValue(n: nat, width: nat)
    requires n < Pow10(width)
    ensures Value(Padded(n, width)) == n
    decreases width
  {
    if width > 0 {
      PaddedValue(n / 10, width - 1);
      ValueSnoc(Padded(n / 10, width - 1), n % 10);
    }
  }

  lemma {:induction false} TenFits(least: nat)
    requires least > 0
    ensures Pow10(least) >= 10
  {}

  lemma {:induction false} AtLeastValue(n: nat, least: nat)
    requires least > 0
    ensures Value(AtLeast(n, least)) == n
    decreases n, least
  {
    if n < 10 {
      TenFits(least);
      PaddedValue(n, least);
    } else {
      var fewer := if least > 1 then least - 1 else 1;
      AtLeastValue(n / 10, fewer);
      ValueSnoc(AtLeast(n / 10, fewer), n % 10);
    }
  }

  lemma {:induction false} ValueConcat(a: string, b: string)
    requires AllDigits(a) && AllDigits(b)
    ensures AllDigits(a + b) && Value(a + b) == Value(a) * Pow10(|b|) + Value(b)
    decreases |b|
  {
    if b == [] {
      assert a + b == a;
    } else {
      var init, d := b[..|b| - 1], DigitValue(b[|b| - 1]);
      assert a + b == (a + init) + [DigitChar(d)];
      ValueConcat(a, init);
      ValueSnoc(a + init, d);
      Shifted(Value(a), Pow10(|init|), Value(init), d);
    }
  }

  lemma Shifted(a: nat, p: nat, b: nat, d: nat)
    ensures (a * p + b) * 10 + d == a * (10 * p) + (b * 10 + d)
  {
    assert a * (10 * p) == 10 * (a * p);
  }

  function Zeros(k: nat): (s: string)
    ensures |s| == k && AllDigits(s)
  {
    if k == 0 then [] else Zeros(k - 1) + ['0']
  }

  lemma {:induction false} ZerosValue(k: nat)
    ensures Value(Zeros(k)) == 0
  {
    if k > 0 {
      ZerosValue(k - 1);
      ValueSnoc(Zeros(k - 1), 0);
    }
  }

  lemma {:induction false} PowAdd(a: nat, b: nat)
    ensures Pow10(a + b) == Pow10(a) * Pow10(b)
  {
    if a > 0 {
      PowAdd(a - 1, b);
      Reassociate(Pow10(a - 1), Pow10(b));
    }
  }

  lemma Reassociate(x: nat, y: nat)
    ensures 10 * (x * y) == (10 * x) * y
  {}
}
