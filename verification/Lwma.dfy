/** The weighted-average difficulty rules of versions 3 and 5, in wrapping machine arithmetic. */
module Lwma {
  import opened Base
  import opened WindowDifficulty
  import opened WideDivision

  const T: nat := 300
  const TWO63: int := 0x8000_0000_0000_0000

  /** The signed 64-bit number that differs from `x` by a multiple of 2^64. */
  function ToI64(x: int): (r: int)
    ensures -TWO63 <= r < TWO63 && (-TWO63 <= x < TWO63 ==> r == x)
    ensures (x - r) % TWO64 == 0
  {
    (x + TWO63) % TWO64 - TWO63
  }

  function SignedDiff(later: int, earlier: int): int { ToI64(later - earlier) }

  /** Signed division as the machine does it: towards zero. */
  function TruncDiv(a: int, b: int): int
    requires b != 0
  {
    if a >= 0 then a / b else -((-a) / b)
  }

  lemma TruncDivOfPositive(a: nat, b: nat)
    requires b > 0
    ensures TruncDiv(a, b) == a / b >= 0
  {}

  // --------------------------------------------------------------- version 3

  const N3: nat := 60

  /** Time to solve block `i`, clamped to [-4T, 6T]. */
  function SolveTime3(ts: seq<nat>, i: nat): (st: int)
    requires 0 < i < |ts|
    ensures -1200 <= st <= 1800
  {
    Max(-1200, Min(SignedDiff(ts[i], ts[i - 1]), 1800))
  }

  function Weighted3(ts: seq<nat>, k: nat): int
    requires k < |ts|
  {
    if k == 0 then 0 else Weighted3(ts, k - 1) + SolveTime3(ts, k) * k
  }

  function LastThree(ts: seq<nat>): int
    requires |ts| > N3
  {
    SolveTime3(ts, N3 - 2) + SolveTime3(ts, N3 - 1) + SolveTime3(ts, N3)
  }

  function Work(cd: seq<nat>, i: nat, j: nat): int
    requires i < |cd| && j < |cd|
  {
    SignedDiff(cd[j], cd[i])
  }

  /** Difficulty of the last block, as the 64-bit code reads it. */
  function Previous3(cd: seq<nat>): int
    requires |cd| > N3
  {
    Work(cd, N3 - 1, N3)
  }

  function Percent(prev: int, p: int): int { TruncDiv(ToI64(prev * p), 100) }

  const SCALE3: nat := 1_811_700 // T * (N3 + 1) * 99

  function Unclamped3(work: int, l: int): int
    requires l != 0
  {
    TruncDiv(ToI64(work * SCALE3), 200 * l)
  }

  function Clamped3(next: int, prev: int, lastThree: int): int {
    var c := Max(Percent(prev, 67), Min(next, Percent(prev, 150)));
    if lastThree < 240 then Max(c, Percent(prev, 108)) else c
  }

  function Step3(work: int, l: int, prev: int, lastThree: int): nat {
    if l == 0 then 1 else Clamped3(Unclamped3(work, l), prev, lastThree) % TWO64
  }

  function RuleV3(ts: seq<nat>, cd: seq<nat>, height: nat, net: Network): nat {
    if IsEarlyTestnet(net, height) then TESTNET_EARLY_DIFFICULTY
    else if |ts| <= N3 || |cd| <= N3 then 1
    else
      Step3(Work(cd, 0, N3), Weighted3(ts, N3), Previous3(cd), LastThree(ts))
  }

  lemma TermBounded(st: int, k: nat)
    requires -1200 <= st <= 1800 && k <= N3
    ensures -72_000 <= st * k <= 108_000
  {
    assert (1800 - st) * k >= 0 && (st + 1200) * k >= 0;
  }

  /** The weighted sum stays far inside 64 bits. */
  lemma {:induction false} Weighted3Bounded(ts: seq<nat>, k: nat)
    requires k < |ts| && k <= N3
    ensures -72_000 * k <= Weighted3(ts, k) <= 108_000 * k
  {
    if k > 0 {
      Weighted3Bounded(ts, k - 1);
      TermBounded(SolveTime3(ts, k), k);
    }
  }

  method NextDifficultyV3(ts: seq<nat>, cd: seq<nat>, height: nat, net: Network) returns (r: nat)
    ensures r == RuleV3(ts, cd, height, net)
  {
    if (net == Testnet || net == Stagenet) && height <= DIFFICULTY_WINDOW { return TESTNET_EARLY_DIFFICULTY; }
    if |ts| < N3 + 1 || |cd| < N3 + 1 { return 1; }
    var l, lastThree := 0, 0;
    for i := 1 to N3 + 1
      invariant l == Weighted3(ts, i - 1) && -TWO63 <= 200 * l < TWO63
      invariant lastThree == (if i > N3 - 2 then SolveTime3(ts, N3 - 2) else 0)
                           + (if i > N3 - 1 then SolveTime3(ts, N3 - 1) else 0)
                           + (if i > N3 then SolveTime3(ts, N3) else 0)
    {
      var st := Max(-1200, Min(SignedDiff(ts[i], ts[i - 1]), 1800));
      l := l + st * i;
      Weighted3Bounded(ts, i);
      if i > N3 - 3 { lastThree := lastThree + st; }
    }
    if l == 0 { return 1; }
    var next := Unclamped3(Work(cd, 0, N3), l);
    var prev := Work(cd, N3 - 1, N3);
    next := Max(Percent(prev, 67), Min(next, Percent(prev, 150)));
    if lastThree < 240 { next := Max(next, Percent(prev, 108)); }
    r := next % TWO64;
  }

  /** Rounds towards zero: the remainder is smaller than the divisor and has the dividend's sign. */
  lemma TruncDivIs(a: int, b: int)
    requires b != 0
    ensures var rem := a - TruncDiv(a, b) * b;
      && (if b > 0 then -b < rem < b else b < rem < -b) && (a >= 0 ==> rem >= 0) && (a <= 0 ==> rem <= 0)
  {
    if a >= 0 {
      assert a == a / b * b + a % b;
    } else {
      assert -a == (-a) / b * b + (-a) % b;
      assert -((-a) / b) * b == -((-a) / b * b);
    }
  }

  /** A solve time is the difference of two timestamps, held between -20 and 30 minutes. */
  lemma SolveTime3Is(ts: seq<nat>, i: nat)
    requires 0 < i < |ts| && -TWO63 <= (ts[i] as int) - (ts[i - 1] as int) < TWO63
    ensures var d := (ts[i] as int) - (ts[i - 1] as int);
      SolveTime3(ts, i) == if d < -1200 then -1200 else if d > 1800 then 1800 else d
  {}

  /** Solve time `i` counts `i` times: moving it alone moves the sum by that much. */
  lemma {:induction false} OneSolveTime3(ts: seq<nat>, ts': seq<nat>, i: nat, k: nat)
    requires |ts| == |ts'| && 0 < i < |ts| && k < |ts|
    requires forall j :: 0 < j < |ts| && j != i ==> SolveTime3(ts', j) == SolveTime3(ts, j)
    ensures Weighted3(ts', k) - Weighted3(ts, k)
         == if k < i then 0 else i * (SolveTime3(ts', i) - SolveTime3(ts, i))
  {
    if k > 0 {
      OneSolveTime3(ts, ts', i, k - 1);
      var a, b := SolveTime3(ts', i), SolveTime3(ts, i);
      if k == i { assert a * i - b * i == i * (a - b); }
    }
  }

  /** The last three solve times, none of them clamped, are the time since the fourth last block. */
  lemma LastThreeIs(ts: seq<nat>)
    requires |ts| > N3
    requires forall i :: 58 <= i <= 60 ==> -1200 <= (ts[i] as int) - (ts[i - 1] as int) <= 1800
    ensures LastThree(ts) == (ts[60] as int) - (ts[57] as int)
  {
    SolveTime3Is(ts, 58);
    SolveTime3Is(ts, 59);
    SolveTime3Is(ts, 60);
  }

  /** The step before clamping, for a weighted time that is positive and a product that fits. */
  lemma Unclamped3Is(work: nat, l: nat)
    requires l > 0 && work * 1_811_700 < TWO63
    ensures Unclamped3(work, l) * (200 * l) <= work * 1_811_700 < (Unclamped3(work, l) + 1) * (200 * l)
  {
    TruncDivOfPositive(work * 1_811_700, 200 * l);
    DivMod(work * 1_811_700, 200 * l);
    assert (Unclamped3(work, l) + 1) * (200 * l) == Unclamped3(work, l) * (200 * l) + 200 * l;
  }

  /** Inside the band the step is kept, outside it is the nearer end; after three fast blocks it is at least 108%. */
  lemma Clamped3Is(next: int, prev: nat, lastThree: int)
    requires prev * 150 < TWO63
    ensures var (lo, hi, fast) := (prev * 67 / 100, prev * 150 / 100, prev * 108 / 100);
      var c := Clamped3(next, prev, lastThree);
      && (lastThree >= 240 ==> c == if next < lo then lo else if next > hi then hi else next)
      && (lastThree < 240 ==> c == if next < fast then fast else if next > hi then hi else next)
  {
    TruncDivOfPositive(prev * 67, 100);
    TruncDivOfPositive(prev * 108, 100);
    TruncDivOfPositive(prev * 150, 100);
  }

  /** What version 3 gives before it measures anything. */
  lemma V3Fixed(ts: seq<nat>, cd: seq<nat>, height: nat, net: Network)
    ensures (net == Testnet || net == Stagenet) && height <= 720 ==> RuleV3(ts, cd, height, net) == 100
    ensures !((net == Testnet || net == Stagenet) && height <= 720) && (|ts| <= 60 || |cd| <= 60) ==>
      RuleV3(ts, cd, height, net) == 1
  {}

  /** The rule is past its shortcuts, and 150% of the last difficulty fits 64 bits. */
  predicate Computes3(ts: seq<nat>, cd: seq<nat>, height: nat, net: Network) {
    && !IsEarlyTestnet(net, height) && |ts| > N3 && |cd| > N3
    && 0 <= Previous3(cd) && Previous3(cd) * 150 < TWO63
  }

  predicate InBand(prev: nat, next: nat) { prev * 67 / 100 <= next <= prev * 150 / 100 }

  lemma ClampBounds(next: int, prev: nat, lastThree: int)
    requires prev * 150 < TWO63
    ensures 0 <= Clamped3(next, prev, lastThree) < TWO64 && InBand(prev, Clamped3(next, prev, lastThree))
    ensures lastThree < 240 ==> prev * 108 / 100 <= Clamped3(next, prev, lastThree)
  {
    TruncDivOfPositive(prev * 67, 100);
    TruncDivOfPositive(prev * 108, 100);
    TruncDivOfPositive(prev * 150, 100);
  }

  /**
   * The step stays in [67%, 150%] of the last difficulty exactly when the weighted
   * time is not zero; a zero weighted time returns 1, which only a last difficulty
   * of 1 or 2 keeps in the band.
   */
  lemma V3StaysInBandIff(ts: seq<nat>, cd: seq<nat>, height: nat, net: Network)
    requires Computes3(ts, cd, height, net)
    ensures InBand(Previous3(cd), RuleV3(ts, cd, height, net))
       <==> Weighted3(ts, N3) != 0 || 1 <= Previous3(cd) <= 2
    ensures Weighted3(ts, N3) != 0 && LastThree(ts) < 240
        ==> Previous3(cd) * 108 / 100 <= RuleV3(ts, cd, height, net)
  {
    StepInBandIff(Work(cd, 0, N3), Weighted3(ts, N3), Previous3(cd), LastThree(ts));
  }

  lemma StepInBandIff(work: int, l: int, prev: nat, lastThree: int)
    requires prev * 150 < TWO63
    ensures InBand(prev, Step3(work, l, prev, lastThree)) <==> l != 0 || 1 <= prev <= 2
    ensures l != 0 && lastThree < 240 ==> prev * 108 / 100 <= Step3(work, l, prev, lastThree)
  {
    if l != 0 { StepInBand(work, l, prev, lastThree); } else { OneInBand(prev); }
  }

  lemma StepInBand(work: int, l: int, prev: nat, lastThree: int)
    requires prev * 150 < TWO63 && l != 0
    ensures InBand(prev, Step3(work, l, prev, lastThree))
    ensures lastThree < 240 ==> prev * 108 / 100 <= Step3(work, l, prev, lastThree)
  {
    ClampBounds(Unclamped3(work, l), prev, lastThree);
    StepIsClamped(work, l, prev, lastThree);
  }

  /** A clamped step that is neither negative nor too wide is the step. */
  lemma StepIsClamped(work: int, l: int, prev: int, lastThree: int)
    requires l != 0 && 0 <= Clamped3(Unclamped3(work, l), prev, lastThree) < TWO64
    ensures Step3(work, l, prev, lastThree) == Clamped3(Unclamped3(work, l), prev, lastThree)
  {
    Narrow(Clamped3(Unclamped3(work, l), prev, lastThree));
  }

  lemma Narrow(x: int)
    requires 0 <= x < TWO64
    ensures x % TWO64 == x
  {}

  lemma OneInBand(prev: nat)
    ensures InBand(prev, 1) <==> 1 <= prev <= 2
  {}

  lemma {:induction false} NoTimePasses(ts: seq<nat>, k: nat)
    requires k < |ts| && forall i :: 0 < i < |ts| ==> ts[i] == ts[i - 1]
    ensures Weighted3(ts, k) == 0
  {
    if k > 0 { NoTimePasses(ts, k - 1); }
  }

  /** The band does fail: equal timestamps bring any difficulty down to 1 in one step. */
  lemma V3EqualTimesCollapse(ts: seq<nat>, cd: seq<nat>, height: nat, net: Network)
    requires Computes3(ts, cd, height, net) && forall i :: 0 < i < |ts| ==> ts[i] == ts[i - 1]
    ensures RuleV3(ts, cd, height, net) == 1
  {
    NoTimePasses(ts, N3);
  }

  lemma {:induction false} SteadyWeight(ts: seq<nat>, k: nat)
    requires k < |ts| && k <= N3 && forall i :: 0 < i < |ts| ==> ts[i] == ts[i - 1] + T
    ensures 2 * Weighted3(ts, k) == T * (k * (k + 1))
  {
    if k > 0 {
      SteadyWeight(ts, k - 1);
      assert k * (k + 1) == (k - 1) * k + 2 * k;
    }
  }

  /** On a steady chain of difficulty `d` the rule gives `d` less one per cent. */
  lemma V3OnSteadyChain(ts: seq<nat>, cd: seq<nat>, height: nat, net: Network, d: nat)
    requires Computes3(ts, cd, height, net) && d * 108_702_000 < TWO63
    requires forall i :: 0 < i < |ts| ==> ts[i] == ts[i - 1] + T
    requires forall i :: 0 < i < |cd| ==> cd[i] == cd[i - 1] + d
    ensures RuleV3(ts, cd, height, net) == d * 99 / 100
  {
    SteadyWeight(ts, N3);
    Spread(cd, d, N3 - 1);
    Spread(cd, d, N3);
    SteadyStep(d);
  }

  lemma SteadyQuotient3(d: nat)
    requires d * 108_702_000 < TWO63
    ensures Unclamped3(60 * d, 549_000) == d * 99 / 100
  {
    var q, rem := d * 99 / 100, d * 99 % 100;
    QuotientIs(d * 108_702_000, q, 109_800_000, 1_098_000 * rem);
    TruncDivOfPositive(d * 108_702_000, 109_800_000);
  }

  lemma SteadyStep(d: nat)
    requires d * 108_702_000 < TWO63
    ensures Step3(60 * d, 549_000, d, 900) == d * 99 / 100
  {
    SteadyQuotient3(d);
    ClampKeeps(d * 99 / 100, d);
  }

  lemma ClampKeeps(x: nat, prev: nat)
    requires prev * 150 < TWO63 && prev * 67 / 100 <= x <= prev * 150 / 100
    ensures Clamped3(x, prev, 900) == x
  {
    TruncDivOfPositive(prev * 67, 100);
    TruncDivOfPositive(prev * 150, 100);
  }

  lemma {:induction false} Spread(cd: seq<nat>, d: nat, k: nat)
    requires k < |cd| && forall i :: 0 < i < |cd| ==> cd[i] == cd[i - 1] + d
    ensures cd[k] == cd[0] + k * d
  {
    if k > 0 {
      Spread(cd, d, k - 1);
      assert k * d == (k - 1) * d + d;
    }
  }

  // ---------------------------------------------------------------- rounding

  const ROUND_FROM: nat := 1_000_000_000

  /** Round to a multiple of the first of `i`, `i/10`, ... that `d` is over a hundred times. */
  function RoundedFrom(d: nat, i: nat): nat {
    if i <= 1 then d
    else if d > i * 100 then (d + i / 2) / i * i
    else RoundedFrom(d, i / 10)
  }

  method ZeroInsignificantDigits(d: nat) returns (r: nat)
    ensures r == RoundedFrom(d, ROUND_FROM)
  {
    r := d;
    var i := ROUND_FROM;
    while i > 1
      invariant r == d && RoundedFrom(d, i) == RoundedFrom(d, ROUND_FROM)
    {
      if r > i * 100 { return (r + i / 2) / i * i; }
      i := i / 10;
    }
  }

  predicate IsPowerOfTen(i: nat) { i == 1 || (i % 10 == 0 && i > 0 && IsPowerOfTen(i / 10)) }

  lemma NearestMultiple(d: nat, i: nat, q: nat)
    requires i > 0 && i % 2 == 0 && q == (d + i / 2) / i
    ensures 2 * d - i < 2 * (q * i) <= 2 * d + i
  {
    DivMod(d + i / 2, i);
  }

  /** Rounding moves a number by less than half a per cent. */
  lemma {:induction false} RoundingIsSlight(d: nat, i: nat)
    requires IsPowerOfTen(i)
    ensures 199 * d <= 200 * RoundedFrom(d, i) <= 201 * d
  {
    if i > 1 {
      if d > i * 100 {
        NearestMultiple(d, i, (d + i / 2) / i);
        HalfAPerCent(d, i, (d + i / 2) / i * i);
      } else {
        RoundingIsSlight(d, i / 10);
      }
    }
  }

  lemma HalfAPerCent(d: nat, i: nat, r: nat)
    requires d > i * 100 && 2 * d - i < 2 * r <= 2 * d + i
    ensures 199 * d <= 200 * r <= 201 * d
  {}

  lemma {:induction false} MultipleStays(q: nat, i: nat, j: nat)
    requires IsPowerOfTen(i) && IsPowerOfTen(j) && j <= i
    ensures RoundedFrom(q * i, j) == q * i
    decreases j
  {
    if j > 1 {
      if q * i > j * 100 {
        Divides(i, j);
        MultipleRounds(q, i / j, i, j);
      } else {
        MultipleStays(q, i, j / 10);
      }
    }
  }

  lemma MultipleRounds(q: nat, k: nat, i: nat, j: nat)
    requires j > 1 && i == k * j
    ensures (q * i + j / 2) / j * j == q * i
  {
    assert q * i == (q * k) * j;
    QuotientIs(q * i + j / 2, q * k, j, j / 2);
  }

  lemma {:induction false} Divides(i: nat, j: nat)
    requires IsPowerOfTen(i) && IsPowerOfTen(j) && j <= i
    ensures i / j * j == i
  {
    if j == i {
      QuotientIs(i, 1, j, 0);
    } else {
      SmallerPower(i, j);
      Divides(i / 10, j);
      var k := i / 10 / j;
      assert i == 10 * (i / 10) == 10 * (k * j) == (10 * k) * j;
      QuotientIs(i, 10 * k, j, 0);
    }
  }

  lemma {:induction false} SmallerPower(i: nat, j: nat)
    requires IsPowerOfTen(i) && IsPowerOfTen(j) && j < i
    ensures i > 1 && j <= i / 10
    decreases j
  {
    if j > 1 { SmallerPower(i / 10, j / 10); }
  }

  /** Rounding a rounded number changes nothing. */
  lemma {:induction false} RoundingIsIdempotent(d: nat, i: nat, top: nat)
    requires IsPowerOfTen(i) && IsPowerOfTen(top) && i <= top
    requires i == top || d <= i * 1000
    ensures RoundedFrom(RoundedFrom(d, i), top) == RoundedFrom(d, i)
    decreases i
  {
    var r := RoundedFrom(d, i);
    if i == 1 {
      Unrounded(d, top, 1);
    } else if d > i * 100 {
      var q := (d + i / 2) / i;
      NearestMultiple(d, i, q);
      if i < top {
        DivMod(d + i / 2, i);
        AtMostThousand(d + i / 2, i, q);
        Unrounded(r, top, i);
      }
      MultipleStays(q, i, i);
    } else {
      RoundingIsIdempotent(d, i / 10, top);
    }
  }

  lemma AtMostThousand(n: nat, i: nat, q: nat)
    requires i > 1 && 2 * n <= 2001 * i && q * i <= n
    ensures q * i <= 1000 * i
  {
    if q > 1000 { MulLe(i, 1001, q); } else { MulLe(i, q, 1000); }
  }

  /** Units a number is too small for are passed over. */
  lemma {:induction false} Unrounded(d: nat, top: nat, i: nat)
    requires IsPowerOfTen(i) && IsPowerOfTen(top) && i <= top && (i == top || d <= i * 1000)
    ensures RoundedFrom(d, top) == RoundedFrom(d, i)
    decreases top
  {
    if i < top {
      SmallerPower(top, i);
      Unrounded(d, top / 10, i);
    }
  }

  /** Up to a thousand nothing is rounded; past that to the nearest multiple of the unit, halves up. */
  lemma RoundsToUnit(d: nat, i: nat)
    requires IsPowerOfTen(i) && 1 < i <= ROUND_FROM && i * 100 < d && (i == ROUND_FROM || d <= i * 1000)
    ensures var r := RoundedFrom(d, ROUND_FROM);
      r % i == 0 && 2 * d - i < 2 * r <= 2 * d + i
  {
    assert IsPowerOfTen(ROUND_FROM);
    Unrounded(d, ROUND_FROM, i);
    RoundedAt(d, i);
  }

  lemma RoundedAt(d: nat, i: nat)
    requires IsPowerOfTen(i) && i > 1 && i * 100 < d
    ensures var r := RoundedFrom(d, i); r % i == 0 && 2 * d - i < 2 * r <= 2 * d + i
  {
    DivMod(i, 10);
    EvenUnit(i, 5 * (i / 10));
    UnitRounding(d, i, RoundedFrom(d, i));
  }

  lemma EvenUnit(i: nat, k: nat)
    requires i == 2 * k
    ensures i % 2 == 0
  {}

  lemma UnitRounding(d: nat, i: nat, r: nat)
    requires i > 0 && i % 2 == 0 && r == (d + i / 2) / i * i
    ensures r % i == 0 && 2 * d - i < 2 * r <= 2 * d + i
  {
    NearestMultiple(d, i, (d + i / 2) / i);
    MultipleOf((d + i / 2) / i, i);
  }

  lemma MultipleOf(q: nat, i: nat)
    requires i > 0
    ensures q * i % i == 0
  {
    DivMod(q * i, i);
    QuotientIs(q * i, q, i, 0);
  }

  lemma SmallIsNotRounded(d: nat)
    requires d <= 1000
    ensures RoundedFrom(d, ROUND_FROM) == d
  {
    assert IsPowerOfTen(ROUND_FROM) && IsPowerOfTen(1);
    Unrounded(d, ROUND_FROM, 1);
  }

  // --------------------------------------------------------------- version 5

  const N5: nat := 144
  const SCALE: nat := 620_136_000 // N5 * (N5 + 1) * T * 99
  const FLOOR5: nat := 311_040 // N5 * N5 * T / 20

  /** The timestamp block `i` is taken to have: later than the one before, modulo 2^64. */
  function Moved(ts: seq<nat>, i: nat): nat
    requires i < |ts|
  {
    if i == 0 then (ts[0] - T) % TWO64
    else
      var previous := Moved(ts, i - 1);
      if ts[i] > previous then ts[i] else (previous + 1) % TWO64
  }

  /** Wraps as the unsigned subtraction does. */
  function SolveTime5(previous: nat, current: nat): nat { Min(6 * T, (current - previous) % TWO64) }

  function Weighted5(ts: seq<nat>, k: nat): nat
    requires k < |ts|
  {
    if k == 0 then 0 else Weighted5(ts, k - 1) + k * SolveTime5(Moved(ts, k - 1), Moved(ts, k))
  }

  /** 200 times the weighted time, which is not let below its floor. */
  function Denominator5(ts: seq<nat>): (den: nat)
    requires |ts| > N5
    ensures den >= 62_208_000
  {
    200 * Max(Weighted5(ts, N5), FLOOR5)
  }

  function Override5(height: nat, net: Network): Option<nat> {
    if IsEarlyTestnet(net, height) then Some(TESTNET_EARLY_DIFFICULTY)
    else if net != Mainnet then None
    else if 81_769 <= height < 81_769 + N5 then Some(10_000_000)
    else if height == 307_686 then Some(25_800_000)
    else if height == 307_692 then Some(1_890_000)
    else if height == 307_735 then Some(17_900_000)
    else if height == 307_742 then Some(21_300_000)
    else if height == 307_750 then Some(10_900_000)
    else if height == 307_766 then Some(2_960_000)
    else None
  }

  /** Mean difficulty over the window. */
  function Average5(cd: seq<nat>): nat
    requires |cd| > N5
  {
    WrappingSub(cd[N5], cd[0]) / N5
  }

  function DivideThenScale(avg: nat, den: nat): nat
    requires den > 0
  {
    avg / den * SCALE % TWO128
  }

  function ScaleThenDivide(avg: nat, den: nat): nat
    requires den > 0
  {
    avg * SCALE % TWO128 / den
  }

  const GUARD_BEFORE: nat := 12_441_600_000_000 // 2_000_000 * N5 * N5 * T
  const GUARD_AFTER: nat := U64_MAX / SCALE
  const GUARD_CHANGE: nat := 307_800

  /** Divides first where the product might not fit, by a guard that changed at one height. */
  function Scaled5(avg: nat, den: nat, height: nat): nat
    requires den > 0
  {
    if avg > GUARD_BEFORE && height < GUARD_CHANGE then DivideThenScale(avg, den)
    else if avg > GUARD_AFTER && height > GUARD_CHANGE then DivideThenScale(avg, den)
    else ScaleThenDivide(avg, den)
  }

  function RuleV5(ts: seq<nat>, cd: seq<nat>, height: nat, net: Network): nat {
    match Override5(height, net)
    case Some(d) => d
    case None =>
      if |ts| <= N5 || |cd| <= N5 then 1
      else RoundedFrom(Scaled5(Average5(cd), Denominator5(ts), height), ROUND_FROM)
  }

  method NextDifficultyV5(ts: seq<nat>, cd: seq<nat>, height: nat, net: Network) returns (r: nat)
    ensures r == RuleV5(ts, cd, height, net)
  {
    var fixed := Override5(height, net);
    if fixed.Some? { return fixed.value; }
    if |ts| < N5 + 1 || |cd| < N5 + 1 { return 1; }
    var l := 0;
    var previous := (ts[0] - T) % TWO64;
    for i := 1 to N5 + 1
      invariant previous == Moved(ts, i - 1) && l == Weighted5(ts, i - 1)
    {
      var current := if ts[i] > previous then ts[i] else (previous + 1) % TWO64;
      l := l + i * Min(6 * T, (current - previous) % TWO64);
      previous := current;
    }
    if l < FLOOR5 { l := FLOOR5; }
    var next := Scaled5(Average5(cd), 200 * l, height);
    r := ZeroInsignificantDigits(next);
  }

  /** A timestamp counts as it is when it is later than the one before, and as one second later otherwise. */
  lemma MovedIs(ts: seq<nat>, i: nat)
    requires 0 < i < |ts| && Moved(ts, i - 1) < U64_MAX
    ensures Moved(ts, i) == if ts[i] > Moved(ts, i - 1) then ts[i] else Moved(ts, i - 1) + 1
    ensures Moved(ts, i) > Moved(ts, i - 1)
  {}

  /** Solve time `i` counts `i` times. */
  lemma {:induction false} OneSolveTime5(ts: seq<nat>, ts': seq<nat>, i: nat, k: nat)
    requires |ts| == |ts'| && 0 < i < |ts| && k < |ts|
    requires forall j :: 0 < j < |ts| && j != i ==> Solve5(ts', j) == Solve5(ts, j)
    ensures (Weighted5(ts', k) as int) - (Weighted5(ts, k) as int)
         == if k < i then 0 else i * ((Solve5(ts', i) as int) - (Solve5(ts, i) as int))
  {
    if k > 0 {
      OneSolveTime5(ts, ts', i, k - 1);
      WeightedStep5(ts, k);
      WeightedStep5(ts', k);
      if k == i { Distribute(i, Solve5(ts', i), Solve5(ts, i)); }
    }
  }

  lemma WeightedStep5(ts: seq<nat>, k: nat)
    requires 0 < k < |ts|
    ensures Weighted5(ts, k) == Weighted5(ts, k - 1) + k * Solve5(ts, k)
  {}

  lemma Distribute(i: int, a: int, b: int)
    ensures i * (a - b) == i * a - i * b
  {}

  function Solve5(ts: seq<nat>, i: nat): nat
    requires 0 < i < |ts|
  {
    SolveTime5(Moved(ts, i - 1), Moved(ts, i))
  }

  /** What version 5 has written down, and what a chain too short to measure gets. */
  lemma V5Fixed(ts: seq<nat>, cd: seq<nat>, height: nat, net: Network)
    ensures (net == Testnet || net == Stagenet) && height <= 720 ==> RuleV5(ts, cd, height, net) == 100
    ensures net == Mainnet ==>
      && (81_769 <= height <= 81_912 ==> RuleV5(ts, cd, height, net) == 10_000_000)
      && (height == 307_686 ==> RuleV5(ts, cd, height, net) == 25_800_000)
      && (height == 307_692 ==> RuleV5(ts, cd, height, net) == 1_890_000)
      && (height == 307_735 ==> RuleV5(ts, cd, height, net) == 17_900_000)
      && (height == 307_742 ==> RuleV5(ts, cd, height, net) == 21_300_000)
      && (height == 307_750 ==> RuleV5(ts, cd, height, net) == 10_900_000)
      && (height == 307_766 ==> RuleV5(ts, cd, height, net) == 2_960_000)
    ensures Override5(height, net) == None && (|ts| <= 144 || |cd| <= 144) ==> RuleV5(ts, cd, height, net) == 1
    ensures Override5(height, net) == None <==>
      && !((net == Testnet || net == Stagenet) && height <= 720)
      && (net == Mainnet ==>
            !(81_769 <= height <= 81_912) && height !in {307_686, 307_692, 307_735, 307_742, 307_750, 307_766})
  {}

  // --------------------------------------------------- version 5, steady chain

  /** Blocks five minutes apart, each of difficulty `d`; the first not too near zero to subtract a target. */
  ghost predicate IsSteady5(ts: seq<nat>, cd: seq<nat>, d: nat) {
    && |ts| > N5 && |cd| > N5 && ts[0] >= 300
    && (forall i :: 0 < i < |ts| ==> ts[i] == ts[i - 1] + 300)
    && (forall i :: 0 < i < |cd| ==> cd[i] == cd[i - 1] + d)
  }

  lemma {:induction false} SteadyMoves(ts: seq<nat>, cd: seq<nat>, d: nat, k: nat)
    requires IsSteady5(ts, cd, d) && k < |ts| && ts[0] < TWO64
    ensures Moved(ts, k) == if k == 0 then ts[0] - 300 else ts[k]
  {
    if k > 0 { SteadyMoves(ts, cd, d, k - 1); }
  }

  /** The first solve time is two targets, since it is taken from one before the first stamp. */
  lemma {:induction false} SteadyWeight5(ts: seq<nat>, cd: seq<nat>, d: nat, k: nat)
    requires IsSteady5(ts, cd, d) && k < |ts| && ts[0] < TWO64
    ensures Weighted5(ts, k) == if k == 0 then 0 else 150 * (k * (k + 1)) + 300
  {
    if k > 0 {
      SteadyWeight5(ts, cd, d, k - 1);
      SteadySolve(ts, cd, d, k);
      WeightedStep5(ts, k);
      assert k * (k + 1) == (k - 1) * k + 2 * k;
    }
  }

  lemma SteadySolve(ts: seq<nat>, cd: seq<nat>, d: nat, k: nat)
    requires IsSteady5(ts, cd, d) && 0 < k < |ts| && ts[0] < TWO64
    ensures Solve5(ts, k) == if k == 1 then 600 else 300
  {
    SteadyMoves(ts, cd, d, k - 1);
    SteadyMoves(ts, cd, d, k);
  }

  lemma SteadyDenominator5(ts: seq<nat>, cd: seq<nat>, d: nat)
    requires IsSteady5(ts, cd, d) && ts[0] < TWO64
    ensures Denominator5(ts) == 626_460_000
  {
    SteadyWeight5(ts, cd, d, N5);
  }

  lemma SteadyAverage5(ts: seq<nat>, cd: seq<nat>, d: nat)
    requires IsSteady5(ts, cd, d) && cd[N5] < TWO128
    ensures Average5(cd) == d && d * 144 < TWO128
  {
    Spread(cd, d, N5);
    DivideOut(d);
  }

  lemma DivideOut(d: nat)
    ensures d * 144 / 144 == d
  {}

  /** Which of the two orders of multiplying and dividing a difficulty and a height get. */
  predicate DividesFirst(d: nat, height: nat) {
    (d > 12_441_600_000_000 && height < 307_800) || (d > 29_746_288_029 && height > 307_800)
  }

  lemma StepOf(avg: nat, den: nat, height: nat)
    requires den > 0 && avg * 144 < TWO128
    requires !DividesFirst(avg, height) ==> avg * 620_136_000 < TWO128
    ensures Scaled5(avg, den, height)
         == if DividesFirst(avg, height) then avg / den * 620_136_000 % TWO128 else avg * 620_136_000 / den
  {
    assert GUARD_AFTER == 29_746_288_029;
    if !DividesFirst(avg, height) { ProductFits(avg * SCALE, den); }
  }

  /** On a steady chain version 5 gives 620 136 000 in 626 460 000 of the difficulty, rounded. */
  lemma V5OnSteadyChain(ts: seq<nat>, cd: seq<nat>, height: nat, net: Network, d: nat)
    requires Override5(height, net) == None && IsSteady5(ts, cd, d) && ts[0] < TWO64 && cd[N5] < TWO128
    requires height == 307_800 ==> d * 620_136_000 < TWO128
    ensures RuleV5(ts, cd, height, net) == RoundedFrom(
      if DividesFirst(d, height) then d / 626_460_000 * 620_136_000 else d * 620_136_000 / 626_460_000, ROUND_FROM)
  {
    SteadyDenominator5(ts, cd, d);
    SteadyAverage5(ts, cd, d);
    StepOf(d, 626_460_000, height);
    StaysNarrow(d);
  }

  lemma StaysNarrow(d: nat)
    requires d * 144 < TWO128
    ensures d / 626_460_000 * 620_136_000 % TWO128 == d / 626_460_000 * 620_136_000
  {}

  lemma {:induction false} Weighted5Bounded(ts: seq<nat>, k: nat)
    requires k < |ts|
    ensures 2 * Weighted5(ts, k) <= 1800 * (k * (k + 1))
  {
    if k > 0 {
      Weighted5Bounded(ts, k - 1);
      MulLe(k, SolveTime5(Moved(ts, k - 1), Moved(ts, k)), 1800);
      assert k * (k + 1) == (k - 1) * k + 2 * k;
    }
  }

  /** However the timestamps run, the denominator stays below this. */
  lemma DenominatorBounded(ts: seq<nat>)
    requires |ts| > N5
    ensures Denominator5(ts) <= 3_758_400_000
  {
    Weighted5Bounded(ts, N5);
  }

  lemma QuotientBounds(n: nat, den: nat, q: nat)
    requires 62_208_000 <= den <= 3_758_400_000 && q == n / den
    ensures 62_208_000 * q <= n < 3_758_400_000 * (q + 1)
  {
    DivMod(n, den);
    MulLe(q, 62_208_000, den);
    MulLe(q + 1, den, 3_758_400_000);
    assert (q + 1) * den == q * den + den;
  }

  /** Seven times the step exceeds the average even after rounding; it is under 9.97 averages. */
  predicate Near(avg: nat, next: nat) {
    62_208_000 * next <= SCALE * avg && 200 * avg < 7 * (199 * next + 200)
  }

  lemma DivisionFirst(avg: nat, den: nat)
    requires 62_208_000 <= den <= 3_758_400_000 && GUARD_AFTER < avg <= TWO128 / N5
    ensures Near(avg, DivideThenScale(avg, den))
  {
    var q := avg / den;
    QuotientBounds(avg, den, q);
    assert q >= 7;
    assert q * SCALE < TWO128;
  }

  lemma ProductFits(n: nat, den: nat)
    requires den > 0 && n < TWO128
    ensures n % TWO128 / den == n / den
  {}

  lemma ProductFirst(avg: nat, den: nat)
    requires 62_208_000 <= den <= 3_758_400_000 && avg * SCALE < TWO128
    ensures Near(avg, ScaleThenDivide(avg, den))
  {
    ProductFits(avg * SCALE, den);
    QuotientBounds(avg * SCALE, den, ScaleThenDivide(avg, den));
  }

  /** All three branches, before rounding. */
  lemma ScaledBounds(avg: nat, den: nat, height: nat)
    requires 62_208_000 <= den <= 3_758_400_000 && avg <= TWO128 / N5
    requires height == GUARD_CHANGE ==> avg * SCALE < TWO128
    ensures Near(avg, Scaled5(avg, den, height))
  {
    if avg > GUARD_BEFORE && height < GUARD_CHANGE {
      DivisionFirst(avg, den);
    } else if avg > GUARD_AFTER && height > GUARD_CHANGE {
      DivisionFirst(avg, den);
    } else {
      ProductFirst(avg, den);
    }
  }

  /** More than a seventh of the average, less one, and at most 10.02 times it. */
  predicate InBand5(avg: nat, next: nat) { 100 * next <= 1002 * avg && avg < 7 * (next + 1) }

  /** Rounding keeps a step that is near the average in the band. */
  lemma RoundedInBand(avg: nat, next: nat)
    requires Near(avg, next)
    ensures InBand5(avg, RoundedFrom(next, ROUND_FROM))
  {
    assert IsPowerOfTen(ROUND_FROM);
    RoundingIsSlight(next, ROUND_FROM);
  }

  /** A quotient of anything up to the exact product is at most 9.97 averages, at any height. */
  lemma ScaledAtMost(avg: nat, den: nat, height: nat)
    requires den >= 62_208_000
    ensures 62_208_000 * Scaled5(avg, den, height) <= SCALE * avg
  {
    WrapsNoMore(avg / den * SCALE);
    WrapsNoMore(avg * SCALE);
    DivMod(avg, den);
    DivMod(avg * SCALE % TWO128, den);
    MulLe(avg / den, 62_208_000, den);
    MulLe(avg * SCALE % TWO128 / den, 62_208_000, den);
  }

  lemma WrapsNoMore(n: nat)
    ensures n % TWO128 <= n
  {}

  /** The step is never above 10.02 averages: no height, timestamps or difficulty is excepted. */
  lemma V5NeverFarAbove(ts: seq<nat>, cd: seq<nat>, height: nat, net: Network)
    requires Override5(height, net) == None && |ts| > N5 && |cd| > N5
    ensures 100 * RuleV5(ts, cd, height, net) <= 1002 * Average5(cd)
  {
    var next := Scaled5(Average5(cd), Denominator5(ts), height);
    ScaledAtMost(Average5(cd), Denominator5(ts), height);
    assert IsPowerOfTen(ROUND_FROM);
    RoundingIsSlight(next, ROUND_FROM);
  }

  /** The guards keep the product in 128 bits, except at the one height neither of them covers. */
  predicate ProductFits5(cd: seq<nat>, height: nat)
    requires |cd| > N5
  {
    height != GUARD_CHANGE || Average5(cd) * SCALE < TWO128
  }

  lemma V5StaysNearAverage(ts: seq<nat>, cd: seq<nat>, height: nat, net: Network)
    requires Override5(height, net) == None && |ts| > N5 && |cd| > N5 && ProductFits5(cd, height)
    ensures InBand5(Average5(cd), RuleV5(ts, cd, height, net))
  {
    DenominatorBounded(ts);
    ScaledBounds(Average5(cd), Denominator5(ts), height);
    RoundedInBand(Average5(cd), Scaled5(Average5(cd), Denominator5(ts), height));
  }

  // ------------------------------------------------- where the product wraps

  /** Timestamps whose solve times are all at the cap. */
  function SlowTimes(): seq<nat> { seq(N5 + 1, i => if i == 0 then T else 6 * T * i) }

  lemma {:induction false} SlowMoves(k: nat)
    requires k <= N5
    ensures Moved(SlowTimes(), k) == 6 * T * k
    decreases k
  {
    if k > 0 { SlowMoves(k - 1); }
  }

  lemma {:induction false} SlowWeight(k: nat)
    requires k <= N5
    ensures Weighted5(SlowTimes(), k) == 900 * (k * (k + 1))
    decreases k
  {
    if k > 0 {
      SlowWeight(k - 1);
      SlowSolve(k);
      assert k * (k + 1) == (k - 1) * k + 2 * k;
    }
  }

  lemma SlowSolve(k: nat)
    requires 0 < k <= N5
    ensures SolveTime5(Moved(SlowTimes(), k - 1), Moved(SlowTimes(), k)) == 1800
  {
    SlowMoves(k - 1);
    SlowMoves(k);
  }

  lemma SlowDenominator()
    ensures Denominator5(SlowTimes()) == 3_758_400_000
  {
    SlowWeight(N5);
  }

  lemma WrappedIsHalf(n: nat, p: nat)
    requires n >= TWO128 && p == n % TWO128
    ensures 2 * p < n
  {}

  /** At the largest denominator a product that wraps always falls below the band. */
  lemma WrappedMissesBand(avg: nat)
    requires avg * SCALE >= TWO128
    ensures !InBand5(avg, RoundedFrom(ScaleThenDivide(avg, 3_758_400_000), ROUND_FROM))
  {
    var p := avg * SCALE % TWO128;
    var next := ScaleThenDivide(avg, 3_758_400_000);
    WrappedIsHalf(avg * SCALE, p);
    DivMod(p, 3_758_400_000);
    assert IsPowerOfTen(ROUND_FROM);
    RoundingIsSlight(next, ROUND_FROM);
  }

  /**
   * Outside the overrides the step stays in the band for every timestamp sequence
   * exactly when the product fits: at every height but one it always does.
   */
  lemma V5InBandIff(cd: seq<nat>, height: nat, net: Network)
    requires Override5(height, net) == None && |cd| > N5
    ensures (forall ts: seq<nat> :: |ts| > N5 ==> InBand5(Average5(cd), RuleV5(ts, cd, height, net)))
            <==> ProductFits5(cd, height)
  {
    if ProductFits5(cd, height) {
      forall ts: seq<nat> | |ts| > N5 ensures InBand5(Average5(cd), RuleV5(ts, cd, height, net)) {
        V5StaysNearAverage(ts, cd, height, net);
      }
    } else {
      SlowDenominator();
      WrappedMissesBand(Average5(cd));
      assert !InBand5(Average5(cd), RuleV5(SlowTimes(), cd, height, net));
    }
  }
}
