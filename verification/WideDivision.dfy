/**
 * `(work * target + span - 1) / span` in 256 bits, from 128-bit parts. The
 * machine integers are newtypes, so every operation is proved not to overflow;
 * shifts and masks by 64 are written as division, remainder and scaling.
 */
module WideDivision {
  import opened Base

  newtype u64 = x: int | 0 <= x < TWO64
  newtype u128 = x: int | 0 <= x < TWO128

  const B: int := 0x1_0000_0000_0000_0000
  const B128: u128 := 0x1_0000_0000_0000_0000

  /** The number two 128-bit halves stand for. */
  function Wide(lo: u128, hi: u128): nat { lo as int + hi as int * TWO128 }

  lemma MulLe(k: nat, x: nat, y: nat)
    requires x <= y
    ensures k * x <= k * y
  {}

  lemma SplitProduct(aLo: nat, aHi: nat, bLo: nat, bHi: nat)
    ensures (aLo + aHi * B) * (bLo + bHi * B)
         == aLo * bLo + (aLo * bHi) * B + (aHi * bLo) * B + (aHi * bHi) * B * B
  {
    var b := bLo + bHi * B;
    assert (aLo + aHi * B) * b == aLo * b + (aHi * B) * b;
    assert aLo * b == aLo * bLo + (aLo * bHi) * B;
    assert aHi * b == aHi * bLo + (aHi * bHi) * B;
    assert (aHi * B) * b == (aHi * b) * B;
  }

  lemma LimbProduct(x: nat, y: nat)
    requires x < B && y < B
    ensures 0 <= x * y <= (B - 1) * (B - 1)
  {
    MulLe(x, 0, y);
    MulLe(x, y, B - 1);
    MulLe(B - 1, x, B - 1);
    assert x * (B - 1) == (B - 1) * x;
  }

  /** 128 x 128 -> 256: the split multiply loses no carry. */
  function MulU128(a: u128, b: u128): (r: (u128, u128))
    ensures Wide(r.0, r.1) == a as int * b as int
  {
    var aLo, aHi := a % B128, a / B128;
    var bLo, bHi := b % B128, b / B128;
    LimbProduct(aLo as int, bLo as int);
    LimbProduct(aLo as int, bHi as int);
    LimbProduct(aHi as int, bLo as int);
    LimbProduct(aHi as int, bHi as int);
    SplitProduct(aLo as int, aHi as int, bLo as int, bHi as int);
    var ll, lh, hl, hh := aLo * bLo, aLo * bHi, aHi * bLo, aHi * bHi;
    var mid := ll / B128 + lh % B128 + hl % B128;
    // `mid << 64` keeps the low half of `mid`.
    var lo := ll % B128 + (mid % B128) * B128;
    var hi := hh + lh / B128 + hl / B128 + mid / B128;
    (lo, hi)
  }

  lemma HighPartSmall(lo: u128, hi: u128, a: nat, b: nat)
    requires Wide(lo, hi) == a * b && a < TWO128 && b < TWO64
    ensures (hi as int) < TWO64
  {
    MulLe(a, b, TWO64 - 1);
    MulLe(TWO64 - 1, a, TWO128 - 1);
  }

  /** Add into the low half, carrying into the high one. */
  function AddU256(lo: u128, hi: u128, add: u128): (r: (u128, u128))
    requires (hi as int) < TWO128 - 1
    ensures Wide(r.0, r.1) == Wide(lo, hi) + add as int
  {
    var sum := lo as int + add as int;
    if sum >= TWO128 then ((sum - TWO128) as u128, hi + 1) else (sum as u128, hi)
  }

  // ---------------------------------------------------------- long division

  function Limbs(lo: u128, hi: u128): (s: seq<nat>)
    ensures |s| == 4 && forall i :: 0 <= i < 4 ==> s[i] < B
  {
    [lo as int % B, lo as int / B, hi as int % B, hi as int / B]
  }

  /** The number limbs `i` and up stand for. */
  function FromLimb(s: seq<nat>, i: nat): nat
    requires i <= |s|
    decreases |s| - i
  {
    if i == |s| then 0 else s[i] + B * FromLimb(s, i + 1)
  }

  lemma LimbsValue(lo: u128, hi: u128)
    ensures FromLimb(Limbs(lo, hi), 0) == Wide(lo, hi)
  {
    var s := Limbs(lo, hi);
    assert FromLimb(s, 4) == 0;
    assert FromLimb(s, 3) == s[3];
    assert FromLimb(s, 2) == hi as int;
    assert FromLimb(s, 1) == s[1] + B * hi as int;
  }

  /** One digit of the division: the shifted remainder and the quotient digit both fit. */
  lemma DigitFits(rem: nat, limb: nat, d: nat, digit: nat, rem': nat)
    requires rem < d < B && limb < B && rem * B + limb == digit * d + rem'
    ensures rem * B + limb < TWO128 && digit < B
  {
    if digit >= B { MulLe(d, B, digit); }
  }

  lemma DigitStep(above: nat, q: nat, rem: nat, limb: nat, d: nat, digit: nat, rem': nat)
    requires above == q * d + rem && rem * B + limb == digit * d + rem'
    ensures limb + B * above == (digit + B * q) * d + rem'
  {
    assert B * (q * d) == (B * q) * d;
    assert (digit + B * q) * d == digit * d + (B * q) * d;
  }

  lemma QuotientIs(n: nat, q: nat, d: nat, rem: nat)
    requires 0 < d && n == q * d + rem && rem < d
    ensures n / d == q
  {
    var q' := n / d;
    if q' < q {
      MulLe(d, q' + 1, q);
    } else if q' > q {
      MulLe(d, q + 1, q');
    }
  }

  predicate IsLimbs(s: seq<nat>) { |s| == 4 && forall i :: 0 <= i < 4 ==> s[i] < B }

  /** Four limbs back into two halves. */
  function Pack(q: seq<nat>): (r: (u128, u128))
    requires IsLimbs(q)
    ensures Wide(r.0, r.1) == FromLimb(q, 0)
  {
    var lo, hi := (q[0] + q[1] * B) as u128, (q[2] + q[3] * B) as u128;
    assert Limbs(lo, hi) == q;
    LimbsValue(lo, hi);
    (lo, hi)
  }

  /** The division's invariant at limb `i`: the limbs above, divided so far. */
  ghost predicate DividedFrom(limbs: seq<nat>, q: seq<nat>, rem: nat, d: nat, i: nat) {
    && IsLimbs(limbs) && IsLimbs(q) && i <= 4 && rem < d
    && FromLimb(limbs, i) == FromLimb(q, i) * d + rem
  }

  lemma DivideDigit(limbs: seq<nat>, q: seq<nat>, rem: nat, d: nat, i: nat, digit: nat, rem': nat)
    requires d < B && i < 4 && DividedFrom(limbs, q, rem, d, i + 1)
    requires rem * B + limbs[i] == digit * d + rem' && rem' < d
    ensures digit < B && DividedFrom(limbs, q[i := digit], rem', d, i)
  {
    DigitFits(rem, limbs[i], d, digit, rem');
    DigitStep(FromLimb(limbs, i + 1), FromLimb(q, i + 1), rem, limbs[i], d, digit, rem');
    UpdateBelow(q, q[i := digit], i);
  }

  lemma DivMod(n: nat, d: nat)
    requires d > 0
    ensures n == n / d * d + n % d
  {}

  /** The quotient of a 256-bit number, one 64-bit digit at a time from the most significant. */
  method DivU256ByU64(lo: u128, hi: u128, d: u64) returns (qLo: u128, qHi: u128)
    requires d > 0
    ensures Wide(qLo, qHi) == Wide(lo, hi) / d as int
  {
    var limbs: seq<nat> := Limbs(lo, hi);
    var q: seq<nat> := [0, 0, 0, 0];
    var rem: nat := 0;
    var i := 4;
    while i > 0
      invariant 0 <= i <= 4 && DividedFrom(limbs, q, rem, d as int, i)
    {
      i := i - 1;
      var digit, rest := NextDigit(rem, limbs[i], d);
      DivideDigit(limbs, q, rem, d as int, i, digit, rest);
      q, rem := q[i := digit], rest;
    }
    DivisionDone(lo, hi, q, rem, d as int);
    var packed := Pack(q);
    return packed.0, packed.1;
  }

  /** `((rem << 64) | limb) / d` and `% d`, in 128 bits. */
  method NextDigit(rem: nat, limb: nat, d: u64) returns (digit: nat, rest: nat)
    requires rem < d as int && limb < B
    ensures rem * B + limb == digit * d as int + rest && rest < d as int
  {
    var cur := (rem * B + limb) as u128;
    digit, rest := (cur / d as u128) as int, (cur % d as u128) as int;
    DivMod(cur as int, d as int);
  }

  lemma DivisionDone(lo: u128, hi: u128, q: seq<nat>, rem: nat, d: nat)
    requires DividedFrom(Limbs(lo, hi), q, rem, d, 0)
    ensures FromLimb(q, 0) == Wide(lo, hi) / d
  {
    LimbsValue(lo, hi);
    QuotientIs(FromLimb(Limbs(lo, hi), 0), FromLimb(q, 0), d, rem);
  }

  lemma {:induction false} SameAbove(s: seq<nat>, t: seq<nat>, i: nat)
    requires |s| == |t| && i <= |s| && forall j :: i <= j < |s| ==> s[j] == t[j]
    ensures FromLimb(s, i) == FromLimb(t, i)
    decreases |s| - i
  {
    if i < |s| { SameAbove(s, t, i + 1); }
  }

  lemma UpdateBelow(s: seq<nat>, t: seq<nat>, i: nat)
    requires i < |s| && |t| == |s| && forall j :: i < j < |s| ==> s[j] == t[j]
    ensures FromLimb(t, i) == t[i] + B * FromLimb(s, i + 1)
  {
    SameAbove(s, t, i + 1);
  }

  // --------------------------------------------------------------- the whole

  /** The exact ceiling of `work * target / span`, or 0 where it does not fit 128 bits. */
  function CeilOrZero(work: nat, target: nat, span: nat): nat
    requires span > 0
  {
    var c := (work * target + span - 1) / span;
    if c < TWO128 then c else 0
  }

  method CeilDiv256(work: u128, target: u64, span: u64) returns (r: u128)
    requires span > 0
    ensures r as int == CeilOrZero(work as int, target as int, span as int)
  {
    var (lo, hi) := MulU128(work, target as u128);
    HighPartSmall(lo, hi, work as int, target as int);
    var (lo', hi') := AddU256(lo, hi, (span - 1) as u128);
    var qLo, qHi := DivU256ByU64(lo', hi', span);
    r := if qHi != 0 then 0 else qLo;
  }

  /** It is nothing exactly where there is no work, or where no 128-bit number is large enough. */
  lemma ZeroIff(work: nat, target: nat, span: nat)
    requires span > 0
    ensures CeilOrZero(work, target, span) == 0 <==> work * target == 0 || (TWO128 - 1) * span < work * target
  {
    var n := work * target;
    var q := (n + span - 1) / span;
    DivMod(n + span - 1, span);
    if n == 0 {
      QuotientIs(span - 1, 0, span, span - 1);
    } else {
      assert q * span >= n;
      if q >= TWO128 {
        MulLe(span, TWO128, q);
      } else {
        MulLe(span, q, TWO128 - 1);
      }
    }
  }

  /** `CeilOrZero` is the ceiling: the least `c` with `c * span >= work * target`. */
  lemma CeilingIsLeast(work: nat, target: nat, span: nat, c: nat)
    requires span > 0 && CeilOrZero(work, target, span) > 0
    ensures c >= CeilOrZero(work, target, span) <==> c * span >= work * target
  {
    var n := work * target;
    var q := (n + span - 1) / span;
    assert n + span - 1 == q * span + (n + span - 1) % span;
    if c >= q { MulLe(span, q, c); } else { MulLe(span, c, q - 1); assert span * (q - 1) == q * span - span; }
  }
}
