/** A block template: the transactions chosen, and a coinbase whose weight agrees with its reward. */
module TemplateBuild {
  import opened Base
  import opened PoolModel
  import opened Emission
  import opened TemplateFill
  import opened WideDivision

  const COINBASE_BLOB_RESERVED_SIZE: nat := 600
  const MAX_RESERVE_SIZE: nat := 255
  const WEIGHT_ROUNDS: nat := 10
  const HF_VERSION_MIN_V2_COINBASE_TX: nat := 15
  const HF_VERSION_VIEW_TAGS: nat := 20

  /** The next block's height and version, and the median and supply it is judged by. */
  datatype Next = Next(height: nat, version: nat, median: nat, coins: nat)
  {
    predicate Valid() { height < TWO64 && median < TWO64 && coins <= MONEY_SUPPLY }

    function Median(): nat { EffectiveMedian(median, version) }

    function Base(): nat
      requires Valid()
    {
      BaseReward(coins)
    }

    function Reward(weight: nat): Option<nat>
      requires Valid()
    {
      match GetBlockReward(median, weight, coins, version)
      case Ok(r) => Some(r)
      case Err(_) => None
    }

    /** The weight left to transactions once the coinbase's share is set aside. */
    function MaxWeight(): nat { SatSub(Twice(median), COINBASE_BLOB_RESERVED_SIZE) }
  }

  // -------------------------------------------------------- the coinbase's size

  /** Bytes of a base-128 varint. */
  function VarintLen(v: nat): (n: nat)
    ensures n >= 1
  {
    if v < 128 then 1 else 1 + VarintLen(v / 128)
  }

  function Pow128(k: nat): nat { if k == 0 then 1 else 128 * Pow128(k - 1) }

  /** A varint takes at most `k` bytes exactly when its value is below 128^k. */
  lemma {:induction false} VarintLenIff(v: nat, k: nat)
    requires k >= 1
    ensures VarintLen(v) <= k <==> v < Pow128(k)
    decreases k
  {
    if k == 1 {
      assert Pow128(1) == 128 * Pow128(0) == 128;
    } else {
      VarintLenIff(v / 128, k - 1);
      assert v < 128 ==> Pow128(k) >= 128 by { PowPositive(k - 1); }
    }
  }

  lemma {:induction false} PowPositive(k: nat)
    ensures Pow128(k) >= 1
  {
    if k > 0 { PowPositive(k - 1); }
  }

  lemma VarintOfU64(v: nat)
    requires v < TWO64
    ensures VarintLen(v) <= 10
  {
    assert Pow128(10) > TWO64;
    VarintLenIff(v, 10);
  }

  lemma {:induction false} VarintGrows(a: nat, b: nat)
    requires a <= b
    ensures VarintLen(a) <= VarintLen(b)
    decreases b
  {
    if a >= 128 { VarintGrows(a / 128, b / 128); }
  }

  /** Less than 128 times the value costs at most one more byte. */
  lemma OneMoreByte(small: nat, large: nat)
    requires large <= 3 * small + 2
    ensures VarintLen(large) <= VarintLen(small) + 1
  {
    VarintGrows(large / 128, small);
  }

  /** What fixes the size of a coinbase, all but its amount. */
  datatype Shape = Shape(txVersion: nat, unlockTime: nat, height: nat, tagged: bool, nonceLen: nat)
  {
    predicate Valid() { 1 <= txVersion <= 2 && unlockTime < TWO64 && height < TWO64 && nonceLen <= MAX_RESERVE_SIZE }

    /** Public key, then the nonce with its tag and one-byte length when there is one. */
    function ExtraLen(): nat { 33 + if nonceLen > 0 then 2 + nonceLen else 0 }

    /** Bytes of the blob but the amount's: one generating input, one output, extra, the null signature. */
    function Fixed(): nat {
      VarintLen(txVersion) + VarintLen(unlockTime)
      + 1 + 1 + VarintLen(height)
      + 1 + 1 + 32 + (if tagged then 1 else 0)
      + VarintLen(ExtraLen()) + ExtraLen()
      + (if txVersion >= 2 then 1 else 0)
    }

    function Size(amount: nat): nat { Fixed() + VarintLen(amount) }
  }

  const COINBASE_MAX: nat := 361

  /** A coinbase is never near the reserve of 600 bytes kept for it. */
  lemma CoinbaseFitsReserve(c: Shape, amount: nat)
    requires c.Valid() && amount < TWO64
    ensures 0 < c.Size(amount) <= COINBASE_MAX < COINBASE_BLOB_RESERVED_SIZE
  {
    FixedFits(c);
    VarintOfU64(amount);
  }

  lemma FixedFits(c: Shape)
    requires c.Valid()
    ensures 0 < c.Fixed() <= COINBASE_MAX - 10
  {
    VarintOfU64(c.unlockTime);
    VarintOfU64(c.height);
    VarintGrows(c.ExtraLen(), 290);
    assert VarintLen(290) == 2;
  }

  /** The genesis coinbases measure as their blobs do: 79 bytes on mainnet, 80 on the test networks. */
  lemma GenesisCoinbaseSizes()
    ensures Shape(1, 60, 0, false, 0).Size(GenesisClaim(Mainnet)) == 79
    ensures Shape(1, 60, 0, false, 0).Size(GenesisClaim(Testnet)) == 80
  {
    assert Pow128(5) == 0x8_0000_0000 && Pow128(6) == 0x400_0000_0000 && Pow128(7) == 0x2_0000_0000_0000;
    VarintLenIff(GenesisClaim(Mainnet), 5);
    VarintLenIff(GenesisClaim(Mainnet), 6);
    VarintLenIff(GenesisClaim(Testnet), 6);
    VarintLenIff(GenesisClaim(Testnet), 7);
    assert VarintLen(33) == VarintLen(60) == VarintLen(0) == VarintLen(1) == 1;
  }

  /** A nonce costs its bytes, its tag, its length byte, and a second length byte once the extra passes 127. */
  lemma NonceCosts(c: Shape, n: nat, amount: nat)
    requires 0 < n <= MAX_RESERVE_SIZE && c.nonceLen == 0
    ensures c.(nonceLen := n).Size(amount) == c.Size(amount) + n + 2 + if n >= 93 then 1 else 0
  {
    assert Pow128(1) == 128 && Pow128(2) == 16_384;
    VarintLenIff(35 + n, 1);
    VarintLenIff(35 + n, 2);
    assert VarintLen(33) == 1;
  }

  // ------------------------------------------------------------ the weight loop

  datatype Outcome = OverWeight | Unsettled | Settled(coinbaseWeight: nat, amount: nat)

  /** One reward at the weight guessed, one coinbase measured, until the two agree. */
  function SettleFrom(next: Next, c: Shape, weight: nat, fees: nat, guess: nat, rounds: nat): Outcome
    requires next.Valid()
    decreases rounds
  {
    if rounds == 0 then Unsettled
    else
      match next.Reward(weight + guess)
      case None => OverWeight
      case Some(base) =>
        var amount := SatAdd64(base, fees);
        if c.Size(amount) == guess then Settled(guess, amount)
        else SettleFrom(next, c, weight, fees, c.Size(amount), rounds - 1)
  }

  method Settle(next: Next, c: Shape, weight: nat, fees: nat, rounds: nat) returns (r: Outcome)
    requires next.Valid()
    ensures r == SettleFrom(next, c, weight, fees, 0, rounds)
  {
    var coinbaseWeight: nat := 0;
    for round := 0 to rounds
      invariant SettleFrom(next, c, weight, fees, coinbaseWeight, rounds - round)
             == SettleFrom(next, c, weight, fees, 0, rounds)
    {
      var base := next.Reward(weight + coinbaseWeight);
      if base.None? { return OverWeight; }
      var amount := SatAdd64(base.value, fees);
      var measured := c.Size(amount);
      if measured == coinbaseWeight { return Settled(coinbaseWeight, amount); }
      coinbaseWeight := measured;
    }
    r := Unsettled;
  }

  /** A settled coinbase weighs what it was given for, and pays the reward at that weight. */
  lemma {:induction false} SettledAgrees(next: Next, c: Shape, weight: nat, fees: nat, guess: nat, rounds: nat)
    requires next.Valid()
    ensures match SettleFrom(next, c, weight, fees, guess, rounds)
      case Settled(w, amount) =>
        next.Reward(weight + w).Some? && amount == SatAdd64(next.Reward(weight + w).value, fees) && c.Size(amount) == w
      case _ => true
    decreases rounds
  {
    if rounds > 0 && next.Reward(weight + guess).Some? {
      var amount := SatAdd64(next.Reward(weight + guess).value, fees);
      SettledAgrees(next, c, weight, fees, c.Size(amount), rounds - 1);
    }
  }

  /** Room for the coinbase beside the transactions the fill may choose. */
  predicate Roomy(next: Next, weight: nat) { weight == 0 || weight <= next.MaxWeight() }

  lemma RewardIsPaid(next: Next, weight: nat, guess: nat)
    requires next.Valid() && Roomy(next, weight) && guess <= COINBASE_MAX
    ensures next.Reward(weight + guess).Some?
  {
    var m := next.Median();
    assert weight + guess <= m || weight + guess <= Twice(m);
  }

  lemma {:induction false} NeverOverWeight(next: Next, c: Shape, weight: nat, fees: nat, guess: nat, rounds: nat)
    requires next.Valid() && c.Valid() && Roomy(next, weight) && guess <= COINBASE_MAX
    ensures SettleFrom(next, c, weight, fees, guess, rounds) != OverWeight
    decreases rounds
  {
    if rounds > 0 {
      RewardIsPaid(next, weight, guess);
      var amount := SatAdd64(next.Reward(weight + guess).value, fees);
      CoinbaseFitsReserve(c, amount);
      NeverOverWeight(next, c, weight, fees, c.Size(amount), rounds - 1);
    }
  }

  /** Below the penalty zone the reward does not move, and the second round settles. */
  lemma SettlesInTwo(next: Next, c: Shape, weight: nat, fees: nat, rounds: nat)
    requires next.Valid() && c.Valid() && weight + COINBASE_MAX <= next.Median() && rounds >= 2
    ensures var amount := SatAdd64(next.Base(), fees);
      SettleFrom(next, c, weight, fees, 0, rounds) == Settled(c.Size(amount), amount)
  {
    var amount := SatAdd64(next.Base(), fees);
    CoinbaseFitsReserve(c, amount);
    assert next.Reward(weight) == Some(next.Base()) == next.Reward(weight + c.Size(amount));
    var again := SettleFrom(next, c, weight, fees, c.Size(amount), rounds - 1);
    assert again == Settled(c.Size(amount), amount);
  }

  // --------------------------------------------------- inside the penalty zone

  /** The coinbase amount when the coinbase is taken to weigh `guess`. */
  function AmountAt(next: Next, weight: nat, fees: nat, guess: nat): nat
    requires next.Valid() && weight + guess <= 2 * next.Median()
  {
    SatAdd64(IdealReward(next.Base(), next.Median(), weight + guess), fees)
  }

  function Measured(next: Next, c: Shape, weight: nat, fees: nat, guess: nat): nat
    requires next.Valid() && weight + guess <= 2 * next.Median()
  {
    c.Size(AmountAt(next, weight, fees, guess))
  }

  lemma RoomUnderTwice(next: Next, weight: nat)
    requires next.Valid() && Roomy(next, weight) && next.Median() <= TWO32
    ensures weight + 600 <= 2 * next.Median()
  {}

  lemma RewardIsIdeal(next: Next, weight: nat)
    requires next.Valid() && next.Median() <= TWO32 && weight <= 2 * next.Median()
    ensures next.Reward(weight) == Some(IdealReward(next.Base(), next.Median(), weight))
  {
    PenaltyIsExact(next.Base(), next.Median(), weight);
  }

  /** A heavier guess is never measured heavier. */
  lemma MeasureFalls(next: Next, c: Shape, weight: nat, fees: nat, g: nat, g': nat)
    requires next.Valid() && g <= g' && weight + g' <= 2 * next.Median()
    ensures Measured(next, c, weight, fees, g') <= Measured(next, c, weight, fees, g)
  {
    PenaltyFalls(next.Base(), next.Median(), weight + g, weight + g');
    VarintGrows(AmountAt(next, weight, fees, g'), AmountAt(next, weight, fees, g));
  }

  lemma ThirdOfMultiplicand(m: nat, w: nat, g: nat)
    requires m >= 20_000 && g <= COINBASE_MAX && w + 600 <= 2 * m && m < w + g
    ensures w > m ==> (2 * m - w) * w <= 3 * ((2 * m - w - g) * (w + g))
    ensures w <= m ==> m * m <= 3 * ((2 * m - w - g) * (w + g))
  {
    var a, b := 2 * m - w - g, w + g;
    assert a * b == b * a;
    if w > m {
      MulLe(2 * m - w, w, b);
      MulLe(b, 2 * m - w, 3 * a);
      assert b * (3 * a) == 3 * (a * b);
    } else {
      MulLe(m, m, b);
      MulLe(b, m, 3 * a);
      assert b * (3 * a) == 3 * (a * b);
    }
  }

  lemma ThirdOfQuotient(p: nat, p': nat, d: nat)
    requires d > 0 && p <= 3 * p'
    ensures p / d <= 3 * (p' / d) + 2
  {
    var q, q' := p / d, p' / d;
    DivMod(p, d);
    DivMod(p', d);
    assert d * (3 * q' + 3) == 3 * (q' * d) + 3 * d;
    if q >= 3 * q' + 3 { MulLe(d, 3 * q' + 3, q); }
  }

  /** A coinbase's weight never takes two thirds of the reward away. */
  lemma RewardKeepsAThird(base: nat, m: nat, w: nat, g: nat)
    requires m >= 20_000 && g <= COINBASE_MAX && w + 600 <= 2 * m
    ensures IdealReward(base, m, w) <= 3 * IdealReward(base, m, w + g) + 2
  {
    if w > m {
      PenaltyKeepsAThird(base, m, w, g);
    } else if w + g > m {
      ZoneKeepsAThird(base, m, w, g);
    }
  }

  lemma PenaltyKeepsAThird(base: nat, m: nat, w: nat, g: nat)
    requires m >= 20_000 && g <= COINBASE_MAX && m < w && w + 600 <= 2 * m
    ensures IdealReward(base, m, w) <= 3 * IdealReward(base, m, w + g) + 2
  {
    ThirdOfMultiplicand(m, w, g);
    ExactMultiplicand(m, w);
    ExactMultiplicand(m, w + g);
    ThirdOfReward(base, (2 * m - w) * w, (2 * m - w - g) * (w + g), m * m);
  }

  lemma ZoneKeepsAThird(base: nat, m: nat, w: nat, g: nat)
    requires m >= 20_000 && g <= COINBASE_MAX && w <= m < w + g && w + 600 <= 2 * m
    ensures IdealReward(base, m, w) <= 3 * IdealReward(base, m, w + g) + 2
  {
    ThirdOfMultiplicand(m, w, g);
    ExactMultiplicand(m, w + g);
    ThirdOfReward(base, m * m, (2 * m - w - g) * (w + g), m * m);
    DivideBack(base, m * m);
  }

  lemma ThirdOfReward(base: nat, before: nat, after: nat, square: nat)
    requires square > 0 && before <= 3 * after
    ensures base * before / square <= 3 * (base * after / square) + 2
  {
    MulLe(base, before, 3 * after);
    assert base * (3 * after) == 3 * (base * after);
    ThirdOfQuotient(base * before, base * after, square);
  }

  /** So the first measure is at most one byte over the second. */
  lemma MeasuresAdjacent(next: Next, c: Shape, weight: nat, fees: nat, g: nat)
    requires next.Valid() && g <= COINBASE_MAX && weight + 600 <= 2 * next.Median()
    ensures Measured(next, c, weight, fees, 0) <= Measured(next, c, weight, fees, g) + 1
  {
    RewardKeepsAThird(next.Base(), next.Median(), weight, g);
    OneMoreByte(AmountAt(next, weight, fees, g), AmountAt(next, weight, fees, 0));
  }

  lemma OneRound(next: Next, c: Shape, weight: nat, fees: nat, guess: nat, rounds: nat)
    requires next.Valid() && next.Median() <= TWO32 && weight + guess <= 2 * next.Median() && rounds > 0
    ensures var measured := Measured(next, c, weight, fees, guess);
      SettleFrom(next, c, weight, fees, guess, rounds)
      == if measured == guess then Settled(guess, AmountAt(next, weight, fees, guess))
         else SettleFrom(next, c, weight, fees, measured, rounds - 1)
  {
    RewardIsIdeal(next, weight + guess);
  }

  /** Two weights, each of which measures as the other, are passed to and fro to the end. */
  lemma {:induction false} ToAndFro(next: Next, c: Shape, weight: nat, fees: nat, a: nat, b: nat, rounds: nat)
    requires next.Valid() && next.Median() <= TWO32 && a != b
    requires weight + a <= 2 * next.Median() && weight + b <= 2 * next.Median()
    requires Measured(next, c, weight, fees, a) == b && Measured(next, c, weight, fees, b) == a
    ensures SettleFrom(next, c, weight, fees, a, rounds) == Unsettled
    decreases rounds
  {
    if rounds > 0 {
      OneRound(next, c, weight, fees, a, rounds);
      ToAndFro(next, c, weight, fees, b, a, rounds - 1);
    }
  }

  /** Some weight measures as itself. */
  ghost predicate HasOwnMeasure(next: Next, c: Shape, weight: nat, fees: nat)
    requires next.Valid() && weight + COINBASE_MAX <= 2 * next.Median()
  {
    exists w: nat :: w <= COINBASE_MAX && Measured(next, c, weight, fees, w) == w
  }

  lemma MeasuredFits(next: Next, c: Shape, weight: nat, fees: nat, guess: nat)
    requires next.Valid() && c.Valid() && weight + guess <= 2 * next.Median()
    ensures 0 < Measured(next, c, weight, fees, guess) <= COINBASE_MAX
  {
    CoinbaseFitsReserve(c, AmountAt(next, weight, fees, guess));
  }

  /**
   * The loop settles exactly when some weight measures as itself; then three rounds
   * are enough, and otherwise no number of rounds is.
   */
  lemma SettlesIff(next: Next, c: Shape, weight: nat, fees: nat, rounds: nat)
    requires next.Valid() && c.Valid() && Roomy(next, weight) && rounds >= 3
    requires next.Median() <= TWO32 || weight + COINBASE_MAX <= next.Median()
    ensures weight + COINBASE_MAX <= 2 * next.Median()
    ensures SettleFrom(next, c, weight, fees, 0, rounds).Settled? <==> HasOwnMeasure(next, c, weight, fees)
  {
    if weight + COINBASE_MAX <= next.Median() {
      SettlesInTwo(next, c, weight, fees, rounds);
      CoinbaseFitsReserve(c, SatAdd64(next.Base(), fees));
      var w := c.Size(SatAdd64(next.Base(), fees));
      assert Measured(next, c, weight, fees, w) == w;
    } else {
      SettlesIffPenalised(next, c, weight, fees, rounds);
    }
  }

  lemma SettlesIffPenalised(next: Next, c: Shape, weight: nat, fees: nat, rounds: nat)
    requires next.Valid() && c.Valid() && next.Median() <= TWO32 && Roomy(next, weight) && rounds >= 3
    ensures weight + COINBASE_MAX <= 2 * next.Median()
    ensures SettleFrom(next, c, weight, fees, 0, rounds).Settled? <==> HasOwnMeasure(next, c, weight, fees)
  {
    RoomUnderTwice(next, weight);
    var b := Measured(next, c, weight, fees, 0);
    MeasuredFits(next, c, weight, fees, 0);
    var a := Measured(next, c, weight, fees, b);
    MeasuredFits(next, c, weight, fees, b);
    MeasureFalls(next, c, weight, fees, 0, b);
    MeasuresAdjacent(next, c, weight, fees, b);
    OneRound(next, c, weight, fees, 0, rounds);
    OneRound(next, c, weight, fees, b, rounds - 1);
    if a != b {
      MeasureFalls(next, c, weight, fees, 0, a);
      MeasureFalls(next, c, weight, fees, a, b);
      OneRound(next, c, weight, fees, a, rounds - 2);
      if Measured(next, c, weight, fees, a) != a {
        ToAndFro(next, c, weight, fees, b, a, rounds - 1);
        NoOwnMeasure(next, c, weight, fees, a, b);
      }
    }
  }

  lemma NoOwnMeasure(next: Next, c: Shape, weight: nat, fees: nat, a: nat, b: nat)
    requires next.Valid() && b == a + 1 <= COINBASE_MAX && weight + COINBASE_MAX <= 2 * next.Median()
    requires Measured(next, c, weight, fees, a) == b && Measured(next, c, weight, fees, b) == a
    ensures !HasOwnMeasure(next, c, weight, fees)
  {
    forall w: nat | w <= COINBASE_MAX ensures Measured(next, c, weight, fees, w) != w {
      if w <= a { MeasureFalls(next, c, weight, fees, w, a); } else { MeasureFalls(next, c, weight, fees, b, w); }
    }
  }

  /** 128^k takes one byte more than what lies a little below it. */
  lemma BytesAround(k: nat, below: nat)
    requires k >= 1 && Pow128(k) <= 3 * below + 2 && below < Pow128(k)
    ensures VarintLen(Pow128(k)) == k + 1 && VarintLen(below) == k
  {
    VarintLenIff(Pow128(k), k);
    VarintLenIff(Pow128(k), k + 1);
    VarintLenIff(below, k);
    PowPositive(k - 1);
    if k > 1 { VarintLenIff(below, k - 1); }
  }

  lemma {:induction false} PowRises(j: nat, k: nat)
    requires j <= k
    ensures Pow128(j) <= Pow128(k)
    decreases k
  {
    if j < k { PowRises(j, k - 1); }
  }

  lemma NinePowersFit(k: nat)
    requires k <= 9
    ensures Pow128(k) <= U64_MAX
  {
    PowRises(k, 9);
    assert Pow128(9) == 0x8000_0000_0000_0000;
  }

  /** The reward at the weight of a coinbase with `k` bytes of amount. */
  function RewardWith(next: Next, c: Shape, weight: nat, k: nat): nat
    requires next.Valid() && weight + c.Fixed() + k <= 2 * next.Median()
  {
    IdealReward(next.Base(), next.Median(), weight + c.Fixed() + k)
  }

  /** These fees bring that coinbase to 128^k, the first amount of `k + 1` bytes. */
  predicate Straddles(next: Next, c: Shape, weight: nat, k: nat, fees: nat)
    requires next.Valid() && weight + c.Fixed() + k + 1 <= 2 * next.Median()
  {
    && fees + RewardWith(next, c, weight, k) == Pow128(k)
    && RewardWith(next, c, weight, k + 1) < RewardWith(next, c, weight, k)
  }

  /** The reward a byte further on still keeps a third. */
  lemma DropIsSmall(base: nat, m: nat, weight: nat, a: nat)
    requires m >= 20_000 && weight + 600 <= 2 * m && a + 1 <= COINBASE_MAX
    ensures IdealReward(base, m, weight + a) <= 3 * IdealReward(base, m, weight + a + 1) + 2
  {
    RewardKeepsAThird(base, m, weight, a + 1);
    PenaltyFalls(base, m, weight, weight + a);
  }

  lemma StraddlingAmounts(next: Next, c: Shape, weight: nat, k: nat, fees: nat)
    requires next.Valid() && weight + 600 <= 2 * next.Median() && 1 <= k <= 9
    requires c.Fixed() + k + 1 <= COINBASE_MAX && Straddles(next, c, weight, k, fees)
    ensures AmountAt(next, weight, fees, c.Fixed() + k) == Pow128(k)
    ensures var below := AmountAt(next, weight, fees, c.Fixed() + k + 1);
      Pow128(k) <= 3 * below + 2 && below < Pow128(k)
  {
    NinePowersFit(k);
    DropIsSmall(next.Base(), next.Median(), weight, c.Fixed() + k);
  }

  lemma StraddlingMeasures(next: Next, c: Shape, weight: nat, k: nat, fees: nat)
    requires next.Valid() && c.Valid() && weight + 600 <= 2 * next.Median() && 1 <= k <= 9
    requires c.Fixed() + k + 1 <= COINBASE_MAX && Straddles(next, c, weight, k, fees)
    ensures Measured(next, c, weight, fees, c.Fixed() + k) == c.Fixed() + k + 1
    ensures Measured(next, c, weight, fees, c.Fixed() + k + 1) == c.Fixed() + k
  {
    StraddlingAmounts(next, c, weight, k, fees);
    BytesAround(k, AmountAt(next, weight, fees, c.Fixed() + k + 1));
  }

  lemma FirstMeasure(next: Next, c: Shape, weight: nat, fees: nat, a: nat)
    requires next.Valid() && c.Valid() && weight + 600 <= 2 * next.Median() && a + 1 <= COINBASE_MAX
    requires Measured(next, c, weight, fees, a) == a + 1 && Measured(next, c, weight, fees, a + 1) == a
    ensures Measured(next, c, weight, fees, 0) == a + 1
  {
    MeasureFalls(next, c, weight, fees, 0, a);
    MeasuresAdjacent(next, c, weight, fees, a + 1);
  }

  /**
   * Wherever the reward drops from one coinbase weight to the next, there are fees on
   * which the loop goes to and fro between those weights, whatever the number of rounds.
   */
  lemma UnsettledWhereRewardDrops(next: Next, c: Shape, weight: nat, k: nat, fees: nat, rounds: nat)
    requires next.Valid() && c.Valid() && next.Median() <= TWO32 && Roomy(next, weight) && 1 <= k <= 9
    requires weight + c.Fixed() + k + 1 <= 2 * next.Median() && Straddles(next, c, weight, k, fees)
    ensures SettleFrom(next, c, weight, fees, 0, rounds) == Unsettled
  {
    RoomUnderTwice(next, weight);
    FixedFits(c);
    var a := c.Fixed() + k;
    StraddlingMeasures(next, c, weight, k, fees);
    SwappedNeverSettles(next, c, weight, fees, a, rounds);
  }

  lemma SwappedNeverSettles(next: Next, c: Shape, weight: nat, fees: nat, a: nat, rounds: nat)
    requires next.Valid() && c.Valid() && weight + 600 <= 2 * next.Median() && a + 1 <= COINBASE_MAX
    requires next.Median() <= TWO32
    requires Measured(next, c, weight, fees, a) == a + 1 && Measured(next, c, weight, fees, a + 1) == a
    ensures SettleFrom(next, c, weight, fees, 0, rounds) == Unsettled
  {
    FirstMeasure(next, c, weight, fees, a);
    if rounds > 0 {
      OneRound(next, c, weight, fees, 0, rounds);
      ToAndFro(next, c, weight, fees, a + 1, a, rounds - 1);
    }
  }

  /** One byte past `w` costs some reward when the base is not too small for it. */
  lemma RewardDrops(base: nat, m: nat, w: nat)
    requires 0 < m <= w && w + 1 <= 2 * m && base * (2 * (w - m) + 1) >= m * m
    ensures IdealReward(base, m, w + 1) < IdealReward(base, m, w)
  {
    var before, after := (2 * m - w) * w, (2 * m - w - 1) * (w + 1);
    ExactMultiplicand(m, w);
    ExactMultiplicand(m, w + 1);
    assert before - after == 2 * (w - m) + 1;
    assert base * before == base * after + base * (2 * (w - m) + 1) by {
      assert before == after + (2 * (w - m) + 1);
    }
    OneMore(base * after, base * before, m * m);
    if w == m {
      assert before == m * m;
      DivideBack(base, m * m);
    }
  }

  lemma OneMore(a: nat, b: nat, d: nat)
    requires d > 0 && a + d <= b
    ensures a / d < b / d
  {
    DivMod(a, d);
    DivMonotone(a + d, b, d);
    assert a + d == (a / d + 1) * d + a % d;
    QuotientIs(a + d, a / d + 1, d, a % d);
  }

  // ------------------------------------------------------------------ the build

  datatype TemplateError = Subaddress | ReserveTooBig | OverWeightLimit | DidNotSettle

  datatype Template = Template(ids: seq<Hash>, coinbaseWeight: nat, expectedReward: nat)

  function ContextFor(pool: Pool, db: Db, net: Network, next: Next): (c: Context)
    requires next.Valid()
    ensures c.Valid() && c.Empty() == next.Base()
  {
    Context(pool, db, net, next.MaxWeight(), (w: nat) => next.Reward(w))
  }

  function ShapeFor(next: Next, unlockTime: nat, nonceLen: nat): Shape {
    Shape(
      if next.version >= HF_VERSION_MIN_V2_COINBASE_TX then 2 else 1,
      unlockTime,
      next.height,
      next.version >= HF_VERSION_VIEW_TAGS,
      nonceLen)
  }

  /** From version 15 the null signature's byte, from version 20 the view tag's. */
  lemma VersionsAddBytes(next: Next, unlockTime: nat, nonceLen: nat, amount: nat)
    ensures var bare := Shape(1, unlockTime, next.height, false, nonceLen);
      ShapeFor(next, unlockTime, nonceLen).Size(amount)
      == bare.Size(amount) + (if next.version >= 15 then 1 else 0) + (if next.version >= 20 then 1 else 0)
  {
    assert VarintLen(1) == VarintLen(2) == 1;
  }

  /** The block is accepted: its coinbase claims exactly what its weight and fees allow. */
  predicate ExactlyPaid(next: Next, weight: nat, fees: nat, claimed: nat)
    requires next.Valid()
  {
    match next.Reward(weight)
    case None => false
    case Some(base) => ValidateMinerReward(next.version, base, fees, claimed) == Ok(MinerReward(base, false))
  }

  lemma ExactClaim(version: nat, base: nat, fees: nat)
    ensures ValidateMinerReward(version, base, fees, SatAdd64(base, Min(fees, U64_MAX))) == Ok(MinerReward(base, false))
       <==> base + fees <= U64_MAX
  {}

  lemma PaidIff(next: Next, weight: nat, fees: nat, w: nat, amount: nat, c: Shape, rounds: nat)
    requires next.Valid()
    requires SettleFrom(next, c, weight, Min(fees, U64_MAX), 0, rounds) == Settled(w, amount)
    ensures next.Reward(weight + w).Some?
    ensures ExactlyPaid(next, weight + w, fees, amount) <==> next.Reward(weight + w).value + fees <= U64_MAX
  {
    SettledAgrees(next, c, weight, Min(fees, U64_MAX), 0, rounds);
    ExactClaim(next.version, next.Reward(weight + w).value, fees);
  }

  /** What a built template promises about its transactions. */
  ghost predicate SoundChoice(pool: Pool, db: Db, net: Network, next: Next, ids: seq<Hash>)
    requires next.Valid()
  {
    && ToSet(ids) <= pool.byId.Keys
    && (ids == [] || Roomy(next, WeightOf(pool, ids)))
    && (forall id :: id in ids ==> id in pool.byId && MayBeMined(pool.byId[id].relay, net))
    && (exists spent :: SpendsOnce(pool, db, ids, spent))
    && next.Reward(WeightOf(pool, ids)).Some?
    && SatAdd64(next.Reward(WeightOf(pool, ids)).value, FeesOf(pool, ids)) >= next.Base()
  }

  /** The claim is exact whenever the reward and the fees together fit 64 bits, and only then. */
  predicate PaidWhenItFits(pool: Pool, next: Next, t: Template)
    requires next.Valid() && ToSet(t.ids) <= pool.byId.Keys
  {
    var (weight, fees) := (WeightOf(pool, t.ids) + t.coinbaseWeight, FeesOf(pool, t.ids));
    && next.Reward(weight).Some?
    && (ExactlyPaid(next, weight, fees, t.expectedReward) <==> next.Reward(weight).value + fees <= U64_MAX)
  }

  /** The template's coinbase passes the miner reward check with nothing left unclaimed. */
  predicate IsExact(pool: Pool, next: Next, t: Template)
    requires next.Valid() && ToSet(t.ids) <= pool.byId.Keys
  {
    ExactlyPaid(next, WeightOf(pool, t.ids) + t.coinbaseWeight, FeesOf(pool, t.ids), t.expectedReward)
  }

  lemma FittingIsExact(pool: Pool, next: Next, t: Template)
    requires next.Valid() && ToSet(t.ids) <= pool.byId.Keys && PaidWhenItFits(pool, next, t)
    ensures next.Base() + FeesOf(pool, t.ids) <= U64_MAX ==> IsExact(pool, next, t)
  {
    RewardNeverExceedsBase(next.median, WeightOf(pool, t.ids) + t.coinbaseWeight, next.coins, next.version);
  }

  lemma ChoiceIsSound(pool: Pool, db: Db, net: Network, next: Next, order: seq<Hash>)
    requires next.Valid() && ToSet(order) <= pool.byId.Keys
    ensures var c := ContextFor(pool, db, net, next);
      var s := Select(c, Nothing(c), order);
      Totals(c, s) && Roomy(next, s.weight) && SoundChoice(pool, db, net, next, s.ids)
  {
    var c := ContextFor(pool, db, net, next);
    SelectionIsSound(c, order);
    var s := Select(c, Nothing(c), order);
    assert SpendsOnce(pool, db, s.ids, s.spent);
  }

  /** An entry left out, minable and free of conflicts, would take the block past the limit or the median. */
  lemma TemplateLeavesNothingFree(pool: Pool, db: Db, net: Network, next: Next, order: seq<Hash>, id: Hash)
    requires next.Valid() && ToSet(order) <= pool.byId.Keys && id in order
    requires var c := ContextFor(pool, db, net, next);
      var r := Select(c, Nothing(c), order);
      MayBeMined(pool.byId[id].relay, net) && FreeOf(pool.byId[id], r.spent, db) && id !in r.ids
    ensures var c := ContextFor(pool, db, net, next);
      var weight := Select(c, Nothing(c), order).weight + pool.byId[id].weight;
      weight > Min(next.MaxWeight(), next.Median())
      && (300 <= next.median < TWO64 / 2 && next.version >= 5 ==>
            weight > Min(2 * next.median - 600, Max(next.median, 300_000)))
  {
    var c := ContextFor(pool, db, net, next);
    assert c.FreeUpTo(next.Median());
    NothingFreeIsLeftOut(c, Nothing(c), order, id, next.Median());
  }

  /** Builds a template; the keys of the address and the unlock time are given. */
  method Build(pool: Pool, db: Db, net: Network, next: Next, subaddress: bool, unlockTime: nat, nonceLen: nat)
    returns (r: Emission.Result<Template, TemplateError>)
    requires next.Valid() && unlockTime < TWO64
    ensures subaddress ==> r == Err(Subaddress)
    ensures !subaddress && nonceLen > MAX_RESERVE_SIZE ==> r == Err(ReserveTooBig)
    ensures !subaddress && nonceLen <= MAX_RESERVE_SIZE ==> r.Ok? || r == Err(DidNotSettle)
    ensures r.Ok? ==> SoundChoice(pool, db, net, next, r.value.ids) && PaidWhenItFits(pool, next, r.value)
    ensures r.Ok? && next.Base() + TotalFees(pool) <= U64_MAX ==> IsExact(pool, next, r.value)
    ensures r.Ok? && TotalFees(pool) <= next.coins <= ISSUE_LIMIT ==> IsExact(pool, next, r.value)
  {
    if subaddress { return Err(Subaddress); }
    if nonceLen > MAX_RESERVE_SIZE { return Err(ReserveTooBig); }
    var c := ContextFor(pool, db, net, next);
    var s, order := Fill(c);
    ChoiceIsSound(pool, db, net, next, order);
    SelectedFeesWithin(c, order);
    if next.coins <= ISSUE_LIMIT { SubsidyLeavesARemainder(next.coins); }
    r := Finish(pool, next, s, ShapeFor(next, unlockTime, nonceLen), WEIGHT_ROUNDS);
  }

  lemma FinishPaid(pool: Pool, next: Next, s: Selection, shape: Shape, rounds: nat, w: nat, amount: nat)
    requires next.Valid() && ToSet(s.ids) <= pool.byId.Keys
    requires s.weight == WeightOf(pool, s.ids) && s.fees == Min(FeesOf(pool, s.ids), U64_MAX)
    requires SettleFrom(next, shape, s.weight, s.fees, 0, rounds) == Settled(w, amount)
    ensures PaidWhenItFits(pool, next, Template(s.ids, w, amount))
  {
    PaidIff(next, s.weight, FeesOf(pool, s.ids), w, amount, shape, rounds);
  }

  /** The coinbase for a selection. */
  method Finish(pool: Pool, next: Next, s: Selection, shape: Shape, rounds: nat)
    returns (r: Emission.Result<Template, TemplateError>)
    requires next.Valid() && shape.Valid() && Roomy(next, s.weight)
    requires ToSet(s.ids) <= pool.byId.Keys
    requires s.weight == WeightOf(pool, s.ids) && s.fees == Min(FeesOf(pool, s.ids), U64_MAX)
    ensures r.Ok? <==> SettleFrom(next, shape, s.weight, s.fees, 0, rounds).Settled?
    ensures r.Err? ==> r == Err(DidNotSettle)
    ensures r.Ok? ==> r.value.ids == s.ids && PaidWhenItFits(pool, next, r.value)
    ensures r.Ok? && next.Base() + FeesOf(pool, s.ids) <= U64_MAX ==> IsExact(pool, next, r.value)
  {
    NeverOverWeight(next, shape, s.weight, s.fees, 0, rounds);
    var settled := Settle(next, shape, s.weight, s.fees, rounds);
    match settled
    case OverWeight => r := Err(OverWeightLimit);
    case Unsettled => r := Err(DidNotSettle);
    case Settled(w, amount) =>
      FinishPaid(pool, next, s, shape, rounds, w, amount);
      FittingIsExact(pool, next, Template(s.ids, w, amount));
      r := Ok(Template(s.ids, w, amount));
  }
}
