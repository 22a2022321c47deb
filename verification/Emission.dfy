/** The subsidy, the weight penalty, what a coinbase may claim, and the supply over whole chains. */
module Emission {
  import opened Base
  import opened Sorting
  import opened WideDivision

  const MONEY_SUPPLY: nat := U64_MAX
  const EMISSION_DIVISOR: nat := 0x10_0000 // 2^20
  const TWO32: nat := 0x1_0000_0000

  /** The most that is ever issued. */
  const ISSUE_LIMIT: nat := TWO64 - EMISSION_DIVISOR

  datatype Result<+T, +E> = Ok(value: T) | Err(error: E)
  datatype RewardError = BlockTooBig
  datatype MinerRewardError = Overspend | NotExact | Overflow
  datatype MinerReward = MinerReward(adjusted: nat, partial: bool)

  // ------------------------------------------------------------- the formulas

  function BaseReward(coins: nat): nat
    requires coins <= MONEY_SUPPLY
  {
    (MONEY_SUPPLY - coins) / EMISSION_DIVISOR
  }

  function MinBlockWeight(version: nat): nat {
    if version < 2 then 20_000 else if version < 5 then 60_000 else 300_000
  }

  function EffectiveMedian(median: nat, version: nat): (m: nat)
    ensures m >= 20_000
  {
    Max(median, MinBlockWeight(version))
  }

  function Twice(m: nat): nat { 2 * m % TWO64 }

  /** The product as a `u64`. */
  function Multiplicand(m: nat, weight: nat): nat { (Twice(m) - weight) * weight % TWO64 }

  function PenalisedReward(base: nat, m: nat, weight: nat): nat
    requires m > 0
  {
    base * Multiplicand(m, weight) / m / m
  }

  function RewardAt(base: nat, m: nat, weight: nat): Result<nat, RewardError>
    requires m > 0
  {
    if weight <= m then Ok(base)
    else if weight > Twice(m) then Err(BlockTooBig)
    else Ok(PenalisedReward(base, m, weight) % TWO64)
  }

  function GetBlockReward(median: nat, weight: nat, coins: nat, version: nat): Result<nat, RewardError>
    requires coins <= MONEY_SUPPLY
  {
    RewardAt(BaseReward(coins), EffectiveMedian(median, version), weight)
  }

  const HF_VERSION_EXACT_COINBASE: nat := 16

  predicate MustClaimExactly(version: nat) { version < 2 || version >= HF_VERSION_EXACT_COINBASE }

  function ValidateMinerReward(version: nat, base: nat, fee: nat, claimed: nat): Result<MinerReward, MinerRewardError> {
    var total := base + fee;
    if total > U64_MAX then Err(Overflow)
    else if total < claimed then Err(Overspend)
    else if MustClaimExactly(version) then
      if total != claimed then Err(NotExact) else Ok(MinerReward(base, false))
    else if claimed < fee then Err(Overspend)
    else if claimed - fee > base then Err(Overspend)
    else Ok(MinerReward(claimed - fee, total != claimed))
  }

  /** Which coinbases pass, what the others are called, and that what is recorded is the claim less the fees. */
  lemma AcceptedClaims(version: nat, base: nat, fee: nat, claimed: nat)
    ensures ValidateMinerReward(version, base, fee, claimed).Ok? <==>
      && fee <= claimed <= base + fee <= U64_MAX
      && (version < 2 || version >= 16 ==> claimed == base + fee)
    ensures var r := ValidateMinerReward(version, base, fee, claimed);
      && (r == Err(Overflow) <==> base + fee > U64_MAX)
      && (r == Err(NotExact) <==> claimed < base + fee <= U64_MAX && (version < 2 || version >= 16))
      && (r == Err(Overspend) <==>
            base + fee <= U64_MAX && (claimed > base + fee || (claimed < fee && 2 <= version < 16)))
    ensures var r := ValidateMinerReward(version, base, fee, claimed);
      r.Ok? ==>
        && r.value.adjusted + fee == claimed && r.value.adjusted <= base
        && (r.value.partial <==> claimed < base + fee)
  {}

  /** The subsidy is what is left over 2^20, rounded down. */
  lemma SubsidyIs(coins: nat)
    requires coins <= MONEY_SUPPLY
    ensures BaseReward(coins) * 1_048_576 <= 18_446_744_073_709_551_615 - coins < (BaseReward(coins) + 1) * 1_048_576
  {
    DivMod(MONEY_SUPPLY - coins, EMISSION_DIVISOR);
  }

  /** The free zone by version; under it, and under the median, nothing is taken, and over twice both nothing passes. */
  lemma FreeZone(median: nat, weight: nat, coins: nat, version: nat)
    requires coins <= MONEY_SUPPLY && median < TWO64 / 2
    ensures var zone := if version < 2 then 20_000 else if version < 5 then 60_000 else 300_000;
      && (weight <= zone || weight <= median ==>
            GetBlockReward(median, weight, coins, version) == Ok(BaseReward(coins)))
      && (GetBlockReward(median, weight, coins, version) == Err(BlockTooBig) <==>
            weight > 2 * zone && weight > 2 * median)
  {}

  // -------------------------------------------------------------- the penalty

  /** Dividing twice by `m` is dividing once by its square. */
  lemma TwoDivisions(p: nat, m: nat)
    requires m > 0
    ensures m * m > 0 && p / m / m == p / (m * m)
  {
    var q1 := p / m;
    var q2 := q1 / m;
    DivMod(p, m);
    DivMod(q1, m);
    Recompose(p, m, q1, p % m, q2, q1 % m);
    QuotientIs(p, q2, m * m, q1 % m * m + p % m);
  }

  lemma Recompose(p: nat, m: nat, q1: nat, r1: nat, q2: nat, r2: nat)
    requires m > 0 && p == q1 * m + r1 && q1 == q2 * m + r2 && r1 < m && r2 < m
    ensures p == q2 * (m * m) + (r2 * m + r1) && r2 * m + r1 < m * m && m * m > 0
  {
    assert (q2 * m + r2) * m == (q2 * m) * m + r2 * m;
    assert (q2 * m) * m == q2 * (m * m);
    MulLe(m, r2, m - 1);
    assert m * (m - 1) == m * m - m;
  }

  /** `m^2` less the square of the excess: at most `m^2`, and falling in the weight. */
  lemma ExactMultiplicand(m: nat, weight: nat)
    requires m <= weight <= 2 * m
    ensures 0 <= (2 * m - weight) * weight <= m * m
  {
    var x := weight - m;
    assert (m - x) * (m + x) == m * m - x * x;
    assert x * x >= 0;
  }

  lemma MultiplicandFalls(m: nat, w: nat, w': nat)
    requires m <= w <= w' <= 2 * m
    ensures (2 * m - w') * w' <= (2 * m - w) * w
  {
    var x, x' := w - m, w' - m;
    assert (m - x) * (m + x) == m * m - x * x;
    assert (m - x') * (m + x') == m * m - x' * x';
    MulLe(x, x, x');
    MulLe(x', x, x');
  }

  lemma DivMonotone(a: nat, b: nat, d: nat)
    requires a <= b && d > 0
    ensures a / d <= b / d
  {
    DivMod(a, d);
    DivMod(b, d);
    if a / d > b / d {
      MulLe(d, b / d + 1, a / d);
    }
  }

  lemma DivideBack(q: nat, d: nat)
    requires d > 0
    ensures q * d / d == q
  {
    QuotientIs(q * d, q, d, 0);
  }

  /** A fraction of the base: no more than it when the multiplicand is no more than `m^2`. */
  lemma FractionOfBase(base: nat, m: nat, mult: nat)
    requires m > 0 && mult <= m * m
    ensures base * mult / m / m <= base
  {
    TwoDivisions(base * mult, m);
    MulLe(base, mult, m * m);
    DivMonotone(base * mult, base * (m * m), m * m);
    DivideBack(base, m * m);
  }

  lemma MultiplicandBounded(m: nat, weight: nat)
    requires m < weight <= Twice(m) && m < TWO64
    ensures m < TWO64 / 2 && Twice(m) == 2 * m && Multiplicand(m, weight) <= m * m
  {
    ExactMultiplicand(m, weight);
    ModNoMore((2 * m - weight) * weight);
  }

  lemma ModNoMore(n: nat)
    ensures n % TWO64 <= n
  {}

  /** No weight, median or supply, wrapped or not, makes a reward above the base. */
  lemma RewardNeverExceedsBase(median: nat, weight: nat, coins: nat, version: nat)
    requires coins <= MONEY_SUPPLY && median < TWO64
    ensures GetBlockReward(median, weight, coins, version).Ok?
        ==> GetBlockReward(median, weight, coins, version).value <= BaseReward(coins)
  {
    var base, m := BaseReward(coins), EffectiveMedian(median, version);
    if m < weight <= Twice(m) {
      MultiplicandBounded(m, weight);
      FractionOfBase(base, m, Multiplicand(m, weight));
    }
  }

  /** The penalty without machine arithmetic. */
  function IdealReward(base: nat, m: nat, weight: nat): nat
    requires m > 0 && weight <= 2 * m
  {
    if weight <= m then base
    else
      ExactMultiplicand(m, weight);
      base * ((2 * m - weight) * weight) / (m * m)
  }

  /** With a median of at most 2^32 the machine computes the ideal penalty. */
  lemma PenaltyIsExact(base: nat, m: nat, weight: nat)
    requires base <= U64_MAX && 0 < m <= TWO32
    ensures RewardAt(base, m, weight) == if weight <= 2 * m then Ok(IdealReward(base, m, weight)) else Err(BlockTooBig)
  {
    if m < weight <= 2 * m {
      var mult := (2 * m - weight) * weight;
      StrictlyUnderSquare(m, weight);
      assert Multiplicand(m, weight) == mult;
      TwoDivisions(base * mult, m);
      FractionOfBase(base, m, mult);
    }
  }

  lemma StrictlyUnderSquare(m: nat, weight: nat)
    requires 0 < m <= TWO32 && m < weight <= 2 * m
    ensures 0 <= (2 * m - weight) * weight < TWO64 && (2 * m - weight) * weight <= m * m
  {
    ExactMultiplicand(m, weight);
    var x := weight - m;
    assert (m - x) * (m + x) == m * m - x * x;
    MulLe(x, 1, x);
    MulLe(m, m, TWO32);
    MulLe(TWO32, m, TWO32);
  }

  /** Over (m, 2m] the penalty only grows, down to nothing at 2m. */
  lemma PenaltyFalls(base: nat, m: nat, w: nat, w': nat)
    requires m > 0 && w <= w' <= 2 * m
    ensures IdealReward(base, m, w') <= IdealReward(base, m, w) <= base
    ensures IdealReward(base, m, 2 * m) == 0
  {
    IdealAtMostBase(base, m, w);
    if w > m {
      MultiplicandFalls(m, w, w');
      ExactMultiplicand(m, w');
      MulLe(base, (2 * m - w') * w', (2 * m - w) * w);
      DivMonotone(base * ((2 * m - w') * w'), base * ((2 * m - w) * w), m * m);
    } else {
      IdealAtMostBase(base, m, w');
    }
    QuotientIs(0, 0, m * m, 0);
  }

  lemma IdealAtMostBase(base: nat, m: nat, w: nat)
    requires m > 0 && w <= 2 * m
    ensures IdealReward(base, m, w) <= base
  {
    if w > m {
      ExactMultiplicand(m, w);
      FractionOfBase(base, m, (2 * m - w) * w);
      TwoDivisions(base * ((2 * m - w) * w), m);
    }
  }

  /** The 64-bit product is the product. */
  predicate IsUnwrapped(m: nat, weight: nat)
    requires weight <= 2 * m
  {
    Multiplicand(m, weight) == (2 * m - weight) * weight
  }

  /** No penalised weight wraps the product exactly when the median is at most 2^32. */
  lemma PenaltyWrapsIff(m: nat)
    requires m > 0
    ensures (forall weight :: m < weight <= 2 * m ==> IsUnwrapped(m, weight)) <==> m <= TWO32
  {
    if m <= TWO32 {
      forall weight | m < weight <= 2 * m ensures IsUnwrapped(m, weight) { StrictlyUnderSquare(m, weight); }
    } else {
      MulLe(m, TWO32 + 1, m);
      MulLe(TWO32 + 1, TWO32 + 1, m);
      assert (2 * m - (m + 1)) * (m + 1) == m * m - 1;
      assert !IsUnwrapped(m, m + 1);
    }
  }

  // ---------------------------------------------------------- the whole chain

  /** What one block brings to the emission rules. */
  datatype Minted = Minted(version: nat, median: nat, weight: nat, fees: nat, claimed: nat)

  /** The coins on record after a block, or nothing where the block is refused. */
  function AddBlock(coins: nat, b: Minted): Option<nat>
    requires coins <= MONEY_SUPPLY
  {
    match GetBlockReward(b.median, b.weight, coins, b.version)
    case Err(_) => None
    case Ok(base) =>
      match ValidateMinerReward(b.version, base, b.fees, b.claimed)
      case Err(_) => None
      case Ok(reward) => Some(SatAdd64(coins, reward.adjusted))
  }

  function Run(coins: nat, blocks: seq<Minted>): Option<nat>
    requires coins <= MONEY_SUPPLY
    decreases |blocks|
  {
    if blocks == [] then Some(coins)
    else
      match AddBlock(coins, blocks[0])
      case None => None
      case Some(after) => Run(after, blocks[1..])
  }

  /** Everything coinbases paid out, less the fees they took in. */
  function NetPaid(blocks: seq<Minted>): int {
    if blocks == [] then 0 else blocks[0].claimed - blocks[0].fees + NetPaid(blocks[1..])
  }

  const GENESIS_VERSION: nat := 7

  function GenesisClaim(net: Network): nat {
    match net
    case Mainnet | Fakechain => 0xFF_FFFF_FFFF
    case Testnet | Stagenet => 0xFFF_FFFF_FFFF
  }

  function GenesisBlock(net: Network): Minted {
    Minted(GENESIS_VERSION, 0, if net == Mainnet || net == Fakechain then 79 else 80, 0, GenesisClaim(net))
  }

  /** The genesis block is accepted on the empty chain, for what it claims. */
  lemma GenesisRecord(net: Network)
    ensures AddBlock(0, GenesisBlock(net)) == Some(GenesisClaim(net))
    ensures GenesisClaim(net) <= BaseReward(0) < ISSUE_LIMIT
  {}

  lemma SubsidyLeavesARemainder(coins: nat)
    requires coins <= ISSUE_LIMIT
    ensures coins + BaseReward(coins) <= ISSUE_LIMIT
  {
    var left := MONEY_SUPPLY - coins;
    DivMod(left, EMISSION_DIVISOR);
  }

  lemma OneBlock(coins: nat, b: Minted)
    requires coins <= ISSUE_LIMIT && b.median < TWO64
    ensures var after := AddBlock(coins, b);
      after.Some? ==>
        && after.value == coins + b.claimed - b.fees
        && coins <= after.value <= coins + BaseReward(coins) <= ISSUE_LIMIT
  {
    RewardNeverExceedsBase(b.median, b.weight, coins, b.version);
    SubsidyLeavesARemainder(coins);
  }

  ghost predicate MediansFit(blocks: seq<Minted>) { forall b :: b in blocks ==> b.median < TWO64 }

  /**
   * Over every accepted run the record is what coinbases paid less fees, exactly (so
   * the saturating addition never saturates), only grows, and stays under the limit.
   */
  lemma {:induction false} SupplyIsConserved(coins: nat, blocks: seq<Minted>)
    requires coins <= ISSUE_LIMIT && MediansFit(blocks) && Run(coins, blocks).Some?
    ensures Run(coins, blocks).value == coins + NetPaid(blocks)
    ensures coins <= Run(coins, blocks).value <= ISSUE_LIMIT
    decreases |blocks|
  {
    if blocks != [] {
      OneBlock(coins, blocks[0]);
      SupplyIsConserved(AddBlock(coins, blocks[0]).value, blocks[1..]);
    }
  }

  lemma SupplyFromGenesis(net: Network, blocks: seq<Minted>)
    requires MediansFit(blocks)
    ensures var end := Run(0, [GenesisBlock(net)] + blocks);
      end.Some? ==> end.value == GenesisClaim(net) + NetPaid(blocks) && end.value <= ISSUE_LIMIT
  {
    GenesisRecord(net);
    var all := [GenesisBlock(net)] + blocks;
    assert all[1..] == blocks;
    if Run(0, all).Some? { SupplyIsConserved(GenesisClaim(net), blocks); }
  }

  // ------------------------------------------------------------ the full claim

  /** The record after `n` blocks that each claim the unpenalised reward. */
  function FullClaim(coins: nat, n: nat): (r: nat)
    requires coins <= ISSUE_LIMIT
    ensures coins <= r <= ISSUE_LIMIT
    decreases n
  {
    if n == 0 then coins
    else
      SubsidyLeavesARemainder(coins);
      FullClaim(coins + BaseReward(coins), n - 1)
  }

  ghost predicate ClaimsInFull(b: Minted, coins: nat)
    requires coins <= MONEY_SUPPLY
  {
    b.weight <= EffectiveMedian(b.median, b.version) && b.claimed == BaseReward(coins) + b.fees <= U64_MAX
  }

  /** Every block of the run claims in full and is under its median. */
  ghost predicate AllClaimInFull(coins: nat, blocks: seq<Minted>)
    requires coins <= ISSUE_LIMIT
  {
    forall i :: 0 <= i < |blocks| ==> ClaimsInFull(blocks[i], FullClaim(coins, i))
  }

  /** Such a run is accepted at every version, and records the full subsidies. */
  lemma {:induction false} FullClaimsAreAccepted(coins: nat, blocks: seq<Minted>)
    requires coins <= ISSUE_LIMIT && AllClaimInFull(coins, blocks)
    ensures Run(coins, blocks) == Some(FullClaim(coins, |blocks|))
    decreases |blocks|
  {
    if blocks != [] {
      assert ClaimsInFull(blocks[0], FullClaim(coins, 0));
      SubsidyLeavesARemainder(coins);
      var after := coins + BaseReward(coins);
      assert AddBlock(coins, blocks[0]) == Some(after);
      forall i | 0 <= i < |blocks| - 1 ensures ClaimsInFull(blocks[1..][i], FullClaim(after, i)) {
        assert ClaimsInFull(blocks[i + 1], FullClaim(coins, i + 1));
      }
      FullClaimsAreAccepted(after, blocks[1..]);
    }
  }

  lemma {:induction false} FullClaimThen(coins: nat, n: nat, k: nat)
    requires coins <= ISSUE_LIMIT
    ensures FullClaim(coins, n + k) == FullClaim(FullClaim(coins, n), k)
    decreases n
  {
    if n > 0 {
      SubsidyLeavesARemainder(coins);
      FullClaimThen(coins + BaseReward(coins), n - 1, k);
    }
  }

  /** Rewards never rise along a full-claim run. */
  lemma RewardsFall(coins: nat, n: nat, k: nat)
    requires coins <= ISSUE_LIMIT
    ensures BaseReward(FullClaim(coins, n + k)) <= BaseReward(FullClaim(coins, n))
  {
    FullClaimThen(coins, n, k);
    DivMonotone(MONEY_SUPPLY - FullClaim(coins, n + k), MONEY_SUPPLY - FullClaim(coins, n), EMISSION_DIVISOR);
  }

  /** A full-claim run adds less than 2^44 a block, and at least its last reward a block. */
  lemma {:induction false} FullClaimBetween(coins: nat, n: nat)
    requires coins <= ISSUE_LIMIT
    ensures coins + n * BaseReward(FullClaim(coins, n)) <= FullClaim(coins, n) <= coins + n * 0x1000_0000_0000
    decreases n
  {
    if n > 0 {
      SubsidyLeavesARemainder(coins);
      var after, last := coins + BaseReward(coins), BaseReward(FullClaim(coins, n));
      FullClaimBetween(after, n - 1);
      RewardsFall(coins, 0, n);
      assert n * last == (n - 1) * last + last;
    }
  }

  lemma {:induction false} StuckAtTheLimit(k: nat)
    ensures FullClaim(ISSUE_LIMIT, k) == ISSUE_LIMIT && BaseReward(ISSUE_LIMIT) == 0
    decreases k
  {
    if k > 0 { StuckAtTheLimit(k - 1); }
  }

  lemma {:induction false} LimitIsReached(coins: nat) returns (n: nat)
    requires coins <= ISSUE_LIMIT
    ensures FullClaim(coins, n) == ISSUE_LIMIT
    decreases ISSUE_LIMIT - coins
  {
    SubsidyLeavesARemainder(coins);
    if BaseReward(coins) == 0 {
      assert coins == ISSUE_LIMIT;
      n := 0;
    } else {
      var rest := LimitIsReached(coins + BaseReward(coins));
      n := rest + 1;
    }
  }

  ghost predicate IssuedFrom(coins: nat, n: nat)
    requires coins <= ISSUE_LIMIT
  {
    forall k: nat :: k >= n ==> FullClaim(coins, k) == ISSUE_LIMIT
  }

  /** From any record the subsidy runs out, for good, with 2^20 - 1 units unissued. */
  lemma SubsidyRunsOut(coins: nat)
    requires coins <= ISSUE_LIMIT
    ensures exists n: nat :: IssuedFrom(coins, n)
    ensures MONEY_SUPPLY - ISSUE_LIMIT == EMISSION_DIVISOR - 1
  {
    var n := LimitIsReached(coins);
    forall k: nat | k >= n ensures FullClaim(coins, k) == ISSUE_LIMIT {
      FullClaimThen(coins, n, k - n);
      StuckAtTheLimit(k - n);
    }
    assert IssuedFrom(coins, n);
  }

  // --------------------------------------------------------------- the median

  function GetMid(a: u64, b: u64): (r: u64)
    ensures r as int == (a as int + b as int) / 2
  {
    a / 2 + b / 2 + (a % 2 + b % 2) / 2
  }

  function Median(values: seq<nat>): nat {
    if values == [] then 0
    else
      var s, n := SortNats(values), |values| / 2;
      if |values| % 2 == 1 then s[n] else (s[n - 1] + s[n]) / 2
  }

  /** The median forgets the order, and half the values lie on either side of it. */
  lemma MedianIsInTheMiddle(values: seq<nat>, other: seq<nat>)
    requires values != [] && multiset(values) == multiset(other)
    ensures Median(other) == Median(values)
    ensures forall i :: |values| / 2 <= i < |values| ==> Median(values) <= SortNats(values)[i]
    ensures forall i :: 0 <= i < (|values| + 1) / 2 ==> SortNats(values)[i] <= Median(values)
    ensures var s, n := SortNats(values), |values| / 2;
      |values| % 2 == 0 ==> 2 * Median(values) <= s[n - 1] + s[n] <= 2 * Median(values) + 1
  {
    SortNatsOfPermutation(values, other);
    assert |values| == |multiset(values)| == |multiset(other)| == |other|;
    SortNatsAscends(values);
    var s := SortNats(values);
    forall i, j | 0 <= i <= j < |s| ensures s[i] <= s[j] {
      if i < j { assert NatLe(s[i], s[j]); }
    }
  }
}
