/** Where a template comes out exact, where the weight loop does not settle: for whole families of chains. */
module TemplateCases {
  import opened Base
  import opened PoolModel
  import opened Emission
  import opened TemplateFill
  import opened TemplateBuild
  import opened WideDivision

  // ----------------------------------------------------- a pool of one entry

  const ONLY: Hash := 1
  const NO_DB := Db({}, {})

  function OnlyTx(fee: nat, weight: nat): Tx { Tx(ONLY, [1], weight, fee, 0, 0) }

  /** A pool holding one public transaction. */
  function PoolOfOne(fee: nat, weight: nat): Pool {
    Insert(EMPTY_POOL, OnlyTx(fee, weight), NewEntry(OnlyTx(fee, weight), 0, Fluff, true))
  }

  lemma PoolOfOneHolds(fee: nat, weight: nat)
    ensures var p := PoolOfOne(fee, weight);
      Valid(p) && p.byId.Keys == {ONLY} && Lists([ONLY], p.byId.Keys) && TotalFees(p) == fee
      && p.byId[ONLY] == NewEntry(OnlyTx(fee, weight), 0, Fluff, true)
  {
    var p := PoolOfOne(fee, weight);
    InsertKeeps(EMPTY_POOL, OnlyTx(fee, weight), NewEntry(OnlyTx(fee, weight), 0, Fluff, true));
    assert p.byId.Keys == {ONLY};
    FeesInWithout(p, {ONLY}, ONLY);
    assert {ONLY} - {ONLY} == {};
  }

  /** The fill takes it when it fits and its fee makes up for the penalty. */
  lemma OnlyEntryIsChosen(c: Context, fee: nat, weight: nat)
    requires c.Valid() && c.pool == PoolOfOne(fee, weight) && c.db == NO_DB && weight <= c.maxWeight
    requires c.rewardAt(weight).Some? && SatAdd64(SatAdd64(c.rewardAt(weight).value, 0), fee) >= c.Empty()
    ensures ToSet([ONLY]) <= c.pool.byId.Keys
    ensures var s := Select(c, Nothing(c), [ONLY]);
      s.ids == [ONLY] && s.weight == weight && s.fees == Min(fee, U64_MAX)
  {
    PoolOfOneHolds(fee, weight);
    var s := Consider(c, Nothing(c), ONLY);
    assert [ONLY][1..] == [];
    assert Select(c, s, []) == s;
  }

  lemma OnlyEntrySums(fee: nat, weight: nat)
    ensures var p := PoolOfOne(fee, weight);
      ToSet([ONLY]) <= p.byId.Keys && WeightOf(p, [ONLY]) == weight && FeesOf(p, [ONLY]) == fee
  {
    var p := PoolOfOne(fee, weight);
    PoolOfOneHolds(fee, weight);
    Appended(p, [], ONLY);
    assert [] + [ONLY] == [ONLY];
  }

  // -------------------------------------------------- when templates are exact

  /** What `build` makes of a pool, in some order, where the weight loop settles. */
  ghost predicate Builds(
      pool: Pool, db: Db, net: Network, next: Next, order: seq<Hash>, c: Shape, rounds: nat, t: Template)
    requires next.Valid()
  {
    && Lists(order, pool.byId.Keys)
    && var context := ContextFor(pool, db, net, next);
       var s := Select(context, Nothing(context), order);
       && t.ids == s.ids
       && SettleFrom(next, c, s.weight, s.fees, 0, rounds) == Settled(t.coinbaseWeight, t.expectedReward)
  }

  /** Every template built from a pool whose fees come to at most `bound` is accepted, and claims all. */
  ghost predicate AlwaysExact(next: Next, c: Shape, rounds: nat, bound: nat)
    requires next.Valid()
  {
    forall pool, db, net, order, t ::
      Valid(pool) && TotalFees(pool) <= bound && Builds(pool, db, net, next, order, c, rounds, t) ==>
        ToSet(t.ids) <= pool.byId.Keys && IsExact(pool, next, t)
  }

  lemma BuiltIsExact(pool: Pool, db: Db, net: Network, next: Next, order: seq<Hash>, c: Shape, rounds: nat, t: Template)
    requires next.Valid() && Builds(pool, db, net, next, order, c, rounds, t)
    requires next.Base() + TotalFees(pool) <= U64_MAX
    ensures ToSet(t.ids) <= pool.byId.Keys && IsExact(pool, next, t)
  {
    var context := ContextFor(pool, db, net, next);
    var s := Select(context, Nothing(context), order);
    ChoiceIsSound(pool, db, net, next, order);
    SelectedFeesWithin(context, order);
    FinishPaid(pool, next, s, c, rounds, t.coinbaseWeight, t.expectedReward);
    assert t == Template(s.ids, t.coinbaseWeight, t.expectedReward);
    FittingIsExact(pool, next, t);
  }

  /** A fee that does not fit beside the reward: the template is built, and refused. */
  lemma OverfullPoolIsRefused(next: Next, c: Shape, rounds: nat, fee: nat, net: Network)
    returns (pool: Pool, t: Template)
    requires next.Valid() && c.Valid() && rounds >= 2 && next.Base() + fee > U64_MAX
    ensures Valid(pool) && TotalFees(pool) == fee && Builds(pool, NO_DB, net, next, [ONLY], c, rounds, t)
    ensures ToSet(t.ids) <= pool.byId.Keys && !IsExact(pool, next, t)
  {
    var weight := Min(1, next.MaxWeight());
    pool := PoolOfOne(fee, weight);
    PoolOfOneHolds(fee, weight);
    var context := ContextFor(pool, NO_DB, net, next);
    assert next.Reward(weight) == Some(next.Base());
    OnlyEntryIsChosen(context, fee, weight);
    var amount := SatAdd64(next.Base(), Min(fee, U64_MAX));
    SettlesInTwo(next, c, weight, Min(fee, U64_MAX), rounds);
    t := Template([ONLY], c.Size(amount), amount);
    OnlyEntrySums(fee, weight);
    CoinbaseFitsReserve(c, amount);
    assert next.Reward(weight + c.Size(amount)) == Some(next.Base());
    ExactClaim(next.version, next.Base(), fee);
  }

  /** Templates are exact for every pool within a bound on its fees exactly when base and bound fit 64 bits. */
  lemma TemplatesAreExactIff(next: Next, c: Shape, rounds: nat, bound: nat)
    requires next.Valid() && c.Valid() && rounds >= 2
    ensures AlwaysExact(next, c, rounds, bound) <==> next.Base() + bound <= U64_MAX
  {
    if next.Base() + bound <= U64_MAX {
      forall pool, db, net, order, t
        | Valid(pool) && TotalFees(pool) <= bound && Builds(pool, db, net, next, order, c, rounds, t)
        ensures ToSet(t.ids) <= pool.byId.Keys && IsExact(pool, next, t)
      {
        BuiltIsExact(pool, db, net, next, order, c, rounds, t);
      }
    } else {
      var pool, t := OverfullPoolIsRefused(next, c, rounds, bound, Mainnet);
    }
  }

  /** Fees are paid out of issued coins, so on a chain they always fit. */
  lemma IssuedFeesAlwaysFit(next: Next, c: Shape, rounds: nat)
    requires next.Valid() && c.Valid() && rounds >= 2 && next.coins <= ISSUE_LIMIT
    ensures AlwaysExact(next, c, rounds, next.coins)
  {
    SubsidyLeavesARemainder(next.coins);
    TemplatesAreExactIff(next, c, rounds, next.coins);
  }

  // ------------------------------------------- where the loop does not settle

  /** The block after a mainnet chain of `n` blocks above genesis that all claimed in full. */
  function AfterFullChain(n: nat): Next {
    Next(n + 1, 20, 300_000, FullClaim(GenesisClaim(Mainnet), n))
  }

  function ShapeAfter(n: nat): Shape { ShapeFor(AfterFullChain(n), n + 1 + 288, 0) }

  lemma ShapeIsFixed(n: nat)
    requires 514_000 <= n <= 1_000_000
    ensures ShapeAfter(n).Valid() && ShapeAfter(n).Fixed() == 79
  {
    assert Pow128(2) == 16_384 && Pow128(3) == 2_097_152;
    VarintLenIff(n + 1, 2);
    VarintLenIff(n + 1, 3);
    VarintLenIff(n + 289, 2);
    VarintLenIff(n + 289, 3);
    assert VarintLen(2) == 1 && VarintLen(33) == 1;
  }

  lemma MoneyBounds(coins: nat, base: nat, n: nat)
    requires 514_000 <= n <= 1_000_000 && coins <= MONEY_SUPPLY && base == (MONEY_SUPPLY - coins) / EMISSION_DIVISOR
    requires n * base <= coins <= 0xFF_FFFF_FFFF + n * 0x1000_0000_0000
    ensures 500_000_000_000 <= base < 0x1000_0000_0000 && 0x2_0000_0000_0000 <= coins
  {
    MulLe(base, 514_000, n);
  }

  lemma FullChainMoney(n: nat)
    requires 514_000 <= n <= 1_000_000
    ensures var next := AfterFullChain(n);
      next.Valid() && next.Median() == 300_000 && next.MaxWeight() == 599_400
      && next.coins <= ISSUE_LIMIT && 0x2_0000_0000_0000 <= next.coins
      && 500_000_000_000 <= next.Base() < 0x1000_0000_0000
  {
    var coins := FullClaim(GenesisClaim(Mainnet), n);
    FullClaimBetween(GenesisClaim(Mainnet), n);
    MoneyBounds(coins, BaseReward(coins), n);
  }

  /** The fees that make the coinbase of that block straddle 2^49. */
  lemma StraddlingFees(n: nat) returns (fees: nat)
    requires 514_000 <= n <= 1_000_000
    ensures AfterFullChain(n).Valid() && 400_087 <= 2 * AfterFullChain(n).Median() && ShapeAfter(n).Fixed() == 79
    ensures Straddles(AfterFullChain(n), ShapeAfter(n), 400_000, 7, fees)
    ensures AfterFullChain(n).Base() <= fees <= AfterFullChain(n).coins
  {
    var next, c := AfterFullChain(n), ShapeAfter(n);
    FullChainMoney(n);
    ShapeIsFixed(n);
    var base := next.Base();
    RewardsAround(base);
    assert RewardWith(next, c, 400_000, 7) == IdealReward(base, 300_000, 400_086);
    assert RewardWith(next, c, 400_000, 8) == IdealReward(base, 300_000, 400_087);
    assert Pow128(7) == 0x2_0000_0000_0000;
    fees := 0x2_0000_0000_0000 - IdealReward(base, 300_000, 400_086);
  }

  lemma RewardsAround(base: nat)
    requires 500_000_000_000 <= base < 0x1000_0000_0000
    ensures IdealReward(base, 300_000, 400_087) < IdealReward(base, 300_000, 400_086) <= base
  {
    IdealAtMostBase(base, 300_000, 400_086);
    RewardDrops(base, 300_000, 400_086);
  }

  /**
   * After every full-claim mainnet chain of 514 000 to 1 000 000 blocks there is a pool,
   * with fees no more than the coins issued, on which the template's loop never settles.
   */
  lemma UnsettledOnFullChains(n: nat, rounds: nat) returns (pool: Pool, fees: nat)
    requires 514_000 <= n <= 1_000_000
    ensures var next := AfterFullChain(n);
      && next.Valid() && ShapeAfter(n).Valid() && Valid(pool) && TotalFees(pool) == fees <= next.coins <= ISSUE_LIMIT
      && ToSet([ONLY]) <= pool.byId.Keys
      && var context := ContextFor(pool, NO_DB, Mainnet, next);
         var s := Select(context, Nothing(context), [ONLY]);
         s.ids == [ONLY] && SettleFrom(next, ShapeAfter(n), s.weight, s.fees, 0, rounds) == Unsettled
  {
    var next, c := AfterFullChain(n), ShapeAfter(n);
    FullChainMoney(n);
    ShapeIsFixed(n);
    fees := StraddlingFees(n);
    UnsettledWhereRewardDrops(next, c, 400_000, 7, fees, rounds);
    pool := PoolOfOne(fees, 400_000);
    PoolOfOneHolds(fees, 400_000);
    RewardIsIdeal(next, 400_000);
    OnlyEntryIsChosen(ContextFor(pool, NO_DB, Mainnet, next), fees, 400_000);
  }

  /** Such a chain is accepted from genesis on, at whatever versions its blocks have. */
  lemma FullChainIsAccepted(blocks: seq<Minted>)
    requires AllClaimInFull(GenesisClaim(Mainnet), blocks)
    ensures Run(0, [GenesisBlock(Mainnet)] + blocks) == Some(AfterFullChain(|blocks|).coins)
  {
    GenesisRecord(Mainnet);
    var all := [GenesisBlock(Mainnet)] + blocks;
    assert all[1..] == blocks;
    FullClaimsAreAccepted(GenesisClaim(Mainnet), blocks);
  }
}
