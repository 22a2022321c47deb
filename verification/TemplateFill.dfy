/** Which pooled transactions a block template takes. */
module TemplateFill {
  import opened Base
  import opened Sorting
  import opened PoolModel

  /**
   * What the loop reads: the room for transactions, and the reward at a block weight,
   * nothing where the block would be too big.
   */
  datatype Context = Context(pool: Pool, db: Db, net: Network, maxWeight: nat, rewardAt: nat -> Option<nat>)
  {
    predicate Valid() { rewardAt(0).Some? }

    /** The coinbase of a block without transactions. */
    function Empty(): nat
      requires Valid()
    {
      rewardAt(0).value
    }

    /** No weight up to `free` is penalised. */
    ghost predicate FreeUpTo(free: nat) { forall w: nat :: w <= free ==> rewardAt(w) == rewardAt(0) }
  }

  datatype Selection = Selection(ids: seq<Hash>, spent: set<KeyImage>, weight: nat, fees: nat, best: nat)

  predicate Minable(e: PoolEntry, net: Network) {
    match e.relay
    case Fluff | Block => true
    case Stem | Local => net == Fakechain
    case NoRelay | Forward => false
  }

  // ------------------------------------------------------------- the order

  function ReceivedAt(p: Pool, id: Hash): nat { if id in p.byId then p.byId[id].receiveTime else 0 }

  /** Best paying first, then oldest first. */
  predicate Precedes(p: Pool, a: Hash, b: Hash) {
    RateOf(p, a) > RateOf(p, b) || (RateOf(p, a) == RateOf(p, b) && ReceivedAt(p, a) <= ReceivedAt(p, b))
  }

  function ByFee(p: Pool, walk: seq<Hash>): (order: seq<Hash>)
    ensures multiset(order) == multiset(walk)
  {
    Sort((a, b) => Precedes(p, a, b), walk)
  }

  lemma ByFeeOrder(p: Pool, walk: seq<Hash>)
    requires Lists(walk, p.byId.Keys)
    ensures Lists(ByFee(p, walk), p.byId.Keys)
    ensures forall i, j :: 0 <= i < j < |walk| ==> ComesFirst(p, ByFee(p, walk)[i], ByFee(p, walk)[j])
  {
    var le := (a, b) => Precedes(p, a, b);
    var order := ByFee(p, walk);
    SortAscends(le, walk);
    PermutationLists(walk, order, p.byId.Keys);
    forall i, j | 0 <= i < j < |walk| ensures ComesFirst(p, order[i], order[j]) {
      assert order[i] in ToSet(order) && order[j] in ToSet(order);
      assert le(order[i], order[j]);
      RateIff(p.byId[order[j]], p.byId[order[i]]);
      RateIff(p.byId[order[i]], p.byId[order[j]]);
    }
  }

  /** Entry `b` pays no more per weight than `a`; where they pay alike, `a` is no younger. */
  predicate ComesFirst(p: Pool, a: Hash, b: Hash) {
    && a in p.byId && b in p.byId && PaysNoMore(p.byId[b], p.byId[a])
    && (PaysNoMore(p.byId[a], p.byId[b]) ==> p.byId[a].receiveTime <= p.byId[b].receiveTime)
  }

  // ------------------------------------------------------------- the choice

  predicate Conflicts(e: PoolEntry, spent: set<KeyImage>, db: Db) {
    exists k :: k in e.tx.images && (k in spent || k in db.images)
  }

  /** One turn of the loop. */
  function Consider(c: Context, s: Selection, id: Hash): Selection
    requires c.Valid() && id in c.pool.byId
  {
    var e := c.pool.byId[id];
    var weight := s.weight + e.weight;
    if !Minable(e, c.net) || weight > c.maxWeight then s
    else
      match c.rewardAt(weight)
      case None => s
      case Some(reward) =>
        var coinbase := SatAdd64(SatAdd64(reward, s.fees), e.fee);
        if coinbase < s.best || Conflicts(e, s.spent, c.db) then s
        else Selection(s.ids + [id], s.spent + ToSet(e.tx.images), weight, SatAdd64(s.fees, e.fee), coinbase)
  }

  function Select(c: Context, s: Selection, order: seq<Hash>): Selection
    requires c.Valid() && ToSet(order) <= c.pool.byId.Keys
    decreases |order|
  {
    if order == [] then s
    else
      assert order[0] in ToSet(order) && ToSet(order[1..]) <= ToSet(order);
      Select(c, Consider(c, s, order[0]), order[1..])
  }

  function Nothing(c: Context): Selection
    requires c.Valid()
  {
    Selection([], {}, 0, 0, c.Empty())
  }

  lemma SelectStep(c: Context, s: Selection, order: seq<Hash>, i: nat)
    requires c.Valid() && ToSet(order) <= c.pool.byId.Keys && i < |order|
    ensures order[i] in c.pool.byId
    ensures ToSet(order[i..]) <= c.pool.byId.Keys && ToSet(order[i + 1..]) <= c.pool.byId.Keys
    ensures Select(c, s, order[i..]) == Select(c, Consider(c, s, order[i]), order[i + 1..])
  {
    assert order[i] in ToSet(order);
    assert ToSet(order[i..]) <= ToSet(order) && ToSet(order[i + 1..]) <= ToSet(order);
    assert order[i..][0] == order[i] && order[i..][1..] == order[i + 1..];
  }

  ghost predicate ChosenFrom(c: Context, order: seq<Hash>, s: Selection)
    requires c.Valid()
  {
    ToSet(order) <= c.pool.byId.Keys && s == Select(c, Nothing(c), order)
  }

  /** The selection loop over the pool's entries in fee order. */
  method Fill(c: Context) returns (s: Selection, ghost order: seq<Hash>)
    requires c.Valid()
    ensures exists walk :: Lists(walk, c.pool.byId.Keys) && ChosenFrom(c, ByFee(c.pool, walk), s)
    ensures Lists(order, c.pool.byId.Keys) && ChosenFrom(c, order, s)
  {
    var walk := WalkOf(c.pool.byId.Keys);
    var candidates := ByFee(c.pool, walk);
    ByFeeOrder(c.pool, walk);
    order := candidates;
    s := FillFrom(c, candidates);
    assert ChosenFrom(c, ByFee(c.pool, walk), s);
  }

  method FillFrom(c: Context, order: seq<Hash>) returns (s: Selection)
    requires c.Valid() && ToSet(order) <= c.pool.byId.Keys
    ensures s == Select(c, Nothing(c), order)
  {
    ghost var target := Select(c, Nothing(c), order);
    var ids: seq<Hash> := [];
    var spent: set<KeyImage> := {};
    var weight: nat, fees: nat := 0, 0;
    var best := c.rewardAt(0).value;
    assert order[0..] == order;
    for i := 0 to |order|
      invariant ToSet(order[i..]) <= c.pool.byId.Keys
      invariant Select(c, Selection(ids, spent, weight, fees, best), order[i..]) == target
    {
      SelectStep(c, Selection(ids, spent, weight, fees, best), order, i);
      var e := c.pool.byId[order[i]];
      if !Minable(e, c.net) || weight + e.weight > c.maxWeight { continue; }
      var reward := c.rewardAt(weight + e.weight);
      if reward.None? { continue; }
      var coinbase := SatAdd64(SatAdd64(reward.value, fees), e.fee);
      if coinbase < best { continue; }
      var unusable := AnyTaken(e.tx.images, spent, c.db);
      if unusable { continue; }
      spent, ids, weight := spent + ToSet(e.tx.images), ids + [order[i]], weight + e.weight;
      fees, best := SatAdd64(fees, e.fee), coinbase;
    }
    s := Selection(ids, spent, weight, fees, best);
  }

  method AnyTaken(images: seq<KeyImage>, spent: set<KeyImage>, db: Db) returns (taken: bool)
    ensures taken <==> exists k :: k in images && (k in spent || k in db.images)
  {
    for i := 0 to |images|
      invariant forall k :: k in images[..i] ==> k !in spent && k !in db.images
    {
      if images[i] in spent || images[i] in db.images { return true; }
    }
    assert images[..|images|] == images;
    return false;
  }

  // ---------------------------------------------------------- what was chosen

  function WeightOf(p: Pool, ids: seq<Hash>): nat
    requires ToSet(ids) <= p.byId.Keys
  {
    if ids == [] then 0
    else
      var n := |ids| - 1;
      assert ids[n] in ToSet(ids) && ToSet(ids[..n]) <= ToSet(ids);
      WeightOf(p, ids[..n]) + p.byId[ids[n]].weight
  }

  function FeesOf(p: Pool, ids: seq<Hash>): nat
    requires ToSet(ids) <= p.byId.Keys
  {
    if ids == [] then 0
    else
      var n := |ids| - 1;
      assert ids[n] in ToSet(ids) && ToSet(ids[..n]) <= ToSet(ids);
      FeesOf(p, ids[..n]) + p.byId[ids[n]].fee
  }

  lemma Appended(p: Pool, ids: seq<Hash>, id: Hash)
    requires ToSet(ids) <= p.byId.Keys && id in p.byId
    ensures ToSet(ids + [id]) == ToSet(ids) + {id}
    ensures WeightOf(p, ids + [id]) == WeightOf(p, ids) + p.byId[id].weight
    ensures FeesOf(p, ids + [id]) == FeesOf(p, ids) + p.byId[id].fee
  {
    assert (ids + [id])[..|ids|] == ids;
    assert ToSet(ids + [id]) == ToSet(ids) + {id};
  }

  /** The fees of a set of pooled transactions. */
  ghost function FeesIn(p: Pool, ids: set<Hash>): nat
    requires ids <= p.byId.Keys
  {
    if ids == {} then 0
    else
      var id :| id in ids;
      p.byId[id].fee + FeesIn(p, ids - {id})
  }

  /** The fees of everything pooled. */
  ghost function TotalFees(p: Pool): nat { FeesIn(p, p.byId.Keys) }

  lemma {:induction false} FeesInWithout(p: Pool, ids: set<Hash>, id: Hash)
    requires ids <= p.byId.Keys && id in ids
    ensures FeesIn(p, ids) == p.byId[id].fee + FeesIn(p, ids - {id})
    decreases |ids|
  {
    var j :| j in ids && FeesIn(p, ids) == p.byId[j].fee + FeesIn(p, ids - {j});
    if j != id {
      FeesInWithout(p, ids - {j}, id);
      FeesInWithout(p, ids - {id}, j);
      assert ids - {j} - {id} == ids - {id} - {j};
    }
  }

  lemma {:induction false} FeesInGrow(p: Pool, a: set<Hash>, b: set<Hash>)
    requires a <= b <= p.byId.Keys
    ensures FeesIn(p, a) <= FeesIn(p, b)
    decreases |a|
  {
    if a != {} {
      var id :| id in a;
      FeesInWithout(p, a, id);
      FeesInWithout(p, b, id);
      FeesInGrow(p, a - {id}, b - {id});
    }
  }

  lemma {:induction false} FeesOfDistinct(p: Pool, ids: seq<Hash>)
    requires ToSet(ids) <= p.byId.Keys && Distinct(ids)
    ensures FeesOf(p, ids) == FeesIn(p, ToSet(ids))
    decreases |ids|
  {
    if ids != [] {
      var n := |ids| - 1;
      assert ids == ids[..n] + [ids[n]];
      assert ids[n] in ToSet(ids) && ToSet(ids) - {ids[n]} == ToSet(ids[..n]);
      FeesOfDistinct(p, ids[..n]);
      FeesInWithout(p, ToSet(ids), ids[n]);
    }
  }

  lemma {:induction false} SelectDistinct(c: Context, s: Selection, order: seq<Hash>)
    requires c.Valid() && ToSet(order) <= c.pool.byId.Keys && Distinct(order)
    requires Distinct(s.ids) && ToSet(s.ids) !! ToSet(order)
    ensures Distinct(Select(c, s, order).ids)
    decreases |order|
  {
    if order != [] {
      var next := Consider(c, s, order[0]);
      assert order[0] in ToSet(order) && ToSet(order[1..]) <= ToSet(order);
      assert order[0] !in ToSet(order[1..]);
      assert ToSet(s.ids + [order[0]]) == ToSet(s.ids) + {order[0]};
      SelectDistinct(c, next, order[1..]);
    }
  }

  /** What a selection takes in fees is within what the pool holds. */
  lemma SelectedFeesWithin(c: Context, order: seq<Hash>)
    requires c.Valid() && c.Empty() <= U64_MAX && Lists(order, c.pool.byId.Keys)
    ensures var ids := Select(c, Nothing(c), order).ids;
      ToSet(ids) <= c.pool.byId.Keys && FeesOf(c.pool, ids) <= TotalFees(c.pool)
  {
    var ids := Select(c, Nothing(c), order).ids;
    SelectionIsSound(c, order);
    SelectDistinct(c, Nothing(c), order);
    FeesOfDistinct(c.pool, ids);
    FeesInGrow(c.pool, ToSet(ids), c.pool.byId.Keys);
  }

  /** Public ones anywhere; on a fake chain those in their stem or submitted here as well. */
  predicate MayBeMined(m: RelayMethod, net: Network) {
    m == Fluff || m == Block || (net == Fakechain && (m == Stem || m == Local))
  }

  lemma MinableIff(e: PoolEntry, net: Network)
    ensures Minable(e, net) <==> MayBeMined(e.relay, net)
  {}

  predicate MinableIds(c: Context, ids: seq<Hash>) {
    forall id :: id in ids ==> id in c.pool.byId && MayBeMined(c.pool.byId[id].relay, c.net)
  }

  /** None of an entry's images is among `spent` or on chain. */
  predicate FreeOf(e: PoolEntry, spent: set<KeyImage>, db: Db) {
    forall k :: k in e.tx.images ==> k !in spent && k !in db.images
  }

  /** `spent` is what the chosen spend: none of it on chain, no image by two of them. */
  ghost predicate SpendsOnce(p: Pool, db: Db, ids: seq<Hash>, spent: set<KeyImage>) {
    && (forall k :: k in spent ==> k !in db.images)
    && (forall id :: id in ids ==> id in p.byId && ToSet(p.byId[id].tx.images) <= spent)
    && (forall i, j :: 0 <= i < j < |ids| ==> Apart(p, ids[i], ids[j]))
  }

  ghost predicate Apart(p: Pool, a: Hash, b: Hash) {
    a in p.byId && b in p.byId ==> ToSet(p.byId[a].tx.images) !! ToSet(p.byId[b].tx.images)
  }

  /** The totals are right, they fit, and the coinbase is what they come to. */
  predicate Totals(c: Context, s: Selection)
    requires c.Valid()
  {
    && ToSet(s.ids) <= c.pool.byId.Keys
    && s.weight == WeightOf(c.pool, s.ids)
    && s.fees == Min(FeesOf(c.pool, s.ids), U64_MAX)
    && (s.weight == 0 || s.weight <= c.maxWeight)
    && c.rewardAt(s.weight).Some?
    && s.best == SatAdd64(c.rewardAt(s.weight).value, s.fees)
    && s.best >= c.Empty()
  }

  lemma TotalsKept(c: Context, s: Selection, id: Hash)
    requires c.Valid() && id in c.pool.byId && Totals(c, s)
    ensures Totals(c, Consider(c, s, id))
  {
    var r := Consider(c, s, id);
    if r != s {
      Appended(c.pool, s.ids, id);
      SaturatingSums(c.rewardAt(r.weight).value, s.fees, c.pool.byId[id].fee, FeesOf(c.pool, s.ids));
    }
  }

  lemma SaturatingSums(reward: nat, fees: nat, fee: nat, exact: nat)
    requires fees == Min(exact, U64_MAX)
    ensures SatAdd64(SatAdd64(reward, fees), fee) == SatAdd64(reward, SatAdd64(fees, fee))
    ensures SatAdd64(fees, fee) == Min(exact + fee, U64_MAX)
  {}

  lemma SpendsOnceKept(p: Pool, db: Db, ids: seq<Hash>, spent: set<KeyImage>, id: Hash)
    requires id in p.byId && SpendsOnce(p, db, ids, spent) && !Conflicts(p.byId[id], spent, db)
    ensures SpendsOnce(p, db, ids + [id], spent + ToSet(p.byId[id].tx.images))
  {
    var images := ToSet(p.byId[id].tx.images);
    assert images !! spent;
    forall i, j | 0 <= i < j < |ids + [id]| ensures Apart(p, (ids + [id])[i], (ids + [id])[j]) {
      assert ids[i] in ids;
      if j < |ids| { assert Apart(p, ids[i], ids[j]); }
    }
  }

  lemma ConsiderKeeps(c: Context, s: Selection, id: Hash)
    requires c.Valid() && id in c.pool.byId
    requires Totals(c, s) && MinableIds(c, s.ids) && SpendsOnce(c.pool, c.db, s.ids, s.spent)
    ensures var r := Consider(c, s, id);
      Totals(c, r) && MinableIds(c, r.ids) && SpendsOnce(c.pool, c.db, r.ids, r.spent)
  {
    TotalsKept(c, s, id);
    if Consider(c, s, id) != s {
      SpendsOnceKept(c.pool, c.db, s.ids, s.spent, id);
      MinableIff(c.pool.byId[id], c.net);
    }
  }

  lemma {:induction false} SelectKeeps(c: Context, s: Selection, order: seq<Hash>)
    requires c.Valid() && ToSet(order) <= c.pool.byId.Keys
    requires Totals(c, s) && MinableIds(c, s.ids) && SpendsOnce(c.pool, c.db, s.ids, s.spent)
    ensures var r := Select(c, s, order);
      Totals(c, r) && MinableIds(c, r.ids) && SpendsOnce(c.pool, c.db, r.ids, r.spent)
    decreases |order|
  {
    if order != [] {
      var id := order[0];
      assert id in ToSet(order) && ToSet(order[1..]) <= ToSet(order);
      ConsiderKeeps(c, s, id);
      SelectKeeps(c, Consider(c, s, id), order[1..]);
    }
  }

  /**
   * Whatever the order: the choice is minable, fits the limit, spends each key image
   * once and none spent on chain, and never brings the coinbase below the empty block's.
   */
  lemma SelectionIsSound(c: Context, order: seq<Hash>)
    requires c.Valid() && c.Empty() <= U64_MAX && ToSet(order) <= c.pool.byId.Keys
    ensures var r := Select(c, Nothing(c), order);
      Totals(c, r) && MinableIds(c, r.ids) && SpendsOnce(c.pool, c.db, r.ids, r.spent)
  {
    SelectKeeps(c, Nothing(c), order);
  }

  lemma {:induction false} SelectGrows(c: Context, s: Selection, order: seq<Hash>)
    requires c.Valid() && ToSet(order) <= c.pool.byId.Keys
    ensures var r := Select(c, s, order);
      s.weight <= r.weight && s.spent <= r.spent && ToSet(s.ids) <= ToSet(r.ids)
    decreases |order|
  {
    if order != [] {
      assert order[0] in ToSet(order) && ToSet(order[1..]) <= ToSet(order);
      assert ToSet(s.ids) <= ToSet(s.ids + [order[0]]);
      SelectGrows(c, Consider(c, s, order[0]), order[1..]);
    }
  }

  lemma TakenInTurn(c: Context, s: Selection, id: Hash, free: nat)
    requires c.Valid() && c.FreeUpTo(free) && id in c.pool.byId && Totals(c, s)
    requires var e := c.pool.byId[id];
      MayBeMined(e.relay, c.net) && FreeOf(e, s.spent, c.db)
      && s.weight + e.weight <= Min(c.maxWeight, free)
    ensures id in ToSet(Consider(c, s, id).ids)
  {}

  /**
   * Nothing usable is left behind while it is free: an entry left out that is minable
   * and conflicts with nothing chosen would not fit under the limit without a penalty.
   */
  lemma {:induction false} NothingFreeIsLeftOut(c: Context, s: Selection, order: seq<Hash>, id: Hash, free: nat)
    requires c.Valid() && c.FreeUpTo(free) && ToSet(order) <= c.pool.byId.Keys && Totals(c, s) && id in order
    requires var (e, r) := (c.pool.byId[id], Select(c, s, order));
      MayBeMined(e.relay, c.net) && FreeOf(e, r.spent, c.db) && id !in r.ids
    ensures Select(c, s, order).weight + c.pool.byId[id].weight > Min(c.maxWeight, free)
    decreases |order|
  {
    var first, rest := order[0], order[1..];
    assert first in ToSet(order) && ToSet(rest) <= ToSet(order);
    TotalsKept(c, s, first);
    var next := Consider(c, s, first);
    SelectGrows(c, s, order);
    SelectGrows(c, next, rest);
    if id == first {
      var e := c.pool.byId[id];
      if s.weight + e.weight <= Min(c.maxWeight, free) {
        TakenInTurn(c, s, id, free);
        assert false;
      }
    } else {
      NothingFreeIsLeftOut(c, next, rest, id, free);
    }
  }
}
