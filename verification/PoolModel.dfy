/**
 * The transaction pool as a value: four coupled structures, the operations that
 * change them, and the representation invariant every operation keeps.
 */
module PoolModel {
  import opened Base
  import opened Sorting

  const MAX_TX_SIZE: nat := 1_000_000
  const MAX_TX_EXTRA_SIZE: nat := 1_060
  const MAX_POOL_WEIGHT: nat := 648_000_000
  const TX_LIVETIME: nat := 3 * 86_400
  const TX_FROM_ALT_BLOCK_LIVETIME: nat := 7 * 86_400

  datatype RelayMethod = NoRelay | Local | Forward | Stem | Block | Fluff

  /** Where a method stands in the order a transaction only moves up. */
  function Rank(m: RelayMethod): nat {
    match m
    case NoRelay => 0
    case Local => 1
    case Forward => 2
    case Stem => 3
    case Fluff => 4
    case Block => 5
  }

  /** What parsing a transaction blob yields, as far as the pool looks. */
  datatype Tx = Tx(id: Hash, images: seq<KeyImage>, weight: nat, fee: nat, extraLen: nat, unlockTime: nat)

  datatype PoolEntry = PoolEntry(
    tx: Tx,
    weight: nat,
    fee: nat,
    receiveTime: nat,
    relay: RelayMethod,
    relayed: bool,
    doubleSpendSeen: bool)
  {
    predicate IsPublic() { relay == Fluff || relay == Block }

    predicate IsLegacy() { IsPublic() || relay == NoRelay }

    function Lifetime(): nat {
      if relay == Block then TX_FROM_ALT_BLOCK_LIVETIME else TX_LIVETIME
    }

    predicate IsStale(now: nat) { SatSub(now, receiveTime) > Lifetime() }

    /** Fee per weight; the source's `f64` taken as an exact quotient. */
    function FeeRate(): real {
      if weight == 0 then 0.0 else fee as real / weight as real
    }

    predicate CanUpgrade(m: RelayMethod) { Rank(relay) < Rank(m) }

    function Upgrade(m: RelayMethod): PoolEntry {
      if CanUpgrade(m) then this.(relay := m) else this
    }
  }

  datatype Pool = Pool(
    byId: map<Hash, PoolEntry>,
    spent: map<KeyImage, Hash>,
    weight: nat,
    maxWeight: nat,
    relayedAt: map<Hash, nat>)

  /** What the pool reads of the main chain: confirmed ids and spent key images. */
  datatype Db = Db(ids: set<Hash>, images: set<KeyImage>)

  const EMPTY_POOL := Pool(map[], map[], 0, MAX_POOL_WEIGHT, map[])

  // ---------------------------------------------------------------- invariant

  ghost function TotalWeight(m: map<Hash, PoolEntry>): nat {
    if m == map[] then 0
    else
      var id :| id in m;
      m[id].weight + TotalWeight(m - {id})
  }

  lemma {:induction false} TotalWeightWithout(m: map<Hash, PoolEntry>, id: Hash)
    requires id in m
    ensures TotalWeight(m) == m[id].weight + TotalWeight(m - {id})
    decreases |m|
  {
    var j :| j in m && TotalWeight(m) == m[j].weight + TotalWeight(m - {j});
    if j != id {
      TotalWeightWithout(m - {j}, id);
      TotalWeightWithout(m - {id}, j);
      assert m - {j} - {id} == m - {id} - {j};
    }
  }

  ghost predicate Keyed(byId: map<Hash, PoolEntry>) {
    forall id :: id in byId ==> byId[id].tx.id == id
  }

  /** Every indexed image belongs to the entry the index names, and every held image is indexed. */
  ghost predicate Indexed(byId: map<Hash, PoolEntry>, spent: map<KeyImage, Hash>) {
    && (forall k :: k in spent ==> spent[k] in byId && k in byId[spent[k]].tx.images)
    && (forall id, k :: id in byId && k in byId[id].tx.images ==> k in spent && spent[k] == id)
  }

  /**
   * The index is exactly the union of the entries' key images, one owner each;
   * the weight is the sum of the entries'; relay times exist only for held ids.
   */
  ghost predicate Valid(p: Pool) {
    && Keyed(p.byId)
    && Indexed(p.byId, p.spent)
    && p.weight == TotalWeight(p.byId)
    && p.relayedAt.Keys <= p.byId.Keys
  }

  /** No two pooled transactions share a key image. */
  lemma NoSharedImage(p: Pool, a: Hash, b: Hash, k: KeyImage)
    requires Valid(p) && a in p.byId && b in p.byId
    requires k in p.byId[a].tx.images && k in p.byId[b].tx.images
    ensures a == b
  {
    assert p.spent[k] == a;
  }

  // ----------------------------------------------------------------- removal

  /** `retain`: the index without what the departing transactions owned. */
  function Unindex(spent: map<KeyImage, Hash>, gone: set<Hash>): map<KeyImage, Hash> {
    map k | k in spent && spent[k] !in gone :: spent[k]
  }

  /** `remove`, with its saturating subtraction and its sweep of the index. */
  function Remove(p: Pool, id: Hash): Pool {
    if id !in p.byId then p
    else
      Pool(
        p.byId - {id},
        Unindex(p.spent, {id}),
        SatSub(p.weight, p.byId[id].weight),
        p.maxWeight,
        p.relayedAt - {id})
  }

  /** The pool with a set of entries gone, every structure agreeing. */
  ghost function Without(p: Pool, gone: set<Hash>): Pool {
    Pool(
      p.byId - gone,
      Unindex(p.spent, gone),
      TotalWeight(p.byId - gone),
      p.maxWeight,
      p.relayedAt - gone)
  }

  lemma UnindexKeeps(byId: map<Hash, PoolEntry>, spent: map<KeyImage, Hash>, gone: set<Hash>)
    requires Indexed(byId, spent)
    ensures Indexed(byId - gone, Unindex(spent, gone))
  {
    forall id, k | id in byId - gone && k in (byId - gone)[id].tx.images
      ensures k in Unindex(spent, gone) && spent[k] == id
    {
      assert id in byId && k in byId[id].tx.images;
    }
  }

  lemma WithoutKeeps(p: Pool, gone: set<Hash>)
    requires Valid(p)
    ensures Valid(Without(p, gone))
  {
    UnindexKeeps(p.byId, p.spent, gone);
  }

  /** Removing an entry never saturates the running weight. */
  lemma RemoveIsWithout(p: Pool, id: Hash)
    requires Valid(p)
    ensures Remove(p, id) == Without(p, {id})
    ensures id in p.byId ==> Remove(p, id).weight + p.byId[id].weight == p.weight
    ensures Valid(Remove(p, id))
  {
    WithoutKeeps(p, {id});
    if id in p.byId {
      TotalWeightWithout(p.byId, id);
    } else {
      WithoutNone(p, {id});
    }
  }

  lemma WithoutNone(p: Pool, gone: set<Hash>)
    requires Valid(p) && gone !! p.byId.Keys
    ensures Without(p, gone) == p
  {
    assert p.byId - gone == p.byId && p.relayedAt - gone == p.relayedAt;
    assert Without(p, gone).spent == p.spent;
  }

  lemma WithoutTwice(p: Pool, a: set<Hash>, b: set<Hash>)
    ensures Without(Without(p, a), b) == Without(p, a + b)
  {
    assert p.byId - a - b == p.byId - (a + b);
    assert p.relayedAt - a - b == p.relayedAt - (a + b);
    assert Without(Without(p, a), b).spent == Without(p, a + b).spent;
  }

  /** Only the held part of a removal set matters. */
  lemma WithoutHeld(p: Pool, gone: set<Hash>)
    requires Valid(p)
    ensures Without(p, gone) == Without(p, gone * p.byId.Keys)
  {
    var held := gone * p.byId.Keys;
    assert p.byId - gone == p.byId - held && p.relayedAt - gone == p.relayedAt - held;
    assert Without(p, gone).spent == Without(p, held).spent;
  }

  function StaleIds(p: Pool, now: nat): set<Hash> {
    set id | id in p.byId && p.byId[id].IsStale(now)
  }

  /** What a block's transactions and key images make redundant. */
  function MinedIds(p: Pool, included: set<Hash>, images: set<KeyImage>): set<Hash> {
    set id | id in p.byId && (id in included || exists k :: k in p.byId[id].tx.images && k in images)
  }

  /** What the chain has confirmed or spent. */
  function ConfirmedIds(p: Pool, db: Db): set<Hash> { MinedIds(p, db.ids, db.images) }

  // ---------------------------------------------------------------- eviction

  function RateOf(p: Pool, id: Hash): real {
    if id in p.byId then p.byId[id].FeeRate() else 0.0
  }

  /** Per weight `a` pays no more than `b`: in whole numbers, and nothing counts where there is no weight. */
  predicate PaysNoMore(a: PoolEntry, b: PoolEntry) {
    if a.weight == 0 then true
    else if b.weight == 0 then a.fee == 0
    else a.fee * b.weight <= b.fee * a.weight
  }

  /** The rates compare as the fees and weights do, multiplied crosswise. */
  lemma RateIff(a: PoolEntry, b: PoolEntry)
    ensures a.FeeRate() <= b.FeeRate() <==> PaysNoMore(a, b)
  {
    if a.weight > 0 && b.weight > 0 {
      CrossMultiply(a.fee as real, a.weight as real, b.fee as real, b.weight as real);
      assert (a.fee * b.weight) as real == a.fee as real * b.weight as real;
      assert (b.fee * a.weight) as real == b.fee as real * a.weight as real;
    } else if b.weight > 0 {
      assert b.fee as real / b.weight as real >= 0.0;
    } else if a.weight > 0 {
      CrossMultiply(a.fee as real, a.weight as real, 0.0, 1.0);
    }
  }

  lemma CrossMultiply(f: real, w: real, g: real, v: real)
    requires w > 0.0 && v > 0.0
    ensures f / w <= g / v <==> f * v <= g * w
  {
    var x, y := f / w, g / v;
    assert f == x * w && g == y * v;
    assert f * v == x * (w * v) && g * w == y * (w * v);
  }

  /** The worst-paying first, ties in the order the hash map was walked. */
  function EvictionOrder(p: Pool, walk: seq<Hash>): (order: seq<Hash>)
    ensures |order| == |walk| && multiset(order) == multiset(walk)
  {
    Sort((a, b) => RateOf(p, a) <= RateOf(p, b), walk)
  }

  ghost predicate RatesAscend(p: Pool, order: seq<Hash>) {
    forall i, j :: 0 <= i < j < |order| ==> RateOf(p, order[i]) <= RateOf(p, order[j])
  }

  lemma EvictionOrderLists(p: Pool, walk: seq<Hash>)
    requires Lists(walk, p.byId.Keys)
    ensures Lists(EvictionOrder(p, walk), p.byId.Keys)
    ensures RatesAscend(p, EvictionOrder(p, walk))
  {
    var le := (a, b) => RateOf(p, a) <= RateOf(p, b);
    var order := EvictionOrder(p, walk);
    SortAscends(le, walk);
    assert Ascending(le, order);
    PermutationLists(walk, order, p.byId.Keys);
    forall i, j | 0 <= i < j < |walk| ensures RateOf(p, order[i]) <= RateOf(p, order[j]) {
      assert le(order[i], order[j]);
    }
  }

  lemma PermutationLists(a: seq<Hash>, b: seq<Hash>, keys: set<Hash>)
    requires Lists(a, keys) && multiset(a) == multiset(b)
    ensures Lists(b, keys)
  {
    forall x ensures x in b <==> x in keys {
      assert x in b <==> x in multiset(b);
      assert x in a <==> x in multiset(a);
      assert x in a <==> x in ToSet(a);
    }
    forall i, j | 0 <= i < j < |b| ensures b[i] != b[j] {
      if b[i] == b[j] {
        assert b == b[..i] + [b[i]] + b[i + 1..j] + [b[j]] + b[j + 1..];
        assert multiset(b)[b[i]] >= 2;
        ListsOnce(a, b[i]);
      }
    }
  }

  lemma {:induction false} ListsOnce(a: seq<Hash>, x: Hash)
    requires Distinct(a)
    ensures multiset(a)[x] <= 1
    decreases |a|
  {
    if a != [] {
      ListsOnce(a[1..], x);
      assert a == [a[0]] + a[1..];
      if a[0] == x { assert x !in multiset(a[1..]); }
    }
  }

  /** Drop from the front of `order` until the pool fits. */
  function EvictInOrder(p: Pool, order: seq<Hash>): Pool
    decreases |order|
  {
    if p.weight <= p.maxWeight || order == [] then p
    else EvictInOrder(Remove(p, order[0]), order[1..])
  }

  ghost predicate EvictsTo(p: Pool, q: Pool) {
    exists walk :: Lists(walk, p.byId.Keys) && q == EvictInOrder(p, EvictionOrder(p, walk))
  }

  lemma WithoutPrefix(p: Pool, order: seq<Hash>, m: nat)
    requires m < |order|
    ensures Without(Without(p, {order[0]}), ToSet(order[1..][..m])) == Without(p, ToSet(order[..m + 1]))
  {
    WithoutTwice(p, {order[0]}, ToSet(order[1..][..m]));
    assert order[..m + 1] == [order[0]] + order[1..][..m];
    assert ToSet(order[..m + 1]) == {order[0]} + ToSet(order[1..][..m]);
  }

  lemma RestCovered(p: Pool, order: seq<Hash>)
    requires Valid(p) && p.byId.Keys <= ToSet(order) && order != []
    ensures Remove(p, order[0]).byId.Keys <= ToSet(order[1..])
  {
    forall id | id in Remove(p, order[0]).byId ensures id in order[1..] {
      assert id in ToSet(order) && id != order[0];
    }
  }

  /** `n` is the length of the shortest prefix of `order` whose removal makes the pool fit. */
  ghost predicate ShortestFit(p: Pool, order: seq<Hash>, n: nat) {
    && n <= |order|
    && Without(p, ToSet(order[..n])).weight <= p.maxWeight
    && forall m :: 0 <= m < n ==> Without(p, ToSet(order[..m])).weight > p.maxWeight
  }

  /** Eviction takes the shortest prefix of its order that makes the pool fit. */
  lemma {:induction false} EvictInOrderShape(p: Pool, order: seq<Hash>) returns (n: nat)
    requires Valid(p) && p.byId.Keys <= ToSet(order)
    ensures ShortestFit(p, order, n)
    ensures EvictInOrder(p, order) == Without(p, ToSet(order[..n]))
    decreases |order|
  {
    n := 0;
    assert ToSet(order[..0]) == {};
    WithoutNone(p, {});
    if p.weight > p.maxWeight {
      assert p.byId != map[];
      assert order != [];
      RemoveIsWithout(p, order[0]);
      RestCovered(p, order);
      var k := EvictInOrderShape(Remove(p, order[0]), order[1..]);
      n := k + 1;
      WithoutPrefix(p, order, k);
      FitAfterFirst(p, order, k);
    }
  }

  lemma FitAfterFirst(p: Pool, order: seq<Hash>, k: nat)
    requires Valid(p) && p.weight > p.maxWeight && order != []
    requires ShortestFit(Without(p, {order[0]}), order[1..], k)
    ensures ShortestFit(p, order, k + 1)
  {
    WithoutPrefix(p, order, k);
    forall m | 0 <= m < k + 1 ensures Without(p, ToSet(order[..m])).weight > p.maxWeight {
      if m > 0 {
        WithoutPrefix(p, order, m - 1);
      } else {
        assert ToSet(order[..0]) == {};
        WithoutNone(p, {});
      }
    }
  }

  lemma SurvivorsPayMore(p: Pool, order: seq<Hash>, n: nat, e: Hash, s: Hash)
    requires Lists(order, p.byId.Keys) && n <= |order|
    requires RatesAscend(p, order)
    requires e in order[..n] && s in p.byId && s !in order[..n]
    ensures e in p.byId && p.byId[e].FeeRate() <= p.byId[s].FeeRate()
  {
    assert e in ToSet(order) && s in ToSet(order);
    var i :| 0 <= i < n && order[i] == e;
    var j :| 0 <= j < |order| && order[j] == s;
    assert order[..n] + order[n..] == order && j >= n;
    assert RateOf(p, order[i]) <= RateOf(p, order[j]);
  }

  lemma EvictsToWitness(p: Pool, q: Pool) returns (order: seq<Hash>, n: nat)
    requires Valid(p) && EvictsTo(p, q)
    ensures Lists(order, p.byId.Keys) && RatesAscend(p, order)
    ensures ShortestFit(p, order, n) && q == Without(p, ToSet(order[..n]))
  {
    var walk :| Lists(walk, p.byId.Keys) && q == EvictInOrder(p, EvictionOrder(p, walk));
    order := EvictionOrder(p, walk);
    EvictionOrderLists(p, walk);
    n := EvictInOrderShape(p, order);
  }

  /** No entry left in `q` pays less per weight than one of the evicted. */
  ghost predicate KeepsTheBest(p: Pool, evicted: seq<Hash>, q: Pool) {
    forall e, s :: e in evicted && s in q.byId ==>
      e in p.byId && PaysNoMore(p.byId[e], q.byId[s])
  }

  lemma PrefixKeepsTheBest(p: Pool, order: seq<Hash>, n: nat)
    requires Lists(order, p.byId.Keys) && n <= |order| && RatesAscend(p, order)
    ensures KeepsTheBest(p, order[..n], Without(p, ToSet(order[..n])))
  {
    var q := Without(p, ToSet(order[..n]));
    forall e, s | e in order[..n] && s in q.byId
      ensures e in p.byId && PaysNoMore(p.byId[e], q.byId[s])
    {
      assert s !in ToSet(order[..n]);
      SurvivorsPayMore(p, order, n, e, s);
      RateIff(p.byId[e], q.byId[s]);
    }
  }

  /**
   * Afterwards the pool fits; no survivor pays less per weight than an evicted
   * entry; and putting the last evicted entry back would not fit.
   */
  lemma EvictionKeepsTheBest(p: Pool, q: Pool) returns (evicted: seq<Hash>)
    requires Valid(p) && EvictsTo(p, q)
    ensures Valid(q) && q == Without(p, ToSet(evicted)) && q.weight <= p.maxWeight
    ensures KeepsTheBest(p, evicted, q)
    ensures evicted != [] ==>
              Without(p, ToSet(evicted[..|evicted| - 1])).weight > p.maxWeight
    ensures p.weight <= p.maxWeight ==> q == p
  {
    var order, n := EvictsToWitness(p, q);
    evicted := order[..n];
    WithoutKeeps(p, ToSet(evicted));
    PrefixKeepsTheBest(p, order, n);
    ShortestFitIsTight(p, order, n);
  }

  lemma ShortestFitIsTight(p: Pool, order: seq<Hash>, n: nat)
    requires Valid(p) && ShortestFit(p, order, n)
    ensures n > 0 ==> Without(p, ToSet(order[..n][..n - 1])).weight > p.maxWeight
    ensures p.weight <= p.maxWeight ==> Without(p, ToSet(order[..n])) == p
  {
    assert ToSet(order[..0]) == {};
    WithoutNone(p, {});
    if n > 0 { assert order[..n][..n - 1] == order[..n - 1]; }
  }

  // --------------------------------------------------------------- admission

  datatype Rejection =
    | NotParseable
    | AlreadyInPool
    | TooBig(weight: nat)
    | FeeUnknown
    | FeeTooLow(got: nat, needed: nat)
    | TxExtraTooBig(len: nat)
    | NonZeroUnlockTime(unlockTime: nat)
    | DoubleSpend
    | NotVerified(why: nat)

  datatype RequiredFee = RequiredFee(needed: nat, acceptedMinimum: nat)

  /** The fee rule and the signature check, whose internals are not modelled. */
  datatype Rules = Rules(requiredFee: nat -> Option<RequiredFee>, verify: Tx -> Option<nat>)

  /** `have_tx_keyimg_as_spent`: a private holder of the image asking again is not a double spend. */
  predicate SpentInPool(p: Pool, k: KeyImage, id: Hash) {
    k in p.spent && (p.spent[k] != id || (id in p.byId && p.byId[id].IsLegacy()))
  }

  predicate ImageFree(p: Pool, db: Db, k: KeyImage, id: Hash) {
    k !in db.images && !SpentInPool(p, k, id)
  }

  predicate IsKnown(p: Pool, db: Db, id: Hash) {
    (id in p.byId && p.byId[id].IsLegacy()) || id in db.ids
  }

  /** The admission checks in the source's order; `None` admits. */
  function Verdict(p: Pool, db: Db, tx: Tx, rules: Rules): Option<Rejection> {
    if IsKnown(p, db, tx.id) then Some(AlreadyInPool)
    else if tx.weight > MAX_TX_SIZE then Some(TooBig(tx.weight))
    else if rules.requiredFee(tx.weight).None? then Some(FeeUnknown)
    else if tx.fee < rules.requiredFee(tx.weight).value.acceptedMinimum then
      Some(FeeTooLow(tx.fee, rules.requiredFee(tx.weight).value.needed))
    else if tx.extraLen > MAX_TX_EXTRA_SIZE then Some(TxExtraTooBig(tx.extraLen))
    else if tx.unlockTime != 0 then Some(NonZeroUnlockTime(tx.unlockTime))
    else if exists k :: k in tx.images && !ImageFree(p, db, k, tx.id) then Some(DoubleSpend)
    else if rules.verify(tx).Some? then Some(NotVerified(rules.verify(tx).value))
    else None
  }

  /** `insert`: index the images, add the weight, hold the entry. */
  function Insert(p: Pool, tx: Tx, entry: PoolEntry): Pool {
    p.(
      byId := p.byId[tx.id := entry],
      spent := p.spent + (map k | k in tx.images :: tx.id),
      weight := p.weight + entry.weight)
  }

  lemma IndexInsert(byId: map<Hash, PoolEntry>, spent: map<KeyImage, Hash>, tx: Tx, entry: PoolEntry)
    requires Indexed(byId, spent) && tx.id !in byId && entry.tx == tx
    requires forall k :: k in tx.images ==> k !in spent
    ensures Indexed(byId[tx.id := entry], spent + (map k | k in tx.images :: tx.id))
  {
    var byId', spent' := byId[tx.id := entry], spent + (map k | k in tx.images :: tx.id);
    forall id, k | id in byId' && k in byId'[id].tx.images ensures k in spent' && spent'[k] == id {
      if id != tx.id { assert id in byId && k in byId[id].tx.images; }
    }
  }

  lemma InsertKeeps(p: Pool, tx: Tx, entry: PoolEntry)
    requires Valid(p) && tx.id !in p.byId && entry.tx == tx
    requires forall k :: k in tx.images ==> k !in p.spent
    ensures Valid(Insert(p, tx, entry))
  {
    IndexInsert(p.byId, p.spent, tx, entry);
    TotalWeightWithout(p.byId[tx.id := entry], tx.id);
    assert p.byId[tx.id := entry] - {tx.id} == p.byId;
  }

  /** Changing an entry's standing, not its transaction or weight, disturbs nothing else. */
  lemma RestampKeeps(p: Pool, id: Hash, e: PoolEntry)
    requires Valid(p) && id in p.byId && e.tx == p.byId[id].tx && e.weight == p.byId[id].weight
    ensures Valid(p.(byId := p.byId[id := e]))
  {
    var byId' := p.byId[id := e];
    TotalWeightWithout(p.byId, id);
    TotalWeightWithout(byId', id);
    assert p.byId - {id} == byId' - {id};
    assert forall j :: j in byId' <==> j in p.byId;
    assert forall j :: j in byId' ==> byId'[j].tx == p.byId[j].tx;
    assert Indexed(byId', p.spent);
  }

  predicate FromPeer(m: RelayMethod) { m == Stem || m == Fluff || m == Forward }

  /** Seen as stem while held as stem, a transaction has come full circle and goes public. */
  function EffectiveMethod(p: Pool, id: Hash, m: RelayMethod): RelayMethod {
    if id in p.byId && m == Stem && p.byId[id].relay == Stem then Fluff else m
  }

  function Reseen(e: PoolEntry, m: RelayMethod, now: nat, relayed: bool): PoolEntry {
    if e.CanUpgrade(m) then
      e.(relay := m, receiveTime := now, relayed := relayed, doubleSpendSeen := false)
    else e
  }

  function NewEntry(tx: Tx, now: nat, m: RelayMethod, relayed: bool): PoolEntry {
    PoolEntry(tx, tx.weight, tx.fee, now, m, relayed, false)
  }

  /** What admitting `tx` does: move a held copy on, or expire, insert and evict. */
  ghost predicate Admits(p: Pool, tx: Tx, now: nat, m: RelayMethod, q: Pool) {
    if tx.id in p.byId then
      q == p.(byId := p.byId[tx.id := Reseen(p.byId[tx.id], EffectiveMethod(p, tx.id, m), now, FromPeer(m))])
    else
      EvictsTo(Insert(Without(p, StaleIds(p, now)), tx, NewEntry(tx, now, m, FromPeer(m))), q)
  }

  /** The image check of `add`, as the insertion relies on it. */
  ghost predicate ImagesFreeInPool(p: Pool, tx: Tx) {
    forall k :: k in tx.images ==> !SpentInPool(p, k, tx.id)
  }

  lemma AdmitsKeeps(p: Pool, tx: Tx, now: nat, m: RelayMethod, q: Pool)
    requires Valid(p) && ImagesFreeInPool(p, tx) && Admits(p, tx, now, m, q)
    requires tx.id in p.byId ==> p.byId[tx.id].tx == tx
    ensures Valid(q)
    ensures q.byId.Keys <= p.byId.Keys + {tx.id}
    ensures forall id :: id in q.byId && id in p.byId ==>
              q.byId[id].tx == p.byId[id].tx && Rank(p.byId[id].relay) <= Rank(q.byId[id].relay)
    ensures tx.id in q.byId ==> q.byId[tx.id].tx == tx
    ensures q.maxWeight == p.maxWeight
    ensures tx.id in q.byId && tx.id !in p.byId ==> tx.weight <= p.maxWeight
  {
    if tx.id in p.byId {
      var m' := EffectiveMethod(p, tx.id, m);
      RestampKeeps(p, tx.id, Reseen(p.byId[tx.id], m', now, FromPeer(m)));
    } else {
      NewcomerKeeps(p, StaleIds(p, now), tx, NewEntry(tx, now, m, FromPeer(m)), q);
    }
  }

  /** Expiry, insertion and eviction change no entry that stays. */
  lemma NewcomerKeeps(p: Pool, stale: set<Hash>, tx: Tx, e: PoolEntry, q: Pool)
    requires Valid(p) && tx.id !in p.byId && e.tx == tx && ImagesFreeInPool(p, tx)
    requires EvictsTo(Insert(Without(p, stale), tx, e), q)
    ensures Valid(q) && q.byId.Keys <= p.byId.Keys + {tx.id}
    ensures forall id :: id in q.byId && id in p.byId ==> q.byId[id] == p.byId[id]
    ensures tx.id in q.byId ==> q.byId[tx.id] == e && e.weight <= p.maxWeight
    ensures q.maxWeight == p.maxWeight
  {
    InsertedAfterExpiry(p, stale, tx, e);
    EvictedIsSubpool(Insert(Without(p, stale), tx, e), q);
  }

  lemma InsertedAfterExpiry(p: Pool, stale: set<Hash>, tx: Tx, e: PoolEntry)
    requires Valid(p) && tx.id !in p.byId && e.tx == tx && ImagesFreeInPool(p, tx)
    ensures Valid(Insert(Without(p, stale), tx, e))
  {
    WithoutKeeps(p, stale);
    InsertKeeps(Without(p, stale), tx, e);
  }

  lemma EvictedIsSubpool(p: Pool, q: Pool)
    requires Valid(p) && EvictsTo(p, q)
    ensures Valid(q) && q.byId.Keys <= p.byId.Keys && forall id :: id in q.byId ==> q.byId[id] == p.byId[id]
    ensures q.maxWeight == p.maxWeight && forall id :: id in q.byId ==> q.byId[id].weight <= p.maxWeight
  {
    var _ := EvictionKeepsTheBest(p, q);
    forall id | id in q.byId ensures q.byId[id].weight <= p.maxWeight { TotalWeightWithout(q.byId, id); }
  }

  /** A transaction back from a block that left the chain: no relay policy, no eviction. */
  function KeptVerdict(p: Pool, db: Db, tx: Tx, verified: bool): Option<Rejection> {
    if tx.id in p.byId then Some(AlreadyInPool)
    else if exists k :: k in tx.images && !ImageFree(p, db, k, tx.id) then Some(DoubleSpend)
    else if !verified then Some(NotVerified(0))
    else None
  }

  function AddKept(p: Pool, db: Db, tx: Tx, verified: bool, now: nat): Pool {
    if KeptVerdict(p, db, tx, verified).Some? then p
    else Insert(p, tx, NewEntry(tx, now, Block, true))
  }

  lemma AddKeptKeeps(p: Pool, db: Db, tx: Tx, verified: bool, now: nat)
    requires Valid(p)
    ensures Valid(AddKept(p, db, tx, verified, now))
  {
    if KeptVerdict(p, db, tx, verified).None? {
      forall k | k in tx.images ensures k !in p.spent {
        assert ImageFree(p, db, k, tx.id);
      }
      InsertKeeps(p, tx, NewEntry(tx, now, Block, true));
    }
  }

  // ------------------------------------------------------------------- relay

  /** One step of `set_relayed`: upgrade, mark relayed, note the time. */
  function MarkRelayed(p: Pool, id: Hash, m: RelayMethod, now: nat): Pool {
    if id !in p.byId then p
    else p.(
           byId := p.byId[id := p.byId[id].Upgrade(m).(relayed := true)],
           relayedAt := p.relayedAt[id := now])
  }

  /** Whether marking `id` made it public just now. */
  predicate BecomesPublic(p: Pool, id: Hash, m: RelayMethod) {
    id in p.byId && !p.byId[id].IsPublic() && p.byId[id].Upgrade(m).IsPublic()
  }

  function SetRelayed(p: Pool, ids: seq<Hash>, m: RelayMethod, now: nat): Pool {
    if ids == [] then p
    else MarkRelayed(SetRelayed(p, ids[..|ids| - 1], m, now), ids[|ids| - 1], m, now)
  }

  /** The ids `set_relayed` reports, in the order it meets them. */
  function NewlyPublic(p: Pool, ids: seq<Hash>, m: RelayMethod, now: nat): seq<Hash> {
    if ids == [] then []
    else
      var last := ids[|ids| - 1];
      var before := SetRelayed(p, ids[..|ids| - 1], m, now);
      NewlyPublic(p, ids[..|ids| - 1], m, now) + (if BecomesPublic(before, last, m) then [last] else [])
  }

  lemma MarkRelayedKeeps(p: Pool, id: Hash, m: RelayMethod, now: nat)
    requires Valid(p)
    ensures Valid(MarkRelayed(p, id, m, now))
  {
    if id in p.byId {
      RestampKeeps(p, id, p.byId[id].Upgrade(m).(relayed := true));
    }
  }

  lemma {:induction false} SetRelayedKeeps(p: Pool, ids: seq<Hash>, m: RelayMethod, now: nat)
    requires Valid(p)
    ensures Valid(SetRelayed(p, ids, m, now))
  {
    if ids != [] {
      SetRelayedKeeps(p, ids[..|ids| - 1], m, now);
      MarkRelayedKeeps(SetRelayed(p, ids[..|ids| - 1], m, now), ids[|ids| - 1], m, now);
    }
  }
}
