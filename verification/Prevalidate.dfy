/** Transactions verified ahead of the block that carries them. */
module Prevalidate {
  import opened Base
  import Q = WorkerQueue

  const CRYPTONOTE_MAX_BLOCK_NUMBER: nat := 500_000_000
  const LOCKED_TX_ALLOWED_DELTA_BLOCKS: nat := 1
  const LOCKED_TX_ALLOWED_DELTA_SECONDS: nat := 300
  const DEFAULT_TX_SPENDABLE_AGE: nat := 4
  const HF_VERSION_ENFORCE_MIN_AGE: nat := 15

  /** An output as a ring member: where it was made, when it unlocks, its keys. */
  datatype Output = Output(height: nat, unlockTime: nat, keys: nat)

  /** A transaction's id and, per input, the absolute output indices of its ring. */
  datatype RingTx = RingTx(id: Hash, rings: seq<seq<nat>>)

  /** The range proof, balance and shape checks, and one ring signature. */
  datatype Crypto = Crypto(proves: RingTx -> bool, signs: (RingTx, nat, seq<Output>) -> bool)

  predicate Unlocked(unlockTime: nat, height: nat, now: nat) {
    if unlockTime < CRYPTONOTE_MAX_BLOCK_NUMBER then
      SatSub(height, 1) + LOCKED_TX_ALLOWED_DELTA_BLOCKS >= unlockTime
    else SatAdd64(now, LOCKED_TX_ALLOWED_DELTA_SECONDS) >= unlockTime
  }

  predicate OldEnough(version: nat, newest: nat, height: nat) {
    version < HF_VERSION_ENFORCE_MIN_AGE || newest + DEFAULT_TX_SPENDABLE_AGE <= height
  }

  function Newest(members: seq<Output>): nat {
    if members == [] then 0 else Max(members[0].height, Newest(members[1..]))
  }

  predicate MembersOk(members: seq<Output>, height: nat, version: nat, now: nat) {
    && (forall m :: m in members ==> Unlocked(m.unlockTime, height, now))
    && OldEnough(version, Newest(members), height)
  }

  /** Which members may be spent: each unlocked, by height or by time, and from version 15 each four blocks old. */
  lemma MembersOkIff(members: seq<Output>, height: nat, version: nat, now: nat)
    ensures MembersOk(members, height, version, now) <==>
      && (forall m :: m in members ==>
            if m.unlockTime < 500_000_000 then m.unlockTime <= Max(height, 1)
            else m.unlockTime <= Min(now + 300, U64_MAX))
      && (version >= 15 && members != [] ==> forall m :: m in members ==> m.height + 4 <= height)
      && (version >= 15 && members == [] ==> 4 <= height)
  {
    NewestIs(members);
  }

  lemma {:induction false} NewestIs(members: seq<Output>)
    ensures forall m :: m in members ==> m.height <= Newest(members)
    ensures members != [] ==> exists m :: m in members && m.height == Newest(members)
    ensures members == [] ==> Newest(members) == 0
  {
    if members != [] {
      NewestIs(members[1..]);
      assert forall m :: m in members <==> m == members[0] || m in members[1..];
    }
  }

  predicate Resolves(outs: seq<Output>, ring: seq<nat>) { forall i :: i in ring ==> i < |outs| }

  function Ring(outs: seq<Output>, ring: seq<nat>): seq<Output>
    requires Resolves(outs, ring)
  {
    seq(|ring|, i requires 0 <= i < |ring| => assert ring[i] in ring; outs[ring[i]])
  }

  predicate InputOk(c: Crypto, outs: seq<Output>, tx: RingTx, slot: nat, version: nat, height: nat, now: nat)
    requires slot < |tx.rings|
  {
    && Resolves(outs, tx.rings[slot])
    && MembersOk(Ring(outs, tx.rings[slot]), height, version, now)
    && c.signs(tx, slot, Ring(outs, tx.rings[slot]))
  }

  /** `check_tx_inputs` over the outputs the store holds. */
  predicate Verifies(c: Crypto, outs: seq<Output>, tx: RingTx, version: nat, height: nat, now: nat) {
    && c.proves(tx)
    && forall slot :: 0 <= slot < |tx.rings| ==> InputOk(c, outs, tx, slot, version, height, now)
  }

  /** A version whose age rule is no stricter than another's. */
  predicate NoStricter(asked: nat, checked: nat) {
    asked < HF_VERSION_ENFORCE_MIN_AGE || checked >= HF_VERSION_ENFORCE_MIN_AGE
  }

  /** A chain that only grew keeps every output where it was, so every ring resolves to the same members. */
  lemma RingGrows(outs: seq<Output>, more: seq<Output>, ring: seq<nat>)
    requires outs <= more && Resolves(outs, ring)
    ensures Resolves(more, ring) && Ring(more, ring) == Ring(outs, ring)
  {
    forall i | 0 <= i < |ring| ensures Ring(more, ring)[i] == Ring(outs, ring)[i] { assert ring[i] in ring; }
  }

  /** A pass holds later: at a greater height, a later clock, a longer chain, a version no stricter. */
  lemma PassesLater(c: Crypto, outs: seq<Output>, more: seq<Output>, tx: RingTx,
                    v: nat, v': nat, h: nat, h': nat, now: nat, now': nat)
    requires outs <= more && h <= h' && now <= now' && NoStricter(v', v)
    requires Verifies(c, outs, tx, v, h, now)
    ensures Verifies(c, more, tx, v', h', now')
  {
    forall slot | 0 <= slot < |tx.rings| ensures InputOk(c, more, tx, slot, v', h', now') {
      assert InputOk(c, outs, tx, slot, v, h, now);
      RingGrows(outs, more, tx.rings[slot]);
      var members := Ring(outs, tx.rings[slot]);
      assert forall m :: m in members ==> Unlocked(m.unlockTime, h', now');
    }
  }

  /** A fresh ring member passes before the age rule and fails after it. */
  lemma StaleVersionMisleads(v: nat, v': nat) returns (c: Crypto, outs: seq<Output>, tx: RingTx)
    requires !NoStricter(v', v)
    ensures Verifies(c, outs, tx, v, 1, 0) && !Verifies(c, outs, tx, v', 1, 0)
  {
    c := Crypto(_ => true, (_, _, _) => true);
    outs := [Output(0, 0, 0)];
    tx := RingTx(0, [[0]]);
    assert Ring(outs, [0]) == outs && outs[1..] == [] && Newest(outs) == 0;
    assert InputOk(c, outs, tx, 0, v, 1, 0);
    assert !InputOk(c, outs, tx, 0, v', 1, 0);
  }

  /** Every ring resolves, to members that may be spent. */
  predicate MembersHold(outs: seq<Output>, tx: RingTx, version: nat, height: nat, now: nat) {
    forall slot :: 0 <= slot < |tx.rings| ==> SlotHolds(outs, tx.rings[slot], version, height, now)
  }

  predicate SlotHolds(outs: seq<Output>, ring: seq<nat>, version: nat, height: nat, now: nat) {
    Resolves(outs, ring) && MembersOk(Ring(outs, ring), height, version, now)
  }

  /** Every ring means the same members in both stores. */
  predicate SameMembers(outs: seq<Output>, outs': seq<Output>, tx: RingTx) {
    forall slot :: 0 <= slot < |tx.rings| ==> SameRing(outs, outs', tx.rings[slot])
  }

  predicate SameRing(outs: seq<Output>, outs': seq<Output>, ring: seq<nat>) {
    Resolves(outs, ring) && Resolves(outs', ring) && Ring(outs, ring) == Ring(outs', ring)
  }

  /** A verifier that accepts the signatures made over exactly these members. */
  function SignedOver(outs: seq<Output>): Crypto {
    Crypto(_ => true, (tx: RingTx, slot: nat, members) =>
      slot < |tx.rings| && Resolves(outs, tx.rings[slot]) && members == Ring(outs, tx.rings[slot]))
  }

  lemma SameMembersVerify(c: Crypto, outs: seq<Output>, outs': seq<Output>, tx: RingTx,
                          v: nat, v': nat, h: nat, h': nat, now: nat, now': nat)
    requires SameMembers(outs, outs', tx) && Verifies(c, outs, tx, v, h, now)
    ensures Verifies(c, outs', tx, v', h', now') <==> MembersHold(outs', tx, v', h', now')
  {
    forall slot | 0 <= slot < |tx.rings|
      ensures InputOk(c, outs', tx, slot, v', h', now') <==> SlotHolds(outs', tx.rings[slot], v', h', now')
    {
      assert SameRing(outs, outs', tx.rings[slot]) && InputOk(c, outs, tx, slot, v, h, now);
    }
  }

  /**
   * A pass stays right on any other store, height, clock and version, whatever was
   * signed, exactly when every ring means the same members there and they may be spent.
   */
  lemma PassCarriesIff(outs: seq<Output>, outs': seq<Output>, tx: RingTx,
                       v: nat, v': nat, h: nat, h': nat, now: nat, now': nat)
    requires MembersHold(outs, tx, v, h, now)
    ensures (forall c :: Verifies(c, outs, tx, v, h, now) ==> Verifies(c, outs', tx, v', h', now'))
            <==> SameMembers(outs, outs', tx) && MembersHold(outs', tx, v', h', now')
  {
    if SameMembers(outs, outs', tx) && MembersHold(outs', tx, v', h', now') {
      forall c | Verifies(c, outs, tx, v, h, now) ensures Verifies(c, outs', tx, v', h', now') {
        SameMembersVerify(c, outs, outs', tx, v, v', h, h', now, now');
      }
    } else {
      var c := SignedOver(outs);
      forall slot | 0 <= slot < |tx.rings| ensures InputOk(c, outs, tx, slot, v, h, now) {
        assert SlotHolds(outs, tx.rings[slot], v, h, now);
      }
      if Verifies(c, outs', tx, v', h', now') {
        forall slot | 0 <= slot < |tx.rings|
          ensures SameRing(outs, outs', tx.rings[slot]) && SlotHolds(outs', tx.rings[slot], v', h', now')
        {
          assert SlotHolds(outs, tx.rings[slot], v, h, now) && InputOk(c, outs', tx, slot, v', h', now');
        }
      }
    }
  }

  /**
   * Answers are kept by id alone. An answer obtained under version `v` may be
   * given under `v'` for every transaction, chain growth and clock exactly when
   * `v'` is no stricter about age.
   */
  lemma ReadyAnswerIsRightIff(v: nat, v': nat)
    ensures (forall c: Crypto, outs: seq<Output>, more: seq<Output>, tx: RingTx, h: nat, h': nat, now: nat, now': nat ::
               outs <= more && h <= h' && now <= now' && Verifies(c, outs, tx, v, h, now) ==>
                 Verifies(c, more, tx, v', h', now'))
            <==> NoStricter(v', v)
  {
    if NoStricter(v', v) {
      forall c: Crypto, outs: seq<Output>, more: seq<Output>, tx: RingTx, h: nat, h': nat, now: nat, now': nat
        | outs <= more && h <= h' && now <= now' && Verifies(c, outs, tx, v, h, now)
        ensures Verifies(c, more, tx, v', h', now')
      {
        PassesLater(c, outs, more, tx, v, v', h, h', now, now');
      }
    } else {
      var c, outs, tx := StaleVersionMisleads(v, v');
      assert outs <= outs;
    }
  }

  // ------------------------------------------------------ the ready set, in use

  /**
   * A check under way: the rings are resolved one by one, without the chain lock. For each
   * ring so far, the store it was resolved in; and the deepest pop since the first of them.
   */
  datatype Reading = Reading(seen: seq<seq<Output>>, low: Option<nat>)

  /** A call of `prevalidate`: its list, its counter, the height and clock it read on entry, each thread's check. */
  datatype Batch = Batch(
    todo: seq<(RingTx, nat)>, queue: Q.Queue, height: nat, now: nat, readings: seq<Option<Reading>>)

  /** A stored pass: of the program only the id is kept. The rest records, for the proof, how it came about. */
  datatype Pass = Pass(version: nat, height: nat, now: nat, reading: Reading)

  datatype State = State(outs: seq<Output>, height: nat, clock: nat, ready: map<Hash, Pass>, batches: seq<Batch>)

  ghost predicate Grow(s: State, t: State) {
    && s.outs <= t.outs && s.height <= t.height && s.clock <= t.clock
    && t == s.(outs := t.outs, height := t.height, clock := t.clock)
  }

  /** A pop to `n` outputs, as a check that has resolved something remembers it. */
  function Lowered(r: Reading, n: nat): Reading {
    if r.seen == [] then r else r.(low := Some(if r.low.Some? then Min(r.low.value, n) else n))
  }

  function LoweredPasses(ready: map<Hash, Pass>, n: nat): map<Hash, Pass> {
    map id | id in ready :: ready[id].(reading := Lowered(ready[id].reading, n))
  }

  function LoweredBatch(q: Batch, n: nat): Batch {
    q.(readings := seq(|q.readings|, w requires 0 <= w < |q.readings| =>
      if q.readings[w].Some? then Some(Lowered(q.readings[w].value, n)) else None))
  }

  function LoweredBatches(batches: seq<Batch>, n: nat): seq<Batch> {
    seq(|batches|, b requires 0 <= b < |batches| => LoweredBatch(batches[b], n))
  }

  /** Blocks come off, and with them at least their coinbases; a reorganisation is this and then growth. */
  ghost predicate Pop(s: State, t: State) {
    var n := |t.outs|;
    && n < |s.outs| && t.outs == s.outs[..n] && t.height <= s.height
    && t == s.(
         outs := t.outs, height := t.height,
         ready := LoweredPasses(s.ready, n), batches := LoweredBatches(s.batches, n))
  }

  ghost predicate Begin(s: State, t: State) {
    exists todo: seq<(RingTx, nat)>, threads: nat ::
      t == s.(batches := s.batches + [Opened(todo, threads, s.height, s.clock)])
  }

  function Opened(todo: seq<(RingTx, nat)>, threads: nat, height: nat, now: nat): Batch {
    Batch(todo, Q.Fresh(|todo|, threads), height, now, seq(threads, _ => None))
  }

  ghost predicate InBatch(s: State, t: State, b: nat) {
    && b < |s.batches| == |t.batches| && t.batches == s.batches[b := t.batches[b]]
    && t.batches[b] == s.batches[b].(queue := t.batches[b].queue, readings := t.batches[b].readings)
    && t == s.(batches := t.batches, ready := t.ready)
  }

  ghost predicate Claims(s: State, t: State, b: nat, w: nat) {
    && InBatch(s, t, b) && t.ready == s.ready && t.batches[b].readings == s.batches[b].readings
    && Q.Claim(s.batches[b].queue, w, t.batches[b].queue)
  }

  /** Thread `w` of the batch holds an item. */
  predicate Holds(q: Batch, w: nat) {
    && w < |q.readings| == |q.queue.workers| && q.queue.workers[w].Holding? && q.queue.workers[w].i < |q.todo|
  }

  function Item(q: Batch, w: nat): (RingTx, nat)
    requires Holds(q, w)
  {
    q.todo[q.queue.workers[w].i]
  }

  function SoFar(q: Batch, w: nat): Reading
    requires Holds(q, w)
  {
    if q.readings[w].Some? then q.readings[w].value else Reading([], None)
  }

  /** Resolve the next ring in the store as it is now, and check its members and signature at the batch's height. */
  ghost predicate ReadsRing(s: State, t: State, b: nat, w: nat, c: Crypto) {
    && InBatch(s, t, b) && t.ready == s.ready && Holds(s.batches[b], w)
    && t.batches[b].queue == s.batches[b].queue
    && var q := s.batches[b];
       var r, slot := SoFar(q, w), |SoFar(q, w).seen|;
       && slot < |Item(q, w).0.rings|
       && InputOk(c, s.outs, Item(q, w).0, slot, Item(q, w).1, q.height, q.now)
       && t.batches[b].readings == q.readings[w := Some(Reading(r.seen + [s.outs], r.low))]
  }

  /** Something did not verify: nothing is kept. */
  ghost predicate Fails(s: State, t: State, b: nat, w: nat) {
    && InBatch(s, t, b) && t.ready == s.ready && Holds(s.batches[b], w)
    && Q.Finish(s.batches[b].queue, w, t.batches[b].queue)
    && t.batches[b].readings == s.batches[b].readings[w := None]
  }

  /** Every ring, the range proof and the balance verified: the id is kept. */
  ghost predicate Stores(s: State, t: State, b: nat, w: nat, c: Crypto) {
    && InBatch(s, t, b) && Holds(s.batches[b], w)
    && Q.Finish(s.batches[b].queue, w, t.batches[b].queue)
    && t.batches[b].readings == s.batches[b].readings[w := None]
    && var q := s.batches[b];
       var (tx, version) := Item(q, w);
       && |SoFar(q, w).seen| == |tx.rings| && c.proves(tx)
       && t.ready == s.ready[tx.id := Pass(version, q.height, q.now, SoFar(q, w))]
  }

  ghost predicate Works(s: State, t: State, b: nat, w: nat, c: Crypto) {
    Claims(s, t, b, w) || ReadsRing(s, t, b, w, c) || Fails(s, t, b, w) || Stores(s, t, b, w, c)
  }

  ghost predicate Removes(s: State, t: State) { exists gone :: t == s.(ready := s.ready - gone) }

  ghost predicate Next(s: State, t: State, c: Crypto) {
    || Grow(s, t) || Pop(s, t) || Begin(s, t) || Removes(s, t)
    || exists b: nat, w: nat :: Works(s, t, b, w, c)
  }

  /** Distinct blobs have distinct ids: `txOf` names the transaction an id stands for. */
  ghost predicate Named(s: State, txOf: Hash -> RingTx) {
    forall b, i :: 0 <= b < |s.batches| && 0 <= i < |s.batches[b].todo| ==>
      txOf(s.batches[b].todo[i].0.id) == s.batches[b].todo[i].0
  }

  // ---------------------------------------------------------------- invariant

  /** Below the deepest pop since, `outs` is as it was when `seen` was read. */
  predicate Agrees(seen: seq<Output>, low: Option<nat>, outs: seq<Output>) {
    match low
    case None => seen <= outs
    case Some(n) => n <= |outs| && seen[..Min(n, |seen|)] == outs[..Min(n, |seen|)]
  }

  predicate SlotOk(c: Crypto, outs: seq<Output>, tx: RingTx, version: nat, height: nat, now: nat, r: Reading, slot: nat)
    requires slot < |r.seen| <= |tx.rings|
  {
    InputOk(c, r.seen[slot], tx, slot, version, height, now) && Agrees(r.seen[slot], r.low, outs)
  }

  ghost predicate ReadingOk(
      c: Crypto, outs: seq<Output>, tx: RingTx, version: nat, height: nat, now: nat, r: Reading) {
    && |r.seen| <= |tx.rings|
    && forall slot :: 0 <= slot < |r.seen| ==> SlotOk(c, outs, tx, version, height, now, r, slot)
  }

  ghost predicate PassOk(c: Crypto, outs: seq<Output>, clock: nat, tx: RingTx, p: Pass) {
    && c.proves(tx) && |p.reading.seen| == |tx.rings| && p.now <= clock
    && ReadingOk(c, outs, tx, p.version, p.height, p.now, p.reading)
  }

  /** What thread `w` has resolved so far is of the item it holds, and was right. */
  ghost predicate ThreadOk(c: Crypto, outs: seq<Output>, q: Batch, w: nat) {
    w < |q.readings| && q.readings[w].Some? ==>
      Holds(q, w) && ReadingOk(c, outs, Item(q, w).0, Item(q, w).1, q.height, q.now, q.readings[w].value)
  }

  ghost predicate BatchOk(c: Crypto, outs: seq<Output>, clock: nat, q: Batch) {
    && q.now <= clock && |q.readings| == |q.queue.workers|
    && forall w :: 0 <= w < |q.readings| ==> ThreadOk(c, outs, q, w)
  }

  ghost predicate Inv(s: State, c: Crypto, txOf: Hash -> RingTx) {
    && (forall b :: 0 <= b < |s.batches| ==> BatchOk(c, s.outs, s.clock, s.batches[b]))
    && forall id :: id in s.ready ==> PassOk(c, s.outs, s.clock, txOf(id), s.ready[id])
  }

  lemma AgreesGrown(seen: seq<Output>, low: Option<nat>, outs: seq<Output>, more: seq<Output>)
    requires Agrees(seen, low, outs) && outs <= more
    ensures Agrees(seen, low, more)
  {
    if low.Some? {
      var k := Min(low.value, |seen|);
      assert more[..k] == outs[..k];
    }
  }

  lemma AgreesPopped(seen: seq<Output>, r: Reading, outs: seq<Output>, n: nat)
    requires Agrees(seen, r.low, outs) && n <= |outs| && r.seen != []
    ensures Agrees(seen, Lowered(r, n).low, outs[..n])
  {
    var low := Lowered(r, n).low.value;
    var k := Min(low, |seen|);
    if r.low.Some? {
      var j := Min(r.low.value, |seen|);
      assert seen[..k] == seen[..j][..k] && outs[..k] == outs[..j][..k];
    } else {
      assert seen[..k] == outs[..k];
    }
    assert outs[..n][..k] == outs[..k];
  }

  lemma ReadingGrown(
      c: Crypto, outs: seq<Output>, more: seq<Output>, tx: RingTx, version: nat, height: nat, now: nat, r: Reading)
    requires ReadingOk(c, outs, tx, version, height, now, r) && outs <= more
    ensures ReadingOk(c, more, tx, version, height, now, r)
  {
    forall slot | 0 <= slot < |r.seen| ensures SlotOk(c, more, tx, version, height, now, r, slot) {
      assert SlotOk(c, outs, tx, version, height, now, r, slot);
      AgreesGrown(r.seen[slot], r.low, outs, more);
    }
  }

  lemma ReadingPopped(
      c: Crypto, outs: seq<Output>, n: nat, tx: RingTx, version: nat, height: nat, now: nat, r: Reading)
    requires ReadingOk(c, outs, tx, version, height, now, r) && n <= |outs|
    ensures ReadingOk(c, outs[..n], tx, version, height, now, Lowered(r, n))
  {
    forall slot | 0 <= slot < |r.seen|
      ensures SlotOk(c, outs[..n], tx, version, height, now, Lowered(r, n), slot)
    {
      assert SlotOk(c, outs, tx, version, height, now, r, slot);
      AgreesPopped(r.seen[slot], r, outs, n);
    }
  }

  lemma ReadingExtended(
      c: Crypto, outs: seq<Output>, tx: RingTx, version: nat, height: nat, now: nat, r: Reading)
    requires ReadingOk(c, outs, tx, version, height, now, r) && |r.seen| < |tx.rings|
    requires InputOk(c, outs, tx, |r.seen|, version, height, now) && (r.low.Some? ==> r.seen != [])
    requires r.low.Some? ==> r.low.value <= |outs|
    ensures ReadingOk(c, outs, tx, version, height, now, Reading(r.seen + [outs], r.low))
  {
    var t := Reading(r.seen + [outs], r.low);
    forall slot | 0 <= slot < |t.seen| ensures SlotOk(c, outs, tx, version, height, now, t, slot) {
      if slot < |r.seen| { assert SlotOk(c, outs, tx, version, height, now, r, slot); }
    }
  }

  lemma GrowKeeps(s: State, t: State, c: Crypto, txOf: Hash -> RingTx)
    requires Inv(s, c, txOf) && Grow(s, t)
    ensures Inv(t, c, txOf)
  {
    forall id | id in t.ready ensures PassOk(c, t.outs, t.clock, txOf(id), t.ready[id]) {
      var p := s.ready[id];
      assert PassOk(c, s.outs, s.clock, txOf(id), p);
      ReadingGrown(c, s.outs, t.outs, txOf(id), p.version, p.height, p.now, p.reading);
    }
    forall b | 0 <= b < |t.batches| ensures BatchOk(c, t.outs, t.clock, t.batches[b]) {
      assert BatchOk(c, s.outs, s.clock, s.batches[b]);
      BatchGrown(c, s.outs, t.outs, s.clock, t.clock, s.batches[b]);
    }
  }

  lemma BatchGrown(c: Crypto, outs: seq<Output>, more: seq<Output>, clock: nat, later: nat, q: Batch)
    requires BatchOk(c, outs, clock, q) && outs <= more && clock <= later
    ensures BatchOk(c, more, later, q)
  {
    forall w | 0 <= w < |q.readings| ensures ThreadOk(c, more, q, w) {
      assert ThreadOk(c, outs, q, w);
      if q.readings[w].Some? {
        ReadingGrown(c, outs, more, Item(q, w).0, Item(q, w).1, q.height, q.now, q.readings[w].value);
      }
    }
  }

  lemma PopKeeps(s: State, t: State, c: Crypto, txOf: Hash -> RingTx)
    requires Inv(s, c, txOf) && Pop(s, t)
    ensures Inv(t, c, txOf)
  {
    var n := |t.outs|;
    forall id | id in t.ready ensures PassOk(c, t.outs, t.clock, txOf(id), t.ready[id]) {
      var p := s.ready[id];
      assert PassOk(c, s.outs, s.clock, txOf(id), p);
      ReadingPopped(c, s.outs, n, txOf(id), p.version, p.height, p.now, p.reading);
    }
    forall b | 0 <= b < |t.batches| ensures BatchOk(c, t.outs, t.clock, t.batches[b]) {
      assert BatchOk(c, s.outs, s.clock, s.batches[b]);
      BatchPopped(c, s.outs, n, s.clock, s.batches[b]);
    }
  }

  lemma BatchPopped(c: Crypto, outs: seq<Output>, n: nat, clock: nat, q: Batch)
    requires BatchOk(c, outs, clock, q) && n <= |outs|
    ensures BatchOk(c, outs[..n], clock, LoweredBatch(q, n))
  {
    var l := LoweredBatch(q, n);
    forall w | 0 <= w < |l.readings| ensures ThreadOk(c, outs[..n], l, w) {
      assert ThreadOk(c, outs, q, w);
      if q.readings[w].Some? {
        ReadingPopped(c, outs, n, Item(q, w).0, Item(q, w).1, q.height, q.now, q.readings[w].value);
      }
    }
  }

  lemma LowFollows(c: Crypto, outs: seq<Output>, clock: nat, q: Batch, w: nat)
    requires BatchOk(c, outs, clock, q) && Holds(q, w) && q.readings[w].Some? && q.readings[w].value.seen != []
    ensures q.readings[w].value.low.Some? ==> q.readings[w].value.low.value <= |outs|
  {
    assert ThreadOk(c, outs, q, w);
    assert SlotOk(c, outs, Item(q, w).0, Item(q, w).1, q.height, q.now, q.readings[w].value, 0);
  }

  lemma WorksKeeps(s: State, t: State, c: Crypto, txOf: Hash -> RingTx, b: nat, w: nat)
    requires Inv(s, c, txOf) && Named(s, txOf) && Works(s, t, b, w, c) && Begun(s)
    ensures Inv(t, c, txOf)
  {
    var q, l := s.batches[b], t.batches[b];
    assert BatchOk(c, s.outs, s.clock, q);
    if Stores(s, t, b, w, c) { StoredOk(s, c, txOf, b, w); }
    forall v | 0 <= v < |l.readings| ensures ThreadOk(c, t.outs, l, v) {
      assert ThreadOk(c, s.outs, q, v);
      if v == w && ReadsRing(s, t, b, w, c) { RingReadOk(s, c, b, w); }
    }
    forall k | 0 <= k < |t.batches| ensures BatchOk(c, t.outs, t.clock, t.batches[k]) {
      if k != b { assert BatchOk(c, s.outs, s.clock, s.batches[k]); }
    }
  }

  /** Every check on record has resolved at least one ring. */
  ghost predicate Begun(s: State) {
    forall b, w :: 0 <= b < |s.batches| && 0 <= w < |s.batches[b].readings| && s.batches[b].readings[w].Some? ==>
      s.batches[b].readings[w].value.seen != []
  }

  lemma StoredOk(s: State, c: Crypto, txOf: Hash -> RingTx, b: nat, w: nat)
    requires Inv(s, c, txOf) && b < |s.batches| && Holds(s.batches[b], w)
    requires |SoFar(s.batches[b], w).seen| == |Item(s.batches[b], w).0.rings| && c.proves(Item(s.batches[b], w).0)
    ensures var q := s.batches[b];
      PassOk(c, s.outs, s.clock, Item(q, w).0, Pass(Item(q, w).1, q.height, q.now, SoFar(q, w)))
  {
    var q := s.batches[b];
    assert BatchOk(c, s.outs, s.clock, q) && ThreadOk(c, s.outs, q, w);
  }

  lemma RingReadOk(s: State, c: Crypto, b: nat, w: nat)
    requires b < |s.batches| && BatchOk(c, s.outs, s.clock, s.batches[b]) && Holds(s.batches[b], w) && Begun(s)
    requires var q := s.batches[b];
      var slot := |SoFar(q, w).seen|;
      slot < |Item(q, w).0.rings| && InputOk(c, s.outs, Item(q, w).0, slot, Item(q, w).1, q.height, q.now)
    ensures var q := s.batches[b];
      ReadingOk(c, s.outs, Item(q, w).0, Item(q, w).1, q.height, q.now,
        Reading(SoFar(q, w).seen + [s.outs], SoFar(q, w).low))
  {
    var q := s.batches[b];
    assert ThreadOk(c, s.outs, q, w);
    if q.readings[w].Some? { LowFollows(c, s.outs, s.clock, q, w); }
    ReadingExtended(c, s.outs, Item(q, w).0, Item(q, w).1, q.height, q.now, SoFar(q, w));
  }

  lemma BegunKept(s: State, t: State, c: Crypto)
    requires Begun(s) && Next(s, t, c)
    ensures Begun(t)
  {
    if !Grow(s, t) && !Pop(s, t) && !Begin(s, t) && !Removes(s, t) {
      var b: nat, w: nat :| Works(s, t, b, w, c);
    }
  }

  lemma StepKeeps(s: State, t: State, c: Crypto, txOf: Hash -> RingTx)
    requires Inv(s, c, txOf) && Begun(s) && Named(s, txOf) && Next(s, t, c)
    ensures Inv(t, c, txOf) && Begun(t)
  {
    BegunKept(s, t, c);
    if Grow(s, t) { GrowKeeps(s, t, c, txOf); }
    else if Pop(s, t) { PopKeeps(s, t, c, txOf); }
    else if Begin(s, t) { BeginKeeps(s, t, c, txOf); }
    else if !Removes(s, t) {
      var b: nat, w: nat :| Works(s, t, b, w, c);
      WorksKeeps(s, t, c, txOf, b, w);
    }
  }

  lemma BeginKeeps(s: State, t: State, c: Crypto, txOf: Hash -> RingTx)
    requires Inv(s, c, txOf) && Begin(s, t)
    ensures Inv(t, c, txOf)
  {
    forall b | 0 <= b < |t.batches| ensures BatchOk(c, t.outs, t.clock, t.batches[b]) {
      if b < |s.batches| { assert BatchOk(c, s.outs, s.clock, s.batches[b]); }
    }
  }

  ghost predicate IsRun(run: seq<State>, c: Crypto, txOf: Hash -> RingTx) {
    && run != [] && run[0].ready == map[] && run[0].batches == []
    && (forall i :: 0 <= i < |run| ==> Named(run[i], txOf))
    && forall i :: 0 <= i < |run| - 1 ==> Steps(run, c, i)
  }

  ghost predicate Steps(run: seq<State>, c: Crypto, i: nat)
    requires i < |run| - 1
  {
    Next(run[i], run[i + 1], c)
  }

  lemma {:induction false} RunKeeps(run: seq<State>, c: Crypto, txOf: Hash -> RingTx, i: nat)
    requires IsRun(run, c, txOf) && i < |run|
    ensures Inv(run[i], c, txOf) && Begun(run[i])
  {
    if i > 0 {
      RunKeeps(run, c, txOf, i - 1);
      assert Named(run[i - 1], txOf) && Steps(run, c, i - 1);
      StepKeeps(run[i - 1], run[i], c, txOf);
    }
  }

  /** What the chain's verifier answers for `id` at the chain's height. */
  predicate Answer(s: State, c: Crypto, txOf: Hash -> RingTx, id: Hash, version: nat) {
    id in s.ready || Verifies(c, s.outs, txOf(id), version, s.height, s.clock)
  }

  // ---------------------------------------------------- rings below the split

  /** Every ring member lies below output `low`. */
  predicate Below(tx: RingTx, low: nat) {
    forall slot :: 0 <= slot < |tx.rings| ==> RingBelow(tx.rings[slot], low)
  }

  predicate RingBelow(ring: seq<nat>, low: nat) { forall i :: i in ring ==> i < low }

  /** Every ring member lies below the deepest pop since the first ring was resolved, if there was one. */
  predicate BelowPops(tx: RingTx, p: Pass) { p.reading.low.Some? ==> Below(tx, p.reading.low.value) }

  lemma SharedBelow(seen: seq<Output>, low: Option<nat>, outs: seq<Output>, ring: seq<nat>)
    requires Agrees(seen, low, outs) && Resolves(seen, ring) && (low.Some? ==> RingBelow(ring, low.value))
    ensures SameRing(seen, outs, ring)
  {
    var k := if low.Some? then Min(low.value, |seen|) else |seen|;
    assert seen[..k] == outs[..k];
    forall i | 0 <= i < |ring| ensures ring[i] < k && seen[ring[i]] == outs[ring[i]] {
      assert ring[i] in ring;
      assert seen[ring[i]] == seen[..k][ring[i]] == outs[..k][ring[i]];
    }
    forall i | i in ring ensures i < |outs| {
      var j :| 0 <= j < |ring| && ring[j] == i;
    }
  }

  /** Each ring of a stored pass means the members it was checked with. */
  lemma PassMembers(c: Crypto, outs: seq<Output>, clock: nat, tx: RingTx, p: Pass, slot: nat)
    requires PassOk(c, outs, clock, tx, p) && BelowPops(tx, p) && slot < |tx.rings|
    ensures SameRing(p.reading.seen[slot], outs, tx.rings[slot])
    ensures InputOk(c, p.reading.seen[slot], tx, slot, p.version, p.height, p.now)
  {
    assert SlotOk(c, outs, tx, p.version, p.height, p.now, p.reading, slot);
    if p.reading.low.Some? { assert RingBelow(tx.rings[slot], p.reading.low.value); }
    SharedBelow(p.reading.seen[slot], p.reading.low, outs, tx.rings[slot]);
  }

  /**
   * Over every run, pops and reorganisations between any two steps included: a stored pass
   * whose ring members all lie below the deepest pop since its first ring was resolved is
   * right exactly when they may be spent by then.
   */
  lemma AnswerBelowTheSplitIsRightIff(
      run: seq<State>, c: Crypto, txOf: Hash -> RingTx, i: nat, id: Hash, version: nat)
    requires IsRun(run, c, txOf) && i < |run| && id in run[i].ready && BelowPops(txOf(id), run[i].ready[id])
    ensures var s := run[i];
            Verifies(c, s.outs, txOf(id), version, s.height, s.clock)
            <==> MembersHold(s.outs, txOf(id), version, s.height, s.clock)
  {
    RunKeeps(run, c, txOf, i);
    var s, p, tx := run[i], run[i].ready[id], txOf(id);
    assert PassOk(c, s.outs, s.clock, tx, p);
    forall slot | 0 <= slot < |tx.rings|
      ensures InputOk(c, s.outs, tx, slot, version, s.height, s.clock)
         <==> SlotHolds(s.outs, tx.rings[slot], version, s.height, s.clock)
    {
      PassMembers(c, s.outs, s.clock, tx, p, slot);
    }
  }

  /** In particular it is right once the chain is as high again as where it was checked. */
  lemma AnswerBelowTheSplitAgrees(
      run: seq<State>, c: Crypto, txOf: Hash -> RingTx, i: nat, id: Hash, version: nat)
    requires IsRun(run, c, txOf) && i < |run| && id in run[i].ready && BelowPops(txOf(id), run[i].ready[id])
    requires NoStricter(version, run[i].ready[id].version) && run[i].ready[id].height <= run[i].height
    ensures Verifies(c, run[i].outs, txOf(id), version, run[i].height, run[i].clock)
  {
    RunKeeps(run, c, txOf, i);
    var s, p, tx := run[i], run[i].ready[id], txOf(id);
    assert PassOk(c, s.outs, s.clock, tx, p);
    forall slot | 0 <= slot < |tx.rings| ensures SlotHolds(s.outs, tx.rings[slot], version, s.height, s.clock) {
      PassMembers(c, s.outs, s.clock, tx, p, slot);
      var members := Ring(s.outs, tx.rings[slot]);
      MembersLater(members, p.version, version, p.height, s.height, p.now, s.clock);
    }
    AnswerBelowTheSplitIsRightIff(run, c, txOf, i, id, version);
  }

  lemma MembersLater(members: seq<Output>, v: nat, v': nat, h: nat, h': nat, now: nat, now': nat)
    requires MembersOk(members, h, v, now) && h <= h' && now <= now' && NoStricter(v', v)
    ensures MembersOk(members, h', v', now')
  {}

  // -------------------------------------------------------- chains that grow

  /** No step takes anything off the chain. */
  ghost predicate OnlyGrows(run: seq<State>) {
    forall i :: 0 <= i < |run| - 1 ==> NothingOff(run[i], run[i + 1])
  }

  predicate NothingOff(s: State, t: State) { s.outs <= t.outs && s.height <= t.height }

  ghost predicate UnpoppedBatch(q: Batch, height: nat) {
    q.height <= height && forall w :: 0 <= w < |q.readings| && q.readings[w].Some? ==> q.readings[w].value.low.None?
  }

  ghost predicate UnpoppedPass(p: Pass, height: nat) { p.reading.low.None? && p.height <= height }

  ghost predicate Unpopped(s: State) {
    && (forall b :: 0 <= b < |s.batches| ==> UnpoppedBatch(s.batches[b], s.height))
    && forall id :: id in s.ready ==> UnpoppedPass(s.ready[id], s.height)
  }

  lemma UnpoppedKept(s: State, t: State, c: Crypto)
    requires Unpopped(s) && Next(s, t, c) && NothingOff(s, t)
    ensures Unpopped(t)
  {
    forall b | 0 <= b < |t.batches| ensures UnpoppedBatch(t.batches[b], t.height) {
      if b < |s.batches| { assert UnpoppedBatch(s.batches[b], s.height); }
    }
    forall id | id in t.ready ensures UnpoppedPass(t.ready[id], t.height) {
      if id in s.ready { assert UnpoppedPass(s.ready[id], s.height); }
      if id !in s.ready || t.ready[id] != s.ready[id] {
        var b: nat, w: nat :| Works(s, t, b, w, c);
        assert UnpoppedBatch(s.batches[b], s.height);
      }
    }
  }

  lemma {:induction false} GrowingRunKeeps(run: seq<State>, c: Crypto, txOf: Hash -> RingTx, i: nat)
    requires IsRun(run, c, txOf) && OnlyGrows(run) && i < |run|
    ensures Unpopped(run[i])
  {
    if i > 0 {
      GrowingRunKeeps(run, c, txOf, i - 1);
      assert Steps(run, c, i - 1) && NothingOff(run[i - 1], run[i - 1 + 1]);
      UnpoppedKept(run[i - 1], run[i], c);
    }
  }

  /** While the chain only grows, a ready answer is the answer direct verification gives. */
  lemma ReadyAnswersAgree(run: seq<State>, c: Crypto, txOf: Hash -> RingTx, i: nat, id: Hash, version: nat)
    requires IsRun(run, c, txOf) && OnlyGrows(run) && i < |run|
    requires id in run[i].ready ==> NoStricter(version, run[i].ready[id].version)
    ensures var s := run[i];
            Answer(s, c, txOf, id, version) <==> Verifies(c, s.outs, txOf(id), version, s.height, s.clock)
  {
    if id in run[i].ready {
      GrowingRunKeeps(run, c, txOf, i);
      assert UnpoppedPass(run[i].ready[id], run[i].height);
      AnswerBelowTheSplitAgrees(run, c, txOf, i, id, version);
    }
  }

  // ---------------------------------------------- a pop below a ring misleads

  /** One thread holds the one transaction, `j` of its rings resolved. */
  function Held(start: State, tx: RingTx, version: nat, j: nat): State {
    var queue := Q.Queue(1, 1, [Q.Holding(0)], [0], {}, {});
    var reading := if j == 0 then None else Some(Reading(seq(j, _ => start.outs), None));
    start.(batches := [Batch([(tx, version)], queue, start.height, start.clock, [reading])])
  }

  /** It has been stored. */
  function Stored(start: State, tx: RingTx, version: nat): State {
    var queue := Q.Queue(1, 1, [Q.Idle], [0], {0}, {});
    var seen := seq(|tx.rings|, _ => start.outs);
    start.(
      batches := [Batch([(tx, version)], queue, start.height, start.clock, [None])],
      ready := map[tx.id := Pass(version, start.height, start.clock, Reading(seen, None))])
  }

  lemma HeldReads(start: State, tx: RingTx, version: nat, j: nat, c: Crypto)
    requires j < |tx.rings| && Verifies(c, start.outs, tx, version, start.height, start.clock)
    ensures Next(Held(start, tx, version, j), Held(start, tx, version, j + 1), c)
  {
    var s, t := Held(start, tx, version, j), Held(start, tx, version, j + 1);
    assert seq(j, _ => start.outs) + [start.outs] == seq(j + 1, _ => start.outs);
    assert InputOk(c, start.outs, tx, j, version, start.height, start.clock);
    assert ReadsRing(s, t, 0, 0, c);
    assert Works(s, t, 0, 0, c);
  }

  lemma HeldStores(start: State, tx: RingTx, version: nat, c: Crypto)
    requires start.ready == map[] && c.proves(tx)
    ensures Next(Held(start, tx, version, |tx.rings|), Stored(start, tx, version), c)
  {
    var s, t := Held(start, tx, version, |tx.rings|), Stored(start, tx, version);
    assert seq(0, _ => start.outs) == [];
    assert Stores(s, t, 0, 0, c);
    assert Works(s, t, 0, 0, c);
  }

  lemma Opens(start: State, tx: RingTx, version: nat, c: Crypto) returns (begun: State)
    requires start.batches == []
    ensures Next(start, begun, c) && Next(begun, Held(start, tx, version, 0), c)
    ensures |begun.batches| == 1 && begun.batches[0].todo == [(tx, version)]
  {
    begun := start.(batches := [Opened([(tx, version)], 1, start.height, start.clock)]);
    assert start.batches + begun.batches == begun.batches;
    assert Begin(start, begun);
    var held := Held(start, tx, version, 0);
    assert Q.Claim(begun.batches[0].queue, 0, held.batches[0].queue);
    assert begun.batches[0].readings == [None];
    assert Claims(begun, held, 0, 0);
    assert Works(begun, held, 0, 0, c);
  }

  /** Begun, claimed, every ring resolved, stored. */
  function StoredRun(start: State, begun: State, tx: RingTx, version: nat): seq<State> {
    [start, begun] + seq(|tx.rings| + 1, j requires 0 <= j => Held(start, tx, version, j))
    + [Stored(start, tx, version)]
  }

  lemma StoredRunSteps(start: State, begun: State, tx: RingTx, version: nat, c: Crypto, i: nat)
    requires start.ready == map[] && Verifies(c, start.outs, tx, version, start.height, start.clock)
    requires Next(start, begun, c) && Next(begun, Held(start, tx, version, 0), c) && i < |tx.rings| + 3
    ensures Steps(StoredRun(start, begun, tx, version), c, i)
  {
    var run, n := StoredRun(start, begun, tx, version), |tx.rings|;
    if i == 0 {
      assert run[0] == start && run[1] == begun;
    } else if i == 1 {
      assert run[1] == begun && run[2] == Held(start, tx, version, 0);
    } else if i < n + 2 {
      assert run[i] == Held(start, tx, version, i - 2) && run[i + 1] == Held(start, tx, version, i - 1);
      HeldReads(start, tx, version, i - 2, c);
    } else {
      assert run[i] == Held(start, tx, version, n) && run[i + 1] == Stored(start, tx, version);
      HeldStores(start, tx, version, c);
    }
  }

  lemma StoredRunNamed(start: State, begun: State, tx: RingTx, version: nat, txOf: Hash -> RingTx, i: nat)
    requires start.batches == [] && txOf(tx.id) == tx && i < |StoredRun(start, begun, tx, version)|
    requires |begun.batches| == 1 && begun.batches[0].todo == [(tx, version)]
    ensures Named(StoredRun(start, begun, tx, version)[i], txOf)
  {
    OneTodo(StoredRun(start, begun, tx, version)[i], tx, version, txOf);
  }

  lemma OneStored(c: Crypto, start: State, tx: RingTx, version: nat, txOf: Hash -> RingTx) returns (run: seq<State>)
    requires start.ready == map[] && start.batches == [] && txOf(tx.id) == tx
    requires Verifies(c, start.outs, tx, version, start.height, start.clock)
    ensures IsRun(run, c, txOf) && run[0] == start && run[|run| - 1] == Stored(start, tx, version)
  {
    var begun := Opens(start, tx, version, c);
    run := StoredRun(start, begun, tx, version);
    forall i | 0 <= i < |run| - 1 ensures Steps(run, c, i) {
      StoredRunSteps(start, begun, tx, version, c, i);
    }
    forall i | 0 <= i < |run| ensures Named(run[i], txOf) {
      StoredRunNamed(start, begun, tx, version, txOf, i);
    }
  }

  lemma OneTodo(s: State, tx: RingTx, version: nat, txOf: Hash -> RingTx)
    requires txOf(tx.id) == tx && |s.batches| <= 1
    requires |s.batches| == 1 ==> s.batches[0].todo == [(tx, version)]
    ensures Named(s, txOf)
  {}

  /**
   * Any transaction that passes, and any pop that takes a ring member of it off: there
   * is a run at whose end its stored answer is yes and direct verification says no.
   */
  lemma PopBelowARingMisleads(c: Crypto, start: State, tx: RingTx, version: nat, n: nat, txOf: Hash -> RingTx)
    returns (run: seq<State>)
    requires start.ready == map[] && start.batches == [] && n < |start.outs| && txOf(tx.id) == tx
    requires Verifies(c, start.outs, tx, version, start.height, start.clock) && !Below(tx, n)
    ensures IsRun(run, c, txOf) && run[0] == start
    ensures var end := run[|run| - 1];
            && end.outs == start.outs[..n] && Answer(end, c, txOf, tx.id, version)
            && !Verifies(c, end.outs, tx, version, end.height, end.clock)
  {
    var front := OneStored(c, start, tx, version, txOf);
    var stored := Stored(start, tx, version);
    var popped := stored.(
      outs := start.outs[..n],
      ready := LoweredPasses(stored.ready, n), batches := LoweredBatches(stored.batches, n));
    assert Pop(stored, popped);
    run := front + [popped];
    forall i | 0 <= i < |run| - 1 ensures Steps(run, c, i) {
      if i < |front| - 1 { assert Steps(front, c, i) && run[i] == front[i] && run[i + 1] == front[i + 1]; }
    }
    forall i | 0 <= i < |run| ensures Named(run[i], txOf) {
      if i < |front| { assert Named(front[i], txOf); }
    }
    var slot :| 0 <= slot < |tx.rings| && !RingBelow(tx.rings[slot], n);
    assert !InputOk(c, popped.outs, tx, slot, version, popped.height, popped.clock);
  }
}
