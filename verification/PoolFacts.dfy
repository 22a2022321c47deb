/**
 * What the pool's operations do to an entry, said in the entry's own fields and the
 * relay methods by name, apart from the functions that compute it.
 */
module PoolFacts {
  import opened Base
  import opened PoolModel

  /** The order a transaction's relay method only moves up in. */
  predicate Outranks(a: RelayMethod, b: RelayMethod) {
    match a
    case Block => b != Block
    case Fluff => b != Block && b != Fluff
    case Stem => b == NoRelay || b == Local || b == Forward
    case Forward => b == NoRelay || b == Local
    case Local => b == NoRelay
    case NoRelay => false
  }

  lemma RankIsTheOrder(a: RelayMethod, b: RelayMethod)
    ensures Rank(a) > Rank(b) <==> Outranks(a, b)
    ensures a != b ==> Outranks(a, b) || Outranks(b, a)
  {}

  /** Whether a transaction with this method came from a peer. */
  predicate CameFromPeer(m: RelayMethod) { m == Stem || m == Fluff || m == Forward }

  // ---------------------------------------------------------------- admission

  /**
   * A held transaction seen again: a stem copy of a held stem goes public; else the higher
   * method wins. The receive time and the flags move exactly when the method does.
   */
  lemma SeenAgain(p: Pool, tx: Tx, now: nat, m: RelayMethod, q: Pool)
    requires tx.id in p.byId && Admits(p, tx, now, m, q)
    ensures tx.id in q.byId && q == p.(byId := p.byId[tx.id := q.byId[tx.id]])
    ensures var e, f := p.byId[tx.id], q.byId[tx.id];
      && (e.relay == Stem && m == Stem ==> f.relay == Fluff)
      && (!(e.relay == Stem && m == Stem) ==> f.relay == if Outranks(m, e.relay) then m else e.relay)
      && (f.relay == e.relay ==> f == e)
      && (f.relay != e.relay ==>
            f == PoolEntry(e.tx, e.weight, e.fee, now, f.relay, CameFromPeer(m), false))
  {
    var e := p.byId[tx.id];
    RankIsTheOrder(m, e.relay);
  }

  /** A newcomer that stays is held as it came; every other entry that stays is untouched and not stale. */
  lemma Newcomer(p: Pool, tx: Tx, now: nat, m: RelayMethod, q: Pool)
    requires Valid(p) && ImagesFreeInPool(p, tx) && tx.id !in p.byId && Admits(p, tx, now, m, q)
    ensures tx.id in q.byId ==>
      q.byId[tx.id] == PoolEntry(tx, tx.weight, tx.fee, now, m, CameFromPeer(m), false)
    ensures forall id :: id in q.byId && id != tx.id ==>
      id in p.byId && q.byId[id] == p.byId[id] && now <= p.byId[id].receiveTime + LifetimeOf(p.byId[id].relay)
    ensures q.weight <= p.maxWeight
  {
    var stale, e := StaleIds(p, now), NewEntry(tx, now, m, FromPeer(m));
    InsertedAfterExpiry(p, stale, tx, e);
    EvictedIsSubpool(Insert(Without(p, stale), tx, e), q);
    var _ := EvictionKeepsTheBest(Insert(Without(p, stale), tx, e), q);
    forall id | id in q.byId && id != tx.id
      ensures id in p.byId && q.byId[id] == p.byId[id] && now <= p.byId[id].receiveTime + LifetimeOf(p.byId[id].relay)
    {
      StaleIff(p, id, now);
    }
  }

  /** Seconds in the pool: a week out of a replaced block, three days otherwise. */
  function LifetimeOf(m: RelayMethod): nat { if m == Block then 604_800 else 259_200 }

  /** What expiry takes. */
  lemma StaleIff(p: Pool, id: Hash, now: nat)
    ensures id in StaleIds(p, now) <==> id in p.byId && now > p.byId[id].receiveTime + LifetimeOf(p.byId[id].relay)
  {}

  /** Whether `x`'s images are spent neither on chain nor by another pooled transaction. */
  ghost predicate UnspentElsewhere(p: Pool, db: Db, x: Tx) {
    forall k :: k in x.images ==>
      k !in db.images && forall id :: id in p.byId && k in p.byId[id].tx.images ==> id == x.id
  }

  /** On chain, or held in the open or kept from relay; a private copy may be given again. */
  predicate AlreadyThere(p: Pool, db: Db, id: Hash) {
    || id in db.ids
    || (id in p.byId
        && (p.byId[id].relay == Fluff || p.byId[id].relay == Block || p.byId[id].relay == NoRelay))
  }

  lemma ImagesAreUnspent(p: Pool, db: Db, x: Tx)
    requires Valid(p) && !AlreadyThere(p, db, x.id)
    ensures (forall k :: k in x.images ==> ImageFree(p, db, k, x.id)) <==> UnspentElsewhere(p, db, x)
  {
    forall k | k in x.images
      ensures ImageFree(p, db, k, x.id) <==>
        (k !in db.images && forall id :: id in p.byId && k in p.byId[id].tx.images ==> id == x.id)
    {
      if k in p.spent { assert p.spent[k] in p.byId && k in p.byId[p.spent[k]].tx.images; }
    }
  }

  /** Exactly what a transaction has to meet, and what each failure is called, the first one counting. */
  lemma VerdictIs(p: Pool, db: Db, x: Tx, rules: Rules)
    requires Valid(p)
    ensures var v, required := Verdict(p, db, x, rules), rules.requiredFee(x.weight);
      && (AlreadyThere(p, db, x.id) <==> v == Some(AlreadyInPool))
      && (!AlreadyThere(p, db, x.id) ==>
            && (x.weight > 1_000_000 <==> v == Some(TooBig(x.weight)))
            && (x.weight <= 1_000_000 ==>
                  && (required.None? <==> v == Some(FeeUnknown))
                  && (required.Some? && x.fee < required.value.acceptedMinimum ==>
                        v == Some(FeeTooLow(x.fee, required.value.needed)))
                  && (required.Some? && x.fee >= required.value.acceptedMinimum ==>
                        && (x.extraLen > 1_060 <==> v == Some(TxExtraTooBig(x.extraLen)))
                        && (x.extraLen <= 1_060 && x.unlockTime != 0 ==> v == Some(NonZeroUnlockTime(x.unlockTime)))
                        && (x.extraLen <= 1_060 && x.unlockTime == 0 ==>
                              && (!UnspentElsewhere(p, db, x) <==> v == Some(DoubleSpend))
                              && (UnspentElsewhere(p, db, x) ==>
                                    v == match rules.verify(x)
                                         case None => None
                                         case Some(why) => Some(NotVerified(why)))))))
  {
    if !AlreadyThere(p, db, x.id) { ImagesAreUnspent(p, db, x); }
  }

  // ------------------------------------------------ back from a replaced block

  /** Held once more, as from a block, unless it is held already, spent elsewhere or no longer verifies. */
  lemma KeptIs(p: Pool, db: Db, x: Tx, verified: bool, now: nat)
    requires Valid(p)
    ensures var q := AddKept(p, db, x, verified, now);
      if x.id !in p.byId && verified && UnspentElsewhere(p, db, x)
      then q.byId == p.byId[x.id := PoolEntry(x, x.weight, x.fee, now, Block, true, false)]
           && q.relayedAt == p.relayedAt && q.maxWeight == p.maxWeight
      else q == p
  {
    if x.id !in p.byId {
      forall k | k in x.images
        ensures ImageFree(p, db, k, x.id) <==>
          (k !in db.images && forall id :: id in p.byId && k in p.byId[id].tx.images ==> id == x.id)
      {
        if k in p.spent { assert p.spent[k] in p.byId && k in p.byId[p.spent[k]].tx.images; }
      }
    }
  }

  // ------------------------------------------------------------------- relay

  /** An entry marked relayed with `m`: the higher method, and the mark. */
  function Marked(e: PoolEntry, m: RelayMethod): PoolEntry {
    e.(relay := if Outranks(m, e.relay) then m else e.relay, relayed := true)
  }

  /** What marking made of `id`: its entry and its relay time. */
  predicate MarkedAt(p: Pool, q: Pool, ids: seq<Hash>, m: RelayMethod, now: nat, id: Hash) {
    && (id in p.byId ==> id in q.byId && q.byId[id] == if id in ids then Marked(p.byId[id], m) else p.byId[id])
    && (if id in p.byId && id in ids then id in q.relayedAt && q.relayedAt[id] == now
        else (id in q.relayedAt <==> id in p.relayedAt) && (id in p.relayedAt ==> q.relayedAt[id] == p.relayedAt[id]))
  }

  lemma MarkStep(p: Pool, q: Pool, front: seq<Hash>, last: Hash, m: RelayMethod, now: nat, id: Hash)
    requires q.byId.Keys == p.byId.Keys && MarkedAt(p, q, front, m, now, id)
    ensures MarkedAt(p, MarkRelayed(q, last, m, now), front + [last], m, now, id)
  {
    assert id in front + [last] <==> id in front || id == last;
    if id == last && id in p.byId {
      RankIsTheOrder(m, q.byId[id].relay);
      RankIsTheOrder(m, p.byId[id].relay);
    }
  }

  /** Marking changes the named entries and their relay times, and nothing else. */
  lemma {:induction false} SetRelayedIs(p: Pool, ids: seq<Hash>, m: RelayMethod, now: nat)
    ensures var q := SetRelayed(p, ids, m, now);
      && q.byId.Keys == p.byId.Keys && q.spent == p.spent && q.weight == p.weight && q.maxWeight == p.maxWeight
      && forall id :: MarkedAt(p, q, ids, m, now, id)
    decreases |ids|
  {
    if ids != [] {
      var front, last := ids[..|ids| - 1], ids[|ids| - 1];
      SetRelayedIs(p, front, m, now);
      assert ids == front + [last];
      forall id ensures MarkedAt(p, SetRelayed(p, ids, m, now), ids, m, now, id) {
        MarkStep(p, SetRelayed(p, front, m, now), front, last, m, now, id);
      }
    }
  }
}
