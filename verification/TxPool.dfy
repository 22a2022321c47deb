/** The pool object: its methods change the four structures in place. */
module TxPoolObject {
  import opened Base
  import opened PoolModel

  datatype Admitted = Admitted(id: Hash, relay: RelayMethod)

  datatype AddResult = Took(admitted: Admitted) | Refused(why: Rejection)

  /** The owners of a set of key images, read off the index. */
  function OwnersOf(p: Pool, images: set<KeyImage>): set<Hash> {
    set k | k in p.spent && k in images :: p.spent[k]
  }

  /** Removing named ids, then the owners of some images, removes exactly what a block makes redundant. */
  lemma OwnersAreMined(p: Pool, included: set<Hash>, images: set<KeyImage>)
    requires Valid(p)
    ensures
      var q := Without(p, included);
      Without(q, OwnersOf(q, images)) == Without(p, MinedIds(p, included, images))
  {
    var q := Without(p, included);
    var gone := included + OwnersOf(q, images);
    WithoutTwice(p, included, OwnersOf(q, images));
    WithoutHeld(p, gone);
    forall id | id in p.byId ensures id in gone <==> id in MinedIds(p, included, images) {
      OwnerIsMined(p, included, images, id);
    }
    assert gone * p.byId.Keys == MinedIds(p, included, images);
  }

  lemma OwnerIsMined(p: Pool, included: set<Hash>, images: set<KeyImage>, id: Hash)
    requires Valid(p) && id in p.byId
    ensures id in included + OwnersOf(Without(p, included), images) <==> id in MinedIds(p, included, images)
  {
    if id in MinedIds(p, included, images) && id !in included {
      var k :| k in p.byId[id].tx.images && k in images;
      assert k in p.spent && p.spent[k] == id;
    }
  }

  /** The confirmed entries are those on chain and the owners of the images spent on chain. */
  lemma ConfirmedByIndex(p: Pool, db: Db)
    requires Valid(p)
    ensures (set id | id in p.byId && id in db.ids) + OwnersOf(p, db.images) == ConfirmedIds(p, db)
  {
    forall id | id in ConfirmedIds(p, db) && id !in db.ids ensures id in OwnersOf(p, db.images) {
      var k :| k in p.byId[id].tx.images && k in db.images;
      assert p.spent[k] == id;
    }
  }

  /** Remove the owner of each image in turn, as the index stands by then. */
  function RemoveOwnersInTurn(p: Pool, images: seq<KeyImage>): Pool
    decreases |images|
  {
    if images == [] then p
    else RemoveOwnersInTurn(if images[0] in p.spent then Remove(p, p.spent[images[0]]) else p, images[1..])
  }

  lemma OwnersAfterOne(p: Pool, k: KeyImage, images: set<KeyImage>)
    requires Valid(p) && k in p.spent
    ensures {p.spent[k]} + OwnersOf(Remove(p, p.spent[k]), images) == OwnersOf(p, {k} + images)
  {
    RemoveIsWithout(p, p.spent[k]);
  }

  lemma {:induction false} RemoveOwnersInTurnIsWithout(p: Pool, images: seq<KeyImage>)
    requires Valid(p)
    ensures RemoveOwnersInTurn(p, images) == Without(p, OwnersOf(p, ToSet(images)))
    decreases |images|
  {
    if images == [] {
      assert OwnersOf(p, ToSet(images)) == {};
      WithoutNone(p, {});
    } else {
      var k := images[0];
      assert ToSet(images) == {k} + ToSet(images[1..]);
      if k in p.spent {
        var q := Remove(p, p.spent[k]);
        RemoveIsWithout(p, p.spent[k]);
        RemoveOwnersInTurnIsWithout(q, images[1..]);
        WithoutTwice(p, {p.spent[k]}, OwnersOf(q, ToSet(images[1..])));
        OwnersAfterOne(p, k, ToSet(images[1..]));
      } else {
        RemoveOwnersInTurnIsWithout(p, images[1..]);
        assert OwnersOf(p, ToSet(images[1..])) == OwnersOf(p, ToSet(images));
      }
    }
  }

  lemma EvictOne(p: Pool, order: seq<Hash>, i: nat)
    requires Valid(p) && i < |order| && p.weight > p.maxWeight
    ensures EvictInOrder(Without(p, {order[i]}), order[i + 1..]) == EvictInOrder(p, order[i..])
  {
    RemoveIsWithout(p, order[i]);
    assert order[i..][1..] == order[i + 1..];
  }

  class TxPool {
    var byId: map<Hash, PoolEntry>
    var spent: map<KeyImage, Hash>
    var weight: nat
    var maxWeight: nat
    var relayedAt: map<Hash, nat>

    function View(): Pool
      reads this
    {
      Pool(byId, spent, weight, maxWeight, relayedAt)
    }

    constructor ()
      ensures View() == EMPTY_POOL && Valid(View())
    {
      byId, spent, weight, maxWeight, relayedAt := map[], map[], 0, MAX_POOL_WEIGHT, map[];
    }

    method SetMaxWeight(limit: nat)
      requires Valid(View())
      modifies this`maxWeight
      ensures Valid(View()) && View() == old(View()).(maxWeight := limit)
    {
      maxWeight := limit;
    }

    method Remove(id: Hash) returns (entry: Option<PoolEntry>)
      requires Valid(View())
      modifies this
      ensures Valid(View()) && View() == Without(old(View()), {id})
      ensures entry == if id in old(byId) then Some(old(byId)[id]) else None
      ensures |byId| == |old(byId)| - (if entry.Some? then 1 else 0)
    {
      RemoveIsWithout(View(), id);
      RemovalSize(byId, id);
      if id !in byId { return None; }
      entry := Some(byId[id]);
      byId := byId - {id};
      relayedAt := relayedAt - {id};
      weight := SatSub(weight, entry.value.weight);
      spent := Unindex(spent, {id});
    }

    /** Remove a list of ids one by one, counting those that were held. */
    method RemoveAll(ids: seq<Hash>) returns (gone: nat)
      requires Valid(View())
      modifies this
      ensures Valid(View()) && View() == Without(old(View()), ToSet(ids))
      ensures gone + |byId| == |old(byId)|
    {
      gone := 0;
      assert ToSet(ids[..0]) == {};
      WithoutNone(View(), {});
      for i := 0 to |ids|
        invariant Valid(View()) && View() == Without(old(View()), ToSet(ids[..i]))
        invariant gone + |byId| == |old(byId)|
      {
        WithoutTwice(old(View()), ToSet(ids[..i]), {ids[i]});
        assert ToSet(ids[..i + 1]) == ToSet(ids[..i]) + {ids[i]};
        var e := Remove(ids[i]);
        if e.Some? { gone := gone + 1; }
      }
      assert ids[..|ids|] == ids;
    }

    /** Remove exactly the entries past their lifetime. */
    method Expire(now: nat) returns (gone: nat)
      requires Valid(View())
      modifies this
      ensures Valid(View()) && View() == Without(old(View()), StaleIds(old(View()), now))
      ensures gone + |byId| == |old(byId)|
    {
      var stale := WalkOf(set id | id in byId && byId[id].IsStale(now));
      gone := RemoveAll(stale);
    }

    /** Along a fee-rate order, lowest first, entries leave while the weight is over the limit. */
    method EvictToFit() returns (dropped: nat)
      requires Valid(View())
      modifies this
      ensures Valid(View()) && EvictsTo(old(View()), View())
      ensures dropped + |byId| == |old(byId)|
    {
      var walk := WalkOf(byId.Keys);
      if weight <= maxWeight {
        assert View() == EvictInOrder(View(), EvictionOrder(View(), walk));
        return 0;
      }
      EvictionOrderLists(View(), walk);
      var order := EvictionOrder(View(), walk);
      assert forall j :: 0 <= j < |order| ==> order[j] in ToSet(order);
      dropped := EvictAlong(order, EvictInOrder(View(), order));
    }

    method EvictAlong(order: seq<Hash>, ghost target: Pool) returns (dropped: nat)
      requires Valid(View()) && Distinct(order) && forall j :: 0 <= j < |order| ==> order[j] in byId
      requires EvictInOrder(View(), order) == target
      modifies this
      ensures Valid(View()) && View() == target && dropped + |byId| == |old(byId)|
    {
      dropped := 0;
      assert order[0..] == order;
      while dropped < |order| && weight > maxWeight
        invariant dropped <= |order| && dropped + |byId| == |old(byId)|
        invariant Valid(View()) && EvictInOrder(View(), order[dropped..]) == target
        invariant forall j :: dropped <= j < |order| ==> order[j] in byId
      {
        EvictOne(View(), order, dropped);
        var _ := Remove(order[dropped]);
        dropped := dropped + 1;
      }
    }

    method IndexImages(images: seq<KeyImage>, id: Hash)
      modifies this`spent
      ensures spent == old(spent) + (map k | k in images :: id)
    {
      for i := 0 to |images|
        invariant spent == old(spent) + (map k | k in images[..i] :: id)
      {
        spent := spent[images[i] := id];
        assert images[..i + 1] == images[..i] + [images[i]];
      }
      assert images[..|images|] == images;
    }

    /** Index the images, count the weight and hold the entry; the images must be free. */
    method Insert(tx: Tx, entry: PoolEntry)
      requires Valid(View()) && tx.id !in byId && entry.tx == tx
      requires forall k :: k in tx.images ==> k !in spent
      modifies this
      ensures Valid(View()) && View() == PoolModel.Insert(old(View()), tx, entry)
    {
      InsertKeeps(View(), tx, entry);
      IndexImages(tx.images, tx.id);
      weight := weight + entry.weight;
      byId := byId[tx.id := entry];
    }

    /** Whether every image is unspent on chain and not held here for another id. */
    method CheckUnspent(db: Db, tx: Tx) returns (free: bool)
      ensures free <==> forall k :: k in tx.images ==> ImageFree(View(), db, k, tx.id)
    {
      for i := 0 to |tx.images|
        invariant forall j :: 0 <= j < i ==> ImageFree(View(), db, tx.images[j], tx.id)
      {
        if !ImageFree(View(), db, tx.images[i], tx.id) { return false; }
      }
      return true;
    }

    /** The whole admission; `None` stands for an unparseable blob. */
    method Add(db: Db, blob: Option<Tx>, rules: Rules, now: nat, how: RelayMethod) returns (r: AddResult)
      requires Valid(View())
      requires blob.Some? && blob.value.id in byId ==> byId[blob.value.id].tx == blob.value
      modifies this
      ensures Valid(View())
      ensures blob.None? ==> r == Refused(NotParseable) && View() == old(View())
      ensures blob.Some? && Verdict(old(View()), db, blob.value, rules).Some? ==>
                r == Refused(Verdict(old(View()), db, blob.value, rules).value) && View() == old(View())
      ensures blob.Some? && Verdict(old(View()), db, blob.value, rules).None? ==>
                && Admits(old(View()), blob.value, now, how, View())
                && r == Took(Admitted(blob.value.id,
                     if blob.value.fee == 0 then NoRelay
                     else if blob.value.id in old(byId) && how == Stem
                             && old(byId)[blob.value.id].relay == Stem then Fluff
                     else how))
    {
      if blob.None? { return Refused(NotParseable); }
      var why := Check(db, blob.value, rules);
      if why.Some? { return Refused(why.value); }
      var m := Admit(blob.value, now, how);
      return Took(Admitted(blob.value.id, if blob.value.fee > 0 then m else NoRelay));
    }

    /** The checks of an admission, in order. */
    method Check(db: Db, tx: Tx, rules: Rules) returns (why: Option<Rejection>)
      ensures why == Verdict(View(), db, tx, rules)
      ensures why.None? ==> ImagesFreeInPool(View(), tx)
    {
      if (tx.id in byId && byId[tx.id].IsLegacy()) || tx.id in db.ids { return Some(AlreadyInPool); }
      if tx.weight > MAX_TX_SIZE { return Some(TooBig(tx.weight)); }
      var required := rules.requiredFee(tx.weight);
      if required.None? { return Some(FeeUnknown); }
      if tx.fee < required.value.acceptedMinimum { return Some(FeeTooLow(tx.fee, required.value.needed)); }
      if tx.extraLen > MAX_TX_EXTRA_SIZE { return Some(TxExtraTooBig(tx.extraLen)); }
      if tx.unlockTime != 0 { return Some(NonZeroUnlockTime(tx.unlockTime)); }
      var free := CheckUnspent(db, tx);
      if !free { return Some(DoubleSpend); }
      var failure := rules.verify(tx);
      if failure.Some? { return Some(NotVerified(failure.value)); }
      return None;
    }

    /** A checked transaction: seen again, or new to the pool. */
    method Admit(tx: Tx, now: nat, how: RelayMethod) returns (m: RelayMethod)
      requires Valid(View()) && ImagesFreeInPool(View(), tx)
      requires tx.id in byId ==> byId[tx.id].tx == tx
      modifies this
      ensures Valid(View()) && Admits(old(View()), tx, now, how, View())
      ensures m == if tx.id in old(byId) && how == Stem && old(byId)[tx.id].relay == Stem then Fluff else how
    {
      var relayed := FromPeer(how);
      m := how;
      ghost var before := View();
      if tx.id in byId {
        if m == Stem && byId[tx.id].relay == Stem { m := Fluff; }
        byId := byId[tx.id := Reseen(byId[tx.id], m, now, relayed)];
        AdmitsKeeps(before, tx, now, how, View());
      } else {
        AdmitNew(tx, NewEntry(tx, now, m, relayed), now);
      }
    }

    /** Drop the stale, hold the newcomer, evict to fit. */
    method AdmitNew(tx: Tx, entry: PoolEntry, now: nat)
      requires Valid(View()) && ImagesFreeInPool(View(), tx) && tx.id !in byId && entry.tx == tx
      modifies this
      ensures Valid(View())
      ensures EvictsTo(PoolModel.Insert(Without(old(View()), StaleIds(old(View()), now)), tx, entry), View())
    {
      var _ := Expire(now);
      Insert(tx, entry);
      var _ := EvictToFit();
    }

    /** Admission without policy, for transactions of popped blocks. */
    method AddKeptByBlock(db: Db, tx: Tx, verified: bool, now: nat) returns (refused: Option<Rejection>)
      requires Valid(View())
      modifies this
      ensures Valid(View()) && View() == AddKept(old(View()), db, tx, verified, now)
      ensures refused == KeptVerdict(old(View()), db, tx, verified)
    {
      AddKeptKeeps(View(), db, tx, verified, now);
      if tx.id in byId { return Some(AlreadyInPool); }
      var free := CheckUnspent(db, tx);
      if !free { return Some(DoubleSpend); }
      if !verified { return Some(NotVerified(0)); }
      forall k | k in tx.images ensures k !in spent { assert ImageFree(View(), db, k, tx.id); }
      Insert(tx, NewEntry(tx, now, Block, true));
      return None;
    }

    /** Remove whichever transactions own the given images. */
    method RemoveOwners(images: seq<KeyImage>) returns (gone: nat)
      requires Valid(View())
      modifies this
      ensures Valid(View()) && View() == Without(old(View()), OwnersOf(old(View()), ToSet(images)))
      ensures gone + |byId| == |old(byId)|
    {
      gone := 0;
      RemoveOwnersInTurnIsWithout(View(), images);
      ghost var target := RemoveOwnersInTurn(View(), images);
      for j := 0 to |images|
        invariant Valid(View()) && gone + |byId| == |old(byId)|
        invariant RemoveOwnersInTurn(View(), images[j..]) == target
      {
        assert images[j..][1..] == images[j + 1..];
        if images[j] in spent {
          RemoveIsWithout(View(), spent[images[j]]);
          var e := Remove(spent[images[j]]);
          if e.Some? { gone := gone + 1; }
        }
      }
    }

    /** Remove the mined ids, then every holder of an image the block spent. */
    method RemoveMined(included: seq<Hash>, images: seq<KeyImage>) returns (gone: nat)
      requires Valid(View())
      modifies this
      ensures Valid(View())
      ensures View() == Without(old(View()), MinedIds(old(View()), ToSet(included), ToSet(images)))
      ensures gone + |byId| == |old(byId)|
    {
      OwnersAreMined(View(), ToSet(included), ToSet(images));
      var named := RemoveAll(included);
      var owners := RemoveOwners(images);
      gone := named + owners;
    }

    /** Remove every entry the database has mined, or an image of which it has. */
    method RemoveConfirmed(db: Db) returns (gone: nat)
      requires Valid(View())
      modifies this
      ensures Valid(View()) && View() == Without(old(View()), ConfirmedIds(old(View()), db))
      ensures gone + |byId| == |old(byId)|
    {
      var stale := (set id | id in byId && id in db.ids) + OwnersOf(View(), db.images);
      ConfirmedByIndex(View(), db);
      var order := WalkOf(stale);
      gone := RemoveAll(order);
    }

    /** `set_relayed`: mark what went out, and report what became public by it. */
    method SetRelayed(ids: seq<Hash>, m: RelayMethod, now: nat) returns (public: seq<Hash>)
      requires Valid(View())
      modifies this
      ensures Valid(View()) && View() == PoolModel.SetRelayed(old(View()), ids, m, now)
      ensures public == NewlyPublic(old(View()), ids, m, now)
    {
      SetRelayedKeeps(View(), ids, m, now);
      public := [];
      for i := 0 to |ids|
        invariant View() == PoolModel.SetRelayed(old(View()), ids[..i], m, now)
        invariant public == NewlyPublic(old(View()), ids[..i], m, now)
      {
        var id := ids[i];
        assert ids[..i + 1][..i] == ids[..i] && ids[..i + 1][i] == id;
        if id in byId {
          var wasPublic := byId[id].IsPublic();
          byId := byId[id := byId[id].Upgrade(m).(relayed := true)];
          relayedAt := relayedAt[id := now];
          if !wasPublic && byId[id].IsPublic() { public := public + [id]; }
        }
      }
      assert ids[..|ids|] == ids;
    }

    /** Remove the given ids; an empty list stands for all. */
    method Flush(ids: seq<Hash>) returns (gone: nat)
      requires Valid(View())
      modifies this
      ensures Valid(View()) && gone + |byId| == |old(byId)|
      ensures View() == Without(old(View()), if ids == [] then old(byId).Keys else ToSet(ids))
    {
      if ids == [] {
        WithoutKeeps(View(), byId.Keys);
        gone := |byId|;
        assert byId - byId.Keys == map[] && relayedAt - byId.Keys == map[];
        byId, spent, relayedAt, weight := map[], map[], map[], 0;
      } else {
        gone := RemoveAll(ids);
      }
    }
  }
}
