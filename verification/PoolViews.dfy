/** What an outsider may learn of the pool, and how far a transaction's standing moves. */
module PoolViews {
  import opened Base
  import opened PoolModel

  // ----------------------------------------------------------- the queries

  predicate MaySee(e: PoolEntry, sensitive: bool) { sensitive || e.IsPublic() }

  function Ids(p: Pool, sensitive: bool): set<Hash> {
    set id | id in p.byId && MaySee(p.byId[id], sensitive)
  }

  function Count(p: Pool, sensitive: bool): nat { |Ids(p, sensitive)| }

  predicate Spends(p: Pool, k: KeyImage, sensitive: bool) {
    k in p.spent && p.spent[k] in p.byId && MaySee(p.byId[p.spent[k]], sensitive)
  }

  function SpentKeyImages(p: Pool, sensitive: bool): map<KeyImage, Hash> {
    map k | k in p.spent && Spends(p, k, sensitive) :: p.spent[k]
  }

  /** A peer's complement request: the public transactions it does not name. */
  function PublicTxsExcept(p: Pool, known: set<Hash>): set<Tx> {
    set id | id in p.byId && p.byId[id].IsPublic() && id !in known :: p.byId[id].tx
  }

  function PublicPart(p: Pool): map<Hash, PoolEntry> {
    map id | id in p.byId && (p.byId[id].relay == Fluff || p.byId[id].relay == Block) :: p.byId[id]
  }

  lemma SpendsFromPublicPart(p: Pool, k: KeyImage)
    requires Valid(p)
    ensures Spends(p, k, false) <==> exists id :: id in PublicPart(p) && k in PublicPart(p)[id].tx.images
    ensures forall id :: id in PublicPart(p) && k in PublicPart(p)[id].tx.images ==> k in p.spent && p.spent[k] == id
  {
    if Spends(p, k, false) { assert p.spent[k] in PublicPart(p); }
    forall id | id in PublicPart(p) && k in PublicPart(p)[id].tx.images ensures k in p.spent && p.spent[k] == id {
      assert k in p.byId[id].tx.images;
    }
  }

  lemma PublicIds(p: Pool)
    ensures Ids(p, false) == PublicPart(p).Keys
  {}

  function TxsExcept(entries: map<Hash, PoolEntry>, known: set<Hash>): set<Tx> {
    set id | id in entries && id !in known :: entries[id].tx
  }

  lemma PublicTxs(p: Pool, known: set<Hash>)
    ensures PublicTxsExcept(p, known) == TxsExcept(PublicPart(p), known)
  {
    var pub := PublicPart(p);
    assert forall id :: id in pub <==> id in p.byId && (p.byId[id].relay == Fluff || p.byId[id].relay == Block);
    assert forall id :: id in pub ==> pub[id] == p.byId[id];
  }

  /** The same answer about `k` from both, and the same owner. */
  predicate SpendsAlike(p: Pool, q: Pool, k: KeyImage) {
    (Spends(p, k, false) <==> Spends(q, k, false)) && (Spends(p, k, false) ==> p.spent[k] == q.spent[k])
  }

  lemma SpendsAgree(p: Pool, q: Pool, k: KeyImage)
    requires Valid(p) && Valid(q) && PublicPart(p) == PublicPart(q)
    ensures SpendsAlike(p, q, k)
  {
    SpendsFromPublicPart(p, k);
    SpendsFromPublicPart(q, k);
  }

  lemma SameSpentImages(p: Pool, q: Pool)
    requires forall k :: SpendsAlike(p, q, k)
    ensures SpentKeyImages(p, false) == SpentKeyImages(q, false)
  {
    forall k ensures k in SpentKeyImages(p, false) <==> k in SpentKeyImages(q, false) {
      assert SpendsAlike(p, q, k);
    }
    forall k | k in SpentKeyImages(p, false) ensures p.spent[k] == q.spent[k] {
      assert SpendsAlike(p, q, k);
    }
  }

  /**
   * Non-interference: whatever else two pools hold, agreeing on what is public
   * makes every unprivileged answer the same.
   */
  lemma OutsidersSeeOnlyThePublicPart(p: Pool, q: Pool, known: set<Hash>)
    requires Valid(p) && Valid(q) && PublicPart(p) == PublicPart(q)
    ensures Ids(p, false) == Ids(q, false) && Count(p, false) == Count(q, false)
    ensures forall k :: SpendsAlike(p, q, k)
    ensures SpentKeyImages(p, false) == SpentKeyImages(q, false)
    ensures PublicTxsExcept(p, known) == PublicTxsExcept(q, known)
  {
    PublicIds(p);
    PublicIds(q);
    PublicTxs(p, known);
    PublicTxs(q, known);
    forall k ensures SpendsAlike(p, q, k) { SpendsAgree(p, q, k); }
    SameSpentImages(p, q);
  }

  // ----------------------------------------------------------- pool histories

  /** One operation on the pool, and what `set_relayed` reported if it was that. */
  ghost predicate Step(p: Pool, q: Pool, reported: seq<Hash>) {
    || (reported == [] && exists gone :: q == Without(p, gone))
    || (reported == [] && exists limit :: q == p.(maxWeight := limit))
    || (reported == [] && exists tx, now, m :: AddStep(p, tx, now, m, q))
    || (reported == [] && exists db, tx, verified, now :: q == AddKept(p, db, tx, verified, now))
    || exists ids, m, now :: q == SetRelayed(p, ids, m, now) && reported == NewlyPublic(p, ids, m, now)
  }

  ghost predicate AddStep(p: Pool, tx: Tx, now: nat, m: RelayMethod, q: Pool) {
    && ImagesFreeInPool(p, tx) && (tx.id in p.byId ==> p.byId[tx.id].tx == tx)
    && Admits(p, tx, now, m, q)
  }

  lemma StepKeeps(p: Pool, q: Pool, reported: seq<Hash>)
    requires Valid(p) && Step(p, q, reported)
    ensures Valid(q)
  {
    if exists gone :: q == Without(p, gone) {
      var gone :| q == Without(p, gone);
      WithoutKeeps(p, gone);
    } else if exists tx, now, m :: AddStep(p, tx, now, m, q) {
      var tx, now, m :| AddStep(p, tx, now, m, q);
      AdmitsKeeps(p, tx, now, m, q);
    } else if exists db, tx, verified, now :: q == AddKept(p, db, tx, verified, now) {
      var db, tx, verified, now :| q == AddKept(p, db, tx, verified, now);
      AddKeptKeeps(p, db, tx, verified, now);
    } else if exists ids, m, now :: q == SetRelayed(p, ids, m, now) {
      var ids, m, now :| q == SetRelayed(p, ids, m, now);
      SetRelayedKeeps(p, ids, m, now);
    }
  }

  predicate RanksRise(p: Pool, q: Pool) {
    forall id :: id in p.byId && id in q.byId ==> Rank(p.byId[id].relay) <= Rank(q.byId[id].relay)
  }

  lemma {:induction false} SetRelayedRaises(p: Pool, ids: seq<Hash>, m: RelayMethod, now: nat)
    ensures SetRelayed(p, ids, m, now).byId.Keys == p.byId.Keys
    ensures RanksRise(p, SetRelayed(p, ids, m, now))
    decreases |ids|
  {
    if ids != [] { SetRelayedRaises(p, ids[..|ids| - 1], m, now); }
  }

  /** No operation lowers the standing of a transaction that stays. */
  lemma RankNeverFalls(p: Pool, q: Pool, reported: seq<Hash>)
    requires Valid(p) && Step(p, q, reported)
    ensures RanksRise(p, q)
  {
    if exists tx, now, m :: AddStep(p, tx, now, m, q) {
      var tx, now, m :| AddStep(p, tx, now, m, q);
      AdmitsKeeps(p, tx, now, m, q);
    } else if exists ids, m, now :: q == SetRelayed(p, ids, m, now) {
      var ids, m, now :| q == SetRelayed(p, ids, m, now);
      SetRelayedRaises(p, ids, m, now);
    }
  }

  /** Out on the network, or mined once and put back. */
  predicate IsPublicIn(p: Pool, id: Hash) {
    id in p.byId && (p.byId[id].relay == Fluff || p.byId[id].relay == Block)
  }

  /** Kept from relay, only here, forwarded to one place, or in its stem. */
  predicate IsPrivateIn(p: Pool, id: Hash) {
    && id in p.byId
    && (p.byId[id].relay == NoRelay || p.byId[id].relay == Local || p.byId[id].relay == Forward
        || p.byId[id].relay == Stem)
  }

  /** Without a private entry every unprivileged answer is the same. */
  lemma PrivateIsInvisible(p: Pool, id: Hash, known: set<Hash>)
    requires Valid(p) && IsPrivateIn(p, id)
    ensures var q := Without(p, {id});
      && Ids(p, false) == Ids(q, false) && Count(p, false) == Count(q, false)
      && (forall k :: SpendsAlike(p, q, k)) && SpentKeyImages(p, false) == SpentKeyImages(q, false)
      && PublicTxsExcept(p, known) == PublicTxsExcept(q, known)
    ensures id !in Ids(p, false)
    ensures forall k :: k in p.byId[id].tx.images ==> !Spends(p, k, false) && k !in SpentKeyImages(p, false)
  {
    var q := Without(p, {id});
    WithoutKeeps(p, {id});
    assert PublicPart(p) == PublicPart(q);
    OutsidersSeeOnlyThePublicPart(p, q, known);
    forall k | k in p.byId[id].tx.images ensures k in p.spent && p.spent[k] == id {}
  }

  /** A public entry shows in every one of them. */
  lemma PublicIsVisible(p: Pool, id: Hash, known: set<Hash>)
    requires Valid(p) && IsPublicIn(p, id)
    ensures id in Ids(p, false) && (id !in known ==> p.byId[id].tx in PublicTxsExcept(p, known))
    ensures forall k :: k in p.byId[id].tx.images ==>
      Spends(p, k, false) && k in SpentKeyImages(p, false) && SpentKeyImages(p, false)[k] == id
  {
    forall k | k in p.byId[id].tx.images ensures k in p.spent && p.spent[k] == id {}
  }

  /** Whoever may see the sensitive part sees everything. */
  lemma InsidersSeeAll(p: Pool, k: KeyImage)
    requires Valid(p)
    ensures Ids(p, true) == p.byId.Keys && SpentKeyImages(p, true) == p.spent
    ensures Spends(p, k, true) <==> exists id :: id in p.byId && k in p.byId[id].tx.images
  {
    if k in p.spent { assert p.spent[k] in p.byId && k in p.byId[p.spent[k]].tx.images; }
  }

  /** What `set_relayed` reports was private before the call and is public after it, each id once. */
  lemma {:induction false} ReportedTurnPublic(p: Pool, ids: seq<Hash>, m: RelayMethod, now: nat)
    ensures Distinct(NewlyPublic(p, ids, m, now))
    ensures forall id :: id in NewlyPublic(p, ids, m, now) <==>
                         IsPrivateIn(p, id) && IsPublicIn(SetRelayed(p, ids, m, now), id)
    decreases |ids|
  {
    if ids != [] {
      var front, last := ids[..|ids| - 1], ids[|ids| - 1];
      ReportedTurnPublic(p, front, m, now);
      var q := SetRelayed(p, front, m, now);
      SetRelayedRaises(p, front, m, now);
      assert BecomesPublic(q, last, m) ==> last !in NewlyPublic(p, front, m, now);
      forall id ensures id in NewlyPublic(p, ids, m, now) <==>
                        IsPrivateIn(p, id) && IsPublicIn(SetRelayed(p, ids, m, now), id)
      {
        assert id in NewlyPublic(p, ids, m, now) <==>
               id in NewlyPublic(p, front, m, now) || (id == last && BecomesPublic(q, last, m));
      }
    }
  }

  ghost predicate History(pools: seq<Pool>, reports: seq<seq<Hash>>) {
    && |pools| == |reports| + 1 && Valid(pools[0])
    && forall i :: 0 <= i < |reports| ==> Step(pools[i], pools[i + 1], reports[i])
  }

  lemma {:induction false} StaysPublic(pools: seq<Pool>, reports: seq<seq<Hash>>, i: nat, j: nat, id: Hash)
    requires History(pools, reports) && i <= j < |pools|
    requires forall k :: i <= k <= j ==> id in pools[k].byId
    requires pools[i].byId[id].IsPublic()
    ensures pools[j].byId[id].IsPublic()
    decreases j - i
  {
    if i < j {
      StaysPublic(pools, reports, i, j - 1, id);
      HistoryValid(pools, reports, j - 1);
      assert Step(pools[j - 1], pools[j - 1 + 1], reports[j - 1]);
      StepStaysPublic(pools[j - 1], pools[j], reports[j - 1], id);
    }
  }

  lemma StepStaysPublic(p: Pool, q: Pool, reported: seq<Hash>, id: Hash)
    requires Valid(p) && Step(p, q, reported) && IsPublicIn(p, id) && id in q.byId
    ensures IsPublicIn(q, id)
  {
    RankNeverFalls(p, q, reported);
  }

  lemma {:induction false} HistoryValid(pools: seq<Pool>, reports: seq<seq<Hash>>, i: nat)
    requires History(pools, reports) && i < |pools|
    ensures Valid(pools[i])
  {
    if i > 0 {
      HistoryValid(pools, reports, i - 1);
      assert Step(pools[i - 1], pools[i - 1 + 1], reports[i - 1]);
      StepKeeps(pools[i - 1], pools[i], reports[i - 1]);
    }
  }

  lemma StepReports(p: Pool, q: Pool, reported: seq<Hash>, id: Hash)
    requires Step(p, q, reported) && id in reported
    ensures IsPrivateIn(p, id) && IsPublicIn(q, id)
  {
    var ids, m, now :| q == SetRelayed(p, ids, m, now) && reported == NewlyPublic(p, ids, m, now);
    ReportedTurnPublic(p, ids, m, now);
  }

  /** Over any history, an id that stays in the pool is reported newly public at most once. */
  lemma ReportedAtMostOnce(pools: seq<Pool>, reports: seq<seq<Hash>>, i: nat, j: nat, id: Hash)
    requires History(pools, reports) && i < j < |reports|
    requires forall k :: i <= k <= j ==> id in pools[k].byId
    requires id in reports[i]
    ensures id !in reports[j]
  {
    assert Step(pools[i], pools[i + 1], reports[i]) && Step(pools[j], pools[j + 1], reports[j]);
    StepReports(pools[i], pools[i + 1], reports[i], id);
    StaysPublic(pools, reports, i + 1, j, id);
    if id in reports[j] { StepReports(pools[j], pools[j + 1], reports[j], id); }
  }
}
