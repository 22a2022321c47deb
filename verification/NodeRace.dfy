/**
 * The chain and the pool behind their two locks, as a state machine over the
 * steps the node takes: take a lock, read the database, write the database,
 * clean up the pool. Every database write is its own transaction, so an
 * admission may read between any two of them.
 */
module NodeRace {
  import opened Base
  import opened PoolModel

  datatype ChainBlock = ChainBlock(txs: seq<Tx>)

  type Chain = seq<ChainBlock>

  /** What the holder of the chain lock is doing. */
  datatype Phase =
    | Free
    | Locked
      // A block joined the tip; `remove_mined` has not run.
    | Committed(block: ChainBlock)
      // A switch to `alts` above height `split`; `orig` is the chain it started from.
    | Switching(orig: Chain, split: nat, alts: Chain, next: nat)
      // The switch failed; `left` alternative blocks come off, then `orig` is put back.
    | Restoring(orig: Chain, split: nat, alts: Chain, left: nat)
      // The switch succeeded; `remove_confirmed` has not run.
    | Reorganised(orphans: seq<Tx>)
    | Popping(left: nat, orphans: seq<Tx>)
      // The pool agrees with the chain; orphans are still to be offered back.
    | Settling(orphans: seq<Tx>)

  /** What the holder of the pool lock is doing: one admission, check by check. */
  datatype Admission =
    | Nobody
    | Checking(tx: Tx, how: RelayMethod, now: nat, idRead: bool, imagesRead: nat, verified: bool)

  datatype Node = Node(chain: Chain, phase: Phase, pool: Pool, admission: Admission)

  /** The checks of an admission that need neither pool nor key images: fee, and verification against a chain. */
  datatype Gate = Gate(feeOk: Tx -> bool, verifies: (Tx, Chain) -> bool)

  predicate Passes(g: Gate, tx: Tx, chain: Chain) {
    && tx.weight <= MAX_TX_SIZE && g.feeOk(tx) && tx.extraLen <= MAX_TX_EXTRA_SIZE && tx.unlockTime == 0
    && g.verifies(tx, chain)
  }

  // ------------------------------------------------------------ the database

  function BlockIds(b: ChainBlock): set<Hash> { set t | t in b.txs :: t.id }

  function BlockImages(b: ChainBlock): set<KeyImage> { set t, k | t in b.txs && k in t.images :: k }

  /** What the database answers for `tx_exists` and `has_key_image`. */
  function DbOf(chain: Chain): Db {
    if chain == [] then Db({}, {})
    else
      var rest, b := DbOf(chain[..|chain| - 1]), chain[|chain| - 1];
      Db(rest.ids + BlockIds(b), rest.images + BlockImages(b))
  }

  /** A block is applied only when its transactions and key images are new to the chain. */
  predicate Fresh(db: Db, b: ChainBlock) {
    BlockIds(b) !! db.ids && BlockImages(b) !! db.images
  }

  predicate WellFormed(chain: Chain) {
    chain == [] ||
    (WellFormed(chain[..|chain| - 1]) && Fresh(DbOf(chain[..|chain| - 1]), chain[|chain| - 1]))
  }

  predicate NoTxs(blocks: Chain) { forall b :: b in blocks ==> b.txs == [] }

  /** The transactions of `blocks` the database does not have, oldest first. */
  function Orphans(blocks: Chain, db: Db): (txs: seq<Tx>)
    ensures Unmined(txs, db)
  {
    if blocks == [] then []
    else Orphans(blocks[..|blocks| - 1], db) + NotMined(blocks[|blocks| - 1].txs, db)
  }

  function NotMined(txs: seq<Tx>, db: Db): (kept: seq<Tx>)
    ensures Unmined(kept, db)
    ensures forall x :: x in txs && x.id !in db.ids ==> x in kept
  {
    if txs == [] then []
    else (if txs[0].id in db.ids then [] else [txs[0]]) + NotMined(txs[1..], db)
  }

  predicate Unmined(txs: seq<Tx>, db: Db) { forall x :: x in txs ==> x.id !in db.ids }

  // -------------------------------------------------------------- conflicts

  /** Neither mined nor spending anything spent, as `db` stands. */
  predicate Clear(tx: Tx, db: Db) {
    tx.id !in db.ids && forall k :: k in tx.images ==> k !in db.images
  }

  ghost predicate Clean(p: Pool, db: Db) {
    forall id :: id in p.byId ==> Clear(p.byId[id].tx, db)
  }

  /** What an admission in progress has read so far still holds of `db`. */
  predicate ReadsHold(a: Admission, db: Db) {
    a.Checking? ==>
      && (a.idRead ==> a.tx.id !in db.ids)
      && forall j :: 0 <= j < a.imagesRead && j < |a.tx.images| ==> a.tx.images[j] !in db.images
  }

  // ------------------------------------------------------ the chain's holder

  ghost predicate SamePool(s: Node, t: Node) { t.pool == s.pool && t.admission == s.admission }

  ghost predicate TakeLock(s: Node, t: Node) {
    SamePool(s, t) && s.phase == Free && t.phase == Locked && t.chain == s.chain
  }

  ghost predicate DropLock(s: Node, t: Node) {
    SamePool(s, t) && s.phase == Locked && t.phase == Free && t.chain == s.chain
  }

  ghost predicate Commit(s: Node, t: Node) {
    && SamePool(s, t) && s.phase == Locked && t.phase.Committed?
    && Fresh(DbOf(s.chain), t.phase.block) && t.chain == s.chain + [t.phase.block]
  }

  /** `remove_mined`, under the pool lock. */
  ghost predicate CleanCommitted(s: Node, t: Node) {
    && s.phase.Committed? && s.admission == Nobody == t.admission
    && t.chain == s.chain && t.phase == Locked
    && t.pool == Without(s.pool, MinedIds(s.pool, BlockIds(s.phase.block), BlockImages(s.phase.block)))
  }

  ghost predicate SwitchBegin(s: Node, t: Node) {
    && SamePool(s, t) && s.phase == Locked && t.chain == s.chain && t.phase.Switching?
    && t.phase.split < |s.chain| && t.phase.alts != []
    && t.phase == Switching(s.chain, t.phase.split, t.phase.alts, 0)
  }

  ghost predicate SwitchPop(s: Node, t: Node) {
    && SamePool(s, t) && s.phase.Switching? && t.phase == s.phase
    && s.phase.next == 0 && |s.chain| > s.phase.split + 1
    && t.chain == s.chain[..|s.chain| - 1]
  }

  ghost predicate SwitchApply(s: Node, t: Node) {
    && SamePool(s, t) && s.phase.Switching?
    && |s.chain| == s.phase.split + 1 + s.phase.next && s.phase.next < |s.phase.alts|
    && Fresh(DbOf(s.chain), s.phase.alts[s.phase.next])
    && t.chain == s.chain + [s.phase.alts[s.phase.next]]
    && t.phase == Switching(s.phase.orig, s.phase.split, s.phase.alts, s.phase.next + 1)
  }

  /** An alternative block is refused, for whatever reason the rules give. */
  ghost predicate SwitchFail(s: Node, t: Node) {
    && SamePool(s, t) && s.phase.Switching? && t.chain == s.chain
    && |s.chain| == s.phase.split + 1 + s.phase.next && s.phase.next < |s.phase.alts|
    && t.phase == Restoring(s.phase.orig, s.phase.split, s.phase.alts, s.phase.next)
  }

  ghost predicate RestorePop(s: Node, t: Node) {
    && SamePool(s, t) && s.phase.Restoring? && s.phase.left > 0 && s.chain != []
    && t.chain == s.chain[..|s.chain| - 1]
    && t.phase == Restoring(s.phase.orig, s.phase.split, s.phase.alts, s.phase.left - 1)
  }

  ghost predicate RestorePush(s: Node, t: Node) {
    && SamePool(s, t) && s.phase.Restoring? && s.phase.left == 0 && |s.chain| < |s.phase.orig|
    && t.chain == s.chain + [s.phase.orig[|s.chain|]] && t.phase == s.phase
  }

  /** The refusal is returned, and nothing is told to the pool. */
  ghost predicate RestoreEnd(s: Node, t: Node) {
    && SamePool(s, t) && s.phase.Restoring? && s.phase.left == 0 && |s.chain| == |s.phase.orig|
    && t.chain == s.chain && t.phase == Locked
  }

  /** The switch stands; what came off and is not on the new chain is orphaned. */
  ghost predicate SwitchEnd(s: Node, t: Node) {
    && SamePool(s, t) && s.phase.Switching? && t.chain == s.chain
    && s.phase.next == |s.phase.alts| && s.phase.split < |s.phase.orig|
    && t.phase == Reorganised(Orphans(s.phase.orig[s.phase.split + 1..], DbOf(s.chain)))
  }

  /** `remove_confirmed`, under the pool lock. */
  ghost predicate CleanReorganised(s: Node, t: Node) {
    && s.phase.Reorganised? && s.admission == Nobody == t.admission
    && t.chain == s.chain && t.phase == Settling(s.phase.orphans)
    && t.pool == Without(s.pool, ConfirmedIds(s.pool, DbOf(s.chain)))
  }

  /** `pop_blocks`; the genesis block stays. */
  ghost predicate PopBegin(s: Node, t: Node) {
    && SamePool(s, t) && s.phase == Locked && t.chain == s.chain
    && t.phase.Popping? && t.phase.left < |s.chain| && t.phase.orphans == []
  }

  ghost predicate PopOne(s: Node, t: Node) {
    && SamePool(s, t) && s.phase.Popping? && s.phase.left > 0 && s.chain != []
    && t.chain == s.chain[..|s.chain| - 1]
    && t.phase == Popping(s.phase.left - 1, s.phase.orphans + s.chain[|s.chain| - 1].txs)
  }

  ghost predicate PopEnd(s: Node, t: Node) {
    && SamePool(s, t) && s.phase.Popping? && s.phase.left == 0 && t.chain == s.chain
    && t.phase == Settling(s.phase.orphans)
  }

  /** Offer each orphan back; `verified` says which of them still verify. */
  function SettleAll(p: Pool, db: Db, orphans: seq<Tx>, verified: seq<bool>, now: nat): Pool
    requires |verified| == |orphans|
  {
    if orphans == [] then p
    else
      var n := |orphans| - 1;
      AddKept(SettleAll(p, db, orphans[..n], verified[..n], now), db, orphans[n], verified[n], now)
  }

  ghost predicate Settle(s: Node, t: Node) {
    && s.phase.Settling? && s.admission == Nobody == t.admission
    && t.chain == s.chain && t.phase == Locked
    && exists verified: seq<bool>, now: nat ::
         |verified| == |s.phase.orphans| && t.pool == SettleAll(s.pool, DbOf(s.chain), s.phase.orphans, verified, now)
  }

  // ------------------------------------------------------- the pool's holder

  ghost predicate SameChain(s: Node, t: Node) { t.chain == s.chain && t.phase == s.phase }

  /** Distinct blobs have distinct ids, so a held id names the same transaction. */
  ghost predicate SameBlob(p: Pool, tx: Tx) { tx.id in p.byId ==> p.byId[tx.id].tx == tx }

  ghost predicate AdmitBegin(s: Node, t: Node) {
    && SameChain(s, t) && t.pool == s.pool && s.admission == Nobody
    && t.admission.Checking? && SameBlob(s.pool, t.admission.tx)
    && t.admission == Checking(t.admission.tx, t.admission.how, t.admission.now, false, 0, false)
  }

  ghost predicate AdmitReadId(s: Node, t: Node) {
    && SameChain(s, t) && t.pool == s.pool && s.admission.Checking?
    && !IsKnown(s.pool, DbOf(s.chain), s.admission.tx.id)
    && t.admission == s.admission.(idRead := true)
  }

  ghost predicate AdmitReadImage(s: Node, t: Node) {
    && SameChain(s, t) && t.pool == s.pool && s.admission.Checking? && s.admission.idRead
    && s.admission.imagesRead < |s.admission.tx.images|
    && ImageFree(s.pool, DbOf(s.chain), s.admission.tx.images[s.admission.imagesRead], s.admission.tx.id)
    && t.admission == s.admission.(imagesRead := s.admission.imagesRead + 1)
  }

  ghost predicate AdmitVerify(s: Node, t: Node, g: Gate) {
    && SameChain(s, t) && t.pool == s.pool && s.admission.Checking? && s.admission.idRead
    && s.admission.imagesRead == |s.admission.tx.images| && Passes(g, s.admission.tx, s.chain)
    && t.admission == s.admission.(verified := true)
  }

  ghost predicate AdmitInsert(s: Node, t: Node) {
    && SameChain(s, t) && s.admission.Checking? && s.admission.verified && t.admission == Nobody
    && Admits(s.pool, s.admission.tx, s.admission.now, s.admission.how, t.pool)
  }

  ghost predicate AdmitRefuse(s: Node, t: Node) {
    SameChain(s, t) && t.pool == s.pool && s.admission.Checking? && t.admission == Nobody
  }

  /** Expiry, eviction, a flush: some entries leave. */
  ghost predicate Trim(s: Node, t: Node) {
    && SameChain(s, t) && s.admission == Nobody == t.admission
    && exists gone :: t.pool == Without(s.pool, gone)
  }

  ghost predicate Relay(s: Node, t: Node) {
    && SameChain(s, t) && s.admission == Nobody == t.admission
    && exists ids, m, now :: t.pool == SetRelayed(s.pool, ids, m, now)
  }

  // ------------------------------------------------------------------- runs

  ghost predicate ChainStep(s: Node, t: Node) {
    || TakeLock(s, t) || DropLock(s, t)
    || Commit(s, t) || CleanCommitted(s, t)
    || SwitchBegin(s, t) || SwitchPop(s, t) || SwitchApply(s, t) || SwitchEnd(s, t) || CleanReorganised(s, t)
    || SwitchFail(s, t) || RestorePop(s, t) || RestorePush(s, t) || RestoreEnd(s, t)
    || PopBegin(s, t) || PopOne(s, t) || PopEnd(s, t) || Settle(s, t)
  }

  ghost predicate PoolStep(s: Node, t: Node, g: Gate) {
    || AdmitBegin(s, t) || AdmitReadId(s, t) || AdmitReadImage(s, t) || AdmitVerify(s, t, g)
    || AdmitInsert(s, t) || AdmitRefuse(s, t)
    || Trim(s, t) || Relay(s, t)
  }

  ghost predicate Next(s: Node, t: Node, g: Gate) { ChainStep(s, t) || PoolStep(s, t, g) }

  ghost predicate IsRun(run: seq<Node>, g: Gate) {
    run != [] && forall i :: 0 <= i < |run| - 1 ==> Next(run[i], run[i + 1], g)
  }

  /** Nothing `big` has beyond `small` is the id of `tx` or an image it spends. */
  predicate Spared(tx: Tx, small: Db, big: Db) {
    && (tx.id in big.ids ==> tx.id in small.ids)
    && forall k :: k in tx.images && k in big.images ==> k in small.images
  }

  /** The blocks of `orig` above `split` touch no transaction that is `ok`. */
  ghost predicate Spares(orig: Chain, split: nat, ok: Tx -> bool) {
    forall x :: ok(x) ==> Spared(x, DbOf(orig[..Min(split + 1, |orig|)]), DbOf(orig))
  }

  /** Where a refused switch ends in this step, the blocks it took off touch no transaction that is `ok`. */
  ghost predicate FailsHarmlessly(s: Node, t: Node, ok: Tx -> bool) {
    s.phase.Restoring? && t.phase.Locked? ==> Spares(s.phase.orig, s.phase.split, ok)
  }

  ghost predicate Init(s: Node) {
    && s.phase == Free && s.admission == Nobody && WellFormed(s.chain)
    && Valid(s.pool) && Clean(s.pool, DbOf(s.chain))
  }

  // -------------------------------------------------------------- invariant

  /** The part of the chain the pool has no unresolved conflict with. */
  ghost function Settled(chain: Chain, phase: Phase): Db {
    match phase
    case Committed(_) => if chain == [] then Db({}, {}) else DbOf(chain[..|chain| - 1])
    case Switching(orig, split, _, _) => DbOf(orig[..Min(split + 1, |orig|)])
    case Restoring(orig, split, _, _) => DbOf(orig[..Min(split + 1, |orig|)])
    case Reorganised(_) => Db({}, {})
    case _ => DbOf(chain)
  }

  ghost predicate PhaseOk(chain: Chain, phase: Phase) {
    match phase
    case Committed(b) => chain != [] && chain[|chain| - 1] == b
    case Switching(orig, split, alts, next) =>
      && split + 1 <= |orig| && WellFormed(orig) && next <= |alts|
      && (|| (next == 0 && split + 1 <= |chain| <= |orig| && chain == orig[..|chain|])
          || chain == orig[..split + 1] + alts[..next])
    case Restoring(orig, split, alts, left) =>
      && split + 1 <= |orig| && WellFormed(orig) && left < |alts|
      && (if left > 0 then chain == orig[..split + 1] + alts[..left]
          else split + 1 <= |chain| <= |orig| && chain == orig[..|chain|])
    case Reorganised(orphans) => Unmined(orphans, DbOf(chain))
    case Popping(left, orphans) => left < |chain| && Unmined(orphans, DbOf(chain))
    case Settling(orphans) => Unmined(orphans, DbOf(chain))
    case _ => true
  }

  /** The checks an admission has passed against the pool, which its lock keeps true. */
  ghost predicate AdmissionOk(p: Pool, a: Admission) {
    a.Checking? ==>
      && SameBlob(p, a.tx) && a.imagesRead <= |a.tx.images|
      && (a.verified ==> a.idRead && a.imagesRead == |a.tx.images|)
      && forall j :: 0 <= j < a.imagesRead ==> !SpentInPool(p, a.tx.images[j], a.tx.id)
  }

  ghost predicate PoolOk(p: Pool, a: Admission) { Valid(p) && AdmissionOk(p, a) }

  ghost predicate ChainOk(chain: Chain, phase: Phase) { WellFormed(chain) && PhaseOk(chain, phase) }

  /** Neither the pool nor what an `ok` admission has read conflicts with `db`. */
  ghost predicate Agree(p: Pool, a: Admission, db: Db, ok: Tx -> bool) {
    Clean(p, db) && (a.Checking? && ok(a.tx) ==> ReadsHold(a, db))
  }

  /** Only what is `ok` is ever verified. */
  ghost predicate Judged(a: Admission, ok: Tx -> bool) { a.Checking? && a.verified ==> ok(a.tx) }

  /** What a switch may find in the pool when it is refused: clear of `orig`, or let in on the way. */
  ghost predicate Vetted(p: Pool, orig: Chain, ok: Tx -> bool) {
    forall id :: id in p.byId ==> VettedTx(p.byId[id].tx, p.maxWeight, orig, ok)
  }

  predicate VettedTx(tx: Tx, maxWeight: nat, orig: Chain, ok: Tx -> bool) {
    Clear(tx, DbOf(orig)) || (ok(tx) && tx.weight <= maxWeight)
  }

  ghost predicate VettedIn(p: Pool, phase: Phase, ok: Tx -> bool) {
    match phase
    case Switching(orig, _, _, _) => Vetted(p, orig, ok)
    case Restoring(orig, _, _, _) => Vetted(p, orig, ok)
    case _ => true
  }

  ghost predicate Inv(s: Node, ok: Tx -> bool) {
    && PoolOk(s.pool, s.admission) && Judged(s.admission, ok)
    && ChainOk(s.chain, s.phase)
    && Agree(s.pool, s.admission, Settled(s.chain, s.phase), ok)
    && VettedIn(s.pool, s.phase, ok)
  }

  // ------------------------------------------------------ facts about chains

  predicate DbLe(a: Db, b: Db) { a.ids <= b.ids && a.images <= b.images }

  lemma {:induction false} DbOfPrefix(chain: Chain, n: nat)
    requires n <= |chain|
    ensures DbLe(DbOf(chain[..n]), DbOf(chain))
    decreases |chain|
  {
    if n == |chain| {
      assert chain[..n] == chain;
    } else {
      DbOfPrefix(chain[..|chain| - 1], n);
      assert chain[..|chain| - 1][..n] == chain[..n];
    }
  }

  lemma {:induction false} DbOfNoTxs(chain: Chain, n: nat)
    requires n <= |chain| && NoTxs(chain[n..])
    ensures DbOf(chain) == DbOf(chain[..n])
    decreases |chain|
  {
    if n == |chain| {
      assert chain[..n] == chain;
    } else {
      var m := |chain| - 1;
      assert chain[m] in chain[n..];
      assert BlockIds(chain[m]) == {} && BlockImages(chain[m]) == {};
      assert chain[..m][n..] == chain[n..m] && chain[n..m] <= chain[n..];
      forall b | b in chain[..m][n..] ensures b.txs == [] { assert b in chain[n..]; }
      DbOfNoTxs(chain[..m], n);
      assert chain[..m][..n] == chain[..n];
    }
  }

  lemma {:induction false} WellFormedPrefix(chain: Chain, n: nat)
    requires WellFormed(chain) && n <= |chain|
    ensures WellFormed(chain[..n])
    decreases |chain|
  {
    if n == |chain| {
      assert chain[..n] == chain;
    } else {
      WellFormedPrefix(chain[..|chain| - 1], n);
      assert chain[..|chain| - 1][..n] == chain[..n];
    }
  }

  lemma DbOfPush(chain: Chain, b: ChainBlock)
    ensures DbOf(chain + [b]).ids == DbOf(chain).ids + BlockIds(b)
    ensures DbOf(chain + [b]).images == DbOf(chain).images + BlockImages(b)
    ensures WellFormed(chain) && Fresh(DbOf(chain), b) ==> WellFormed(chain + [b])
  {
    assert (chain + [b])[..|chain|] == chain;
  }

  lemma AgreeShrinks(p: Pool, a: Admission, big: Db, small: Db, ok: Tx -> bool)
    requires DbLe(small, big) && Agree(p, a, big, ok)
    ensures Agree(p, a, small, ok)
  {
    assert forall id :: id in p.byId ==> Clear(p.byId[id].tx, big);
  }

  /** Removing what a block made redundant resolves every conflict the block raised. */
  lemma MinedClean(p: Pool, before: Db, b: ChainBlock, after: Db)
    requires Valid(p) && Clean(p, before)
    requires after.ids == before.ids + BlockIds(b) && after.images == before.images + BlockImages(b)
    ensures Clean(Without(p, MinedIds(p, BlockIds(b), BlockImages(b))), after)
  {
    var q := Without(p, MinedIds(p, BlockIds(b), BlockImages(b)));
    forall id | id in q.byId ensures Clear(q.byId[id].tx, after) {
      assert Clear(p.byId[id].tx, before);
      assert id !in MinedIds(p, BlockIds(b), BlockImages(b));
    }
  }

  lemma ConfirmedClean(p: Pool, db: Db)
    requires Valid(p)
    ensures Clean(Without(p, ConfirmedIds(p, db)), db)
  {
    var q := Without(p, ConfirmedIds(p, db));
    forall id | id in q.byId ensures Clear(q.byId[id].tx, db) {
      assert id !in ConfirmedIds(p, db);
    }
  }

  lemma {:induction false} SettleAllClean(p: Pool, db: Db, orphans: seq<Tx>, verified: seq<bool>, now: nat)
    requires |verified| == |orphans| && Valid(p) && Clean(p, db)
    requires Unmined(orphans, db)
    ensures Valid(SettleAll(p, db, orphans, verified, now)) && Clean(SettleAll(p, db, orphans, verified, now), db)
    ensures SettleAll(p, db, orphans, verified, now).maxWeight == p.maxWeight
    decreases |orphans|
  {
    if orphans != [] {
      var n := |orphans| - 1;
      SettleAllClean(p, db, orphans[..n], verified[..n], now);
      var q, x := SettleAll(p, db, orphans[..n], verified[..n], now), orphans[n];
      AddKeptKeeps(q, db, x, verified[n], now);
      if KeptVerdict(q, db, x, verified[n]).None? {
        forall k | k in x.images ensures k !in db.images { assert ImageFree(q, db, k, x.id); }
        var r := AddKept(q, db, x, verified[n], now);
        forall id | id in r.byId ensures Clear(r.byId[id].tx, db) {
          if id != x.id { assert Clear(q.byId[id].tx, db); }
        }
      }
    }
  }

  lemma {:induction false} RelayKeepsTxs(p: Pool, ids: seq<Hash>, m: RelayMethod, now: nat)
    ensures SetRelayed(p, ids, m, now).byId.Keys == p.byId.Keys
    ensures SetRelayed(p, ids, m, now).maxWeight == p.maxWeight
    ensures forall id :: id in p.byId ==> SetRelayed(p, ids, m, now).byId[id].tx == p.byId[id].tx
    decreases |ids|
  {
    if ids != [] { RelayKeepsTxs(p, ids[..|ids| - 1], m, now); }
  }

  // --------------------------------------------------- every step keeps it

  lemma CommitKeeps(s: Node, t: Node, ok: Tx -> bool)
    requires Inv(s, ok) && Commit(s, t)
    ensures Inv(t, ok)
  {
    DbOfPush(s.chain, t.phase.block);
    assert t.chain[..|t.chain| - 1] == s.chain;
  }

  lemma CleanCommittedKeeps(s: Node, t: Node, ok: Tx -> bool)
    requires Inv(s, ok) && CleanCommitted(s, t)
    ensures Inv(t, ok)
  {
    var n, b := |s.chain| - 1, s.phase.block;
    assert s.chain == s.chain[..n] + [b];
    DbOfPush(s.chain[..n], b);
    WithoutKeeps(s.pool, MinedIds(s.pool, BlockIds(b), BlockImages(b)));
    MinedClean(s.pool, DbOf(s.chain[..n]), b, DbOf(s.chain));
  }

  lemma SwitchBeginKeeps(s: Node, t: Node, ok: Tx -> bool)
    requires Inv(s, ok) && SwitchBegin(s, t)
    ensures Inv(t, ok)
  {
    DbOfPrefix(s.chain, t.phase.split + 1);
    AgreeShrinks(s.pool, s.admission, DbOf(s.chain), Settled(t.chain, t.phase), ok);
    assert s.chain == s.chain[..|s.chain|];
  }

  lemma SwitchPopKeeps(s: Node, t: Node, ok: Tx -> bool)
    requires Inv(s, ok) && SwitchPop(s, t)
    ensures Inv(t, ok)
  {
    WellFormedPrefix(s.chain, |s.chain| - 1);
    assert t.chain == s.phase.orig[..|t.chain|];
  }

  lemma SwitchApplyKeeps(s: Node, t: Node, ok: Tx -> bool)
    requires Inv(s, ok) && SwitchApply(s, t)
    ensures Inv(t, ok)
  {
    var p := s.phase;
    DbOfPush(s.chain, p.alts[p.next]);
    assert s.chain == p.orig[..p.split + 1] + p.alts[..p.next];
    OneMore(p.orig[..p.split + 1], p.alts, p.next);
    ChainMoveKeeps(s, t, ok);
  }

  lemma SwitchEndKeeps(s: Node, t: Node, ok: Tx -> bool)
    requires Inv(s, ok) && SwitchEnd(s, t)
    ensures Inv(t, ok)
  {
    AgreeShrinks(s.pool, s.admission, Settled(s.chain, s.phase), Settled(t.chain, t.phase), ok);
  }

  lemma SwitchFailKeeps(s: Node, t: Node, ok: Tx -> bool)
    requires Inv(s, ok) && SwitchFail(s, t)
    ensures Inv(t, ok)
  {
    var p := s.phase;
    assert s.chain == p.orig[..p.split + 1] + p.alts[..p.next];
    if p.next == 0 { assert s.chain == p.orig[..p.split + 1]; }
  }

  lemma RestorePopKeeps(s: Node, t: Node, ok: Tx -> bool)
    requires Inv(s, ok) && RestorePop(s, t)
    ensures Inv(t, ok)
  {
    assert ChainOk(t.chain, t.phase) by {
      WellFormedPrefix(s.chain, |s.chain| - 1);
      RestorePopPhase(s.chain, s.phase.orig, s.phase.split, s.phase.alts, s.phase.left);
    }
    ChainMoveKeeps(s, t, ok);
  }

  /** A step that moves the chain alone keeps the rest while what is settled stays. */
  lemma ChainMoveKeeps(s: Node, t: Node, ok: Tx -> bool)
    requires Inv(s, ok) && SamePool(s, t) && ChainOk(t.chain, t.phase)
    requires Settled(t.chain, t.phase) == Settled(s.chain, s.phase) && VettedIn(t.pool, t.phase, ok)
    ensures Inv(t, ok)
  {}

  lemma RestorePopPhase(chain: Chain, orig: Chain, split: nat, alts: Chain, left: nat)
    requires left > 0 && PhaseOk(chain, Restoring(orig, split, alts, left))
    ensures chain != [] && PhaseOk(chain[..|chain| - 1], Restoring(orig, split, alts, left - 1))
  {
    OneLess(orig[..split + 1], alts, left);
    if left == 1 { assert chain[..|chain| - 1] == orig[..split + 1]; }
  }

  lemma OneLess(below: Chain, alts: Chain, k: nat)
    requires 0 < k <= |alts|
    ensures (below + alts[..k])[..|below| + k - 1] == below + alts[..k - 1]
  {
    var all := below + alts[..k];
    forall i | 0 <= i < |below| + k - 1 ensures all[i] == (below + alts[..k - 1])[i] {}
  }

  lemma OneMore(below: Chain, alts: Chain, k: nat)
    requires k < |alts|
    ensures below + alts[..k] + [alts[k]] == below + alts[..k + 1]
  {
    assert alts[..k + 1] == alts[..k] + [alts[k]];
  }

  lemma RestorePushKeeps(s: Node, t: Node, ok: Tx -> bool)
    requires Inv(s, ok) && RestorePush(s, t)
    ensures Inv(t, ok)
  {
    PushedPrefix(s.chain, s.phase.orig);
    WellFormedPrefix(s.phase.orig, |t.chain|);
    ChainMoveKeeps(s, t, ok);
  }

  lemma PushedPrefix(chain: Chain, orig: Chain)
    requires |chain| < |orig| && chain == orig[..|chain|]
    ensures chain + [orig[|chain|]] == orig[..|chain| + 1]
  {}

  lemma RestoreEndKeeps(s: Node, t: Node, ok: Tx -> bool)
    requires Inv(s, ok) && RestoreEnd(s, t) && FailsHarmlessly(s, t, ok)
    ensures Inv(t, ok)
  {
    assert s.chain == s.phase.orig;
    var small, big := DbOf(s.phase.orig[..s.phase.split + 1]), DbOf(s.chain);
    forall id | id in t.pool.byId ensures Clear(t.pool.byId[id].tx, big) {
      assert Clear(s.pool.byId[id].tx, small);
      assert VettedTx(s.pool.byId[id].tx, s.pool.maxWeight, s.phase.orig, ok);
    }
  }

  lemma PopOneKeeps(s: Node, t: Node, ok: Tx -> bool)
    requires Inv(s, ok) && PopOne(s, t)
    ensures Inv(t, ok)
  {
    var n := |s.chain| - 1;
    WellFormedPrefix(s.chain, n);
    DbOfPrefix(s.chain, n);
    AgreeShrinks(s.pool, s.admission, DbOf(s.chain), DbOf(t.chain), ok);
    forall x | x in t.phase.orphans ensures x.id !in DbOf(t.chain).ids {
      if x in s.chain[n].txs { assert x.id in BlockIds(s.chain[n]); }
    }
  }

  lemma CleanReorganisedKeeps(s: Node, t: Node, ok: Tx -> bool)
    requires Inv(s, ok) && CleanReorganised(s, t)
    ensures Inv(t, ok)
  {
    WithoutKeeps(s.pool, ConfirmedIds(s.pool, DbOf(s.chain)));
    ConfirmedClean(s.pool, DbOf(s.chain));
  }

  lemma SettleKeeps(s: Node, t: Node, ok: Tx -> bool)
    requires Inv(s, ok) && Settle(s, t)
    ensures Inv(t, ok)
  {
    var verified: seq<bool>, now: nat :| |verified| == |s.phase.orphans|
      && t.pool == SettleAll(s.pool, DbOf(s.chain), s.phase.orphans, verified, now);
    SettleAllClean(s.pool, DbOf(s.chain), s.phase.orphans, verified, now);
  }

  lemma ChainStepKeeps(s: Node, t: Node, ok: Tx -> bool)
    requires Inv(s, ok) && ChainStep(s, t) && FailsHarmlessly(s, t, ok)
    ensures Inv(t, ok)
  {
    if Commit(s, t) { CommitKeeps(s, t, ok); }
    else if CleanCommitted(s, t) { CleanCommittedKeeps(s, t, ok); }
    else if SwitchBegin(s, t) { SwitchBeginKeeps(s, t, ok); }
    else if SwitchPop(s, t) { SwitchPopKeeps(s, t, ok); }
    else if SwitchApply(s, t) { SwitchApplyKeeps(s, t, ok); }
    else if SwitchEnd(s, t) { SwitchEndKeeps(s, t, ok); }
    else if CleanReorganised(s, t) { CleanReorganisedKeeps(s, t, ok); }
    else if SwitchFail(s, t) { SwitchFailKeeps(s, t, ok); }
    else if RestorePop(s, t) { RestorePopKeeps(s, t, ok); }
    else if RestorePush(s, t) { RestorePushKeeps(s, t, ok); }
    else if RestoreEnd(s, t) { RestoreEndKeeps(s, t, ok); }
    else if PopOne(s, t) { PopOneKeeps(s, t, ok); }
    else if Settle(s, t) { SettleKeeps(s, t, ok); }
  }

  // ----------------------------------------------------------- pool steps

  /** Everything settled is on the chain, so what is absent from the chain is absent from it. */
  lemma SettledIsOnChain(chain: Chain, phase: Phase)
    requires ChainOk(chain, phase)
    ensures DbLe(Settled(chain, phase), DbOf(chain))
  {
    match phase
    case Committed(_) => SharedPrefix(chain, chain, |chain| - 1);
    case Switching(orig, split, alts, next) => SwitchingPrefix(chain, orig, split, alts, next);
    case Restoring(orig, split, alts, left) => RestoringPrefix(chain, orig, split, alts, left);
    case _ =>
  }

  lemma SwitchingPrefix(chain: Chain, orig: Chain, split: nat, alts: Chain, next: nat)
    requires PhaseOk(chain, Switching(orig, split, alts, next))
    ensures DbLe(DbOf(orig[..split + 1]), DbOf(chain))
  {
    assert chain[..split + 1] == orig[..split + 1];
    SharedPrefix(chain, orig, split + 1);
  }

  lemma RestoringPrefix(chain: Chain, orig: Chain, split: nat, alts: Chain, left: nat)
    requires PhaseOk(chain, Restoring(orig, split, alts, left))
    ensures DbLe(DbOf(orig[..split + 1]), DbOf(chain))
  {
    assert chain[..split + 1] == orig[..split + 1];
    SharedPrefix(chain, orig, split + 1);
  }

  lemma SharedPrefix(chain: Chain, orig: Chain, n: nat)
    requires n <= |chain| && n <= |orig| && chain[..n] == orig[..n]
    ensures DbLe(DbOf(orig[..n]), DbOf(chain))
  {
    DbOfPrefix(chain, n);
  }

  lemma AdmitReadKeeps(s: Node, t: Node, ok: Tx -> bool)
    requires Inv(s, ok) && (AdmitReadId(s, t) || AdmitReadImage(s, t))
    ensures Inv(t, ok)
  {
    SettledIsOnChain(s.chain, s.phase);
  }

  lemma AdmitInsertKeeps(s: Node, t: Node, ok: Tx -> bool)
    requires Inv(s, ok) && AdmitInsert(s, t)
    ensures Inv(t, ok)
  {
    var a, db := s.admission, Settled(s.chain, s.phase);
    assert ImagesFreeInPool(s.pool, a.tx);
    AdmitsKeeps(s.pool, a.tx, a.now, a.how, t.pool);
    forall id | id in t.pool.byId ensures Clear(t.pool.byId[id].tx, db) {
      if id in s.pool.byId && id != a.tx.id { assert Clear(s.pool.byId[id].tx, db); }
    }
    if s.phase.Switching? || s.phase.Restoring? { InsertVetted(s.pool, t.pool, a.tx, s.phase.orig, ok); }
  }

  lemma InsertVetted(p: Pool, q: Pool, tx: Tx, orig: Chain, ok: Tx -> bool)
    requires Vetted(p, orig, ok) && ok(tx) && q.maxWeight == p.maxWeight && q.byId.Keys <= p.byId.Keys + {tx.id}
    requires forall id :: id in q.byId && id in p.byId ==> q.byId[id].tx == p.byId[id].tx
    requires tx.id in q.byId && tx.id !in p.byId ==> q.byId[tx.id].tx == tx && tx.weight <= q.maxWeight
    ensures Vetted(q, orig, ok)
  {
    forall id | id in q.byId ensures VettedTx(q.byId[id].tx, q.maxWeight, orig, ok) {
      if id in p.byId { assert VettedTx(p.byId[id].tx, p.maxWeight, orig, ok); }
    }
  }

  /** A pool with no new transactions is as clean and as vetted as before. */
  lemma SubpoolAgrees(p: Pool, q: Pool, db: Db, phase: Phase, ok: Tx -> bool)
    requires Clean(p, db) && VettedIn(p, phase, ok) && q.maxWeight == p.maxWeight
    requires forall id :: id in q.byId ==> id in p.byId && q.byId[id].tx == p.byId[id].tx
    ensures Clean(q, db) && VettedIn(q, phase, ok)
  {
    forall id | id in q.byId ensures Clear(q.byId[id].tx, db) { assert Clear(p.byId[id].tx, db); }
    if phase.Switching? || phase.Restoring? {
      forall id | id in q.byId ensures VettedTx(q.byId[id].tx, q.maxWeight, phase.orig, ok) {
        assert VettedTx(p.byId[id].tx, p.maxWeight, phase.orig, ok);
      }
    }
  }

  lemma HousekeepingKeeps(s: Node, t: Node, ok: Tx -> bool)
    requires Inv(s, ok) && (Trim(s, t) || Relay(s, t))
    ensures Inv(t, ok)
  {
    if Trim(s, t) {
      var gone :| t.pool == Without(s.pool, gone);
      WithoutKeeps(s.pool, gone);
    } else {
      var ids, m, now :| t.pool == SetRelayed(s.pool, ids, m, now);
      SetRelayedKeeps(s.pool, ids, m, now);
      RelayKeepsTxs(s.pool, ids, m, now);
    }
    SubpoolAgrees(s.pool, t.pool, Settled(s.chain, s.phase), s.phase, ok);
  }

  /** Whatever the gate lets through at this chain is `ok`. */
  ghost predicate Covers(g: Gate, chain: Chain, ok: Tx -> bool) { forall x :: Passes(g, x, chain) ==> ok(x) }

  lemma PoolStepKeeps(s: Node, t: Node, g: Gate, ok: Tx -> bool)
    requires Inv(s, ok) && PoolStep(s, t, g) && Covers(g, s.chain, ok)
    ensures Inv(t, ok)
  {
    if AdmitReadId(s, t) || AdmitReadImage(s, t) { AdmitReadKeeps(s, t, ok); }
    else if AdmitInsert(s, t) { AdmitInsertKeeps(s, t, ok); }
    else if Trim(s, t) || Relay(s, t) { HousekeepingKeeps(s, t, ok); }
  }

  lemma StepKeeps(s: Node, t: Node, g: Gate, ok: Tx -> bool)
    requires Inv(s, ok) && Next(s, t, g) && Covers(g, s.chain, ok) && FailsHarmlessly(s, t, ok)
    ensures Inv(t, ok)
  {
    if ChainStep(s, t) { ChainStepKeeps(s, t, ok); } else { PoolStepKeeps(s, t, g, ok); }
  }

  // ------------------------------------------------------- safety over runs

  /** The gate and the refused switches of a run leave nothing that is not `ok`. */
  ghost predicate RunsWithin(run: seq<Node>, g: Gate, ok: Tx -> bool) {
    && IsRun(run, g)
    && forall j :: 0 <= j < |run| - 1 ==> Covers(g, run[j].chain, ok) && FailsHarmlessly(run[j], run[j + 1], ok)
  }

  lemma {:induction false} InvOverRun(run: seq<Node>, g: Gate, ok: Tx -> bool, i: nat)
    requires RunsWithin(run, g, ok) && Inv(run[0], ok) && i < |run|
    ensures Inv(run[i], ok)
  {
    if i > 0 {
      InvOverRun(run, g, ok, i - 1);
      assert Next(run[i - 1], run[i - 1 + 1], g) && FailsHarmlessly(run[i - 1], run[i - 1 + 1], ok);
      StepKeeps(run[i - 1], run[i], g, ok);
    }
  }

  /** The transactions the gate passes at some chain of the run. */
  ghost function PassedAlong(run: seq<Node>, g: Gate): Tx -> bool {
    x => exists k :: 0 <= k < |run| && Passes(g, x, run[k].chain)
  }

  /**
   * Over every interleaving whose refused switches took off nothing the gate lets in
   * at any chain of the run: the pool's structures agree; with the chain lock free nothing
   * pooled is mined or spends anything spent; and after a commit only that block's
   * own transactions and images can be in conflict, until its cleanup has run.
   */
  lemma NoConflictWhileUnlocked(run: seq<Node>, g: Gate, i: nat)
    requires IsRun(run, g) && Init(run[0]) && i < |run|
    requires forall j :: 0 <= j < |run| - 1 ==> FailsHarmlessly(run[j], run[j + 1], PassedAlong(run, g))
    ensures Valid(run[i].pool)
    ensures run[i].phase.Free? || run[i].phase.Locked? || run[i].phase.Popping? || run[i].phase.Settling? ==>
              Clean(run[i].pool, DbOf(run[i].chain))
    ensures run[i].phase.Committed? ==> OnlyBlockConflicts(run[i].pool, run[i].chain, run[i].phase.block)
  {
    var ok := PassedAlong(run, g);
    assert forall j :: 0 <= j < |run| - 1 ==> Covers(g, run[j].chain, ok);
    InvOverRun(run, g, ok, i);
    if run[i].phase.Committed? { CommittedConflicts(run[i].pool, run[i].chain, run[i].phase.block); }
  }

  /** What conflicts with the chain is what the cleanup of its last block will remove. */
  ghost predicate OnlyBlockConflicts(p: Pool, chain: Chain, b: ChainBlock) {
    forall id :: id in p.byId && !Clear(p.byId[id].tx, DbOf(chain)) ==>
      id in MinedIds(p, BlockIds(b), BlockImages(b))
  }

  lemma CommittedConflicts(p: Pool, chain: Chain, b: ChainBlock)
    requires Valid(p) && chain != [] && chain[|chain| - 1] == b && Clean(p, DbOf(chain[..|chain| - 1]))
    ensures OnlyBlockConflicts(p, chain, b)
  {
    assert chain == chain[..|chain| - 1] + [b];
    DbOfPush(chain[..|chain| - 1], b);
    forall id | id in p.byId && !Clear(p.byId[id].tx, DbOf(chain))
      ensures id in MinedIds(p, BlockIds(b), BlockImages(b))
    {
      assert Clear(p.byId[id].tx, DbOf(chain[..|chain| - 1]));
    }
  }

  /** Blocks without transactions touch nothing, whatever the gate. */
  lemma EmptyBlocksSpare(orig: Chain, split: nat, ok: Tx -> bool)
    requires split < |orig| && NoTxs(orig[split + 1..])
    ensures Spares(orig, split, ok)
  {
    DbOfNoTxs(orig, split + 1);
  }
}
