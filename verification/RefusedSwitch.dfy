/**
 * A reorganisation that is refused: exactly when it leaves the pool in conflict with
 * the chain it puts back, then or through an admission it finds under way.
 */
module RefusedSwitch {
  import opened Base
  import opened PoolModel
  import opened NodeRace

  /** The switch from `orig` above `split` to `alts`. */
  datatype Move = Move(orig: Chain, split: nat, alts: Chain)
  {
    predicate Valid() { split < |orig| && alts != [] && WellFormed(orig) }

    function Below(): Chain
      requires Valid()
    {
      orig[..split + 1]
    }
  }

  /** That switch is under way, in either direction. */
  ghost predicate InSwitch(s: Node, m: Move) {
    || (s.phase.Switching? && s.phase == Switching(m.orig, m.split, m.alts, s.phase.next))
    || (s.phase.Restoring? && s.phase == Restoring(m.orig, m.split, m.alts, s.phase.left))
  }

  ghost predicate SwitchRun(run: seq<Node>, g: Gate, m: Move) {
    IsRun(run, g) && forall i :: 0 <= i < |run| ==> InSwitch(run[i], m)
  }

  ghost predicate Reaches(s: Node, t: Node, g: Gate, m: Move) {
    exists run :: SwitchRun(run, g, m) && run[0] == s && run[|run| - 1] == t
  }

  /** Some interleaving of the switch, refused, with any pool activity, leads from `s` to `t`. */
  ghost predicate FailedSwitch(s: Node, g: Gate, m: Move, t: Node) {
    exists a, b ::
      && m.orig == s.chain && SwitchBegin(s, a) && a.phase == Switching(m.orig, m.split, m.alts, 0)
      && Reaches(a, b, g, m) && RestoreEnd(b, t)
  }

  /** A chain the database holds at some point of a refused switch. */
  ghost predicate Passing(chain: Chain, m: Move)
    requires m.Valid()
  {
    || (m.split < |chain| <= |m.orig| && chain == m.orig[..|chain|])
    || (WellFormed(chain) && m.split < |chain| < m.split + 1 + |m.alts|
        && chain == m.Below() + m.alts[..|chain| - m.split - 1])
  }

  /** The gate lets `x` through at one of those chains. */
  ghost predicate LetIn(x: Tx, g: Gate, m: Move)
    requires m.Valid()
  {
    exists chain :: Passing(chain, m) && Passes(g, x, chain)
  }

  /** The block mines `x` or spends one of its images, so that its cleanup would remove `x`. */
  ghost predicate Touches(b: ChainBlock, x: Tx) {
    x.id in BlockIds(b) || exists k :: k in x.images && k in BlockImages(b)
  }

  /** The gate lets `x` through after one more block, whose cleanup would leave it alone. */
  ghost predicate LetInLate(x: Tx, g: Gate, m: Move) {
    exists b :: Fresh(DbOf(m.orig), b) && !Touches(b, x) && Passes(g, x, m.orig + [b])
  }

  /** `x` could be read while the blocks are away, let in then or soon after, and conflicts with them. */
  ghost predicate Trapped(x: Tx, g: Gate, m: Move, maxWeight: nat)
    requires m.Valid()
  {
    && (LetIn(x, g, m) || LetInLate(x, g, m)) && x.weight <= maxWeight
    && Clear(x, DbOf(m.Below())) && !Clear(x, DbOf(m.orig))
  }

  // -------------------------------------------------------- what comes after

  /** No refused switch ends in this step. */
  ghost predicate NoRefusal(s: Node, t: Node) { !(s.phase.Restoring? && t.phase.Locked?) }

  ghost predicate AfterRun(run: seq<Node>, g: Gate) {
    IsRun(run, g) && forall j :: 0 <= j < |run| - 1 ==> NoRefusal(run[j], run[j + 1])
  }

  /** `u` is reached from `s` through the refused switch and whatever follows, short of a second one. */
  ghost predicate Aftermath(s: Node, g: Gate, m: Move, u: Node) {
    exists t, run :: FailedSwitch(s, g, m, t) && AfterRun(run, g) && run[0] == t && run[|run| - 1] == u
  }

  /** The chain's holder has nothing to clean up. */
  predicate Rests(phase: Phase) { phase.Free? || phase.Locked? || phase.Popping? || phase.Settling? }

  // ------------------------------------------------ safe when nothing is trapped

  /** With all its alternatives applied a switch can no longer be refused. */
  lemma {:induction false} AppliedStays(run: seq<Node>, g: Gate, m: Move, j: nat, k: nat)
    requires SwitchRun(run, g, m) && j <= k < |run|
    requires run[j].phase.Switching? && run[j].phase.next >= |m.alts|
    ensures run[k].phase.Switching? && run[k].phase.next >= |m.alts|
    decreases k - j
  {
    if j < k {
      AppliedStays(run, g, m, j, k - 1);
      assert Next(run[k - 1], run[k - 1 + 1], g) && InSwitch(run[k - 1], m) && InSwitch(run[k], m);
      AppliedStep(run[k - 1], run[k], g, m);
    }
  }

  lemma AppliedStep(s: Node, t: Node, g: Gate, m: Move)
    requires Next(s, t, g) && InSwitch(s, m) && InSwitch(t, m) && s.phase.Switching? && s.phase.next >= |m.alts|
    ensures t.phase.Switching? && t.phase.next >= |m.alts|
  {}

  lemma ChainIsPassing(s: Node, m: Move, ok: Tx -> bool)
    requires m.Valid() && Inv(s, ok) && InSwitch(s, m) && (s.phase.Switching? ==> s.phase.next < |m.alts|)
    ensures Passing(s.chain, m)
  {
    if s.phase.Switching? && s.chain == m.Below() + m.alts[..s.phase.next] {
      assert s.phase.next == |s.chain| - m.split - 1;
    } else if s.phase.Restoring? && s.phase.left > 0 {
      assert s.phase.left == |s.chain| - m.split - 1;
    }
  }

  lemma {:induction false} SwitchRunKeeps(run: seq<Node>, g: Gate, m: Move, ok: Tx -> bool, i: nat)
    requires m.Valid() && SwitchRun(run, g, m) && Inv(run[0], ok) && i < |run| && run[|run| - 1].phase.Restoring?
    requires forall x :: LetIn(x, g, m) ==> ok(x)
    ensures Inv(run[i], ok) && run[i].pool.maxWeight == run[0].pool.maxWeight
  {
    if i > 0 {
      SwitchRunKeeps(run, g, m, ok, i - 1);
      NotAllApplied(run, g, m, i - 1);
      assert Next(run[i - 1], run[i - 1 + 1], g) && InSwitch(run[i - 1], m) && InSwitch(run[i], m);
      SwitchStepKeeps(run[i - 1], run[i], g, m, ok);
    }
  }

  /** A switch that is refused in the end has alternatives left to apply. */
  lemma NotAllApplied(run: seq<Node>, g: Gate, m: Move, j: nat)
    requires SwitchRun(run, g, m) && j < |run| && run[|run| - 1].phase.Restoring?
    ensures run[j].phase.Switching? ==> run[j].phase.next < |m.alts|
  {
    if run[j].phase.Switching? && run[j].phase.next >= |m.alts| { AppliedStays(run, g, m, j, |run| - 1); }
  }

  lemma SwitchStepKeeps(s: Node, t: Node, g: Gate, m: Move, ok: Tx -> bool)
    requires m.Valid() && Inv(s, ok) && Next(s, t, g) && InSwitch(s, m) && InSwitch(t, m)
    requires s.phase.Switching? ==> s.phase.next < |m.alts|
    requires forall x :: LetIn(x, g, m) ==> ok(x)
    ensures Inv(t, ok) && t.pool.maxWeight == s.pool.maxWeight
  {
    ChainIsPassing(s, m, ok);
    assert Covers(g, s.chain, ok);
    StepKeeps(s, t, g, ok);
    LimitKept(s, t, g, ok);
  }

  lemma LimitKept(s: Node, t: Node, g: Gate, ok: Tx -> bool)
    requires Inv(s, ok) && Next(s, t, g) && (s.phase.Switching? || s.phase.Restoring?)
    ensures t.pool.maxWeight == s.pool.maxWeight
  {
    if AdmitInsert(s, t) {
      var a := s.admission;
      assert ImagesFreeInPool(s.pool, a.tx);
      AdmitsKeeps(s.pool, a.tx, a.now, a.how, t.pool);
    } else if Relay(s, t) {
      var ids, m, now :| t.pool == SetRelayed(s.pool, ids, m, now);
      RelayKeepsTxs(s.pool, ids, m, now);
    }
  }

  /** What an admission may be when it is verified: let in on the way, or clear of `orig` from the start. */
  ghost function Vouched(g: Gate, m: Move): Tx -> bool
    requires m.Valid()
  {
    x => LetIn(x, g, m) || Clear(x, DbOf(m.orig))
  }

  lemma ReachedKeeps(a: Node, b: Node, g: Gate, m: Move, ok: Tx -> bool)
    requires m.Valid() && Inv(a, ok) && Reaches(a, b, g, m) && b.phase.Restoring?
    requires forall x :: LetIn(x, g, m) ==> ok(x)
    ensures Inv(b, ok) && InSwitch(b, m) && b.pool.maxWeight == a.pool.maxWeight
    ensures Clean(b.pool, DbOf(m.Below())) && Vetted(b.pool, m.orig, ok)
    ensures |b.chain| == |m.orig| && b.phase.left == 0 ==> b.chain == m.orig
  {
    var run :| SwitchRun(run, g, m) && run[0] == a && run[|run| - 1] == b;
    SwitchRunKeeps(run, g, m, ok, |run| - 1);
    assert InSwitch(run[|run| - 1], m);
    RestoringFacts(b, m, ok);
  }

  lemma RestoringFacts(b: Node, m: Move, ok: Tx -> bool)
    requires m.Valid() && Inv(b, ok) && InSwitch(b, m) && b.phase.Restoring?
    ensures Clean(b.pool, DbOf(m.Below())) && Vetted(b.pool, m.orig, ok)
    ensures |b.chain| == |m.orig| && b.phase.left == 0 ==> b.chain == m.orig
  {
    assert m.orig[..|m.orig|] == m.orig;
  }

  lemma VettedIsClean(p: Pool, g: Gate, m: Move)
    requires m.Valid() && Vetted(p, m.orig, Vouched(g, m)) && Clean(p, DbOf(m.Below()))
    requires forall x :: !Trapped(x, g, m, p.maxWeight)
    ensures Clean(p, DbOf(m.orig))
  {
    forall id | id in p.byId ensures Clear(p.byId[id].tx, DbOf(m.orig)) {
      var x := p.byId[id].tx;
      assert VettedTx(x, p.maxWeight, m.orig, Vouched(g, m)) && Clear(x, DbOf(m.Below()));
      assert !Trapped(x, g, m, p.maxWeight);
    }
  }

  /** The node between two operations of the chain's holder. */
  ghost predicate Calm(s: Node) {
    && s.phase == Locked && PoolOk(s.pool, s.admission) && WellFormed(s.chain)
    && Clean(s.pool, DbOf(s.chain)) && ReadsHold(s.admission, DbOf(s.chain))
  }

  /** Whatever an admission has read in full is clear. */
  lemma VerifiedIsClear(p: Pool, a: Admission, db: Db)
    requires PoolOk(p, a) && a.Checking? && a.verified && ReadsHold(a, db)
    ensures Clear(a.tx, db)
  {
    forall k | k in a.tx.images ensures k !in db.images {
      var j :| 0 <= j < |a.tx.images| && a.tx.images[j] == k;
    }
  }

  lemma CalmKeeps(s: Node, ok: Tx -> bool)
    requires Calm(s) && forall x :: Clear(x, DbOf(s.chain)) ==> ok(x)
    ensures Inv(s, ok)
  {
    if s.admission.Checking? && s.admission.verified { VerifiedIsClear(s.pool, s.admission, DbOf(s.chain)); }
  }

  // ------------------------------------------- the invariant of the aftermath

  /** Until the cleanup that is due, what a pooled transaction may conflict with. */
  ghost predicate EntryAgrees(x: Tx, chain: Chain, phase: Phase) {
    match phase
    case Committed(b) => Clear(x, DbOf(chain)) || Touches(b, x)
    case Switching(_, _, _, _) => true
    case Restoring(_, _, _, _) => true
    case Reorganised(_) => true
    case _ => Clear(x, DbOf(chain))
  }

  ghost predicate PoolAgrees(p: Pool, chain: Chain, phase: Phase) {
    forall id :: id in p.byId ==> EntryAgrees(p.byId[id].tx, chain, phase)
  }

  /** A cleanup of everything is still to come, and waits for the pool lock. */
  predicate Unmeasured(phase: Phase) { phase.Switching? || phase.Restoring? || phase.Reorganised? }

  /** Where the chain may have gone since the switch while one admission holds the pool. */
  ghost predicate Behind(chain: Chain, phase: Phase, m: Move)
    requires m.Valid()
  {
    match phase
    case Free => chain == m.orig
    case Locked => chain == m.orig
    case Committed(b) => chain == m.orig + [b] && Fresh(DbOf(m.orig), b)
    case Popping(_, _) => m.split < |chain| <= |m.orig| && chain == m.orig[..|chain|]
    case Settling(_) => m.split < |chain| <= |m.orig| && chain == m.orig[..|chain|]
    case _ => false
  }

  /** A verified transaction that does no harm: clear, too heavy to stay, or about to be cleaned up. */
  ghost predicate Harmless(x: Tx, phase: Phase, m: Move, maxWeight: nat)
    requires m.Valid()
  {
    Clear(x, DbOf(m.orig)) || x.weight > maxWeight || (phase.Committed? && Touches(phase.block, x))
  }

  /** An admission the switch left under way: its reads hold of the chain below the split, no more. */
  ghost predicate Stale(a: Admission, chain: Chain, phase: Phase, m: Move, maxWeight: nat)
    requires m.Valid()
  {
    && a.Checking? && ReadsHold(a, DbOf(m.Below())) && Behind(chain, phase, m)
    && (a.verified ==> Harmless(a.tx, phase, m, maxWeight))
  }

  ghost predicate AdmissionAgrees(a: Admission, chain: Chain, phase: Phase, m: Move, maxWeight: nat)
    requires m.Valid()
  {
    Unmeasured(phase) || ReadsHold(a, Settled(chain, phase)) || Stale(a, chain, phase, m, maxWeight)
  }

  ghost predicate AfterInv(s: Node, m: Move, maxWeight: nat)
    requires m.Valid()
  {
    && PoolOk(s.pool, s.admission) && s.pool.maxWeight == maxWeight
    && ChainOk(s.chain, s.phase)
    && PoolAgrees(s.pool, s.chain, s.phase)
    && AdmissionAgrees(s.admission, s.chain, s.phase, m, maxWeight)
  }

  /** The aftermath begins with a clean pool, and with an admission whose reads may be stale. */
  lemma AftermathBegins(s: Node, g: Gate, m: Move, t: Node)
    requires Calm(s) && m.Valid() && FailedSwitch(s, g, m, t)
    requires forall x :: !Trapped(x, g, m, s.pool.maxWeight)
    ensures AfterInv(t, m, s.pool.maxWeight)
  {
    var a, b :|
      && m.orig == s.chain && SwitchBegin(s, a) && a.phase == Switching(m.orig, m.split, m.alts, 0)
      && Reaches(a, b, g, m) && RestoreEnd(b, t);
    var ok := Vouched(g, m);
    CalmKeeps(s, ok);
    SwitchBeginKeeps(s, a, ok);
    ReachedKeeps(a, b, g, m, ok);
    VettedIsClean(b.pool, g, m);
    BeginsStale(s, a, b, g, m);
    if b.admission.Checking? && b.admission.verified {
      VerifiedIsClear(b.pool, b.admission, DbOf(m.Below()));
      assert !Trapped(b.admission.tx, g, m, s.pool.maxWeight);
    }
  }

  lemma BeginsStale(s: Node, a: Node, b: Node, g: Gate, m: Move)
    requires Calm(s) && m.Valid() && m.orig == s.chain && SwitchBegin(s, a)
    requires a.phase == Switching(m.orig, m.split, m.alts, 0) && Reaches(a, b, g, m) && b.phase.Restoring?
    ensures ReadsHold(b.admission, DbOf(m.Below()))
  {
    var all: Tx -> bool := _ => true;
    CalmKeeps(s, all);
    SwitchBeginKeeps(s, a, all);
    ReachedKeeps(a, b, g, m, all);
  }

  // ----------------------------------------------- chain steps of the aftermath

  /** The same chain and phase beside an empty pool. */
  function Blank(s: Node): Node { Node(s.chain, s.phase, EMPTY_POOL, Nobody) }

  lemma BlankKeeps(s: Node)
    requires ChainOk(s.chain, s.phase)
    ensures Inv(Blank(s), _ => true)
  {}

  lemma ChainOkKept(s: Node, t: Node)
    requires ChainOk(s.chain, s.phase) && ChainStep(s, t) && NoRefusal(s, t)
    ensures ChainOk(t.chain, t.phase)
  {
    if !CleanCommitted(s, t) && !CleanReorganised(s, t) && !Settle(s, t) {
      BlankKeeps(s);
      BlankStep(s, t);
      ChainStepKeeps(Blank(s), Blank(t), _ => true);
    }
  }

  lemma BlankStep(s: Node, t: Node)
    requires ChainStep(s, t) && !CleanCommitted(s, t) && !CleanReorganised(s, t) && !Settle(s, t)
    ensures ChainStep(Blank(s), Blank(t))
  {}

  lemma CommitAgrees(s: Node, t: Node, m: Move, w: nat)
    requires m.Valid() && AfterInv(s, m, w) && Commit(s, t) && ChainOk(t.chain, t.phase)
    ensures AfterInv(t, m, w)
  {
    var b := t.phase.block;
    DbOfPush(s.chain, b);
    assert t.chain[..|t.chain| - 1] == s.chain;
    forall id | id in t.pool.byId ensures EntryAgrees(t.pool.byId[id].tx, t.chain, t.phase) {
      assert EntryAgrees(s.pool.byId[id].tx, s.chain, s.phase);
    }
  }

  lemma CleanedAgrees(s: Node, t: Node, m: Move, w: nat)
    requires m.Valid() && AfterInv(s, m, w) && CleanCommitted(s, t)
    ensures AfterInv(t, m, w)
  {
    var b := s.phase.block;
    WithoutKeeps(s.pool, MinedIds(s.pool, BlockIds(b), BlockImages(b)));
    forall id | id in t.pool.byId ensures EntryAgrees(t.pool.byId[id].tx, t.chain, t.phase) {
      assert EntryAgrees(s.pool.byId[id].tx, s.chain, s.phase);
      assert id !in MinedIds(s.pool, BlockIds(b), BlockImages(b));
    }
  }

  lemma ReorganisedAgrees(s: Node, t: Node, m: Move, w: nat)
    requires m.Valid() && AfterInv(s, m, w) && CleanReorganised(s, t)
    ensures AfterInv(t, m, w)
  {
    WithoutKeeps(s.pool, ConfirmedIds(s.pool, DbOf(s.chain)));
    ConfirmedClean(s.pool, DbOf(s.chain));
    forall id | id in t.pool.byId ensures EntryAgrees(t.pool.byId[id].tx, t.chain, t.phase) {
      assert Clear(t.pool.byId[id].tx, DbOf(t.chain));
    }
  }

  lemma SettleAgrees(s: Node, t: Node, m: Move, w: nat)
    requires m.Valid() && AfterInv(s, m, w) && Settle(s, t)
    ensures AfterInv(t, m, w)
  {
    var verified: seq<bool>, now: nat :| |verified| == |s.phase.orphans|
      && t.pool == SettleAll(s.pool, DbOf(s.chain), s.phase.orphans, verified, now);
    forall id | id in s.pool.byId ensures Clear(s.pool.byId[id].tx, DbOf(s.chain)) {
      assert EntryAgrees(s.pool.byId[id].tx, s.chain, s.phase);
    }
    SettleAllClean(s.pool, DbOf(s.chain), s.phase.orphans, verified, now);
    forall id | id in t.pool.byId ensures EntryAgrees(t.pool.byId[id].tx, t.chain, t.phase) {
      assert Clear(t.pool.byId[id].tx, DbOf(t.chain));
    }
  }

  lemma PopOneAgrees(s: Node, t: Node, m: Move, w: nat)
    requires m.Valid() && AfterInv(s, m, w) && PopOne(s, t) && ChainOk(t.chain, t.phase)
    ensures AfterInv(t, m, w)
  {
    var n := |s.chain| - 1;
    DbOfPrefix(s.chain, n);
    forall id | id in t.pool.byId ensures EntryAgrees(t.pool.byId[id].tx, t.chain, t.phase) {
      assert EntryAgrees(s.pool.byId[id].tx, s.chain, s.phase);
    }
    if !ReadsHold(s.admission, DbOf(s.chain)) { PoppedStale(s.admission, s.chain, m); }
  }

  /** Popping brings a stale admission down with the chain, until its reads hold of all of it. */
  lemma PoppedStale(a: Admission, chain: Chain, m: Move)
    requires m.Valid() && ReadsHold(a, DbOf(m.Below())) && m.split < |chain| <= |m.orig|
    requires chain == m.orig[..|chain|]
    ensures var t := chain[..|chain| - 1];
      (m.split < |t| && t == m.orig[..|t|]) || ReadsHold(a, DbOf(t))
  {
    var t := chain[..|chain| - 1];
    assert t == m.orig[..|t|];
    if |t| == m.split {
      DbOfPrefix(m.Below(), m.split);
      assert m.Below()[..m.split] == t;
    }
  }

  lemma ChainStepAgrees(s: Node, t: Node, m: Move, w: nat)
    requires m.Valid() && AfterInv(s, m, w) && ChainStep(s, t) && NoRefusal(s, t)
    ensures AfterInv(t, m, w)
  {
    ChainOkKept(s, t);
    if Commit(s, t) { CommitAgrees(s, t, m, w); }
    else if CleanCommitted(s, t) { CleanedAgrees(s, t, m, w); }
    else if CleanReorganised(s, t) { ReorganisedAgrees(s, t, m, w); }
    else if Settle(s, t) { SettleAgrees(s, t, m, w); }
    else if PopOne(s, t) { PopOneAgrees(s, t, m, w); }
    else if Unmeasured(t.phase) { UnmeasuredAgrees(s, t, m, w); }
    else { SameChainAgrees(s, t, m, w); }
  }

  lemma UnmeasuredAgrees(s: Node, t: Node, m: Move, w: nat)
    requires m.Valid() && AfterInv(s, m, w) && SamePool(s, t) && ChainOk(t.chain, t.phase) && Unmeasured(t.phase)
    ensures AfterInv(t, m, w)
  {}

  /** Taking and dropping the lock, and the ends of a pop. */
  lemma SameChainAgrees(s: Node, t: Node, m: Move, w: nat)
    requires m.Valid() && AfterInv(s, m, w) && ChainOk(t.chain, t.phase)
    requires TakeLock(s, t) || DropLock(s, t) || PopBegin(s, t) || PopEnd(s, t)
    ensures AfterInv(t, m, w)
  {
    assert m.orig[..|m.orig|] == m.orig;
    forall id | id in t.pool.byId ensures EntryAgrees(t.pool.byId[id].tx, t.chain, t.phase) {
      assert EntryAgrees(s.pool.byId[id].tx, s.chain, s.phase);
    }
  }

  // ------------------------------------------------ pool steps of the aftermath

  lemma BelowIsOnChain(chain: Chain, phase: Phase, m: Move)
    requires m.Valid() && Behind(chain, phase, m)
    ensures DbLe(DbOf(m.Below()), DbOf(chain))
  {
    DbOfPrefix(chain, m.split + 1);
    assert chain[..m.split + 1] == m.Below();
  }

  lemma ReadsGrow(s: Node, t: Node, db: Db)
    requires (AdmitReadId(s, t) || AdmitReadImage(s, t)) && ReadsHold(s.admission, db) && DbLe(db, DbOf(s.chain))
    ensures ReadsHold(t.admission, db)
  {}

  lemma ReadAgrees(s: Node, t: Node, m: Move, w: nat)
    requires m.Valid() && AfterInv(s, m, w) && (AdmitReadId(s, t) || AdmitReadImage(s, t))
    ensures AfterInv(t, m, w)
  {
    if !Unmeasured(s.phase) {
      if ReadsHold(s.admission, Settled(s.chain, s.phase)) {
        SettledIsOnChain(s.chain, s.phase);
        ReadsGrow(s, t, Settled(s.chain, s.phase));
      } else {
        BelowIsOnChain(s.chain, s.phase, m);
        ReadsGrow(s, t, DbOf(m.Below()));
      }
    }
  }

  /** A stale admission that passes the gate is of a transaction that does no harm. */
  lemma PassedIsHarmless(x: Tx, chain: Chain, phase: Phase, g: Gate, m: Move, w: nat)
    requires m.Valid() && Behind(chain, phase, m) && Passes(g, x, chain) && Clear(x, DbOf(m.Below()))
    requires !Trapped(x, g, m, w)
    ensures Harmless(x, phase, m, w)
  {
    if phase.Committed? {
      if !Touches(phase.block, x) { assert LetInLate(x, g, m); }
    } else {
      assert m.orig[..|m.orig|] == m.orig;
      assert Passing(chain, m);
      assert LetIn(x, g, m);
    }
  }

  lemma VerifyAgrees(s: Node, t: Node, g: Gate, m: Move, w: nat)
    requires m.Valid() && AfterInv(s, m, w) && AdmitVerify(s, t, g)
    requires forall x :: !Trapped(x, g, m, w)
    ensures AfterInv(t, m, w)
  {
    if !Unmeasured(s.phase) && !ReadsHold(s.admission, Settled(s.chain, s.phase)) {
      VerifiedIsClear(t.pool, t.admission, DbOf(m.Below()));
      PassedIsHarmless(s.admission.tx, s.chain, s.phase, g, m, w);
    }
  }

  /** What an admission inserts agrees, if it stays at all. */
  lemma InsertedAgrees(s: Node, m: Move, w: nat)
    requires m.Valid() && AfterInv(s, m, w) && s.admission.Checking? && s.admission.verified
    ensures EntryAgrees(s.admission.tx, s.chain, s.phase) || s.admission.tx.weight > w
  {
    var x := s.admission.tx;
    if !Unmeasured(s.phase) {
      if ReadsHold(s.admission, Settled(s.chain, s.phase)) {
        VerifiedIsClear(s.pool, s.admission, Settled(s.chain, s.phase));
        if s.phase.Committed? {
          var before := s.chain[..|s.chain| - 1];
          assert s.chain == before + [s.phase.block];
          ClearButForBlock(x, before, s.phase.block);
        }
      } else {
        HarmlessAgrees(x, s.chain, s.phase, m, w);
      }
    }
  }

  lemma ClearButForBlock(x: Tx, chain: Chain, b: ChainBlock)
    requires Clear(x, DbOf(chain))
    ensures Clear(x, DbOf(chain + [b])) || Touches(b, x)
  {
    DbOfPush(chain, b);
    ClearOrTouched(x, DbOf(chain), b, DbOf(chain + [b]));
  }

  lemma ClearOrTouched(x: Tx, before: Db, b: ChainBlock, after: Db)
    requires after.ids == before.ids + BlockIds(b) && after.images == before.images + BlockImages(b)
    requires Clear(x, before)
    ensures Clear(x, after) || Touches(b, x)
  {
    if !Touches(b, x) {
      forall k | k in x.images ensures k !in after.images {}
    }
  }

  lemma HarmlessAgrees(x: Tx, chain: Chain, phase: Phase, m: Move, w: nat)
    requires m.Valid() && Behind(chain, phase, m) && Harmless(x, phase, m, w)
    ensures EntryAgrees(x, chain, phase) || x.weight > w
  {
    if Clear(x, DbOf(m.orig)) {
      if phase.Committed? {
        ClearButForBlock(x, m.orig, phase.block);
      } else {
        assert m.orig[..|m.orig|] == m.orig;
        DbOfPrefix(m.orig, |chain|);
      }
    }
  }

  lemma InsertAgrees(s: Node, t: Node, m: Move, w: nat)
    requires m.Valid() && AfterInv(s, m, w) && AdmitInsert(s, t)
    ensures AfterInv(t, m, w)
  {
    var a := s.admission;
    InsertedAgrees(s, m, w);
    assert ImagesFreeInPool(s.pool, a.tx);
    AdmitsKeeps(s.pool, a.tx, a.now, a.how, t.pool);
    forall id | id in t.pool.byId ensures EntryAgrees(t.pool.byId[id].tx, t.chain, t.phase) {
      if id in s.pool.byId { assert EntryAgrees(s.pool.byId[id].tx, s.chain, s.phase); }
    }
  }

  lemma HousekeepingAgrees(s: Node, t: Node, m: Move, w: nat)
    requires m.Valid() && AfterInv(s, m, w) && (Trim(s, t) || Relay(s, t))
    ensures AfterInv(t, m, w)
  {
    if Trim(s, t) {
      var gone :| t.pool == Without(s.pool, gone);
      WithoutKeeps(s.pool, gone);
    } else {
      var ids, how, now :| t.pool == SetRelayed(s.pool, ids, how, now);
      SetRelayedKeeps(s.pool, ids, how, now);
      RelayKeepsTxs(s.pool, ids, how, now);
    }
    forall id | id in t.pool.byId ensures EntryAgrees(t.pool.byId[id].tx, t.chain, t.phase) {
      assert EntryAgrees(s.pool.byId[id].tx, s.chain, s.phase);
    }
  }

  lemma PoolStepAgrees(s: Node, t: Node, g: Gate, m: Move, w: nat)
    requires m.Valid() && AfterInv(s, m, w) && PoolStep(s, t, g)
    requires forall x :: !Trapped(x, g, m, w)
    ensures AfterInv(t, m, w)
  {
    if AdmitReadId(s, t) || AdmitReadImage(s, t) { ReadAgrees(s, t, m, w); }
    else if AdmitVerify(s, t, g) { VerifyAgrees(s, t, g, m, w); }
    else if AdmitInsert(s, t) { InsertAgrees(s, t, m, w); }
    else if Trim(s, t) || Relay(s, t) { HousekeepingAgrees(s, t, m, w); }
    else { BeginOrRefuseAgrees(s, t, m, w); }
  }

  lemma BeginOrRefuseAgrees(s: Node, t: Node, m: Move, w: nat)
    requires m.Valid() && AfterInv(s, m, w) && (AdmitBegin(s, t) || AdmitRefuse(s, t))
    ensures AfterInv(t, m, w)
  {}

  lemma {:induction false} AfterRunKeeps(run: seq<Node>, g: Gate, m: Move, w: nat, i: nat)
    requires m.Valid() && AfterRun(run, g) && AfterInv(run[0], m, w) && i < |run|
    requires forall x :: !Trapped(x, g, m, w)
    ensures AfterInv(run[i], m, w)
  {
    if i > 0 {
      AfterRunKeeps(run, g, m, w, i - 1);
      assert Next(run[i - 1], run[i - 1 + 1], g) && NoRefusal(run[i - 1], run[i - 1 + 1]);
      if ChainStep(run[i - 1], run[i]) {
        ChainStepAgrees(run[i - 1], run[i], m, w);
      } else {
        PoolStepAgrees(run[i - 1], run[i], g, m, w);
      }
    }
  }

  /** With nothing trapped, no conflict is left once the switch is refused, nor at any time after. */
  lemma AftermathIsClean(s: Node, g: Gate, m: Move, u: Node)
    requires Calm(s) && m.Valid() && Aftermath(s, g, m, u) && Rests(u.phase)
    requires forall x :: !Trapped(x, g, m, s.pool.maxWeight)
    ensures Clean(u.pool, DbOf(u.chain))
  {
    var t, run :| FailedSwitch(s, g, m, t) && AfterRun(run, g) && run[0] == t && run[|run| - 1] == u;
    AftermathBegins(s, g, m, t);
    AfterRunKeeps(run, g, m, s.pool.maxWeight, |run| - 1);
    forall id | id in u.pool.byId ensures Clear(u.pool.byId[id].tx, DbOf(u.chain)) {
      assert EntryAgrees(u.pool.byId[id].tx, u.chain, u.phase);
    }
  }

  // ---------------------------------------------- unsafe when something is trapped

  lemma ReachesSelf(s: Node, g: Gate, m: Move)
    requires InSwitch(s, m)
    ensures Reaches(s, s, g, m)
  {
    assert SwitchRun([s], g, m);
  }

  lemma ReachesMore(s: Node, t: Node, u: Node, g: Gate, m: Move)
    requires Reaches(s, t, g, m) && Next(t, u, g) && InSwitch(u, m)
    ensures Reaches(s, u, g, m)
  {
    var run :| SwitchRun(run, g, m) && run[0] == s && run[|run| - 1] == t;
    var more := run + [u];
    forall i | 0 <= i < |more| - 1 ensures Next(more[i], more[i + 1], g) {
      if i < |run| - 1 { assert more[i] == run[i] && more[i + 1] == run[i + 1]; }
    }
    assert SwitchRun(more, g, m);
  }

  /** The main chain can be popped to the split. */
  lemma {:induction false} PopsDown(s: Node, t: Node, g: Gate, m: Move) returns (u: Node)
    requires t.phase == Switching(m.orig, m.split, m.alts, 0) && m.split < |t.chain| && Reaches(s, t, g, m)
    ensures u == t.(chain := t.chain[..m.split + 1]) && Reaches(s, u, g, m)
    decreases |t.chain|
  {
    if |t.chain| == m.split + 1 {
      u := t;
      assert t.chain[..m.split + 1] == t.chain;
    } else {
      var v := t.(chain := t.chain[..|t.chain| - 1]);
      assert SwitchPop(t, v);
      ReachesMore(s, t, v, g, m);
      u := PopsDown(s, v, g, m);
    }
  }

  /** An admission whose images are all free reads them all. */
  lemma {:induction false} ReadsImages(s: Node, t: Node, g: Gate, m: Move) returns (u: Node)
    requires Reaches(s, t, g, m) && InSwitch(t, m)
    requires t.admission.Checking? && t.admission.idRead && t.admission.imagesRead <= |t.admission.tx.images|
    requires forall k :: k in t.admission.tx.images ==> ImageFree(t.pool, DbOf(t.chain), k, t.admission.tx.id)
    ensures u == t.(admission := t.admission.(imagesRead := |t.admission.tx.images|)) && Reaches(s, u, g, m)
    decreases |t.admission.tx.images| - t.admission.imagesRead
  {
    if t.admission.imagesRead == |t.admission.tx.images| {
      u := t;
    } else {
      var v := t.(admission := t.admission.(imagesRead := t.admission.imagesRead + 1));
      assert t.admission.tx.images[t.admission.imagesRead] in t.admission.tx.images;
      assert AdmitReadImage(t, v);
      ReachesMore(s, t, v, g, m);
      u := ReadsImages(s, v, g, m);
    }
  }

  /** The original blocks can be put back, up to any height. */
  lemma {:induction false} PutsBack(s: Node, t: Node, n: nat, g: Gate, m: Move) returns (u: Node)
    requires t.phase == Restoring(m.orig, m.split, m.alts, 0) && Reaches(s, t, g, m)
    requires |t.chain| <= n <= |m.orig| && t.chain == m.orig[..|t.chain|]
    ensures u == t.(chain := m.orig[..n]) && Reaches(s, u, g, m)
    decreases n - |t.chain|
  {
    if |t.chain| == n {
      u := t;
    } else {
      var v := t.(chain := t.chain + [m.orig[|t.chain|]]);
      assert RestorePush(t, v);
      assert v.chain == m.orig[..|v.chain|];
      ReachesMore(s, t, v, g, m);
      u := PutsBack(s, v, n, g, m);
    }
  }

  /** Alternative blocks that fit can be applied one by one. */
  lemma {:induction false} AppliesUp(s: Node, t: Node, n: nat, g: Gate, m: Move) returns (u: Node)
    requires m.Valid() && n <= |m.alts|
    requires t.phase.Switching? && t.phase == Switching(m.orig, m.split, m.alts, t.phase.next)
    requires t.phase.next <= n && t.chain == m.Below() + m.alts[..t.phase.next] && Reaches(s, t, g, m)
    requires WellFormed(m.Below() + m.alts[..n])
    ensures u == t.(chain := m.Below() + m.alts[..n], phase := Switching(m.orig, m.split, m.alts, n))
    ensures Reaches(s, u, g, m)
    decreases n - t.phase.next
  {
    var k := t.phase.next;
    if k == n {
      u := t;
    } else {
      NextAltFits(m.Below(), m.alts, k, n);
      var v := AppliesOne(s, t, g, m);
      u := AppliesUp(s, v, n, g, m);
    }
  }

  lemma AppliesOne(s: Node, t: Node, g: Gate, m: Move) returns (v: Node)
    requires m.Valid() && Reaches(s, t, g, m) && t.phase.Switching? && t.phase.next < |m.alts|
    requires t.phase == Switching(m.orig, m.split, m.alts, t.phase.next)
    requires t.chain == m.Below() + m.alts[..t.phase.next] && Fresh(DbOf(t.chain), m.alts[t.phase.next])
    ensures var k := t.phase.next + 1;
      v == t.(chain := m.Below() + m.alts[..k], phase := Switching(m.orig, m.split, m.alts, k))
    ensures Reaches(s, v, g, m)
  {
    var k := t.phase.next;
    OneMore(m.Below(), m.alts, k);
    v := t.(chain := m.Below() + m.alts[..k + 1], phase := Switching(m.orig, m.split, m.alts, k + 1));
    AppliesIsNext(t, v, g, m);
    ReachesMore(s, t, v, g, m);
  }

  lemma AppliesIsNext(t: Node, v: Node, g: Gate, m: Move)
    requires SamePool(t, v) && t.phase.Switching? && t.phase.next < |m.alts|
    requires t.phase == Switching(m.orig, m.split, m.alts, t.phase.next) && |t.chain| == m.split + 1 + t.phase.next
    requires Fresh(DbOf(t.chain), m.alts[t.phase.next]) && v.chain == t.chain + [m.alts[t.phase.next]]
    requires v.phase == Switching(m.orig, m.split, m.alts, t.phase.next + 1)
    ensures Next(t, v, g) && InSwitch(v, m)
  {
    assert SwitchApply(t, v);
  }

  lemma NextAltFits(below: Chain, alts: Chain, k: nat, n: nat)
    requires k < n <= |alts| && WellFormed(below + alts[..n])
    ensures Fresh(DbOf(below + alts[..k]), alts[k])
  {
    var chain := below + alts[..n];
    BlockIsFresh(chain, |below| + k);
    assert chain[..|below| + k] == below + alts[..k];
  }

  /** Applied alternative blocks come off again. */
  lemma {:induction false} TakesOff(s: Node, t: Node, g: Gate, m: Move) returns (u: Node)
    requires m.Valid() && t.phase.Restoring? && t.phase == Restoring(m.orig, m.split, m.alts, t.phase.left)
    requires t.phase.left < |m.alts| && t.chain == m.Below() + m.alts[..t.phase.left] && Reaches(s, t, g, m)
    ensures u == t.(chain := m.Below(), phase := Restoring(m.orig, m.split, m.alts, 0)) && Reaches(s, u, g, m)
    decreases t.phase.left
  {
    var k := t.phase.left;
    if k == 0 {
      u := t;
      assert t.chain == m.Below();
    } else {
      var v := t.(chain := t.chain[..|t.chain| - 1], phase := Restoring(m.orig, m.split, m.alts, k - 1));
      assert RestorePop(t, v);
      OneLess(m.Below(), m.alts, k);
      ReachesMore(s, t, v, g, m);
      u := TakesOff(s, v, g, m);
    }
  }

  lemma BlockIsFresh(chain: Chain, i: nat)
    requires WellFormed(chain) && i < |chain|
    ensures Fresh(DbOf(chain[..i]), chain[i]) && BlockIds(chain[i]) <= DbOf(chain).ids
  {
    WellFormedPrefix(chain, i + 1);
    var upTo := chain[..i + 1];
    assert upTo[..i] == chain[..i] && upTo[i] == chain[i];
    DbOfPrefix(chain, i + 1);
  }

  lemma AdmitsIntoEmpty(p: Pool, x: Tx)
    requires p.byId == map[] && p.spent == map[] && p.weight == 0 && x.weight <= p.maxWeight
    ensures Admits(p, x, 0, Fluff, Insert(p, x, NewEntry(x, 0, Fluff, true)))
  {
    assert StaleIds(p, 0) == {} && p.byId - {} == p.byId && p.relayedAt - {} == p.relayedAt;
    assert Without(p, {}) == p;
    var q := Insert(p, x, NewEntry(x, 0, Fluff, true));
    assert Lists([x.id], q.byId.Keys);
    assert q == EvictInOrder(q, EvictionOrder(q, [x.id]));
  }

  lemma EmptiedPool(p: Pool)
    requires Valid(p)
    ensures var q := Without(p, p.byId.Keys); q.byId == map[] && q.spent == map[] && q.weight == 0
  {
    assert p.byId - p.byId.Keys == map[];
  }

  predicate IsEmptied(p: Pool, maxWeight: nat) {
    p.byId == map[] && p.spent == map[] && p.weight == 0 && p.maxWeight == maxWeight
  }

  /** The switch begins; an admission under way is refused, the pool emptied, and the chain popped to the split. */
  lemma SwitchBegins(s: Node, g: Gate, m: Move) returns (a: Node, c: Node)
    requires m.Valid() && m.orig == s.chain && Valid(s.pool) && s.phase == Locked
    ensures SwitchBegin(s, a) && a.phase == Switching(m.orig, m.split, m.alts, 0)
    ensures Reaches(a, c, g, m) && IsEmptied(c.pool, s.pool.maxWeight)
    ensures c.chain == m.Below() && c.phase == a.phase && c.admission == Nobody
  {
    a := s.(phase := Switching(s.chain, m.split, m.alts, 0));
    ReachesSelf(a, g, m);
    var r := a.(admission := Nobody);
    if a.admission.Checking? {
      assert AdmitRefuse(a, r);
      ReachesMore(a, a, r, g, m);
    }
    var b := r.(pool := Without(a.pool, a.pool.byId.Keys));
    EmptiedPool(a.pool);
    assert Trim(r, b);
    ReachesMore(a, r, b, g, m);
    c := PopsDown(a, b, g, m);
  }

  /** All that an admission of `x` reads has been read, and nothing of it was taken. */
  function ReadAll(x: Tx): Admission { Checking(x, Fluff, 0, true, |x.images|, false) }

  /** With an empty pool and the chain at the split, an admission of `x` reads all it has to. */
  lemma ReadsAtTheSplit(s: Node, t: Node, x: Tx, g: Gate, m: Move) returns (u: Node)
    requires Reaches(s, t, g, m) && InSwitch(t, m) && t.admission == Nobody && IsEmptied(t.pool, t.pool.maxWeight)
    requires Clear(x, DbOf(t.chain))
    ensures u == t.(admission := ReadAll(x)) && Reaches(s, u, g, m)
  {
    var a := t.(admission := Checking(x, Fluff, 0, false, 0, false));
    assert AdmitBegin(t, a);
    ReachesMore(s, t, a, g, m);
    var b := a.(admission := a.admission.(idRead := true));
    assert AdmitReadId(a, b);
    ReachesMore(s, a, b, g, m);
    u := ReadsImages(s, b, g, m);
  }

  /** It is then verified against the chain as it stands, and inserted. */
  lemma VerifiesAndInserts(s: Node, t: Node, x: Tx, g: Gate, m: Move) returns (u: Node)
    requires Reaches(s, t, g, m) && InSwitch(t, m) && t.admission == ReadAll(x)
    requires IsEmptied(t.pool, t.pool.maxWeight) && x.weight <= t.pool.maxWeight && Passes(g, x, t.chain)
    ensures u == t.(admission := Nobody, pool := Insert(t.pool, x, NewEntry(x, 0, Fluff, true)))
    ensures Reaches(s, u, g, m)
  {
    var d := t.(admission := t.admission.(verified := true));
    assert AdmitVerify(t, d, g);
    ReachesMore(s, t, d, g, m);
    u := t.(admission := Nobody, pool := Insert(t.pool, x, NewEntry(x, 0, Fluff, true)));
    AdmitsIntoEmpty(t.pool, x);
    assert AdmitInsert(d, u);
    ReachesMore(s, d, u, g, m);
  }

  /** What the interleavings below end in: the chain back as it was, and `x` pooled. */
  ghost predicate Caught(t: Node, x: Tx, m: Move) {
    && t.phase == Restoring(m.orig, m.split, m.alts, 0) && t.chain == m.orig
    && x.id in t.pool.byId && t.pool.byId[x.id].tx == x
  }

  /** At the split, with an empty pool and all of `x` read. */
  ghost predicate Poised(s: Node, t: Node, x: Tx, g: Gate, m: Move)
    requires m.Valid()
  {
    && Reaches(s, t, g, m) && t.phase == Switching(m.orig, m.split, m.alts, 0) && t.chain == m.Below()
    && t.admission == ReadAll(x) && IsEmptied(t.pool, t.pool.maxWeight) && x.weight <= t.pool.maxWeight
  }

  /** Refused at the first block; `x` is verified on the way back up, at height `n`. */
  lemma CaughtGoingBack(s: Node, t: Node, x: Tx, n: nat, g: Gate, m: Move) returns (u: Node)
    requires m.Valid() && Poised(s, t, x, g, m)
    requires m.split < n <= |m.orig| && Passes(g, x, m.orig[..n])
    ensures Reaches(s, u, g, m) && Caught(u, x, m)
  {
    var e := t.(phase := Restoring(m.orig, m.split, m.alts, 0));
    assert SwitchFail(t, e);
    ReachesMore(s, t, e, g, m);
    var f := PutsBack(s, e, n, g, m);
    var h := VerifiesAndInserts(s, f, x, g, m);
    u := PutsBack(s, h, |m.orig|, g, m);
    assert m.orig[..|m.orig|] == m.orig;
  }

  /** `x` is verified with `n` alternative blocks applied; the next one is refused. */
  lemma CaughtGoingOver(s: Node, t: Node, x: Tx, n: nat, g: Gate, m: Move) returns (u: Node)
    requires m.Valid() && Poised(s, t, x, g, m)
    requires n < |m.alts| && WellFormed(m.Below() + m.alts[..n]) && Passes(g, x, m.Below() + m.alts[..n])
    ensures Reaches(s, u, g, m) && Caught(u, x, m)
  {
    assert m.Below() + m.alts[..0] == m.Below();
    var e := AppliesUp(s, t, n, g, m);
    var f := VerifiesAndInserts(s, e, x, g, m);
    var h := f.(phase := Restoring(m.orig, m.split, m.alts, n));
    assert SwitchFail(f, h);
    ReachesMore(s, f, h, g, m);
    var i := TakesOff(s, h, g, m);
    u := PutsBack(s, i, |m.orig|, g, m);
    assert m.orig[..|m.orig|] == m.orig;
  }

  lemma CaughtOnTheWay(s: Node, t: Node, x: Tx, g: Gate, m: Move) returns (u: Node)
    requires m.Valid() && Poised(s, t, x, g, m)
    requires LetIn(x, g, m)
    ensures Reaches(s, u, g, m) && Caught(u, x, m)
  {
    var chain :| Passing(chain, m) && Passes(g, x, chain);
    u := CaughtAt(s, t, x, chain, g, m);
  }

  lemma CaughtAt(s: Node, t: Node, x: Tx, chain: Chain, g: Gate, m: Move) returns (u: Node)
    requires m.Valid() && Poised(s, t, x, g, m) && Passing(chain, m) && Passes(g, x, chain)
    ensures Reaches(s, u, g, m) && Caught(u, x, m)
  {
    if |chain| <= |m.orig| && chain == m.orig[..|chain|] {
      u := CaughtGoingBack(s, t, x, |chain|, g, m);
    } else {
      u := CaughtGoingOver(s, t, x, |chain| - m.split - 1, g, m);
    }
  }

  /** Refused at the first block with all of `x` read: the admission is still under way at the end. */
  lemma LeftUnderWay(s: Node, t: Node, x: Tx, g: Gate, m: Move) returns (u: Node)
    requires m.Valid() && Poised(s, t, x, g, m)
    ensures Reaches(s, u, g, m)
    ensures u == t.(chain := m.orig, phase := Restoring(m.orig, m.split, m.alts, 0))
  {
    var e := t.(phase := Restoring(m.orig, m.split, m.alts, 0));
    assert SwitchFail(t, e);
    ReachesMore(s, t, e, g, m);
    u := PutsBack(s, e, |m.orig|, g, m);
    assert m.orig[..|m.orig|] == m.orig;
  }

  /** One more block is committed; `x` is verified on it, inserted, and spared by its cleanup. */
  lemma LandsLate(t: Node, x: Tx, b: ChainBlock, g: Gate) returns (run: seq<Node>)
    requires t.phase == Locked && t.admission == ReadAll(x) && IsEmptied(t.pool, t.pool.maxWeight)
    requires x.weight <= t.pool.maxWeight && Fresh(DbOf(t.chain), b) && !Touches(b, x) && Passes(g, x, t.chain + [b])
    ensures AfterRun(run, g) && run[0] == t
    ensures var u := run[|run| - 1];
      && u.phase == Locked && u.admission == Nobody && u.chain == t.chain + [b]
      && x.id in u.pool.byId && u.pool.byId[x.id].tx == x
  {
    var p := Insert(t.pool, x, NewEntry(x, 0, Fluff, true));
    var c1 := t.(chain := t.chain + [b], phase := Committed(b));
    var c2 := c1.(admission := c1.admission.(verified := true));
    var c3 := c1.(admission := Nobody, pool := p);
    var c4 := c3.(phase := Locked, pool := Without(p, MinedIds(p, BlockIds(b), BlockImages(b))));
    assert Commit(t, c1) && AdmitVerify(c1, c2, g);
    AdmitsIntoEmpty(t.pool, x);
    assert AdmitInsert(c2, c3);
    assert CleanCommitted(c3, c4);
    assert p.byId[x.id].tx == x && x.id !in MinedIds(p, BlockIds(b), BlockImages(b));
    run := [t, c1, c2, c3, c4];
  }

  lemma HarmsAtOnce(s: Node, g: Gate, m: Move, x: Tx) returns (u: Node)
    requires Calm(s) && m.Valid() && m.orig == s.chain && LetIn(x, g, m)
    requires x.weight <= s.pool.maxWeight && Clear(x, DbOf(m.Below()))
    ensures Aftermath(s, g, m, u) && u.phase == Locked && u.chain == m.orig
    ensures x.id in u.pool.byId && u.pool.byId[x.id].tx == x
  {
    var a, c := SwitchBegins(s, g, m);
    var d := ReadsAtTheSplit(a, c, x, g, m);
    var e := CaughtOnTheWay(a, d, x, g, m);
    u := e.(phase := Locked);
    assert RestoreEnd(e, u);
    assert FailedSwitch(s, g, m, u);
    assert AfterRun([u], g);
  }

  lemma HarmsLate(s: Node, g: Gate, m: Move, x: Tx, b: ChainBlock) returns (u: Node)
    requires Calm(s) && m.Valid() && m.orig == s.chain && x.weight <= s.pool.maxWeight && Clear(x, DbOf(m.Below()))
    requires Fresh(DbOf(m.orig), b) && !Touches(b, x) && Passes(g, x, m.orig + [b])
    ensures Aftermath(s, g, m, u) && u.phase == Locked && u.admission == Nobody && u.chain == m.orig + [b]
    ensures x.id in u.pool.byId && u.pool.byId[x.id].tx == x
  {
    var a, c := SwitchBegins(s, g, m);
    var d := ReadsAtTheSplit(a, c, x, g, m);
    var e := LeftUnderWay(a, d, x, g, m);
    var t := e.(phase := Locked);
    assert RestoreEnd(e, t);
    assert FailedSwitch(s, g, m, t);
    var run := LandsLate(t, x, b, g);
    u := run[|run| - 1];
  }

  /** Every trapped transaction has its interleaving: pooled, and in conflict, with nothing left to clean up. */
  lemma FailedSwitchHarms(s: Node, g: Gate, m: Move, x: Tx) returns (u: Node)
    requires Calm(s) && m.Valid() && m.orig == s.chain && Trapped(x, g, m, s.pool.maxWeight)
    ensures Aftermath(s, g, m, u) && u.phase == Locked
    ensures x.id in u.pool.byId && u.pool.byId[x.id].tx == x && !Clean(u.pool, DbOf(u.chain))
  {
    if LetIn(x, g, m) {
      u := HarmsAtOnce(s, g, m, x);
    } else {
      var b :| Fresh(DbOf(m.orig), b) && !Touches(b, x) && Passes(g, x, m.orig + [b]);
      u := HarmsLate(s, g, m, x, b);
      DbOfPush(m.orig, b);
    }
    assert !Clear(u.pool.byId[x.id].tx, DbOf(u.chain));
  }

  /**
   * From a refused switch on, up to the next one, the pool is free of conflicts on every
   * interleaving whenever no cleanup is due, exactly when the switch traps nothing.
   */
  lemma FailedSwitchIsSafeIff(s: Node, g: Gate, m: Move)
    requires Calm(s) && m.Valid() && m.orig == s.chain
    ensures (forall u :: Aftermath(s, g, m, u) && Rests(u.phase) ==> Clean(u.pool, DbOf(u.chain)))
            <==> forall x :: !Trapped(x, g, m, s.pool.maxWeight)
  {
    if x :| Trapped(x, g, m, s.pool.maxWeight) {
      var u := FailedSwitchHarms(s, g, m, x);
    } else {
      forall u | Aftermath(s, g, m, u) && Rests(u.phase) ensures Clean(u.pool, DbOf(u.chain)) {
        AftermathIsClean(s, g, m, u);
      }
    }
  }

  /** A popped transaction is trapped when the gate passes it on the chain its block was mined on. */
  lemma PoppedIsTrapped(g: Gate, m: Move, i: nat, x: Tx, maxWeight: nat)
    requires m.Valid() && m.split < i < |m.orig| && x in m.orig[i].txs && x.weight <= maxWeight
    requires Passes(g, x, m.orig[..i])
    ensures Trapped(x, g, m, maxWeight)
  {
    BlockIsFresh(m.orig, i);
    assert x.id in BlockIds(m.orig[i]);
    assert forall k :: k in x.images ==> k in BlockImages(m.orig[i]);
    DbOfPrefix(m.orig[..i], m.split + 1);
    assert m.orig[..i][..m.split + 1] == m.Below();
    assert Passing(m.orig[..i], m);
  }

  /** Blocks without transactions trap nothing. */
  lemma EmptyBlocksTrapNothing(g: Gate, m: Move, x: Tx, maxWeight: nat)
    requires m.Valid() && NoTxs(m.orig[m.split + 1..])
    ensures !Trapped(x, g, m, maxWeight)
  {
    DbOfNoTxs(m.orig, m.split + 1);
  }

  const GENESIS := ChainBlock([])

  /** A chain of the genesis block and one that mined `x`, about to be reorganised. */
  function TwoBlocks(x: Tx): Node { Node([GENESIS, ChainBlock([x])], Locked, EMPTY_POOL, Nobody) }

  /** A switch to an empty sibling of that block. */
  function ToSibling(x: Tx): Move { Move(TwoBlocks(x).chain, 0, [ChainBlock([])]) }

  lemma TwoBlocksAreCalm(x: Tx)
    ensures Init(TwoBlocks(x).(phase := Free)) && Calm(TwoBlocks(x)) && ToSibling(x).Valid()
    ensures ToSibling(x).Below() == [GENESIS] && DbOf([GENESIS]) == Db({}, {})
    ensures DbOf(TwoBlocks(x).chain) == Db({x.id}, ToSet(x.images))
  {
    var chain := TwoBlocks(x).chain;
    assert BlockIds(GENESIS) == {} && BlockImages(GENESIS) == {};
    assert BlockIds(chain[1]) == {x.id} && BlockImages(chain[1]) == ToSet(x.images);
    assert chain[..1] == [GENESIS] && [GENESIS][..0] == [];
    assert WellFormed([GENESIS]) && WellFormed(chain);
  }

  /** The smallest case: one mined transaction, a refused switch to a sibling of its block. */
  lemma RefusedSwitchLeavesMinedTxPooled(x: Tx, g: Gate) returns (u: Node)
    requires Passes(g, x, [GENESIS])
    ensures Init(TwoBlocks(x).(phase := Free)) && Aftermath(TwoBlocks(x), g, ToSibling(x), u)
    ensures u.phase == Locked && x.id in u.pool.byId && x.id in DbOf(u.chain).ids
  {
    var m := ToSibling(x);
    TwoBlocksAreCalm(x);
    assert x in m.orig[1].txs;
    PoppedIsTrapped(g, m, 1, x, MAX_POOL_WEIGHT);
    assert Passing([GENESIS], m);
    u := HarmsAtOnce(TwoBlocks(x), g, m, x);
  }

  /** Verifies nothing before the chain has three blocks, as where a ring member is too young. */
  const LATE := Gate(_ => true, (x, chain: Chain) => |chain| >= 3)

  /**
   * A second way: `y` is mined, `x` spends the same image and verifies only one block later.
   * No chain of the switch lets anything in, and yet the admission that read beside it lands.
   */
  lemma LateAdmissionLands(x: Tx, y: Tx, k: KeyImage) returns (u: Node)
    requires x.id != y.id && k in x.images && k in y.images
    requires x.weight <= MAX_TX_SIZE && x.extraLen <= MAX_TX_EXTRA_SIZE && x.unlockTime == 0
    ensures Init(TwoBlocks(y).(phase := Free)) && ToSibling(y).Valid()
    ensures forall z :: !LetIn(z, LATE, ToSibling(y))
    ensures Aftermath(TwoBlocks(y), LATE, ToSibling(y), u) && u.phase == Free && u.admission == Nobody
    ensures x.id in u.pool.byId && !Clean(u.pool, DbOf(u.chain))
  {
    var s, m := TwoBlocks(y), ToSibling(y);
    TwoBlocksAreCalm(y);
    assert Clear(x, DbOf(m.Below()));
    var locked := HarmsLate(s, LATE, m, x, GENESIS);
    DbOfPush(m.orig, GENESIS);
    u := locked.(phase := Free);
    AfterMore(s, LATE, m, locked, u);
    assert k in DbOf(u.chain).images && !Clear(u.pool.byId[x.id].tx, DbOf(u.chain));
  }

  lemma AfterMore(s: Node, g: Gate, m: Move, t: Node, u: Node)
    requires Aftermath(s, g, m, t) && Next(t, u, g) && NoRefusal(t, u)
    ensures Aftermath(s, g, m, u)
  {
    var start, run :| FailedSwitch(s, g, m, start) && AfterRun(run, g) && run[0] == start && run[|run| - 1] == t;
    var more := run + [u];
    forall i | 0 <= i < |more| - 1 ensures Next(more[i], more[i + 1], g) && NoRefusal(more[i], more[i + 1]) {
      if i < |run| - 1 { assert more[i] == run[i] && more[i + 1] == run[i + 1]; }
    }
    assert AfterRun(more, g) && more[0] == start && more[|more| - 1] == u;
  }
}
