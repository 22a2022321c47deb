/** What a reorganisation or a pop takes off the chain comes back to the pool. */
module ReturnedTxs {
  import opened Base
  import opened PoolModel
  import opened PoolFacts
  import opened NodeRace
  import opened RefusedSwitch

  // ------------------------------------------------------------ offering back

  /** In the pool, or kept out by an entry that spends one of its images. */
  ghost predicate BackOrBlocked(p: Pool, x: Tx) {
    x.id in p.byId || exists k, id :: k in x.images && id in p.byId && k in p.byId[id].tx.images
  }

  predicate FreeOnChain(x: Tx, db: Db) { forall k :: k in x.images ==> k !in db.images }

  /** Held as a transaction out of a replaced block, received now. */
  ghost predicate HeldAsReturned(p: Pool, x: Tx, now: nat) {
    x.id in p.byId && p.byId[x.id] == PoolEntry(x, x.weight, x.fee, now, Block, true, false)
  }

  /** Nothing of `p` is touched, whatever is new is a verified orphan, and every verified orphan is back or blocked. */
  ghost predicate AllOffered(p: Pool, q: Pool, db: Db, orphans: seq<Tx>, verified: seq<bool>, now: nat)
    requires |verified| == |orphans|
  {
    && (forall id :: id in p.byId ==> id in q.byId && q.byId[id] == p.byId[id])
    && (forall i :: 0 <= i < |orphans| && verified[i] && FreeOnChain(orphans[i], db) ==> BackOrBlocked(q, orphans[i]))
    && (forall id :: id in q.byId && id !in p.byId ==> Returned(q, db, orphans, verified, now, id))
  }

  ghost predicate Returned(q: Pool, db: Db, orphans: seq<Tx>, verified: seq<bool>, now: nat, id: Hash)
    requires |verified| == |orphans|
  {
    exists i :: 0 <= i < |orphans| && verified[i] && orphans[i].id == id
      && FreeOnChain(orphans[i], db) && HeldAsReturned(q, orphans[i], now)
  }

  lemma OneOffered(q: Pool, db: Db, x: Tx, verified: bool, now: nat)
    requires Valid(q)
    ensures var r := AddKept(q, db, x, verified, now);
      && (forall id :: id in q.byId ==> id in r.byId && r.byId[id] == q.byId[id])
      && (verified && FreeOnChain(x, db) ==> BackOrBlocked(r, x))
      && (forall id :: id in r.byId && id !in q.byId ==>
            id == x.id && verified && FreeOnChain(x, db) && HeldAsReturned(r, x, now))
  {
    KeptIs(q, db, x, verified, now);
    if x.id !in q.byId && verified && FreeOnChain(x, db) && !UnspentElsewhere(q, db, x) {
      var k :| k in x.images && exists id :: id in q.byId && k in q.byId[id].tx.images;
    }
  }

  lemma StillBack(q: Pool, r: Pool, x: Tx)
    requires BackOrBlocked(q, x) && forall id :: id in q.byId ==> id in r.byId && r.byId[id] == q.byId[id]
    ensures BackOrBlocked(r, x)
  {}

  lemma StillReturned(
      q: Pool, r: Pool, db: Db, orphans: seq<Tx>, verified: seq<bool>, x: Tx, v: bool, now: nat, id: Hash)
    requires |verified| == |orphans| && Returned(q, db, orphans, verified, now, id)
    requires forall j :: j in q.byId ==> j in r.byId && r.byId[j] == q.byId[j]
    ensures Returned(r, db, orphans + [x], verified + [v], now, id)
  {
    var i :| 0 <= i < |orphans| && verified[i] && orphans[i].id == id
      && FreeOnChain(orphans[i], db) && HeldAsReturned(q, orphans[i], now);
    assert (orphans + [x])[i] == orphans[i] && (verified + [v])[i] == verified[i];
  }

  /** Offering the orphans back loses none and adds nothing else. */
  lemma {:induction false} OrphansComeBack(
      p: Pool, db: Db, orphans: seq<Tx>, verified: seq<bool>, now: nat)
    requires Valid(p) && |verified| == |orphans|
    ensures Valid(SettleAll(p, db, orphans, verified, now))
    ensures AllOffered(p, SettleAll(p, db, orphans, verified, now), db, orphans, verified, now)
    decreases |orphans|
  {
    if orphans != [] {
      var n := |orphans| - 1;
      var q := SettleAll(p, db, orphans[..n], verified[..n], now);
      OrphansComeBack(p, db, orphans[..n], verified[..n], now);
      AddKeptKeeps(q, db, orphans[n], verified[n], now);
      assert orphans == orphans[..n] + [orphans[n]] && verified == verified[..n] + [verified[n]];
      OneMoreOffered(p, q, db, orphans[..n], verified[..n], orphans[n], verified[n], now);
    }
  }

  lemma OneMoreOffered(
      p: Pool, q: Pool, db: Db, orphans: seq<Tx>, verified: seq<bool>, x: Tx, v: bool, now: nat)
    requires |verified| == |orphans| && Valid(q) && AllOffered(p, q, db, orphans, verified, now)
    ensures AllOffered(p, AddKept(q, db, x, v, now), db, orphans + [x], verified + [v], now)
  {
    var r, all, flags := AddKept(q, db, x, v, now), orphans + [x], verified + [v];
    OneOffered(q, db, x, v, now);
    forall i | 0 <= i < |all| && flags[i] && FreeOnChain(all[i], db) ensures BackOrBlocked(r, all[i]) {
      if i < |orphans| { StillBack(q, r, orphans[i]); }
    }
    forall id | id in r.byId && id !in p.byId ensures Returned(r, db, all, flags, now, id) {
      if id in q.byId {
        StillReturned(q, r, db, orphans, verified, x, v, now, id);
      } else {
        assert all[|orphans|] == x && flags[|orphans|] == v;
      }
    }
  }

  // ------------------------------------------------------------ what is offered

  /** A transaction of some block of `blocks`. */
  ghost predicate Within(x: Tx, blocks: Chain) { exists b :: b in blocks && x in b.txs }

  lemma {:induction false} NotMinedIs(txs: seq<Tx>, db: Db, x: Tx)
    ensures x in NotMined(txs, db) <==> x in txs && x.id !in db.ids
    decreases |txs|
  {
    if txs != [] {
      NotMinedIs(txs[1..], db, x);
      assert x in txs <==> x == txs[0] || x in txs[1..];
    }
  }

  /** The orphans of a reorganisation are the transactions it took off, less those the new chain has. */
  lemma {:induction false} OrphansAre(blocks: Chain, db: Db, x: Tx)
    ensures x in Orphans(blocks, db) <==> Within(x, blocks) && x.id !in db.ids
    decreases |blocks|
  {
    if blocks != [] {
      var n := |blocks| - 1;
      OrphansAre(blocks[..n], db, x);
      NotMinedIs(blocks[n].txs, db, x);
      WithinLast(x, blocks);
    }
  }

  lemma WithinLast(x: Tx, blocks: Chain)
    requires blocks != []
    ensures Within(x, blocks) <==> Within(x, blocks[..|blocks| - 1]) || x in blocks[|blocks| - 1].txs
  {
    var n := |blocks| - 1;
    assert forall b :: b in blocks <==> b in blocks[..n] || b == blocks[n];
  }

  // -------------------------------------------------------------- whole runs

  /** The chain's holder has transactions to bring back. */
  predicate Carrying(phase: Phase) { phase.Reorganised? || phase.Popping? || phase.Settling? }

  function OrphansOf(phase: Phase): seq<Tx>
    requires Carrying(phase)
  {
    match phase
    case Reorganised(o) => o
    case Popping(_, o) => o
    case Settling(o) => o
  }

  ghost predicate CarryingRun(run: seq<Node>, g: Gate) {
    IsRun(run, g) && forall i :: 0 <= i < |run| ==> Carrying(run[i].phase)
  }

  lemma CarriedOn(s: Node, t: Node, g: Gate)
    requires Next(s, t, g) && Carrying(s.phase) && Carrying(t.phase)
    ensures forall x :: x in OrphansOf(s.phase) ==> x in OrphansOf(t.phase)
    ensures t.chain == s.chain
         || (s.chain != [] && t.chain == s.chain[..|s.chain| - 1]
             && forall x :: x in s.chain[|s.chain| - 1].txs ==> x in OrphansOf(t.phase))
  {}

  /** Whatever has come off the chain on the way is carried along, and what was carried stays. */
  lemma {:induction false} NothingIsDropped(run: seq<Node>, g: Gate, i: nat, x: Tx)
    requires CarryingRun(run, g) && i < |run|
    ensures |run[i].chain| <= |run[0].chain| && run[i].chain == run[0].chain[..|run[i].chain|]
    ensures x in OrphansOf(run[0].phase) || Within(x, run[0].chain[|run[i].chain|..]) ==> x in OrphansOf(run[i].phase)
  {
    if i > 0 {
      NothingIsDropped(run, g, i - 1, x);
      assert Next(run[i - 1], run[i - 1 + 1], g);
      CarriedOn(run[i - 1], run[i], g);
      OneMoreOff(run[0].chain, run[i - 1].chain, run[i].chain, x);
    }
  }

  lemma OneMoreOff(start: Chain, before: Chain, after: Chain, x: Tx)
    requires |before| <= |start| && before == start[..|before|]
    requires after == before || (before != [] && after == before[..|before| - 1])
    ensures |after| <= |start| && after == start[..|after|]
    ensures Within(x, start[|after|..]) ==>
      Within(x, start[|before|..]) || (after != before && x in before[|before| - 1].txs)
  {
    if after != before && Within(x, start[|after|..]) {
      var b :| b in start[|after|..] && x in b.txs;
      assert start[|after|..] == [before[|before| - 1]] + start[|before|..];
    }
  }

  /** The pool after the offer, for one transaction that was carried there. */
  ghost predicate BroughtBack(s: Node, t: Node, x: Tx)
    requires Carrying(s.phase)
  {
    exists verified: seq<bool>, now: nat, i ::
      && |verified| == |OrphansOf(s.phase)| && 0 <= i < |verified| && OrphansOf(s.phase)[i] == x
      && t.pool == SettleAll(s.pool, DbOf(s.chain), OrphansOf(s.phase), verified, now)
      && (verified[i] && FreeOnChain(x, DbOf(s.chain)) ==> BackOrBlocked(t.pool, x))
  }

  lemma SettledIsBack(s: Node, t: Node, x: Tx)
    requires Settle(s, t) && Valid(s.pool) && x in OrphansOf(s.phase)
    ensures BroughtBack(s, t, x)
  {
    var verified: seq<bool>, now: nat :| |verified| == |s.phase.orphans|
      && t.pool == SettleAll(s.pool, DbOf(s.chain), s.phase.orphans, verified, now);
    OrphansComeBack(s.pool, DbOf(s.chain), s.phase.orphans, verified, now);
    var i :| 0 <= i < |s.phase.orphans| && s.phase.orphans[i] == x;
  }

  /**
   * From a reorganisation that stands to its settling, whatever runs beside it: every
   * transaction it took off and the new chain lacks is offered back, and is in the pool or
   * kept out by an entry there if it verifies and its images are unspent on chain.
   */
  lemma ReorganisationLosesNothing(s: Node, run: seq<Node>, t: Node, g: Gate, x: Tx)
    requires CarryingRun(run, g) && SwitchEnd(s, run[0]) && Settle(run[|run| - 1], t) && Valid(run[|run| - 1].pool)
    requires Within(x, s.phase.orig[s.phase.split + 1..]) && x.id !in DbOf(s.chain).ids
    ensures BroughtBack(run[|run| - 1], t, x)
  {
    OrphansAre(s.phase.orig[s.phase.split + 1..], DbOf(s.chain), x);
    NothingIsDropped(run, g, |run| - 1, x);
    SettledIsBack(run[|run| - 1], t, x);
  }

  /** The same of a pop, for every transaction of the blocks it took off. */
  lemma PopLosesNothing(s: Node, run: seq<Node>, t: Node, g: Gate, x: Tx)
    requires CarryingRun(run, g) && PopBegin(s, run[0]) && Settle(run[|run| - 1], t) && Valid(run[|run| - 1].pool)
    requires |t.chain| <= |s.chain| && Within(x, s.chain[|t.chain|..])
    ensures BroughtBack(run[|run| - 1], t, x)
  {
    NothingIsDropped(run, g, |run| - 1, x);
    SettledIsBack(run[|run| - 1], t, x);
  }

  // ------------------------------------------------- such runs, and their length

  /** What a pop has still to take off. */
  function LeftToPop(phase: Phase): nat { if phase.Popping? then phase.left else 0 }

  /** A pop of `n` blocks takes off `n` blocks, no more and no fewer. */
  lemma {:induction false} PopTakesAsMany(s: Node, run: seq<Node>, g: Gate, n: nat, i: nat)
    requires CarryingRun(run, g) && PopBegin(s, run[0]) && run[0].phase.left == n && i < |run|
    requires forall j :: 0 <= j < i ==> run[j].phase.Popping?
    ensures run[i].phase.Popping? || run[i].phase.Settling?
    ensures |run[i].chain| + n == |s.chain| + LeftToPop(run[i].phase)
  {
    if i > 0 {
      PopTakesAsMany(s, run, g, n, i - 1);
      assert Next(run[i - 1], run[i - 1 + 1], g) && run[i - 1].phase.Popping?;
      assert Carrying(run[i - 1 + 1].phase);
    }
  }

  lemma RunMore(s: Node, run: seq<Node>, g: Gate)
    requires CarryingRun(run, g) && Next(s, run[0], g) && Carrying(s.phase)
    ensures CarryingRun([s] + run, g)
  {
    var more := [s] + run;
    forall i | 0 <= i < |more| - 1 ensures Next(more[i], more[i + 1], g) {
      if i > 0 { assert more[i] == run[i - 1] && more[i + 1] == run[i]; }
    }
    forall i | 0 <= i < |more| ensures Carrying(more[i].phase) {
      if i > 0 { assert more[i] == run[i - 1]; }
    }
  }

  lemma CanSettle(s: Node) returns (t: Node)
    requires s.phase.Settling? && s.admission == Nobody
    ensures Settle(s, t) && t.chain == s.chain && t.phase == Locked
  {
    var verified := seq(|s.phase.orphans|, _ => true);
    t := s.(phase := Locked, pool := SettleAll(s.pool, DbOf(s.chain), s.phase.orphans, verified, 0));
  }

  lemma {:induction false} PopsFrom(s: Node, g: Gate) returns (run: seq<Node>)
    requires s.phase.Popping? && s.admission == Nobody && s.phase.left < |s.chain|
    ensures CarryingRun(run, g) && run[0] == s
    ensures var u := run[|run| - 1];
      u.phase.Settling? && u.admission == Nobody && u.chain == s.chain[..|s.chain| - s.phase.left]
    decreases s.phase.left
  {
    if s.phase.left == 0 {
      var u := s.(phase := Settling(s.phase.orphans));
      assert PopEnd(s, u);
      run := [s, u];
      assert s.chain[..|s.chain|] == s.chain;
    } else {
      var n := |s.chain| - 1;
      var v := s.(chain := s.chain[..n], phase := Popping(s.phase.left - 1, s.phase.orphans + s.chain[n].txs));
      assert PopOne(s, v);
      var rest := PopsFrom(v, g);
      RunMore(s, rest, g);
      run := [s] + rest;
    }
  }

  /** Every pop that leaves the first block can be run to its end. */
  lemma PopRuns(s: Node, g: Gate, n: nat) returns (run: seq<Node>, t: Node)
    requires s.phase == Locked && s.admission == Nobody && n < |s.chain|
    ensures CarryingRun(run, g) && PopBegin(s, run[0]) && run[0].phase.left == n && Settle(run[|run| - 1], t)
    ensures t.phase == Locked && t.chain == s.chain[..|s.chain| - n]
  {
    var begun := s.(phase := Popping(n, []));
    run := PopsFrom(begun, g);
    t := CanSettle(run[|run| - 1]);
  }

  /** Every switch to blocks that fit can be run to its end. */
  lemma SwitchRuns(s: Node, g: Gate, m: Move) returns (a: Node, b: Node, run: seq<Node>, t: Node)
    requires m.Valid() && m.orig == s.chain && Valid(s.pool) && s.phase == Locked
    requires WellFormed(m.Below() + m.alts)
    ensures CarryingRun(run, g) && SwitchBegin(s, a) && Reaches(a, b, g, m) && SwitchEnd(b, run[0])
    ensures Settle(run[|run| - 1], t)
    ensures t.phase == Locked && t.chain == m.Below() + m.alts
  {
    var c: Node;
    a, c := SwitchBegins(s, g, m);
    assert m.alts[..|m.alts|] == m.alts && m.Below() + m.alts[..0] == m.Below();
    b := AppliesUp(a, c, |m.alts|, g, m);
    run := SwitchStands(b, g, m);
    t := CanSettle(run[|run| - 1]);
  }

  /** With every alternative applied the switch ends, and the pool is cleaned up. */
  lemma SwitchStands(b: Node, g: Gate, m: Move) returns (run: seq<Node>)
    requires m.Valid() && b.phase == Switching(m.orig, m.split, m.alts, |m.alts|) && b.admission == Nobody
    ensures CarryingRun(run, g) && SwitchEnd(b, run[0])
    ensures var u := run[|run| - 1]; u.phase.Settling? && u.admission == Nobody && u.chain == b.chain
  {
    var e := b.(phase := Reorganised(Orphans(m.orig[m.split + 1..], DbOf(b.chain))));
    assert SwitchEnd(b, e);
    var f := e.(phase := Settling(e.phase.orphans), pool := Without(e.pool, ConfirmedIds(e.pool, DbOf(e.chain))));
    assert CleanReorganised(e, f);
    run := [e, f];
  }
}
