/**
 * Scoped threads sharing one atomic counter over a list of work: each claims
 * the next index, works on it, and goes round again.
 */
module WorkerQueue {
  import opened Base

  datatype Worker = Idle | Holding(i: nat) | Done

  /** `size` items; `next` is the counter; the rest records what became of each index. */
  datatype Queue = Queue(
    size: nat, next: nat, workers: seq<Worker>, claims: seq<nat>, finished: set<nat>, dropped: set<nat>)

  function Fresh(size: nat, threads: nat): Queue { Queue(size, 0, seq(threads, _ => Idle), [], {}, {}) }

  /** `fetch_add`, then `get`: past the end the worker leaves. */
  ghost predicate Claim(q: Queue, w: nat, r: Queue) {
    && w < |q.workers| && q.workers[w] == Idle
    && r == if q.next < q.size
            then q.(next := q.next + 1, workers := q.workers[w := Holding(q.next)], claims := q.claims + [q.next])
            else q.(next := q.next + 1, workers := q.workers[w := Done])
  }

  ghost predicate Finish(q: Queue, w: nat, r: Queue) {
    && w < |q.workers| && q.workers[w].Holding?
    && r == q.(workers := q.workers[w := Idle], finished := q.finished + {q.workers[w].i})
  }

  /** The worker gives up for good, leaving its item for the slow path. */
  ghost predicate Drop(q: Queue, w: nat, r: Queue) {
    && w < |q.workers| && q.workers[w].Holding?
    && r == q.(workers := q.workers[w := Done], dropped := q.dropped + {q.workers[w].i})
  }

  ghost predicate Step(q: Queue, r: Queue) {
    exists w :: Claim(q, w, r) || Finish(q, w, r) || Drop(q, w, r)
  }

  ghost predicate Held(q: Queue, i: nat) { exists w :: 0 <= w < |q.workers| && q.workers[w] == Holding(i) }

  /** Claims are handed out in order, once each, and every claim is held, finished or dropped. */
  ghost predicate Inv(q: Queue) {
    && |q.claims| == Min(q.next, q.size) && (forall j :: 0 <= j < |q.claims| ==> q.claims[j] == j)
    && (forall w :: 0 <= w < |q.workers| && q.workers[w].Holding? ==>
          q.workers[w].i < |q.claims| && q.workers[w].i !in q.finished && q.workers[w].i !in q.dropped)
    && (forall v, w :: 0 <= v < w < |q.workers| && q.workers[v].Holding? && q.workers[w].Holding? ==>
          q.workers[v].i != q.workers[w].i)
    && q.finished !! q.dropped
    && (forall i :: i in q.finished || i in q.dropped ==> i < |q.claims|)
    && (forall i :: 0 <= i < |q.claims| ==> i in q.finished || i in q.dropped || Held(q, i))
    && (forall w :: 0 <= w < |q.workers| && q.workers[w] == Done ==> q.next >= q.size || q.dropped != {})
  }

  lemma ClaimKeeps(q: Queue, w: nat, r: Queue)
    requires Inv(q) && Claim(q, w, r)
    ensures Inv(r)
  {
    forall i | 0 <= i < |r.claims| ensures i in r.finished || i in r.dropped || Held(r, i) {
      if i < |q.claims| && Held(q, i) {
        var v :| 0 <= v < |q.workers| && q.workers[v] == Holding(i);
        assert r.workers[v] == Holding(i);
      } else if i == |q.claims| {
        assert r.workers[w] == Holding(i);
      }
    }
  }

  lemma ReleaseKeeps(q: Queue, w: nat, r: Queue)
    requires Inv(q) && (Finish(q, w, r) || Drop(q, w, r))
    ensures Inv(r)
  {
    forall i | 0 <= i < |r.claims| ensures i in r.finished || i in r.dropped || Held(r, i) {
      if Held(q, i) {
        var v :| 0 <= v < |q.workers| && q.workers[v] == Holding(i);
        if v != w { assert r.workers[v] == Holding(i); }
      }
    }
  }

  lemma StepKeeps(q: Queue, r: Queue)
    requires Inv(q) && Step(q, r)
    ensures Inv(r)
  {
    var w :| Claim(q, w, r) || Finish(q, w, r) || Drop(q, w, r);
    if Claim(q, w, r) { ClaimKeeps(q, w, r); } else { ReleaseKeeps(q, w, r); }
  }

  ghost predicate IsRun(run: seq<Queue>) {
    run != [] && forall i :: 0 <= i < |run| - 1 ==> Step(run[i], run[i + 1])
  }

  lemma {:induction false} RunKeeps(run: seq<Queue>, size: nat, threads: nat, i: nat)
    requires IsRun(run) && run[0] == Fresh(size, threads) && i < |run|
    ensures Inv(run[i]) && run[i].size == size && |run[i].workers| == threads
  {
    if i > 0 {
      RunKeeps(run, size, threads, i - 1);
      assert Step(run[i - 1], run[i - 1 + 1]);
      StepKeeps(run[i - 1], run[i]);
    }
  }

  /**
   * Over every interleaving: no index is ever claimed twice, and once all the
   * threads have left without dropping anything every item has been finished.
   */
  lemma EveryItemOnce(run: seq<Queue>, size: nat, threads: nat)
    requires IsRun(run) && run[0] == Fresh(size, threads)
    ensures var q := run[|run| - 1];
            forall i, j :: 0 <= i < j < |q.claims| ==> q.claims[i] != q.claims[j]
    ensures var q := run[|run| - 1];
            threads > 0 && q.dropped == {} && (forall w :: 0 <= w < |q.workers| ==> q.workers[w] == Done) ==>
              |q.claims| == size && forall i :: 0 <= i < size ==> i in q.finished
  {
    var q := run[|run| - 1];
    RunKeeps(run, size, threads, |run| - 1);
    if threads > 0 && q.dropped == {} && (forall w :: 0 <= w < |q.workers| ==> q.workers[w] == Done) {
      assert q.workers[0] == Done;
      forall i | 0 <= i < size ensures i in q.finished {
        assert !Held(q, i);
      }
    }
  }
}
