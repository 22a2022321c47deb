/** Proofs of work computed ahead of the chain, side by side. */
module Prehash {
  import opened Base
  import Q = WorkerQueue

  /** A seed and the blob to hash under it. */
  datatype Work = Work(seed: Hash, blob: nat)

  /** One call of `prehash`: its list, its counter, and each thread's machine and result. */
  datatype Batch = Batch(todo: seq<Work>, queue: Q.Queue, vms: seq<Option<Hash>>, results: seq<Option<Hash>>)

  datatype State = State(ready: map<Work, Hash>, batches: seq<Batch>)

  // `hash` is RandomWOW: a function of seed and blob alone.

  function NotReady(work: seq<Work>, ready: map<Work, Hash>): seq<Work> {
    if work == [] then []
    else (if work[0] in ready then [] else [work[0]]) + NotReady(work[1..], ready)
  }

  /** What is left to hash: the work with no stored answer. */
  lemma {:induction false} NotReadyIs(work: seq<Work>, ready: map<Work, Hash>, w: Work)
    ensures w in NotReady(work, ready) <==> w in work && w !in ready
    decreases |work|
  {
    if work != [] {
      NotReadyIs(work[1..], ready, w);
      assert w in work <==> w == work[0] || w in work[1..];
    }
  }

  ghost predicate Begin(s: State, t: State) {
    exists work: seq<Work>, threads: nat ::
      var todo := NotReady(work, s.ready);
      var none := seq(threads, _ => None);
      t == s.(batches := s.batches + [Batch(todo, Q.Fresh(|todo|, threads), none, none)])
  }

  ghost predicate InBatch(s: State, t: State, b: nat) {
    && b < |s.batches| && |t.batches| == |s.batches| && t.batches == s.batches[b := t.batches[b]]
    && t.batches[b].todo == s.batches[b].todo
  }

  ghost predicate Claims(s: State, t: State, b: nat, w: nat) {
    && InBatch(s, t, b) && t.ready == s.ready && Q.Claim(s.batches[b].queue, w, t.batches[b].queue)
    && t.batches[b] == s.batches[b].(queue := t.batches[b].queue)
  }

  ghost predicate Works(q: Batch, w: nat) {
    && w < |q.queue.workers| == |q.vms| == |q.results| && q.queue.workers[w].Holding?
    && q.queue.workers[w].i < |q.todo|
  }

  /** No machine for the item's seed: the thread leaves, before it has a result. */
  ghost predicate GivesUp(s: State, t: State, b: nat, w: nat) {
    && InBatch(s, t, b) && t.ready == s.ready && Works(s.batches[b], w) && s.batches[b].results[w].None?
    && Q.Drop(s.batches[b].queue, w, t.batches[b].queue)
    && t.batches[b] == s.batches[b].(queue := t.batches[b].queue)
  }

  /** Point the thread's machine at the item's seed. */
  ghost predicate Reseeds(s: State, t: State, b: nat, w: nat) {
    && InBatch(s, t, b) && t.ready == s.ready && Works(s.batches[b], w)
    && var q := s.batches[b];
       t.batches[b] == q.(vms := q.vms[w := Some(q.todo[q.queue.workers[w].i].seed)])
  }

  /** Hash the item's blob with whatever seed the machine has, once they agree. */
  ghost predicate Hashes(s: State, t: State, b: nat, w: nat, hash: (Hash, nat) -> Hash) {
    && InBatch(s, t, b) && t.ready == s.ready && Works(s.batches[b], w)
    && var q := s.batches[b];
       var item := q.todo[q.queue.workers[w].i];
       && q.vms[w] == Some(item.seed)
       && t.batches[b] == q.(results := q.results[w := Some(hash(q.vms[w].value, item.blob))])
  }

  /** Store the result under its item, and go round. */
  ghost predicate Publishes(s: State, t: State, b: nat, w: nat) {
    && InBatch(s, t, b) && Works(s.batches[b], w) && s.batches[b].results[w].Some?
    && var q := s.batches[b];
       && Q.Finish(q.queue, w, t.batches[b].queue)
       && t.batches[b] == q.(queue := t.batches[b].queue, results := q.results[w := None])
       && t.ready == s.ready[q.todo[q.queue.workers[w].i] := q.results[w].value]
  }

  /** `forget`, or `pow_hash` taking an answer out. */
  ghost predicate Removes(s: State, t: State) {
    exists gone :: t == s.(ready := s.ready - gone)
  }

  ghost predicate Next(s: State, t: State, hash: (Hash, nat) -> Hash) {
    || Begin(s, t) || Removes(s, t)
    || exists b, w :: Claims(s, t, b, w) || GivesUp(s, t, b, w) || Reseeds(s, t, b, w)
                      || Hashes(s, t, b, w, hash) || Publishes(s, t, b, w)
  }

  ghost predicate BatchOk(q: Batch, hash: (Hash, nat) -> Hash) {
    && Q.Inv(q.queue) && q.queue.size == |q.todo|
    && |q.queue.workers| == |q.vms| == |q.results|
    && forall w :: 0 <= w < |q.results| && q.results[w].Some? ==>
         && Works(q, w)
         && q.results[w].value == hash(q.todo[q.queue.workers[w].i].seed, q.todo[q.queue.workers[w].i].blob)
  }

  ghost predicate ReadyOk(ready: map<Work, Hash>, hash: (Hash, nat) -> Hash) {
    forall k :: k in ready ==> ready[k] == hash(k.seed, k.blob)
  }

  ghost predicate Inv(s: State, hash: (Hash, nat) -> Hash) {
    ReadyOk(s.ready, hash) && forall b :: 0 <= b < |s.batches| ==> BatchOk(s.batches[b], hash)
  }

  lemma WorkerKeeps(s: State, t: State, b: nat, w: nat, hash: (Hash, nat) -> Hash)
    requires Inv(s, hash)
    requires Claims(s, t, b, w) || GivesUp(s, t, b, w) || Reseeds(s, t, b, w)
             || Hashes(s, t, b, w, hash) || Publishes(s, t, b, w)
    ensures Inv(t, hash)
  {
    var q, r := s.batches[b], t.batches[b];
    assert BatchOk(q, hash);
    if Claims(s, t, b, w) { Q.ClaimKeeps(q.queue, w, r.queue); }
    else if GivesUp(s, t, b, w) { Q.ReleaseKeeps(q.queue, w, r.queue); }
    else if Publishes(s, t, b, w) { Q.ReleaseKeeps(q.queue, w, r.queue); }
    assert BatchOk(r, hash);
  }

  lemma StepKeeps(s: State, t: State, hash: (Hash, nat) -> Hash)
    requires Inv(s, hash) && Next(s, t, hash)
    ensures Inv(t, hash)
  {
    if Begin(s, t) {
    } else if Removes(s, t) {
    } else {
      var b, w :| Claims(s, t, b, w) || GivesUp(s, t, b, w) || Reseeds(s, t, b, w)
                  || Hashes(s, t, b, w, hash) || Publishes(s, t, b, w);
      WorkerKeeps(s, t, b, w, hash);
    }
  }

  ghost predicate IsRun(run: seq<State>, hash: (Hash, nat) -> Hash) {
    && run != [] && run[0] == State(map[], [])
    && forall i :: 0 <= i < |run| - 1 ==> Next(run[i], run[i + 1], hash)
  }

  lemma {:induction false} RunKeeps(run: seq<State>, hash: (Hash, nat) -> Hash, i: nat)
    requires IsRun(run, hash) && i < |run|
    ensures Inv(run[i], hash)
  {
    if i > 0 {
      RunKeeps(run, hash, i - 1);
      assert Next(run[i - 1], run[i - 1 + 1], hash);
      StepKeeps(run[i - 1], run[i], hash);
    }
  }

  const RX_BLOCK_VERSION: nat := 13

  datatype Proof = Hashed(hash: Hash) | NotImplemented

  /** The proof of work by its definition: RandomWOW, CryptoNight before it, and the versions without a hash. */
  function DirectHash(version: nat, w: Work, hash: (Hash, nat) -> Hash, slow: nat -> Hash): Proof {
    if version >= RX_BLOCK_VERSION then Hashed(hash(w.seed, w.blob))
    else if version == 7 || version == 8 then Hashed(slow(w.blob))
    else NotImplemented
  }

  /** RandomWOW from version 13; CryptoNight at versions 7 and 8; nothing known for the others. */
  lemma ProofsAre(version: nat, w: Work, hash: (Hash, nat) -> Hash, slow: nat -> Hash)
    ensures version >= 13 ==> DirectHash(version, w, hash, slow) == Hashed(hash(w.seed, w.blob))
    ensures version in {7, 8} ==> DirectHash(version, w, hash, slow) == Hashed(slow(w.blob))
    ensures version < 13 && version !in {7, 8} ==> DirectHash(version, w, hash, slow) == NotImplemented
  {}

  /** What `pow_hash` answers: for RandomWOW the stored value if there is one. */
  function PowHash(ready: map<Work, Hash>, version: nat, w: Work, hash: (Hash, nat) -> Hash, slow: nat -> Hash): Proof {
    if version >= RX_BLOCK_VERSION && w in ready then Hashed(ready[w]) else DirectHash(version, w, hash, slow)
  }

  /** Whatever has been hashed ahead, by any number of batches at once, the answer is the hash. */
  lemma PrehashChangesNoAnswer(
      run: seq<State>, hash: (Hash, nat) -> Hash, slow: nat -> Hash, i: nat, version: nat, w: Work)
    requires IsRun(run, hash) && i < |run|
    ensures PowHash(run[i].ready, version, w, hash, slow) == DirectHash(version, w, hash, slow)
    ensures forall b :: 0 <= b < |run[i].batches| ==>
              var claims := run[i].batches[b].queue.claims;
              forall j, k :: 0 <= j < k < |claims| ==> claims[j] != claims[k]
  {
    RunKeeps(run, hash, i);
    forall b | 0 <= b < |run[i].batches|
      ensures var claims := run[i].batches[b].queue.claims;
              forall j, k :: 0 <= j < k < |claims| ==> claims[j] != claims[k]
    {
      assert BatchOk(run[i].batches[b], hash);
    }
  }
}
