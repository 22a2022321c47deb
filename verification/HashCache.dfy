/** The in-memory list of main-chain block ids, repaired when the tip moves backwards. */
module HashCache {
  import opened Base
  import opened ChainLinks

  /** How much of a truncated cache survives the walk back: up to its last matching entry. */
  function Kept(hashes: seq<Hash>, db: seq<Hash>): nat
    requires |hashes| <= |db|
  {
    if hashes == [] || hashes[|hashes| - 1] == db[|hashes| - 1] then |hashes|
    else Kept(hashes[..|hashes| - 1], db)
  }

  lemma {:induction false} KeptIsPrefix(hashes: seq<Hash>, db: seq<Hash>)
    requires |hashes| <= |db|
    ensures Kept(hashes, db) <= |hashes|
    ensures Kept(hashes, db) > 0 ==> hashes[Kept(hashes, db) - 1] == db[Kept(hashes, db) - 1]
    ensures forall i :: Kept(hashes, db) <= i < |hashes| ==> hashes[i] != db[i]
    decreases |hashes|
  {
    if hashes != [] && hashes[|hashes| - 1] != db[|hashes| - 1] {
      KeptIsPrefix(hashes[..|hashes| - 1], db);
    }
  }

  /** `resync_hashes`: truncate, walk back to a match, read the rest. */
  function Resynced(hashes: seq<Hash>, db: seq<Hash>): seq<Hash> {
    var short := hashes[..Min(|hashes|, |db|)];
    KeptIsPrefix(short, db);
    short[..Kept(short, db)] + db[Kept(short, db)..]
  }

  /** Stopping at the first match is enough, because ids are linked. */
  lemma ResyncIsExact(hashes: seq<Hash>, db: seq<Hash>, prev: Hash -> Hash)
    requires Linked(hashes, prev) && Linked(db, prev)
    ensures Resynced(hashes, db) == db
  {
    var short := hashes[..Min(|hashes|, |db|)];
    var k := Kept(short, db);
    KeptIsPrefix(short, db);
    if k > 0 { MatchForcesBelow(short, db, prev, k - 1); }
    assert db[..k] + db[k..] == db;
  }

  /** Were ids not linked, an early match could hide a stale entry below it. */
  lemma UnlinkedCacheStaysStale()
    ensures Resynced([1, 2, 3], [1, 9, 3]) == [1, 2, 3] != [1, 9, 3]
  {
    assert [1, 2, 3][..3] == [1, 2, 3];
    assert Kept([1, 2, 3], [1, 9, 3]) == 3;
    assert [1, 9, 3][3..] == [];
  }

  // ------------------------------------------------------------------ runs

  /** What an offered block, or `pop_blocks`, made of the main chain. */
  datatype Event =
    | Extended(id: Hash)
    | Reorganised(split: nat, ids: seq<Hash>)
    | Popped(n: nat)
    | Alternative
    | Refused

  function ChainAfter(db: seq<Hash>, e: Event): seq<Hash> {
    match e
    case Extended(id) => db + [id]
    case Reorganised(split, ids) => db[..Min(split + 1, |db|)] + ids
    case Popped(n) => db[..|db| - Min(n, SatSub(|db|, 1))]
    case Alternative => db
    case Refused => db
  }

  /** A reorganisation keeps the blocks up to the split; a pop takes up to `n` blocks and never the first. */
  lemma ChainAfterIs(db: seq<Hash>, split: nat, ids: seq<Hash>, n: nat)
    requires split < |db|
    ensures var r := ChainAfter(db, Reorganised(split, ids));
      |r| == split + 1 + |ids| && r[..split + 1] == db[..split + 1] && r[split + 1..] == ids
    ensures var p := ChainAfter(db, Popped(n));
      p <= db && |p| == if n < |db| then |db| - n else 1
  {}

  function CacheAfter(hashes: seq<Hash>, db': seq<Hash>, e: Event): seq<Hash> {
    match e
    case Extended(id) => hashes + [id]
    case Reorganised(_, _) => Resynced(hashes, db')
    case Popped(_) => Resynced(hashes, db')
    case Alternative => hashes
    case Refused => hashes
  }

  function ChainAfterAll(db: seq<Hash>, events: seq<Event>): seq<Hash> {
    if events == [] then db else ChainAfter(ChainAfterAll(db, events[..|events| - 1]), events[|events| - 1])
  }

  function CacheAfterAll(db: seq<Hash>, events: seq<Event>): seq<Hash> {
    if events == [] then db
    else CacheAfter(CacheAfterAll(db, events[..|events| - 1]), ChainAfterAll(db, events), events[|events| - 1])
  }

  /** From an opened chain, any appends, reorganisations and pops leave the cache equal to the chain. */
  lemma {:induction false} CacheTracksChain(db: seq<Hash>, events: seq<Event>, prev: Hash -> Hash)
    requires forall i :: 0 <= i <= |events| ==> Linked(ChainAfterAll(db, events[..i]), prev)
    ensures CacheAfterAll(db, events) == ChainAfterAll(db, events)
    decreases |events|
  {
    assert events[..|events|] == events;
    if events != [] {
      var front := events[..|events| - 1];
      forall i | 0 <= i <= |front| ensures Linked(ChainAfterAll(db, front[..i]), prev) {
        assert front[..i] == events[..i];
      }
      CacheTracksChain(db, front, prev);
      ResyncIsExact(CacheAfterAll(db, front), ChainAfterAll(db, events), prev);
    }
  }

  // ---------------------------------------------------------------- object

  class LocalChain {
    const prev: Hash -> Hash
    /** The ids the database holds, genesis first. */
    var db: seq<Hash>
    var hashes: seq<Hash>

    ghost predicate Valid()
      reads this
    {
      Linked(db, prev) && hashes == db
    }

    constructor (prev: Hash -> Hash, db: seq<Hash>)
      requires Linked(db, prev)
      ensures Valid() && this.db == db && this.prev == prev
    {
      this.prev := prev;
      this.db := db;
      this.hashes := db;
    }

    /** Afterwards the cache is the database's list; as much of the old one as matches is kept. */
    method ResyncHashes() returns (kept: nat)
      requires Linked(hashes, prev) && Linked(db, prev)
      modifies this`hashes
      ensures hashes == db
      ensures kept <= |db| && kept <= |old(hashes)| && old(hashes)[..kept] == db[..kept]
      ensures kept == |old(hashes)| || kept == |db| || old(hashes)[kept] != db[kept]
    {
      if |hashes| > |db| { hashes := hashes[..|db|]; }
      ghost var short := hashes;
      while hashes != [] && hashes[|hashes| - 1] != db[|hashes| - 1]
        invariant |hashes| <= |short| && hashes == short[..|hashes|]
        invariant |hashes| == |short| || short[|hashes|] != db[|hashes|]
        decreases |hashes|
      {
        hashes := hashes[..|hashes| - 1];
      }
      kept := |hashes|;
      if kept > 0 { MatchForcesBelow(short, db, prev, kept - 1); }
      hashes := hashes + db[kept..];
    }

    /** What follows from the chain's verdict on an offered block. */
    method Submit(e: Event)
      requires Valid() && Linked(ChainAfter(db, e), prev) && !e.Popped?
      modifies this
      ensures Valid() && db == ChainAfter(old(db), e)
    {
      db := ChainAfter(db, e);
      match e
      case Extended(id) => hashes := hashes + [id];
      case Reorganised(_, _) => var _ := ResyncHashes();
      case _ =>
    }

    /** `pop_blocks`; the genesis block stays. */
    method PopBlocks(n: nat) returns (popped: nat)
      requires Valid()
      modifies this
      ensures Valid() && db == ChainAfter(old(db), Popped(n)) && popped == |old(db)| - |db|
    {
      popped := Min(n, SatSub(|db|, 1));
      db := db[..|db| - popped];
      var _ := ResyncHashes();
    }
  }
}
