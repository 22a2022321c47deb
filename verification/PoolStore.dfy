/** Saving the pool on the way down and reading it back on the way up. */
module PoolStore {
  import opened Base
  import opened PoolModel
  import opened TxPoolObject

  /** `txpool_tx_meta_t`, as far as the pool uses it: the relay method is five flags. */
  datatype Meta = Meta(
    weight: nat,
    fee: nat,
    receiveTime: nat,
    relayed: bool,
    doubleSpendSeen: bool,
    keptByBlock: bool,
    doNotRelay: bool,
    isLocal: bool,
    isForwarding: bool,
    dandelionStem: bool)

  /** A stored transaction: its record, and what its blob parses to, if it does. */
  datatype Record = Record(meta: Meta, blob: Option<Tx>)

  type Table = map<Hash, Record>

  function SetRelayMethod(meta: Meta, m: RelayMethod): Meta {
    meta.(keptByBlock := m == Block, doNotRelay := m == NoRelay, isLocal := m == Local,
          isForwarding := m == Forward, dandelionStem := m == Stem)
  }

  /** The five flags read as one word; only a single flag names a method. */
  function StateWord(meta: Meta): nat {
    (if meta.keptByBlock then 1 else 0) + (if meta.doNotRelay then 2 else 0) + (if meta.isLocal then 4 else 0)
    + (if meta.isForwarding then 8 else 0) + (if meta.dandelionStem then 16 else 0)
  }

  function RelayMethodOf(meta: Meta): RelayMethod {
    match StateWord(meta)
    case 1 => Block
    case 2 => NoRelay
    case 4 => Local
    case 8 => Forward
    case 16 => Stem
    case _ => Fluff
  }

  function MetaOf(e: PoolEntry): Meta {
    SetRelayMethod(
      Meta(e.weight, e.fee, e.receiveTime, e.relayed, e.doubleSpendSeen, false, false, false, false, false), e.relay)
  }

  function EntryOf(meta: Meta, tx: Tx): PoolEntry {
    PoolEntry(tx, meta.weight, meta.fee, meta.receiveTime, RelayMethodOf(meta), meta.relayed, meta.doubleSpendSeen)
  }

  /** Each method but the last sets one flag, and only one flag alone names a method. */
  lemma FlagsAre(e: PoolEntry, meta: Meta)
    ensures var r := MetaOf(e);
      && (r.keptByBlock <==> e.relay == Block) && (r.doNotRelay <==> e.relay == NoRelay)
      && (r.isLocal <==> e.relay == Local) && (r.isForwarding <==> e.relay == Forward)
      && (r.dandelionStem <==> e.relay == Stem)
    ensures var flags := [meta.keptByBlock, meta.doNotRelay, meta.isLocal, meta.isForwarding, meta.dandelionStem];
      && (flags == [true, false, false, false, false] ==> RelayMethodOf(meta) == Block)
      && (flags == [false, true, false, false, false] ==> RelayMethodOf(meta) == NoRelay)
      && (flags == [false, false, true, false, false] ==> RelayMethodOf(meta) == Local)
      && (flags == [false, false, false, true, false] ==> RelayMethodOf(meta) == Forward)
      && (flags == [false, false, false, false, true] ==> RelayMethodOf(meta) == Stem)
      && (flags == [false, false, false, false, false] ==> RelayMethodOf(meta) == Fluff)
      && (forall i, j :: 0 <= i < j < 5 && flags[i] && flags[j] ==> RelayMethodOf(meta) == Fluff)
  {
    var a, b, c, d, f := meta.keptByBlock, meta.doNotRelay, meta.isLocal, meta.isForwarding, meta.dandelionStem;
    var flags := [a, b, c, d, f];
    assert flags[0] == a && flags[1] == b && flags[2] == c && flags[3] == d && flags[4] == f;
  }

  /** The record keeps every field of an entry, its relay method included. */
  lemma MetaRoundTrip(e: PoolEntry)
    ensures EntryOf(MetaOf(e), e.tx) == e
  {
    match e.relay
    case NoRelay =>
    case Local =>
    case Forward =>
    case Stem =>
    case Block =>
    case Fluff =>
  }

  function RecordOf(e: PoolEntry): Record { Record(MetaOf(e), Some(e.tx)) }

  function SavedTable(p: Pool): Table { map id | id in p.byId :: RecordOf(p.byId[id]) }

  /** Clear the table of every transaction the pool does not hold. */
  method DropAbsent(p: Pool, table: Table) returns (kept: Table)
    ensures kept.Keys <= p.byId.Keys
  {
    kept := table;
    var stored := WalkOf(table.Keys);
    for i := 0 to |stored|
      invariant kept.Keys <= table.Keys
      invariant forall j :: 0 <= j < i && stored[j] in kept ==> stored[j] in p.byId
    {
      if stored[i] !in p.byId { kept := kept - {stored[i]}; }
    }
    forall h | h in kept ensures h in p.byId {
      assert h in ToSet(stored);
    }
  }

  /** Write the pool to the table, replacing whatever the table held. */
  method Save(p: Pool, table: Table) returns (stored: Table, n: nat)
    ensures stored == SavedTable(p) && n == |p.byId|
  {
    stored := DropAbsent(p, table);
    var walk := WalkOf(p.byId.Keys);
    assert forall h :: h in walk <==> h in ToSet(walk);
    for i := 0 to |walk|
      invariant stored.Keys <= p.byId.Keys
      invariant forall j :: 0 <= j < i ==> walk[j] in stored && stored[walk[j]] == RecordOf(p.byId[walk[j]])
    {
      stored := stored[walk[i] := RecordOf(p.byId[walk[i]])];
    }
    n := |p.byId|;
  }

  // ---------------------------------------------------------------- loading

  /** A record that parses to the transaction it is filed under, not yet confirmed or spent. */
  predicate Loadable(table: Table, id: Hash, db: Db) {
    && id in table && table[id].blob.Some? && table[id].blob.value.id == id
    && id !in db.ids && forall k :: k in table[id].blob.value.images ==> k !in db.images
  }

  function Entry(table: Table, id: Hash, db: Db): PoolEntry
    requires Loadable(table, id, db)
  {
    EntryOf(table[id].meta, table[id].blob.value)
  }

  predicate SharesImage(p: Pool, tx: Tx) { exists k :: k in tx.images && k in p.spent }

  function LoadOne(p: Pool, table: Table, id: Hash, db: Db): Pool {
    if !Loadable(table, id, db) || SharesImage(p, table[id].blob.value) then p
    else Insert(p, table[id].blob.value, Entry(table, id, db))
  }

  function LoadWalk(table: Table, walk: seq<Hash>, db: Db): Pool {
    if walk == [] then EMPTY_POOL
    else LoadOne(LoadWalk(table, walk[..|walk| - 1], db), table, walk[|walk| - 1], db)
  }

  ghost function Loaded(table: Table, walk: seq<Hash>, db: Db, now: nat): Pool {
    var p := LoadWalk(table, walk, db);
    Without(p, StaleIds(p, now))
  }

  lemma LastIsNew(walk: seq<Hash>)
    requires Distinct(walk) && walk != []
    ensures walk[|walk| - 1] !in ToSet(walk[..|walk| - 1])
  {}

  lemma {:induction false} LoadWalkValid(table: Table, walk: seq<Hash>, db: Db)
    requires Distinct(walk)
    ensures var p := LoadWalk(table, walk, db);
            && Valid(p) && p.byId.Keys <= ToSet(walk) && p.relayedAt == map[] && p.maxWeight == MAX_POOL_WEIGHT
            && forall id :: id in p.byId ==> Loadable(table, id, db) && p.byId[id] == Entry(table, id, db)
    decreases |walk|
  {
    if walk != [] {
      var n := |walk| - 1;
      LoadWalkValid(table, walk[..n], db);
      var p, id := LoadWalk(table, walk[..n], db), walk[n];
      LastIsNew(walk);
      if Loadable(table, id, db) && !SharesImage(p, table[id].blob.value) {
        InsertKeeps(p, table[id].blob.value, Entry(table, id, db));
      }
    }
  }

  /** Take one stored record into the pool, unless it no longer belongs. */
  method LoadRecord(pool: TxPool, table: Table, id: Hash, db: Db)
    requires Valid(pool.View()) && id in table && id !in pool.byId
    modifies pool
    ensures Valid(pool.View()) && pool.View() == LoadOne(old(pool.View()), table, id, db)
  {
    var blob := table[id].blob;
    if blob.None? || blob.value.id != id || id in db.ids { return; }
    if exists k :: k in blob.value.images && (k in db.images || k in pool.spent) { return; }
    pool.Insert(blob.value, EntryOf(table[id].meta, blob.value));
  }

  lemma LoadWalkStep(table: Table, walk: seq<Hash>, db: Db, i: nat)
    requires Lists(walk, table.Keys) && i < |walk|
    ensures walk[i] in table && walk[i] !in LoadWalk(table, walk[..i], db).byId
    ensures LoadWalk(table, walk[..i + 1], db) == LoadOne(LoadWalk(table, walk[..i], db), table, walk[i], db)
  {
    assert walk[..i + 1][..i] == walk[..i] && walk[i] in ToSet(walk);
    LoadWalkValid(table, walk[..i], db);
    LastIsNew(walk[..i + 1]);
  }

  /** The pool some walk of the table loads, without its stale entries. */
  method Load(table: Table, walk: seq<Hash>, db: Db, now: nat) returns (pool: TxPool)
    requires Lists(walk, table.Keys)
    ensures fresh(pool) && Valid(pool.View()) && pool.View() == Loaded(table, walk, db, now)
  {
    pool := new TxPool();
    for i := 0 to |walk|
      invariant fresh(pool) && Valid(pool.View()) && pool.View() == LoadWalk(table, walk[..i], db)
    {
      LoadWalkStep(table, walk, db, i);
      LoadRecord(pool, table, walk[i], db);
    }
    assert walk[..|walk|] == walk;
    var _ := pool.Expire(now);
  }

  // ----------------------------------------- what loading gives, in any order

  predicate FreshRecord(table: Table, id: Hash, db: Db, now: nat) {
    Loadable(table, id, db) && !Entry(table, id, db).IsStale(now)
  }

  predicate Overlap(table: Table, a: Hash, b: Hash, db: Db)
    requires Loadable(table, a, db) && Loadable(table, b, db)
  {
    exists k :: k in table[a].blob.value.images && k in table[b].blob.value.images
  }

  /** Two loadable records spend the same image, and at least one of them has not expired. */
  ghost predicate Collide(table: Table, db: Db, now: nat) {
    exists a, b :: a != b && FreshRecord(table, a, db, now) && Loadable(table, b, db) && Overlap(table, a, b, db)
  }

  ghost function FreshEntries(table: Table, db: Db, now: nat): map<Hash, PoolEntry> {
    map id | id in table && FreshRecord(table, id, db, now) :: Entry(table, id, db)
  }

  /** Without collisions no fresh record of the walk is turned away. */
  lemma {:induction false} FreshRecordsLoad(table: Table, walk: seq<Hash>, db: Db, now: nat, id: Hash)
    requires Distinct(walk) && !Collide(table, db, now)
    requires id in walk && FreshRecord(table, id, db, now)
    ensures id in LoadWalk(table, walk, db).byId
    decreases |walk|
  {
    var n := |walk| - 1;
    var p := LoadWalk(table, walk[..n], db);
    LoadWalkValid(table, walk[..n], db);
    if walk[n] == id {
      if SharesImage(p, table[id].blob.value) {
        var k :| k in table[id].blob.value.images && k in p.spent;
        var b := p.spent[k];
        assert b in p.byId && Loadable(table, b, db) && b in ToSet(walk[..n]);
        assert Overlap(table, id, b, db);
      }
    } else {
      assert walk == walk[..n] + [walk[n]];
      FreshRecordsLoad(table, walk[..n], db, now, id);
    }
  }

  lemma LoadedEntries(table: Table, walk: seq<Hash>, db: Db, now: nat)
    requires Lists(walk, table.Keys) && !Collide(table, db, now)
    ensures Loaded(table, walk, db, now).byId == FreshEntries(table, db, now)
    ensures Valid(Loaded(table, walk, db, now))
  {
    var p := LoadWalk(table, walk, db);
    LoadWalkValid(table, walk, db);
    WithoutKeeps(p, StaleIds(p, now));
    var got, want := Loaded(table, walk, db, now).byId, FreshEntries(table, db, now);
    forall id | id in want ensures id in got && got[id] == want[id] {
      assert id in ToSet(walk);
      FreshRecordsLoad(table, walk, db, now, id);
    }
  }

  /** A valid pool is its entries, its limit and its relay times. */
  lemma ValidDetermined(p: Pool, q: Pool)
    requires Valid(p) && Valid(q) && p.byId == q.byId && p.maxWeight == q.maxWeight && p.relayedAt == q.relayedAt
    ensures p == q
  {
    forall k ensures k in p.spent <==> k in q.spent
      ensures k in p.spent ==> k in q.spent && p.spent[k] == q.spent[k]
    {
      if k in p.spent { assert k in q.byId[p.spent[k]].tx.images; }
      if k in q.spent { assert k in p.byId[q.spent[k]].tx.images; }
    }
    assert p.spent == q.spent;
  }

  /** With `a` walked before `b` and sharing an image with it, `b` is turned away. */
  lemma FirstComeFirstLoaded(table: Table, a: Hash, b: Hash, rest: seq<Hash>, db: Db)
    requires Distinct([a, b] + rest) && Loadable(table, a, db) && Loadable(table, b, db) && Overlap(table, a, b, db)
    ensures a in LoadWalk(table, [a, b] + rest, db).byId && b !in LoadWalk(table, [a, b] + rest, db).byId
  {
    assert [a][..0] == [] && [a, b][..1] == [a];
    var one := LoadWalk(table, [a], db);
    assert LoadWalk(table, [a][..|[a]| - 1], db) == EMPTY_POOL;
    assert one == LoadOne(EMPTY_POOL, table, a, db);
    assert !SharesImage(EMPTY_POOL, table[a].blob.value);
    var k :| k in table[a].blob.value.images && k in table[b].blob.value.images;
    assert k in one.spent && SharesImage(one, table[b].blob.value);
    assert LoadWalk(table, [a, b], db) == LoadOne(one, table, b, db) == one;
    assert ([a, b] + rest)[0] == a && ([a, b] + rest)[1] == b && a != b;
    LoadWalkGrows(table, [a, b], rest, db);
    assert b in [a, b];
  }

  lemma {:induction false} LoadWalkGrows(table: Table, front: seq<Hash>, rest: seq<Hash>, db: Db)
    requires Distinct(front + rest)
    ensures LoadWalk(table, front, db).byId.Keys <= LoadWalk(table, front + rest, db).byId.Keys
    ensures forall x :: x in LoadWalk(table, front + rest, db).byId && x in front ==>
              x in LoadWalk(table, front, db).byId
    decreases |rest|
  {
    if rest == [] {
      assert front + rest == front;
    } else {
      var n := |rest| - 1;
      var all := front + rest;
      assert all[..|all| - 1] == front + rest[..n] && all[|all| - 1] == rest[n];
      LoadWalkGrows(table, front, rest[..n], db);
      LastIsNew(all);
      assert forall x :: x in front ==> x in all[..|all| - 1];
    }
  }

  lemma WalkWithFirst(keys: set<Hash>, a: Hash, b: Hash) returns (rest: seq<Hash>)
    requires a in keys && b in keys && a != b
    ensures Lists([a, b] + rest, keys) && Lists([b, a] + rest, keys)
  {
    rest := SomeWalk(keys - {a, b});
    forall x ensures x in [a, b] + rest <==> x in keys { assert x in rest <==> x in ToSet(rest); }
    forall x ensures x in [b, a] + rest <==> x in keys { assert x in rest <==> x in ToSet(rest); }
    assert a !in ToSet(rest) && b !in ToSet(rest);
  }

  lemma SomeWalk(keys: set<Hash>) returns (walk: seq<Hash>)
    ensures Lists(walk, keys)
    decreases |keys|
  {
    if keys == {} {
      walk := [];
    } else {
      var k :| k in keys;
      var rest := SomeWalk(keys - {k});
      assert k !in ToSet(rest);
      walk := [k] + rest;
      assert ToSet(walk) == {k} + ToSet(rest);
    }
  }

  /**
   * The pool a table loads to does not depend on the order the table is walked
   * in, exactly when no two of its records collide.
   */
  lemma LoadIsOrderFreeIff(table: Table, db: Db, now: nat)
    ensures (forall v, w :: Lists(v, table.Keys) && Lists(w, table.Keys) ==>
               Loaded(table, v, db, now) == Loaded(table, w, db, now))
            <==> !Collide(table, db, now)
  {
    if Collide(table, db, now) {
      var v, w := CollisionShows(table, db, now);
    } else {
      forall v, w | Lists(v, table.Keys) && Lists(w, table.Keys)
        ensures Loaded(table, v, db, now) == Loaded(table, w, db, now)
      {
        LoadedSame(table, v, w, db, now);
      }
    }
  }

  lemma CollisionShows(table: Table, db: Db, now: nat) returns (v: seq<Hash>, w: seq<Hash>)
    requires Collide(table, db, now)
    ensures Lists(v, table.Keys) && Lists(w, table.Keys)
    ensures Loaded(table, v, db, now) != Loaded(table, w, db, now)
  {
    var a, b :| a != b && FreshRecord(table, a, db, now) && Loadable(table, b, db) && Overlap(table, a, b, db);
    var rest := WalkWithFirst(table.Keys, a, b);
    v, w := [a, b] + rest, [b, a] + rest;
    FirstComeFirstLoaded(table, a, b, rest, db);
    assert Overlap(table, b, a, db);
    FirstComeFirstLoaded(table, b, a, rest, db);
    LoadWalkValid(table, v, db);
    assert a in Loaded(table, v, db, now).byId && a !in Loaded(table, w, db, now).byId;
  }

  lemma LoadedSame(table: Table, v: seq<Hash>, w: seq<Hash>, db: Db, now: nat)
    requires Lists(v, table.Keys) && Lists(w, table.Keys) && !Collide(table, db, now)
    ensures Loaded(table, v, db, now) == Loaded(table, w, db, now)
  {
    LoadedEntries(table, v, db, now);
    LoadedEntries(table, w, db, now);
    LoadWalkValid(table, v, db);
    LoadWalkValid(table, w, db);
    ValidDetermined(Loaded(table, v, db, now), Loaded(table, w, db, now));
  }

  /** What a restart keeps: neither mined, nor spending anything spent, nor expired. */
  ghost function Survivors(p: Pool, db: Db, now: nat): map<Hash, PoolEntry> {
    map id | id in p.byId && id !in ConfirmedIds(p, db) && !p.byId[id].IsStale(now) :: p.byId[id]
  }

  lemma SavedNeverCollides(p: Pool, db: Db, now: nat)
    requires Valid(p)
    ensures !Collide(SavedTable(p), db, now)
  {
    var table := SavedTable(p);
    forall a, b | Loadable(table, a, db) && Loadable(table, b, db) && Overlap(table, a, b, db) ensures a == b {
      var k :| k in table[a].blob.value.images && k in table[b].blob.value.images;
      NoSharedImage(p, a, b, k);
    }
  }

  lemma SavedFreshAreSurvivors(p: Pool, db: Db, now: nat)
    requires Valid(p)
    ensures FreshEntries(SavedTable(p), db, now) == Survivors(p, db, now)
  {
    var got, want := FreshEntries(SavedTable(p), db, now), Survivors(p, db, now);
    forall id | id in p.byId ensures (id in got <==> id in want) && (id in got ==> got[id] == want[id]) {
      SavedRecord(p, db, id);
    }
    assert got.Keys == want.Keys;
  }

  lemma SavedRecord(p: Pool, db: Db, id: Hash)
    requires Valid(p) && id in p.byId
    ensures Loadable(SavedTable(p), id, db) <==> id !in ConfirmedIds(p, db)
    ensures Loadable(SavedTable(p), id, db) ==> Entry(SavedTable(p), id, db) == p.byId[id]
  {
    MetaRoundTrip(p.byId[id]);
  }

  /** Saving a pool and loading it again gives back exactly the survivors, whatever the walk. */
  lemma LoadAfterSave(p: Pool, walk: seq<Hash>, db: Db, now: nat)
    requires Valid(p) && Lists(walk, p.byId.Keys)
    ensures var q := Loaded(SavedTable(p), walk, db, now);
            && Valid(q) && q.byId == Survivors(p, db, now)
            && q.relayedAt == map[] && q.maxWeight == MAX_POOL_WEIGHT
  {
    var table := SavedTable(p);
    assert table.Keys == p.byId.Keys;
    SavedNeverCollides(p, db, now);
    SavedFreshAreSurvivors(p, db, now);
    LoadedEntries(table, walk, db, now);
    LoadWalkValid(table, walk, db);
  }
}
