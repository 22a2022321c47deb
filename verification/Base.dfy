/** Names shared by every component of the model. */
module Base {

  /** A 32-byte hash: a block id or a transaction id. */
  type Hash = nat

  /** A key image, spent at most once on any chain. */
  type KeyImage = nat

  const U64_MAX: nat := 0xFFFF_FFFF_FFFF_FFFF
  const TWO64: nat := 0x1_0000_0000_0000_0000
  const TWO128: nat := 0x1_0000_0000_0000_0000_0000_0000_0000_0000

  datatype Network = Mainnet | Testnet | Stagenet | Fakechain

  datatype Option<+T> = None | Some(value: T)

  function Min(a: int, b: int): int { if a <= b then a else b }

  function Max(a: int, b: int): int { if a >= b then a else b }

  /** `saturating_sub` on unsigned integers. */
  function SatSub(a: nat, b: nat): nat { if a >= b then a - b else 0 }

  /** `saturating_add` on `u64`. */
  function SatAdd64(a: nat, b: nat): nat { Min(a + b, U64_MAX) }

  function ToSet<T>(s: seq<T>): set<T> { set x | x in s }

  lemma RemovalSize<K, V>(m: map<K, V>, k: K)
    ensures |m - {k}| == |m| - (if k in m then 1 else 0)
  {
    if k in m {
      assert m.Keys == (m - {k}).Keys + {k};
      assert |m.Keys| == |(m - {k}).Keys| + 1;
    } else {
      assert m - {k} == m;
    }
  }

  predicate Distinct<T(==)>(s: seq<T>) { forall i, j :: 0 <= i < j < |s| ==> s[i] != s[j] }

  /** `walk` lists each key of a hash map once, in whatever order the map is walked. */
  predicate Lists<K(==)>(walk: seq<K>, keys: set<K>) {
    ToSet(walk) == keys && Distinct(walk)
  }

  /** The order a hash map's keys happen to come in. */
  method WalkOf<K(==)>(keys: set<K>) returns (walk: seq<K>)
    ensures Lists(walk, keys)
  {
    walk := [];
    var rest := keys;
    while rest != {}
      invariant rest <= keys && ToSet(walk) == keys - rest
      invariant Distinct(walk)
      decreases rest
    {
      var k :| k in rest;
      assert k !in ToSet(walk);
      assert ToSet(walk + [k]) == ToSet(walk) + {k};
      walk := walk + [k];
      rest := rest - {k};
    }
  }
}
