/** The short history a node asks with, and the reply it gets. */
module SyncHandshake {
  import opened Base
  import opened ChainLinks

  const BLOCK_IDS_DEFAULT_COUNT: nat := 10_000

  /** A main chain: linked, and no block on it twice. */
  ghost predicate IsChain(chain: seq<Hash>, prev: Hash -> Hash) {
    chain != [] && Linked(chain, prev) && Distinct(chain)
  }

  function Pow2(n: nat): (r: nat)
    ensures r > 0
  {
    if n == 0 then 1 else 2 * Pow2(n - 1)
  }

  /** How far below the tip the `k`th entry lies: each of the last eleven, then doubling gaps. */
  function Depth(k: nat): nat { if k <= 10 then k else 8 + Pow2(k - 9) }

  lemma {:induction false} Pow2Rises(a: nat, b: nat)
    requires a <= b
    ensures 0 < Pow2(a) <= Pow2(b)
    decreases b - a
  {
    if a < b { Pow2Rises(a, b - 1); }
  }

  lemma DepthStep(k: nat)
    ensures Depth(k + 1) == Depth(k) + (if k < 10 then 1 else Pow2(k - 9))
    ensures Depth(k) < Depth(k + 1)
    ensures k >= 10 ==> Depth(k + 1) == 2 * Depth(k) - 8
  {
    if k == 10 { assert Pow2(1) == 2 && Pow2(2) == 4; }
  }

  /** The entries of a chain of length `len` that `n` depths cover. */
  ghost predicate Covers(n: nat, len: nat) {
    (forall k :: 0 <= k < n ==> Depth(k) < len) && Depth(n) >= len
  }

  ghost predicate IsHistory(chain: seq<Hash>, out: seq<Hash>, n: nat)
    requires chain != []
  {
    && Covers(n, |chain|) && n <= |out| <= n + 1
    && (forall k :: 0 <= k < n ==> Depth(k) < |chain| && out[k] == chain[|chain| - 1 - Depth(k)])
    && out != [] && out[|out| - 1] == chain[0]
  }

  /** `get_short_chain_history`. */
  method ShortHistory(chain: seq<Hash>) returns (out: seq<Hash>, ghost n: nat)
    ensures chain == [] ==> out == []
    ensures chain != [] ==> IsHistory(chain, out, n)
  {
    out := [];
    n := 0;
    var len := |chain|;
    if len == 0 { return; }
    var i, step := 0, 1;
    while i < len
      invariant i == Depth(|out|) <= 2 * len
      invariant step == if |out| <= 10 then 1 else Pow2(|out| - 10)
      invariant forall k :: 0 <= k < |out| ==> Depth(k) < len && out[k] == chain[len - 1 - Depth(k)]
      invariant i > 0 ==> out != []
      decreases 2 * len - i
    {
      DepthStep(|out|);
      out := out + [chain[len - 1 - i]];
      if |out| > 10 { step := step * 2; }
      i := i + step;
    }
    n := |out|;
    if out[|out| - 1] != chain[0] { out := out + [chain[0]]; }
  }

  /** The history is logarithmic in the height. */
  lemma HistoryIsShort(chain: seq<Hash>, out: seq<Hash>, n: nat)
    requires chain != [] && IsHistory(chain, out, n)
    ensures |out| >= 12 ==> Pow2(|out| - 11) < |chain|
  {
    if |out| >= 12 {
      assert Depth(n - 1) < |chain|;
      if n >= 12 {
        Pow2Rises(|out| - 11, n - 10);
      } else {
        assert n == 11 && Pow2(1) == 2;
      }
    }
  }

  // ------------------------------------------------------------------ reply

  datatype Reply = Reply(startHeight: nat, totalHeight: nat, blockIds: seq<Hash>)

  /** The first entry of a history the database has, and where it has it. */
  method FindFirst(chain: seq<Hash>, history: seq<Hash>) returns (found: Option<nat>, ghost k: nat)
    ensures found.None? ==> forall j :: 0 <= j < |history| ==> history[j] !in chain
    ensures found.Some? ==> found.value < |chain| && k < |history| && chain[found.value] == history[k]
    ensures found.Some? ==> forall j :: 0 <= j < k ==> history[j] !in chain
  {
    k := 0;
    for i := 0 to |history|
      invariant forall j :: 0 <= j < i ==> history[j] !in chain
    {
      if history[i] in chain {
        var h :| 0 <= h < |chain| && chain[h] == history[i];
        k := i;
        return Some(h), k;
      }
    }
    return None, k;
  }

  /** `find_blockchain_supplement`: nothing for a history that does not end at this genesis. */
  method ChainReply(chain: seq<Hash>, history: seq<Hash>) returns (r: Option<Reply>, ghost k: nat)
    ensures r.Some? <==> chain != [] && history != [] && history[|history| - 1] == chain[0]
    ensures r.Some? ==>
              var start := r.value.startHeight;
              && start < |chain| && k < |history| && chain[start] == history[k]
              && (forall j :: 0 <= j < k ==> history[j] !in chain)
              && r.value == Reply(start, |chain|, chain[start..Min(|chain|, start + BLOCK_IDS_DEFAULT_COUNT)])
  {
    k := 0;
    if chain == [] || history == [] || history[|history| - 1] != chain[0] { return None, k; }
    var found;
    found, k := FindFirst(chain, history);
    assert chain[0] in chain;
    if found.None? { return None, k; }
    var start := found.value;
    var end := Min(|chain|, start + BLOCK_IDS_DEFAULT_COUNT);
    var ids := [];
    for h := start to end
      invariant ids == chain[start..h]
    {
      ids := ids + [chain[h]];
    }
    return Some(Reply(start, |chain|, ids)), k;
  }

  // --------------------------------------------------------------- handshake

  /** `f` is the height of the last block two chains share. */
  ghost predicate ForksAt(a: seq<Hash>, b: seq<Hash>, f: nat) {
    && f < |a| && f < |b| && a[..f + 1] == b[..f + 1]
    && (f + 1 < |a| && f + 1 < |b| ==> a[f + 1] != b[f + 1])
  }

  /** A block of one chain is on the other exactly at and below the fork, at the same height. */
  lemma OnBothIffBelowFork(a: seq<Hash>, b: seq<Hash>, prev: Hash -> Hash, f: nat, i: nat)
    requires IsChain(a, prev) && IsChain(b, prev) && ForksAt(a, b, f) && i < |a|
    ensures a[i] in b <==> i <= f
    ensures i <= f ==> b[i] == a[i]
  {
    if i <= f {
      assert a[..f + 1][i] == b[..f + 1][i];
    } else if a[i] in b {
      var j :| 0 <= j < |b| && b[j] == a[i];
      SameHeight(a, b, prev, i, j);
      MatchForcesBelow(a, b, prev, i);
    }
  }

  /** An id shared by two chains with one genesis sits at one height. */
  lemma {:induction false} SameHeight(a: seq<Hash>, b: seq<Hash>, prev: Hash -> Hash, i: nat, j: nat)
    requires IsChain(a, prev) && IsChain(b, prev) && a[0] == b[0]
    requires i < |a| && j < |b| && a[i] == b[j]
    ensures i == j
  {
    if i > 0 && j > 0 {
      assert prev(a[i]) == a[i - 1] && prev(b[j]) == b[j - 1];
      SameHeight(a, b, prev, i - 1, j - 1);
    }
  }

  /** The first depth to reach `d` overshoots it by at most `d - 10`. */
  lemma DepthGap(d: nat, k: nat)
    requires Depth(k) >= d && (k > 0 ==> Depth(k - 1) < d)
    ensures Depth(k) - d <= Max(0, d - 10)
  {
    if k > 0 { DepthStep(k - 1); }
  }

  /**
   * With the fork `d` below the asker's tip, the reply starts at a common block
   * at most `max(0, d - 10)` below the fork, and holds the first block past the
   * fork exactly when there is one within the reply's limit.
   */
  lemma HandshakeFindsTheFork(
      a: seq<Hash>, b: seq<Hash>, prev: Hash -> Hash, f: nat, history: seq<Hash>, n: nat, reply: Reply, k: nat)
    requires IsChain(a, prev) && IsChain(b, prev) && ForksAt(a, b, f)
    requires IsHistory(a, history, n)
    requires reply.startHeight < |b| && k < |history| && b[reply.startHeight] == history[k]
    requires forall j :: 0 <= j < k ==> history[j] !in b
    requires reply.blockIds == b[reply.startHeight..Min(|b|, reply.startHeight + BLOCK_IDS_DEFAULT_COUNT)]
    ensures var d := |a| - 1 - f;
            && reply.startHeight <= f && a[reply.startHeight] == b[reply.startHeight]
            && f - reply.startHeight <= Max(0, d - 10)
    ensures f + 1 < |b| ==>
              (b[f + 1] in reply.blockIds <==> f + 1 < reply.startHeight + BLOCK_IDS_DEFAULT_COUNT)
    ensures f + 1 < |b| && |a| - 1 - f < BLOCK_IDS_DEFAULT_COUNT + 9 ==> b[f + 1] in reply.blockIds
  {
    var start := ReplyStart(a, b, prev, f, history, n, reply.startHeight, k);
    if f + 1 < |b| { InSliceIff(b, start, Min(|b|, start + BLOCK_IDS_DEFAULT_COUNT), f + 1); }
  }

  lemma InSliceIff(b: seq<Hash>, lo: nat, hi: nat, i: nat)
    requires lo <= hi <= |b| && lo <= i < |b| && Distinct(b)
    ensures b[i] in b[lo..hi] <==> i < hi
  {
    if i < hi {
      assert b[lo..hi][i - lo] == b[i];
    } else {
      forall j | 0 <= j < hi - lo ensures b[lo..hi][j] != b[i] { assert b[lo..hi][j] == b[lo + j]; }
    }
  }

  lemma ReplyStart(
      a: seq<Hash>, b: seq<Hash>, prev: Hash -> Hash, f: nat, history: seq<Hash>, n: nat, s: nat, k: nat)
    returns (start: nat)
    requires IsChain(a, prev) && IsChain(b, prev) && ForksAt(a, b, f)
    requires IsHistory(a, history, n)
    requires s < |b| && k < |history| && b[s] == history[k]
    requires forall j :: 0 <= j < k ==> history[j] !in b
    ensures start == s <= f && a[s] == b[s] && f - s <= Max(0, |a| - 1 - f - 10)
  {
    start := s;
    var d := |a| - 1 - f;
    assert a[0] == b[0] by { assert a[..f + 1][0] == b[..f + 1][0]; }
    forall j | 0 <= j < k && j < n ensures Depth(j) < d {
      assert history[j] !in b;
      OnBothIffBelowFork(a, b, prev, f, |a| - 1 - Depth(j));
    }
    if k < n {
      var i := |a| - 1 - Depth(k);
      assert b[s] in b;
      OnBothIffBelowFork(a, b, prev, f, i);
      SameHeight(a, b, prev, i, s);
      if k > 0 { assert Depth(k - 1) < d; }
      DepthGap(d, k);
    } else {
      SameHeight(a, b, prev, 0, s);
      assert n > 0 ==> Depth(n - 1) < d;
      DepthGap(d, n);
    }
  }

  /** A whole exchange: one node asks with its history, the other replies. */
  method Handshake(mine: seq<Hash>, theirs: seq<Hash>, ghost prev: Hash -> Hash, ghost f: nat)
    returns (reply: Reply)
    requires IsChain(mine, prev) && IsChain(theirs, prev) && ForksAt(mine, theirs, f)
    ensures reply.totalHeight == |theirs|
    ensures reply.startHeight <= f && mine[reply.startHeight] == theirs[reply.startHeight]
    ensures f - reply.startHeight <= Max(0, |mine| - 1 - f - 10)
    ensures f + 1 < |theirs| ==>
              (theirs[f + 1] in reply.blockIds <==> f + 1 < reply.startHeight + BLOCK_IDS_DEFAULT_COUNT)
  {
    var history;
    ghost var n;
    history, n := ShortHistory(mine);
    assert mine[0] == theirs[0] by { assert mine[..f + 1][0] == theirs[..f + 1][0]; }
    var r;
    ghost var k;
    r, k := ChainReply(theirs, history);
    reply := r.value;
    HandshakeFindsTheFork(mine, theirs, prev, f, history, n, reply, k);
  }
}
