/** Main chains as lists of block ids, each id naming its predecessor. */
module ChainLinks {
  import opened Base

  /** A block commits to its parent, so an id determines the id below it. */
  ghost predicate Linked(chain: seq<Hash>, prev: Hash -> Hash) {
    forall i :: 0 < i < |chain| ==> prev(chain[i]) == chain[i - 1]
  }

  /** One matching entry forces every entry below it to match. */
  lemma {:induction false} MatchForcesBelow(a: seq<Hash>, b: seq<Hash>, prev: Hash -> Hash, h: nat)
    requires Linked(a, prev) && Linked(b, prev) && h < |a| && h < |b| && a[h] == b[h]
    ensures a[..h + 1] == b[..h + 1]
  {
    if h > 0 {
      assert prev(a[h]) == a[h - 1] && prev(b[h]) == b[h - 1];
      MatchForcesBelow(a, b, prev, h - 1);
      assert a[..h + 1] == a[..h] + [a[h]] && b[..h + 1] == b[..h] + [b[h]];
    }
  }
}
