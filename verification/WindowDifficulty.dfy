/** The sorted, cut-window difficulty rule, in its two uses: version 1 and version 6. */
module WindowDifficulty {
  import opened Base
  import opened Sorting
  import opened WideDivision

  const DIFFICULTY_WINDOW: nat := 720
  const DIFFICULTY_CUT: nat := 60
  const DIFFICULTY_WINDOW_V3: nat := 144
  const DIFFICULTY_CUT_V2: nat := 12
  const TESTNET_EARLY_DIFFICULTY: nat := 100
  const HF18_RESET_FROM: nat := 331_170
  const HF18_RESET_DIFFICULTY: nat := 100_000_000

  /** Blocks kept from the collection, and blocks cut from each end once sorted. */
  datatype Window = Window(size: nat, cut: nat)

  const WINDOW_V1 := Window(DIFFICULTY_WINDOW, DIFFICULTY_CUT)
  const WINDOW_V6 := Window(DIFFICULTY_WINDOW_V3, DIFFICULTY_CUT_V2)

  predicate IsWindow(w: Window) { w.size > 2 * w.cut + 1 }

  predicate IsEarlyTestnet(net: Network, height: nat) {
    (net == Testnet || net == Stagenet) && height <= DIFFICULTY_WINDOW
  }

  predicate IsReset(net: Network, height: nat) {
    net == Mainnet && HF18_RESET_FROM <= height <= HF18_RESET_FROM + DIFFICULTY_WINDOW
  }

  function Kept<T>(w: Window, s: seq<T>): seq<T> { s[..Min(|s|, w.size)] }

  /** The indices left between the cuts. */
  function CutRange(w: Window, length: nat): (r: (nat, nat))
    requires IsWindow(w) && 2 <= length <= w.size
    ensures r.0 + 1 < r.1 <= length
    ensures r.1 - r.0 == Min(length, w.size - 2 * w.cut)
    ensures length == w.size ==> r.0 == w.cut && length - r.1 == w.cut
    ensures 0 <= r.0 - (length - r.1) <= 1
  {
    var span := w.size - 2 * w.cut;
    if length <= span then (0, length)
    else
      var begin := (length - span + 1) / 2;
      (begin, begin + span)
  }

  function WrappingSub(a: nat, b: nat): (r: nat)
    ensures r < TWO128
  {
    (a - b) % TWO128
  }

  function TimeSpan(sorted: seq<nat>, begin: nat, end: nat): (t: nat)
    requires Ascending(NatLe, sorted) && begin < end <= |sorted|
    ensures t > 0
  {
    if begin == end - 1 then 1
    else
      assert NatLe(sorted[begin], sorted[end - 1]);
      Max(1, sorted[end - 1] - sorted[begin])
  }

  /** Only the timestamps are sorted; the cumulative difficulties keep chain order. */
  function WindowRule(w: Window, timestamps: seq<nat>, cumulative: seq<nat>, target: nat): nat
    requires IsWindow(w) && |timestamps| == |cumulative|
  {
    var ts, cd := Kept(w, timestamps), Kept(w, cumulative);
    if |ts| <= 1 then 1
    else
      var (begin, end) := CutRange(w, |ts|);
      SortNatsAscends(ts);
      CeilOrZero(WrappingSub(cd[end - 1], cd[begin]), target, TimeSpan(SortNats(ts), begin, end))
  }

  function RuleV1(timestamps: seq<nat>, cumulative: seq<nat>, target: nat, height: nat, net: Network): nat
    requires |timestamps| == |cumulative|
  {
    if IsEarlyTestnet(net, height) then TESTNET_EARLY_DIFFICULTY
    else if |timestamps| <= 1 then 1
    else if IsReset(net, height) then HF18_RESET_DIFFICULTY
    else WindowRule(WINDOW_V1, timestamps, cumulative, target)
  }

  function RuleV6(timestamps: seq<nat>, cumulative: seq<nat>, target: nat, height: nat, net: Network): nat
    requires |timestamps| == |cumulative|
  {
    if IsEarlyTestnet(net, height) then TESTNET_EARLY_DIFFICULTY
    else WindowRule(WINDOW_V6, timestamps, cumulative, target)
  }

  // ------------------------------------------------------------- the methods

  predicate AreU64(s: seq<nat>) { forall i :: 0 <= i < |s| ==> s[i] < TWO64 }

  predicate AreU128(s: seq<nat>) { forall i :: 0 <= i < |s| ==> s[i] < TWO128 }

  /** The window computed in machine integers: truncate, sort, cut, divide. */
  method ComputeWindow(w: Window, timestamps: seq<nat>, cumulative: seq<nat>, target: nat) returns (r: nat)
    requires IsWindow(w) && |timestamps| == |cumulative|
    requires AreU64(timestamps) && AreU128(cumulative) && target < TWO64
    ensures r == WindowRule(w, timestamps, cumulative, target)
  {
    var ts, cd := timestamps, cumulative;
    if |ts| > w.size { ts, cd := ts[..w.size], cd[..w.size]; }
    assert ts == Kept(w, timestamps) && cd == Kept(w, cumulative);
    if |ts| <= 1 { return 1; }
    var (begin, end) := CutRange(w, |ts|);
    var sorted := SortNats(ts);
    SortNatsAscends(ts);
    SortedBounded(ts);
    var span := SpanBetween(sorted, begin, end);
    r := Quotient(WrappingSub(cd[end - 1], cd[begin]), target, span);
  }

  method SpanBetween(sorted: seq<nat>, begin: nat, end: nat) returns (span: nat)
    requires Ascending(NatLe, sorted) && AreU64(sorted) && begin + 1 < end <= |sorted|
    ensures span == TimeSpan(sorted, begin, end) && span < TWO64
  {
    assert NatLe(sorted[begin], sorted[end - 1]);
    span := sorted[end - 1] - sorted[begin];
    if span == 0 { span := 1; }
  }

  method Quotient(work: nat, target: nat, span: nat) returns (r: nat)
    requires work < TWO128 && target < TWO64 && 0 < span < TWO64
    ensures r == CeilOrZero(work, target, span)
  {
    var d := CeilDiv256(work as u128, target as u64, span as u64);
    r := d as int;
  }

  lemma SortedBounded(ts: seq<nat>)
    requires AreU64(ts)
    ensures AreU64(SortNats(ts))
  {
    var s := SortNats(ts);
    forall i | 0 <= i < |s| ensures s[i] < TWO64 {
      assert s[i] in multiset(s);
    }
  }

  method NextDifficultyV1(timestamps: seq<nat>, cumulative: seq<nat>, target: nat, height: nat, net: Network)
    returns (r: nat)
    requires |timestamps| == |cumulative| && AreU64(timestamps) && AreU128(cumulative) && target < TWO64
    ensures r == RuleV1(timestamps, cumulative, target, height, net)
  {
    if (net == Testnet || net == Stagenet) && height <= DIFFICULTY_WINDOW { return TESTNET_EARLY_DIFFICULTY; }
    if |timestamps| <= 1 { return 1; }
    if net == Mainnet && HF18_RESET_FROM <= height <= HF18_RESET_FROM + DIFFICULTY_WINDOW {
      return HF18_RESET_DIFFICULTY;
    }
    r := ComputeWindow(WINDOW_V1, timestamps, cumulative, target);
  }

  method NextDifficultyV6(timestamps: seq<nat>, cumulative: seq<nat>, target: nat, height: nat, net: Network)
    returns (r: nat)
    requires |timestamps| == |cumulative| && AreU64(timestamps) && AreU128(cumulative) && target < TWO64
    ensures r == RuleV6(timestamps, cumulative, target, height, net)
  {
    if (net == Testnet || net == Stagenet) && height <= DIFFICULTY_WINDOW { return TESTNET_EARLY_DIFFICULTY; }
    r := ComputeWindow(WINDOW_V6, timestamps, cumulative, target);
  }

  // -------------------------------------------------------------- properties

  /** In a window already in order, work and time are taken between the same two positions. */
  lemma OrderedWindow(w: Window, ts: seq<nat>, cd: seq<nat>, target: nat, begin: nat, end: nat)
    requires IsWindow(w) && |ts| == |cd| >= 2 && Ascending(NatLe, Kept(w, ts))
    requires (begin, end) == CutRange(w, |Kept(w, ts)|) && cd[begin] <= cd[end - 1] < TWO128
    ensures begin < end - 1 < |ts|
    ensures WindowRule(w, ts, cd, target)
         == CeilOrZero(cd[end - 1] - cd[begin], target, Max(1, ts[end - 1] - ts[begin]))
  {
    SortNatsOfAscending(Kept(w, ts));
    assert WrappingSub(cd[end - 1], cd[begin]) == cd[end - 1] - cd[begin];
  }

  /** Version 1 on a full window in order: between the 61st and the 660th block. */
  lemma FullWindowV1(ts: seq<nat>, cd: seq<nat>, target: nat, height: nat, net: Network)
    requires |ts| == |cd| >= 720 && Ascending(NatLe, ts[..720]) && cd[60] <= cd[659] < TWO128
    requires !((net == Testnet || net == Stagenet) && height <= 720)
    requires !(net == Mainnet && 331_170 <= height <= 331_890)
    ensures RuleV1(ts, cd, target, height, net) == CeilOrZero(cd[659] - cd[60], target, Max(1, ts[659] - ts[60]))
  {
    OrderedWindow(WINDOW_V1, ts, cd, target, 60, 660);
  }

  /** Version 6: between the 13th and the 132nd of 144. */
  lemma FullWindowV6(ts: seq<nat>, cd: seq<nat>, target: nat, height: nat, net: Network)
    requires |ts| == |cd| >= 144 && Ascending(NatLe, ts[..144]) && cd[12] <= cd[131] < TWO128
    requires !((net == Testnet || net == Stagenet) && height <= 720)
    ensures RuleV6(ts, cd, target, height, net) == CeilOrZero(cd[131] - cd[12], target, Max(1, ts[131] - ts[12]))
  {
    OrderedWindow(WINDOW_V6, ts, cd, target, 12, 132);
  }

  /** With no more blocks than lie between the cuts nothing is cut. */
  lemma ShortWindow(ts: seq<nat>, cd: seq<nat>, target: nat, height: nat, net: Network)
    requires |ts| == |cd| >= 2 && Ascending(NatLe, ts) && cd[0] <= cd[|cd| - 1] < TWO128
    requires !((net == Testnet || net == Stagenet) && height <= 720)
    ensures var c := CeilOrZero(cd[|cd| - 1] - cd[0], target, Max(1, ts[|ts| - 1] - ts[0]));
      && (|ts| <= 600 && !(net == Mainnet && 331_170 <= height <= 331_890) ==>
            RuleV1(ts, cd, target, height, net) == c)
      && (|ts| <= 120 ==> RuleV6(ts, cd, target, height, net) == c)
  {
    if |ts| <= 600 { Uncut(WINDOW_V1, ts, cd, target); }
    if |ts| <= 120 { Uncut(WINDOW_V6, ts, cd, target); }
  }

  lemma Uncut(w: Window, ts: seq<nat>, cd: seq<nat>, target: nat)
    requires IsWindow(w) && 2 <= |ts| == |cd| <= w.size - 2 * w.cut
    requires Ascending(NatLe, ts) && cd[0] <= cd[|cd| - 1] < TWO128
    ensures WindowRule(w, ts, cd, target)
         == CeilOrZero(cd[|cd| - 1] - cd[0], target, Max(1, ts[|ts| - 1] - ts[0]))
  {
    assert Kept(w, ts) == ts;
    OrderedWindow(w, ts, cd, target, 0, |ts|);
  }

  /** What is fixed by network and height, and what a chain too short to measure gets. */
  lemma FixedDifficulties(ts: seq<nat>, cd: seq<nat>, target: nat, height: nat, net: Network)
    requires |ts| == |cd|
    ensures (net == Testnet || net == Stagenet) && height <= 720 ==>
      RuleV1(ts, cd, target, height, net) == 100 == RuleV6(ts, cd, target, height, net)
    ensures !((net == Testnet || net == Stagenet) && height <= 720) && |ts| <= 1 ==>
      RuleV1(ts, cd, target, height, net) == 1 == RuleV6(ts, cd, target, height, net)
    ensures net == Mainnet && 331_170 <= height <= 331_890 && |ts| >= 2 ==>
      RuleV1(ts, cd, target, height, net) == 100_000_000
  {}

  /** Reordering the timestamps kept in the window changes nothing. */
  lemma OrderInsideWindowIsForgotten(w: Window, a: seq<nat>, b: seq<nat>, cumulative: seq<nat>, target: nat)
    requires IsWindow(w) && |a| == |b| == |cumulative|
    requires multiset(Kept(w, a)) == multiset(Kept(w, b))
    ensures WindowRule(w, a, cumulative, target) == WindowRule(w, b, cumulative, target)
  {
    SortNatsOfPermutation(Kept(w, a), Kept(w, b));
  }

  /** What lies past the window, the lag, is not looked at. */
  lemma LagIsIgnored(w: Window, a: seq<nat>, a': seq<nat>, c: seq<nat>, c': seq<nat>, target: nat)
    requires IsWindow(w) && |a| == |c| && |a'| == |c'| && |a| >= w.size && |a'| >= w.size
    requires a[..w.size] == a'[..w.size] && c[..w.size] == c'[..w.size]
    ensures WindowRule(w, a, c, target) == WindowRule(w, a', c', target)
  {
    assert Kept(w, a) == a[..w.size] == Kept(w, a') && Kept(w, c) == c[..w.size] == Kept(w, c');
  }

  /** Neither version looks at the order of the timestamps in its window. */
  lemma OrderIsForgotten(a: seq<nat>, b: seq<nat>, cumulative: seq<nat>, target: nat, height: nat, net: Network)
    requires |a| == |b| == |cumulative|
    ensures multiset(Kept(WINDOW_V1, a)) == multiset(Kept(WINDOW_V1, b)) ==>
              RuleV1(a, cumulative, target, height, net) == RuleV1(b, cumulative, target, height, net)
    ensures multiset(Kept(WINDOW_V6, a)) == multiset(Kept(WINDOW_V6, b)) ==>
              RuleV6(a, cumulative, target, height, net) == RuleV6(b, cumulative, target, height, net)
  {
    OrderForgotten(WINDOW_V1, a, b, cumulative, target);
    OrderForgotten(WINDOW_V6, a, b, cumulative, target);
  }

  lemma OrderForgotten(w: Window, a: seq<nat>, b: seq<nat>, cumulative: seq<nat>, target: nat)
    requires IsWindow(w) && |a| == |b| == |cumulative|
    ensures multiset(Kept(w, a)) == multiset(Kept(w, b)) ==>
              WindowRule(w, a, cumulative, target) == WindowRule(w, b, cumulative, target)
  {
    if multiset(Kept(w, a)) == multiset(Kept(w, b)) {
      OrderInsideWindowIsForgotten(w, a, b, cumulative, target);
    }
  }

  /** Two collections that are the same up to the window's size, and at least that long. */
  ghost predicate SameWindow(w: Window, a: seq<nat>, a': seq<nat>, c: seq<nat>, c': seq<nat>) {
    && |a| == |c| && |a'| == |c'| && |a| >= w.size && |a'| >= w.size
    && a[..w.size] == a'[..w.size] && c[..w.size] == c'[..w.size]
  }

  /** Neither version looks at the blocks past its window. */
  lemma LagIsForgotten(
      a: seq<nat>, a': seq<nat>, c: seq<nat>, c': seq<nat>, target: nat, height: nat, net: Network)
    requires |a| == |c| && |a'| == |c'|
    ensures SameWindow(WINDOW_V1, a, a', c, c') ==>
              RuleV1(a, c, target, height, net) == RuleV1(a', c', target, height, net)
    ensures SameWindow(WINDOW_V6, a, a', c, c') ==>
              RuleV6(a, c, target, height, net) == RuleV6(a', c', target, height, net)
  {
    if SameWindow(WINDOW_V1, a, a', c, c') { LagIsIgnored(WINDOW_V1, a, a', c, c', target); }
    if SameWindow(WINDOW_V6, a, a', c, c') { LagIsIgnored(WINDOW_V6, a, a', c, c', target); }
  }

  /** A chain of constant difficulty, one block each target interval. */
  ghost predicate IsSteady(timestamps: seq<nat>, cumulative: seq<nat>, target: nat, d: nat) {
    && |timestamps| == |cumulative|
    && (forall i :: 0 <= i < |timestamps| ==> timestamps[i] == timestamps[0] + i * target)
    && (forall i :: 0 <= i < |cumulative| ==> cumulative[i] == cumulative[0] + i * d)
  }

  lemma ExactQuotient(d: nat, span: nat)
    requires span > 0 && d < TWO128
    ensures CeilOrZero(d, span, span) == d
  {
    QuotientIs(d * span + span - 1, d, span, span - 1);
  }

  lemma SteadySpacing(timestamps: seq<nat>, cumulative: seq<nat>, target: nat, d: nat, i: nat, j: nat)
    requires IsSteady(timestamps, cumulative, target, d) && i <= j < |timestamps|
    ensures timestamps[j] == timestamps[i] + (j - i) * target && cumulative[j] == cumulative[i] + (j - i) * d
  {
    assert j * target == i * target + (j - i) * target;
    assert j * d == i * d + (j - i) * d;
  }

  lemma SteadyAscends(timestamps: seq<nat>, cumulative: seq<nat>, target: nat, d: nat, n: nat)
    requires IsSteady(timestamps, cumulative, target, d) && n <= |timestamps|
    ensures Ascending(NatLe, timestamps[..n])
  {
    forall i, j | 0 <= i < j < n ensures NatLe(timestamps[..n][i], timestamps[..n][j]) {
      SteadyPair(timestamps, cumulative, target, d, i, j);
    }
  }

  lemma SteadyPair(timestamps: seq<nat>, cumulative: seq<nat>, target: nat, d: nat, i: nat, j: nat)
    requires IsSteady(timestamps, cumulative, target, d) && i < j < |timestamps|
    ensures timestamps[i] <= timestamps[j]
  {
    SteadySpacing(timestamps, cumulative, target, d, i, j);
    MulLe(target, 0, j - i);
  }

  lemma SteadyQuotient(m: nat, d: nat, target: nat)
    requires m > 0 && target > 0 && d < TWO128
    ensures m * target > 0 && CeilOrZero(m * d, target, m * target) == d
  {
    assert (m * d) * target == d * (m * target);
    ExactQuotient(d, m * target);
  }

  lemma SteadyWork(a: nat, b: nat, m: nat, d: nat)
    requires b == a + m * d && b < TWO128 && m > 0
    ensures WrappingSub(b, a) == m * d && d < TWO128
  {
    MulLe(d, 1, m);
  }

  /** On a steady chain the rule returns the difficulty it has. */
  lemma SteadyChainIsAFixedPoint(w: Window, timestamps: seq<nat>, cumulative: seq<nat>, target: nat, d: nat)
    requires IsWindow(w) && IsSteady(timestamps, cumulative, target, d)
    requires |timestamps| >= 2 && target > 0 && AreU128(cumulative)
    ensures WindowRule(w, timestamps, cumulative, target) == d
  {
    var ts, cd := Kept(w, timestamps), Kept(w, cumulative);
    SteadyAscends(timestamps, cumulative, target, d, |ts|);
    SortNatsOfAscending(ts);
    var (begin, end) := CutRange(w, |ts|);
    var m := end - 1 - begin;
    SteadySpacing(timestamps, cumulative, target, d, begin, end - 1);
    SteadyWork(cd[begin], cd[end - 1], m, d);
    SteadyQuotient(m, d, target);
    assert TimeSpan(ts, begin, end) == m * target;
  }

  lemma SteadyV1AndV6(timestamps: seq<nat>, cumulative: seq<nat>, target: nat, d: nat, height: nat, net: Network)
    requires IsSteady(timestamps, cumulative, target, d) && |timestamps| >= 2 && target > 0 && AreU128(cumulative)
    requires !IsEarlyTestnet(net, height)
    ensures RuleV6(timestamps, cumulative, target, height, net) == d
    ensures !IsReset(net, height) ==> RuleV1(timestamps, cumulative, target, height, net) == d
  {
    SteadyChainIsAFixedPoint(WINDOW_V1, timestamps, cumulative, target, d);
    SteadyChainIsAFixedPoint(WINDOW_V6, timestamps, cumulative, target, d);
  }
}
