/** When a pooled transaction goes out to peers again. */
module RelayBackoff {
  import opened Base
  import opened PoolModel

  const MIN_RELAY_SECS: nat := 5 * 60
  const MAX_RELAY_SECS: nat := 4 * 3_600

  function RelayDelay(lastRelayed: nat, received: nat): nat {
    var age := SatSub(lastRelayed, received);
    Min((age + MIN_RELAY_SECS) / MIN_RELAY_SECS * MIN_RELAY_SECS, MAX_RELAY_SECS)
  }

  predicate IsDue(e: PoolEntry, last: Option<nat>, now: nat) {
    && e.relay != NoRelay && e.fee != 0
    && SatSub(now, e.receiveTime) <= e.Lifetime() / 2
    && match last
       case None => e.relay != Stem
       case Some(at) => SatSub(now, at) > RelayDelay(at, e.receiveTime)
  }

  /** `get_relayable_transactions`, with the way each goes on. */
  function DueForRelay(p: Pool, now: nat): map<Hash, RelayMethod> {
    map id | id in p.byId
             && IsDue(p.byId[id], if id in p.relayedAt then Some(p.relayedAt[id]) else None, now) :: p.byId[id].relay
  }

  /**
   * What is offered: not what is kept from relay or pays nothing, not past half its life; what was
   * never sent unless it is in its stem, and the rest once the time since is over the delay. Each goes on as it came.
   */
  lemma OfferedIff(p: Pool, id: Hash, now: nat)
    ensures id in DueForRelay(p, now) <==>
      && id in p.byId && p.byId[id].relay != NoRelay && p.byId[id].fee > 0
      && now <= p.byId[id].receiveTime + (if p.byId[id].relay == Block then 302_400 else 129_600)
      && (id !in p.relayedAt ==> p.byId[id].relay != Stem)
      && (id in p.relayedAt ==> now > p.relayedAt[id] + RelayDelay(p.relayedAt[id], p.byId[id].receiveTime))
    ensures id in DueForRelay(p, now) ==> DueForRelay(p, now)[id] == p.byId[id].relay
  {}

  /** A stem entry nothing has sent is left to the embargo of the layer that stems it. */
  lemma UnsentStemIsNeverOffered(p: Pool, id: Hash, now: nat)
    requires id in p.byId && p.byId[id].relay == Stem && id !in p.relayedAt
    ensures id !in DueForRelay(p, now)
  {}

  /** Below the cap the delay lies above the age and within five minutes of it. */
  lemma DelayTracksAge(last: nat, received: nat)
    ensures var age := SatSub(last, received); var delay := RelayDelay(last, received);
            0 < delay <= MAX_RELAY_SECS && (delay < MAX_RELAY_SECS ==> age < delay <= age + MIN_RELAY_SECS)
  {
    var age := SatSub(last, received);
    assert (age + MIN_RELAY_SECS) / MIN_RELAY_SECS * MIN_RELAY_SECS + (age + MIN_RELAY_SECS) % MIN_RELAY_SECS
        == age + MIN_RELAY_SECS;
  }

  /**
   * One offer of a transaction and the send that answered it: the entry as it stood, the
   * relay time then on record, when it was offered, when it was marked sent.
   */
  datatype Offer = Offer(entry: PoolEntry, last: Option<nat>, offered: nat, sent: nat)

  /**
   * The answered offers of one transaction, in order. Between two of them the relay layer
   * may mark it sent of its own accord, so the time on record is at least the last
   * answer's. Its receive time and lifetime do not change.
   */
  ghost predicate SendHistory(offers: seq<Offer>, received: nat, life: nat) {
    forall k :: 0 <= k < |offers| ==> SentAt(offers, received, life, k)
  }

  /** The `k`th offer is made when due, and the send comes no earlier. */
  predicate SentAt(offers: seq<Offer>, received: nat, life: nat, k: nat)
    requires k < |offers|
  {
    var o := offers[k];
    && o.entry.receiveTime == received <= o.offered <= o.sent && o.entry.Lifetime() == life
    && IsDue(o.entry, o.last, o.offered)
    && (k > 0 ==> o.last.Some? && offers[k - 1].sent <= o.last.value)
  }

  /** Until the cap, each send finds the transaction more than twice as old as the last. */
  lemma SendAgesDouble(offers: seq<Offer>, received: nat, life: nat, k: nat)
    requires SendHistory(offers, received, life) && k + 1 < |offers|
    requires RelayDelay(offers[k].sent, received) < MAX_RELAY_SECS
    ensures offers[k + 1].sent - received > 2 * (offers[k].sent - received)
  {
    assert SentAt(offers, received, life, k) && SentAt(offers, received, life, k + 1);
    var last := offers[k + 1].last.value;
    DueNext(offers[k + 1].entry, last, offers[k + 1].offered);
    DelayTracksAge(offers[k].sent, received);
    DelayGrows(offers[k].sent - received, last - received, received);
    DelayFromReceipt(offers[k].sent, received);
  }

  lemma DelayFromReceipt(last: nat, received: nat)
    requires received <= last
    ensures RelayDelay(last, received) == RelayDelay(last - received, 0)
  {}

  /** The least age a transaction can have at its `k`th send, counting from 0. */
  function LeastAge(k: nat): nat {
    if k == 0 then 0 else LeastAge(k - 1) + RelayDelay(LeastAge(k - 1), 0) + 1
  }

  lemma DelayGrows(a: nat, b: nat, received: nat)
    requires a <= b
    ensures a + RelayDelay(a, 0) <= b + RelayDelay(received + b, received)
  {
    assert (a + MIN_RELAY_SECS) / MIN_RELAY_SECS <= (b + MIN_RELAY_SECS) / MIN_RELAY_SECS;
  }

  lemma DueNext(e: PoolEntry, last: nat, now: nat)
    requires IsDue(e, Some(last), now)
    ensures now > last + RelayDelay(last, e.receiveTime)
  {
    DelayTracksAge(last, e.receiveTime);
  }

  lemma {:induction false} SendsAreLate(offers: seq<Offer>, received: nat, life: nat, k: nat)
    requires SendHistory(offers, received, life) && k < |offers|
    ensures offers[k].offered - received >= LeastAge(k)
  {
    assert SentAt(offers, received, life, k);
    if k > 0 {
      assert SentAt(offers, received, life, k - 1);
      SendsAreLate(offers, received, life, k - 1);
      var last := offers[k].last.value;
      DueNext(offers[k].entry, last, offers[k].offered);
      DelayGrows(LeastAge(k - 1), last - received, received);
    }
  }

  lemma LeastAges()
    ensures LeastAge(6) == 18_906 && LeastAge(13) == 119_713 && LeastAge(14) == 134_114
    ensures LeastAge(25) == 292_525 && LeastAge(26) == 306_926
  {
    assert LeastAge(1) == 301 && LeastAge(2) == 902;
    assert LeastAge(3) == 2_103;
    assert LeastAge(4) == 4_504;
    assert LeastAge(5) == 9_305;
    assert LeastAge(6) == 18_906;
    CappedAges(6, 7);
    CappedAges(6, 8);
    CappedAges(6, 19);
    CappedAges(6, 20);
  }

  lemma {:induction false} CappedAges(k: nat, n: nat)
    requires LeastAge(k) >= MAX_RELAY_SECS
    ensures LeastAge(k + n) == LeastAge(k) + n * (MAX_RELAY_SECS + 1)
  {
    if n > 0 {
      CappedAges(k, n - 1);
      CappedStep(k + (n - 1));
      OneCapMore(n, LeastAge(k), LeastAge(k + (n - 1)), LeastAge(k + n));
    }
  }

  lemma OneCapMore(n: nat, start: nat, before: nat, after: nat)
    requires n > 0 && before == start + (n - 1) * (MAX_RELAY_SECS + 1) && after == before + MAX_RELAY_SECS + 1
    ensures after == start + n * (MAX_RELAY_SECS + 1)
  {}

  lemma CappedStep(k: nat)
    requires LeastAge(k) >= MAX_RELAY_SECS
    ensures LeastAge(k + 1) == LeastAge(k) + MAX_RELAY_SECS + 1
  {
    CappedDelay(LeastAge(k));
  }

  lemma CappedDelay(age: nat)
    requires age >= MAX_RELAY_SECS
    ensures RelayDelay(age, 0) == MAX_RELAY_SECS
  {
    DelayTracksAge(age, 0);
  }

  lemma SendsFitHalfALife(offers: seq<Offer>, received: nat, life: nat, k: nat)
    requires SendHistory(offers, received, life) && k < |offers|
    ensures LeastAge(k) <= life / 2
  {
    SendsAreLate(offers, received, life, k);
    assert SentAt(offers, received, life, k);
  }

  /** A three-day transaction is offered and sent at most fourteen times; one from a replaced block, twenty-six. */
  lemma SendsAreBounded(offers: seq<Offer>, received: nat, life: nat)
    requires SendHistory(offers, received, life)
    ensures life == TX_LIVETIME ==> |offers| <= 14
    ensures life == TX_FROM_ALT_BLOCK_LIVETIME ==> |offers| <= 26
  {
    LeastAges();
    if life == TX_LIVETIME && |offers| > 14 {
      SendsFitHalfALife(offers, received, life, 14);
    } else if |offers| > 26 {
      SendsFitHalfALife(offers, received, life, 26);
    }
  }

  lemma {:induction false} LeastAgeRises(j: nat, k: nat)
    requires j <= k
    ensures LeastAge(j) <= LeastAge(k)
    decreases k - j
  {
    if j < k { LeastAgeRises(j, k - 1); }
  }

  lemma DueAtLeastAge(e: PoolEntry, k: nat)
    requires e.relay == Fluff && e.fee > 0 && LeastAge(k) <= TX_LIVETIME / 2
    ensures IsDue(e, if k == 0 then None else Some(e.receiveTime + LeastAge(k - 1)), e.receiveTime + LeastAge(k))
  {}

  /** The `k`th offer when each is made, and answered, as soon as it is due. */
  function Prompt(e: PoolEntry, k: nat): Offer {
    var at := e.receiveTime + LeastAge(k);
    Offer(e, if k == 0 then None else Some(e.receiveTime + LeastAge(k - 1)), at, at)
  }

  /** Sending as soon as it is due, every time, makes a history as long as half a life allows. */
  lemma PromptSends(e: PoolEntry, n: nat) returns (offers: seq<Offer>)
    requires e.relay == Fluff && e.fee > 0 && n > 0 && LeastAge(n - 1) <= TX_LIVETIME / 2
    ensures |offers| == n && SendHistory(offers, e.receiveTime, TX_LIVETIME)
  {
    offers := seq(n, k requires 0 <= k => Prompt(e, k));
    forall k | 0 <= k < n ensures SentAt(offers, e.receiveTime, TX_LIVETIME, k) {
      LeastAgeRises(k, n - 1);
      DueAtLeastAge(e, k);
    }
  }

  /** Fourteen sends of a three-day transaction do happen, so the bound is exact. */
  lemma FourteenSendsHappen(e: PoolEntry) returns (offers: seq<Offer>)
    requires e.relay == Fluff && e.fee > 0
    ensures |offers| == 14 && SendHistory(offers, e.receiveTime, TX_LIVETIME)
  {
    var n: nat :| n == 14;
    LeastAges();
    offers := PromptSends(e, n);
  }
}
