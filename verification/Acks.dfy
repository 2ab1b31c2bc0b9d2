/** Messages waiting for an acknowledgement, and the sweep that retries or gives them up. */
module Acks {
  import opened Bytes
  import opened Packets
  import opened Fragments

  const RETRY_SECONDS: int := 3
  const MAX_RETRIES: nat := 3

  datatype PendingAck = PendingAck(dest: Mac, retries: u8, sent: int, message: seq<byte>, seqNum: u32)

  type Pending = map<u32, PendingAck>

  /** Waiting for more than three whole seconds. */
  predicate IsAged(pa: PendingAck, now: int) {
    AgeSeconds(now, pa.sent) > RETRY_SECONDS
  }

  predicate Retries(pa: PendingAck, now: int) {
    IsAged(pa, now) && pa.retries < MAX_RETRIES
  }

  predicate Fails(pa: PendingAck, now: int) {
    IsAged(pa, now) && pa.retries >= MAX_RETRIES
  }

  /** The table after a sweep. */
  function Swept(pending: Pending, now: int): Pending {
    map k | k in pending && !Fails(pending[k], now) ::
      if Retries(pending[k], now) then pending[k].(retries := pending[k].retries + 1, sent := now) else pending[k]
  }

  datatype Report = Retried(key: u32) | Failed(key: u32)

  /** The reports of a sweep: one for each aged entry, in key order, and none for any other. */
  ghost predicate ReportsOf(reports: seq<Report>, pending: Pending, now: int) {
    && (forall i, j :: 0 <= i < j < |reports| ==> reports[i].key < reports[j].key)
    && (forall k :: Retried(k) in reports <==> k in pending && Retries(pending[k], now))
    && (forall k :: Failed(k) in reports <==> k in pending && Fails(pending[k], now))
  }

  /** The table in the middle of a sweep, with the keys in `todo` not visited yet. */
  ghost function SweptExcept(before: Pending, todo: set<u32>, now: int): Pending {
    map k | k in before && (k in todo || !Fails(before[k], now)) ::
      if k !in todo && Retries(before[k], now) then before[k].(retries := before[k].retries + 1, sent := now)
      else before[k]
  }

  ghost predicate ReportsExcept(reports: seq<Report>, before: Pending, todo: set<u32>, now: int) {
    && (forall i, j :: 0 <= i < j < |reports| ==> reports[i].key < reports[j].key)
    && (forall i, k :: 0 <= i < |reports| && k in todo ==> reports[i].key < k)
    && (forall k :: Retried(k) in reports <==> k in before && k !in todo && Retries(before[k], now))
    && (forall k :: Failed(k) in reports <==> k in before && k !in todo && Fails(before[k], now))
  }

  lemma NothingSwept(before: Pending, now: int)
    ensures SweptExcept(before, before.Keys, now) == before
    ensures ReportsExcept([], before, before.Keys, now)
  {
    hide IsAged;
  }

  predicate IsLeastKey(k: u32, s: set<u32>) {
    k in s && forall j :: j in s ==> k <= j
  }

  lemma {:induction false} LeastKeyExists(s: set<u32>)
    requires s != {}
    ensures exists k :: IsLeastKey(k, s)
    decreases s
  {
    var k :| k in s;
    var rest := s - {k};
    if rest == {} {
      assert s == {k};
      assert IsLeastKey(k, s);
    } else {
      LeastKeyExists(rest);
      var m :| IsLeastKey(m, rest);
      var least := if k < m then k else m;
      assert forall j :: j in s ==> j == k || j in rest;
      assert IsLeastKey(least, s);
    }
  }

  lemma SweepOne(before: Pending, todo: set<u32>, k: u32, now: int)
    requires k in todo && todo <= before.Keys
    ensures var pending := SweptExcept(before, todo, now);
            && k in pending && pending[k] == before[k]
            && SweptExcept(before, todo - {k}, now)
               == if Fails(before[k], now) then pending - {k}
                  else if Retries(before[k], now)
                  then pending[k := before[k].(retries := before[k].retries + 1, sent := now)]
                  else pending
  {
    hide IsAged;
  }

  lemma ReportOne(reports: seq<Report>, before: Pending, todo: set<u32>, k: u32, now: int)
    requires IsLeastKey(k, todo) && todo <= before.Keys
    requires ReportsExcept(reports, before, todo, now)
    ensures ReportsExcept(if Fails(before[k], now) then reports + [Failed(k)]
                          else if Retries(before[k], now) then reports + [Retried(k)]
                          else reports,
                          before, todo - {k}, now)
  {
    hide IsAged;
    var after := if Fails(before[k], now) then reports + [Failed(k)]
                 else if Retries(before[k], now) then reports + [Retried(k)]
                 else reports;
    forall r
      ensures r in after <==> r in reports || (Fails(before[k], now) && r == Failed(k))
                              || (Retries(before[k], now) && r == Retried(k))
    {
    }
  }

  lemma AllSwept(reports: seq<Report>, before: Pending, now: int)
    ensures SweptExcept(before, {}, now) == Swept(before, now)
    ensures ReportsExcept(reports, before, {}, now) ==> ReportsOf(reports, before, now)
  {
    hide IsAged;
  }

  class AckTable {
    var pending: Pending
    var nextSeq: u32

    constructor ()
      ensures pending == map[] && nextSeq == 1
    {
      pending := map[];
      nextSeq := 1;
    }

    /** Starts waiting for the acknowledgement of a message, under the next number. */
    method Track(dest: Mac, message: seq<byte>, now: int) returns (key: u32)
      modifies this
      ensures key == old(nextSeq) && nextSeq == NextSeq(old(nextSeq))
      ensures pending == old(pending)[key := PendingAck(dest, 0, now, message, key)]
    {
      key := nextSeq;
      nextSeq := NextSeq(nextSeq);
      pending := pending[key := PendingAck(dest, 0, now, message, key)];
    }

    method Acknowledge(key: u32)
      modifies this`pending
      ensures pending == old(pending) - {key}
    {
      if key in pending {
        pending := pending - {key};
      }
    }

    /** The sweep: visits every key once, in order, erasing entries as it goes. */
    method Sweep(now: int) returns (reports: seq<Report>)
      modifies this`pending
      ensures pending == Swept(old(pending), now)
      ensures ReportsOf(reports, old(pending), now)
    {
      hide IsAged, SweptExcept, ReportsExcept;
      reports := [];
      var todo := pending.Keys;
      ghost var before := pending;
      NothingSwept(before, now);
      while todo != {}
        invariant todo <= before.Keys
        invariant pending == SweptExcept(before, todo, now)
        invariant ReportsExcept(reports, before, todo, now)
        decreases todo
      {
        LeastKeyExists(todo);
        var k :| IsLeastKey(k, todo);
        SweepOne(before, todo, k, now);
        ReportOne(reports, before, todo, k, now);
        todo := todo - {k};
        if IsAged(pending[k], now) {
          if pending[k].retries >= MAX_RETRIES {
            reports := reports + [Failed(k)];
            pending := pending - {k};
          } else {
            reports := reports + [Retried(k)];
            pending := pending[k := pending[k].(retries := pending[k].retries + 1, sent := now)];
          }
        }
      }
      AllSwept(reports, before, now);
    }
  }

  // ----- whole runs

  datatype AckEvent =
    | Sent(key: u32, dest: Mac, message: seq<byte>, now: int)
    | Acked(key: u32)
    | Sweep(now: int)

  function Step(pending: Pending, e: AckEvent): Pending {
    match e
    case Sent(key, dest, message, now) => pending[key := PendingAck(dest, 0, now, message, key)]
    case Acked(key) => pending - {key}
    case Sweep(now) => Swept(pending, now)
  }

  function PendingAfter(h: seq<AckEvent>): Pending {
    if h == [] then map[] else Step(PendingAfter(h[..|h| - 1]), h[|h| - 1])
  }

  /** The retries reported for `key` since it was last sent. */
  function RetryReports(h: seq<AckEvent>, key: u32): nat {
    if h == [] then 0
    else
      var g, e := h[..|h| - 1], h[|h| - 1];
      if e.Sent? && e.key == key then 0
      else
        RetryReports(g, key)
        + (if e.Sweep? && key in PendingAfter(g) && Retries(PendingAfter(g)[key], e.now) then 1 else 0)
  }

  /** Whatever the interleaving, the counter of an entry is the number of its retry reports, at most 3. */
  lemma {:induction false} RetriesAreCounted(h: seq<AckEvent>, key: u32)
    requires key in PendingAfter(h)
    ensures PendingAfter(h)[key].retries == RetryReports(h, key) <= MAX_RETRIES
  {
    hide IsAged;
    if h != [] {
      var g, e := h[..|h| - 1], h[|h| - 1];
      if !(e.Sent? && e.key == key) {
        RetriesAreCounted(g, key);
      }
    }
  }

  /** A sweep gives up exactly the aged entries that have been retried three times since they were sent. */
  lemma FailedAfterThreeRetries(h: seq<AckEvent>, now: int, key: u32)
    requires key in PendingAfter(h) && IsAged(PendingAfter(h)[key], now)
    ensures Fails(PendingAfter(h)[key], now) <==> RetryReports(h, key) == 3
    ensures key in PendingAfter(h + [Sweep(now)]) <==> RetryReports(h, key) < 3
    ensures key in PendingAfter(h + [Sweep(now)]) ==> RetryReports(h + [Sweep(now)], key) == RetryReports(h, key) + 1
  {
    hide IsAged;
    RetriesAreCounted(h, key);
    assert (h + [Sweep(now)])[..|h|] == h;
  }

  // ----- when a message is given up, in terms of time alone

  /** A message not acknowledged and not sent again, as far as `h` goes. */
  predicate LeftAlone(h: seq<AckEvent>, key: u32) {
    forall e :: e in h ==> (e.Acked? ==> e.key != key) && (e.Sent? ==> e.key != key)
  }

  /** A run of sweeps chosen greedily: each is the first one more than three whole seconds after the one before. */
  datatype Spaced = Spaced(count: nat, last: int)

  /** The greedy choice from the sweeps of `h`, starting at time `t`. */
  function SpacedSweeps(h: seq<AckEvent>, t: int): Spaced {
    if h == [] then Spaced(0, t)
    else
      var c, e := SpacedSweeps(h[..|h| - 1], t), h[|h| - 1];
      if e.Sweep? && AgeSeconds(e.now, c.last) > RETRY_SECONDS then Spaced(c.count + 1, e.now) else c
  }

  lemma {:induction false} PendingAfterConcat(g: seq<AckEvent>, e: AckEvent)
    ensures PendingAfter(g + [e]) == Step(PendingAfter(g), e)
  {
    assert (g + [e])[..|g|] == g;
  }

  /**
   A message sent at time `t` waits exactly until the fourth of the greedily spaced sweeps, and its
   entry holds how many there were and when the last one was, whatever happens to other messages.
   */
  lemma {:induction false} WaitsForSpacedSweeps(g: seq<AckEvent>, sent: AckEvent, h: seq<AckEvent>)
    requires sent.Sent? && LeftAlone(h, sent.key)
    ensures var pending := PendingAfter(g + [sent] + h);
            var c := SpacedSweeps(h, sent.now);
            if c.count <= MAX_RETRIES
            then sent.key in pending
                 && pending[sent.key] == PendingAck(sent.dest, c.count, c.last, sent.message, sent.key)
            else sent.key !in pending
  {
    hide AgeSeconds;
    var start := g + [sent];
    if h == [] {
      assert start + h == start;
      PendingAfterConcat(g, sent);
    } else {
      var init, e := h[..|h| - 1], h[|h| - 1];
      assert e in h && forall x :: x in init ==> x in h;
      WaitsForSpacedSweeps(g, sent, init);
      assert start + h == (start + init) + [e];
      PendingAfterConcat(start + init, e);
    }
  }

  lemma SpacedStep(h: seq<AckEvent>, now: int, t: int)
    ensures var c := SpacedSweeps(h, t);
            SpacedSweeps(h + [Sweep(now)], t)
            == if AgeSeconds(now, c.last) > RETRY_SECONDS then Spaced(c.count + 1, now) else c
  {
    hide AgeSeconds;
    assert (h + [Sweep(now)])[..|h|] == h;
  }

  /**
   So it is reported failed by exactly the sweep that is the fourth of them, and retried by the
   three before; every other sweep passes it over.
   */
  lemma FailedAtFourthSpacedSweep(g: seq<AckEvent>, sent: AckEvent, h: seq<AckEvent>, now: int)
    requires sent.Sent? && LeftAlone(h, sent.key)
    ensures var pending := PendingAfter(g + [sent] + h);
            var before, after := SpacedSweeps(h, sent.now).count, SpacedSweeps(h + [Sweep(now)], sent.now).count;
            && (sent.key in pending && Fails(pending[sent.key], now) <==> before == 3 && after == 4)
            && (sent.key in pending && Retries(pending[sent.key], now) <==> before < 3 && after == before + 1)
  {
    hide AgeSeconds, SpacedSweeps;
    WaitsForSpacedSweeps(g, sent, h);
    SpacedStep(h, now, sent.now);
  }

  /** Four of them take sixteen seconds at least: no message is given up earlier. */
  lemma {:induction false} SpacedSweepsTakeTime(h: seq<AckEvent>, t: int)
    ensures SpacedSweeps(h, t).last >= t + 4 * NANOS_PER_SECOND * SpacedSweeps(h, t).count
  {
    if h != [] {
      SpacedSweepsTakeTime(h[..|h| - 1], t);
    }
  }

  /** The time of the last sweep of `h`, or `t`. */
  function LastSweep(h: seq<AckEvent>, t: int): int {
    if h == [] then t
    else if h[|h| - 1].Sweep? then h[|h| - 1].now
    else LastSweep(h[..|h| - 1], t)
  }

  /** From time `t` on, sweeps come in time order, each at most `gap` after the one before. */
  ghost predicate Steady(h: seq<AckEvent>, t: int, gap: nat) {
    if h == [] then true
    else
      var g, e := h[..|h| - 1], h[|h| - 1];
      Steady(g, t, gap) && (e.Sweep? ==> LastSweep(g, t) <= e.now <= LastSweep(g, t) + gap)
  }

  lemma {:induction false} SteadySweepsCatchUp(h: seq<AckEvent>, t: int, gap: nat)
    requires Steady(h, t, gap)
    ensures var c := SpacedSweeps(h, t);
            && c.last <= LastSweep(h, t) < c.last + 4 * NANOS_PER_SECOND
            && c.last <= t + (4 * NANOS_PER_SECOND + gap) * c.count
  {
    if h != [] {
      var g, e := h[..|h| - 1], h[|h| - 1];
      SteadySweepsCatchUp(g, t, gap);
      var c := SpacedSweeps(g, t);
      var d := 4 * NANOS_PER_SECOND + gap;
      assert d * (c.count + 1) == d * c.count + d;
    }
  }

  /** A message is given up no earlier than 16 seconds after it was sent, and for certain three gaps later. */
  lemma GivenUpInTime(g: seq<AckEvent>, sent: AckEvent, h: seq<AckEvent>, gap: nat)
    requires sent.Sent? && LeftAlone(h, sent.key) && Steady(h, sent.now, gap)
    ensures var age := LastSweep(h, sent.now) - sent.now;
            && (sent.key !in PendingAfter(g + [sent] + h) ==> age >= 16 * NANOS_PER_SECOND)
            && (age >= 16 * NANOS_PER_SECOND + 3 * gap ==> sent.key !in PendingAfter(g + [sent] + h))
  {
    hide AgeSeconds, SpacedSweeps, PendingAfter, Steady, LastSweep;
    WaitsForSpacedSweeps(g, sent, h);
    SpacedSweepsTakeTime(h, sent.now);
    SteadySweepsCatchUp(h, sent.now, gap);
    var c := SpacedSweeps(h, sent.now);
    if c.count <= 3 {
      assert (4 * NANOS_PER_SECOND + gap) * c.count <= (4 * NANOS_PER_SECOND + gap) * 3;
    }
  }

  // ----- progress

  /** The sum of 4 - retries over the keys below `n`. */
  ghost function Patience(pending: Pending, n: nat): int {
    if n == 0 then 0
    else
      var waits := n - 1 < 0x1_0000_0000 && n - 1 in pending;
      Patience(pending, n - 1) + (if waits then 4 - pending[n - 1].retries else 0)
  }

  ghost function AgedBelow(pending: Pending, now: int, n: nat): nat {
    if n == 0 then 0
    else
      var aged := n - 1 < 0x1_0000_0000 && n - 1 in pending && IsAged(pending[n - 1], now);
      AgedBelow(pending, now, n - 1) + (if aged then 1 else 0)
  }

  /** A sweep lowers the sum by exactly one for every aged entry, as long as no counter exceeds 3. */
  lemma {:induction false} SweepSpendsPatience(pending: Pending, now: int, n: nat)
    requires forall k :: k in pending ==> pending[k].retries <= MAX_RETRIES
    ensures Patience(Swept(pending, now), n) == Patience(pending, n) - AgedBelow(pending, now, n)
  {
    hide IsAged;
    if n != 0 {
      SweepSpendsPatience(pending, now, n - 1);
    }
  }
}
