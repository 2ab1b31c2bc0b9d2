/** The acknowledgement table over whole runs of a node. */
module NodeAcks {
  import opened Bytes
  import opened Packets
  import opened MacText
  import opened Envelope
  import opened Fragments
  import opened RueStore
  import opened Acks
  import opened NodeSpec
  import opened Delivery

  /** What `e` means to the acknowledgement table of a node in state `s`. */
  ghost function AckEventOf(s: NodeState, e: NodeEvent): Option<AckEvent>
    requires Allowed(e)
  {
    match e
    case Received(p, _) =>
      if p.header.source != s.mac && p.header.kind == PacketType.Ack && p.header.payloadLen >= 4
      then Some(Acked(AckedKey(p))) else None
    case Commanded(target, message, iv, clock) =>
      if SendPackets(s, target, message, iv) != [] && Reachable(s, target, clock.seconds)
      then Some(Sent(s.nextAckSeq, StringToMac(target), message, clock.nanos)) else None
    case SweptAcks(now) => Some(Sweep(now))
    case _ => None
  }

  ghost function AckHistory(s: NodeState, h: seq<NodeEvent>): seq<AckEvent>
    requires Storable(s.queue) && AllAllowed(h)
  {
    if h == [] then []
    else
      var g := h[..|h| - 1];
      AckHistory(s, g)
      + (match AckEventOf(NodeAfter(s, g), h[|h| - 1]) case None => [] case Some(a) => [a])
  }

  lemma LearnFrame(s: NodeState, p: Packet, now: u64)
    requires p.header.payloadLen <= MAX_PAYLOAD_SIZE
    ensures var t := Learn(s, p, now); t == s.(table := t.table)
  {
  }

  lemma TakeByTypePending(s: NodeState, p: Packet, clock: Clock)
    requires p.header.payloadLen <= MAX_PAYLOAD_SIZE
    ensures TakeByType(s, p, clock).0.pending
         == if p.header.kind == PacketType.Ack && p.header.payloadLen >= 4 then s.pending - {AckedKey(p)} else s.pending
  {
    hide AnswerDiscovery, TakeData, Learn, AckedKey;
    AnswerFrame(s, p.header.source);
    TakeDataFrame(s, p, clock);
    LearnFrame(s, p, clock.seconds);
  }

  lemma StepPending(s: NodeState, e: NodeEvent)
    requires Storable(s.queue) && Allowed(e)
    ensures NodeStep(s, e).0.pending
         == match AckEventOf(s, e) case None => s.pending case Some(a) => Step(s.pending, a)
  {
    hide SendPackets, Reachable, StringToMac, Swept, AckedKey, For, NotFor, TakeByType, Seal, PairSchedule;
    if e.Received? && e.p.header.source != s.mac {
      ForStorable(s.queue, e.p.header.source);
      HearFrame(s, e.p.header.source, e.clock.seconds);
      TakeByTypePending(Drain(Hear(s, e.p.header.source, e.clock.seconds), e.p.header.source), e.p, e.clock);
    }
  }

  lemma {:induction false} PendingFollowsHistory(s: NodeState, h: seq<NodeEvent>)
    requires Storable(s.queue) && AllAllowed(h) && s.pending == map[]
    ensures NodeAfter(s, h).pending == PendingAfter(AckHistory(s, h))
  {
    if h != [] {
      hide NodeStep, AckEventOf, Step;
      var g, e := h[..|h| - 1], h[|h| - 1];
      assert e in h;
      PendingFollowsHistory(s, g);
      StepPending(NodeAfter(s, g), e);
      match AckEventOf(NodeAfter(s, g), e)
      case None => assert AckHistory(s, h) == AckHistory(s, g);
      case Some(a) =>
        assert AckHistory(s, h) == AckHistory(s, g) + [a];
        assert AckHistory(s, h)[..|AckHistory(s, h)| - 1] == AckHistory(s, g);
    }
  }

  /** In every run of a node, whatever else it does, a message waits through at most three retries. */
  lemma NodeRetriesBounded(s: NodeState, h: seq<NodeEvent>, key: u32)
    requires Storable(s.queue) && AllAllowed(h) && s.pending == map[]
    requires key in NodeAfter(s, h).pending
    ensures NodeAfter(s, h).pending[key].retries == RetryReports(AckHistory(s, h), key) <= MAX_RETRIES
  {
    hide NodeAfter, AckHistory, RetryReports, PendingAfter;
    PendingFollowsHistory(s, h);
    RetriesAreCounted(AckHistory(s, h), key);
  }

  /**
   In every run of a node, a message neither acknowledged nor sent again under its number is given
   up no earlier than 16 seconds after it was sent, and, when sweeps come at most `gap` apart, for
   certain three gaps later.
   */
  lemma NodeGivesUpInTime(s: NodeState, h: seq<NodeEvent>, g: seq<AckEvent>, sent: AckEvent, rest: seq<AckEvent>,
                          gap: nat)
    requires Storable(s.queue) && AllAllowed(h) && s.pending == map[]
    requires AckHistory(s, h) == g + [sent] + rest && sent.Sent?
    requires LeftAlone(rest, sent.key) && Steady(rest, sent.now, gap)
    ensures var age := LastSweep(rest, sent.now) - sent.now;
            && (sent.key !in NodeAfter(s, h).pending ==> age >= 16 * NANOS_PER_SECOND)
            && (age >= 16 * NANOS_PER_SECOND + 3 * gap ==> sent.key !in NodeAfter(s, h).pending)
  {
    hide NodeAfter, AckHistory, PendingAfter, LastSweep, Steady;
    PendingFollowsHistory(s, h);
    GivenUpInTime(g, sent, rest, gap);
  }
}
