/** Messages from one node to another, over whole runs of the two nodes. */
module Delivery {
  import opened Bytes
  import opened Packets
  import opened MacText
  import opened AesBlock
  import opened KeySchedule
  import opened PairKeys
  import opened Envelope
  import opened Fragments
  import opened Reassembly
  import opened RueStore
  import opened Routing
  import opened Acks
  import opened NodeSpec

  // ----- runs of a node

  datatype NodeEvent =
    | Received(p: Packet, clock: Clock)
    | Commanded(target: string, message: seq<byte>, iv: Block, clock: Clock)
    | Greeted(ttl: u8)
    | SweptAcks(now: int)
    | DroppedStale(now: int, maxAge: u32)

  predicate Allowed(e: NodeEvent) {
    match e
    case Received(p, _) => p.header.payloadLen <= MAX_PAYLOAD_SIZE
    case Commanded(_, message, _, _) => |message| <= WORK_BYTES
    case _ => true
  }

  predicate AllAllowed(h: seq<NodeEvent>) {
    forall e :: e in h ==> Allowed(e)
  }

  /** What a received packet changes besides the reassembly table, and what it leaves alone. */
  lemma ReceiveKeeps(s: NodeState, p: Packet, clock: Clock)
    requires p.header.payloadLen <= MAX_PAYLOAD_SIZE && Storable(s.queue)
    ensures var t := Receive(s, p, clock).0;
            && Storable(t.queue) && t.mac == s.mac && t.baseKey == s.baseKey
            && t.queue == (if p.header.source == s.mac then s.queue else NotFor(s.queue, p.header.source))
            && t.partials == (if p.header.source != s.mac && p.header.kind == Data && IsFragment(p)
                              then Reassemble(s.partials, p, REASSEMBLY_BYTES, clock.nanos).0 else s.partials)
  {
    hide Reassemble, Hear, TakeByType, IsFragment, For, NotFor;
    HearFrame(s, p.header.source, clock.seconds);
    ForStorable(s.queue, p.header.source);
    TakeByTypeFrame(Drain(Hear(s, p.header.source, clock.seconds), p.header.source), p, clock);
  }

  lemma SendKeeps(s: NodeState, target: string, message: seq<byte>, iv: Block, clock: Clock)
    requires |message| <= WORK_BYTES && Storable(s.queue)
    ensures var t := Send(s, target, message, iv, clock).0;
            && Storable(t.queue) && t.mac == s.mac && t.baseKey == s.baseKey && t.partials == s.partials
            && (t.queue == s.queue
                || t.queue == s.queue + Stored(SendPackets(s, target, message, iv), StringToMac(target), clock.seconds))
  {
    hide Seal, SendPackets, StringToMac, PairSchedule, FindNextHop;
  }

  ghost function NodeStep(s: NodeState, e: NodeEvent): (r: (NodeState, Output))
    requires Storable(s.queue) && Allowed(e)
    ensures Storable(r.0.queue) && r.0.mac == s.mac && r.0.baseKey == s.baseKey
  {
    match e
    case Received(p, clock) =>
      ReceiveKeeps(s, p, clock);
      Receive(s, p, clock)
    case Commanded(target, message, iv, clock) =>
      SendKeeps(s, target, message, iv, clock);
      (Send(s, target, message, iv, clock).0, SILENCE)
    case Greeted(ttl) => (s.(seqNum := NextSeq(s.seqNum)), SILENCE)
    case SweptAcks(now) => (s.(pending := Swept(s.pending, now)), SILENCE)
    case DroppedStale(now, maxAge) => (s.(partials := Cleanup(s.partials, now, maxAge)), SILENCE)
  }

  ghost function NodeAfter(s: NodeState, h: seq<NodeEvent>): (t: NodeState)
    requires Storable(s.queue) && AllAllowed(h)
    ensures Storable(t.queue) && t.mac == s.mac && t.baseKey == s.baseKey
  {
    if h == [] then s else NodeStep(NodeAfter(s, h[..|h| - 1]), h[|h| - 1]).0
  }

  /** What the last event of `h` made the node do. */
  ghost function LastOutputOf(s: NodeState, h: seq<NodeEvent>): Output
    requires Storable(s.queue) && AllAllowed(h) && h != []
  {
    NodeStep(NodeAfter(s, h[..|h| - 1]), h[|h| - 1]).1
  }

  // ----- the part of a run that reassembly sees

  predicate IsFragmentFor(mac: Mac, e: NodeEvent) {
    e.Received? && e.p.header.source != mac && e.p.header.kind == Data && IsFragment(e.p)
  }

  function Project(mac: Mac, h: seq<NodeEvent>): seq<Event> {
    if h == [] then []
    else
      var e := h[|h| - 1];
      Project(mac, h[..|h| - 1])
      + (if IsFragmentFor(mac, e) then [Arrive(e.p, e.clock.nanos)]
         else if e.DroppedStale? then [Evict(e.now, e.maxAge)]
         else [])
  }

  lemma StepPartials(s: NodeState, e: NodeEvent)
    requires Storable(s.queue) && Allowed(e)
    ensures NodeStep(s, e).0.partials
         == if IsFragmentFor(s.mac, e) then Reassemble(s.partials, e.p, REASSEMBLY_BYTES, e.clock.nanos).0
            else if e.DroppedStale? then Cleanup(s.partials, e.now, e.maxAge)
            else s.partials
  {
    hide Reassemble, Receive, Send, IsFragment, Cleanup, Swept;
    if e.Received? {
      ReceiveKeeps(s, e.p, e.clock);
    } else if e.Commanded? {
      SendKeeps(s, e.target, e.message, e.iv, e.clock);
    }
  }

  lemma ProjectUnfold(mac: Mac, h: seq<NodeEvent>)
    requires h != []
    ensures var g := Project(mac, h[..|h| - 1]); var e := h[|h| - 1];
            Project(mac, h)
            == if IsFragmentFor(mac, e) then g + [Arrive(e.p, e.clock.nanos)]
               else if e.DroppedStale? then g + [Evict(e.now, e.maxAge)]
               else g
  {
    hide IsFragment;
  }

  lemma TableUnfold(start: Partials, g: seq<Event>, e: Event, maxOut: nat)
    requires Sendable(g) && Sendable([e])
    ensures Sendable(g + [e])
    ensures TableAfter(start, g + [e], maxOut) == StepOn(TableAfter(start, g, maxOut), e, maxOut).0
    ensures LastOutput(start, g + [e], maxOut) == StepOn(TableAfter(start, g, maxOut), e, maxOut).1
  {
    hide StepOn;
    assert e in [e];
    assert (g + [e])[..|g|] == g;
  }

  lemma IsFragmentReceived(mac: Mac, e: NodeEvent)
    requires IsFragmentFor(mac, e)
    ensures e.Received?
  {
    hide IsFragment;
  }

  lemma OneSendable(e: Event)
    requires e.Arrive? ==> e.p.header.payloadLen <= MAX_PAYLOAD_SIZE
    ensures Sendable([e])
  {
  }

  lemma NodeAfterUnfold(s: NodeState, h: seq<NodeEvent>)
    requires Storable(s.queue) && AllAllowed(h) && h != []
    ensures NodeAfter(s, h) == NodeStep(NodeAfter(s, h[..|h| - 1]), h[|h| - 1]).0
  {
  }

  /** The reassembly table of a node is the one of its fragments and evictions alone. */
  lemma {:induction false} PartialsFollowProjection(s: NodeState, h: seq<NodeEvent>)
    requires Storable(s.queue) && AllAllowed(h)
    ensures Sendable(Project(s.mac, h))
    ensures NodeAfter(s, h).partials == TableAfter(s.partials, Project(s.mac, h), REASSEMBLY_BYTES)
  {
    if h != [] {
      hide Reassemble, NodeStep, NodeAfter, IsFragmentFor, Cleanup, Project, TableAfter, Storable, Sendable;
      var g, e := h[..|h| - 1], h[|h| - 1];
      assert e in h;
      PartialsFollowProjection(s, g);
      NodeAfterUnfold(s, h);
      StepPartials(NodeAfter(s, g), e);
      ProjectUnfold(s.mac, h);
      if IsFragmentFor(s.mac, e) {
        IsFragmentReceived(s.mac, e);
        OneSendable(Arrive(e.p, e.clock.nanos));
        TableUnfold(s.partials, Project(s.mac, g), Arrive(e.p, e.clock.nanos), REASSEMBLY_BYTES);
      } else if e.DroppedStale? {
        OneSendable(Evict(e.now, e.maxAge));
        TableUnfold(s.partials, Project(s.mac, g), Evict(e.now, e.maxAge), REASSEMBLY_BYTES);
      }
    }
  }

  // ----- end to end

  /** What a fragment makes a node deliver. */
  lemma FragmentOutput(s: NodeState, p: Packet, clock: Clock)
    requires p.header.payloadLen <= MAX_PAYLOAD_SIZE && Storable(s.queue)
    requires p.header.source != s.mac && p.header.kind == Data && IsFragment(p)
    ensures Receive(s, p, clock).1.delivered
         == match Reassemble(s.partials, p, REASSEMBLY_BYTES, clock.nanos).1
            case None => None
            case Some(sealed) =>
              var text := Open(PairSchedule(s, p.header.source), sealed, REASSEMBLY_BYTES);
              if text != [] && p.header.dest == s.mac then Some(text) else None
  {
    hide Reassemble, Open, DecodeHeader, MacToString, PairKey, Expand, For, NotFor, AckPacket, ForwardOf, DrainPackets,
         IsFragment;
    HearFrame(s, p.header.source, clock.seconds);
    ForStorable(s.queue, p.header.source);
  }

  lemma SealedLength(w: Schedule, iv: Block, plain: seq<byte>)
    requires 1 <= |plain| <= 1007
    ensures |Seal(w, iv, plain, MESSAGE_BYTES)| == 16 + (|plain| + 16) / 16 * 16 <= 1024
    ensures |Seal(w, iv, plain, MESSAGE_BYTES)| > MAX_FRAG_PAYLOAD <==> |plain| >= 464
  {
  }

  /** What `a` sends to `s` for `plain`. */
  function SealedFor(s: NodeState, a: Mac, iv: Block, plain: seq<byte>): seq<byte>
    requires |plain| <= WORK_BYTES
  {
    Seal(Expand(PairKey(a, s.mac, s.baseKey)), iv, plain, MESSAGE_BYTES)
  }

  /** The node takes `e` for a fragment of `id`. */
  predicate IsFragmentOf(mac: Mac, e: NodeEvent, id: u16) {
    IsFragmentFor(mac, e) && DecodeHeader(e.p.payload).msgId == id
  }

  /** While `h` lasts, `id` belongs to one message: what is taken for a fragment of it is a piece of `msg`. */
  ghost predicate PureRun(mac: Mac, h: seq<NodeEvent>, id: u16, msg: seq<byte>) {
    forall e :: e in h && IsFragmentOf(mac, e, id) ==> IsPiece(e.p, id, msg, DecodeHeader(e.p.payload).index)
  }

  lemma CarriedFragment(mac: Mac, e: NodeEvent, id: u16)
    requires IsFragmentFor(mac, e)
    ensures var a := Arrive(e.p, e.clock.nanos);
            (Carries(a, id) <==> IsFragmentOf(mac, e, id)) && IndexIn(a) == DecodeHeader(e.p.payload).index
  {
    hide DecodeHeader;
  }

  lemma {:induction false} ProjectPure(mac: Mac, h: seq<NodeEvent>, id: u16, msg: seq<byte>)
    requires PureRun(mac, h, id, msg)
    ensures Pure(Project(mac, h), id, msg)
  {
    if h != [] {
      hide DecodeHeader, Project, IsFragmentFor, IsPiece, Carries, IndexIn;
      var g, e := h[..|h| - 1], h[|h| - 1];
      assert e in h && forall x :: x in g ==> x in h;
      ProjectPure(mac, g, id, msg);
      ProjectUnfold(mac, h);
      if IsFragmentFor(mac, e) {
        IsFragmentReceived(mac, e);
        CarriedFragment(mac, e, id);
      } else if e.DroppedStale? {
        NothingCarried(Evict(e.now, e.maxAge), id);
      }
    }
  }

  lemma ArriveStep(partials: Partials, p: Packet, now: int)
    requires p.header.payloadLen <= MAX_PAYLOAD_SIZE
    ensures StepOn(partials, Arrive(p, now), REASSEMBLY_BYTES) == Reassemble(partials, p, REASSEMBLY_BYTES, now)
  {
    hide Reassemble;
  }

  lemma ReceivedStep(s: NodeState, p: Packet, clock: Clock)
    requires p.header.payloadLen <= MAX_PAYLOAD_SIZE && Storable(s.queue)
    ensures NodeStep(s, Received(p, clock)) == Receive(s, p, clock)
  {
    hide Receive;
  }

  /**
   From any state that holds nothing under `id`, a node runs in any way: fragments arrive in any
   order, any number of times, mixed with the fragments of other messages, with packets of any
   content, with evictions and with every other kind of event. A fragment of a sealed message makes
   it deliver exactly the plaintext, under the key it derives for itself, when it completes the
   indices received since the message was last completed or evicted, and nothing otherwise.
   */
  lemma DeliveryIsCompletion(s: NodeState, h: seq<NodeEvent>, a: Mac, iv: Block, plain: seq<byte>, id: u16)
    requires Storable(s.queue) && AllAllowed(h) && id !in s.partials
    requires 464 <= |plain| <= 1007 && PureRun(s.mac, h, id, SealedFor(s, a, iv, plain))
    requires h != [] && IsFragmentOf(s.mac, h[|h| - 1], id)
    requires var p := h[|h| - 1].p; p.header.source == a && p.header.dest == s.mac
    ensures var sealed := SealedFor(s, a, iv, plain);
            var events := Project(s.mac, h[..|h| - 1]);
            LastOutputOf(s, h).delivered
            == if Collected(events, id, sealed) + {DecodeHeader(h[|h| - 1].p.payload).index}
                  == Indices(FragTotal(|sealed|))
               then Some(plain) else None
  {
    hide Receive, Reassemble, DecodeHeader, Seal, Open, PairKey, Expand, Project, NodeStep, NodeAfter, Collected,
         Indices, FragTotal, Pure, PureRun, StepOn, IsFragment, TableAfter, Carries, IndexIn;
    var g, e := h[..|h| - 1], h[|h| - 1];
    assert e in h;
    var before := NodeAfter(s, g);
    var events := Project(s.mac, g);
    var sealed := SealedFor(s, a, iv, plain);
    var arrive := Arrive(e.p, e.clock.nanos);
    SealedLength(Expand(PairKey(a, s.mac, s.baseKey)), iv, plain);
    PartialsFollowProjection(s, g);
    PartialsFollowProjection(s, h);
    ProjectPure(s.mac, h, id, sealed);
    ProjectUnfold(s.mac, h);
    assert Project(s.mac, h) == events + [arrive];
    assert (events + [arrive])[..|events|] == events;
    CarriedFragment(s.mac, e, id);
    OutputIsCompletion(s.partials, Project(s.mac, h), id, sealed, REASSEMBLY_BYTES);
    ArriveStep(before.partials, e.p, e.clock.nanos);
    ReceivedStep(before, e.p, e.clock);
    FragmentOutput(before, e.p, e.clock);
    PairKeySymmetric(a, s.mac, s.baseKey);
    OpenOfSeal(Expand(PairKey(a, s.mac, s.baseKey)), iv, plain, MESSAGE_BYTES, REASSEMBLY_BYTES);
  }

  lemma TimelyPrefix(g: seq<Event>, e: Event, id: u16)
    requires Timely(g + [e], id)
    ensures Timely(g, id)
  {
    hide Arrived, LastSeen;
    var h := g + [e];
    assert forall k :: 0 <= k < |g| ==> g[k] == h[k] && g[..k] == h[..k];
  }

  lemma ArrivedUnfold(g: seq<Event>, e: Event, id: u16)
    ensures Arrived(g + [e], id) == Arrived(g, id) + (if Carries(e, id) then {IndexIn(e)} else {})
  {
    hide Carries, IndexIn;
    assert (g + [e])[..|g|] == g;
  }

  /**
   When besides no eviction comes too late after a fragment of the message, the fragment that brings
   in the last missing index makes the node deliver the plaintext, and the ones before it nothing.
   */
  lemma EndToEnd(s: NodeState, h: seq<NodeEvent>, a: Mac, iv: Block, plain: seq<byte>, id: u16)
    requires Storable(s.queue) && AllAllowed(h) && id !in s.partials
    requires 464 <= |plain| <= 1007 && PureRun(s.mac, h, id, SealedFor(s, a, iv, plain))
    requires Timely(Project(s.mac, h), id)
    requires h != [] && IsFragmentOf(s.mac, h[|h| - 1], id)
    requires var p := h[|h| - 1].p; p.header.source == a && p.header.dest == s.mac
    requires Arrived(Project(s.mac, h[..|h| - 1]), id) != Indices(FragTotal(|SealedFor(s, a, iv, plain)|))
    ensures LastOutputOf(s, h).delivered
         == if Arrived(Project(s.mac, h), id) == Indices(FragTotal(|SealedFor(s, a, iv, plain)|)) then Some(plain)
            else None
  {
    hide DecodeHeader, SealedFor, Project, Collected, Indices, FragTotal, Pure, Timely, IsFragmentFor, LastOutputOf,
         Carries, IndexIn, IsPiece;
    var g, e := h[..|h| - 1], h[|h| - 1];
    var sealed := SealedFor(s, a, iv, plain);
    IsFragmentReceived(s.mac, e);
    DeliveryIsCompletion(s, h, a, iv, plain, id);
    ProjectPure(s.mac, g, id, sealed);
    ProjectUnfold(s.mac, h);
    TimelyPrefix(Project(s.mac, g), Arrive(e.p, e.clock.nanos), id);
    CollectedUntilComplete(Project(s.mac, g), id, sealed);
    CarriedFragment(s.mac, e, id);
    ArrivedUnfold(Project(s.mac, g), Arrive(e.p, e.clock.nanos), id);
  }

  lemma SplitHeader(data: seq<byte>, kind: PacketType, src: Mac, dst: Mac, seqNum: u32, msgId: u16, i: nat)
    requires MAX_FRAG_PAYLOAD < |data| && i < FragTotal(|data|)
    ensures var h := Split(data, kind, src, dst, seqNum, msgId)[i].header;
            h.kind == kind && h.source == src && h.dest == dst
  {
    FragmentPacketIs(data, kind, src, dst, seqNum, msgId, i);
  }

  /** The packets of a message long enough to be split: all pieces of what was sealed, all taken for fragments. */
  lemma SentPackets(s: NodeState, dest: Mac, plain: seq<byte>, iv: Block)
    requires 464 <= |plain| <= 1007
    ensures var sealed := Seal(PairSchedule(s, dest), iv, plain, MESSAGE_BYTES);
            var packets := SendPackets(s, MacToString(dest), plain, iv);
            && MAX_FRAG_PAYLOAD < |sealed| <= 1024 && |packets| == FragTotal(|sealed|)
            && forall i :: 0 <= i < |packets| ==>
                 && IsPiece(packets[i], s.nextMsgId, sealed, i) && IsFragment(packets[i])
                 && packets[i].header.kind == Data && packets[i].header.source == s.mac
                 && packets[i].header.dest == dest
  {
    hide Seal, Split, MacToString, StringToMac, PairSchedule, DecodeHeader, Chunk, FragmentBody;
    var sealed := Seal(PairSchedule(s, dest), iv, plain, MESSAGE_BYTES);
    SealedLength(PairSchedule(s, dest), iv, plain);
    StringToMacOfMacToString(dest);
    assert FragTotal(|sealed|) > 1 by { TotalBounds(|sealed|); }
    SplitIsPieces(sealed, Data, s.mac, dest, s.seqNum, s.nextMsgId, 0);
    forall i | 0 <= i < FragTotal(|sealed|)
      ensures var p := Split(sealed, Data, s.mac, dest, s.seqNum, s.nextMsgId)[i];
              IsPiece(p, s.nextMsgId, sealed, i) && IsFragment(p)
              && p.header.kind == Data && p.header.source == s.mac && p.header.dest == dest
    {
      SplitIsPieces(sealed, Data, s.mac, dest, s.seqNum, s.nextMsgId, i);
      SplitHeader(sealed, Data, s.mac, dest, s.seqNum, s.nextMsgId, i);
    }
  }

  /** The run in which the node receives `packets` one after the other. */
  function ReceivedInOrder(packets: seq<Packet>, clock: Clock): seq<NodeEvent> {
    seq(|packets|, i requires 0 <= i < |packets| => Received(packets[i], clock))
  }

  /** `packets` are the pieces of `sealed`, one for each index, on their way from `a` to `b`. */
  ghost predicate PiecesBetween(packets: seq<Packet>, a: Mac, b: Mac, id: u16, sealed: seq<byte>) {
    && |packets| == FragTotal(|sealed|)
    && forall i :: 0 <= i < |packets| ==>
         && IsPiece(packets[i], id, sealed, i) && IsFragment(packets[i])
         && packets[i].header.kind == Data && packets[i].header.source == a && packets[i].header.dest == b
  }

  lemma {:induction false} ProjectInOrder(packets: seq<Packet>, clock: Clock, a: Mac, b: Mac, id: u16,
                                          sealed: seq<byte>, n: nat)
    requires PiecesBetween(packets, a, b, id, sealed) && a != b && n <= |packets|
    ensures Project(b, ReceivedInOrder(packets, clock)[..n]) == InOrder(packets, clock.nanos)[..n]
  {
    hide IsPiece, IsFragment, FragTotal;
    if n > 0 {
      ProjectInOrder(packets, clock, a, b, id, sealed, n - 1);
      var h := ReceivedInOrder(packets, clock)[..n];
      assert h[..|h| - 1] == ReceivedInOrder(packets, clock)[..n - 1];
      assert IsFragmentFor(b, h[n - 1]);
    }
  }

  lemma PieceBounds(packets: seq<Packet>, a: Mac, b: Mac, id: u16, sealed: seq<byte>)
    requires PiecesBetween(packets, a, b, id, sealed)
    ensures forall i :: 0 <= i < |packets| ==>
              && packets[i].header.payloadLen <= MAX_PAYLOAD_SIZE
              && DecodeHeader(packets[i].payload).msgId == id && DecodeHeader(packets[i].payload).index == i
  {
    hide DecodeHeader, FragTotal, Chunk;
  }

  /** In particular the pieces, received one after the other by a node that holds nothing under their id. */
  lemma DeliveredInOrder(s: NodeState, packets: seq<Packet>, a: Mac, id: u16, plain: seq<byte>, iv: Block, clock: Clock)
    requires Storable(s.queue) && id !in s.partials && a != s.mac && 464 <= |plain| <= 1007
    requires PiecesBetween(packets, a, s.mac, id, SealedFor(s, a, iv, plain))
    ensures var h := ReceivedInOrder(packets, clock);
            h != [] && AllAllowed(h) && LastOutputOf(s, h).delivered == Some(plain)
  {
    hide DecodeHeader, FragTotal, Seal, PairKey, Expand, Indices, NodeStep, NodeAfter, LastOutputOf, IsPiece,
         IsFragment, Pure, Timely, Arrived, Project, Carries, IndexIn;
    var sealed := SealedFor(s, a, iv, plain);
    SealedLength(Expand(PairKey(a, s.mac, s.baseKey)), iv, plain);
    var h := ReceivedInOrder(packets, clock);
    InOrderCompletes(packets, sealed, id, clock.nanos);
    ProjectInOrder(packets, clock, a, s.mac, id, sealed, |packets|);
    ProjectInOrder(packets, clock, a, s.mac, id, sealed, |packets| - 1);
    var events := InOrder(packets, clock.nanos);
    assert h[..|packets|] == h && events[..|packets|] == events;
    PieceBounds(packets, a, s.mac, id, sealed);
    EndToEnd(s, h, a, iv, plain, id);
  }

  // ----- any order

  /** The last event of `h` makes the node deliver `plain`. */
  ghost predicate Delivers(s: NodeState, h: seq<NodeEvent>, plain: seq<byte>)
    requires Storable(s.queue)
  {
    AllAllowed(h) && h != [] && LastOutputOf(s, h).delivered == Some(plain)
  }

  /** What the node takes for fragments of `id` comes from `a` and is meant for the node. */
  predicate AllFrom(a: Mac, mac: Mac, h: seq<NodeEvent>, id: u16) {
    forall e :: e in h && IsFragmentOf(mac, e, id) ==> e.p.header.source == a && e.p.header.dest == mac
  }

  lemma SealedIndices(s: NodeState, a: Mac, iv: Block, plain: seq<byte>)
    requires 464 <= |plain| <= 1007
    ensures 0 in Indices(FragTotal(|SealedFor(s, a, iv, plain)|))
  {
    hide Seal, PairKey, Expand, FragTotal;
    SealedLength(Expand(PairKey(a, s.mac, s.baseKey)), iv, plain);
    TotalBounds(|SealedFor(s, a, iv, plain)|);
  }

  lemma NothingArrived(mac: Mac, id: u16)
    ensures Arrived(Project(mac, []), id) == {}
  {
  }

  /** The last event changes what has arrived only when it is a fragment of `id`; what is timely stays so. */
  lemma LastArrival(mac: Mac, h: seq<NodeEvent>, id: u16)
    requires h != []
    ensures var e := h[|h| - 1];
            Arrived(Project(mac, h), id)
            == Arrived(Project(mac, h[..|h| - 1]), id)
               + (if IsFragmentOf(mac, e, id) then {DecodeHeader(e.p.payload).index as int} else {})
    ensures Timely(Project(mac, h), id) ==> Timely(Project(mac, h[..|h| - 1]), id)
  {
    hide DecodeHeader, Project, IsFragmentFor, Arrived, Timely, Carries, IndexIn;
    var g, e := Project(mac, h[..|h| - 1]), h[|h| - 1];
    ProjectUnfold(mac, h);
    if IsFragmentFor(mac, e) {
      IsFragmentReceived(mac, e);
      var arrive := Arrive(e.p, e.clock.nanos);
      CarriedFragment(mac, e, id);
      ArrivedUnfold(g, arrive, id);
      if Timely(g + [arrive], id) {
        TimelyPrefix(g, arrive, id);
      }
    } else if e.DroppedStale? {
      var evict := Evict(e.now, e.maxAge);
      NothingCarried(evict, id);
      ArrivedUnfold(g, evict, id);
      if Timely(g + [evict], id) {
        TimelyPrefix(g, evict, id);
      }
    }
  }

  /** A run in which every index of a message arrives delivers it at some moment. */
  lemma {:induction false} CompletionDelivers(s: NodeState, h: seq<NodeEvent>, a: Mac, iv: Block, plain: seq<byte>,
                                              id: u16)
    requires Storable(s.queue) && AllAllowed(h) && id !in s.partials
    requires 464 <= |plain| <= 1007 && PureRun(s.mac, h, id, SealedFor(s, a, iv, plain))
    requires AllFrom(a, s.mac, h, id) && Timely(Project(s.mac, h), id)
    requires Arrived(Project(s.mac, h), id) == Indices(FragTotal(|SealedFor(s, a, iv, plain)|))
    ensures exists k :: 0 <= k <= |h| && Delivers(s, h[..k], plain)
  {
    hide DecodeHeader, SealedFor, Project, Indices, FragTotal, Timely, IsFragmentFor, LastOutputOf, Arrived, Carries,
         IndexIn, IsPiece;
    var sealed := SealedFor(s, a, iv, plain);
    assert Indices(FragTotal(|sealed|)) != {} by { SealedIndices(s, a, iv, plain); }
    NothingArrived(s.mac, id);
    assert h != [];
    var g, e := h[..|h| - 1], h[|h| - 1];
    assert e in h && forall x :: x in g ==> x in h;
    ProjectUnfold(s.mac, h);
    LastArrival(s.mac, h, id);
    if Arrived(Project(s.mac, g), id) == Indices(FragTotal(|sealed|)) {
      CompletionDelivers(s, g, a, iv, plain, id);
      var k :| 0 <= k <= |g| && Delivers(s, g[..k], plain);
      assert g[..k] == h[..k];
    } else {
      EndToEnd(s, h, a, iv, plain, id);
      assert h[..|h|] == h;
    }
  }

  lemma {:induction false} ArrivedContains(mac: Mac, h: seq<NodeEvent>, e: NodeEvent, id: u16)
    requires e in h && IsFragmentOf(mac, e, id)
    ensures DecodeHeader(e.p.payload).index in Arrived(Project(mac, h), id)
  {
    hide DecodeHeader, Project, IsFragmentFor, Arrived;
    LastArrival(mac, h, id);
    if e != h[|h| - 1] {
      ArrivedContains(mac, h[..|h| - 1], e, id);
    }
  }

  /**
   The run brings every one of `packets`, in any order and any number of times, among any other
   events; nothing else is taken for a fragment of `id`, and no eviction comes too late.
   */
  ghost predicate BringsAll(s: NodeState, h: seq<NodeEvent>, packets: seq<Packet>, id: u16) {
    && (forall p :: p in packets ==> exists e :: e in h && e.Received? && e.p == p)
    && (forall e :: e in h && IsFragmentOf(s.mac, e, id) ==> e.p in packets)
    && Timely(Project(s.mac, h), id)
  }

  lemma AllIndices(s: set<int>, n: nat)
    requires s <= Indices(n) && forall i :: 0 <= i < n ==> i in s
    ensures s == Indices(n)
  {
  }

  /** The run does so up to some moment; what comes after it is arbitrary. */
  ghost predicate Brings(s: NodeState, h: seq<NodeEvent>, packets: seq<Packet>, id: u16) {
    exists n :: 0 <= n <= |h| && BringsAll(s, h[..n], packets, id)
  }

  lemma BringsAllDelivers(s: NodeState, h: seq<NodeEvent>, packets: seq<Packet>, a: Mac, iv: Block, plain: seq<byte>,
                          id: u16)
    requires Storable(s.queue) && AllAllowed(h) && id !in s.partials && a != s.mac
    requires 464 <= |plain| <= 1007 && PiecesBetween(packets, a, s.mac, id, SealedFor(s, a, iv, plain))
    requires BringsAll(s, h, packets, id)
    ensures exists k :: 0 <= k <= |h| && Delivers(s, h[..k], plain)
  {
    hide DecodeHeader, SealedFor, Project, Indices, FragTotal, Timely, IsFragment, LastOutputOf, Arrived, Carries,
         IndexIn, IsPiece, Delivers;
    var sealed := SealedFor(s, a, iv, plain);
    var total := FragTotal(|sealed|);
    PieceBounds(packets, a, s.mac, id, sealed);
    forall e | e in h && IsFragmentOf(s.mac, e, id)
      ensures IsPiece(e.p, id, sealed, DecodeHeader(e.p.payload).index)
      ensures e.p.header.source == a && e.p.header.dest == s.mac
    {
      var i :| 0 <= i < |packets| && packets[i] == e.p;
    }
    forall i | 0 <= i < total
      ensures i in Arrived(Project(s.mac, h), id)
    {
      assert packets[i] in packets;
      var e :| e in h && e.Received? && e.p == packets[i];
      ArrivedContains(s.mac, h, e, id);
    }
    ProjectPure(s.mac, h, id, sealed);
    CollectedUntilComplete(Project(s.mac, h), id, sealed);
    AllIndices(Arrived(Project(s.mac, h), id), total);
    CompletionDelivers(s, h, a, iv, plain, id);
  }

  /** The pieces of a message, received in any order by a node that holds nothing under their id, deliver it. */
  lemma AnyOrderDelivers(s: NodeState, h: seq<NodeEvent>, packets: seq<Packet>, a: Mac, iv: Block, plain: seq<byte>,
                         id: u16)
    requires Storable(s.queue) && AllAllowed(h) && id !in s.partials && a != s.mac
    requires 464 <= |plain| <= 1007 && PiecesBetween(packets, a, s.mac, id, SealedFor(s, a, iv, plain))
    requires Brings(s, h, packets, id)
    ensures exists k :: 0 <= k <= |h| && Delivers(s, h[..k], plain)
  {
    hide BringsAll, Delivers, PiecesBetween, SealedFor;
    var n :| 0 <= n <= |h| && BringsAll(s, h[..n], packets, id);
    BringsAllDelivers(s, h[..n], packets, a, iv, plain, id);
    var k :| 0 <= k <= n && Delivers(s, h[..n][..k], plain);
    assert h[..n][..k] == h[..k];
  }

  // ----- an id used again

  lemma CollectedUnfold(g: seq<Event>, e: Event, id: u16, msg: seq<byte>)
    requires Carries(e, id)
    ensures var now := Collected(g, id, msg) + {IndexIn(e)};
            Collected(g + [e], id, msg) == if now == Indices(FragTotal(|msg|)) then {} else now
  {
    hide Carries, IndexIn, FragTotal, Indices;
    assert (g + [e])[..|g|] == g;
  }

  /** Once a message is delivered its id is free: the theorems above apply again to what follows. */
  lemma IdIsFreeAgain(s: NodeState, h: seq<NodeEvent>, a: Mac, iv: Block, plain: seq<byte>, id: u16)
    requires Storable(s.queue) && AllAllowed(h) && id !in s.partials
    requires 464 <= |plain| <= 1007 && PureRun(s.mac, h, id, SealedFor(s, a, iv, plain))
    requires Timely(Project(s.mac, h), id)
    requires h != [] && IsFragmentOf(s.mac, h[|h| - 1], id)
    requires Arrived(Project(s.mac, h[..|h| - 1]), id) != Indices(FragTotal(|SealedFor(s, a, iv, plain)|))
    requires Arrived(Project(s.mac, h), id) == Indices(FragTotal(|SealedFor(s, a, iv, plain)|))
    ensures id !in NodeAfter(s, h).partials
  {
    hide DecodeHeader, Seal, PairKey, Expand, Project, Indices, FragTotal, Pure, Timely, IsFragmentFor, NodeAfter,
         Carries, IndexIn, IsPiece, TableAfter, Arrived, Collected;
    var g, e := h[..|h| - 1], h[|h| - 1];
    var sealed := SealedFor(s, a, iv, plain);
    IsFragmentReceived(s.mac, e);
    var events, arrive := Project(s.mac, g), Arrive(e.p, e.clock.nanos);
    SealedLength(Expand(PairKey(a, s.mac, s.baseKey)), iv, plain);
    PartialsFollowProjection(s, h);
    ProjectPure(s.mac, h, id, sealed);
    ProjectPure(s.mac, g, id, sealed);
    ProjectUnfold(s.mac, h);
    TimelyPrefix(events, arrive, id);
    CollectedUntilComplete(events, id, sealed);
    CarriedFragment(s.mac, e, id);
    ArrivedUnfold(events, arrive, id);
    CollectedUnfold(events, arrive, id, sealed);
    TableTracksHistory(s.partials, events + [arrive], id, sealed, REASSEMBLY_BYTES);
  }

  /** A run followed by another is one run. */
  lemma {:induction false} RunContinues(s: NodeState, g: seq<NodeEvent>, h: seq<NodeEvent>)
    requires Storable(s.queue) && AllAllowed(g) && AllAllowed(h)
    ensures AllAllowed(g + h) && NodeAfter(s, g + h) == NodeAfter(NodeAfter(s, g), h)
    ensures h != [] ==> LastOutputOf(s, g + h) == LastOutputOf(NodeAfter(s, g), h)
  {
    hide NodeStep;
    if h == [] {
      assert g + h == g;
    } else {
      var init := h[..|h| - 1];
      RunContinues(s, g, init);
      assert (g + h)[..|g + h| - 1] == g + init;
    }
  }

  // ----- short messages

  /** The one packet of a message that is not split. */
  lemma ShortPacket(s: NodeState, dest: Mac, plain: seq<byte>, iv: Block)
    requires 1 <= |plain| <= 463
    ensures var sealed := Seal(PairSchedule(s, dest), iv, plain, MESSAGE_BYTES);
            && 32 <= |sealed| <= MAX_FRAG_PAYLOAD && sealed[..16] == iv
            && SendPackets(s, MacToString(dest), plain, iv) == [NewPacket(Data, s.mac, dest, s.seqNum, sealed)]
  {
    hide MacToString, StringToMac, PairSchedule, NewPacket;
    SealedLength(PairSchedule(s, dest), iv, plain);
    StringToMacOfMacToString(dest);
    assert MacToString(dest) != "";
  }

  /** The bare packet is taken for a fragment exactly when byte 3 of the IV exceeds 1. */
  lemma ShortClassification(kind: PacketType, src: Mac, dest: Mac, seqNum: u32, sealed: seq<byte>)
    requires 32 <= |sealed| <= MAX_FRAG_PAYLOAD
    ensures IsFragment(NewPacket(kind, src, dest, seqNum, sealed)) <==> ToNat(sealed[3]) > 1
  {
    hide FromLe, ToNat;
    assert PadPayload(sealed)[3] == sealed[3];
  }

  lemma BareOutput(s: NodeState, p: Packet, clock: Clock)
    requires p.header.payloadLen <= MAX_PAYLOAD_SIZE && Storable(s.queue)
    requires p.header.source != s.mac && p.header.kind == Data && !IsFragment(p) && p.header.dest == s.mac
    ensures var text := Open(PairSchedule(s, p.header.source), p.Body(), MESSAGE_BYTES);
            Receive(s, p, clock).1.delivered == if text != [] then Some(text) else None
  {
    hide Open, DecodeHeader, MacToString, PairKey, Expand, For, NotFor, AckPacket, DrainPackets, IsFragment;
    HearFrame(s, p.header.source, clock.seconds);
    ForStorable(s.queue, p.header.source);
  }

  /** A lone fragment of several completes nothing. */
  lemma LoneFragment(partials: Partials, p: Packet, maxOut: nat, now: int)
    requires p.header.payloadLen <= MAX_PAYLOAD_SIZE && IsFragment(p)
    requires DecodeHeader(p.payload).msgId !in partials
    ensures Reassemble(partials, p, maxOut, now).1 == None
  {
    hide DecodeHeader;
    var fh := DecodeHeader(p.payload);
    var pieces: map<u8, seq<byte>> := map[];
    pieces := pieces[fh.index := p.payload[FRAG_HEADER_SIZE..p.header.payloadLen]];
    assert pieces.Keys == {fh.index};
    assert |pieces| == |pieces.Keys| == 1;
  }

  lemma NewPacketIs(kind: PacketType, src: Mac, dest: Mac, seqNum: u32, body: seq<byte>)
    requires |body| <= MAX_PAYLOAD_SIZE
    ensures var p := NewPacket(kind, src, dest, seqNum, body);
            && p.header.kind == kind && p.header.source == src && p.header.dest == dest && p.header.sequenceId == seqNum
            && p.header.payloadLen == |body| && p.Body() == body && p.payload == PadPayload(body)
            && p.header.ttl == DEFAULT_TTL && p.header.version == PROTOCOL_VERSION
  {
  }

  lemma HeaderIdOfPacket(kind: PacketType, src: Mac, dest: Mac, seqNum: u32, sealed: seq<byte>)
    requires 32 <= |sealed| <= MAX_FRAG_PAYLOAD
    ensures DecodeHeader(NewPacket(kind, src, dest, seqNum, sealed).payload).msgId == FromLe(sealed[0..2])
  {
    hide FromLe, ToNat;
    assert PadPayload(sealed)[0..2] == sealed[0..2];
  }

  /**
   A short message carries no fragment header, yet the receiver looks for one: the message of 1 to
   463 bytes is delivered exactly when byte 3 of its IV is at most 1, as long as no partial message
   is held under the id the receiver reads from bytes 0 and 1 of that IV.
   */
  lemma ShortDeliveryIff(sender: NodeState, receiver: NodeState, plain: seq<byte>, iv: Block, clock: Clock)
    requires 1 <= |plain| <= 463 && sender.baseKey == receiver.baseKey && sender.mac != receiver.mac
    requires Storable(receiver.queue) && FromLe(iv[0..2]) !in receiver.partials
    ensures var packets := SendPackets(sender, MacToString(receiver.mac), plain, iv);
            && |packets| == 1
            && (Receive(receiver, packets[0], clock).1.delivered == Some(plain) <==> ToNat(iv[3]) <= 1)
  {
    hide Receive, Reassemble, Seal, Open, MacToString, PairKey, Expand, NewPacket, SendPackets, FromLe, ToNat,
         IsFragment, DecodeHeader;
    var w := PairSchedule(sender, receiver.mac);
    var sealed := Seal(w, iv, plain, MESSAGE_BYTES);
    ShortPacket(sender, receiver.mac, plain, iv);
    var p := NewPacket(Data, sender.mac, receiver.mac, sender.seqNum, sealed);
    NewPacketIs(Data, sender.mac, receiver.mac, sender.seqNum, sealed);
    ShortClassification(Data, sender.mac, receiver.mac, sender.seqNum, sealed);
    assert sealed[3] == sealed[..16][3];
    PairKeySymmetric(sender.mac, receiver.mac, sender.baseKey);
    if IsFragment(p) {
      HeaderIdOfPacket(Data, sender.mac, receiver.mac, sender.seqNum, sealed);
      assert sealed[0..2] == sealed[..16][0..2];
      LoneFragment(receiver.partials, p, REASSEMBLY_BYTES, clock.nanos);
      FragmentOutput(receiver, p, clock);
    } else {
      BareOutput(receiver, p, clock);
      OpenOfSeal(w, iv, plain, MESSAGE_BYTES, MESSAGE_BYTES);
    }
  }

  /** In terms of the clock that made the IV: a short message arrives in two of every 256 units of 4096 ticks. */
  lemma ShortDeliveryByClock(sender: NodeState, receiver: NodeState, plain: seq<byte>, now: int, clock: Clock)
    requires 1 <= |plain| <= 463 && sender.baseKey == receiver.baseKey && sender.mac != receiver.mac
    requires Storable(receiver.queue) && FromLe(ClockIv(now)[0..2]) !in receiver.partials
    ensures var packets := SendPackets(sender, MacToString(receiver.mac), plain, ClockIv(now));
            && |packets| == 1
            && (Receive(receiver, packets[0], clock).1.delivered == Some(plain) <==> now / 4096 % 256 <= 1)
  {
    hide Receive, SendPackets, MacToString, ToNat, FromLe, ClockIv;
    ShortDeliveryIff(sender, receiver, plain, ClockIv(now), clock);
    ClockIvByte3(now);
  }

  lemma {:induction false} ExampleShifts(i: nat)
    ensures Shifted(0x3000, i)
         == if i == 0 then 0x3000 else if i == 1 then 0x300 else if i == 2 then 0x30 else if i == 3 then 3 else 0
  {
    if i > 0 {
      ExampleShifts(i - 1);
    }
  }

  lemma ExampleIv()
    ensures ClockIv(0x3000) == [0, 0, 0x30, 0x03, 0, 0, 0, 0, 0, 0, 0, 0, 0, 0, 0, 0]
  {
    hide ToByte, Shifted;
    ExampleShifts(3);
    ExampleShifts(2);
    ExampleShifts(1);
    ExampleShifts(0);
    NatRoundTrip(0x30);
    NatRoundTrip(0x03);
    NatRoundTrip(0);
    forall i | 4 <= i < 16
      ensures Shifted(0x3000, i) == 0
    {
      ExampleShifts(i);
    }
  }

  /** A concrete loss: one letter, sealed at clock value 0x3000, to a node that has just started. */
  lemma ShortMessageLost(sender: NodeState, receiver: NodeState, clock: Clock)
    requires sender.baseKey == receiver.baseKey && sender.mac != receiver.mac
    requires receiver.queue == [] && receiver.partials == map[]
    ensures ClockIv(0x3000) == [0, 0, 0x30, 0x03, 0, 0, 0, 0, 0, 0, 0, 0, 0, 0, 0, 0]
    ensures var packets := SendPackets(sender, MacToString(receiver.mac), [0x41], ClockIv(0x3000));
            && |packets| == 1
            && Receive(receiver, packets[0], clock).1.delivered != Some([0x41])
  {
    hide Receive, SendPackets, MacToString, FromLe;
    ShortDeliveryByClock(sender, receiver, [0x41], 0x3000, clock);
    ExampleIv();
  }

  // ----- exactly which messages arrive

  lemma AllAllowedInOrder(packets: seq<Packet>, clock: Clock)
    requires forall p :: p in packets ==> p.header.payloadLen <= MAX_PAYLOAD_SIZE
    ensures AllAllowed(ReceivedInOrder(packets, clock))
  {
    var h := ReceivedInOrder(packets, clock);
    forall e | e in h
      ensures Allowed(e)
    {
      var i :| 0 <= i < |h| && h[i] == e;
      assert packets[i] in packets;
    }
  }

  lemma TooLongNotSent(sender: NodeState, target: string, plain: seq<byte>, iv: Block)
    requires 1007 < |plain| <= WORK_BYTES
    ensures SendPackets(sender, target, plain, iv) == []
  {
    hide StringToMac, PairSchedule;
    SealFits(PairSchedule(sender, StringToMac(target)), iv, plain);
  }

  lemma SameSchedule(s: NodeState, dest: Mac)
    ensures PairSchedule(s, dest) == Expand(PairKey(s.mac, dest, s.baseKey))
  {
  }

  lemma OneReceived(s: NodeState, packets: seq<Packet>, clock: Clock)
    requires |packets| == 1 && packets[0].header.payloadLen <= MAX_PAYLOAD_SIZE && Storable(s.queue)
    ensures var h := ReceivedInOrder(packets, clock);
            AllAllowed(h) && LastOutputOf(s, h) == Receive(s, packets[0], clock).1
  {
    hide Receive;
    var h := ReceivedInOrder(packets, clock);
    assert h == [Received(packets[0], clock)];
    assert h[..|h| - 1] == [];
    ReceivedStep(s, packets[0], clock);
  }

  /** A known neighbour, or a destination with a route no older than 30 seconds. */
  predicate InReach(s: NodeState, dest: Mac, now: u64) {
    MacToString(dest) in s.known || FindNextHop(s.table, dest, now).Some?
  }

  lemma SendTransmits(s: NodeState, target: string, message: seq<byte>, iv: Block, clock: Clock)
    requires |message| <= WORK_BYTES
    ensures Send(s, target, message, iv, clock).1
         == if Reachable(s, target, clock.seconds) then SendPackets(s, target, message, iv) else []
  {
    hide SendPackets, Seal, Reachable, StringToMac, Stored;
  }

  /**
   What `send` puts on the air: for a destination in reach every piece of a message of 464 to 1007
   bytes, or the one bare packet of a shorter one; nothing for a longer one or out of reach.
   */
  lemma SendOnAir(s: NodeState, dest: Mac, plain: seq<byte>, iv: Block, clock: Clock)
    requires 1 <= |plain| <= WORK_BYTES
    ensures var air := Send(s, MacToString(dest), plain, iv, clock).1;
            var sealed := Seal(Expand(PairKey(s.mac, dest, s.baseKey)), iv, plain, MESSAGE_BYTES);
            if !InReach(s, dest, clock.seconds) || |plain| > 1007 then air == []
            else if |plain| >= 464 then PiecesBetween(air, s.mac, dest, s.nextMsgId, sealed)
            else
              && |air| == 1 && air[0].header.kind == Data && air[0].header.source == s.mac && air[0].header.dest == dest
              && air[0].header.payloadLen <= MAX_PAYLOAD_SIZE && air[0].Body() == sealed
  {
    hide MacToString, StringToMac, PairKey, Expand, Seal, SendPackets, FindNextHop, IsPiece, IsFragment, FragTotal;
    var target := MacToString(dest);
    StringToMacOfMacToString(dest);
    SameSchedule(s, dest);
    SendTransmits(s, target, plain, iv, clock);
    if |plain| > 1007 {
      TooLongNotSent(s, target, plain, iv);
    } else if |plain| >= 464 {
      SentPackets(s, dest, plain, iv);
    } else {
      ShortPacket(s, dest, plain, iv);
      NewPacketIs(Data, s.mac, dest, s.seqNum, Seal(PairSchedule(s, dest), iv, plain, MESSAGE_BYTES));
    }
  }

  lemma InReachIs(s: NodeState, dest: Mac, now: u64)
    ensures InReach(s, dest, now) <==> Reachable(s, MacToString(dest), now)
  {
    hide MacToString, StringToMac, FindNextHop;
    StringToMacOfMacToString(dest);
  }

  /** Without a target or a text, or with more than 1007 bytes, nothing is sent and the node stays as it is. */
  lemma NothingSent(s: NodeState, target: string, message: seq<byte>, iv: Block, clock: Clock)
    requires |message| <= WORK_BYTES
    requires target == "" || message == [] || |message| > 1007
    ensures Send(s, target, message, iv, clock) == (s, [])
  {
    hide StringToMac, PairSchedule;
    if |message| > 1007 {
      TooLongNotSent(s, target, message, iv);
    }
  }

  lemma SendCounts(s: NodeState, dest: Mac, plain: seq<byte>, iv: Block)
    requires 1 <= |plain| <= 1007
    ensures |SendPackets(s, MacToString(dest), plain, iv)|
         == if |plain| >= 464 then (16 + (|plain| + 16) / 16 * 16 + 479) / 480 else 1
  {
    hide MacToString, Seal, PairSchedule, SendPackets, Split, NewPacket, IsPiece, IsFragment;
    SealedLength(PairSchedule(s, dest), iv, plain);
    if |plain| >= 464 {
      SentPackets(s, dest, plain, iv);
    } else {
      ShortPacket(s, dest, plain, iv);
    }
  }

  lemma SendState(s: NodeState, target: string, message: seq<byte>, iv: Block, clock: Clock)
    requires |message| <= WORK_BYTES && SendPackets(s, target, message, iv) != []
    ensures var packets := SendPackets(s, target, message, iv);
            var dest := StringToMac(target);
            var split := |Seal(PairSchedule(s, dest), iv, message, MESSAGE_BYTES)| > MAX_FRAG_PAYLOAD;
            var t := s.(seqNum := SeqAfter(s.seqNum, |packets|),
                        nextMsgId := if split then (s.nextMsgId + 1) % 0x1_0000 else s.nextMsgId);
            Send(s, target, message, iv, clock).0
            == if Reachable(s, target, clock.seconds)
               then t.(pending := s.pending[s.nextAckSeq := PendingAck(dest, 0, clock.nanos, message, s.nextAckSeq)],
                       nextAckSeq := NextSeq(s.nextAckSeq))
               else t.(queue := s.queue + Stored(packets, dest, clock.seconds))
  {
    hide SendPackets, Seal, PairSchedule, StringToMac, Reachable, Stored, SeqAfter, NextSeq;
  }

  lemma StoredEntries(packets: seq<Packet>, dest: Mac, now: u64)
    requires forall p :: p in packets ==> p.header.payloadLen <= MAX_PAYLOAD_SIZE
    ensures |Stored(packets, dest, now)| == |packets|
    ensures forall e :: e in Stored(packets, dest, now) ==> e.dest == dest && e.timestamp == now
  {
  }

  /** The node after a send: its counters, and either a message waited for or entries queued behind the others. */
  lemma SendLeaves(s: NodeState, dest: Mac, plain: seq<byte>, iv: Block, clock: Clock)
    requires 1 <= |plain| <= 1007
    ensures var n := (if |plain| >= 464 then (16 + (|plain| + 16) / 16 * 16 + 479) / 480 else 1);
            var t := Send(s, MacToString(dest), plain, iv, clock).0;
            var counted := s.(seqNum := (s.seqNum + n) % 0x1_0000_0000,
                              nextMsgId := if |plain| >= 464 then (s.nextMsgId + 1) % 0x1_0000 else s.nextMsgId);
            if InReach(s, dest, clock.seconds) then
              t == counted.(nextAckSeq := (s.nextAckSeq + 1) % 0x1_0000_0000,
                            pending := s.pending[s.nextAckSeq := PendingAck(dest, 0, clock.nanos, plain, s.nextAckSeq)])
            else
              && t == counted.(queue := t.queue) && |t.queue| == |s.queue| + n && t.queue[..|s.queue|] == s.queue
              && forall e :: e in t.queue[|s.queue|..] ==> e.dest == dest && e.timestamp == clock.seconds
  {
    hide MacToString, StringToMac, PairSchedule, Seal, SendPackets, Send, Reachable, InReach, Stored;
    var target := MacToString(dest);
    StringToMacOfMacToString(dest);
    SealedLength(PairSchedule(s, dest), iv, plain);
    SendCounts(s, dest, plain, iv);
    InReachIs(s, dest, clock.seconds);
    SendState(s, target, plain, iv, clock);
    var entries := Stored(SendPackets(s, target, plain, iv), dest, clock.seconds);
    StoredEntries(SendPackets(s, target, plain, iv), dest, clock.seconds);
    assert (s.queue + entries)[..|s.queue|] == s.queue && (s.queue + entries)[|s.queue|..] == entries;
  }

  /** The packets of a message carry consecutive sequence numbers and the default hops to live. */
  lemma SentNumbers(s: NodeState, target: string, message: seq<byte>, iv: Block, i: nat)
    requires |message| <= WORK_BYTES && i < |SendPackets(s, target, message, iv)|
    ensures var p := SendPackets(s, target, message, iv)[i];
            p.header.sequenceId == (s.seqNum + i) % 0x1_0000_0000 && p.header.ttl == 64 && p.header.version == 1
  {
    hide Seal, PairSchedule, StringToMac, FragmentBody;
    var dest := StringToMac(target);
    var sealed := Seal(PairSchedule(s, dest), iv, message, MESSAGE_BYTES);
    if |sealed| > MAX_FRAG_PAYLOAD {
      FragmentPacketIs(sealed, Data, s.mac, dest, s.seqNum, s.nextMsgId, i);
    }
  }

  /** Every run that up to some moment has brought all that was put on the air delivers the message. */
  lemma SentInAnyOrder(sender: NodeState, receiver: NodeState, plain: seq<byte>, iv: Block, sentAt: Clock,
                       h: seq<NodeEvent>)
    requires 464 <= |plain| <= 1007 && sender.baseKey == receiver.baseKey && sender.mac != receiver.mac
    requires InReach(sender, receiver.mac, sentAt.seconds)
    requires Storable(receiver.queue) && AllAllowed(h) && sender.nextMsgId !in receiver.partials
    requires Brings(receiver, h, Send(sender, MacToString(receiver.mac), plain, iv, sentAt).1, sender.nextMsgId)
    ensures exists k :: 0 <= k <= |h| && Delivers(receiver, h[..k], plain)
  {
    hide MacToString, Send, Seal, PairKey, Expand, InReach, PiecesBetween, Brings, Delivers;
    SendOnAir(sender, receiver.mac, plain, iv, sentAt);
    AnyOrderDelivers(receiver, h, Send(sender, MacToString(receiver.mac), plain, iv, sentAt).1, sender.mac, iv, plain,
                     sender.nextMsgId);
  }

  /** What the receiver delivers on the last of the packets put on the air, received in order. */
  ghost function DeliveredDirectly(sender: NodeState, receiver: NodeState, plain: seq<byte>, iv: Block, sentAt: Clock,
                                   clock: Clock): Option<seq<byte>>
    requires |plain| <= WORK_BYTES && Storable(receiver.queue)
  {
    var air := Send(sender, MacToString(receiver.mac), plain, iv, sentAt).1;
    SendTransmits(sender, MacToString(receiver.mac), plain, iv, sentAt);
    AllAllowedInOrder(air, clock);
    if air == [] then None else LastOutputOf(receiver, ReceivedInOrder(air, clock)).delivered
  }

  /**
   Between two nodes with the same base key, the receiver holding nothing under the id it reads from
   the packets, the message given to `send` arrives intact exactly when the receiver is in reach, the
   message has at most 1007 bytes and is either long enough to be split, from 464 bytes on, or sealed
   under an IV whose byte 3 is at most 1.
   */
  lemma DirectDeliveryIff(sender: NodeState, receiver: NodeState, plain: seq<byte>, iv: Block, sentAt: Clock,
                          clock: Clock)
    requires 1 <= |plain| <= WORK_BYTES && sender.baseKey == receiver.baseKey && sender.mac != receiver.mac
    requires Storable(receiver.queue)
    requires (if |plain| >= 464 then sender.nextMsgId else FromLe(iv[0..2])) !in receiver.partials
    ensures DeliveredDirectly(sender, receiver, plain, iv, sentAt, clock) == Some(plain)
            <==> InReach(sender, receiver.mac, sentAt.seconds)
                 && |plain| <= 1007 && (464 <= |plain| || ToNat(iv[3]) <= 1)
  {
    hide Receive, SendPackets, MacToString, PairKey, Expand, Seal, ToNat, FragTotal, IsPiece, IsFragment, NodeStep,
         NodeAfter, Send, InReach;
    var dest := receiver.mac;
    SendOnAir(sender, dest, plain, iv, sentAt);
    var air := Send(sender, MacToString(dest), plain, iv, sentAt).1;
    if InReach(sender, dest, sentAt.seconds) && |plain| <= 1007 {
      if |plain| >= 464 {
        DeliveredInOrder(receiver, air, sender.mac, sender.nextMsgId, plain, iv, clock);
      } else {
        SendTransmits(sender, MacToString(dest), plain, iv, sentAt);
        InReachIs(sender, dest, sentAt.seconds);
        ShortDeliveryIff(sender, receiver, plain, iv, clock);
        OneReceived(receiver, air, clock);
      }
    }
  }
}
