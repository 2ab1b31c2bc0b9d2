/**
 What a node answers. Data packets: exactly when a text is delivered, acknowledged or relayed, and
 what the acknowledgement does where it goes. Greetings: what the advert says, and what is learned
 from it.
 */
module Exchange {
  import opened Bytes
  import opened Packets
  import opened MacText
  import opened KeySchedule
  import opened PairKeys
  import opened Envelope
  import opened Fragments
  import opened RueStore
  import opened Routing
  import opened Adverts
  import opened NodeSpec
  import opened Delivery
  import opened NodeRoutes

  // ----- data packets

  /** The text a data packet yields: of the bare packet, or of the message it completes; none otherwise. */
  ghost function OpenedText(s: NodeState, p: Packet, clock: Clock): seq<byte>
    requires p.header.payloadLen <= MAX_PAYLOAD_SIZE
  {
    var w := Expand(PairKey(s.mac, p.header.source, s.baseKey));
    if !IsFragment(p) then Open(w, p.Body(), 1024)
    else
      match Reassemble(s.partials, p, 2048, clock.nanos).1
      case None => []
      case Some(sealed) => Open(w, sealed, 2048)
  }

  /** `q` acknowledges `p`: it goes back to the source and carries the sequence number in four bytes. */
  ghost predicate Acknowledges(q: Packet, p: Packet, sender: Mac) {
    && q.header.kind == PacketType.Ack && q.header.source == sender && q.header.dest == p.header.source
    && q.header.payloadLen == 4 && FromLe(q.payload[..4]) == p.header.sequenceId
  }

  lemma AckPacketSays(s: NodeState, p: Packet)
    ensures Acknowledges(AckPacket(s, p), p, s.mac)
  {
    hide FromLe, Le;
    var body := Le(p.header.sequenceId, 4);
    NewPacketIs(PacketType.Ack, s.mac, p.header.source, p.header.sequenceId, body);
    FieldWidths();
    FromLeOfLe(p.header.sequenceId, 4);
    assert PadPayload(body)[..4] == body;
  }

  /**
   A data packet from another node. A text for the node itself is delivered and acknowledged; a text
   for someone else is relayed exactly when its packet is no fragment, the node finds a route to its
   destination once it has heard the source, and the packet has two hops to live or more; then the
   same packet with one hop less goes to that route's next hop. Nothing else is sent or delivered.
   */
  lemma DataOutcome(s: NodeState, p: Packet, clock: Clock)
    requires p.header.payloadLen <= MAX_PAYLOAD_SIZE && Storable(s.queue)
    requires p.header.source != s.mac && p.header.kind == Data
    ensures var out := Receive(s, p, clock).1;
            var text := OpenedText(s, p, clock);
            var route := FindNextHop(Hear(s, p.header.source, clock.seconds).table, p.header.dest, clock.seconds);
            && out.delivered == (if text != [] && p.header.dest == s.mac then Some(text) else None)
            && (out.reply.Some? <==> out.delivered.Some?)
            && (out.reply.Some? ==> Acknowledges(out.reply.value, p, s.mac))
            && (out.forward.Some? <==> text != [] && p.header.dest != s.mac && !IsFragment(p) && route.Some?
                                       && p.header.ttl > 1)
            && (out.forward.Some? ==>
                  && out.forward.value.nextHop == route.value.nextHop
                  && out.forward.value.packet == p.(header := p.header.(ttl := p.header.ttl - 1)))
  {
    hide Reassemble, Open, DecodeHeader, PairKey, Expand, For, NotFor, AckPacket, DrainPackets, IsFragment, Hear,
         FindNextHop, Acknowledges;
    ForStorable(s.queue, p.header.source);
    HearFrame(s, p.header.source, clock.seconds);
    AckPacketSays(Drain(Hear(s, p.header.source, clock.seconds), p.header.source), p);
  }

  lemma Answers(s: NodeState, src: Mac)
    ensures var out := AnswerDiscovery(s, src).1; out.reply.Some? && out == SILENCE.(reply := out.reply)
  {
    hide NewPacket, AdvertBody;
  }

  /**
   Packets of the other types are not delivered or relayed, and only a greeting is answered; a packet
   of the node itself changes nothing.
   */
  lemma OtherOutcome(s: NodeState, p: Packet, clock: Clock)
    requires p.header.payloadLen <= MAX_PAYLOAD_SIZE && Storable(s.queue)
    requires p.header.source == s.mac || p.header.kind != Data
    ensures var out := Receive(s, p, clock).1;
            && out.delivered == None && out.forward == None
            && (out.reply.Some? <==> p.header.source != s.mac && p.header.kind == Discovery)
            && (p.header.source == s.mac ==> Receive(s, p, clock) == (s, Output([], None, None, None)))
  {
    hide DecodeHeader, For, NotFor, DrainPackets, AnswerDiscovery, Hear, Learn, TakeAck;
    ForStorable(s.queue, p.header.source);
    HearFrame(s, p.header.source, clock.seconds);
    if p.header.source != s.mac {
      Answers(Drain(Hear(s, p.header.source, clock.seconds), p.header.source), p.header.source);
    }
  }

  // ----- acknowledgements

  /** A received acknowledgement removes exactly the number in its first four bytes. */
  lemma AckTaken(s: NodeState, q: Packet, clock: Clock)
    requires q.header.payloadLen <= MAX_PAYLOAD_SIZE && Storable(s.queue)
    requires q.header.source != s.mac && q.header.kind == PacketType.Ack && q.header.payloadLen >= 4
    ensures FromLe(q.payload[..4]) < 0x1_0000_0000
    ensures Receive(s, q, clock).0.pending == s.pending - {FromLe(q.payload[..4])}
  {
    hide FromLe, For, NotFor, DrainPackets, Hear;
    FromLeBound(q.payload[..4]);
    FieldWidths();
    ForStorable(s.queue, q.header.source);
    HearFrame(s, q.header.source, clock.seconds);
  }

  /**
   A text delivered at its destination, and the reply received at the source of the packet: there
   exactly the sequence number of the packet is no longer waited for.
   */
  lemma AckRoundTrip(s: NodeState, p: Packet, clock: Clock, origin: NodeState, later: Clock)
    requires p.header.payloadLen <= MAX_PAYLOAD_SIZE && Storable(s.queue) && Storable(origin.queue)
    requires p.header.source == origin.mac != s.mac && p.header.dest == s.mac && p.header.kind == Data
    requires OpenedText(s, p, clock) != []
    ensures var reply := Receive(s, p, clock).1.reply;
            && reply.Some? && reply.value.header.payloadLen <= MAX_PAYLOAD_SIZE
            && Receive(origin, reply.value, later).0.pending == origin.pending - {p.header.sequenceId}
  {
    hide Receive, OpenedText, FromLe;
    DataOutcome(s, p, clock);
    AckTaken(origin, Receive(s, p, clock).1.reply.value, later);
  }

  // ----- adverts

  /** `advert` of a node `sender`, read by anyone: a 2-hop route by way of it to the first 73 of `known`, in order. */
  ghost predicate Advertises(advert: seq<byte>, sender: Mac, known: set<string>) {
    forall time: u64 ::
      var offers := Offers(advert, sender, time);
      && |offers| == (if |known| <= 73 then |known| else 73) && |offers| <= |Sorted(known)|
      && forall i :: 0 <= i < |offers| ==>
           MacToString(offers[i].dest) == Sorted(known)[i] && offers[i] == Offer(offers[i].dest, sender, 2, time)
  }

  lemma OwnAdvertSays(known: set<string>, sender: Mac)
    requires forall t :: t in known ==> IsMacText(t)
    ensures Advertises(AdvertBody(known), sender, known)
  {
    hide MacToString, Pack, Offers, Sorted;
    SortedElements(known);
    forall time: u64
      ensures var offers := Offers(AdvertBody(known), sender, time);
              && |offers| == (if |known| <= 73 then |known| else 73) && |offers| <= |Sorted(known)|
              && forall i :: 0 <= i < |offers| ==>
                   && MacToString(offers[i].dest) == Sorted(known)[i]
                   && offers[i] == Offer(offers[i].dest, sender, 2, time)
    {
      AdvertRoundTrip(known, sender, time);
    }
  }

  lemma DrainedCount(s: NodeState, entries: seq<RueEntry>)
    requires Storable(entries)
    ensures |DrainPackets(s, entries)| == |entries|
  {
  }

  /** A greeting makes its source a neighbour, and is answered with the advert of all of them, the source included. */
  lemma GreetingAnswered(s: NodeState, p: Packet, clock: Clock)
    requires p.header.payloadLen <= MAX_PAYLOAD_SIZE && Storable(s.queue)
    requires p.header.source != s.mac && p.header.kind == Discovery
    requires forall t :: t in s.known ==> IsMacText(t)
    ensures var (t, out) := Receive(s, p, clock);
            && t.known == s.known + {MacToString(p.header.source)}
            && out.reply.Some?
            && var r := out.reply.value;
               && r.header.kind == RouteAdv && r.header.source == s.mac && r.header.dest == p.header.source
               && r.header.payloadLen <= MAX_PAYLOAD_SIZE && Advertises(r.Body(), s.mac, t.known)
               && r.header.sequenceId == SeqAfter(s.seqNum, |out.drained|) && t.seqNum == NextSeq(r.header.sequenceId)
  {
    hide MacToString, For, NotFor, DrainPackets, AddRoute, AdvertBody, Advertises, SeqAfter, NextSeq;
    ForStorable(s.queue, p.header.source);
    var idle := Drain(Hear(s, p.header.source, clock.seconds), p.header.source);
    assert IsMacText(MacToString(p.header.source));
    DrainedCount(Hear(s, p.header.source, clock.seconds), For(s.queue, p.header.source));
    OwnAdvertSays(idle.known, s.mac);
    NewPacketIs(RouteAdv, s.mac, p.header.source, idle.seqNum, AdvertBody(idle.known));
  }

  lemma {:induction false} OfferedIsKept(table: Routes, offers: seq<Offer>, i: nat)
    requires i < |offers|
    ensures var key := MacToString(offers[i].dest);
            key in AddAll(table, offers) && AddAll(table, offers)[key].hops <= offers[i].hops
  {
    hide MacToString;
    var init := offers[..|offers| - 1];
    if i < |offers| - 1 {
      OfferedIsKept(table, init, i);
    }
  }

  /** Whoever receives the advert of a node has a route of at most two hops to everything it lists. */
  lemma AdvertTeaches(s: NodeState, r: Packet, clock: Clock, known: set<string>, i: nat)
    requires r.header.payloadLen <= MAX_PAYLOAD_SIZE && Storable(s.queue)
    requires r.header.source != s.mac && r.header.kind == RouteAdv && Advertises(r.Body(), r.header.source, known)
    requires i < |known| && i < 73
    ensures i < |Sorted(known)|
    ensures var t := Receive(s, r, clock).0;
            Sorted(known)[i] in t.table && t.table[Sorted(known)[i]].hops <= 2
  {
    hide MacToString, AddAll, Offers, Sorted, Receive, Hear;
    StepRoutes(s, Received(r, clock));
    ReceivedStep(s, r, clock);
    SortedElements(known);
    var offers := Offers(r.Body(), r.header.source, clock.seconds);
    OfferedIsKept(Hear(s, r.header.source, clock.seconds).table, offers, i);
  }

  /** A greeting is a broadcast with the configured hops to live and a fixed text. */
  lemma HelloIs(s: NodeState, ttl: u8)
    ensures var p := HelloPacket(s, ttl);
            && p.header.kind == Discovery && p.header.source == s.mac && p.header.ttl == ttl
            && p.header.dest == [0xff, 0xff, 0xff, 0xff, 0xff, 0xff] && p.header.sequenceId == s.seqNum
            && p.header.payloadLen == 12
            && p.Body() == [0x41, 0x52, 0x41, 0x42, 0x41, 0x20, 0x48, 0x65, 0x6c, 0x6c, 0x6f, 0x21]
  {
    NewPacketIs(Discovery, s.mac, BROADCAST, s.seqNum, HELLO);
  }

  /**
   A node greets, another hears it and answers, and the first hears the answer. Then each has the
   other for neighbour, and the first has a route of at most two hops to every one of the first 73
   neighbours of the other.
   */
  lemma DiscoveryExchange(a: NodeState, b: NodeState, ttl: u8, heardAt: Clock, answeredAt: Clock)
    requires a.mac != b.mac && Storable(a.queue) && Storable(b.queue)
    requires forall t :: t in b.known ==> IsMacText(t)
    ensures var hello := HelloPacket(a, ttl);
            && hello.header.payloadLen <= MAX_PAYLOAD_SIZE
            && var (b', out) := Receive(b, hello, heardAt);
               && MacToString(a.mac) in b'.known
               && out.reply.Some? && out.reply.value.header.payloadLen <= MAX_PAYLOAD_SIZE
               && var a' := Receive(a, out.reply.value, answeredAt).0;
                  && MacToString(b.mac) in a'.known
                  && |Sorted(b'.known)| == |b'.known|
                  && forall i :: 0 <= i < |b'.known| && i < 73 ==>
                       Sorted(b'.known)[i] in a'.table && a'.table[Sorted(b'.known)[i]].hops <= 2
  {
    hide MacToString, Receive, Advertises, Sorted, Offers, AddAll;
    var hello := HelloPacket(a, ttl);
    HelloIs(a, ttl);
    GreetingAnswered(b, hello, heardAt);
    var b' := Receive(b, hello, heardAt).0;
    var reply := Receive(b, hello, heardAt).1.reply.value;
    StepRoutes(a, Received(reply, answeredAt));
    ReceivedStep(a, reply, answeredAt);
    SortedElements(b'.known);
    forall i | 0 <= i < |b'.known| && i < 73
      ensures var a' := Receive(a, reply, answeredAt).0;
              Sorted(b'.known)[i] in a'.table && a'.table[Sorted(b'.known)[i]].hops <= 2
    {
      AdvertTeaches(a, reply, answeredAt, b'.known, i);
    }
  }
}
