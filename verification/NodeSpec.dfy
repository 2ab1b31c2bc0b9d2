/** The state of a node, and each step of its loop and of its send command as a function. */
module NodeSpec {
  import opened Bytes
  import opened Packets
  import opened MacText
  import opened AesBlock
  import opened KeySchedule
  import opened PairKeys
  import opened Envelope
  import opened Fragments
  import opened RueStore
  import opened Routing
  import opened Adverts
  import opened Acks

  const REASSEMBLY_BYTES: nat := 2048
  const MESSAGE_BYTES: nat := 1024

  /** The monotonic clock in nanoseconds and the calendar clock in seconds. */
  datatype Clock = Clock(nanos: int, seconds: u64)

  datatype NodeState = NodeState(
    mac: Mac, baseKey: Key,
    known: set<string>, table: Routes,
    queue: seq<RueEntry>,
    partials: Partials, nextMsgId: u16,
    pending: Pending, nextAckSeq: u32,
    seqNum: u32)

  datatype Forward = Forward(packet: Packet, nextHop: Mac)

  /** What a received packet makes the node send and deliver. */
  datatype Output = Output(drained: seq<Packet>, reply: Option<Packet>, forward: Option<Forward>,
                           delivered: Option<seq<byte>>)

  const SILENCE: Output := Output([], None, None, None)

  /** The schedule shared with another node. */
  function PairSchedule(s: NodeState, peer: Mac): Schedule {
    Expand(PairKey(s.mac, peer, s.baseKey))
  }

  predicate Storable(queue: seq<RueEntry>) {
    forall e :: e in queue ==> e.payloadLen <= MAX_PAYLOAD_SIZE
  }

  // ----- receiving: what every packet causes

  /** The header source becomes a neighbour when first heard. */
  function Hear(s: NodeState, src: Mac, now: u64): NodeState {
    if MacToString(src) in s.known then s
    else s.(known := s.known + {MacToString(src)}, table := AddRoute(s.table, Offer(src, src, 1, now)))
  }

  /** The packet made of a queued entry. */
  function DrainPacket(s: NodeState, e: RueEntry, seqNum: u32): Packet
    requires e.payloadLen <= MAX_PAYLOAD_SIZE
  {
    NewPacket(Data, s.mac, e.dest, seqNum, e.payload[..e.payloadLen])
  }

  function DrainPackets(s: NodeState, entries: seq<RueEntry>): seq<Packet>
    requires Storable(entries)
  {
    seq(|entries|, i requires 0 <= i < |entries| => DrainPacket(s, entries[i], SeqAfter(s.seqNum, i)))
  }

  /** Everything queued for `src` is sent and removed. */
  function Drain(s: NodeState, src: Mac): NodeState {
    s.(queue := NotFor(s.queue, src), seqNum := SeqAfter(s.seqNum, |For(s.queue, src)|))
  }

  // ----- receiving: by type

  /** The neighbours as an advert of at most 512 bytes. */
  ghost function AdvertBody(known: set<string>): (b: seq<byte>)
    ensures |b| <= MAX_PAYLOAD_SIZE
  {
    Pack(Addresses(Sorted(known)), 512)
  }

  ghost function AnswerDiscovery(s: NodeState, src: Mac): (NodeState, Output) {
    var advert := NewPacket(RouteAdv, s.mac, src, s.seqNum, AdvertBody(s.known));
    (s.(seqNum := NextSeq(s.seqNum)), SILENCE.(reply := Some(advert)))
  }

  function Learn(s: NodeState, p: Packet, now: u64): NodeState
    requires p.header.payloadLen <= MAX_PAYLOAD_SIZE
  {
    s.(table := AddAll(s.table, Offers(p.Body(), p.header.source, now)))
  }

  /** The number an acknowledgement carries. */
  function AckedKey(p: Packet): u32 {
    FromLeBound(p.payload[..4]);
    FieldWidths();
    FromLe(p.payload[..4])
  }

  function TakeAck(s: NodeState, p: Packet): NodeState {
    if p.header.payloadLen >= 4 then s.(pending := s.pending - {AckedKey(p)}) else s
  }

  function AckPacket(s: NodeState, p: Packet): Packet {
    NewPacket(PacketType.Ack, s.mac, p.header.source, p.header.sequenceId, Le(p.header.sequenceId, 4))
  }

  /** A data packet counts as a fragment when the place of the header's third field exceeds 1. */
  predicate IsFragment(p: Packet) {
    p.header.payloadLen >= FRAG_HEADER_SIZE && DecodeHeader(p.payload).total > 1
  }

  /** A packet for someone else goes to the next hop of a fresh route, with one hop less to live. */
  function ForwardOf(s: NodeState, p: Packet, now: u64): Option<Forward> {
    match FindNextHop(s.table, p.header.dest, now)
    case None => None
    case Some(route) =>
      if p.header.ttl > 1 then Some(Forward(p.(header := p.header.(ttl := p.header.ttl - 1)), route.nextHop)) else None
  }

  /** What happens to a text that was opened: delivered and acknowledged, or passed on when `relay` allows. */
  function Conclude(s: NodeState, p: Packet, text: seq<byte>, relay: bool, now: u64): Output {
    if text == [] then SILENCE
    else if p.header.dest == s.mac then SILENCE.(reply := Some(AckPacket(s, p)), delivered := Some(text))
    else if relay then SILENCE.(forward := ForwardOf(s, p, now))
    else SILENCE
  }

  /** A message that `p` completes fits the buffer it is then decrypted in. */
  predicate FitsWorkBuffer(partials: Partials, p: Packet, clock: Clock)
    requires p.header.payloadLen <= MAX_PAYLOAD_SIZE
  {
    var message := Reassemble(partials, p, REASSEMBLY_BYTES, clock.nanos).1;
    message.Some? ==> |message.value| <= WORK_BYTES + 16
  }

  function TakeData(s: NodeState, p: Packet, clock: Clock): (NodeState, Output)
    requires p.header.payloadLen <= MAX_PAYLOAD_SIZE
  {
    var w := PairSchedule(s, p.header.source);
    if IsFragment(p) then
      var (partials, message) := Reassemble(s.partials, p, REASSEMBLY_BYTES, clock.nanos);
      var t := s.(partials := partials);
      match message
      case None => (t, SILENCE)
      case Some(sealed) => (t, Conclude(s, p, Open(w, sealed, REASSEMBLY_BYTES), false, clock.seconds))
    else
      (s, Conclude(s, p, Open(w, p.Body(), MESSAGE_BYTES), true, clock.seconds))
  }

  ghost function TakeByType(s: NodeState, p: Packet, clock: Clock): (NodeState, Output)
    requires p.header.payloadLen <= MAX_PAYLOAD_SIZE
  {
    match p.header.kind
    case Discovery => AnswerDiscovery(s, p.header.source)
    case RouteAdv => (Learn(s, p, clock.seconds), SILENCE)
    case Ack => (TakeAck(s, p), SILENCE)
    case Data => TakeData(s, p, clock)
    case Unassigned(_) => (s, SILENCE)
  }

  lemma {:induction false} ForStorable(queue: seq<RueEntry>, dest: Mac)
    requires Storable(queue)
    ensures Storable(For(queue, dest)) && Storable(NotFor(queue, dest))
  {
    if queue != [] {
      ForStorable(queue[1..], dest);
    }
  }

  /** One received packet. */
  ghost function Receive(s: NodeState, p: Packet, clock: Clock): (NodeState, Output)
    requires p.header.payloadLen <= MAX_PAYLOAD_SIZE && Storable(s.queue)
  {
    if p.header.source == s.mac then (s, SILENCE)
    else
      var heard := Hear(s, p.header.source, clock.seconds);
      ForStorable(s.queue, p.header.source);
      var drained := DrainPackets(heard, For(heard.queue, p.header.source));
      var (t, out) := TakeByType(Drain(heard, p.header.source), p, clock);
      (t, out.(drained := drained))
  }

  // ----- the other steps of the loop

  const HELLO: seq<byte> := [0x41, 0x52, 0x41, 0x42, 0x41, 0x20, 0x48, 0x65, 0x6c, 0x6c, 0x6f, 0x21]

  /** The broadcast that opens each round. */
  function HelloPacket(s: NodeState, ttl: u8): Packet {
    var p := NewPacket(Discovery, s.mac, BROADCAST, s.seqNum, HELLO);
    p.(header := p.header.(ttl := ttl))
  }

  // ----- the send command

  predicate Reachable(s: NodeState, target: string, now: u64) {
    target in s.known || FindNextHop(s.table, StringToMac(target), now).Some?
  }

  /** The entries that keep `packets` for `dest`. */
  function Stored(packets: seq<Packet>, dest: Mac, now: u64): seq<RueEntry>
    requires forall p :: p in packets ==> p.header.payloadLen <= MAX_PAYLOAD_SIZE
  {
    seq(|packets|, i requires 0 <= i < |packets| => NewEntry(dest, packets[i].Body(), now))
  }

  lemma SplitFits(data: seq<byte>, kind: PacketType, src: Mac, dst: Mac, seqNum: u32, msgId: u16)
    ensures forall p :: p in Split(data, kind, src, dst, seqNum, msgId) ==> p.header.payloadLen <= MAX_PAYLOAD_SIZE
  {
    hide FragmentBody;
    if |data| > MAX_FRAG_PAYLOAD {
      forall i | 0 <= i < FragTotal(|data|)
        ensures FragmentPacket(data, kind, src, dst, seqNum, msgId, i).header.payloadLen <= MAX_PAYLOAD_SIZE
      {
        FragmentPacketIs(data, kind, src, dst, seqNum, msgId, i);
      }
    }
  }

  /** The sealed message in packets, as `send` makes them. */
  function SendPackets(s: NodeState, target: string, message: seq<byte>, iv: Block): (packets: seq<Packet>)
    requires |message| <= WORK_BYTES
    ensures forall p :: p in packets ==> p.header.payloadLen <= MAX_PAYLOAD_SIZE
  {
    var dest := StringToMac(target);
    var sealed := Seal(PairSchedule(s, dest), iv, message, MESSAGE_BYTES);
    if target == "" || message == [] || sealed == [] then []
    else
      SplitFits(sealed, Data, s.mac, dest, s.seqNum, s.nextMsgId);
      Split(sealed, Data, s.mac, dest, s.seqNum, s.nextMsgId)
  }

  /** The send command: the new state and the packets put on the air. */
  function Send(s: NodeState, target: string, message: seq<byte>, iv: Block, clock: Clock): (NodeState, seq<Packet>)
    requires |message| <= WORK_BYTES
  {
    var dest := StringToMac(target);
    var packets := SendPackets(s, target, message, iv);
    if packets == [] then (s, [])
    else
      var fragmented := |Seal(PairSchedule(s, dest), iv, message, MESSAGE_BYTES)| > MAX_FRAG_PAYLOAD;
      var t := s.(seqNum := SeqAfter(s.seqNum, |packets|),
                  nextMsgId := if fragmented then (s.nextMsgId + 1) % 0x1_0000 else s.nextMsgId);
      if Reachable(s, target, clock.seconds) then
        var ack := PendingAck(dest, 0, clock.nanos, message, s.nextAckSeq);
        (t.(pending := s.pending[s.nextAckSeq := ack], nextAckSeq := NextSeq(s.nextAckSeq)), packets)
      else
        (t.(queue := s.queue + Stored(packets, dest, clock.seconds)), [])
  }

  // ----- which fields each step leaves alone

  lemma HearFrame(s: NodeState, src: Mac, now: u64)
    ensures var t := Hear(s, src, now); t == s.(known := t.known, table := t.table)
  {
  }

  lemma AnswerFrame(s: NodeState, src: Mac)
    ensures var (t, out) := AnswerDiscovery(s, src); t == s.(seqNum := t.seqNum) && out == SILENCE.(reply := out.reply)
  {
  }

  lemma TakeAckFrame(s: NodeState, p: Packet)
    ensures var t := TakeAck(s, p); t == s.(pending := t.pending)
  {
  }

  lemma TakeDataFrame(s: NodeState, p: Packet, clock: Clock)
    requires p.header.payloadLen <= MAX_PAYLOAD_SIZE
    ensures var t := TakeData(s, p, clock).0; t == s.(partials := t.partials)
    ensures TakeData(s, p, clock).1.drained == []
  {
    hide DecodeHeader, Reassemble, Open, Expand, PairKey;
  }

  lemma TakeDataPartials(s: NodeState, p: Packet, clock: Clock)
    requires p.header.payloadLen <= MAX_PAYLOAD_SIZE
    ensures TakeData(s, p, clock).0.partials
         == if IsFragment(p) then Reassemble(s.partials, p, REASSEMBLY_BYTES, clock.nanos).0 else s.partials
  {
    hide DecodeHeader, Reassemble, Open, Expand, PairKey;
  }

  lemma TakeByTypeFrame(s: NodeState, p: Packet, clock: Clock)
    requires p.header.payloadLen <= MAX_PAYLOAD_SIZE
    ensures var t := TakeByType(s, p, clock).0;
            && t.queue == s.queue && t.mac == s.mac && t.baseKey == s.baseKey && t.known == s.known
            && t.partials == (if p.header.kind == Data && IsFragment(p)
                              then Reassemble(s.partials, p, REASSEMBLY_BYTES, clock.nanos).0 else s.partials)
  {
    hide AnswerDiscovery, TakeAck, TakeData, Reassemble, IsFragment, Offers, AddAll;
    AnswerFrame(s, p.header.source);
    TakeAckFrame(s, p);
    TakeDataFrame(s, p, clock);
    TakeDataPartials(s, p, clock);
  }
}
