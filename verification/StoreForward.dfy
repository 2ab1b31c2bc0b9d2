/** Messages kept for a node out of reach, and sent when it is heard again. */
module StoreForward {
  import opened Bytes
  import opened Packets
  import opened MacText
  import opened AesBlock
  import opened Envelope
  import opened Fragments
  import opened Reassembly
  import opened RueStore
  import opened NodeSpec
  import opened Delivery

  // ----- what happens to the entries of one destination

  lemma ForUnfold(q: seq<RueEntry>, dest: Mac)
    requires q != []
    ensures For(q, dest) == (if q[0].dest == dest then [q[0]] else []) + For(q[1..], dest)
  {
  }

  lemma {:induction false} ForConcat(q: seq<RueEntry>, r: seq<RueEntry>, dest: Mac)
    ensures For(q + r, dest) == For(q, dest) + For(r, dest)
  {
    if q == [] {
      assert q + r == r;
    } else {
      hide For;
      assert (q + r)[0] == q[0] && (q + r)[1..] == q[1..] + r;
      ForUnfold(q, dest);
      ForUnfold(q + r, dest);
      ForConcat(q[1..], r, dest);
    }
  }

  lemma {:induction false} ForOfNotFor(q: seq<RueEntry>, other: Mac, dest: Mac)
    requires other != dest
    ensures For(NotFor(q, other), dest) == For(q, dest)
  {
    if q != [] {
      ForOfNotFor(q[1..], other, dest);
      var head := if q[0].dest == other then [] else [q[0]];
      ForConcat(head, NotFor(q[1..], other), dest);
      ForConcat([q[0]], q[1..], dest);
      assert [q[0]] + q[1..] == q;
      assert [q[0]][1..] == [];
    }
  }

  lemma {:induction false} ForAll(q: seq<RueEntry>, dest: Mac)
    requires forall e :: e in q ==> e.dest == dest
    ensures For(q, dest) == q
  {
    if q != [] {
      ForAll(q[1..], dest);
      assert q == [q[0]] + q[1..];
    }
  }

  /** `e` is not a packet that the node takes from `dest`. */
  predicate NotFrom(s: NodeState, e: NodeEvent, dest: Mac) {
    e.Received? ==> e.p.header.source != dest || dest == s.mac
  }

  /** Whatever else happens, the entries of a destination not heard from stay, in order. */
  lemma PendingStays(s: NodeState, e: NodeEvent, dest: Mac)
    requires Storable(s.queue) && Allowed(e) && NotFrom(s, e, dest)
    ensures For(s.queue, dest) <= For(NodeStep(s, e).0.queue, dest)
  {
    hide Receive, Send, SendPackets, Stored, For, NotFor;
    match e
    case Received(p, clock) =>
      ReceiveKeeps(s, p, clock);
      if p.header.source != s.mac && p.header.source != dest {
        ForOfNotFor(s.queue, p.header.source, dest);
      }
    case Commanded(target, message, iv, clock) =>
      SendKeeps(s, target, message, iv, clock);
      ForConcat(s.queue, Stored(SendPackets(s, target, message, iv), StringToMac(target), clock.seconds), dest);
    case _ =>
  }

  lemma {:induction false} PendingStaysOverRun(s: NodeState, h: seq<NodeEvent>, dest: Mac)
    requires Storable(s.queue) && AllAllowed(h)
    requires forall e :: e in h ==> NotFrom(s, e, dest)
    ensures For(s.queue, dest) <= For(NodeAfter(s, h).queue, dest)
  {
    if h != [] {
      hide NodeStep, For;
      var g, e := h[..|h| - 1], h[|h| - 1];
      assert e in h;
      PendingStaysOverRun(s, g, dest);
      PendingStays(NodeAfter(s, g), e, dest);
    }
  }

  // ----- the packets that come out

  /** The same packet under another sequence number. */
  function Renumbered(p: Packet, seqNum: u32): Packet {
    p.(header := p.header.(sequenceId := seqNum))
  }

  /** A packet as `init` and one copy make it: nothing behind its declared payload. */
  predicate IsFresh(p: Packet, src: Mac, dest: Mac) {
    && p.header.payloadLen <= MAX_PAYLOAD_SIZE
    && p == NewPacket(Data, src, dest, p.header.sequenceId, p.Body())
  }

  /** Storing a packet and draining the entry changes nothing but its sequence number. */
  lemma DrainOfStored(s: NodeState, p: Packet, dest: Mac, now: u64, seqNum: u32)
    requires IsFresh(p, s.mac, dest)
    ensures NewEntry(dest, p.Body(), now).payloadLen <= MAX_PAYLOAD_SIZE
    ensures DrainPacket(s, NewEntry(dest, p.Body(), now), seqNum) == Renumbered(p, seqNum)
  {
    hide PadPayload;
    var body := p.Body();
    assert body[..|body|] == body;
    NewPacketIs(Data, s.mac, dest, p.header.sequenceId, body);
    NewPacketIs(Data, s.mac, dest, seqNum, body);
  }

  lemma SplitFresh(data: seq<byte>, src: Mac, dst: Mac, seqNum: u32, msgId: u16)
    ensures forall p :: p in Split(data, Data, src, dst, seqNum, msgId) ==> IsFresh(p, src, dst)
  {
    hide NewPacket, FragmentBody;
    if |data| <= MAX_FRAG_PAYLOAD {
      NewPacketIs(Data, src, dst, seqNum, data);
    } else {
      forall i | 0 <= i < FragTotal(|data|)
        ensures IsFresh(FragmentPacket(data, Data, src, dst, seqNum, msgId, i), src, dst)
      {
        ChunksInRange(|data|, i);
        NewPacketIs(Data, src, dst, SeqAfter(seqNum, i), FragmentBody(data, msgId, i));
      }
    }
  }

  lemma SentFresh(s: NodeState, dest: Mac, message: seq<byte>, iv: Block)
    requires |message| <= WORK_BYTES
    ensures forall p :: p in SendPackets(s, MacToString(dest), message, iv) ==> IsFresh(p, s.mac, dest)
  {
    hide Seal, Split, MacToString, StringToMac, IsFresh, PairSchedule;
    StringToMacOfMacToString(dest);
    SplitFresh(Seal(PairSchedule(s, dest), iv, message, MESSAGE_BYTES), s.mac, dest, s.seqNum, s.nextMsgId);
  }

  lemma SameDrain(s: NodeState, t: NodeState, e: RueEntry, n: u32)
    requires s.mac == t.mac && e.payloadLen <= MAX_PAYLOAD_SIZE
    ensures DrainPacket(s, e, n) == DrainPacket(t, e, n)
  {
  }

  /** Hearing from `src` drains exactly its entries, in order, and leaves exactly the others. */
  lemma DrainOnReceive(s: NodeState, p: Packet, clock: Clock)
    requires p.header.payloadLen <= MAX_PAYLOAD_SIZE && Storable(s.queue) && p.header.source != s.mac
    ensures var (t, out) := Receive(s, p, clock);
            var entries := For(s.queue, p.header.source);
            && t.queue == NotFor(s.queue, p.header.source)
            && |out.drained| == |entries|
            && forall k :: 0 <= k < |entries| ==>
                 entries[k].payloadLen <= MAX_PAYLOAD_SIZE
                 && out.drained[k] == DrainPacket(s, entries[k], SeqAfter(s.seqNum, k))
  {
    hide TakeByType, DrainPacket, For, NotFor, Hear;
    HearFrame(s, p.header.source, clock.seconds);
    ForStorable(s.queue, p.header.source);
    ReceiveKeeps(s, p, clock);
    var heard := Hear(s, p.header.source, clock.seconds);
    forall e: RueEntry, n: u32 | e.payloadLen <= MAX_PAYLOAD_SIZE
      ensures DrainPacket(heard, e, n) == DrainPacket(s, e, n)
    {
      SameDrain(heard, s, e, n);
    }
  }

  lemma QueueOfSend(s: NodeState, target: string, message: seq<byte>, iv: Block, clock: Clock)
    requires |message| <= WORK_BYTES && !Reachable(s, target, clock.seconds)
    ensures Send(s, target, message, iv, clock).0.queue
         == s.queue + Stored(SendPackets(s, target, message, iv), StringToMac(target), clock.seconds)
  {
    hide SendPackets, Seal, Reachable, StringToMac, NewEntry;
  }

  lemma StoredFor(packets: seq<Packet>, dest: Mac, now: u64)
    requires forall p :: p in packets ==> p.header.payloadLen <= MAX_PAYLOAD_SIZE
    ensures For(Stored(packets, dest, now), dest) == Stored(packets, dest, now)
  {
    ForAll(Stored(packets, dest, now), dest);
  }

  lemma SameNotFrom(s: NodeState, t: NodeState, h: seq<NodeEvent>, dest: Mac)
    requires s.mac == t.mac && forall e :: e in h ==> NotFrom(s, e, dest)
    ensures forall e :: e in h ==> NotFrom(t, e, dest)
  {
  }

  /** What the queue holds for `dest` when the message was stored and `dest` was not heard from since. */
  lemma StoredIsPending(s: NodeState, dest: Mac, message: seq<byte>, iv: Block, sentAt: Clock, h: seq<NodeEvent>)
    requires Storable(s.queue) && |message| <= WORK_BYTES && dest != s.mac
    requires !Reachable(s, MacToString(dest), sentAt.seconds)
    requires AllAllowed(h) && forall e :: e in h ==> NotFrom(s, e, dest)
    ensures Storable(Send(s, MacToString(dest), message, iv, sentAt).0.queue)
    ensures var later := NodeAfter(Send(s, MacToString(dest), message, iv, sentAt).0, h);
            var packets := SendPackets(s, MacToString(dest), message, iv);
            For(s.queue, dest) + Stored(packets, dest, sentAt.seconds) <= For(later.queue, dest)
  {
    hide Send, SendPackets, MacToString, StringToMac, NodeAfter, For, Reachable, Storable, NotFrom, NewEntry;
    var target := MacToString(dest);
    var packets := SendPackets(s, target, message, iv);
    var sent := Send(s, target, message, iv, sentAt).0;
    SendKeeps(s, target, message, iv, sentAt);
    StringToMacOfMacToString(dest);
    QueueOfSend(s, target, message, iv, sentAt);
    StoredFor(packets, dest, sentAt.seconds);
    ForConcat(s.queue, Stored(packets, dest, sentAt.seconds), dest);
    SameNotFrom(s, sent, h, dest);
    PendingStaysOverRun(sent, h, dest);
  }

  lemma {:induction false} NoneLeftFor(q: seq<RueEntry>, dest: Mac)
    ensures For(NotFor(q, dest), dest) == []
  {
    if q != [] {
      NoneLeftFor(q[1..], dest);
      ForConcat(if q[0].dest == dest then [] else [q[0]], NotFor(q[1..], dest), dest);
    }
  }

  lemma StoredSize(packets: seq<Packet>, dest: Mac, now: u64)
    requires forall p :: p in packets ==> p.header.payloadLen <= MAX_PAYLOAD_SIZE
    ensures |Stored(packets, dest, now)| == |packets|
  {
  }

  lemma StoredAt(packets: seq<Packet>, dest: Mac, now: u64, i: nat)
    requires i < |packets| && forall p :: p in packets ==> p.header.payloadLen <= MAX_PAYLOAD_SIZE
    ensures i < |Stored(packets, dest, now)| && packets[i] in packets
    ensures Stored(packets, dest, now)[i] == NewEntry(dest, packets[i].Body(), now)
  {
    hide NewEntry;
  }

  /**
   A message is sent to a node out of reach; then the node does anything, as long as it does not
   hear from the destination; then it hears from it. Every packet of the message is sent at that
   moment, in order and behind whatever was queued for the destination before, and each is the
   original packet under a new sequence number, whatever the other entries of the queue are.
   */
  lemma StoreAndForward(s: NodeState, dest: Mac, message: seq<byte>, iv: Block, sentAt: Clock,
                        h: seq<NodeEvent>, p: Packet, heardAt: Clock)
    requires Storable(s.queue) && |message| <= WORK_BYTES && dest != s.mac
    requires !Reachable(s, MacToString(dest), sentAt.seconds)
    requires AllAllowed(h) && forall e :: e in h ==> NotFrom(s, e, dest)
    requires p.header.payloadLen <= MAX_PAYLOAD_SIZE && p.header.source == dest
    ensures Storable(Send(s, MacToString(dest), message, iv, sentAt).0.queue)
    ensures var packets := SendPackets(s, MacToString(dest), message, iv);
            var before := |For(s.queue, dest)|;
            var later := NodeAfter(Send(s, MacToString(dest), message, iv, sentAt).0, h);
            var (t, out) := Receive(later, p, heardAt);
            && For(t.queue, dest) == []
            && before + |packets| <= |out.drained|
            && forall i :: 0 <= i < |packets| ==>
                 out.drained[before + i] == Renumbered(packets[i], SeqAfter(later.seqNum, before + i))
  {
    hide Receive, Send, SendPackets, MacToString, NodeAfter, For, NotFor, DrainPacket, IsFresh, Reachable, Storable,
         NotFrom, NewEntry, Renumbered, Stored;
    var packets := SendPackets(s, MacToString(dest), message, iv);
    StoredIsPending(s, dest, message, iv, sentAt, h);
    SendKeeps(s, MacToString(dest), message, iv, sentAt);
    var later := NodeAfter(Send(s, MacToString(dest), message, iv, sentAt).0, h);
    DrainOnReceive(later, p, heardAt);
    NoneLeftFor(later.queue, dest);
    SentFresh(s, dest, message, iv);
    var stored := Stored(packets, dest, sentAt.seconds);
    var before := |For(s.queue, dest)|;
    StoredSize(packets, dest, sentAt.seconds);
    forall i | 0 <= i < |packets|
      ensures Receive(later, p, heardAt).1.drained[before + i]
           == Renumbered(packets[i], SeqAfter(later.seqNum, before + i))
    {
      assert packets[i] in packets;
      StoredAt(packets, dest, sentAt.seconds, i);
      assert For(later.queue, dest)[before + i] == (For(s.queue, dest) + stored)[before + i] == stored[i];
      DrainOfStored(later, packets[i], dest, sentAt.seconds, SeqAfter(later.seqNum, before + i));
    }
  }

  /** A renumbered fragment is still the same piece of the same message, for the same receiver. */
  lemma RenumberedPiece(p: Packet, seqNum: u32, id: u16, msg: seq<byte>, i: u8)
    requires IsPiece(p, id, msg, i)
    ensures var q := Renumbered(p, seqNum);
            && IsPiece(q, id, msg, i) && (IsFragment(q) <==> IsFragment(p))
            && q.header.kind == p.header.kind && q.header.source == p.header.source && q.header.dest == p.header.dest
  {
    hide DecodeHeader, Chunk;
  }

  /** A long message is sent to a node out of reach, which is then not heard from while `h` lasts, and after that is. */
  ghost predicate StoredThenHeard(s: NodeState, dest: Mac, plain: seq<byte>, sentAt: Clock, h: seq<NodeEvent>,
                                  p: Packet) {
    && Storable(s.queue) && 464 <= |plain| <= 1007 && dest != s.mac
    && !Reachable(s, MacToString(dest), sentAt.seconds)
    && AllAllowed(h) && (forall e :: e in h ==> NotFrom(s, e, dest))
    && p.header.payloadLen <= MAX_PAYLOAD_SIZE && p.header.source == dest
  }

  /** Everything drained at that moment. */
  ghost function DrainedAfter(s: NodeState, dest: Mac, plain: seq<byte>, iv: Block, sentAt: Clock,
                              h: seq<NodeEvent>, p: Packet, heardAt: Clock): seq<Packet>
    requires StoredThenHeard(s, dest, plain, sentAt, h, p)
  {
    SendKeeps(s, MacToString(dest), plain, iv, sentAt);
    Receive(NodeAfter(Send(s, MacToString(dest), plain, iv, sentAt).0, h), p, heardAt).1.drained
  }

  /** The part of it that is the message. */
  ghost function MessagePart(s: NodeState, dest: Mac, plain: seq<byte>, iv: Block,
                             drained: seq<Packet>): (part: seq<Packet>)
    requires |plain| <= WORK_BYTES
    ensures forall q :: q in part ==> q in drained
  {
    var before := |For(s.queue, dest)|;
    var n := |SendPackets(s, MacToString(dest), plain, iv)|;
    if before + n <= |drained| then drained[before..before + n] else []
  }

  /** The pieces of the message are among what is drained, one for each index. */
  lemma DrainedPieces(s: NodeState, receiver: NodeState, plain: seq<byte>, iv: Block, sentAt: Clock,
                      h: seq<NodeEvent>, p: Packet, heardAt: Clock)
    requires StoredThenHeard(s, receiver.mac, plain, sentAt, h, p) && receiver.baseKey == s.baseKey
    ensures var drained := DrainedAfter(s, receiver.mac, plain, iv, sentAt, h, p, heardAt);
            PiecesBetween(MessagePart(s, receiver.mac, plain, iv, drained), s.mac, receiver.mac, s.nextMsgId,
                          SealedFor(receiver, s.mac, iv, plain))
  {
    hide Receive, Send, SendPackets, MacToString, Seal, PairSchedule, NodeAfter, For, Reachable, Storable, NotFrom,
         IsPiece, IsFragment, FragTotal, Renumbered;
    var dest := receiver.mac;
    StoreAndForward(s, dest, plain, iv, sentAt, h, p, heardAt);
    SentPackets(s, dest, plain, iv);
    SameSchedule(s, dest);
    var packets := SendPackets(s, MacToString(dest), plain, iv);
    var later := NodeAfter(Send(s, MacToString(dest), plain, iv, sentAt).0, h);
    var sealed := Seal(PairSchedule(s, dest), iv, plain, MESSAGE_BYTES);
    var before := |For(s.queue, dest)|;
    var slice := Receive(later, p, heardAt).1.drained[before..before + |packets|];
    forall i | 0 <= i < |packets|
      ensures IsPiece(slice[i], s.nextMsgId, sealed, i) && IsFragment(slice[i])
      ensures slice[i].header.kind == Data && slice[i].header.source == s.mac && slice[i].header.dest == dest
    {
      RenumberedPiece(packets[i], SeqAfter(later.seqNum, before + i), s.nextMsgId, sealed, i);
    }
  }

  /**
   Together: a long message is stored for a node out of reach and drained when that node is heard
   again. Every run of the receiver that at some moment has brought the drained pieces, in any order,
   repeated and mixed with anything that is not taken for another fragment of the message, delivers
   exactly the plaintext, whatever follows.
   */
  lemma StoredMessageArrives(s: NodeState, receiver: NodeState, plain: seq<byte>, iv: Block, sentAt: Clock,
                             h: seq<NodeEvent>, p: Packet, heardAt: Clock, run: seq<NodeEvent>)
    requires StoredThenHeard(s, receiver.mac, plain, sentAt, h, p) && receiver.baseKey == s.baseKey
    requires Storable(receiver.queue) && s.nextMsgId !in receiver.partials && AllAllowed(run)
    requires var drained := DrainedAfter(s, receiver.mac, plain, iv, sentAt, h, p, heardAt);
             Brings(receiver, run, MessagePart(s, receiver.mac, plain, iv, drained), s.nextMsgId)
    ensures exists k :: 0 <= k <= |run| && Delivers(receiver, run[..k], plain)
  {
    hide DrainedAfter, MessagePart, PiecesBetween, Brings, Delivers, SealedFor, Reachable, NotFrom, Storable,
         MacToString;
    DrainedPieces(s, receiver, plain, iv, sentAt, h, p, heardAt);
    var drained := DrainedAfter(s, receiver.mac, plain, iv, sentAt, h, p, heardAt);
    AnyOrderDelivers(receiver, run, MessagePart(s, receiver.mac, plain, iv, drained), s.mac, iv, plain, s.nextMsgId);
  }

  lemma SameElements(s: seq<Packet>, t: seq<Packet>)
    requires multiset(s) == multiset(t)
    ensures forall x :: x in s <==> x in t
  {
    forall x
      ensures x in s <==> x in t
    {
      assert x in s <==> x in multiset(s);
      assert x in t <==> x in multiset(t);
    }
  }

  lemma DrainedFits(s: NodeState, dest: Mac, plain: seq<byte>, iv: Block, sentAt: Clock,
                    h: seq<NodeEvent>, p: Packet, heardAt: Clock)
    requires StoredThenHeard(s, dest, plain, sentAt, h, p)
    ensures forall q :: q in DrainedAfter(s, dest, plain, iv, sentAt, h, p, heardAt) ==>
                q.header.payloadLen <= MAX_PAYLOAD_SIZE
  {
    hide Receive, Send, MacToString, NodeAfter, For, Reachable, NotFrom, NewPacket;
    SendKeeps(s, MacToString(dest), plain, iv, sentAt);
    DrainOnReceive(NodeAfter(Send(s, MacToString(dest), plain, iv, sentAt).0, h), p, heardAt);
  }

  lemma {:induction false} NoEvictions(mac: Mac, packets: seq<Packet>, clock: Clock, n: nat)
    requires n <= |packets|
    ensures forall e :: e in Project(mac, ReceivedInOrder(packets, clock)[..n]) ==> e.Arrive?
  {
    if n > 0 {
      hide IsFragmentFor, Project;
      NoEvictions(mac, packets, clock, n - 1);
      var run := ReceivedInOrder(packets, clock)[..n];
      assert run[..|run| - 1] == ReceivedInOrder(packets, clock)[..n - 1];
      ProjectUnfold(mac, run);
      assert run[n - 1] == Received(packets[n - 1], clock);
    }
  }

  lemma NothingEvicted(h: seq<Event>, id: u16)
    requires forall e :: e in h ==> e.Arrive?
    ensures Timely(h, id)
  {
    hide Arrived, LastSeen;
    assert forall k :: 0 <= k < |h| ==> h[k] in h;
  }

  /**
   In particular when everything drained for the receiver reaches it, in any order: the message is
   delivered, as long as nothing else that was queued for the receiver carries its id.
   */
  lemma WholeQueueArrives(s: NodeState, receiver: NodeState, plain: seq<byte>, iv: Block, sentAt: Clock,
                          h: seq<NodeEvent>, p: Packet, heardAt: Clock, order: seq<Packet>, readAt: Clock)
    requires StoredThenHeard(s, receiver.mac, plain, sentAt, h, p) && receiver.baseKey == s.baseKey
    requires Storable(receiver.queue) && s.nextMsgId !in receiver.partials
    requires multiset(order) == multiset(DrainedAfter(s, receiver.mac, plain, iv, sentAt, h, p, heardAt))
    requires var message := MessagePart(s, receiver.mac, plain, iv,
                                        DrainedAfter(s, receiver.mac, plain, iv, sentAt, h, p, heardAt));
             forall q :: q in order && q !in message && IsFragment(q) ==> DecodeHeader(q.payload).msgId != s.nextMsgId
    ensures exists k :: 0 <= k <= |order| && Delivers(receiver, ReceivedInOrder(order, readAt)[..k], plain)
  {
    hide DrainedAfter, MessagePart, Delivers, Reachable, NotFrom, Storable, MacToString, Timely, DecodeHeader, Project;
    var drained := DrainedAfter(s, receiver.mac, plain, iv, sentAt, h, p, heardAt);
    var message := MessagePart(s, receiver.mac, plain, iv, drained);
    var run := ReceivedInOrder(order, readAt);
    SameElements(order, drained);
    DrainedFits(s, receiver.mac, plain, iv, sentAt, h, p, heardAt);
    AllAllowedInOrder(order, readAt);
    forall q | q in message
      ensures exists e :: e in run && e.Received? && e.p == q
    {
      assert q in order;
      var i :| 0 <= i < |order| && order[i] == q;
      assert run[i] in run;
    }
    forall e | e in run && IsFragmentOf(receiver.mac, e, s.nextMsgId)
      ensures e.p in message
    {
      var i :| 0 <= i < |run| && run[i] == e;
      assert e.p in order;
    }
    NoEvictions(receiver.mac, order, readAt, |order|);
    assert run[..|order|] == run;
    NothingEvicted(Project(receiver.mac, run), s.nextMsgId);
    assert BringsAll(receiver, run[..|order|], message, s.nextMsgId);
    StoredMessageArrives(s, receiver, plain, iv, sentAt, h, p, heardAt, run);
  }
}
