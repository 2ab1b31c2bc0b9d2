/** The node: its objects, and the handlers that update them. */
module Node {
  import opened Bytes
  import opened Packets
  import opened MacText
  import opened AesBlock
  import opened KeySchedule
  import opened Aes256
  import opened PairKeys
  import opened Envelope
  import opened Fragments
  import opened RueStore
  import opened Routing
  import opened Adverts
  import opened Acks
  import opened NodeSpec

  lemma AckPacketIs(s: NodeState, p: Packet)
    ensures AckPacket(s, p)
         == NewPacket(PacketType.Ack, s.mac, p.header.source, p.header.sequenceId, Le(p.header.sequenceId, 4))
  {
  }

  lemma ConcludeFrame(s: NodeState, t: NodeState, p: Packet, text: seq<byte>, now: u64)
    requires s.mac == t.mac
    ensures Conclude(s, p, text, false, now) == Conclude(t, p, text, false, now)
  {
  }

  lemma StoredStorable(queue: seq<RueEntry>, packets: seq<Packet>, dest: Mac, now: u64)
    requires Storable(queue) && forall p :: p in packets ==> p.header.payloadLen <= MAX_PAYLOAD_SIZE
    ensures Storable(queue + Stored(packets, dest, now))
  {
  }

  lemma SplitNotEmpty(data: seq<byte>, kind: PacketType, src: Mac, dst: Mac, seqNum: u32, msgId: u16)
    ensures Split(data, kind, src, dst, seqNum, msgId) != []
  {
  }

  lemma SendPacketsAre(s: NodeState, target: string, message: seq<byte>, iv: Block)
    requires |message| <= WORK_BYTES && target != "" && message != []
    ensures var sealed := Seal(PairSchedule(s, StringToMac(target)), iv, message, MESSAGE_BYTES);
            && SendPackets(s, target, message, iv)
               == (if sealed == [] then [] else Split(sealed, Data, s.mac, StringToMac(target), s.seqNum, s.nextMsgId))
            && (sealed == [] <==> SendPackets(s, target, message, iv) == [])
  {
    hide Seal, StringToMac, PairSchedule;
    var sealed := Seal(PairSchedule(s, StringToMac(target)), iv, message, MESSAGE_BYTES);
    SplitNotEmpty(sealed, Data, s.mac, StringToMac(target), s.seqNum, s.nextMsgId);
  }

  class Node {
    const mac: Mac
    const baseKey: Key
    var known: set<string>
    var seqNum: u32
    var ciphers: map<string, Cipher>
    const routes: RoutingTable
    const queue: RueQueue
    const frags: FragmentManager
    const acks: AckTable

    /** The cached cipher of every address is the one a fresh derivation would make. */
    ghost predicate CiphersFresh()
      reads this
    {
      forall m: Mac :: MacToString(m) in ciphers ==>
        ciphers[MacToString(m)].roundKeys == Expand(PairKey(mac, m, baseKey))
    }

    ghost predicate Valid()
      reads this, queue
    {
      queue.Valid() && Storable(queue.Entries()) && CiphersFresh()
    }

    ghost function State(): NodeState
      reads this, routes, queue, frags, acks
    {
      NodeState(mac, baseKey, known, routes.table, queue.Entries(), frags.partials, frags.nextMsgId,
                acks.pending, acks.nextSeq, seqNum)
    }

    /** Starts with the queue file left by an earlier run, if there is one. */
    constructor (mac: Mac, baseKey: Key, file: Option<seq<byte>>)
      requires file.Some? ==> exists es :: file.value == FileOf(es) && Storable(es)
      ensures Valid()
      ensures State() == NodeState(mac, baseKey, {}, map[], queue.Entries(), map[], 1, map[], 1, 0)
      ensures queue.file == if file.Some? then file.value else FileOf([])
    {
      this.mac, this.baseKey := mac, baseKey;
      known, seqNum, ciphers := {}, 0, map[];
      routes := new RoutingTable();
      queue := new RueQueue(file);
      frags := new FragmentManager();
      acks := new AckTable();
      new;
      ghost var es: seq<RueEntry> := [];
      if file.Some? {
        es :| file.value == FileOf(es) && Storable(es);
      }
      ReadOfFile(es, []);
      assert FileOf(es) + [] == FileOf(es);
    }

    /** The cipher shared with a node, derived when first asked for. */
    method GetPairCipher(their: Mac) returns (aes: Cipher)
      requires CiphersFresh()
      modifies this`ciphers
      ensures CiphersFresh()
      ensures aes.roundKeys == Expand(PairKey(mac, their, baseKey))
    {
      hide MacToString, Expand, PairKey;
      var text := PrintMac(their);
      if text in ciphers {
        return ciphers[text];
      }
      var key := new byte[KEY_BYTES];
      DerivePairKey(mac, their, baseKey, key);
      aes := new Cipher(key[..]);
      ciphers := ciphers[text := aes];
      forall m: Mac | MacToString(m) in ciphers
        ensures ciphers[MacToString(m)].roundKeys == Expand(PairKey(mac, m, baseKey))
      {
        if MacToString(m) == text {
          MacToStringInjective(m, their);
        }
      }
    }

    method HearFrom(src: Mac, now: u64)
      modifies this`known, routes
      ensures known == Hear(old(State()), src, now).known
      ensures routes.table == Hear(old(State()), src, now).table
    {
      hide MacToString, AddRoute;
      var text := PrintMac(src);
      if text !in known {
        known := known + {text};
        routes.Add(src, src, 1, now);
      }
    }

    /** The auto-delivery loop: one packet for every entry queued for `src`, each then removed. */
    method DrainFor(src: Mac) returns (drained: seq<Packet>)
      requires queue.Valid() && Storable(queue.Entries())
      modifies this`seqNum, queue
      ensures queue.Valid() && Storable(queue.Entries())
      ensures queue.Entries() == NotFor(old(queue.Entries()), src)
      ensures seqNum == SeqAfter(old(seqNum), |For(old(queue.Entries()), src)|)
      ensures Storable(For(old(queue.Entries()), src))
      ensures drained == DrainPackets(old(State()), For(old(queue.Entries()), src))
    {
      hide NewPacket, FileOf, SeqAfter, NextSeq, For, NotFor, RemoveFirst, HasMatch;
      ghost var before := queue.Entries();
      ghost var s := State();
      ForStorable(before, src);
      var pending := queue.GetPending(src);
      drained := [];
      SeqAfterSteps(seqNum, 0);
      for i := 0 to |pending|
        invariant queue.Valid()
        invariant For(queue.Entries(), src) == pending[i..] && NotFor(queue.Entries(), src) == NotFor(before, src)
        invariant seqNum == SeqAfter(s.seqNum, i)
        invariant |drained| == i
        invariant forall k :: 0 <= k < i ==> drained[k] == DrainPacket(s, pending[k], SeqAfter(s.seqNum, k))
      {
        var entry := pending[i];
        assert entry in pending;
        var fwd := NewPacket(Data, mac, entry.dest, seqNum, entry.payload[..entry.payloadLen]);
        SeqAfterSteps(s.seqNum, i);
        seqNum := NextSeq(seqNum);
        drained := drained + [fwd];
        RemoveFirstPending(queue.Entries(), src);
        assert pending[i..][0] == entry && pending[i..][1..] == pending[i + 1..];
        var found := queue.RemoveEntry(entry);
      }
      NothingFor(queue.Entries(), src);
    }

    /** The advert sent to a node that said hello. */
    method AnswerHello(src: Mac) returns (advert: Packet)
      modifies this`seqNum
      ensures seqNum == AnswerDiscovery(old(State()), src).0.seqNum
      ensures Some(advert) == AnswerDiscovery(old(State()), src).1.reply
    {
      hide NewPacket, NextSeq;
      var payload := new byte[512];
      var len := PackRoutes(known, payload, 512);
      assert |AdvertBody(known)| <= MAX_PAYLOAD_SIZE;
      advert := NewPacket(RouteAdv, mac, src, seqNum, payload[..len]);
      seqNum := NextSeq(seqNum);
    }

    method TakeAcknowledgement(p: Packet)
      modifies acks
      ensures acks.pending == TakeAck(old(State()), p).pending && acks.nextSeq == old(acks.nextSeq)
    {
      hide AckedKey;
      if p.header.payloadLen >= 4 {
        acks.Acknowledge(AckedKey(p));
      }
    }

    /** A text was opened: it is delivered, passed on or dropped. */
    method ConcludeText(p: Packet, text: seq<byte>, relay: bool, now: u64) returns (out: Output)
      ensures out == Conclude(State(), p, text, relay, now)
    {
      hide FindNextHop, AckPacket;
      out := SILENCE;
      if text == [] {
        return;
      }
      if p.header.dest != mac {
        if relay {
          var route := routes.NextHop(p.header.dest, now);
          if route.Some? && p.header.ttl > 1 {
            var fwd := p.(header := p.header.(ttl := p.header.ttl - 1));
            out := SILENCE.(forward := Some(Forward(fwd, route.value.nextHop)));
          }
        }
      } else {
        var ack := NewPacket(PacketType.Ack, mac, p.header.source, p.header.sequenceId, Le(p.header.sequenceId, 4));
        assert ack == AckPacket(State(), p) by { AckPacketIs(State(), p); }
        out := SILENCE.(reply := Some(ack), delivered := Some(text));
      }
    }

    method TakeDataPacket(p: Packet, clock: Clock) returns (out: Output)
      requires CiphersFresh()
      requires p.header.payloadLen <= MAX_PAYLOAD_SIZE && FitsWorkBuffer(frags.partials, p, clock)
      modifies this`ciphers, frags
      ensures CiphersFresh() && frags.nextMsgId == old(frags.nextMsgId)
      ensures frags.partials == TakeData(old(State()), p, clock).0.partials
      ensures out == TakeData(old(State()), p, clock).1
    {
      hide DecodeHeader, Reassemble, Open, Conclude, Expand, PairKey, MacToString;
      ghost var s := State();
      if p.header.payloadLen >= FRAG_HEADER_SIZE && DecodeHeader(p.payload).total > 1 {
        var sealed := new byte[REASSEMBLY_BYTES];
        var complete, len := frags.ReassemblePacket(p, sealed, REASSEMBLY_BYTES, clock.nanos);
        if !complete {
          return SILENCE;
        }
        var aes := GetPairCipher(p.header.source);
        var decrypted := new byte[REASSEMBLY_BYTES];
        var n := DecryptPayload(sealed[..len], decrypted, REASSEMBLY_BYTES, aes);
        out := ConcludeText(p, decrypted[..n], false, clock.seconds);
        ConcludeFrame(s, State(), p, decrypted[..n], clock.seconds);
      } else {
        var aes := GetPairCipher(p.header.source);
        var decrypted := new byte[MESSAGE_BYTES];
        var n := DecryptPayload(p.payload[..p.header.payloadLen], decrypted, MESSAGE_BYTES, aes);
        out := ConcludeText(p, decrypted[..n], true, clock.seconds);
      }
    }

    /** The receive handler. */
    method ReceivePacket(p: Packet, clock: Clock) returns (out: Output)
      requires Valid()
      requires p.header.payloadLen <= MAX_PAYLOAD_SIZE
      requires p.header.source != mac && p.header.kind == Data ==> FitsWorkBuffer(frags.partials, p, clock)
      modifies this, routes, queue, frags, acks
      ensures Valid()
      ensures (State(), out) == Receive(old(State()), p, clock)
    {
      hide DecodeHeader, Hear, TakeData, DrainPackets, IsFragment, MacToString, Expand, PairKey, For, NotFor,
           FileOf, AnswerDiscovery, TakeAck, AddAll, Offers, StringToMac, FitsWorkBuffer;
      ghost var s := State();
      out := SILENCE;
      if p.header.source == mac {
        return;
      }
      HearFrom(p.header.source, clock.seconds);
      HearFrame(s, p.header.source, clock.seconds);
      ghost var heard := State();
      assert heard == Hear(s, p.header.source, clock.seconds);
      var text := PrintMac(p.header.source);
      var src := new byte[6];
      ParseMac(text, src);
      StringToMacOfMacToString(p.header.source);
      var drained := DrainFor(src[..]);
      ghost var idle := State();
      assert idle == Drain(heard, p.header.source);
      match p.header.kind {
        case Discovery =>
          var advert := AnswerHello(p.header.source);
          AnswerFrame(idle, p.header.source);
          out := SILENCE.(reply := Some(advert));
        case RouteAdv =>
          UnpackRoutes(p.payload[..p.header.payloadLen], p.header.source, routes, clock.seconds);
        case Ack =>
          TakeAcknowledgement(p);
          TakeAckFrame(idle, p);
        case Data =>
          out := TakeDataPacket(p, clock);
          TakeDataFrame(idle, p, clock);
        case Unassigned(_) =>
      }
      out := out.(drained := drained);
    }

    /** The broadcast that opens each round of the loop. */
    method Hello(ttl: u8) returns (hello: Packet)
      modifies this`seqNum
      ensures hello == HelloPacket(old(State()), ttl) && seqNum == NextSeq(old(seqNum))
    {
      hide NewPacket, NextSeq;
      var p := NewPacket(Discovery, mac, BROADCAST, seqNum, HELLO);
      hello := p.(header := p.header.(ttl := ttl));
      seqNum := NextSeq(seqNum);
    }

    /** Stores every packet of a message for a node out of reach. */
    method Store(packets: seq<Packet>, dest: Mac, now: u64)
      requires queue.Valid() && Storable(queue.Entries())
      requires forall p :: p in packets ==> p.header.payloadLen <= MAX_PAYLOAD_SIZE
      modifies queue
      ensures queue.Valid() && Storable(queue.Entries())
      ensures queue.Entries() == old(queue.Entries()) + Stored(packets, dest, now)
    {
      hide NewEntry, FileOf, Storable, ReadEntries, HasHeader;
      ghost var before := queue.Entries();
      ghost var all := Stored(packets, dest, now);
      StoredStorable(before, packets, dest, now);
      for i := 0 to |packets|
        invariant queue.Valid() && queue.Entries() == before + all[..i]
      {
        CountOfFile(queue.Entries());
        ghost var entry := NewEntry(dest, packets[i].Body(), now);
        assert before + all[..i] + [entry] == before + all[..i + 1];
        queue.Enqueue(dest, packets[i].payload[..packets[i].header.payloadLen], now);
      }
      assert all[..|packets|] == all;
    }

    /** Seals and splits a message; there are no packets when it does not fit. */
    method PreparePackets(dest: Mac, message: seq<byte>, iv: Block) returns (packets: seq<Packet>)
      requires CiphersFresh() && |message| <= WORK_BYTES
      modifies this`seqNum, this`ciphers, frags
      ensures CiphersFresh() && frags.partials == old(frags.partials)
      ensures var sealed := Seal(Expand(PairKey(mac, dest, baseKey)), iv, message, MESSAGE_BYTES);
              && packets == (if sealed == [] then []
                             else Split(sealed, Data, mac, dest, old(seqNum), old(frags.nextMsgId)))
              && frags.nextMsgId == (if |sealed| <= MAX_FRAG_PAYLOAD then old(frags.nextMsgId)
                                     else (old(frags.nextMsgId) + 1) % 0x1_0000)
      ensures seqNum == SeqAfter(old(seqNum), |packets|)
    {
      hide Seal, Split, Expand, PairKey, MacToString;
      var aes := GetPairCipher(dest);
      var encrypted := new byte[MESSAGE_BYTES];
      var len := EncryptPayload(message, encrypted, MESSAGE_BYTES, aes, iv);
      SeqAfterSteps(seqNum, 0);
      if len == 0 {
        return [];
      }
      packets, seqNum := frags.FragmentMessage(encrypted[..len], Data, mac, dest, seqNum);
    }

    /** The send command. */
    method SendMessage(target: string, message: seq<byte>, iv: Block, clock: Clock) returns (sent: seq<Packet>)
      requires Valid() && |message| <= WORK_BYTES
      modifies this`seqNum, this`ciphers, queue, frags, acks
      ensures Valid()
      ensures (State(), sent) == Send(old(State()), target, message, iv, clock)
    {
      hide Seal, Split, Stored, FindNextHop, StringToMac, Expand, PairKey, FileOf, MacToString, SeqAfter, NextSeq,
           Storable;
      ghost var s := State();
      sent := [];
      if target == "" || message == [] {
        return;
      }
      var dest := new byte[6];
      ParseMac(target, dest);
      var reachable := target in known;
      if !reachable {
        var route := routes.NextHop(dest[..], clock.seconds);
        reachable := route.Some?;
      }
      var packets := PreparePackets(dest[..], message, iv);
      SendPacketsAre(s, target, message, iv);
      SeqAfterSteps(s.seqNum, 0);
      if packets == [] {
        return;
      }
      if reachable {
        sent := packets;
        var key := acks.Track(dest[..], message, clock.nanos);
      } else {
        Store(packets, dest[..], clock.seconds);
      }
    }

    method SweepPending(now: int) returns (reports: seq<Report>)
      modifies acks
      ensures State() == old(State()).(pending := Swept(old(acks.pending), now))
      ensures ReportsOf(reports, old(acks.pending), now)
    {
      reports := acks.Sweep(now);
    }

    method DropStale(now: int, maxAge: u32)
      modifies frags
      ensures State() == old(State()).(partials := Cleanup(old(frags.partials), now, maxAge))
    {
      frags.CleanupStale(now, maxAge);
    }
  }
}
