/** A network of nodes over a channel that may lose, delay, repeat and reorder packets. */
module Network {
  import opened Bytes
  import opened Packets
  import opened MacText
  import opened Envelope
  import opened Fragments
  import opened RueStore
  import opened Routing
  import opened Adverts
  import opened NodeSpec
  import opened Delivery
  import opened NodeRoutes

  /** The nodes by address, and every packet ever put on the air: any node may receive any of them at any time. */
  datatype Net = Net(nodes: map<Mac, NodeState>, air: set<Packet>)

  /** One node does one thing. */
  datatype NetStep = NetStep(node: Mac, event: NodeEvent)

  ghost predicate Enabled(net: Net, a: NetStep) {
    && a.node in net.nodes && Storable(net.nodes[a.node].queue) && Allowed(a.event)
    && (a.event.Received? ==> a.event.p in net.air)
  }

  function OnAir(out: Output): set<Packet> {
    (set p | p in out.drained)
    + (if out.reply.Some? then {out.reply.value} else {})
    + (if out.forward.Some? then {out.forward.value.packet} else {})
  }

  /** The packets a node puts on the air when it does `e`. */
  ghost function Transmitted(s: NodeState, e: NodeEvent): set<Packet>
    requires Storable(s.queue) && Allowed(e)
  {
    match e
    case Received(p, clock) => OnAir(Receive(s, p, clock).1)
    case Commanded(target, message, iv, clock) => set p | p in Send(s, target, message, iv, clock).1
    case Greeted(ttl) => {HelloPacket(s, ttl)}
    case _ => {}
  }

  ghost function NetNext(net: Net, a: NetStep): Net
    requires Enabled(net, a)
  {
    var s := net.nodes[a.node];
    Net(net.nodes[a.node := NodeStep(s, a.event).0], net.air + Transmitted(s, a.event))
  }

  // ----- the invariant

  /** Everything an advert says is known to the node that sent it, and is one hop from it. */
  ghost predicate AdvertSound(advert: seq<byte>, known: set<string>) {
    forall i :: 0 <= i < RecordCount(advert) ==>
      var o := OfferAt(advert, i, BROADCAST, 0); o.hops == 2 && MacToString(o.dest) in known
  }

  ghost predicate PacketSound(p: Packet, nodes: map<Mac, NodeState>) {
    && p.header.payloadLen <= MAX_PAYLOAD_SIZE && p.header.source in nodes
    && (p.header.kind == RouteAdv ==> AdvertSound(p.Body(), nodes[p.header.source].known))
  }

  /**
   The entry kept under `key`: one hop exactly when `key` is a neighbour, and then the next hop is
   the destination itself; otherwise two hops by a neighbour that has the destination for neighbour.
   */
  ghost predicate EntrySound(key: string, entry: RouteEntry, s: NodeState, nodes: map<Mac, NodeState>) {
    && key == MacToString(entry.dest)
    && (entry.hops == 1 <==> key in s.known)
    && (if entry.hops == 1 then entry.nextHop == entry.dest
        else entry.hops == 2 && MacToString(entry.nextHop) in s.known
             && entry.nextHop in nodes && key in nodes[entry.nextHop].known)
  }

  ghost predicate NodeSound(m: Mac, s: NodeState, nodes: map<Mac, NodeState>) {
    && s.mac == m && Storable(s.queue)
    && MacToString(m) !in s.known
    && (forall t :: t in s.known ==> t in s.table && IsMacText(t))
    && (forall key :: key in s.table ==> EntrySound(key, s.table[key], s, nodes))
  }

  ghost predicate RoutesSound(net: Net) {
    && (forall m :: m in net.nodes ==> NodeSound(m, net.nodes[m], net.nodes))
    && (forall p :: p in net.air ==> PacketSound(p, net.nodes))
  }

  /** Every node has just started, with whatever its queue file holds. */
  ghost predicate Initial(net: Net) {
    && net.air == {}
    && forall m :: m in net.nodes ==>
         var s := net.nodes[m]; s.mac == m && s.known == {} && s.table == map[] && Storable(s.queue)
  }

  // ----- neighbours only grow

  ghost predicate Grows(nodes: map<Mac, NodeState>, after: map<Mac, NodeState>) {
    nodes.Keys == after.Keys && forall m :: m in nodes ==> nodes[m].known <= after[m].known
  }

  lemma PacketSoundGrows(p: Packet, nodes: map<Mac, NodeState>, after: map<Mac, NodeState>)
    requires PacketSound(p, nodes) && Grows(nodes, after)
    ensures PacketSound(p, after)
  {
    hide MacToString, OfferAt, RecordCount;
  }

  lemma EntrySoundGrows(key: string, entry: RouteEntry, s: NodeState, nodes: map<Mac, NodeState>,
                        after: map<Mac, NodeState>)
    requires EntrySound(key, entry, s, nodes) && Grows(nodes, after)
    ensures EntrySound(key, entry, s, after)
  {
    hide MacToString;
  }

  // ----- the table of one node

  /** What `NodeSound` says of the neighbours and routes of a node. */
  ghost predicate TableSound(s: NodeState, nodes: map<Mac, NodeState>) {
    && (forall t :: t in s.known ==> t in s.table && IsMacText(t))
    && (forall key :: key in s.table ==> EntrySound(key, s.table[key], s, nodes))
  }

  lemma HearSound(s: NodeState, src: Mac, now: u64, nodes: map<Mac, NodeState>)
    requires TableSound(s, nodes)
    ensures var t := Hear(s, src, now); TableSound(t, nodes) && MacToString(src) in t.known
  {
    hide MacToString;
    var key := MacToString(src);
    var t := Hear(s, src, now);
    if key !in s.known {
      assert key in s.table ==> EntrySound(key, s.table[key], s, nodes);
      assert t.table == s.table[key := RouteEntry(src, src, 1, now)];
      assert IsMacText(key);
      forall k | k in t.table
        ensures EntrySound(k, t.table[k], t, nodes)
      {
        if k != key {
          assert EntrySound(k, s.table[k], s, nodes);
        }
      }
    }
  }

  /** An offer that comes from a sound advert. */
  ghost predicate OfferSound(o: Offer, s: NodeState, nodes: map<Mac, NodeState>) {
    && o.hops == 2 && MacToString(o.nextHop) in s.known && o.nextHop in nodes
    && MacToString(o.dest) in nodes[o.nextHop].known
  }

  lemma AddRouteSound(s: NodeState, o: Offer, nodes: map<Mac, NodeState>)
    requires TableSound(s, nodes) && OfferSound(o, s, nodes)
    ensures TableSound(s.(table := AddRoute(s.table, o)), nodes)
  {
    hide MacToString;
    var key := MacToString(o.dest);
    var t := s.(table := AddRoute(s.table, o));
    forall k | k in t.table
      ensures EntrySound(k, t.table[k], t, nodes)
    {
      if k in s.table {
        assert EntrySound(k, s.table[k], s, nodes);
      }
    }
  }

  lemma {:induction false} AddAllSound(s: NodeState, offers: seq<Offer>, nodes: map<Mac, NodeState>)
    requires TableSound(s, nodes)
    requires forall o :: o in offers ==> OfferSound(o, s, nodes)
    ensures TableSound(s.(table := AddAll(s.table, offers)), nodes)
  {
    hide MacToString, AddRoute, EntrySound;
    if offers != [] {
      var init, last := offers[..|offers| - 1], offers[|offers| - 1];
      AddAllSound(s, init, nodes);
      var t := s.(table := AddAll(s.table, init));
      assert last in offers;
      AddRouteSound(t, last, nodes);
    }
  }

  lemma OffersSound(p: Packet, s: NodeState, now: u64, nodes: map<Mac, NodeState>)
    requires PacketSound(p, nodes) && p.header.kind == RouteAdv
    requires MacToString(p.header.source) in s.known
    ensures forall o :: o in Offers(p.Body(), p.header.source, now) ==> OfferSound(o, s, nodes)
  {
    hide MacToString;
    var advert := p.Body();
    forall i | 0 <= i < RecordCount(advert)
      ensures OfferSound(OfferAt(advert, i, p.header.source, now), s, nodes)
    {
      assert OfferAt(advert, i, BROADCAST, 0).dest == OfferAt(advert, i, p.header.source, now).dest;
    }
  }

  /** A node's own advert is sound. */
  lemma OwnAdvertSound(known: set<string>)
    requires forall t :: t in known ==> IsMacText(t)
    ensures AdvertSound(AdvertBody(known), known)
  {
    hide MacToString, Pack, OfferAt, Sorted, ToNat;
    AdvertRoundTrip(known, BROADCAST, 0);
    var advert := AdvertBody(known);
    var offers := Offers(advert, BROADCAST, 0);
    SortedElements(known);
    forall i | 0 <= i < RecordCount(advert)
      ensures OfferAt(advert, i, BROADCAST, 0).hops == 2 && MacToString(OfferAt(advert, i, BROADCAST, 0).dest) in known
    {
      assert offers[i] == OfferAt(advert, i, BROADCAST, 0);
      assert Sorted(known)[i] in Sorted(known);
    }
  }

  // ----- one step of one node

  /** A packet from `a` or relayed for `b`, that is no advert; or the advert of `known` from `a`. */
  ghost predicate Ordinary(q: Packet, a: Mac, b: Mac, known: set<string>) {
    && q.header.payloadLen <= MAX_PAYLOAD_SIZE
    && (q.header.source == a || q.header.source == b)
    && (q.header.kind == RouteAdv ==> q.header.source == a && q.Body() == AdvertBody(known))
  }

  lemma ConcludeOrdinary(s: NodeState, p: Packet, text: seq<byte>, relay: bool, now: u64, q: Packet, known: set<string>)
    requires p.header.payloadLen <= MAX_PAYLOAD_SIZE && p.header.kind == Data
    requires q in OnAir(Conclude(s, p, text, relay, now))
    ensures Ordinary(q, s.mac, p.header.source, known)
  {
    hide AdvertBody, FindNextHop, NewPacket;
    NewPacketIs(PacketType.Ack, s.mac, p.header.source, p.header.sequenceId, Le(p.header.sequenceId, 4));
  }

  lemma OwnAdvertOrdinary(s: NodeState, dest: Mac)
    ensures Ordinary(NewPacket(RouteAdv, s.mac, dest, s.seqNum, AdvertBody(s.known)), s.mac, dest, s.known)
  {
    hide AdvertBody, NewPacket;
    NewPacketIs(RouteAdv, s.mac, dest, s.seqNum, AdvertBody(s.known));
  }

  lemma TakeByTypeOrdinary(s: NodeState, p: Packet, clock: Clock, q: Packet)
    requires p.header.payloadLen <= MAX_PAYLOAD_SIZE
    requires q in OnAir(TakeByType(s, p, clock).1)
    ensures Ordinary(q, s.mac, p.header.source, s.known)
  {
    hide AdvertBody, NewPacket, Conclude, DecodeHeader, Reassemble, Open, PairSchedule, IsFragment, Learn, TakeAck,
         Ordinary;
    match p.header.kind
    case Discovery =>
      NewPacketIs(RouteAdv, s.mac, p.header.source, s.seqNum, AdvertBody(s.known));
      OwnAdvertOrdinary(s, p.header.source);
    case Data =>
      var w := PairSchedule(s, p.header.source);
      if IsFragment(p) {
        match Reassemble(s.partials, p, REASSEMBLY_BYTES, clock.nanos).1
        case None =>
        case Some(sealed) =>
          var partials := Reassemble(s.partials, p, REASSEMBLY_BYTES, clock.nanos).0;
          ConcludeOrdinary(s, p, Open(w, sealed, REASSEMBLY_BYTES), false, clock.seconds, q, s.known);
      } else {
        ConcludeOrdinary(s, p, Open(w, p.Body(), MESSAGE_BYTES), true, clock.seconds, q, s.known);
      }
    case _ =>
  }

  lemma DataOrdinary(a: Mac, dest: Mac, seqNum: u32, body: seq<byte>, b: Mac, known: set<string>)
    requires |body| <= MAX_PAYLOAD_SIZE
    ensures Ordinary(NewPacket(Data, a, dest, seqNum, body), a, b, known)
  {
    hide AdvertBody, NewPacket;
    NewPacketIs(Data, a, dest, seqNum, body);
  }

  lemma SplitOrdinary(data: seq<byte>, a: Mac, dest: Mac, seqNum: u32, msgId: u16, q: Packet, known: set<string>)
    requires q in Split(data, Data, a, dest, seqNum, msgId)
    ensures Ordinary(q, a, a, known)
  {
    hide AdvertBody, NewPacket, FragmentBody, Ordinary;
    if |data| <= MAX_FRAG_PAYLOAD {
      DataOrdinary(a, dest, seqNum, data, a, known);
    } else {
      var i :| 0 <= i < FragTotal(|data|) && q == FragmentPacket(data, Data, a, dest, seqNum, msgId, i);
      ChunksInRange(|data|, i);
      DataOrdinary(a, dest, SeqAfter(seqNum, i), FragmentBody(data, msgId, i), a, known);
    }
  }

  lemma HelloOrdinary(s: NodeState, ttl: u8, known: set<string>)
    ensures Ordinary(HelloPacket(s, ttl), s.mac, s.mac, known)
  {
    hide AdvertBody, NewPacket;
    NewPacketIs(Discovery, s.mac, BROADCAST, s.seqNum, HELLO);
  }

  lemma TransmittedOrdinary(s: NodeState, e: NodeEvent, q: Packet)
    requires Storable(s.queue) && Allowed(e) && q in Transmitted(s, e)
    ensures Ordinary(q, s.mac, if e.Received? then e.p.header.source else s.mac, NodeStep(s, e).0.known)
  {
    hide AdvertBody, NewPacket, Ordinary, TakeByType, For, NotFor, Hear, NodeStep, StringToMac, Seal, Split,
         PairSchedule, FindNextHop;
    match e
    case Received(p, clock) =>
      if p.header.source != s.mac {
        ForStorable(s.queue, p.header.source);
        var heard := Hear(s, p.header.source, clock.seconds);
        HearFrame(s, p.header.source, clock.seconds);
        StepRoutes(s, e);
        var ready := Drain(heard, p.header.source);
        var entries := For(heard.queue, p.header.source);
        var drained := DrainPackets(heard, entries);
        if q in drained {
          var k :| 0 <= k < |drained| && drained[k] == q;
          assert entries[k] in entries;
          DataOrdinary(s.mac, entries[k].dest, SeqAfter(heard.seqNum, k), entries[k].payload[..entries[k].payloadLen],
                       p.header.source, NodeStep(s, e).0.known);
        } else {
          assert q in OnAir(TakeByType(ready, p, clock).1);
          TakeByTypeOrdinary(ready, p, clock, q);
        }
      }
    case Commanded(target, message, iv, clock) =>
      var sealed := Seal(PairSchedule(s, StringToMac(target)), iv, message, MESSAGE_BYTES);
      assert q in Split(sealed, Data, s.mac, StringToMac(target), s.seqNum, s.nextMsgId);
      SplitOrdinary(sealed, s.mac, StringToMac(target), s.seqNum, s.nextMsgId, q, NodeStep(s, e).0.known);
    case Greeted(ttl) =>
      HelloOrdinary(s, ttl, NodeStep(s, e).0.known);
    case _ =>
  }

  // ----- the network

  lemma SameTable(s: NodeState, t: NodeState, nodes: map<Mac, NodeState>)
    requires TableSound(s, nodes) && s.known == t.known && s.table == t.table
    ensures TableSound(t, nodes)
  {
    hide MacToString;
    forall k | k in t.table
      ensures EntrySound(k, t.table[k], t, nodes)
    {
      assert EntrySound(k, s.table[k], s, nodes);
    }
  }

  lemma StepTableSound(s: NodeState, e: NodeEvent, nodes: map<Mac, NodeState>)
    requires Storable(s.queue) && Allowed(e) && TableSound(s, nodes)
    requires e.Received? ==> PacketSound(e.p, nodes)
    ensures TableSound(NodeStep(s, e).0, nodes)
    ensures s.known <= NodeStep(s, e).0.known
    ensures MacToString(s.mac) !in s.known ==> MacToString(s.mac) !in NodeStep(s, e).0.known
  {
    hide MacToString, NodeStep, AddAll, AddRoute, Offers, EntrySound, PacketSound;
    StepRoutes(s, e);
    var t := NodeStep(s, e).0;
    if e.Received? && e.p.header.source != s.mac {
      var src := e.p.header.source;
      HearSound(s, src, e.clock.seconds, nodes);
      var heard := Hear(s, src, e.clock.seconds);
      if MacToString(s.mac) == MacToString(src) {
        MacToStringInjective(s.mac, src);
      }
      if e.p.header.kind == RouteAdv {
        OffersSound(e.p, heard, e.clock.seconds, nodes);
        AddAllSound(heard, Offers(e.p.Body(), src, e.clock.seconds), nodes);
        SameTable(heard.(table := t.table), t, nodes);
      } else {
        SameTable(heard, t, nodes);
      }
    } else {
      SameTable(s, t, nodes);
    }
  }

  lemma OrdinarySound(q: Packet, a: Mac, b: Mac, nodes: map<Mac, NodeState>)
    requires a in nodes && b in nodes && Ordinary(q, a, b, nodes[a].known)
    requires forall t :: t in nodes[a].known ==> IsMacText(t)
    ensures PacketSound(q, nodes)
  {
    hide AdvertBody, AdvertSound;
    OwnAdvertSound(nodes[a].known);
  }

  lemma TableSoundGrows(s: NodeState, nodes: map<Mac, NodeState>, after: map<Mac, NodeState>)
    requires TableSound(s, nodes) && Grows(nodes, after)
    ensures TableSound(s, after)
  {
    hide MacToString, EntrySound;
    forall k | k in s.table
      ensures EntrySound(k, s.table[k], s, after)
    {
      EntrySoundGrows(k, s.table[k], s, nodes, after);
    }
  }

  lemma SourceInNet(net: Net, a: NetStep)
    requires RoutesSound(net) && Enabled(net, a)
    ensures a.event.Received? ==> a.event.p.header.source in net.nodes
  {
    hide AdvertSound;
    if a.event.Received? {
      assert PacketSound(a.event.p, net.nodes);
    }
  }

  /** Every step of every node keeps the routes of all nodes, and all packets, sound. */
  lemma StepKeepsRoutesSound(net: Net, a: NetStep)
    requires RoutesSound(net) && Enabled(net, a)
    ensures RoutesSound(NetNext(net, a))
  {
    hide MacToString, NodeStep, Transmitted, EntrySound, PacketSound, Ordinary;
    var s := net.nodes[a.node];
    var t := NodeStep(s, a.event).0;
    var after := NetNext(net, a).nodes;
    assert NodeSound(a.node, s, net.nodes);
    StepTableSound(s, a.event, net.nodes);
    assert Grows(net.nodes, after);
    forall m | m in after
      ensures NodeSound(m, after[m], after)
    {
      if m == a.node {
        TableSoundGrows(t, net.nodes, after);
      } else {
        assert NodeSound(m, net.nodes[m], net.nodes);
        TableSoundGrows(net.nodes[m], net.nodes, after);
      }
    }
    forall q | q in NetNext(net, a).air
      ensures PacketSound(q, after)
    {
      if q in net.air {
        PacketSoundGrows(q, net.nodes, after);
      } else {
        TransmittedOrdinary(s, a.event, q);
        SourceInNet(net, a);
        OrdinarySound(q, a.node, if a.event.Received? then a.event.p.header.source else a.node, after);
      }
    }
  }

  // ----- runs

  /** `nets` is a run of the network from its start, one enabled step after the other. */
  ghost predicate IsRun(nets: seq<Net>, steps: seq<NetStep>) {
    && |nets| == |steps| + 1 && Initial(nets[0])
    && forall i :: 0 <= i < |steps| ==> Enabled(nets[i], steps[i]) && nets[i + 1] == NetNext(nets[i], steps[i])
  }

  lemma NodesStartSound(net: Net)
    requires Initial(net)
    ensures RoutesSound(net)
  {
    hide MacToString, PacketSound, EntrySound;
  }

  /**
   In every state of every run: no node has itself for neighbour, an entry has one hop exactly when
   its destination is a neighbour and is then its own next hop, and every other entry has two hops
   by a neighbour that itself has the destination for neighbour.
   */
  lemma {:induction false} RoutesSoundAlways(nets: seq<Net>, steps: seq<NetStep>, i: nat)
    requires IsRun(nets, steps) && i < |nets|
    ensures RoutesSound(nets[i])
  {
    hide MacToString, NetNext, PacketSound, EntrySound, Enabled;
    if i > 0 {
      RoutesSoundAlways(nets, steps, i - 1);
      assert nets[i - 1 + 1] == NetNext(nets[i - 1], steps[i - 1]);
      StepKeepsRoutesSound(nets[i - 1], steps[i - 1]);
    } else {
      NodesStartSound(nets[0]);
    }
  }

  // ----- the route to a neighbour is never renewed

  /** While a node has `dest` for neighbour, no step of an honest network touches its route to `dest`. */
  lemma NeighbourRouteKept(net: Net, a: NetStep, m: Mac, dest: Mac)
    requires RoutesSound(net) && Enabled(net, a) && m in net.nodes && MacToString(dest) in net.nodes[m].known
    ensures var s, t, key := net.nodes[m], NetNext(net, a).nodes[m], MacToString(dest);
            key in t.known && key in s.table && key in t.table && t.table[key] == s.table[key]
  {
    hide MacToString, AddAll, Offers, PacketSound, NodeStep;
    var s, key := net.nodes[m], MacToString(dest);
    assert NodeSound(m, s, net.nodes);
    assert EntrySound(key, s.table[key], s, net.nodes);
    if m == a.node {
      var e := a.event;
      StepRoutes(s, e);
      if e.Received? && e.p.header.source != s.mac {
        var heard := Hear(s, e.p.header.source, e.clock.seconds);
        HearSound(s, e.p.header.source, e.clock.seconds, net.nodes);
        assert heard.table[key] == s.table[key];
        if e.p.header.kind == RouteAdv {
          assert PacketSound(e.p, net.nodes);
          OffersSound(e.p, heard, e.clock.seconds, net.nodes);
          EntryStaysIff(heard.table, Offers(e.p.Body(), e.p.header.source, e.clock.seconds), dest);
        }
      }
    }
  }

  lemma FirstHeard(net: Net, a: NetStep)
    requires RoutesSound(net) && Enabled(net, a) && a.event.Received?
    requires a.event.p.header.source != a.node && MacToString(a.event.p.header.source) !in net.nodes[a.node].known
    ensures var dest := a.event.p.header.source;
            var t, key := NetNext(net, a).nodes[a.node], MacToString(dest);
            key in t.known && key in t.table && t.table[key] == RouteEntry(dest, dest, 1, a.event.clock.seconds)
  {
    hide MacToString, AddAll, Offers, PacketSound, NodeStep;
    var s, e := net.nodes[a.node], a.event;
    var dest, key := e.p.header.source, MacToString(e.p.header.source);
    assert NodeSound(a.node, s, net.nodes);
    assert key in s.table ==> EntrySound(key, s.table[key], s, net.nodes);
    StepRoutes(s, e);
    var heard := Hear(s, dest, e.clock.seconds);
    HearSound(s, dest, e.clock.seconds, net.nodes);
    assert heard.table[key] == RouteEntry(dest, dest, 1, e.clock.seconds);
    if e.p.header.kind == RouteAdv {
      assert PacketSound(e.p, net.nodes);
      OffersSound(e.p, heard, e.clock.seconds, net.nodes);
      EntryStaysIff(heard.table, Offers(e.p.Body(), dest, e.clock.seconds), dest);
    }
  }

  lemma SameNodes(net: Net, a: NetStep)
    requires Enabled(net, a)
    ensures NetNext(net, a).nodes.Keys == net.nodes.Keys
  {
    hide NodeStep, Transmitted;
  }

  lemma {:induction false} NeighbourRouteKeptOverRun(nets: seq<Net>, steps: seq<NetStep>, i: nat, j: nat, m: Mac,
                                                     dest: Mac)
    requires IsRun(nets, steps) && i <= j < |nets| && m in nets[i].nodes
    requires MacToString(dest) in nets[i].nodes[m].known && MacToString(dest) in nets[i].nodes[m].table
    ensures m in nets[j].nodes
    ensures var s, t, key := nets[i].nodes[m], nets[j].nodes[m], MacToString(dest);
            key in t.known && key in t.table && t.table[key] == s.table[key]
    decreases j
  {
    hide MacToString, NetNext, RoutesSound, Enabled;
    if i < j {
      NeighbourRouteKeptOverRun(nets, steps, i, j - 1, m, dest);
      RoutesSoundAlways(nets, steps, j - 1);
      assert nets[j - 1 + 1] == NetNext(nets[j - 1], steps[j - 1]);
      SameNodes(nets[j - 1], steps[j - 1]);
      NeighbourRouteKept(nets[j - 1], steps[j - 1], m, dest);
    }
  }

  /**
   Only a strictly shorter route is ever stored. So in every run of an honest network a node finds
   its route to a neighbour exactly until 30 seconds after it first heard it, however often it hears
   from it later.
   */
  lemma NeighbourRouteExpires(nets: seq<Net>, steps: seq<NetStep>, i: nat, j: nat, now: u64)
    requires IsRun(nets, steps) && i < j < |nets| && steps[i].event.Received?
    requires steps[i].event.p.header.source != steps[i].node && steps[i].node in nets[i].nodes
    requires MacToString(steps[i].event.p.header.source) !in nets[i].nodes[steps[i].node].known
    ensures var m, dest, first := steps[i].node, steps[i].event.p.header.source, steps[i].event.clock.seconds;
            && m in nets[j].nodes
            && FindNextHop(nets[j].nodes[m].table, dest, now)
               == if IsStale(first, now) then None else Some(RouteEntry(dest, dest, 1, first))
  {
    hide MacToString, NetNext, RoutesSound, IsStale;
    RoutesSoundAlways(nets, steps, i);
    assert Enabled(nets[i], steps[i]) && nets[i + 1] == NetNext(nets[i], steps[i]);
    SameNodes(nets[i], steps[i]);
    FirstHeard(nets[i], steps[i]);
    NeighbourRouteKeptOverRun(nets, steps, i + 1, j, steps[i].node, steps[i].event.p.header.source);
  }

  lemma HearKeepsRoute(s: NodeState, src: Mac, now: u64, dest: Mac)
    requires MacToString(dest) in s.known
    ensures FindNextHop(Hear(s, src, now).table, dest, now) == FindNextHop(s.table, dest, now)
  {
    hide MacToString, IsStale;
  }

  /** From then on it relays no packet to that neighbour. */
  lemma NothingRelayedLater(nets: seq<Net>, steps: seq<NetStep>, i: nat, j: nat, p: Packet, clock: Clock)
    requires IsRun(nets, steps) && i < j < |nets| && steps[i].event.Received?
    requires steps[i].event.p.header.source != steps[i].node && steps[i].node in nets[i].nodes
    requires MacToString(steps[i].event.p.header.source) !in nets[i].nodes[steps[i].node].known
    requires p.header.payloadLen <= MAX_PAYLOAD_SIZE && p.header.dest == steps[i].event.p.header.source
    requires IsStale(steps[i].event.clock.seconds, clock.seconds)
    ensures steps[i].node in nets[j].nodes && Storable(nets[j].nodes[steps[i].node].queue)
    ensures Receive(nets[j].nodes[steps[i].node], p, clock).1.forward == None
  {
    hide MacToString, NetNext, IsStale, Receive, EntrySound, PacketSound;
    var m, dest := steps[i].node, p.header.dest;
    NeighbourRouteExpires(nets, steps, i, j, clock.seconds);
    RoutesSoundAlways(nets, steps, i);
    RoutesSoundAlways(nets, steps, j);
    assert Enabled(nets[i], steps[i]) && nets[i + 1] == NetNext(nets[i], steps[i]);
    SameNodes(nets[i], steps[i]);
    FirstHeard(nets[i], steps[i]);
    NeighbourRouteKeptOverRun(nets, steps, i + 1, j, m, dest);
    var s := nets[j].nodes[m];
    assert NodeSound(m, s, nets[j].nodes);
    HearKeepsRoute(s, p.header.source, clock.seconds, dest);
    ForwardNeedsRoute(s, p, clock);
  }
}
