/** The routing table over whole runs of a node. */
module NodeRoutes {
  import opened Bytes
  import opened Packets
  import opened MacText
  import opened Envelope
  import opened Fragments
  import opened RueStore
  import opened Routing
  import opened Adverts
  import opened Acks
  import opened NodeSpec
  import opened Delivery

  lemma TakeByTypeRoutes(s: NodeState, p: Packet, clock: Clock)
    requires p.header.payloadLen <= MAX_PAYLOAD_SIZE
    ensures var t := TakeByType(s, p, clock).0;
            && t.known == s.known
            && t.table == (if p.header.kind == RouteAdv
                           then AddAll(s.table, Offers(p.Body(), p.header.source, clock.seconds))
                           else s.table)
  {
    hide AnswerDiscovery, TakeAck, TakeData, Offers, AddAll;
    AnswerFrame(s, p.header.source);
    TakeAckFrame(s, p);
    TakeDataFrame(s, p, clock);
  }

  /** What a step does to the neighbours and the routes of the node. */
  lemma StepRoutes(s: NodeState, e: NodeEvent)
    requires Storable(s.queue) && Allowed(e)
    ensures var t := NodeStep(s, e).0;
            if e.Received? && e.p.header.source != s.mac then
              var heard := Hear(s, e.p.header.source, e.clock.seconds);
              && t.known == heard.known
              && t.table == (if e.p.header.kind == RouteAdv
                             then AddAll(heard.table, Offers(e.p.Body(), e.p.header.source, e.clock.seconds))
                             else heard.table)
            else t.known == s.known && t.table == s.table
  {
    hide MacToString, AddAll, Offers, For, NotFor, Swept, Cleanup, Hear, SendPackets, TakeByType;
    if e.Received? {
      ForStorable(s.queue, e.p.header.source);
      var heard := Hear(s, e.p.header.source, e.clock.seconds);
      TakeByTypeRoutes(Drain(heard, e.p.header.source), e.p, e.clock);
    }
  }

  // ----- the table against the history of offers

  /**
   What `e` offers to the table of a node in state `s`: a 1-hop route to a source heard for the
   first time, and a route for every record of an advert.
   */
  ghost function OffersOf(s: NodeState, e: NodeEvent): seq<Offer>
    requires Allowed(e)
  {
    if e.Received? && e.p.header.source != s.mac then
      var src := e.p.header.source;
      (if MacToString(src) in s.known then [] else [Offer(src, src, 1, e.clock.seconds)])
      + (if e.p.header.kind == RouteAdv then Offers(e.p.Body(), src, e.clock.seconds) else [])
    else []
  }

  ghost function OfferHistory(s: NodeState, h: seq<NodeEvent>): seq<Offer>
    requires Storable(s.queue) && AllAllowed(h)
  {
    if h == [] then []
    else
      var g := h[..|h| - 1];
      OfferHistory(s, g) + OffersOf(NodeAfter(s, g), h[|h| - 1])
  }

  lemma OneOffer(table: Routes, o: Offer)
    ensures AddAll(table, [o]) == AddRoute(table, o)
    ensures AddAll(table, []) == table
  {
    hide AddRoute;
    assert [o][..0] == [];
  }

  lemma StepTable(s: NodeState, e: NodeEvent)
    requires Storable(s.queue) && Allowed(e)
    ensures NodeStep(s, e).0.table == AddAll(s.table, OffersOf(s, e))
  {
    hide MacToString, AddAll, AddRoute, Offers, NodeStep;
    StepRoutes(s, e);
    OneOffer(s.table, Offer(BROADCAST, BROADCAST, 1, 0));
    if e.Received? && e.p.header.source != s.mac {
      var src, now := e.p.header.source, e.clock.seconds;
      var first := if MacToString(src) in s.known then [] else [Offer(src, src, 1, now)];
      var others := if e.p.header.kind == RouteAdv then Offers(e.p.Body(), src, now) else [];
      OneOffer(s.table, Offer(src, src, 1, now));
      OneOffer(AddAll(s.table, first), Offer(src, src, 1, now));
      AddAllConcat(s.table, first, others);
    }
  }

  /** The table of a node is the one of the offers its run made, one after the other. */
  lemma {:induction false} TableFollowsHistory(s: NodeState, h: seq<NodeEvent>)
    requires Storable(s.queue) && AllAllowed(h)
    ensures NodeAfter(s, h).table == AddAll(s.table, OfferHistory(s, h))
  {
    if h == [] {
      OneOffer(s.table, Offer(BROADCAST, BROADCAST, 1, 0));
    } else {
      hide NodeStep, OffersOf, AddAll;
      var g, e := h[..|h| - 1], h[|h| - 1];
      assert e in h;
      TableFollowsHistory(s, g);
      StepTable(NodeAfter(s, g), e);
      AddAllConcat(s.table, OfferHistory(s, g), OffersOf(NodeAfter(s, g), e));
    }
  }

  lemma OffersTime(s: NodeState, e: NodeEvent, now: u64)
    requires Allowed(e) && (e.Received? ==> e.clock.seconds <= now)
    ensures forall o :: o in OffersOf(s, e) ==> o.time <= now
  {
    hide MacToString, RecordCount, ToNat;
  }

  lemma {:induction false} HistoryTime(s: NodeState, h: seq<NodeEvent>, now: u64)
    requires Storable(s.queue) && AllAllowed(h) && forall e :: e in h && e.Received? ==> e.clock.seconds <= now
    ensures forall o :: o in OfferHistory(s, h) ==> o.time <= now
  {
    if h != [] {
      hide NodeStep, OffersOf, NodeAfter;
      var g, e := h[..|h| - 1], h[|h| - 1];
      assert e in h;
      HistoryTime(s, g, now);
      OffersTime(NodeAfter(s, g), e, now);
    }
  }

  /**
   In every run of a node that starts without routes, under a clock that never runs back, a next hop
   is found exactly when the earliest of the offers with the fewest hops, of all those the run made
   for that destination, is at most 30 seconds old; and it is that offer.
   */
  lemma NodeFindsBest(s: NodeState, h: seq<NodeEvent>, dest: Mac, now: u64) returns (i: nat)
    requires Storable(s.queue) && AllAllowed(h) && s.table == map[]
    requires forall e :: e in h && e.Received? ==> e.clock.seconds <= now
    ensures var offers := OfferHistory(s, h);
            && (Offered(offers, dest) ==> IsBest(offers, dest, i))
            && FindNextHop(NodeAfter(s, h).table, dest, now)
               == if Offered(offers, dest) && now - offers[i].time <= 30 then Some(EntryOf(offers[i]))
                  else None
  {
    hide OfferHistory, NodeAfter, AddAll, FindNextHop;
    TableFollowsHistory(s, h);
    HistoryTime(s, h, now);
    var offers := OfferHistory(s, h);
    assert forall k :: 0 <= k < |offers| ==> offers[k] in offers;
    i := FoundExactlyWhenFresh(offers, dest, now);
  }

  /** A route is never renewed by offers of as many hops: it stays, with its age, unless one has fewer. */
  lemma NodeRouteStaysIff(s: NodeState, h: seq<NodeEvent>, dest: Mac)
    requires Storable(s.queue) && AllAllowed(h) && MacToString(dest) in s.table
    ensures var key := MacToString(dest);
            && key in NodeAfter(s, h).table
            && (NodeAfter(s, h).table[key] == s.table[key]
                <==> forall o :: o in OfferHistory(s, h) && o.dest == dest ==> s.table[key].hops <= o.hops)
  {
    hide OfferHistory, NodeAfter, AddAll, MacToString;
    TableFollowsHistory(s, h);
    EntryStaysIff(s.table, OfferHistory(s, h), dest);
  }

  // ----- forwarding

  /** A data packet is relayed over a route that the node finds when it hears the packet. */
  lemma ForwardNeedsRoute(s: NodeState, p: Packet, clock: Clock)
    requires p.header.payloadLen <= MAX_PAYLOAD_SIZE && Storable(s.queue)
    ensures Receive(s, p, clock).1.forward.Some? ==>
              var heard := Hear(s, p.header.source, clock.seconds);
              var route := FindNextHop(heard.table, p.header.dest, clock.seconds);
              route.Some? && Receive(s, p, clock).1.forward.value.nextHop == route.value.nextHop
  {
    hide Reassemble, Open, DecodeHeader, PairSchedule, For, NotFor, AckPacket, DrainPackets, IsFragment,
         AnswerDiscovery, Hear, FindNextHop;
    ForStorable(s.queue, p.header.source);
    HearFrame(s, p.header.source, clock.seconds);
    AnswerFrame(Drain(Hear(s, p.header.source, clock.seconds), p.header.source), p.header.source);
  }
}
