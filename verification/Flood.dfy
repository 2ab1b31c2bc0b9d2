/**
 One data packet relayed through a network. Every transmission may reach every node, once; what a
 node that hears it does is its receive handler, in whatever state the node is, so the routes may be
 arbitrary, stale or looping.
 */
module Flood {
  import opened Bytes
  import opened Packets
  import opened Fragments
  import opened RueStore
  import opened Routing
  import opened Envelope
  import opened NodeSpec

  /** A packet put on the air, and the nodes that have heard it. */
  datatype Transmission = Transmission(packet: Packet, heard: set<Mac>)

  /** Node `node`, in state `state`, hears transmission `index`. */
  datatype Hearing = Hearing(index: nat, node: Mac, state: NodeState, clock: Clock)

  predicate CanHear(nodes: set<Mac>, air: seq<Transmission>, e: Hearing) {
    && e.index < |air| && e.node in nodes && e.node !in air[e.index].heard
    && e.state.mac == e.node && Storable(e.state.queue)
    && air[e.index].packet.header.payloadLen <= MAX_PAYLOAD_SIZE
  }

  ghost function AfterHearing(nodes: set<Mac>, air: seq<Transmission>, e: Hearing): seq<Transmission>
    requires CanHear(nodes, air, e)
  {
    var t := air[e.index];
    air[e.index := t.(heard := t.heard + {e.node})]
    + (match Receive(e.state, t.packet, e.clock).1.forward
       case None => []
       case Some(f) => [Transmission(f.packet, {})])
  }

  /** `runs[i]` is what is on the air after `i` hearings, from a single transmission of `p`. */
  ghost predicate IsFlood(nodes: set<Mac>, p: Packet, runs: seq<seq<Transmission>>, events: seq<Hearing>) {
    && |runs| == |events| + 1 && runs[0] == [Transmission(p, {})]
    && forall i :: 0 <= i < |events| ==>
         CanHear(nodes, runs[i], events[i]) && runs[i + 1] == AfterHearing(nodes, runs[i], events[i])
  }

  // ----- what forwarding does to a packet

  function WithTtl(p: Packet, ttl: u8): Packet {
    p.(header := p.header.(ttl := ttl))
  }

  /** A forwarded packet has one hop less to live, had at least two, and is otherwise the same. */
  lemma ForwardLowersTtl(s: NodeState, p: Packet, clock: Clock)
    requires p.header.payloadLen <= MAX_PAYLOAD_SIZE && Storable(s.queue)
    ensures var f := Receive(s, p, clock).1.forward;
            f.Some? ==> p.header.kind == Data && p.header.ttl > 1 && f.value.packet == WithTtl(p, p.header.ttl - 1)
  {
    hide Reassemble, Open, DecodeHeader, PairSchedule, For, NotFor, AckPacket, DrainPackets, IsFragment,
         AnswerDiscovery, Learn, TakeAck, FindNextHop, Hear;
    HearFrame(s, p.header.source, clock.seconds);
    ForStorable(s.queue, p.header.source);
    AnswerFrame(Drain(Hear(s, p.header.source, clock.seconds), p.header.source), p.header.source);
  }

  // ----- the bound

  function Power(n: nat, k: nat): nat {
    if k == 0 then 1 else n * Power(n, k - 1)
  }

  /** 1 + n + ... + n^(k-1) */
  function Geometric(n: nat, k: nat): nat {
    if k == 0 then 0 else Geometric(n, k - 1) + Power(n, k - 1)
  }

  /** The most transmissions that one with `ttl` hops to live can lead to, itself included. */
  function Reach(n: nat, ttl: nat): nat {
    if ttl <= 1 then 1 else 1 + n * Reach(n, ttl - 1)
  }

  lemma {:induction false} GeometricShift(n: nat, k: nat)
    ensures Geometric(n, k + 1) == 1 + n * Geometric(n, k)
  {
    if k != 0 {
      GeometricShift(n, k - 1);
      assert n * (Geometric(n, k - 1) + Power(n, k - 1)) == n * Geometric(n, k - 1) + n * Power(n, k - 1);
    }
  }

  lemma {:induction false} ReachIsGeometric(n: nat, ttl: nat)
    requires ttl > 0
    ensures Reach(n, ttl) == Geometric(n, ttl)
  {
    if ttl == 1 {
      assert Geometric(n, 0) == 0;
    } else {
      ReachIsGeometric(n, ttl - 1);
      GeometricShift(n, ttl - 1);
    }
  }

  /** The transmissions that `t` can still lead to, itself included. */
  function Potential(n: nat, t: Transmission): int {
    1 + (n - |t.heard|) * (if t.packet.header.ttl <= 1 then 0 else Reach(n, t.packet.header.ttl - 1))
  }

  /** The hearings that `t` can still lead to. */
  function Fuel(n: nat, t: Transmission): int {
    (n - |t.heard|) * Reach(n, t.packet.header.ttl)
  }

  function TotalPotential(n: nat, air: seq<Transmission>): int {
    if air == [] then 0 else Potential(n, air[0]) + TotalPotential(n, air[1..])
  }

  function TotalFuel(n: nat, air: seq<Transmission>): int {
    if air == [] then 0 else Fuel(n, air[0]) + TotalFuel(n, air[1..])
  }

  lemma {:induction false} TotalsOfUpdate(n: nat, air: seq<Transmission>, i: nat, t: Transmission)
    requires i < |air|
    ensures TotalPotential(n, air[i := t]) == TotalPotential(n, air) - Potential(n, air[i]) + Potential(n, t)
    ensures TotalFuel(n, air[i := t]) == TotalFuel(n, air) - Fuel(n, air[i]) + Fuel(n, t)
  {
    hide Potential, Fuel;
    if i == 0 {
      assert air[i := t][1..] == air[1..];
    } else {
      assert air[i := t][1..] == air[1..][i - 1 := t];
      TotalsOfUpdate(n, air[1..], i - 1, t);
    }
  }

  lemma {:induction false} TotalsOfAppend(n: nat, air: seq<Transmission>, t: Transmission)
    ensures TotalPotential(n, air + [t]) == TotalPotential(n, air) + Potential(n, t)
    ensures TotalFuel(n, air + [t]) == TotalFuel(n, air) + Fuel(n, t)
  {
    hide Potential, Fuel;
    if air == [] {
      assert ([] + [t])[1..] == [];
    } else {
      assert (air + [t])[1..] == air[1..] + [t];
      TotalsOfAppend(n, air[1..], t);
    }
  }

  /** Every copy on the air differs from `p` in its hops to live only, and is heard by nodes of the network. */
  ghost predicate Copies(nodes: set<Mac>, p: Packet, air: seq<Transmission>) {
    forall i :: 0 <= i < |air| ==>
      && air[i].heard <= nodes
      && air[i].packet == WithTtl(p, air[i].packet.header.ttl) && air[i].packet.header.ttl <= p.header.ttl
  }

  lemma {:induction false} SizeOfSubset(s: set<Mac>, t: set<Mac>)
    requires s <= t
    ensures |s| <= |t|
    decreases s
  {
    if s != {} {
      var x :| x in s;
      SizeOfSubset(s - {x}, t - {x});
    }
  }

  lemma OneLess(k: int, b: int)
    ensures (k - 1) * b == k * b - b
  {
  }

  lemma OneHearing(n: nat, t: Transmission, m: Mac)
    requires m !in t.heard
    ensures var heard := t.(heard := t.heard + {m});
            && Potential(n, heard) == Potential(n, t) - (if t.packet.header.ttl <= 1 then 0
                                                         else Reach(n, t.packet.header.ttl - 1))
            && Fuel(n, heard) == Fuel(n, t) - Reach(n, t.packet.header.ttl)
    ensures Reach(n, t.packet.header.ttl) >= 1
  {
    var k := n - |t.heard|;
    var b := if t.packet.header.ttl <= 1 then 0 else Reach(n, t.packet.header.ttl - 1);
    assert |t.heard + {m}| == |t.heard| + 1;
    OneLess(k, b);
    OneLess(k, Reach(n, t.packet.header.ttl));
  }

  lemma FreshCopy(n: nat, copy: Transmission, ttl: nat)
    requires copy.heard == {} && ttl > 1 && copy.packet.header.ttl == ttl - 1
    ensures Potential(n, copy) == Reach(n, ttl - 1)
    ensures Fuel(n, copy) == Reach(n, ttl) - 1
  {
  }

  /** One more node hears: the potential does not grow, and the fuel falls. */
  lemma HearingSpends(nodes: set<Mac>, p: Packet, air: seq<Transmission>, e: Hearing)
    requires Copies(nodes, p, air) && CanHear(nodes, air, e)
    ensures var after := AfterHearing(nodes, air, e);
            && Copies(nodes, p, after)
            && TotalPotential(|nodes|, after) <= TotalPotential(|nodes|, air)
            && TotalFuel(|nodes|, after) < TotalFuel(|nodes|, air)
  {
    hide Receive, Potential, Fuel, Reach, TotalPotential, TotalFuel;
    var n := |nodes|;
    var t := air[e.index];
    var heard := t.(heard := t.heard + {e.node});
    var middle := air[e.index := heard];
    TotalsOfUpdate(n, air, e.index, heard);
    OneHearing(n, t, e.node);
    ForwardLowersTtl(e.state, t.packet, e.clock);
    match Receive(e.state, t.packet, e.clock).1.forward
    case None =>
      assert AfterHearing(nodes, air, e) == middle;
    case Some(f) =>
      var copy := Transmission(f.packet, {});
      TotalsOfAppend(n, middle, copy);
      FreshCopy(n, copy, t.packet.header.ttl);
  }

  lemma NotNegative(a: int, b: int)
    requires a >= 0 && b >= 0
    ensures a * b >= 0
  {
  }

  lemma {:induction false} CountBelowPotential(nodes: set<Mac>, p: Packet, air: seq<Transmission>)
    requires Copies(nodes, p, air)
    ensures |air| <= TotalPotential(|nodes|, air)
    ensures 0 <= TotalFuel(|nodes|, air)
  {
    if air != [] {
      var rest := air[1..];
      assert Copies(nodes, p, rest);
      CountBelowPotential(nodes, p, rest);
      SizeOfSubset(air[0].heard, nodes);
      NotNegative(|nodes| - |air[0].heard|, Reach(|nodes|, air[0].packet.header.ttl));
      NotNegative(|nodes| - |air[0].heard|,
                  if air[0].packet.header.ttl <= 1 then 0 else Reach(|nodes|, air[0].packet.header.ttl - 1));
    }
  }

  lemma StartOfFlood(n: nat, p: Packet)
    ensures TotalPotential(n, [Transmission(p, {})]) == Reach(n, p.header.ttl)
    ensures TotalFuel(n, [Transmission(p, {})]) == n * Reach(n, p.header.ttl)
  {
    var air := [Transmission(p, {})];
    assert air[1..] == [];
  }

  lemma {:induction false} FloodSpends(nodes: set<Mac>, p: Packet, runs: seq<seq<Transmission>>, events: seq<Hearing>,
                                       i: nat)
    requires IsFlood(nodes, p, runs, events) && i < |runs|
    ensures Copies(nodes, p, runs[i])
    ensures TotalPotential(|nodes|, runs[i]) <= Reach(|nodes|, p.header.ttl)
    ensures TotalFuel(|nodes|, runs[i]) + i <= |nodes| * Reach(|nodes|, p.header.ttl)
  {
    hide AfterHearing, Reach, CanHear;
    if i > 0 {
      FloodSpends(nodes, p, runs, events, i - 1);
      assert runs[i - 1 + 1] == AfterHearing(nodes, runs[i - 1], events[i - 1]);
      HearingSpends(nodes, p, runs[i - 1], events[i - 1]);
    } else {
      StartOfFlood(|nodes|, p);
    }
  }

  /**
   Forwarding dies out: with n nodes, a packet with T > 0 hops to live causes at most
   1 + n + ... + n^(T-1) transmissions, in any run, after at most n times as many hearings; and each
   copy differs from the original in its hops to live only.
   */
  lemma FloodDiesOut(nodes: set<Mac>, p: Packet, runs: seq<seq<Transmission>>, events: seq<Hearing>, i: nat)
    requires IsFlood(nodes, p, runs, events) && i < |runs| && p.header.ttl > 0
    ensures |runs[i]| <= Geometric(|nodes|, p.header.ttl)
    ensures i <= |nodes| * Geometric(|nodes|, p.header.ttl)
    ensures forall k :: 0 <= k < |runs[i]| ==>
              runs[i][k].packet == WithTtl(p, runs[i][k].packet.header.ttl)
              && runs[i][k].packet.header.ttl <= p.header.ttl
  {
    hide IsFlood, Reach, Geometric;
    FloodSpends(nodes, p, runs, events, i);
    CountBelowPotential(nodes, p, runs[i]);
    ReachIsGeometric(|nodes|, p.header.ttl);
  }
}
