/**
 Reassembly over whole runs. A run is any sequence of arriving fragments, of any number of
 messages in any order and any number of times, mixed with evictions; the table of partial
 messages is compared with what the history says was received.
 */
module Reassembly {
  import opened Bytes
  import opened Packets
  import opened Fragments

  /** A message that is split and fits both its length field and the buffer it is rebuilt in. */
  predicate ValidMessage(msg: seq<byte>, maxOut: nat) {
    MAX_FRAG_PAYLOAD < |msg| <= 0xffff && |msg| <= maxOut
  }

  datatype Event =
    | Arrive(p: Packet, now: int)
    | Evict(now: int, maxAge: u32)

  /** `p` carries the `i`-th piece of `msg` under `id`; its packet header may be anything. */
  ghost predicate IsPiece(p: Packet, id: u16, msg: seq<byte>, i: u8) {
    && FRAG_HEADER_SIZE <= p.header.payloadLen <= MAX_PAYLOAD_SIZE
    && DecodeHeader(p.payload) == FragHeader(id, i, FragTotal(|msg|), |msg| % 0x1_0000)
    && i < FragTotal(|msg|) && MAX_FRAG_PAYLOAD * i <= |msg|
    && p.payload[FRAG_HEADER_SIZE..p.header.payloadLen] == Chunk(msg, i)
  }

  /** A packet that reassembly takes for a fragment of `id`. */
  predicate Carries(e: Event, id: u16) {
    e.Arrive? && e.p.header.payloadLen >= FRAG_HEADER_SIZE
    && var fh := DecodeHeader(e.p.payload); fh.total > 1 && fh.msgId == id
  }

  function IndexIn(e: Event): u8
    requires e.Arrive?
  {
    DecodeHeader(e.p.payload).index
  }

  /** Whatever arrives, what carries `id` is a piece of `msg`. */
  ghost predicate Pure(h: seq<Event>, id: u16, msg: seq<byte>) {
    forall e :: e in h && Carries(e, id) ==> IsPiece(e.p, id, msg, IndexIn(e))
  }

  // ----- the implementation over a run

  function StepOn(partials: Partials, e: Event, maxOut: nat): (Partials, Option<seq<byte>>)
    requires e.Arrive? ==> e.p.header.payloadLen <= MAX_PAYLOAD_SIZE
  {
    match e
    case Arrive(p, now) => Reassemble(partials, p, maxOut, now)
    case Evict(now, maxAge) => (Cleanup(partials, now, maxAge), None)
  }

  predicate Sendable(h: seq<Event>) {
    forall e :: e in h && e.Arrive? ==> e.p.header.payloadLen <= MAX_PAYLOAD_SIZE
  }

  /** The table after `h`, from the table `start`. */
  function TableAfter(start: Partials, h: seq<Event>, maxOut: nat): Partials
    requires Sendable(h)
  {
    if h == [] then start else StepOn(TableAfter(start, h[..|h| - 1], maxOut), h[|h| - 1], maxOut).0
  }

  /** What the last call of `h` returned. */
  function LastOutput(start: Partials, h: seq<Event>, maxOut: nat): Option<seq<byte>>
    requires Sendable(h) && h != []
  {
    StepOn(TableAfter(start, h[..|h| - 1], maxOut), h[|h| - 1], maxOut).1
  }

  // ----- the reference: what the history says

  /** The numbers below `total`. */
  function Indices(total: nat): (s: set<int>)
    ensures forall i :: i in s <==> 0 <= i < total
  {
    if total == 0 then {} else Indices(total - 1) + {total - 1}
  }

  /** When a fragment of `id` last arrived, if one did. */
  ghost function LastSeen(h: seq<Event>, id: u16): int {
    if h == [] then 0
    else if Carries(h[|h| - 1], id) then h[|h| - 1].now
    else LastSeen(h[..|h| - 1], id)
  }

  /** The indices of `id` received since it was last completed or evicted. */
  ghost function Collected(h: seq<Event>, id: u16, msg: seq<byte>): set<int> {
    if h == [] then {}
    else
      var before := Collected(h[..|h| - 1], id, msg);
      var e := h[|h| - 1];
      if Carries(e, id) then
        var now := before + {IndexIn(e)};
        if now == Indices(FragTotal(|msg|)) then {} else now
      else if e.Evict? && AgeSeconds(e.now, LastSeen(h[..|h| - 1], id)) > e.maxAge then {}
      else before
  }

  // ----- refinement

  /** The pieces of `msg` with the given indices. */
  ghost function PiecesFor(msg: seq<byte>, s: set<int>): map<u8, seq<byte>> {
    map i: u8 | i in s && MAX_FRAG_PAYLOAD * i <= |msg| :: Chunk(msg, i)
  }

  /** The table holds for `id` exactly the pieces collected, and nothing when there are none. */
  ghost predicate Tracks(partials: Partials, id: u16, msg: seq<byte>, s: set<int>, seen: int) {
    && s < Indices(FragTotal(|msg|))
    && (id in partials <==> s != {})
    && (id in partials ==> partials[id] == Partial(PiecesFor(msg, s), FragTotal(|msg|), seen))
  }

  lemma TotalBounds(len: nat)
    requires MAX_FRAG_PAYLOAD < len <= 0xffff
    ensures 1 < FragTotal(len) <= 137
    ensures MAX_FRAG_PAYLOAD * (FragTotal(len) - 1) < len <= MAX_FRAG_PAYLOAD * FragTotal(len)
  {
  }

  lemma {:induction false} CountOfIndices(s: set<int>, n: nat)
    requires s <= Indices(n)
    ensures |s| <= n
    ensures |s| == n <==> s == Indices(n)
  {
    if n == 0 {
      assert s == {};
      assert Indices(0) == {};
    } else {
      var t := s - {n - 1};
      CountOfIndices(t, n - 1);
      assert Indices(n) == Indices(n - 1) + {n - 1};
      if n - 1 in s {
        assert s == t + {n - 1};
      } else {
        assert s == t;
      }
    }
  }

  lemma PiecesForSize(msg: seq<byte>, s: set<int>)
    requires MAX_FRAG_PAYLOAD < |msg| <= 0xffff && s <= Indices(FragTotal(|msg|))
    ensures |PiecesFor(msg, s)| == |s|
    ensures forall i :: i in PiecesFor(msg, s) <==> i in s
  {
    TotalBounds(|msg|);
    var m := PiecesFor(msg, s);
    assert m.Keys == s;
    assert |m| == |m.Keys|;
  }

  lemma AddPiece(msg: seq<byte>, s: set<int>, i: u8)
    requires MAX_FRAG_PAYLOAD * i <= |msg|
    ensures PiecesFor(msg, s)[i := Chunk(msg, i)] == PiecesFor(msg, s + {i})
    ensures PiecesFor(msg, {}) == map[]
  {
    hide Chunk;
  }

  /** A piece that is not the last is full, and the last one reaches the end. */
  lemma ChunkSplit(msg: seq<byte>, i: nat)
    requires MAX_FRAG_PAYLOAD < |msg| <= 0xffff && i < FragTotal(|msg|)
    ensures var at := MAX_FRAG_PAYLOAD * i;
            && at < |msg|
            && if i + 1 < FragTotal(|msg|)
               then at + MAX_FRAG_PAYLOAD < |msg| && msg[at..] == Chunk(msg, i) + msg[at + MAX_FRAG_PAYLOAD..]
                    && |Chunk(msg, i)| == MAX_FRAG_PAYLOAD
               else Chunk(msg, i) == msg[at..]
  {
    TotalBounds(|msg|);
  }

  lemma PieceAt(msg: seq<byte>, i: nat)
    requires MAX_FRAG_PAYLOAD < |msg| <= 0xffff && i < FragTotal(|msg|) && MAX_FRAG_PAYLOAD * i <= |msg|
    ensures var pieces := PiecesFor(msg, Indices(FragTotal(|msg|))); i in pieces && pieces[i] == Chunk(msg, i)
  {
    hide FragTotal, Chunk;
  }

  /** All pieces together are the message. */
  lemma {:induction false} GatherAll(msg: seq<byte>, i: nat)
    requires MAX_FRAG_PAYLOAD < |msg| <= 0xffff && i < FragTotal(|msg|)
    ensures var total := FragTotal(|msg|);
            var at := MAX_FRAG_PAYLOAD * i;
            && at < |msg|
            && Gather(PiecesFor(msg, Indices(total)), i, total, |msg| - at) == msg[at..]
    decreases FragTotal(|msg|) - i
  {
    hide FragTotal, Gather, PiecesFor, Chunk;
    var total := FragTotal(|msg|);
    var at := MAX_FRAG_PAYLOAD * i;
    var pieces := PiecesFor(msg, Indices(total));
    ChunkSplit(msg, i);
    PieceAt(msg, i);
    GatherUnfold(pieces, i, total, |msg| - at);
    if i + 1 < total {
      GatherAll(msg, i + 1);
    } else {
      GatherEnd(pieces, i + 1, total, 0);
    }
  }

  /** What `Reassemble` does with a packet whose header `fh` announces several fragments. */
  lemma ReassembleFragment(partials: Partials, p: Packet, maxOut: nat, now: int, fh: FragHeader, body: seq<byte>)
    requires FRAG_HEADER_SIZE <= p.header.payloadLen <= MAX_PAYLOAD_SIZE
    requires fh == DecodeHeader(p.payload) && body == p.payload[FRAG_HEADER_SIZE..p.header.payloadLen]
    requires fh.total > 1 && fh.totalLen <= maxOut
    ensures var pieces := PiecesOf(partials, fh.msgId)[fh.index := body];
            Reassemble(partials, p, maxOut, now)
            == if |pieces| != fh.total then (partials[fh.msgId := Partial(pieces, fh.total, now)], None)
               else (partials - {fh.msgId}, Some(Gather(pieces, 0, fh.total, fh.totalLen)))
  {
    hide DecodeHeader, Gather;
  }

  lemma CollectPiece(partials: Partials, id: u16, msg: seq<byte>, s: set<int>, seen: int, i: u8)
    requires MAX_FRAG_PAYLOAD < |msg| <= 0xffff
    requires Tracks(partials, id, msg, s, seen)
    requires i < FragTotal(|msg|) && MAX_FRAG_PAYLOAD * i <= |msg|
    ensures var pieces := PiecesOf(partials, id)[i := Chunk(msg, i)];
            && pieces == PiecesFor(msg, s + {i})
            && (|pieces| == FragTotal(|msg|) <==> s + {i} == Indices(FragTotal(|msg|)))
            && s + {i} <= Indices(FragTotal(|msg|))
    ensures {} < Indices(FragTotal(|msg|))
  {
    TotalBounds(|msg|);
    hide FragTotal, Chunk, PiecesFor, Indices;
    AddPiece(msg, s, i);
    AddPiece(msg, {}, i);
    PiecesForSize(msg, s + {i});
    CountOfIndices(s + {i}, FragTotal(|msg|));
    assert 0 in Indices(FragTotal(|msg|));
  }

  lemma NothingTracked(partials: Partials, id: u16, msg: seq<byte>, now: int)
    requires id !in partials && {} < Indices(FragTotal(|msg|))
    ensures Tracks(partials, id, msg, {}, now)
  {
    hide FragTotal;
  }

  /** A fragment of `id` arrives: what it does to the entry of `id`. */
  lemma ArrivalStep(partials: Partials, p: Packet, id: u16, msg: seq<byte>, i: u8, s: set<int>, seen: int, maxOut: nat,
                    now: int)
    requires MAX_FRAG_PAYLOAD < |msg| <= 0xffff && |msg| <= maxOut
    requires Tracks(partials, id, msg, s, seen) && IsPiece(p, id, msg, i)
    ensures var (after, out) := Reassemble(partials, p, maxOut, now);
            var complete := s + {i} == Indices(FragTotal(|msg|));
            && out == (if complete then Some(msg) else None)
            && Tracks(after, id, msg, if complete then {} else s + {i}, now)
  {
    hide DecodeHeader, FragTotal, Gather, Chunk, PiecesFor, Reassemble, Indices;
    var total := FragTotal(|msg|);
    var t := s + {i};
    assert total > 1 by { TotalBounds(|msg|); }
    ReassembleFragment(partials, p, maxOut, now, FragHeader(id, i, total, |msg|), Chunk(msg, i));
    CollectPiece(partials, id, msg, s, seen, i);
    if t == Indices(total) {
      GatherAll(msg, 0);
      assert msg[0..] == msg;
      NothingTracked(partials - {id}, id, msg, now);
    }
  }

  /** What does not carry `id` leaves its entry alone. */
  lemma OtherEntries(partials: Partials, p: Packet, maxOut: nat, now: int, id: u16)
    requires p.header.payloadLen <= MAX_PAYLOAD_SIZE && !Carries(Arrive(p, now), id)
    ensures var after := Reassemble(partials, p, maxOut, now).0;
            (id in after <==> id in partials) && (id in after ==> after[id] == partials[id])
  {
    hide DecodeHeader, Gather;
  }

  lemma NothingCarried(e: Event, id: u16)
    requires e.Evict?
    ensures !Carries(e, id)
  {
  }

  /**
   From any table without an entry for `id`, and after any run whose fragments of `id` are pieces of
   one message, the table holds for `id` exactly what the history says.
   */
  lemma {:induction false} TableTracksHistory(start: Partials, h: seq<Event>, id: u16, msg: seq<byte>, maxOut: nat)
    requires ValidMessage(msg, maxOut) && Sendable(h) && Pure(h, id, msg) && id !in start
    ensures Tracks(TableAfter(start, h, maxOut), id, msg, Collected(h, id, msg), LastSeen(h, id))
  {
    hide DecodeHeader, FragTotal, Reassemble, Chunk, Carries;
    TotalBounds(|msg|);
    if h == [] {
      assert 0 in Indices(FragTotal(|msg|));
      return;
    }
    var g, e := h[..|h| - 1], h[|h| - 1];
    TableTracksHistory(start, g, id, msg, maxOut);
    var s, seen := Collected(g, id, msg), LastSeen(g, id);
    if e.Arrive? {
      assert e == Arrive(e.p, e.now);
      if Carries(e, id) {
        assert e in h;
        ArrivalStep(TableAfter(start, g, maxOut), e.p, id, msg, IndexIn(e), s, seen, maxOut, e.now);
        assert 0 in Indices(FragTotal(|msg|));
      } else {
        OtherEntries(TableAfter(start, g, maxOut), e.p, maxOut, e.now, id);
      }
    } else {
      NothingCarried(e, id);
    }
  }

  /**
   A call on a fragment of `id` returns true exactly when the indices of `id`, received since it was
   last completed or evicted, become all of 0 .. total - 1; the output is then the original message.
   */
  lemma OutputIsCompletion(start: Partials, h: seq<Event>, id: u16, msg: seq<byte>, maxOut: nat)
    requires ValidMessage(msg, maxOut) && Sendable(h) && Pure(h, id, msg) && id !in start
    requires h != [] && Carries(h[|h| - 1], id)
    ensures LastOutput(start, h, maxOut) ==
            if Collected(h[..|h| - 1], id, msg) + {IndexIn(h[|h| - 1])} == Indices(FragTotal(|msg|)) then Some(msg)
            else None
  {
    hide DecodeHeader, FragTotal, Reassemble, Chunk, IndexIn, IsPiece;
    var g, e := h[..|h| - 1], h[|h| - 1];
    assert e in h;
    assert forall x :: x in g ==> x in h;
    TableTracksHistory(start, g, id, msg, maxOut);
    ArrivalStep(TableAfter(start, g, maxOut), e.p, id, msg, IndexIn(e), Collected(g, id, msg), LastSeen(g, id), maxOut,
                e.now);
  }

  // ----- completion in terms of what has arrived

  /** The indices of `id` that occur anywhere in `h`. */
  ghost function Arrived(h: seq<Event>, id: u16): set<int> {
    if h == [] then {}
    else Arrived(h[..|h| - 1], id) + (if Carries(h[|h| - 1], id) then {IndexIn(h[|h| - 1])} else {})
  }

  /** Once a fragment of `id` has arrived, no eviction in `h` comes too late after the last one. */
  ghost predicate Timely(h: seq<Event>, id: u16) {
    forall k :: 0 <= k < |h| && h[k].Evict? && Arrived(h[..k], id) != {} ==>
      AgeSeconds(h[k].now, LastSeen(h[..k], id)) <= h[k].maxAge
  }

  lemma {:induction false} CollectedUntilComplete(h: seq<Event>, id: u16, msg: seq<byte>)
    requires Pure(h, id, msg) && Timely(h, id)
    ensures Arrived(h, id) <= Indices(FragTotal(|msg|))
    ensures Arrived(h, id) != Indices(FragTotal(|msg|)) ==> Collected(h, id, msg) == Arrived(h, id)
  {
    hide DecodeHeader, FragTotal, Chunk, Indices, Carries;
    if h != [] {
      var g, e := h[..|h| - 1], h[|h| - 1];
      assert forall k :: 0 <= k < |g| ==> g[k] == h[k] && g[..k] == h[..k];
      assert forall x :: x in g ==> x in h;
      CollectedUntilComplete(g, id, msg);
      assert e in h;
    }
  }

  /**
   Whatever the order, the duplicates, the other messages and the evictions in between, the call
   that brings in the last missing index of `id` returns the message, and none before it does.
   */
  lemma DeliveredAtCompletion(start: Partials, h: seq<Event>, id: u16, msg: seq<byte>, maxOut: nat)
    requires ValidMessage(msg, maxOut) && Sendable(h) && Pure(h, id, msg) && id !in start && Timely(h, id)
    requires h != [] && Carries(h[|h| - 1], id)
    requires Arrived(h[..|h| - 1], id) != Indices(FragTotal(|msg|))
    ensures LastOutput(start, h, maxOut) == if Arrived(h, id) == Indices(FragTotal(|msg|)) then Some(msg) else None
  {
    hide DecodeHeader, FragTotal, Chunk, Indices, StepOn, Carries, IndexIn, IsPiece;
    var g := h[..|h| - 1];
    assert forall k :: 0 <= k < |g| ==> g[k] == h[k] && g[..k] == h[..k];
    assert forall x :: x in g ==> x in h;
    CollectedUntilComplete(g, id, msg);
    OutputIsCompletion(start, h, id, msg, maxOut);
  }

  // ----- the packets of a message

  /** The packets that `fragment_message` makes are the pieces of the message, one for each index. */
  lemma SplitIsPieces(data: seq<byte>, kind: PacketType, src: Mac, dst: Mac, seqNum: u32, msgId: u16, i: nat)
    requires MAX_FRAG_PAYLOAD < |data| && i < FragTotal(|data|)
    ensures var packets := Split(data, kind, src, dst, seqNum, msgId);
            |packets| == FragTotal(|data|) && IsPiece(packets[i], msgId, data, i)
  {
    hide DecodeHeader, FragTotal, EncodeHeader, Chunk, PadPayload;
    FragmentPacketIs(data, kind, src, dst, seqNum, msgId, i);
    var fh := FragHeader(msgId, i, FragTotal(|data|), |data| % 0x1_0000);
    var p := FragmentPacket(data, kind, src, dst, seqNum, msgId, i);
    var body := EncodeHeader(fh) + Chunk(data, i);
    var rest := p.payload[FRAG_HEADER_SIZE..];
    assert p.payload[..|body|] == body;
    assert p.payload == EncodeHeader(fh) + rest by {
      assert p.payload == p.payload[..FRAG_HEADER_SIZE] + rest;
      assert p.payload[..FRAG_HEADER_SIZE] == body[..FRAG_HEADER_SIZE] == EncodeHeader(fh);
    }
    HeaderRoundTrip(fh, rest);
    assert p.payload[FRAG_HEADER_SIZE..p.header.payloadLen] == body[FRAG_HEADER_SIZE..];
  }

  /** The packets of `data` arriving one after the other. */
  function InOrder(packets: seq<Packet>, now: int): seq<Event> {
    seq(|packets|, i requires 0 <= i < |packets| => Arrive(packets[i], now))
  }

  lemma {:induction false} ArrivedInOrder(packets: seq<Packet>, now: int, id: u16, n: nat)
    requires n <= |packets|
    requires forall k :: 0 <= k < n ==> var e := Arrive(packets[k], now); Carries(e, id) && IndexIn(e) == k
    ensures Arrived(InOrder(packets, now)[..n], id) == Indices(n)
  {
    hide DecodeHeader;
    if n > 0 {
      ArrivedInOrder(packets, now, id, n - 1);
      var h := InOrder(packets, now)[..n];
      assert h[..|h| - 1] == InOrder(packets, now)[..n - 1];
      assert h[n - 1] == Arrive(packets[n - 1], now);
    }
  }

  lemma OutputFitsField(start: Partials, h: seq<Event>, maxOut: nat)
    requires Sendable(h) && h != []
    ensures LastOutput(start, h, maxOut).Some? ==> |LastOutput(start, h, maxOut).value| <= 0xffff
  {
    hide DecodeHeader;
  }

  lemma SplitSendable(data: seq<byte>, kind: PacketType, src: Mac, dst: Mac, seqNum: u32, msgId: u16, now: int)
    requires MAX_FRAG_PAYLOAD < |data|
    ensures var h := InOrder(Split(data, kind, src, dst, seqNum, msgId), now); h != [] && Sendable(h)
  {
    hide DecodeHeader, EncodeHeader, Chunk, PadPayload;
    var packets := Split(data, kind, src, dst, seqNum, msgId);
    forall i | 0 <= i < |packets|
      ensures packets[i].header.payloadLen <= MAX_PAYLOAD_SIZE
    {
      FragmentPacketIs(data, kind, src, dst, seqNum, msgId, i);
    }
  }

  /** The run that brings the pieces of one message in order completes it with its last event, and not before. */
  lemma InOrderCompletes(packets: seq<Packet>, data: seq<byte>, msgId: u16, now: int)
    requires MAX_FRAG_PAYLOAD < |data| <= 0xffff
    requires |packets| == FragTotal(|data|)
    requires forall i :: 0 <= i < |packets| ==> IsPiece(packets[i], msgId, data, i)
    ensures var h := InOrder(packets, now);
            && h != [] && Carries(h[|h| - 1], msgId)
            && Sendable(h) && Pure(h, msgId, data) && Timely(h, msgId)
            && Arrived(h[..|h| - 1], msgId) != Indices(FragTotal(|data|))
            && Arrived(h, msgId) == Indices(FragTotal(|data|))
  {
    hide DecodeHeader, FragTotal, Chunk, Indices;
    var total := FragTotal(|data|);
    assert total > 1 by { TotalBounds(|data|); }
    var h := InOrder(packets, now);
    ArrivedInOrder(packets, now, msgId, total);
    ArrivedInOrder(packets, now, msgId, total - 1);
    assert h[..total] == h && h[..|h| - 1] == h[..total - 1];
    assert total - 1 in Indices(total) && total - 1 !in Indices(total - 1);
  }

  lemma InOrderRebuilds(start: Partials, packets: seq<Packet>, data: seq<byte>, msgId: u16, maxOut: nat, now: int)
    requires ValidMessage(data, maxOut) && msgId !in start
    requires |packets| == FragTotal(|data|)
    requires forall i :: 0 <= i < |packets| ==> IsPiece(packets[i], msgId, data, i)
    ensures var h := InOrder(packets, now); h != [] && Sendable(h) && LastOutput(start, h, maxOut) == Some(data)
  {
    hide DecodeHeader, FragTotal, Chunk, LastOutput, Indices, Pure, Timely, Arrived, InOrder, IsPiece, Carries;
    InOrderCompletes(packets, data, msgId, now);
    DeliveredAtCompletion(start, InOrder(packets, now), msgId, data, maxOut);
  }

  /**
   The length field has 16 bits: the packets of a fragmented message rebuild it exactly when its
   length fits that field.
   */
  lemma InOrderRebuildsIff(start: Partials, data: seq<byte>, kind: PacketType, src: Mac, dst: Mac, seqNum: u32,
                           msgId: u16, maxOut: nat, now: int)
    requires MAX_FRAG_PAYLOAD < |data| <= maxOut && msgId !in start
    ensures var h := InOrder(Split(data, kind, src, dst, seqNum, msgId), now);
            h != [] && Sendable(h) && (LastOutput(start, h, maxOut) == Some(data) <==> |data| <= 0xffff)
  {
    hide Split, LastOutput, IsPiece, InOrder;
    var packets := Split(data, kind, src, dst, seqNum, msgId);
    SplitSendable(data, kind, src, dst, seqNum, msgId, now);
    OutputFitsField(start, InOrder(packets, now), maxOut);
    if |data| <= 0xffff {
      forall i | 0 <= i < FragTotal(|data|)
        ensures |packets| == FragTotal(|data|) && IsPiece(packets[i], msgId, data, i)
      {
        SplitIsPieces(data, kind, src, dst, seqNum, msgId, i);
      }
      assert FragTotal(|data|) > 1 by { TotalBounds(|data|); }
      SplitIsPieces(data, kind, src, dst, seqNum, msgId, 0);
      InOrderRebuilds(start, packets, data, msgId, maxOut, now);
    }
  }
}
