/** Splitting a message into packets, and the table of partially received messages. */
module Fragments {
  import opened Bytes
  import opened Packets

  const MAX_FRAG_PAYLOAD: nat := 480
  const FRAG_HEADER_SIZE: nat := 6
  const NANOS_PER_SECOND: int := 1_000_000_000

  // ----- the fragment header

  datatype FragHeader = FragHeader(msgId: u16, index: u8, total: u8, totalLen: u16)

  function EncodeHeader(h: FragHeader): (s: seq<byte>)
    ensures |s| == FRAG_HEADER_SIZE
  {
    Le(h.msgId, 2) + [ToByte(h.index), ToByte(h.total)] + Le(h.totalLen, 2)
  }

  function DecodeHeader(s: seq<byte>): FragHeader
    requires |s| >= FRAG_HEADER_SIZE
  {
    FromLeBound(s[0..2]);
    FromLeBound(s[4..6]);
    FieldWidths();
    FragHeader(FromLe(s[0..2]), ToNat(s[2]), ToNat(s[3]), FromLe(s[4..6]))
  }

  lemma HeaderRoundTrip(h: FragHeader, rest: seq<byte>)
    ensures DecodeHeader(EncodeHeader(h) + rest) == h
  {
    hide ToByte, ToNat, Le, FromLe;
    var s := EncodeHeader(h) + rest;
    assert s[0..2] == Le(h.msgId, 2) && s[4..6] == Le(h.totalLen, 2);
    FieldWidths();
    FromLeOfLe(h.msgId, 2);
    FromLeOfLe(h.totalLen, 2);
    ByteRoundTrip(h.index);
    ByteRoundTrip(h.total);
  }

  /** The bytes of the header: id, index, number of fragments and length, integers least significant byte first. */
  lemma HeaderLayout(h: FragHeader)
    ensures EncodeHeader(h)
         == [ToByte(h.msgId % 256), ToByte(h.msgId / 256), ToByte(h.index), ToByte(h.total),
             ToByte(h.totalLen % 256), ToByte(h.totalLen / 256)]
  {
    hide ToByte;
    TwoBytes(h.msgId);
    TwoBytes(h.totalLen);
  }

  // ----- splitting

  /** The number of fragments announced for `len` bytes, as one byte. */
  function FragTotal(len: nat): u8 {
    var total := (len + MAX_FRAG_PAYLOAD - 1) / MAX_FRAG_PAYLOAD % 0x100;
    if total == 0 then 1 else total
  }

  /** The `i`-th piece of the message. */
  function Chunk(data: seq<byte>, i: nat): (c: seq<byte>)
    requires MAX_FRAG_PAYLOAD * i <= |data|
    ensures |c| <= MAX_FRAG_PAYLOAD
  {
    var at := MAX_FRAG_PAYLOAD * i;
    if at + MAX_FRAG_PAYLOAD > |data| then data[at..] else data[at..at + MAX_FRAG_PAYLOAD]
  }

  function FragmentBody(data: seq<byte>, msgId: u16, i: u8): (b: seq<byte>)
    requires MAX_FRAG_PAYLOAD * i <= |data|
    ensures |b| <= FRAG_HEADER_SIZE + MAX_FRAG_PAYLOAD
  {
    EncodeHeader(FragHeader(msgId, i, FragTotal(|data|), |data| % 0x1_0000)) + Chunk(data, i)
  }

  lemma ChunksInRange(len: nat, i: nat)
    requires len > MAX_FRAG_PAYLOAD && i < FragTotal(len)
    ensures MAX_FRAG_PAYLOAD * i <= len
  {
  }

  function FragmentPacket(data: seq<byte>, kind: PacketType, src: Mac, dst: Mac, seqNum: u32, msgId: u16,
                          i: nat): Packet
    requires |data| > MAX_FRAG_PAYLOAD && i < FragTotal(|data|)
  {
    ChunksInRange(|data|, i);
    NewPacket(kind, src, dst, SeqAfter(seqNum, i), FragmentBody(data, msgId, i))
  }

  /** The packets of a message: a bare one when it fits, else one with a header for every piece. */
  function Split(data: seq<byte>, kind: PacketType, src: Mac, dst: Mac, seqNum: u32, msgId: u16): seq<Packet> {
    if |data| <= MAX_FRAG_PAYLOAD then [NewPacket(kind, src, dst, seqNum, data)]
    else
      seq(FragTotal(|data|), i requires 0 <= i < FragTotal(|data|) =>
        FragmentPacket(data, kind, src, dst, seqNum, msgId, i))
  }

  // ----- the partial messages

  datatype Partial = Partial(fragments: map<u8, seq<byte>>, total: u8, received: int)

  type Partials = map<u16, Partial>

  /** The pieces from number `i` on, cut off after `room` bytes; a missing piece counts as empty. */
  function Gather(fragments: map<u8, seq<byte>>, i: nat, total: u8, room: nat): (s: seq<byte>)
    ensures |s| <= room
    decreases 256 - i
  {
    if i >= total || room == 0 then []
    else
      var f := if i in fragments then fragments[i] else [];
      var piece := if |f| < room then f else f[..room];
      piece + Gather(fragments, i + 1, total, room - |piece|)
  }

  function PiecesOf(partials: Partials, id: u16): map<u8, seq<byte>> {
    if id in partials then partials[id].fragments else map[]
  }

  /** One packet offered to the table: the new table, and the message when it is complete. */
  function Reassemble(partials: Partials, p: Packet, maxOut: nat, now: int): (Partials, Option<seq<byte>>)
    requires p.header.payloadLen <= MAX_PAYLOAD_SIZE
  {
    if p.header.payloadLen < FRAG_HEADER_SIZE then (partials, None)
    else
      var fh := DecodeHeader(p.payload);
      if fh.total <= 1 then (partials, None)
      else
        var pieces := PiecesOf(partials, fh.msgId)[fh.index := p.payload[FRAG_HEADER_SIZE..p.header.payloadLen]];
        if |pieces| != fh.total then (partials[fh.msgId := Partial(pieces, fh.total, now)], None)
        else if fh.totalLen > maxOut then (partials - {fh.msgId}, None)
        else (partials - {fh.msgId}, Some(Gather(pieces, 0, fh.total, fh.totalLen)))
  }

  function AgeSeconds(now: int, received: int): int {
    (now - received) / NANOS_PER_SECOND
  }

  /** The table without the messages untouched for more than `maxAge` seconds. */
  function Cleanup(partials: Partials, now: int, maxAge: u32): Partials {
    map id | id in partials && AgeSeconds(now, partials[id].received) <= maxAge :: partials[id]
  }

  lemma FragmentPacketIs(data: seq<byte>, kind: PacketType, src: Mac, dst: Mac, seqNum: u32, msgId: u16, i: nat)
    requires |data| > MAX_FRAG_PAYLOAD && i < FragTotal(|data|)
    ensures MAX_FRAG_PAYLOAD * i <= |data|
    ensures FragmentPacket(data, kind, src, dst, seqNum, msgId, i)
         == NewPacket(kind, src, dst, SeqAfter(seqNum, i),
                      EncodeHeader(FragHeader(msgId, i, FragTotal(|data|), |data| % 0x1_0000)) + Chunk(data, i))
  {
    ChunksInRange(|data|, i);
  }

  /** An entry is kept while it is less than `maxAge` + 1 seconds old. */
  lemma KeptByTime(partials: Partials, now: int, maxAge: u32, id: u16)
    ensures id in Cleanup(partials, now, maxAge)
        <==> id in partials && now - partials[id].received < (maxAge + 1) * 1_000_000_000
    ensures id in Cleanup(partials, now, maxAge) ==> Cleanup(partials, now, maxAge)[id] == partials[id]
  {
  }

  /** Packets too short for a header, or that announce no more than one fragment, are not taken. */
  lemma NotTaken(partials: Partials, p: Packet, maxOut: nat, now: int)
    requires p.header.payloadLen <= MAX_PAYLOAD_SIZE
    requires p.header.payloadLen < 6 || ToNat(p.payload[3]) <= 1
    ensures Reassemble(partials, p, maxOut, now) == (partials, None)
  {
    hide FromLe, ToNat;
  }

  lemma SameKeys(pieces: map<u8, seq<byte>>, i: u8, x: seq<byte>, y: seq<byte>)
    ensures |pieces[i := x]| == |pieces[i := y]|
  {
    assert pieces[i := x].Keys == pieces[i := y].Keys;
    assert |pieces[i := x]| == |pieces[i := x].Keys| && |pieces[i := y]| == |pieces[i := y].Keys|;
  }

  /** A message that is complete but announces more than the buffer holds is dropped, with its pieces. */
  lemma TooLargeDropped(partials: Partials, p: Packet, maxOut: nat, now: int)
    requires 6 <= p.header.payloadLen <= MAX_PAYLOAD_SIZE && ToNat(p.payload[3]) > 1
    requires var fh := DecodeHeader(p.payload);
             fh.totalLen > maxOut && |PiecesOf(partials, fh.msgId)[fh.index := []]| == fh.total
    ensures Reassemble(partials, p, maxOut, now) == (partials - {DecodeHeader(p.payload).msgId}, None)
  {
    hide FromLe, ToNat;
    var fh := DecodeHeader(p.payload);
    var body := p.payload[FRAG_HEADER_SIZE..p.header.payloadLen];
    SameKeys(PiecesOf(partials, fh.msgId), fh.index, [], body);
  }

  /** The fragment loop of `fragment_message`. */
  method MakeFragments(data: seq<byte>, kind: PacketType, src: Mac, dst: Mac, seqNum: u32, msgId: u16, total: u8)
    returns (packets: seq<Packet>, nextSeq: u32)
    requires |data| > MAX_FRAG_PAYLOAD && total == FragTotal(|data|)
    ensures |packets| == total && nextSeq == SeqAfter(seqNum, total)
    ensures forall k :: 0 <= k < total ==> packets[k] == FragmentPacket(data, kind, src, dst, seqNum, msgId, k)
  {
    hide FragmentPacket, NewPacket, EncodeHeader, FragTotal, NextSeq, SeqAfter;
    SeqAfterSteps(seqNum, 0);
    packets, nextSeq := [], seqNum;
    var i := 0;
    while i < total
      invariant 0 <= i <= total && |packets| == i
      invariant forall k :: 0 <= k < i ==> packets[k] == FragmentPacket(data, kind, src, dst, seqNum, msgId, k)
      invariant nextSeq == SeqAfter(seqNum, i)
    {
      FragmentPacketIs(data, kind, src, dst, seqNum, msgId, i);
      SeqAfterSteps(seqNum, i);
      var fh := FragHeader(msgId, i, total, |data| % 0x1_0000);
      var offset := MAX_FRAG_PAYLOAD * i;
      var fragLen := MAX_FRAG_PAYLOAD;
      if offset + fragLen > |data| {
        fragLen := |data| - offset;
      }
      assert data[offset..offset + fragLen] == Chunk(data, i);
      var pkt := NewPacket(kind, src, dst, nextSeq, EncodeHeader(fh) + data[offset..offset + fragLen]);
      packets := packets + [pkt];
      nextSeq := NextSeq(nextSeq);
      i := i + 1;
    }
  }

  lemma GatherUnfold(pieces: map<u8, seq<byte>>, i: nat, total: u8, room: nat)
    requires i < total && room > 0
    ensures var f := if i in pieces then pieces[i] else [];
            var piece := if |f| < room then f else f[..room];
            Gather(pieces, i, total, room) == piece + Gather(pieces, i + 1, total, room - |piece|)
  {
  }

  /** Appending the next piece leaves the rest to gather. */
  lemma GatherStep(pieces: map<u8, seq<byte>>, i: nat, total: u8, room: nat, before: seq<byte>)
    requires i < total && room > 0
    ensures var f := if i in pieces then pieces[i] else [];
            var piece := if |f| < room then f else f[..room];
            before + Gather(pieces, i, total, room) == (before + piece) + Gather(pieces, i + 1, total, room - |piece|)
  {
    hide Gather;
    GatherUnfold(pieces, i, total, room);
  }

  lemma PrefixOf(buf: array<byte>, n: nat)
    requires n <= buf.Length
    ensures buf[..n] == buf[..][..n]
  {
  }

  lemma SpliceGrows(s: seq<byte>, at: nat, w: seq<byte>)
    requires at + |w| <= |s|
    ensures Splice(s, at, w)[..at + |w|] == s[..at] + w
  {
  }

  lemma GatherEnd(pieces: map<u8, seq<byte>>, i: nat, total: u8, room: nat)
    requires i >= total || room == 0
    ensures Gather(pieces, i, total, room) == []
  {
  }

  /** Copies one piece behind the `offset` bytes already there. */
  method AppendPiece(piece: seq<byte>, outBuf: array<byte>, offset: nat)
    requires offset + |piece| <= outBuf.Length
    modifies outBuf
    ensures outBuf[..offset + |piece|] == old(outBuf[..offset]) + piece
  {
    hide Splice;
    ghost var was := outBuf[..];
    PrefixOf(outBuf, offset);
    SpliceGrows(was, offset, piece);
    CopyInto(piece, outBuf, offset);
    PrefixOf(outBuf, offset + |piece|);
  }

  /** The copying loop of `reassemble_packet`; no copy passes `limit` or its room in the buffer. */
  method CopyPieces(pieces: map<u8, seq<byte>>, total: u8, limit: nat, outBuf: array<byte>) returns (offset: nat)
    requires limit <= outBuf.Length
    modifies outBuf
    ensures offset <= limit && outBuf[..offset] == Gather(pieces, 0, total, limit)
  {
    hide Gather;
    offset := 0;
    var i := 0;
    while i < total && offset < limit
      invariant 0 <= i <= total && offset <= limit
      invariant outBuf[..offset] + Gather(pieces, i, total, limit - offset) == Gather(pieces, 0, total, limit)
      decreases total - i
    {
      var f := if i in pieces then pieces[i] else [];
      var remaining := limit - offset;
      var piece := if |f| < remaining then f else f[..remaining];
      GatherStep(pieces, i, total, remaining, outBuf[..offset]);
      AppendPiece(piece, outBuf, offset);
      offset := offset + |piece|;
      i := i + 1;
    }
    GatherEnd(pieces, i, total, limit - offset);
    assert outBuf[..offset] + [] == outBuf[..offset];
  }

  class FragmentManager {
    var partials: Partials
    var nextMsgId: u16

    constructor ()
      ensures partials == map[] && nextMsgId == 1
    {
      partials := map[];
      nextMsgId := 1;
    }

    method FragmentMessage(data: seq<byte>, kind: PacketType, src: Mac, dst: Mac, seqNum: u32)
      returns (packets: seq<Packet>, nextSeq: u32)
      modifies this`nextMsgId
      ensures packets == Split(data, kind, src, dst, seqNum, old(nextMsgId))
      ensures nextSeq == SeqAfter(seqNum, |packets|)
      ensures nextMsgId == if |data| <= MAX_FRAG_PAYLOAD then old(nextMsgId) else (old(nextMsgId) + 1) % 0x1_0000
    {
      hide FragmentPacket, NewPacket;
      if |data| <= MAX_FRAG_PAYLOAD {
        return [NewPacket(kind, src, dst, seqNum, data)], NextSeq(seqNum);
      }
      var total := (|data| + MAX_FRAG_PAYLOAD - 1) / MAX_FRAG_PAYLOAD % 0x100;
      if total == 0 {
        total := 1;
      }
      var msgId := nextMsgId;
      nextMsgId := (nextMsgId + 1) % 0x1_0000;
      packets, nextSeq := MakeFragments(data, kind, src, dst, seqNum, msgId, total);
      assert packets == Split(data, kind, src, dst, seqNum, msgId);
    }

    method ReassemblePacket(frag: Packet, outBuf: array<byte>, maxOut: nat, now: int) returns (done: bool, outLen: nat)
      requires frag.header.payloadLen <= MAX_PAYLOAD_SIZE && maxOut <= outBuf.Length
      modifies this`partials, outBuf
      ensures partials == Reassemble(old(partials), frag, maxOut, now).0
      ensures done == Reassemble(old(partials), frag, maxOut, now).1.Some?
      ensures done ==> outLen <= maxOut && outBuf[..outLen] == Reassemble(old(partials), frag, maxOut, now).1.value
    {
      hide DecodeHeader, Gather;
      outLen := 0;
      if frag.header.payloadLen < FRAG_HEADER_SIZE {
        return false, 0;
      }
      var fh := DecodeHeader(frag.payload);
      if fh.total <= 1 {
        return false, 0;
      }
      ghost var before := partials;
      var pieces := if fh.msgId in partials then partials[fh.msgId].fragments else map[];
      pieces := pieces[fh.index := frag.payload[FRAG_HEADER_SIZE..frag.header.payloadLen]];
      partials := partials[fh.msgId := Partial(pieces, fh.total, now)];
      if |pieces| != fh.total {
        return false, 0;
      }
      partials := partials - {fh.msgId};
      assert partials == before - {fh.msgId};
      if fh.totalLen > maxOut {
        return false, 0;
      }
      outLen := CopyPieces(pieces, fh.total, fh.totalLen, outBuf);
      done := true;
    }

    /** Visits every entry once, erasing the stale ones on the way. */
    method CleanupStale(now: int, maxAge: u32)
      modifies this`partials
      ensures partials == Cleanup(old(partials), now, maxAge)
    {
      var todo := partials.Keys;
      while todo != {}
        invariant todo <= partials.Keys <= old(partials.Keys)
        invariant forall id :: id in partials ==> partials[id] == old(partials)[id]
        invariant forall id :: id in old(partials) && id !in todo ==>
          (id in partials <==> AgeSeconds(now, old(partials)[id].received) <= maxAge)
        decreases todo
      {
        var id :| id in todo;
        todo := todo - {id};
        if AgeSeconds(now, partials[id].received) > maxAge {
          partials := partials - {id};
        }
      }
    }
  }
}
