/** The packet of include/packet.hpp and hardware addresses. */
module Packets {
  import opened Bytes

  const MAX_PAYLOAD_SIZE: nat := 512
  const PROTOCOL_VERSION: u8 := 1
  const DEFAULT_TTL: u8 := 64

  type Mac = s: seq<byte> | |s| == 6 witness Zeros(6)
  type Payload = s: seq<byte> | |s| == MAX_PAYLOAD_SIZE witness Zeros(512)

  const BROADCAST: Mac := [0xff, 0xff, 0xff, 0xff, 0xff, 0xff]

  /** `Unassigned` is any other value of the type byte. */
  datatype PacketType = Discovery | RouteAdv | Data | Ack | Unassigned(code: u8)

  datatype Header = Header(version: u8, kind: PacketType, ttl: u8, source: Mac, dest: Mac,
                           sequenceId: u32, payloadLen: u16)

  datatype Packet = Packet(header: Header, payload: Payload) {
    /** The bytes the header declares. */
    function Body(): (b: seq<byte>)
      requires header.payloadLen <= MAX_PAYLOAD_SIZE
    {
      payload[..header.payloadLen]
    }
  }

  /** A packet as `init` leaves it, with nothing in its payload. */
  function EmptyPacket(kind: PacketType, source: Mac, dest: Mac, seqNum: u32): Packet {
    Packet(Header(PROTOCOL_VERSION, kind, DEFAULT_TTL, source, dest, seqNum, 0), Zeros(MAX_PAYLOAD_SIZE))
  }

  /** `body` followed by the zeros that `init` put behind it. */
  function PadPayload(body: seq<byte>): (p: Payload)
    requires |body| <= MAX_PAYLOAD_SIZE
    ensures p[..|body|] == body
  {
    body + Zeros(MAX_PAYLOAD_SIZE - |body|)
  }

  /** A fresh packet whose declared payload is `body`. */
  function NewPacket(kind: PacketType, source: Mac, dest: Mac, seqNum: u32, body: seq<byte>): (p: Packet)
    requires |body| <= MAX_PAYLOAD_SIZE
    ensures p.header.payloadLen == |body| && p.Body() == body
  {
    var e := EmptyPacket(kind, source, dest, seqNum);
    Packet(e.header.(payloadLen := |body|), PadPayload(body))
  }

  /** The counter after one more packet. */
  function NextSeq(seqNum: u32): u32 {
    (seqNum + 1) % 0x1_0000_0000
  }

  function SeqAfter(seqNum: u32, n: nat): u32 {
    (seqNum + n) % 0x1_0000_0000
  }

  lemma SeqAfterSteps(seqNum: u32, n: nat)
    ensures SeqAfter(seqNum, 0) == seqNum
    ensures NextSeq(SeqAfter(seqNum, n)) == SeqAfter(seqNum, n + 1)
  {
  }

  // ----- memcmp on addresses

  /** `a` comes before `b` in byte order. */
  predicate BytesBefore(a: seq<byte>, b: seq<byte>)
    requires |a| == |b|
  {
    a != [] && (a[0] < b[0] || (a[0] == b[0] && BytesBefore(a[1..], b[1..])))
  }

  lemma {:induction false} BytesBeforeTotal(a: seq<byte>, b: seq<byte>)
    requires |a| == |b|
    ensures !(BytesBefore(a, b) && BytesBefore(b, a))
    ensures BytesBefore(a, b) || BytesBefore(b, a) || a == b
  {
    if a != [] {
      BytesBeforeTotal(a[1..], b[1..]);
      assert a == [a[0]] + a[1..] && b == [b[0]] + b[1..];
    }
  }
}
