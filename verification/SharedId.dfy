/**
 Two messages under one id. Every node numbers its messages from 1, and partial messages are kept by
 id alone, so the first long messages of two senders meet in one entry of the receiver's table. Here
 both have two fragments: what is rebuilt follows a slot that holds one piece, and both messages
 survive exactly when their fragments do not interleave.
 */
module SharedId {
  import opened Bytes
  import opened Packets
  import opened Fragments
  import opened Reassembly

  predicate HasTwoPieces(msg: seq<byte>) {
    MAX_FRAG_PAYLOAD < |msg| <= 2 * MAX_FRAG_PAYLOAD
  }

  /** Two messages of two fragments that differ in the first, and of whose last ones neither begins with the other. */
  ghost predicate TwoMessages(a: seq<byte>, b: seq<byte>) {
    && HasTwoPieces(a) && HasTwoPieces(b)
    && Chunk(a, 0) != Chunk(b, 0) && !(Chunk(a, 1) <= Chunk(b, 1)) && !(Chunk(b, 1) <= Chunk(a, 1))
  }

  /** A piece: of message `a` or of message `b`, the first or the second. */
  datatype Piece = Piece(ofA: bool, index: u8)

  type Pieces = ps: seq<Piece> | forall x :: x in ps ==> x.index < 2

  function MessageOf(a: seq<byte>, b: seq<byte>, x: Piece): seq<byte> {
    if x.ofA then a else b
  }

  /** The events are arrivals of these pieces, one after the other. */
  ghost predicate Arrivals(h: seq<Event>, pieces: Pieces, id: u16, a: seq<byte>, b: seq<byte>) {
    && |h| == |pieces|
    && forall k :: 0 <= k < |h| ==> h[k].Arrive? && IsPiece(h[k].p, id, MessageOf(a, b, pieces[k]), pieces[k].index)
  }

  // ----- the slot

  /** What a call brings: nothing, one of the messages, or a mixture of both. */
  datatype Outcome = Nothing | Rebuilt(ofA: bool) | Mixed

  /** A piece goes to an empty slot, replaces the same piece of either message, or completes the other one. */
  function SlotStep(slot: Option<Piece>, x: Piece): (Option<Piece>, Outcome) {
    match slot
    case None => (Some(x), Nothing)
    case Some(y) =>
      if y.index == x.index then (Some(x), Nothing)
      else (None, if y.ofA == x.ofA then Rebuilt(x.ofA) else Mixed)
  }

  function SlotAfter(pieces: seq<Piece>): Option<Piece> {
    if pieces == [] then None else SlotStep(SlotAfter(pieces[..|pieces| - 1]), pieces[|pieces| - 1]).0
  }

  function LastOutcome(pieces: seq<Piece>): Outcome
    requires pieces != []
  {
    SlotStep(SlotAfter(pieces[..|pieces| - 1]), pieces[|pieces| - 1]).1
  }

  ghost function PieceBytes(a: seq<byte>, b: seq<byte>, x: Piece): seq<byte>
    requires TwoMessages(a, b) && x.index < 2
  {
    Chunk(MessageOf(a, b, x), x.index)
  }

  /** The entry of `id` holds exactly the piece in the slot. */
  ghost predicate Held(partials: Partials, id: u16, slot: Option<Piece>, a: seq<byte>, b: seq<byte>)
    requires TwoMessages(a, b)
  {
    match slot
    case None => id !in partials
    case Some(x) =>
      x.index < 2 && id in partials && partials[id].fragments == map[x.index := PieceBytes(a, b, x)]
  }

  /** The call returned what the outcome says; a mixture is neither message. */
  ghost predicate Returned(out: Option<seq<byte>>, o: Outcome, a: seq<byte>, b: seq<byte>) {
    match o
    case Nothing => out == None
    case Rebuilt(ofA) => out == Some(if ofA then a else b)
    case Mixed => out.Some? && out.value != a && out.value != b
  }

  /** Two pieces gathered: the first, then as much of the second as the announced length has room for. */
  lemma GatherTwo(x: seq<byte>, y: seq<byte>, len: nat)
    requires |x| == MAX_FRAG_PAYLOAD < len
    ensures var room := len - MAX_FRAG_PAYLOAD;
            Gather(map[0 := x, 1 := y], 0, 2, len) == x + (if |y| < room then y else y[..room])
  {
    hide Gather;
    var pieces: map<u8, seq<byte>> := map[0 := x, 1 := y];
    var room := len - MAX_FRAG_PAYLOAD;
    var piece := if |y| < room then y else y[..room];
    GatherUnfold(pieces, 0, 2, len);
    GatherUnfold(pieces, 1, 2, room);
    GatherEnd(pieces, 2, 2, room - |piece|);
    assert piece + [] == piece;
  }

  /** A message of two fragments is its two pieces. */
  lemma TwoPieces(msg: seq<byte>)
    requires HasTwoPieces(msg)
    ensures |Chunk(msg, 0)| == MAX_FRAG_PAYLOAD && msg == Chunk(msg, 0) + Chunk(msg, 1)
    ensures |Chunk(msg, 1)| == |msg| - MAX_FRAG_PAYLOAD
  {
    ChunkSplit(msg, 0);
    ChunkSplit(msg, 1);
  }

  /** The first piece of one message and the second of the other, under either length, make neither. */
  lemma MixtureIsNeither(a: seq<byte>, b: seq<byte>, len: nat)
    requires TwoMessages(a, b) && (len == |a| || len == |b|)
    ensures var mixed := Gather(map[0 := Chunk(a, 0), 1 := Chunk(b, 1)], 0, 2, len); mixed != a && mixed != b
  {
    hide Chunk, Gather, FragTotal;
    TwoPieces(a);
    TwoPieces(b);
    var x, y := Chunk(a, 0), Chunk(b, 1);
    GatherTwo(x, y, len);
    var room := len - MAX_FRAG_PAYLOAD;
    var tail := if |y| < room then y else y[..room];
    assert (x + tail)[..MAX_FRAG_PAYLOAD] == x && (x + tail)[MAX_FRAG_PAYLOAD..] == tail;
    assert b[..MAX_FRAG_PAYLOAD] == Chunk(b, 0) && a[MAX_FRAG_PAYLOAD..] == Chunk(a, 1);
    assert tail <= y;
  }

  lemma RebuiltFromPieces(msg: seq<byte>)
    requires HasTwoPieces(msg)
    ensures Gather(map[0 := Chunk(msg, 0), 1 := Chunk(msg, 1)], 0, 2, |msg|) == msg
  {
    hide Chunk, Gather, FragTotal;
    TwoPieces(msg);
    GatherTwo(Chunk(msg, 0), Chunk(msg, 1), |msg|);
  }

  /** What a call does to the entry of `id`, when it holds the pieces `had`. */
  lemma PieceStep(partials: Partials, p: Packet, id: u16, msg: seq<byte>, i: u8, maxOut: nat, now: int)
    requires HasTwoPieces(msg) && |msg| <= maxOut && IsPiece(p, id, msg, i)
    ensures var pieces := PiecesOf(partials, id)[i := Chunk(msg, i)];
            Reassemble(partials, p, maxOut, now)
            == if |pieces| != 2 then (partials[id := Partial(pieces, 2, now)], None)
               else (partials - {id}, Some(Gather(pieces, 0, 2, |msg|)))
  {
    hide DecodeHeader, Gather, Chunk, Reassemble;
    assert FragTotal(|msg|) == 2;
    hide FragTotal;
    ReassembleFragment(partials, p, maxOut, now, FragHeader(id, i, 2, |msg|), Chunk(msg, i));
  }

  lemma EachHasTwo(a: seq<byte>, b: seq<byte>)
    requires TwoMessages(a, b)
    ensures HasTwoPieces(a) && HasTwoPieces(b)
  {
    hide Chunk;
  }

  lemma HeldPieces(partials: Partials, id: u16, slot: Option<Piece>, a: seq<byte>, b: seq<byte>)
    requires TwoMessages(a, b) && Held(partials, id, slot, a, b)
    ensures slot.Some? ==> slot.value.index < 2
    ensures PiecesOf(partials, id)
         == if slot.None? then map[] else map[slot.value.index := PieceBytes(a, b, slot.value)]
  {
    hide TwoMessages, PieceBytes;
  }

  lemma NothingHeld(partials: Partials, id: u16, a: seq<byte>, b: seq<byte>)
    requires TwoMessages(a, b) && id !in partials
    ensures Held(partials, id, None, a, b)
  {
  }

  lemma OneHeld(partials: Partials, id: u16, x: Piece, now: int, a: seq<byte>, b: seq<byte>)
    requires TwoMessages(a, b) && x.index < 2
    ensures var pieces: map<u8, seq<byte>> := map[x.index := PieceBytes(a, b, x)];
            Held(partials[id := Partial(pieces, 2, now)], id, Some(x), a, b)
  {
    hide TwoMessages, PieceBytes;
  }

  lemma OnePiece(had: map<u8, seq<byte>>, i: u8, x: seq<byte>)
    requires had.Keys <= {i}
    ensures had[i := x] == map[i := x] && |had[i := x]| == 1
  {
    assert had[i := x].Keys == {i} && |had[i := x]| == |had[i := x].Keys|;
  }

  lemma TwoHeld(i: u8, x: seq<byte>, j: u8, y: seq<byte>)
    requires i < 2 && j < 2 && i != j
    ensures var pieces: map<u8, seq<byte>> := map[i := x][j := y];
            |pieces| == 2 && pieces == if i == 0 then map[0 := x, 1 := y] else map[0 := y, 1 := x]
  {
    var pieces: map<u8, seq<byte>> := map[i := x][j := y];
    assert pieces.Keys == {0, 1} && |pieces| == |pieces.Keys|;
  }

  /** The piece held and the other one that arrives, gathered. */
  lemma Completed(a: seq<byte>, b: seq<byte>, y: Piece, x: Piece)
    requires TwoMessages(a, b) && x.index < 2 && y.index < 2 && x.index != y.index
    ensures var first, second := if x.index == 0 then x else y, if x.index == 0 then y else x;
            var out := Gather(map[0 := PieceBytes(a, b, first), 1 := PieceBytes(a, b, second)], 0, 2,
                              |MessageOf(a, b, x)|);
            Returned(Some(out), if y.ofA == x.ofA then Rebuilt(x.ofA) else Mixed, a, b)
  {
    hide Gather, Chunk;
    RebuiltFromPieces(MessageOf(a, b, x));
    MixtureIsNeither(a, b, |MessageOf(a, b, x)|);
    MixtureIsNeither(b, a, |MessageOf(a, b, x)|);
  }

  /** One call follows one step of the slot. */
  lemma StepFollowsSlot(partials: Partials, p: Packet, id: u16, a: seq<byte>, b: seq<byte>, slot: Option<Piece>,
                        x: Piece, maxOut: nat, now: int)
    requires TwoMessages(a, b) && |a| <= maxOut && |b| <= maxOut && x.index < 2
    requires Held(partials, id, slot, a, b) && IsPiece(p, id, MessageOf(a, b, x), x.index)
    ensures var (after, out) := Reassemble(partials, p, maxOut, now);
            var (next, o) := SlotStep(slot, x);
            Held(after, id, next, a, b) && Returned(out, o, a, b)
  {
    hide Chunk, Gather, Reassemble, IsPiece, Held, TwoMessages;
    EachHasTwo(a, b);
    PieceStep(partials, p, id, MessageOf(a, b, x), x.index, maxOut, now);
    HeldPieces(partials, id, slot, a, b);
    if slot.Some? && slot.value.index != x.index {
      TwoHeld(slot.value.index, PieceBytes(a, b, slot.value), x.index, PieceBytes(a, b, x));
      NothingHeld(partials - {id}, id, a, b);
      Completed(a, b, slot.value, x);
    } else {
      OnePiece(PiecesOf(partials, id), x.index, PieceBytes(a, b, x));
      OneHeld(partials, id, x, now, a, b);
    }
  }

  lemma ArrivalsSendable(h: seq<Event>, pieces: Pieces, id: u16, a: seq<byte>, b: seq<byte>)
    requires Arrivals(h, pieces, id, a, b)
    ensures Sendable(h)
  {
    hide DecodeHeader, FragTotal, Chunk;
  }

  /** Over every run of arrivals, in any order and with any repetitions, the calls follow the slot. */
  lemma {:induction false} RunFollowsSlot(start: Partials, h: seq<Event>, pieces: Pieces, id: u16, a: seq<byte>,
                                          b: seq<byte>, maxOut: nat)
    requires TwoMessages(a, b) && |a| <= maxOut && |b| <= maxOut && id !in start && Arrivals(h, pieces, id, a, b)
    ensures Sendable(h)
    ensures Held(TableAfter(start, h, maxOut), id, SlotAfter(pieces), a, b)
    ensures h != [] ==> Returned(LastOutput(start, h, maxOut), LastOutcome(pieces), a, b)
  {
    hide FragTotal, Chunk, Reassemble, DecodeHeader;
    ArrivalsSendable(h, pieces, id, a, b);
    if h != [] {
      var g, e := h[..|h| - 1], h[|h| - 1];
      var init, x := pieces[..|pieces| - 1], pieces[|pieces| - 1];
      RunFollowsSlot(start, g, init, id, a, b, maxOut);
      StepFollowsSlot(TableAfter(start, g, maxOut), e.p, id, a, b, SlotAfter(init), x, maxOut, e.now);
    }
  }

  // ----- when both survive

  function ReturnedAt(start: Partials, h: seq<Event>, k: nat, maxOut: nat): Option<seq<byte>>
    requires Sendable(h) && 0 < k <= |h|
  {
    assert forall e :: e in h[..k] ==> e in h;
    LastOutput(start, h[..k], maxOut)
  }

  /** Some call of the run returns `msg`. */
  ghost predicate Survives(start: Partials, h: seq<Event>, maxOut: nat, msg: seq<byte>)
    requires Sendable(h)
  {
    exists k :: 0 < k <= |h| && ReturnedAt(start, h, k, maxOut) == Some(msg)
  }

  ghost predicate RebuiltIn(pieces: seq<Piece>, ofA: bool) {
    exists k :: 0 < k <= |pieces| && LastOutcome(pieces[..k]) == Rebuilt(ofA)
  }

  lemma SurvivesIffRebuilt(start: Partials, h: seq<Event>, pieces: Pieces, id: u16, a: seq<byte>, b: seq<byte>,
                           maxOut: nat)
    requires TwoMessages(a, b) && |a| <= maxOut && |b| <= maxOut && id !in start && Arrivals(h, pieces, id, a, b)
    ensures Sendable(h)
    ensures Survives(start, h, maxOut, a) <==> RebuiltIn(pieces, true)
    ensures Survives(start, h, maxOut, b) <==> RebuiltIn(pieces, false)
  {
    hide LastOutput, LastOutcome, FragTotal, Chunk, IsPiece;
    ArrivalsSendable(h, pieces, id, a, b);
    assert a != b;
    forall k | 0 < k <= |h|
      ensures Returned(ReturnedAt(start, h, k, maxOut), LastOutcome(pieces[..k]), a, b)
    {
      RunFollowsSlot(start, h[..k], pieces[..k], id, a, b, maxOut);
    }
  }

  lemma Slots(pieces: seq<Piece>, k: nat)
    requires k < |pieces|
    ensures SlotAfter(pieces[..0]) == None
    ensures SlotAfter(pieces[..k + 1]) == SlotStep(SlotAfter(pieces[..k]), pieces[k]).0
    ensures LastOutcome(pieces[..k + 1]) == SlotStep(SlotAfter(pieces[..k]), pieces[k]).1
  {
    assert pieces[..k + 1][..k] == pieces[..k];
  }

  lemma BothRebuiltIff(pieces: Pieces)
    requires |pieces| == 4 && forall i, j :: 0 <= i < j < 4 ==> pieces[i] != pieces[j]
    ensures RebuiltIn(pieces, true) && RebuiltIn(pieces, false) <==> pieces[0].ofA == pieces[1].ofA
  {
    hide SlotAfter, LastOutcome;
    Slots(pieces, 0);
    Slots(pieces, 1);
    Slots(pieces, 2);
    Slots(pieces, 3);
    if pieces[0].ofA == pieces[1].ofA {
      assert LastOutcome(pieces[..2]) == Rebuilt(pieces[0].ofA);
      assert LastOutcome(pieces[..4]) == Rebuilt(!pieces[0].ofA);
    }
  }

  /**
   When the four fragments of the two messages arrive once each, in any order, both messages are
   rebuilt exactly when the first two fragments are of the same message.
   */
  lemma BothSurviveIff(start: Partials, h: seq<Event>, pieces: Pieces, id: u16, a: seq<byte>, b: seq<byte>, maxOut: nat)
    requires TwoMessages(a, b) && |a| <= maxOut && |b| <= maxOut && id !in start && Arrivals(h, pieces, id, a, b)
    requires |pieces| == 4 && forall i, j :: 0 <= i < j < 4 ==> pieces[i] != pieces[j]
    ensures Sendable(h)
    ensures Survives(start, h, maxOut, a) && Survives(start, h, maxOut, b) <==> pieces[0].ofA == pieces[1].ofA
  {
    hide Survives, RebuiltIn, Arrivals, TwoMessages;
    SurvivesIffRebuilt(start, h, pieces, id, a, b, maxOut);
    BothRebuiltIff(pieces);
  }

  /** A concrete interleaving that loses both: the first of one, the second of the other, then the rest. */
  lemma InterleavedBothLost(start: Partials, h: seq<Event>, id: u16, a: seq<byte>, b: seq<byte>, maxOut: nat)
    requires TwoMessages(a, b) && |a| <= maxOut && |b| <= maxOut && id !in start
    requires Arrivals(h, [Piece(true, 0), Piece(false, 1), Piece(false, 0), Piece(true, 1)], id, a, b)
    ensures Sendable(h)
    ensures !Survives(start, h, maxOut, a) && !Survives(start, h, maxOut, b)
  {
    hide Survives, Arrivals, TwoMessages, SlotAfter, LastOutcome;
    var pieces: Pieces := [Piece(true, 0), Piece(false, 1), Piece(false, 0), Piece(true, 1)];
    SurvivesIffRebuilt(start, h, pieces, id, a, b, maxOut);
    Slots(pieces, 0);
    Slots(pieces, 1);
    Slots(pieces, 2);
    Slots(pieces, 3);
  }
}
