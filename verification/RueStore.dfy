/** The store-and-forward file: its bytes, and the list of entries they stand for. */
module RueStore {
  import opened Bytes
  import opened Packets

  const MAGIC: seq<byte> := [0x52, 0x55, 0x45, 0x00]
  const VERSION: byte := 0x01
  const HEADER_BYTES: nat := 9
  const ENTRY_BYTES: nat := 528

  datatype RueEntry = RueEntry(dest: Mac, payloadLen: u16, payload: Payload, timestamp: u64)

  // ----- the file format

  function EncodeEntry(e: RueEntry): (s: seq<byte>)
    ensures |s| == ENTRY_BYTES
  {
    e.dest + Le(e.payloadLen, 2) + e.payload + Le(e.timestamp, 8)
  }

  function DecodeEntry(s: seq<byte>): RueEntry
    requires |s| == ENTRY_BYTES
  {
    FromLeBound(s[6..8]);
    FromLeBound(s[520..528]);
    FieldWidths();
    RueEntry(s[..6], FromLe(s[6..8]), s[8..520], FromLe(s[520..528]))
  }

  lemma DecodeOfEncode(e: RueEntry)
    ensures DecodeEntry(EncodeEntry(e)) == e
  {
    hide Le, FromLe;
    var s := EncodeEntry(e);
    var head := e.dest + Le(e.payloadLen, 2) + e.payload;
    var tail := Le(e.timestamp, 8);
    assert s == head + tail && |head| == 520 && |tail| == 8;
    assert s[520..] == tail;
    assert s[520..528] == s[520..];
    assert s[..6] == e.dest && s[6..8] == Le(e.payloadLen, 2);
    assert s[8..520] == e.payload;
    FieldWidths();
    FromLeOfLe(e.payloadLen, 2);
    FromLeOfLe(e.timestamp, 8);
  }

  /** The bytes of a record: destination, length, 512 bytes of payload, time; integers least significant byte first. */
  lemma EntryLayout(e: RueEntry)
    ensures var s := EncodeEntry(e);
            && s[..6] == e.dest && s[6] == ToByte(e.payloadLen % 256) && s[7] == ToByte(e.payloadLen / 256)
            && s[8..520] == e.payload && s[520..] == Le(e.timestamp, 8)
  {
    hide Le, ToByte;
    var s := EncodeEntry(e);
    TwoBytes(e.payloadLen);
    assert s[6..8] == Le(e.payloadLen, 2);
    assert s[6..8][0] == s[6] && s[6..8][1] == s[7];
  }

  function EncodeAll(es: seq<RueEntry>): (s: seq<byte>)
    ensures |s| == ENTRY_BYTES * |es|
  {
    if es == [] then [] else EncodeEntry(es[0]) + EncodeAll(es[1..])
  }

  function FileHeader(count: nat): (s: seq<byte>)
    ensures |s| == HEADER_BYTES
  {
    MAGIC + [VERSION] + Le(count % 0x1_0000_0000, 4)
  }

  /** The file that stands for the list `es`; the count field has 32 bits. */
  function FileOf(es: seq<RueEntry>): seq<byte> {
    FileHeader(|es|) + EncodeAll(es)
  }

  /** A fresh file: the letters RUE, a zero, version 1 and a count of four bytes. */
  lemma EmptyFileIs()
    ensures FileOf([]) == [0x52, 0x55, 0x45, 0x00, 0x01, 0, 0, 0, 0]
  {
    assert Le(0, 0) == [];
    assert Le(0, 1) == [0];
    assert Le(0, 2) == [0, 0];
    assert Le(0, 3) == [0, 0, 0];
    assert Le(0, 4) == [0, 0, 0, 0];
  }

  /** The count stored in the header. */
  function StoredCount(file: seq<byte>): nat
    requires |file| >= HEADER_BYTES
  {
    FromLe(file[5..9])
  }

  /** The entries read from offset `pos` on; an incomplete one ends the reading. */
  function ReadEntries(file: seq<byte>, pos: nat): seq<RueEntry>
    decreases |file| - pos
  {
    if pos + ENTRY_BYTES > |file| then []
    else [DecodeEntry(file[pos..pos + ENTRY_BYTES])] + ReadEntries(file, pos + ENTRY_BYTES)
  }

  // ----- the list operations

  /** The entries of `es` for `dest`, in order. */
  function For(es: seq<RueEntry>, dest: Mac): seq<RueEntry> {
    if es == [] then []
    else (if es[0].dest == dest then [es[0]] else []) + For(es[1..], dest)
  }

  /** The entries of `es` for anyone else, in order. */
  function NotFor(es: seq<RueEntry>, dest: Mac): seq<RueEntry> {
    if es == [] then []
    else (if es[0].dest == dest then [] else [es[0]]) + NotFor(es[1..], dest)
  }

  /** What `remove_entry` compares: not the payload. */
  predicate Matches(e: RueEntry, target: RueEntry) {
    e.dest == target.dest && e.timestamp == target.timestamp && e.payloadLen == target.payloadLen
  }

  predicate HasMatch(es: seq<RueEntry>, target: RueEntry) {
    exists k :: 0 <= k < |es| && Matches(es[k], target)
  }

  function RemoveFirst(es: seq<RueEntry>, target: RueEntry): seq<RueEntry> {
    if es == [] then []
    else if Matches(es[0], target) then es[1..]
    else [es[0]] + RemoveFirst(es[1..], target)
  }

  /**
   Removal takes away the first entry with the same destination, time and length, whatever its
   payload: of two messages of one length queued in the same second it is always the earlier one.
   */
  lemma {:induction false} RemovesFirstTwin(es: seq<RueEntry>, target: RueEntry, k: nat)
    requires k < |es|
    requires es[k].dest == target.dest && es[k].timestamp == target.timestamp && es[k].payloadLen == target.payloadLen
    requires forall j :: 0 <= j < k ==>
               es[j].dest != target.dest || es[j].timestamp != target.timestamp || es[j].payloadLen != target.payloadLen
    ensures RemoveFirst(es, target) == es[..k] + es[k + 1..]
  {
    if k > 0 {
      assert !Matches(es[0], target);
      RemovesFirstTwin(es[1..], target, k - 1);
      assert es[..k] == [es[0]] + es[1..][..k - 1] && es[1..][k..] == es[k + 1..];
    }
  }

  function NewEntry(dest: Mac, data: seq<byte>, now: u64): RueEntry {
    var len := if |data| > MAX_PAYLOAD_SIZE then MAX_PAYLOAD_SIZE else |data|;
    RueEntry(dest, len, PadPayload(data[..len]), now)
  }

  // ----- the byte operations

  predicate HasHeader(file: seq<byte>) {
    |file| >= HEADER_BYTES && file[4] == VERSION
  }

  /** An entry appended and the count field patched. */
  function AppendBytes(file: seq<byte>, e: RueEntry): seq<byte>
    requires HasHeader(file)
  {
    Splice(file + EncodeEntry(e), 5, Le((StoredCount(file) + 1) % 0x1_0000_0000, 4))
  }

  /** The whole file rewritten without the first matching entry. */
  function RemoveBytes(file: seq<byte>, target: RueEntry): seq<byte> {
    var es := ReadEntries(file, HEADER_BYTES);
    if HasMatch(es, target) then FileOf(RemoveFirst(es, target)) else file
  }

  lemma CountOfFile(es: seq<RueEntry>)
    ensures |FileOf(es)| == HEADER_BYTES + ENTRY_BYTES * |es|
    ensures HasHeader(FileOf(es)) && StoredCount(FileOf(es)) == |es| % 0x1_0000_0000
  {
    hide Le, FromLe, EncodeAll;
    assert FileOf(es)[5..9] == Le(|es| % 0x1_0000_0000, 4);
    FieldWidths();
    FromLeOfLe(|es| % 0x1_0000_0000, 4);
  }

  lemma {:induction false} EncodeAllAppend(es: seq<RueEntry>, e: RueEntry)
    ensures EncodeAll(es + [e]) == EncodeAll(es) + EncodeEntry(e)
  {
    hide EncodeEntry;
    if es == [] {
      assert EncodeAll([e][1..]) == [];
    } else {
      assert (es + [e])[1..] == es[1..] + [e];
      EncodeAllAppend(es[1..], e);
    }
  }

  lemma AppendRefines(es: seq<RueEntry>, e: RueEntry)
    ensures HasHeader(FileOf(es))
    ensures AppendBytes(FileOf(es), e) == FileOf(es + [e])
  {
    CountOfFile(es);
    hide Le, EncodeAll, EncodeEntry, StoredCount;
    var count := Le((|es| + 1) % 0x1_0000_0000, 4);
    EncodeAllAppend(es, e);
    assert FileOf(es + [e]) == MAGIC + [VERSION] + count + (EncodeAll(es) + EncodeEntry(e));
    var appended := FileOf(es) + EncodeEntry(e);
    assert appended[..5] == MAGIC + [VERSION];
    assert appended[9..] == EncodeAll(es) + EncodeEntry(e);
  }

  lemma {:induction false} ReadOfEncodeAll(head: seq<byte>, es: seq<RueEntry>, tail: seq<byte>)
    requires |tail| < ENTRY_BYTES
    ensures ReadEntries(head + EncodeAll(es) + tail, |head|) == es
    decreases |es|
  {
    hide EncodeEntry, DecodeEntry;
    var file := head + EncodeAll(es) + tail;
    if es != [] {
      var e := EncodeEntry(es[0]);
      assert file == (head + e) + EncodeAll(es[1..]) + tail;
      assert file[|head|..|head| + ENTRY_BYTES] == e;
      DecodeOfEncode(es[0]);
      ReadOfEncodeAll(head + e, es[1..], tail);
    }
  }

  /** Reading the file of a list gives the list, even with an incomplete entry behind it. */
  lemma ReadOfFile(es: seq<RueEntry>, tail: seq<byte>)
    requires |tail| < ENTRY_BYTES
    ensures ReadEntries(FileOf(es) + tail, HEADER_BYTES) == es
  {
    ReadOfEncodeAll(FileHeader(|es|), es, tail);
  }

  lemma NoMatch(target: RueEntry)
    ensures !HasMatch([], target) && RemoveFirst([], target) == []
  {
  }

  lemma NextMatch(all: seq<RueEntry>, i: nat, target: RueEntry)
    requires i < |all|
    ensures HasMatch(all[..i + 1], target) <==> HasMatch(all[..i], target) || Matches(all[i], target)
    ensures RemoveFirst(all[i..], target)
         == if Matches(all[i], target) then all[i + 1..] else [all[i]] + RemoveFirst(all[i + 1..], target)
    ensures all[..i + 1] == all[..i] + [all[i]] && all[i..] == [all[i]] + all[i + 1..]
  {
    hide Matches;
    assert all[..i + 1] == all[..i] + [all[i]];
    assert all[i..][1..] == all[i + 1..];
    if Matches(all[i], target) {
      assert Matches(all[..i + 1][i], target);
    }
    if HasMatch(all[..i], target) {
      var k :| 0 <= k < i && Matches(all[..i][k], target);
      assert Matches(all[..i + 1][k], target);
    }
  }

  /** The filtering loop of `remove_entry`: only the first match is skipped. */
  method Without(all: seq<RueEntry>, target: RueEntry) returns (found: bool, filtered: seq<RueEntry>)
    ensures found == HasMatch(all, target)
    ensures filtered == if found then RemoveFirst(all, target) else all
  {
    hide Matches, HasMatch, RemoveFirst;
    found, filtered := false, [];
    NoMatch(target);
    for i := 0 to |all|
      invariant found == HasMatch(all[..i], target)
      invariant !found ==> filtered == all[..i]
      invariant filtered + (if found then all[i..] else RemoveFirst(all[i..], target)) == RemoveFirst(all, target)
    {
      NextMatch(all, i, target);
      if !found && Matches(all[i], target) {
        found := true;
      } else {
        filtered := filtered + [all[i]];
      }
    }
    assert all[..|all|] == all;
  }

  class RueQueue {
    var file: seq<byte>

    /** Creates the file with an empty header when it does not exist, else leaves it as it is. */
    constructor (existing: Option<seq<byte>>)
      ensures file == if existing.Some? then existing.value else FileOf([])
    {
      file := if existing.Some? then existing.value else MAGIC + [VERSION] + Le(0, 4);
    }

    /** The list the file stands for. */
    function Entries(): seq<RueEntry>
      reads this
    {
      ReadEntries(file, HEADER_BYTES)
    }

    ghost predicate Valid()
      reads this
    {
      file == FileOf(Entries())
    }

    method Enqueue(dest: Mac, data: seq<byte>, now: u64)
      requires HasHeader(file) && |data| <= 0xffff
      modifies this
      ensures file == AppendBytes(old(file), NewEntry(dest, data, now))
      ensures old(Valid()) ==> Valid() && Entries() == old(Entries()) + [NewEntry(dest, data, now)]
    {
      hide Splice, EncodeEntry, NewEntry, Le, FromLe;
      ghost var before := file;
      var entry := NewEntry(dest, data, now);
      file := file + EncodeEntry(entry);
      var count := StoredCount(file);
      assert file[5..9] == before[5..9];
      count := (count + 1) % 0x1_0000_0000;
      file := Splice(file, 5, Le(count, 4));
      if old(Valid()) {
        AppendRefines(old(Entries()), entry);
        ReadOfFile(old(Entries()) + [entry], []);
        assert FileOf(old(Entries()) + [entry]) + [] == file;
      }
    }

    method GetAll() returns (es: seq<RueEntry>)
      ensures es == Entries()
    {
      hide DecodeEntry;
      es := [];
      var pos := HEADER_BYTES;
      while pos < |file|
        invariant HEADER_BYTES <= pos
        invariant es + ReadEntries(file, pos) == Entries()
      {
        if pos + ENTRY_BYTES > |file| {
          break;
        }
        es := es + [DecodeEntry(file[pos..pos + ENTRY_BYTES])];
        pos := pos + ENTRY_BYTES;
      }
    }

    method GetPending(dest: Mac) returns (es: seq<RueEntry>)
      ensures es == For(Entries(), dest)
    {
      hide DecodeEntry;
      es := [];
      var pos := HEADER_BYTES;
      while pos < |file|
        invariant HEADER_BYTES <= pos
        invariant es + For(ReadEntries(file, pos), dest) == For(Entries(), dest)
      {
        if pos + ENTRY_BYTES > |file| {
          break;
        }
        var entry := DecodeEntry(file[pos..pos + ENTRY_BYTES]);
        assert ReadEntries(file, pos)[1..] == ReadEntries(file, pos + ENTRY_BYTES);
        if entry.dest == dest {
          es := es + [entry];
        }
        pos := pos + ENTRY_BYTES;
      }
    }

    /** Rewrites the file from the start. */
    method WriteAll(es: seq<RueEntry>)
      modifies this
      ensures file == FileOf(es) && Valid() && Entries() == es
    {
      hide EncodeEntry, DecodeEntry, FileHeader;
      file := FileHeader(|es|);
      ghost var written := file;
      for i := 0 to |es|
        invariant file == written + EncodeAll(es[..i])
      {
        EncodeAllAppend(es[..i], es[i]);
        assert es[..i + 1] == es[..i] + [es[i]];
        file := file + EncodeEntry(es[i]);
      }
      assert es[..|es|] == es;
      ReadOfFile(es, []);
      assert FileOf(es) + [] == file;
    }

    method RemoveEntry(target: RueEntry) returns (found: bool)
      modifies this
      ensures found == HasMatch(old(Entries()), target)
      ensures file == RemoveBytes(old(file), target)
      ensures old(Valid()) ==> Valid()
      ensures found ==> Valid() && Entries() == RemoveFirst(old(Entries()), target)
    {
      hide DecodeEntry, FileOf, RemoveFirst, HasMatch;
      var all := GetAll();
      var filtered: seq<RueEntry>;
      found, filtered := Without(all, target);
      if !found {
        return;
      }
      WriteAll(filtered);
    }
  }

  // ----- whole runs

  datatype Op = Append(e: RueEntry) | Remove(target: RueEntry)

  function ListAfter(ops: seq<Op>): seq<RueEntry> {
    if ops == [] then []
    else
      var es := ListAfter(ops[..|ops| - 1]);
      match ops[|ops| - 1]
      case Append(e) => es + [e]
      case Remove(target) => if HasMatch(es, target) then RemoveFirst(es, target) else es
  }

  ghost function FileAfter(ops: seq<Op>): (file: seq<byte>)
    ensures file == FileOf(ListAfter(ops))
  {
    if ops == [] then FileOf([])
    else
      var file := FileAfter(ops[..|ops| - 1]);
      var es := ListAfter(ops[..|ops| - 1]);
      CountOfFile(es);
      ReadOfFile(es, []);
      assert file + [] == file;
      match ops[|ops| - 1]
      case Append(e) => AppendRefines(es, e); AppendBytes(file, e)
      case Remove(target) => RemoveBytes(file, target)
  }

  /**
   After any sequence of appends and removals the file is the header and one record an entry, the
   stored count is the number of entries as the field can hold it, and reading it, with or without
   an incomplete record at the end, gives the list.
   */
  lemma FileRefinesList(ops: seq<Op>, tail: seq<byte>)
    requires |tail| < ENTRY_BYTES
    ensures var file := FileAfter(ops); var es := ListAfter(ops);
            && |file| == HEADER_BYTES + ENTRY_BYTES * |es|
            && StoredCount(file) == |es| % 0x1_0000_0000
            && ReadEntries(file + tail, HEADER_BYTES) == es
  {
    CountOfFile(ListAfter(ops));
    ReadOfFile(ListAfter(ops), tail);
  }

  // ----- draining

  /** What is left of `es` after `targets` have been removed one by one. */
  function RemoveEach(es: seq<RueEntry>, targets: seq<RueEntry>): seq<RueEntry>
    decreases |targets|
  {
    if targets == [] then es else RemoveEach(RemoveFirst(es, targets[0]), targets[1..])
  }

  lemma {:induction false} AllForDest(es: seq<RueEntry>, dest: Mac)
    ensures forall e :: e in For(es, dest) ==> e.dest == dest && e in es
  {
    if es != [] {
      AllForDest(es[1..], dest);
    }
  }

  /** The entry removed for the first pending one is that entry itself. */
  lemma {:induction false} RemoveFirstPending(es: seq<RueEntry>, dest: Mac)
    requires For(es, dest) != []
    ensures var target := For(es, dest)[0]; var rest := RemoveFirst(es, target);
            && HasMatch(es, target)
            && For(rest, dest) == For(es, dest)[1..]
            && NotFor(rest, dest) == NotFor(es, dest)
  {
    var target := For(es, dest)[0];
    if es[0].dest == dest {
      assert Matches(es[0], target);
    } else {
      RemoveFirstPending(es[1..], dest);
      AllForDest(es, dest);
      var rest := RemoveFirst(es[1..], target);
      assert RemoveFirst(es, target) == [es[0]] + rest;
      assert ([es[0]] + rest)[1..] == rest;
      var k :| 0 <= k < |es[1..]| && Matches(es[1..][k], target);
      assert Matches(es[k + 1], target);
    }
  }

  lemma {:induction false} NothingFor(es: seq<RueEntry>, dest: Mac)
    requires For(es, dest) == []
    ensures NotFor(es, dest) == es
  {
    if es != [] {
      NothingFor(es[1..], dest);
    }
  }

  /**
   Removing the pending entries of a destination one by one, although each removal compares only
   destination, time and length, leaves exactly the other entries, in order.
   */
  lemma {:induction false} DrainExact(es: seq<RueEntry>, dest: Mac)
    ensures RemoveEach(es, For(es, dest)) == NotFor(es, dest)
    decreases |For(es, dest)|
  {
    if For(es, dest) == [] {
      NothingFor(es, dest);
    } else {
      RemoveFirstPending(es, dest);
      DrainExact(RemoveFirst(es, For(es, dest)[0]), dest);
    }
  }
}
