/** The AES-256 key expansion of section 5.2 of FIPS 197, as the recurrence the standard gives. */
module KeySchedule {
  import opened Bytes
  import opened Gf256
  import opened AesTables
  import opened AesBlock

  const KEY_BYTES: nat := 32
  const SCHEDULE_WORDS: nat := 60

  type Key = s: seq<byte> | |s| == KEY_BYTES witness Zeros(32)
  type Word = s: seq<byte> | |s| == 4 witness Zeros(4)

  function XorWord(a: Word, b: Word): Word {
    [Xor(a[0], b[0]), Xor(a[1], b[1]), Xor(a[2], b[2]), Xor(a[3], b[3])]
  }

  function RotWord(w: Word): Word {
    w[1..] + [w[0]]
  }

  function SubWord(w: Word): Word {
    [Sbox(w[0]), Sbox(w[1]), Sbox(w[2]), Sbox(w[3])]
  }

  /** x^(j-1), the leading byte of the round constant Rcon[j]. */
  function RconByte(j: nat): byte
    requires j > 0
  {
    if j == 1 then 1 else Xtime(RconByte(j - 1))
  }

  /** What is added to word i - 8 to make word i, from `previous`, which is word i - 1. */
  function Temp(previous: Word, i: nat): Word
    requires i >= 8
  {
    if i % 8 == 0 then XorWord(SubWord(RotWord(previous)), [RconByte(i / 8), 0, 0, 0])
    else if i % 8 == 4 then SubWord(previous)
    else previous
  }

  function ExpandedWord(key: Key, i: nat): Word {
    if i < 8 then key[4 * i..4 * i + 4]
    else XorWord(ExpandedWord(key, i - 8), Temp(ExpandedWord(key, i - 1), i))
  }

  /** The words of the schedule, one after the other. */
  function Expand(key: Key): Schedule {
    seq(SCHEDULE_BYTES, k requires 0 <= k < SCHEDULE_BYTES => ExpandedWord(key, k / 4)[k % 4])
  }

  lemma ExpandedRow(key: Key, i: nat)
    requires i < SCHEDULE_WORDS
    ensures Expand(key)[4 * i..4 * i + 4] == ExpandedWord(key, i)
  {
    hide ExpandedWord;
    forall j | 0 <= j < 4
      ensures Expand(key)[4 * i..4 * i + 4][j] == ExpandedWord(key, i)[j]
    {
      assert (4 * i + j) / 4 == i && (4 * i + j) % 4 == j;
    }
  }

  const RCON: seq<byte> := [0x00, 0x01, 0x02, 0x04, 0x08, 0x10, 0x20, 0x40, 0x80, 0x1b, 0x36]

  lemma RconFirst()
    ensures RconByte(1) == 0x01 && RconByte(2) == 0x02 && RconByte(3) == 0x04 && RconByte(4) == 0x08
  {
  }

  lemma RconMiddle()
    ensures RconByte(5) == 0x10 && RconByte(6) == 0x20 && RconByte(7) == 0x40 && RconByte(8) == 0x80
  {
    RconFirst();
    assert RconByte(5) == Xtime(RconByte(4));
    assert RconByte(6) == Xtime(RconByte(5));
    assert RconByte(7) == Xtime(RconByte(6));
    assert RconByte(8) == Xtime(RconByte(7));
  }

  lemma RconRest()
    ensures RconByte(5) == 0x10 && RconByte(6) == 0x20 && RconByte(7) == 0x40 && RconByte(8) == 0x80
    ensures RconByte(9) == 0x1b && RconByte(10) == 0x36
  {
    RconMiddle();
    assert RconByte(9) == Xtime(RconByte(8));
    assert RconByte(10) == Xtime(RconByte(9));
  }

  /** The table of round constants holds the powers of x. */
  lemma RconTable(j: nat)
    requires 0 < j < |RCON|
    ensures RCON[j] == RconByte(j)
  {
    RconFirst();
    RconRest();
  }

  // ----- the schedule byte by byte

  lemma WordBytes(key: Key, i: nat, j: nat)
    requires i < SCHEDULE_WORDS && j < 4
    ensures Expand(key)[4 * i + j] == ExpandedWord(key, i)[j]
  {
    hide ExpandedWord;
    assert (4 * i + j) / 4 == i && (4 * i + j) % 4 == j;
  }

  lemma TempBytes(previous: Word, i: nat, j: nat)
    requires 8 <= i < SCHEDULE_WORDS && j < 4
    ensures Temp(previous, i)[j]
         == if i % 8 == 0 then Xor(Sbox(previous[(j + 1) % 4]), if j == 0 then RCON[i / 8] else 0)
            else if i % 8 == 4 then Sbox(previous[j])
            else previous[j]
  {
    hide Sbox, Xor, RconByte;
    if i % 8 == 0 {
      RconTable(i / 8);
      assert RotWord(previous)[j] == previous[(j + 1) % 4];
    }
  }

  /** The first 32 bytes are the key. */
  lemma ScheduleStart(key: Key, k: nat)
    requires k < 32
    ensures Expand(key)[k] == key[k]
  {
    WordBytes(key, k / 4, k % 4);
  }

  lemma WordIsSum(key: Key, i: nat, j: nat)
    requires i >= 8 && j < 4
    ensures ExpandedWord(key, i)[j] == Xor(ExpandedWord(key, i - 8)[j], Temp(ExpandedWord(key, i - 1), i)[j])
  {
    hide Temp, Xor;
  }

  /**
   Every later byte `j` of word `i` is the byte 32 places before it plus: for every eighth word the
   substituted next byte of the word before, rotated, and the round constant in the first place; four
   words later the substituted byte of the word before; else that byte itself.
   */
  lemma ScheduleStep(key: Key, i: nat, j: nat)
    requires 8 <= i < 60 && j < 4
    ensures var w := Expand(key);
            w[4 * i + j]
            == Xor(w[4 * i + j - 32],
                   if i % 8 == 0 then Xor(Sbox(w[4 * (i - 1) + (j + 1) % 4]), if j == 0 then RCON[i / 8] else 0)
                   else if i % 8 == 4 then Sbox(w[4 * i + j - 4])
                   else w[4 * i + j - 4])
  {
    hide Sbox, Xor, Temp, Expand;
    WordBytes(key, i, j);
    WordBytes(key, i - 8, j);
    WordBytes(key, i - 1, j);
    WordBytes(key, i - 1, (j + 1) % 4);
    TempBytes(ExpandedWord(key, i - 1), i, j);
    WordIsSum(key, i, j);
  }

  /** The key of the example in appendix A.3 of FIPS 197. */
  const EXAMPLE_KEY: Key :=
    [0x60, 0x3d, 0xeb, 0x10, 0x15, 0xca, 0x71, 0xbe, 0x2b, 0x73, 0xae, 0xf0, 0x85, 0x7d, 0x77, 0x81,
     0x1f, 0x35, 0x2c, 0x07, 0x3b, 0x61, 0x08, 0xd7, 0x2d, 0x98, 0x10, 0xa3, 0x09, 0x14, 0xdf, 0xf4]

  lemma NextWord(key: Key, i: nat)
    requires i >= 8
    ensures ExpandedWord(key, i) == XorWord(ExpandedWord(key, i - 8), Temp(ExpandedWord(key, i - 1), i))
  {
    hide XorWord, Temp;
  }

  lemma KeyWord(key: Key, i: nat)
    requires i < 8
    ensures ExpandedWord(key, i) == [key[4 * i], key[4 * i + 1], key[4 * i + 2], key[4 * i + 3]]
  {
  }

  lemma ExampleSubstitutions()
    ensures Sbox(0x14) == 0xfa && Sbox(0xdf) == 0x9e && Sbox(0xf4) == 0xbf && Sbox(0x09) == 0x01
    ensures Sbox(0x20) == 0xb7 && Sbox(0x67) == 0x85 && Sbox(0xfc) == 0xb0 && Sbox(0xde) == 0x1d
  {
  }

  lemma ExampleSum8()
    ensures XorWord([0x60, 0x3d, 0xeb, 0x10], Temp([0x09, 0x14, 0xdf, 0xf4], 8)) == [0x9b, 0xa3, 0x54, 0x11]
  {
    RconFirst();
    ExampleSubstitutions();
    hide Sbox;
    assert RotWord([0x09, 0x14, 0xdf, 0xf4]) == [0x14, 0xdf, 0xf4, 0x09];
  }

  lemma ExampleSum9()
    ensures XorWord([0x15, 0xca, 0x71, 0xbe], Temp([0x9b, 0xa3, 0x54, 0x11], 9)) == [0x8e, 0x69, 0x25, 0xaf]
  {
    hide Sbox, RconByte;
  }

  lemma ExampleSum10()
    ensures XorWord([0x2b, 0x73, 0xae, 0xf0], Temp([0x8e, 0x69, 0x25, 0xaf], 10)) == [0xa5, 0x1a, 0x8b, 0x5f]
  {
    hide Sbox, RconByte;
  }

  lemma ExampleSum11()
    ensures XorWord([0x85, 0x7d, 0x77, 0x81], Temp([0xa5, 0x1a, 0x8b, 0x5f], 11)) == [0x20, 0x67, 0xfc, 0xde]
  {
    hide Sbox, RconByte;
  }

  lemma ExampleSum12()
    ensures XorWord([0x1f, 0x35, 0x2c, 0x07], Temp([0x20, 0x67, 0xfc, 0xde], 12)) == [0xa8, 0xb0, 0x9c, 0x1a]
  {
    ExampleSubstitutions();
    hide Sbox;
  }

  /** Words 8 to 12 of that example. */
  lemma ExampleWords()
    ensures ExpandedWord(EXAMPLE_KEY, 8) == [0x9b, 0xa3, 0x54, 0x11]
    ensures ExpandedWord(EXAMPLE_KEY, 9) == [0x8e, 0x69, 0x25, 0xaf]
    ensures ExpandedWord(EXAMPLE_KEY, 10) == [0xa5, 0x1a, 0x8b, 0x5f]
    ensures ExpandedWord(EXAMPLE_KEY, 11) == [0x20, 0x67, 0xfc, 0xde]
    ensures ExpandedWord(EXAMPLE_KEY, 12) == [0xa8, 0xb0, 0x9c, 0x1a]
  {
    hide ExpandedWord, XorWord, Temp, Sbox;
    var k := EXAMPLE_KEY;
    KeyWord(k, 0);
    KeyWord(k, 1);
    KeyWord(k, 2);
    KeyWord(k, 3);
    KeyWord(k, 4);
    KeyWord(k, 7);
    ExampleSum8();
    ExampleSum9();
    ExampleSum10();
    ExampleSum11();
    ExampleSum12();
    NextWord(k, 8);
    NextWord(k, 9);
    NextWord(k, 10);
    NextWord(k, 11);
    NextWord(k, 12);
  }
}
