/**
 The block transformation as a function, and its inversion.

 The layout is the one of src/crypto.cpp, which is not the one of FIPS 197: the row shift takes
 byte r + 4c to be row r of column c, the column mix takes it to be row i of column c at i*4 + c,
 and round r adds the sixteen bytes that start at byte 4r of the key schedule. Decryption undoes
 encryption all the same, whatever the schedule holds.
 */
module AesBlock {
  import opened Bytes
  import opened Gf256
  import opened AesTables
  import opened MixMatrix

  const ROUNDS: nat := 14
  const SCHEDULE_BYTES: nat := 240

  type Block = s: seq<byte> | |s| == 16 witness Zeros(16)
  type Schedule = s: seq<byte> | |s| == SCHEDULE_BYTES witness Zeros(240)

  // ----- the four layers of a round

  function XorBlock(a: Block, b: Block): Block {
    seq(16, i requires 0 <= i < 16 => Xor(a[i], b[i]))
  }

  function SubBlock(s: Block): Block {
    seq(16, i requires 0 <= i < 16 => Sbox(s[i]))
  }

  function InvSubBlock(s: Block): Block {
    seq(16, i requires 0 <= i < 16 => InvSbox(s[i]))
  }

  /** Row r, the bytes r + 4c, is rotated left by r columns: byte i comes from byte 5i modulo 16. */
  function ShiftBlock(s: Block): Block {
    seq(16, i requires 0 <= i < 16 => s[5 * i % 16])
  }

  function InvShiftBlock(s: Block): Block {
    seq(16, i requires 0 <= i < 16 => s[13 * i % 16])
  }

  function ColumnAt(s: Block, c: nat): Column
    requires c < 4
  {
    Column(s[c], s[4 + c], s[8 + c], s[12 + c])
  }

  function RowOf(v: Column, r: nat): byte {
    if r == 0 then v.a0 else if r == 1 then v.a1 else if r == 2 then v.a2 else v.a3
  }

  function MixBlock(s: Block): Block {
    seq(16, i requires 0 <= i < 16 => RowOf(MixColumn(ColumnAt(s, i % 4)), i / 4))
  }

  function InvMixBlock(s: Block): Block {
    seq(16, i requires 0 <= i < 16 => RowOf(InvMixColumn(ColumnAt(s, i % 4)), i / 4))
  }

  // ----- the rounds

  function RoundKey(w: Schedule, round: nat): Block
    requires round <= ROUNDS
  {
    w[4 * round..4 * round + 16]
  }

  /** The state after rounds 1 to `round` of encryption. */
  function Rounds(w: Schedule, s: Block, round: nat): Block
    requires round < ROUNDS
  {
    if round == 0 then XorBlock(s, RoundKey(w, 0))
    else XorBlock(MixBlock(ShiftBlock(SubBlock(Rounds(w, s, round - 1)))), RoundKey(w, round))
  }

  function Encrypt(w: Schedule, s: Block): Block {
    XorBlock(ShiftBlock(SubBlock(Rounds(w, s, ROUNDS - 1))), RoundKey(w, ROUNDS))
  }

  /** The state after rounds 13 down to `round` of decryption. */
  function UnRounds(w: Schedule, s: Block, round: nat): Block
    requires 0 < round <= ROUNDS
    decreases ROUNDS - round
  {
    if round == ROUNDS then XorBlock(s, RoundKey(w, ROUNDS))
    else InvMixBlock(XorBlock(InvSubBlock(InvShiftBlock(UnRounds(w, s, round + 1))), RoundKey(w, round)))
  }

  function Decrypt(w: Schedule, s: Block): Block {
    XorBlock(InvSubBlock(InvShiftBlock(UnRounds(w, s, 1))), RoundKey(w, 0))
  }

  // ----- each layer is undone by its inverse

  lemma XorBlockTwice(a: Block, b: Block)
    ensures XorBlock(XorBlock(a, b), b) == a
  {
    forall i | 0 <= i < 16
      ensures XorBlock(XorBlock(a, b), b)[i] == a[i]
    {
      XorLaws(a[i], b[i]);
    }
  }

  lemma SubBlockInverse(s: Block)
    ensures InvSubBlock(SubBlock(s)) == s
    ensures SubBlock(InvSubBlock(s)) == s
  {
    hide Sbox, InvSbox;
    forall i | 0 <= i < 16
      ensures InvSubBlock(SubBlock(s))[i] == s[i] && SubBlock(InvSubBlock(s))[i] == s[i]
    {
      InvSboxOfSbox(s[i]);
      SboxOfInvSbox(s[i]);
    }
  }

  lemma Residue(x: int, k: int, i: nat)
    requires x == 16 * k + i && i < 16
    ensures x % 16 == i
  {
  }

  lemma FiveTimesThirteen(i: nat)
    requires i < 16
    ensures 5 * (13 * i % 16) % 16 == i && 13 * (5 * i % 16) % 16 == i
  {
    Residue(5 * (13 * i % 16), 4 * i - 5 * (13 * i / 16), i);
    Residue(13 * (5 * i % 16), 4 * i - 13 * (5 * i / 16), i);
  }

  lemma ShiftBlockInverse(s: Block)
    ensures InvShiftBlock(ShiftBlock(s)) == s
    ensures ShiftBlock(InvShiftBlock(s)) == s
  {
    forall i | 0 <= i < 16
      ensures InvShiftBlock(ShiftBlock(s))[i] == s[i] && ShiftBlock(InvShiftBlock(s))[i] == s[i]
    {
      FiveTimesThirteen(i);
    }
  }

  /** The shift as section 5.1.2 of FIPS 197 states it, for the state held column by column. */
  lemma ShiftRotatesRows(s: Block, r: nat, c: nat)
    requires r < 4 && c < 4
    ensures ShiftBlock(s)[r + 4 * c] == s[r + 4 * ((c + r) % 4)]
    ensures InvShiftBlock(s)[r + 4 * ((c + r) % 4)] == s[r + 4 * c]
  {
    var d := (c + r) % 4;
    var q := (c + r) / 4;
    Residue(5 * (r + 4 * c), q + c, r + 4 * d);
    Residue(13 * (r + 4 * d), 4 * r + 3 * c - 13 * q, r + 4 * c);
  }

  lemma Digits(c: nat, r: nat)
    requires r < 4
    ensures (r + 4 * c) % 4 == r && (r + 4 * c) / 4 == c
  {
  }

  lemma MixedByte(s: Block, i: nat)
    requires i < 16
    ensures MixBlock(s)[i] == RowOf(MixColumn(ColumnAt(s, i % 4)), i / 4)
    ensures InvMixBlock(s)[i] == RowOf(InvMixColumn(ColumnAt(s, i % 4)), i / 4)
  {
    hide MixColumn, InvMixColumn, ColumnAt, RowOf;
  }

  lemma MixedColumn(s: Block, c: nat)
    requires c < 4
    ensures ColumnAt(MixBlock(s), c) == MixColumn(ColumnAt(s, c))
    ensures ColumnAt(InvMixBlock(s), c) == InvMixColumn(ColumnAt(s, c))
  {
    hide MixColumn, InvMixColumn, MixBlock, InvMixBlock;
    Digits(0, c);
    Digits(1, c);
    Digits(2, c);
    Digits(3, c);
    MixedByte(s, c);
    MixedByte(s, 4 + c);
    MixedByte(s, 8 + c);
    MixedByte(s, 12 + c);
  }

  lemma ByteOfColumn(s: Block, i: nat)
    requires i < 16
    ensures RowOf(ColumnAt(s, i % 4), i / 4) == s[i]
  {
    assert i == 4 * (i / 4) + i % 4;
  }

  lemma MixBlockInverse(s: Block)
    ensures InvMixBlock(MixBlock(s)) == s
    ensures MixBlock(InvMixBlock(s)) == s
  {
    hide MixColumn, InvMixColumn, MixBlock, InvMixBlock, ColumnAt, RowOf;
    forall i | 0 <= i < 16
      ensures InvMixBlock(MixBlock(s))[i] == s[i] && MixBlock(InvMixBlock(s))[i] == s[i]
    {
      MixedByte(MixBlock(s), i);
      MixedByte(InvMixBlock(s), i);
      MixedColumn(s, i % 4);
      MixColumnInverse(ColumnAt(s, i % 4));
      ByteOfColumn(s, i);
    }
  }

  // ----- the opposed round loops

  /** After undoing rounds 14 to `round`, the state is the one encryption had inside round `round`. */
  lemma {:induction false} UnRoundsOfEncrypt(w: Schedule, s: Block, round: nat)
    requires 0 < round <= ROUNDS
    ensures UnRounds(w, Encrypt(w, s), round) == ShiftBlock(SubBlock(Rounds(w, s, round - 1)))
    decreases ROUNDS - round
  {
    hide XorBlock, SubBlock, InvSubBlock, ShiftBlock, InvShiftBlock, MixBlock, InvMixBlock;
    if round == ROUNDS {
      XorBlockTwice(ShiftBlock(SubBlock(Rounds(w, s, ROUNDS - 1))), RoundKey(w, ROUNDS));
    } else {
      UnRoundsOfEncrypt(w, s, round + 1);
      var inner := ShiftBlock(SubBlock(Rounds(w, s, round - 1)));
      var after := Rounds(w, s, round);
      ShiftBlockInverse(SubBlock(after));
      SubBlockInverse(after);
      XorBlockTwice(MixBlock(inner), RoundKey(w, round));
      MixBlockInverse(inner);
    }
  }

  lemma {:induction false} RoundsOfDecrypt(w: Schedule, s: Block, round: nat)
    requires round < ROUNDS
    ensures Rounds(w, Decrypt(w, s), round) == InvSubBlock(InvShiftBlock(UnRounds(w, s, round + 1)))
  {
    hide XorBlock, SubBlock, InvSubBlock, ShiftBlock, InvShiftBlock, MixBlock, InvMixBlock;
    if round == 0 {
      XorBlockTwice(InvSubBlock(InvShiftBlock(UnRounds(w, s, 1))), RoundKey(w, 0));
    } else {
      RoundsOfDecrypt(w, s, round - 1);
      var before := UnRounds(w, s, round);
      var inner := XorBlock(InvSubBlock(InvShiftBlock(UnRounds(w, s, round + 1))), RoundKey(w, round));
      SubBlockInverse(InvShiftBlock(before));
      ShiftBlockInverse(before);
      MixBlockInverse(inner);
      XorBlockTwice(InvSubBlock(InvShiftBlock(UnRounds(w, s, round + 1))), RoundKey(w, round));
    }
  }

  /** Decryption undoes encryption, whatever bytes the schedule holds. */
  lemma DecryptOfEncrypt(w: Schedule, s: Block)
    ensures Decrypt(w, Encrypt(w, s)) == s
  {
    hide XorBlock, SubBlock, InvSubBlock, ShiftBlock, InvShiftBlock;
    UnRoundsOfEncrypt(w, s, 1);
    var first := Rounds(w, s, 0);
    ShiftBlockInverse(SubBlock(first));
    SubBlockInverse(first);
    XorBlockTwice(s, RoundKey(w, 0));
  }

  /** Encryption undoes decryption, so both are permutations of the blocks. */
  lemma EncryptOfDecrypt(w: Schedule, s: Block)
    ensures Encrypt(w, Decrypt(w, s)) == s
  {
    hide XorBlock, SubBlock, InvSubBlock, ShiftBlock, InvShiftBlock;
    RoundsOfDecrypt(w, s, ROUNDS - 1);
    var last := UnRounds(w, s, ROUNDS);
    SubBlockInverse(InvShiftBlock(last));
    ShiftBlockInverse(last);
    XorBlockTwice(s, RoundKey(w, ROUNDS));
  }
}
