/**
 The block function byte by byte: which schedule bytes each round adds, what each round makes of the
 bytes before it, and which bytes of the schedule the block function depends on.
 */
module BlockLaws {
  import opened Bytes
  import opened Gf256
  import opened AesTables
  import opened MixMatrix
  import opened AesBlock
  import opened Aes256

  // ----- the rounds, byte by byte

  /** Before the first round, byte `i` has schedule byte `i` added. */
  lemma FirstState(w: Schedule, s: Block, i: nat)
    requires i < 16
    ensures Rounds(w, s, 0)[i] == Xor(s[i], w[i])
  {
    hide Xor;
  }

  /** The substituted byte that the row shift brings to row `k` of column `c`. */
  function Shifted(s: Block, k: nat, c: nat): byte
    requires k < 4 && c < 4
  {
    Sbox(s[(4 * k + 5 * c) % 16])
  }

  lemma ShiftedAt(s: Block, k: nat, c: nat)
    requires k < 4 && c < 4
    ensures ShiftBlock(SubBlock(s))[4 * k + c] == Shifted(s, k, c)
  {
    hide Sbox;
    assert 5 * (4 * k + c) % 16 == (4 * k + 5 * c) % 16 by {
      assert 5 * (4 * k + c) == (4 * k + 5 * c) + 16 * k;
    }
  }

  lemma ShiftedColumn(s: Block, c: nat)
    requires c < 4
    ensures ColumnAt(ShiftBlock(SubBlock(s)), c)
         == Column(Shifted(s, 0, c), Shifted(s, 1, c), Shifted(s, 2, c), Shifted(s, 3, c))
  {
    hide Sbox;
    ShiftedAt(s, 0, c);
    ShiftedAt(s, 1, c);
    ShiftedAt(s, 2, c);
    ShiftedAt(s, 3, c);
  }

  /**
   Rounds 1 to 13: each byte of column `c` is a row of the matrix of section 5.1.3 of FIPS 197 applied
   to four substituted bytes of the state before, with the schedule byte at 4 * round + its index added.
   */
  lemma MiddleState(w: Schedule, s: Block, round: nat, c: nat)
    requires 1 <= round <= 13 && c < 4
    ensures var before, after := Rounds(w, s, round - 1), Rounds(w, s, round);
            var b0, b1 := Shifted(before, 0, c), Shifted(before, 1, c);
            var b2, b3 := Shifted(before, 2, c), Shifted(before, 3, c);
            && after[c] == Xor(FlatSum(Column(Mul(b0, 2), Mul(b1, 3), b2, b3)), w[4 * round + c])
            && after[4 + c] == Xor(FlatSum(Column(b0, Mul(b1, 2), Mul(b2, 3), b3)), w[4 * round + 4 + c])
            && after[8 + c] == Xor(FlatSum(Column(b0, b1, Mul(b2, 2), Mul(b3, 3))), w[4 * round + 8 + c])
            && after[12 + c] == Xor(FlatSum(Column(Mul(b0, 3), b1, b2, Mul(b3, 2))), w[4 * round + 12 + c])
  {
    hide Sbox, Mul, FlatSum, Shifted, MixColumn, Xor, MixBlock, ShiftBlock, SubBlock;
    var before := Rounds(w, s, round - 1);
    var inner := ShiftBlock(SubBlock(before));
    ShiftedColumn(before, c);
    MixedColumn(inner, c);
    MixFormula(ColumnAt(inner, c));
    assert Rounds(w, s, round) == XorBlock(MixBlock(inner), RoundKey(w, round));
  }

  /** The last round has no column mix and adds schedule bytes 56 to 71. */
  lemma LastState(w: Schedule, s: Block, k: nat, c: nat)
    requires k < 4 && c < 4
    ensures Encrypt(w, s)[4 * k + c] == Xor(Shifted(Rounds(w, s, 13), k, c), w[56 + 4 * k + c])
  {
    hide Shifted, Xor, ShiftBlock, SubBlock, Rounds;
    ShiftedAt(Rounds(w, s, 13), k, c);
  }

  // ----- the schedule bytes that matter

  lemma SameRoundKey(w: Schedule, v: Schedule, n: nat, round: nat)
    requires round <= ROUNDS && 4 * round + 16 <= n <= SCHEDULE_BYTES && w[..n] == v[..n]
    ensures RoundKey(w, round) == RoundKey(v, round)
  {
    assert w[..n][4 * round..4 * round + 16] == w[4 * round..4 * round + 16];
    assert v[..n][4 * round..4 * round + 16] == v[4 * round..4 * round + 16];
  }

  lemma {:induction false} RoundsUse(w: Schedule, v: Schedule, s: Block, round: nat)
    requires round < ROUNDS && w[..4 * round + 16] == v[..4 * round + 16]
    ensures Rounds(w, s, round) == Rounds(v, s, round)
  {
    hide XorBlock, MixBlock, ShiftBlock, SubBlock;
    SameRoundKey(w, v, 4 * round + 16, round);
    if round > 0 {
      assert w[..4 * round + 16][..4 * (round - 1) + 16] == w[..4 * (round - 1) + 16];
      assert v[..4 * round + 16][..4 * (round - 1) + 16] == v[..4 * (round - 1) + 16];
      RoundsUse(w, v, s, round - 1);
    }
  }

  lemma {:induction false} UnRoundsUse(w: Schedule, v: Schedule, s: Block, round: nat)
    requires 0 < round <= ROUNDS && w[..72] == v[..72]
    ensures UnRounds(w, s, round) == UnRounds(v, s, round)
    decreases ROUNDS - round
  {
    hide XorBlock, InvMixBlock, InvShiftBlock, InvSubBlock;
    SameRoundKey(w, v, 72, round);
    if round < ROUNDS {
      UnRoundsUse(w, v, s, round + 1);
    }
  }

  /** The block function and its inverse read the first 72 bytes of the schedule and no others. */
  lemma OnlyFirst72(w: Schedule, v: Schedule, s: Block)
    requires w[..72] == v[..72]
    ensures Encrypt(w, s) == Encrypt(v, s) && Decrypt(w, s) == Decrypt(v, s)
  {
    hide XorBlock, InvShiftBlock, InvSubBlock, ShiftBlock, SubBlock, Rounds, UnRounds;
    assert w[..72][..68] == w[..68] && v[..72][..68] == v[..68];
    RoundsUse(w, v, s, 13);
    UnRoundsUse(w, v, s, 1);
    SameRoundKey(w, v, 72, 14);
    SameRoundKey(w, v, 72, 0);
  }

  /** Bytes 68 to 71 are read by the last round alone: a change there shows in one ciphertext byte, as it is. */
  lemma LastScheduleByte(w: Schedule, s: Block, j: nat, d: byte)
    requires j < 4
    ensures Encrypt(w[68 + j := Xor(w[68 + j], d)], s) == Encrypt(w, s)[12 + j := Xor(Encrypt(w, s)[12 + j], d)]
  {
    hide Rounds, ShiftBlock, SubBlock;
    var v: Schedule := w[68 + j := Xor(w[68 + j], d)];
    assert w[..68] == v[..68];
    RoundsUse(w, v, s, 13);
    var inner := ShiftBlock(SubBlock(Rounds(w, s, 13)));
    forall i | 0 <= i < 16
      ensures Encrypt(v, s)[i] == if i == 12 + j then Xor(Encrypt(w, s)[i], d) else Encrypt(w, s)[i]
    {
      if i == 12 + j {
        assert (inner[i] ^ w[68 + j]) ^ d == inner[i] ^ (w[68 + j] ^ d);
      }
    }
  }

  lemma {:induction false} UnRoundsTail(w: Schedule, v: Schedule, s: Block, round: nat)
    requires 0 < round <= ROUNDS && w[4..] == v[4..]
    ensures UnRounds(w, s, round) == UnRounds(v, s, round)
    decreases ROUNDS - round
  {
    hide XorBlock, InvMixBlock, InvShiftBlock, InvSubBlock;
    assert RoundKey(w, round) == w[4..][4 * round - 4..4 * round + 12];
    assert RoundKey(v, round) == v[4..][4 * round - 4..4 * round + 12];
    if round < ROUNDS {
      UnRoundsTail(w, v, s, round + 1);
    }
  }

  /** Bytes 0 to 3 are read by the first addition alone: a change there is undone by the same change of the block. */
  lemma FirstScheduleByte(w: Schedule, s: Block, j: nat, d: byte)
    requires j < 4
    ensures Decrypt(w[j := Xor(w[j], d)], s) == Decrypt(w, s)[j := Xor(Decrypt(w, s)[j], d)]
  {
    hide UnRounds, InvShiftBlock, InvSubBlock;
    var v: Schedule := w[j := Xor(w[j], d)];
    UnRoundsTail(w, v, s, 1);
    var inner := InvSubBlock(InvShiftBlock(UnRounds(w, s, 1)));
    forall i | 0 <= i < 16
      ensures Decrypt(v, s)[i] == if i == j then Xor(Decrypt(w, s)[i], d) else Decrypt(w, s)[i]
    {
      if i == j {
        assert (inner[i] ^ w[j]) ^ d == inner[i] ^ (w[j] ^ d);
      }
    }
  }
}
