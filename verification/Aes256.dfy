/** The cipher object of src/crypto.cpp: key expansion, and blocks transformed in place. */
module Aes256 {
  import opened Bytes
  import opened Gf256
  import opened AesTables
  import opened MixMatrix
  import opened AesBlock
  import opened KeySchedule
  import opened Cbc

  // ----- key expansion, over one flat buffer of sixty 4-byte rows

  method RotateWord(w: array<byte>)
    requires w.Length == 4
    modifies w
    ensures w[..] == RotWord(old(w[..]))
  {
    var t := w[0];
    w[0] := w[1];
    w[1] := w[2];
    w[2] := w[3];
    w[3] := t;
  }

  method SubstituteWord(w: array<byte>)
    requires w.Length == 4
    modifies w
    ensures w[..] == SubWord(old(w[..]))
  {
    hide Sbox;
    for i := 0 to 4
      invariant forall k :: 0 <= k < i ==> w[k] == Sbox(old(w[k]))
      invariant forall k :: i <= k < 4 ==> w[k] == old(w[k])
    {
      w[i] := Sbox(w[i]);
    }
  }

  /** Scatters a word over row `i` and the three rows after it, one byte to each. */
  method ScatterWord(word: Word, w: array<byte>, at: nat)
    requires at + 16 <= w.Length
    modifies w
    ensures w[..at] == old(w[..at])
    ensures w[at] == word[0] && w[at + 4] == word[1] && w[at + 8] == word[2] && w[at + 12] == word[3]
  {
    for j := 0 to 4
      invariant w[..at] == old(w[..at])
      invariant forall m :: 0 <= m < j ==> w[at + m * 4] == word[m]
    {
      w[at + j * 4] := word[j];
    }
    assert w[at + 0 * 4] == word[0] && w[at + 1 * 4] == word[1] && w[at + 2 * 4] == word[2] && w[at + 3 * 4] == word[3];
  }

  /** Gathers the four bytes of the scattered word into one row. */
  method GatherWord(word: Word, w: array<byte>, at: nat)
    requires at + 16 <= w.Length
    requires w[at] == word[0] && w[at + 4] == word[1] && w[at + 8] == word[2] && w[at + 12] == word[3]
    modifies w
    ensures w[..at] == old(w[..at])
    ensures w[at..at + 4] == word
  {
    var w0, w1, w2, w3 := w[at], w[at + 4], w[at + 8], w[at + 12];
    w[at] := w0;
    w[at + 1] := w1;
    w[at + 2] := w2;
    w[at + 3] := w3;
  }

  /** What the key loop does for word `i` of the key; the bytes left in the later rows are scratch. */
  method ScatterAndGather(key: Key, w: array<byte>, i: nat)
    requires w.Length == SCHEDULE_BYTES && i < 8
    modifies w
    ensures w[..4 * i] == old(w[..4 * i])
    ensures w[4 * i..4 * i + 4] == key[4 * i..4 * i + 4]
  {
    var word: Word := key[4 * i..4 * i + 4];
    ScatterWord(word, w, 4 * i);
    GatherWord(word, w, 4 * i);
  }

  lemma AddRcon(w: Word, r: byte)
    ensures XorWord(w, [r, 0, 0, 0]) == [w[0] ^ r, w[1], w[2], w[3]] == w[0 := w[0] ^ r]
  {
    XorLaws(w[1], 0);
    XorLaws(w[2], 0);
    XorLaws(w[3], 0);
  }

  /** Makes in `temp` the word that row `i` adds to row i - 8. */
  method MakeTemp(w: array<byte>, temp: array<byte>, i: nat)
    requires w.Length == SCHEDULE_BYTES && temp.Length == 4 && w != temp
    requires 8 <= i < SCHEDULE_WORDS
    modifies temp
    ensures temp[..] == Temp(w[4 * (i - 1)..4 * (i - 1) + 4], i)
  {
    hide Sbox, RconByte, Xtime;
    for j := 0 to 4
      invariant temp[..j] == w[4 * (i - 1)..4 * (i - 1) + j]
    {
      temp[j] := w[4 * (i - 1) + j];
    }
    assert temp[..] == w[4 * (i - 1)..4 * (i - 1) + 4];
    if i % 8 == 0 {
      RotateWord(temp);
      SubstituteWord(temp);
      RconTable(i / 8);
      AddRcon(temp[..], RCON[i / 8]);
      temp[0] := temp[0] ^ RCON[i / 8];
    } else if i % 8 == 4 {
      SubstituteWord(temp);
    }
  }

  lemma WordIs(v: Word, w: Word)
    requires v[0] == w[0] && v[1] == w[1] && v[2] == w[2] && v[3] == w[3]
    ensures v == w
  {
  }

  method XorRow(w: array<byte>, temp: array<byte>, i: nat)
    requires w.Length == SCHEDULE_BYTES && temp.Length == 4 && w != temp
    requires 8 <= i < SCHEDULE_WORDS
    modifies w
    ensures w[..4 * i] == old(w[..4 * i])
    ensures w[4 * i..4 * i + 4] == XorWord(old(w[4 * (i - 8)..4 * (i - 8) + 4]), temp[..])
  {
    var at, from := 4 * i, 4 * (i - 8);
    ghost var back: Word := w[from..from + 4];
    ghost var prefix := w[..at];
    assert forall m :: 0 <= m < 4 ==> prefix[from + m] == back[m];
    hide Xor;
    for j := 0 to 4
      invariant w[..at] == prefix
      invariant forall m :: 0 <= m < j ==> w[at + m] == Xor(back[m], temp[m])
    {
      assert w[from + j] == w[..at][from + j] == back[j];
      w[at + j] := Xor(w[from + j], temp[j]);
    }
    WordIs(w[at..at + 4], XorWord(back, temp[..]));
  }

  lemma KeyRow(key: Key, i: nat)
    requires i < 8
    ensures Expand(key)[4 * i..4 * i + 4] == key[4 * i..4 * i + 4]
  {
    ExpandedRow(key, i);
  }

  lemma JoinRow(w: seq<byte>, all: seq<byte>, i: nat)
    requires |w| == |all| == SCHEDULE_BYTES && i < SCHEDULE_WORDS
    requires w[..4 * i] == all[..4 * i]
    requires w[4 * i..4 * i + 4] == all[4 * i..4 * i + 4]
    ensures w[..4 * (i + 1)] == all[..4 * (i + 1)]
  {
    assert w[..4 * (i + 1)] == w[..4 * i] + w[4 * i..4 * i + 4];
    assert all[..4 * (i + 1)] == all[..4 * i] + all[4 * i..4 * i + 4];
  }

  lemma RowOfPrefix(w: seq<byte>, all: seq<byte>, n: nat, at: nat)
    requires at + 4 <= n <= |w| && n <= |all|
    requires w[..n] == all[..n]
    ensures w[at..at + 4] == all[at..at + 4]
  {
    assert w[at..at + 4] == w[..n][at..at + 4];
    assert all[at..at + 4] == all[..n][at..at + 4];
  }

  lemma NextRow(key: Key, i: nat)
    requires 8 <= i < SCHEDULE_WORDS
    ensures var all := Expand(key);
            all[4 * i..4 * i + 4]
            == XorWord(all[4 * (i - 8)..4 * (i - 8) + 4], Temp(all[4 * (i - 1)..4 * (i - 1) + 4], i))
  {
    hide Temp, XorWord;
    ExpandedRow(key, i);
    ExpandedRow(key, i - 8);
    ExpandedRow(key, i - 1);
  }

  /** Fills the buffer, whatever it held, with exactly the schedule of `key`. */
  method KeyExpansion(key: Key, w: array<byte>)
    requires w.Length == SCHEDULE_BYTES
    modifies w
    ensures w[..] == Expand(key)
  {
    hide ExpandedWord, Temp, Expand;
    ghost var all := Expand(key);
    var i := 0;
    while i < 8
      invariant 0 <= i <= 8
      invariant w[..4 * i] == all[..4 * i]
    {
      ScatterAndGather(key, w, i);
      KeyRow(key, i);
      JoinRow(w[..], all, i);
      i := i + 1;
    }
    var temp := new byte[4];
    while i < 60
      invariant 8 <= i <= 60
      invariant w[..4 * i] == all[..4 * i]
    {
      RowOfPrefix(w[..], all, 4 * i, 4 * (i - 8));
      RowOfPrefix(w[..], all, 4 * i, 4 * (i - 1));
      MakeTemp(w, temp, i);
      XorRow(w, temp, i);
      NextRow(key, i);
      JoinRow(w[..], all, i);
      i := i + 1;
    }
    assert w[..] == w[..240] && all == all[..240];
  }

  // ----- blocks transformed in place

  lemma SpliceUnique(s: seq<byte>, at: nat, w: seq<byte>, r: seq<byte>)
    requires at + |w| <= |s| == |r|
    requires forall k :: 0 <= k < |s| ==> r[k] == if at <= k < at + |w| then w[k - at] else s[k]
    ensures r == Splice(s, at, w)
  {
  }

  lemma SpliceTwice(s: seq<byte>, at: nat, v: seq<byte>, w: seq<byte>)
    requires |v| == |w| && at + |w| <= |s|
    ensures Splice(Splice(s, at, v), at, w) == Splice(s, at, w)
    ensures Splice(s, at, v)[at..at + |v|] == v
    ensures Splice(s, at, s[at..at + |v|]) == s
  {
  }

  function WithRow(s: Block, r: nat, b0: byte, b1: byte, b2: byte, b3: byte): Block
    requires r < 4
  {
    s[r := b0][r + 4 := b1][r + 8 := b2][r + 12 := b3]
  }

  /** `s` with its first `r` rows taken from `t`. */
  function FirstRows(s: Block, t: Block, r: nat): Block {
    seq(16, i requires 0 <= i < 16 => if i % 4 < r then t[i] else s[i])
  }

  lemma NoRows(before: seq<byte>, at: nat, s: Block, t: Block)
    requires at + 16 <= |before| && s == before[at..at + 16]
    ensures Splice(before, at, FirstRows(s, t, 0)) == before
  {
    assert FirstRows(s, t, 0) == s;
    SpliceTwice(before, at, s, s);
  }

  lemma AllRows(s: Block, t: Block)
    ensures FirstRows(s, t, 4) == t
  {
  }

  lemma NextRowOf(s: Block, t: Block, r: nat)
    requires r < 4
    ensures FirstRows(s, t, r + 1) == WithRow(FirstRows(s, t, r), r, t[r], t[r + 4], t[r + 8], t[r + 12])
  {
  }

  lemma RowDone(before: seq<byte>, at: nat, s: Block, t: Block, r: nat)
    requires at + 16 <= |before| && r < 4
    ensures var now := Splice(before, at, FirstRows(s, t, r));
            Splice(now, at, WithRow(now[at..at + 16], r, t[r], t[r + 4], t[r + 8], t[r + 12]))
            == Splice(before, at, FirstRows(s, t, r + 1))
  {
    hide WithRow, FirstRows;
    NextRowOf(s, t, r);
    SpliceTwice(before, at, FirstRows(s, t, r), FirstRows(s, t, r + 1));
  }

  lemma ShiftBlockLayout(s: Block)
    ensures ShiftBlock(s) == [s[0], s[5], s[10], s[15], s[4], s[9], s[14], s[3],
                 s[8], s[13], s[2], s[7], s[12], s[1], s[6], s[11]]
  {
  }

  lemma InvShiftBlockLayout(s: Block)
    ensures InvShiftBlock(s) == [s[0], s[13], s[10], s[7], s[4], s[1], s[14], s[11],
                    s[8], s[5], s[2], s[15], s[12], s[9], s[6], s[3]]
  {
  }

  /** The number of bytes a loop over blocks touches when asked for `len`. */
  function RoundUp(len: nat): (r: nat)
    ensures r % 16 == 0 && len <= r < len + 16
  {
    (len + 15) / 16 * 16
  }

  lemma NothingDone(w: Schedule, iv: Block, s: seq<byte>, at: nat)
    requires at <= |s|
    ensures Splice(s, at, CbcEncrypt(w, iv, [])) == s
    ensures Splice(s, at, CbcDecrypt(w, iv, [])) == s
    ensures LastBlock(iv, []) == iv && LastBlock(iv, CbcEncrypt(w, iv, [])) == iv
  {
    assert s[..at] + [] + s[at..] == s;
  }

  /** Writing one block more after `done`; the bytes not reached yet are still the originals. */
  lemma NextBlock(s: seq<byte>, at: nat, done: seq<byte>, b: Block, window: seq<byte>)
    requires at + |window| <= |s| && |done| + 16 <= |window|
    requires window == s[at..at + |window|]
    ensures Splice(s, at, done)[at + |done|..at + |done| + 16] == window[|done|..|done| + 16]
    ensures Splice(Splice(s, at, done), at + |done|, b) == Splice(s, at, done + b)
  {
    SpliceUnique(s, at, done + b, Splice(Splice(s, at, done), at + |done|, b));
    var x, y := Splice(s, at, done)[at + |done|..at + |done| + 16], window[|done|..|done| + 16];
    forall j | 0 <= j < 16
      ensures x[j] == y[j]
    {
      assert window[|done| + j] == s[at + |done| + j];
    }
  }

  lemma OneBlock(w: Schedule, iv: Block, b: Block)
    ensures CbcEncrypt(w, iv, b) == Encrypt(w, XorBlock(b, iv))
    ensures CbcDecrypt(w, iv, b) == XorBlock(Decrypt(w, b), iv)
  {
    hide Encrypt, Decrypt, XorBlock;
    assert b[..16] == b && b[16..] == [];
    assert CbcEncrypt(w, Encrypt(w, XorBlock(b, iv)), []) == [];
    assert CbcDecrypt(w, b, []) == [];
  }

  lemma LastAppended(iv: Block, done: Blocks, c: Block)
    ensures LastBlock(iv, done + c) == c
  {
  }

  lemma EncryptStep(w: Schedule, iv: Block, plain: Blocks, i: nat)
    requires i % 16 == 0 && i + 16 <= |plain|
    ensures var done := CbcEncrypt(w, iv, plain[..i]);
            var c := Encrypt(w, XorBlock(plain[i..i + 16], LastBlock(iv, done)));
            CbcEncrypt(w, iv, plain[..i + 16]) == done + c && LastBlock(iv, done + c) == c
  {
    hide Encrypt, XorBlock, CbcEncrypt, LastBlock;
    var done := CbcEncrypt(w, iv, plain[..i]);
    var p: Block := plain[i..i + 16];
    OneBlock(w, LastBlock(iv, done), p);
    CbcEncryptConcat(w, iv, plain[..i], p);
    assert plain[..i + 16] == plain[..i] + p;
    LastAppended(iv, done, Encrypt(w, XorBlock(p, LastBlock(iv, done))));
  }

  lemma DecryptStep(w: Schedule, iv: Block, cipher: Blocks, i: nat)
    requires i % 16 == 0 && i + 16 <= |cipher|
    ensures var done := CbcDecrypt(w, iv, cipher[..i]);
            CbcDecrypt(w, iv, cipher[..i + 16])
            == done + XorBlock(Decrypt(w, cipher[i..i + 16]), LastBlock(iv, cipher[..i]))
    ensures LastBlock(iv, cipher[..i + 16]) == cipher[i..i + 16]
  {
    hide Decrypt, XorBlock;
    var c: Block := cipher[i..i + 16];
    OneBlock(w, LastBlock(iv, cipher[..i]), c);
    CbcDecryptConcat(w, iv, cipher[..i], c);
    assert cipher[..i + 16] == cipher[..i] + c;
  }

  /** The sum of four bytes, as the code associates it. */
  function FlatSum(v: Column): byte {
    v.a0 ^ v.a1 ^ v.a2 ^ v.a3
  }

  lemma SumFlat(v: Column)
    ensures Sum(v) == FlatSum(v)
  {
    assert (v.a0 ^ v.a1) ^ (v.a2 ^ v.a3) == v.a0 ^ v.a1 ^ v.a2 ^ v.a3;
  }

  lemma MixFormula(a: Column)
    ensures MixColumn(a) == Column(FlatSum(Column(Mul(a.a0, 2), Mul(a.a1, 3), a.a2, a.a3)),
                                   FlatSum(Column(a.a0, Mul(a.a1, 2), Mul(a.a2, 3), a.a3)),
                                   FlatSum(Column(a.a0, a.a1, Mul(a.a2, 2), Mul(a.a3, 3))),
                                   FlatSum(Column(Mul(a.a0, 3), a.a1, a.a2, Mul(a.a3, 2))))
  {
    hide Mul, Xtime, Sum, FlatSum;
    SmallProducts(a.a0);
    SmallProducts(a.a1);
    SmallProducts(a.a2);
    SmallProducts(a.a3);
    SumFlat(Column(Mul(a.a0, 2), Mul(a.a1, 3), a.a2, a.a3));
    SumFlat(Column(a.a0, Mul(a.a1, 2), Mul(a.a2, 3), a.a3));
    SumFlat(Column(a.a0, a.a1, Mul(a.a2, 2), Mul(a.a3, 3)));
    SumFlat(Column(Mul(a.a0, 3), a.a1, a.a2, Mul(a.a3, 2)));
  }

  lemma InvMixFormula(a: Column)
    ensures InvMixColumn(a)
         == Column(FlatSum(Column(Mul(a.a0, 0x0e), Mul(a.a1, 0x0b), Mul(a.a2, 0x0d), Mul(a.a3, 0x09))),
                   FlatSum(Column(Mul(a.a0, 0x09), Mul(a.a1, 0x0e), Mul(a.a2, 0x0b), Mul(a.a3, 0x0d))),
                   FlatSum(Column(Mul(a.a0, 0x0d), Mul(a.a1, 0x09), Mul(a.a2, 0x0e), Mul(a.a3, 0x0b))),
                   FlatSum(Column(Mul(a.a0, 0x0b), Mul(a.a1, 0x0d), Mul(a.a2, 0x09), Mul(a.a3, 0x0e))))
  {
    hide Mul, Sum, FlatSum;
    SumFlat(Column(Mul(a.a0, 0x0e), Mul(a.a1, 0x0b), Mul(a.a2, 0x0d), Mul(a.a3, 0x09)));
    SumFlat(Column(Mul(a.a0, 0x09), Mul(a.a1, 0x0e), Mul(a.a2, 0x0b), Mul(a.a3, 0x0d)));
    SumFlat(Column(Mul(a.a0, 0x0d), Mul(a.a1, 0x09), Mul(a.a2, 0x0e), Mul(a.a3, 0x0b)));
    SumFlat(Column(Mul(a.a0, 0x0b), Mul(a.a1, 0x0d), Mul(a.a2, 0x09), Mul(a.a3, 0x0e)));
  }

  function WithColumn(s: Block, c: nat, v: Column): Block
    requires c < 4
  {
    s[c := v.a0][4 + c := v.a1][8 + c := v.a2][12 + c := v.a3]
  }

  /** `s` with its first `c` columns taken from `t`. */
  function FirstColumns(s: Block, t: Block, c: nat): Block {
    seq(16, i requires 0 <= i < 16 => if i % 4 < c then t[i] else s[i])
  }

  lemma NoColumns(s: Block, t: Block)
    ensures FirstColumns(s, t, 0) == s
  {
  }

  lemma AllColumns(s: Block, t: Block)
    ensures FirstColumns(s, t, 4) == t
  {
  }

  lemma NextColumn(s: Block, t: Block, c: nat)
    requires c < 4
    ensures FirstColumns(s, t, c + 1) == WithColumn(FirstColumns(s, t, c), c, ColumnAt(t, c))
    ensures ColumnAt(FirstColumns(s, t, c), c) == ColumnAt(s, c)
  {
  }

  lemma XorIs(a: byte, b: byte)
    ensures Xor(a, b) == a ^ b
  {
  }

  /** A cipher with its expanded key. Pointers into a buffer are a buffer and an offset. */
  class Cipher {
    const roundKeys: Schedule

    constructor (key: Key)
      ensures roundKeys == Expand(key)
    {
      var w := new byte[SCHEDULE_BYTES];
      KeyExpansion(key, w);
      roundKeys := w[..];
    }

    method AddRoundKey(state: array<byte>, at: nat, round: nat)
      requires at + 16 <= state.Length && round <= ROUNDS
      modifies state
      ensures state[..] == Splice(old(state[..]), at, XorBlock(old(state[at..at + 16]), RoundKey(roundKeys, round)))
      ensures forall k :: 0 <= k < state.Length ==>
        state[k] == if at <= k < at + 16 then old(state[k]) ^ roundKeys[4 * round + (k - at)] else old(state[k])
    {
      hide Xor, Splice;
      var from := 4 * round;
      ghost var key: Block := RoundKey(roundKeys, round);
      for i := 0 to 16
        invariant forall k :: 0 <= k < state.Length ==>
          state[k] == if at <= k < at + i then Xor(old(state[k]), key[k - at]) else old(state[k])
      {
        assert roundKeys[from + i] == key[i];
        state[at + i] := Xor(state[at + i], roundKeys[from + i]);
      }
      ghost var now := XorBlock(old(state[at..at + 16]), key);
      forall k | 0 <= k < state.Length
        ensures state[..][k] == if at <= k < at + 16 then now[k - at] else old(state[..])[k]
      {
        if at <= k < at + 16 {
          assert old(state[at..at + 16])[k - at] == old(state[..])[k];
        }
      }
      SpliceUnique(old(state[..]), at, now, state[..]);
      forall k | at <= k < at + 16
        ensures state[k] == old(state[k]) ^ roundKeys[4 * round + (k - at)]
      {
        XorIs(old(state[k]), key[k - at]);
      }
    }

    method SubBytes(state: array<byte>, at: nat)
      requires at + 16 <= state.Length
      modifies state
      ensures state[..] == Splice(old(state[..]), at, SubBlock(old(state[at..at + 16])))
      ensures forall k :: 0 <= k < state.Length ==>
        state[k] == if at <= k < at + 16 then Sbox(old(state[k])) else old(state[k])
    {
      hide Sbox;
      for i := 0 to 16
        invariant forall k :: 0 <= k < state.Length ==>
          state[k] == if at <= k < at + i then Sbox(old(state[k])) else old(state[k])
      {
        state[at + i] := Sbox(state[at + i]);
      }
      ghost var now := SubBlock(old(state[at..at + 16]));
      forall k | 0 <= k < state.Length
        ensures state[..][k] == if at <= k < at + 16 then now[k - at] else old(state[..])[k]
      {
        if at <= k < at + 16 {
          assert old(state[at..at + 16])[k - at] == old(state[..])[k];
        }
      }
      SpliceUnique(old(state[..]), at, now, state[..]);
    }

    method InvSubBytes(state: array<byte>, at: nat)
      requires at + 16 <= state.Length
      modifies state
      ensures state[..] == Splice(old(state[..]), at, InvSubBlock(old(state[at..at + 16])))
      ensures forall k :: 0 <= k < state.Length ==>
        state[k] == if at <= k < at + 16 then InvSbox(old(state[k])) else old(state[k])
    {
      hide InvSbox;
      for i := 0 to 16
        invariant forall k :: 0 <= k < state.Length ==>
          state[k] == if at <= k < at + i then InvSbox(old(state[k])) else old(state[k])
      {
        state[at + i] := InvSbox(state[at + i]);
      }
      ghost var now := InvSubBlock(old(state[at..at + 16]));
      forall k | 0 <= k < state.Length
        ensures state[..][k] == if at <= k < at + 16 then now[k - at] else old(state[..])[k]
      {
        if at <= k < at + 16 {
          assert old(state[at..at + 16])[k - at] == old(state[..])[k];
        }
      }
      SpliceUnique(old(state[..]), at, now, state[..]);
    }

    /** Writes one row of the state: bytes r, r + 4, r + 8 and r + 12. */
    method SetRow(state: array<byte>, at: nat, r: nat, b0: byte, b1: byte, b2: byte, b3: byte)
      requires at + 16 <= state.Length && r < 4
      modifies state
      ensures state[..] == Splice(old(state[..]), at, WithRow(old(state[at..at + 16]), r, b0, b1, b2, b3))
    {
      state[at + r] := b0;
      state[at + r + 4] := b1;
      state[at + r + 8] := b2;
      state[at + r + 12] := b3;
      ghost var now := WithRow(old(state[at..at + 16]), r, b0, b1, b2, b3);
      forall k | 0 <= k < state.Length
        ensures state[..][k] == if at <= k < at + 16 then now[k - at] else old(state[..])[k]
      {
        if at <= k < at + 16 {
          assert old(state[at..at + 16])[k - at] == old(state[..])[k];
        }
      }
      SpliceUnique(old(state[..]), at, now, state[..]);
    }

    method ShiftRows(state: array<byte>, at: nat)
      requires at + 16 <= state.Length
      modifies state
      ensures state[..] == Splice(old(state[..]), at, ShiftBlock(old(state[at..at + 16])))
    {
      hide ShiftBlock, Splice, WithRow, FirstRows;
      var temp: Block := state[at..at + 16];
      ghost var before := state[..];
      ghost var t: Block := ShiftBlock(temp);
      ShiftBlockLayout(temp);
      NoRows(before, at, temp, t);
      RowDone(before, at, temp, t, 0);
      SetRow(state, at, 0, temp[0], temp[4], temp[8], temp[12]);
      RowDone(before, at, temp, t, 1);
      SetRow(state, at, 1, temp[5], temp[9], temp[13], temp[1]);
      RowDone(before, at, temp, t, 2);
      SetRow(state, at, 2, temp[10], temp[14], temp[2], temp[6]);
      RowDone(before, at, temp, t, 3);
      SetRow(state, at, 3, temp[15], temp[3], temp[7], temp[11]);
      AllRows(temp, t);
    }

    method InvShiftRows(state: array<byte>, at: nat)
      requires at + 16 <= state.Length
      modifies state
      ensures state[..] == Splice(old(state[..]), at, InvShiftBlock(old(state[at..at + 16])))
    {
      hide InvShiftBlock, Splice, WithRow, FirstRows;
      var temp: Block := state[at..at + 16];
      ghost var before := state[..];
      ghost var t: Block := InvShiftBlock(temp);
      InvShiftBlockLayout(temp);
      NoRows(before, at, temp, t);
      RowDone(before, at, temp, t, 0);
      SetRow(state, at, 0, temp[0], temp[4], temp[8], temp[12]);
      RowDone(before, at, temp, t, 1);
      SetRow(state, at, 1, temp[13], temp[1], temp[5], temp[9]);
      RowDone(before, at, temp, t, 2);
      SetRow(state, at, 2, temp[10], temp[14], temp[2], temp[6]);
      RowDone(before, at, temp, t, 3);
      SetRow(state, at, 3, temp[7], temp[11], temp[15], temp[3]);
      AllRows(temp, t);
    }

    /** Writes one column of the state: bytes c, 4 + c, 8 + c and 12 + c. */
    method SetColumn(state: array<byte>, at: nat, c: nat, v: Column)
      requires at + 16 <= state.Length && c < 4
      modifies state
      ensures state[..] == Splice(old(state[..]), at, WithColumn(old(state[at..at + 16]), c, v))
    {
      state[at + c] := v.a0;
      state[at + 4 + c] := v.a1;
      state[at + 8 + c] := v.a2;
      state[at + 12 + c] := v.a3;
      ghost var now := WithColumn(old(state[at..at + 16]), c, v);
      forall k | 0 <= k < state.Length
        ensures state[..][k] == if at <= k < at + 16 then now[k - at] else old(state[..])[k]
      {
        if at <= k < at + 16 {
          assert old(state[at..at + 16])[k - at] == old(state[..])[k];
        }
      }
      SpliceUnique(old(state[..]), at, now, state[..]);
    }

    /** One pass of the column loop. */
    method MixOneColumn(state: array<byte>, at: nat, c: nat)
      requires at + 16 <= state.Length && c < 4
      modifies state
      ensures var s: Block := old(state[at..at + 16]);
              state[..] == Splice(old(state[..]), at, WithColumn(s, c, MixColumn(ColumnAt(s, c))))
    {
      hide Mul, MixColumn, WithColumn, Splice, FlatSum;
      var a := Column(state[at + c], state[at + 4 + c], state[at + 8 + c], state[at + 12 + c]);
      var b0 := Gmul(a.a0, 2);
      var b1 := Gmul(a.a1, 2);
      var b2 := Gmul(a.a2, 2);
      var b3 := Gmul(a.a3, 2);
      var t0 := Gmul(a.a0, 3);
      var t1 := Gmul(a.a1, 3);
      var t2 := Gmul(a.a2, 3);
      var t3 := Gmul(a.a3, 3);
      MixFormula(a);
      ghost var block := state[at..at + 16];
      assert block[c] == a.a0 && block[4 + c] == a.a1 && block[8 + c] == a.a2 && block[12 + c] == a.a3;
      assert ColumnAt(block, c) == a;
      SetColumn(state, at, c, Column(FlatSum(Column(b0, t1, a.a2, a.a3)), FlatSum(Column(a.a0, b1, t2, a.a3)),
                                     FlatSum(Column(a.a0, a.a1, b2, t3)), FlatSum(Column(t0, a.a1, a.a2, b3))));
    }

    method MixColumns(state: array<byte>, at: nat)
      requires at + 16 <= state.Length
      modifies state
      ensures state[..] == Splice(old(state[..]), at, MixBlock(old(state[at..at + 16])))
    {
      hide MixBlock, FirstColumns, WithColumn, Splice, MixColumn;
      ghost var before := state[..];
      ghost var s: Block := state[at..at + 16];
      NoColumns(s, MixBlock(s));
      SpliceTwice(before, at, s, s);
      for c := 0 to 4
        invariant state[..] == Splice(before, at, FirstColumns(s, MixBlock(s), c))
      {
        ghost var done := FirstColumns(s, MixBlock(s), c);
        ghost var next := FirstColumns(s, MixBlock(s), c + 1);
        SpliceTwice(before, at, done, next);
        NextColumn(s, MixBlock(s), c);
        MixedColumn(s, c);
        assert state[at..at + 16] == state[..][at..at + 16] == done;
        MixOneColumn(state, at, c);
      }
      AllColumns(s, MixBlock(s));
    }

    method InvMixRow(a: Column, c0: byte, c1: byte, c2: byte, c3: byte) returns (v: byte)
      ensures v == FlatSum(Column(Mul(a.a0, c0), Mul(a.a1, c1), Mul(a.a2, c2), Mul(a.a3, c3)))
    {
      hide Mul;
      var p0 := Gmul(a.a0, c0);
      var p1 := Gmul(a.a1, c1);
      var p2 := Gmul(a.a2, c2);
      var p3 := Gmul(a.a3, c3);
      v := p0 ^ p1 ^ p2 ^ p3;
    }

    method InvMixOneColumn(state: array<byte>, at: nat, c: nat)
      requires at + 16 <= state.Length && c < 4
      modifies state
      ensures var s: Block := old(state[at..at + 16]);
              state[..] == Splice(old(state[..]), at, WithColumn(s, c, InvMixColumn(ColumnAt(s, c))))
    {
      hide Mul, InvMixColumn, WithColumn, Splice;
      var a := Column(state[at + c], state[at + 4 + c], state[at + 8 + c], state[at + 12 + c]);
      var v0 := InvMixRow(a, 0x0e, 0x0b, 0x0d, 0x09);
      var v1 := InvMixRow(a, 0x09, 0x0e, 0x0b, 0x0d);
      var v2 := InvMixRow(a, 0x0d, 0x09, 0x0e, 0x0b);
      var v3 := InvMixRow(a, 0x0b, 0x0d, 0x09, 0x0e);
      InvMixFormula(a);
      ghost var block := state[at..at + 16];
      assert block[c] == a.a0 && block[4 + c] == a.a1 && block[8 + c] == a.a2 && block[12 + c] == a.a3;
      assert ColumnAt(block, c) == a;
      SetColumn(state, at, c, Column(v0, v1, v2, v3));
    }

    method InvMixColumns(state: array<byte>, at: nat)
      requires at + 16 <= state.Length
      modifies state
      ensures state[..] == Splice(old(state[..]), at, InvMixBlock(old(state[at..at + 16])))
    {
      hide InvMixBlock, FirstColumns, WithColumn, Splice, InvMixColumn;
      ghost var before := state[..];
      ghost var s: Block := state[at..at + 16];
      NoColumns(s, InvMixBlock(s));
      SpliceTwice(before, at, s, s);
      for c := 0 to 4
        invariant state[..] == Splice(before, at, FirstColumns(s, InvMixBlock(s), c))
      {
        ghost var done := FirstColumns(s, InvMixBlock(s), c);
        ghost var next := FirstColumns(s, InvMixBlock(s), c + 1);
        SpliceTwice(before, at, done, next);
        NextColumn(s, InvMixBlock(s), c);
        MixedColumn(s, c);
        assert state[at..at + 16] == state[..][at..at + 16] == done;
        InvMixOneColumn(state, at, c);
      }
      AllColumns(s, InvMixBlock(s));
    }

    /** One pass of the encryption rounds. */
    method EncryptRound(block: array<byte>, at: nat, round: nat)
      requires at + 16 <= block.Length && round <= ROUNDS
      modifies block
      ensures block[..] == Splice(old(block[..]), at,
                XorBlock(MixBlock(ShiftBlock(SubBlock(old(block[at..at + 16])))), RoundKey(roundKeys, round)))
    {
      hide Splice, XorBlock, SubBlock, ShiftBlock, MixBlock, RoundKey;
      ghost var before := block[..];
      ghost var s1: Block := SubBlock(block[at..at + 16]);
      ghost var s2: Block := ShiftBlock(s1);
      ghost var s3: Block := MixBlock(s2);
      SubBytes(block, at);
      SpliceTwice(before, at, s1, s2);
      assert block[at..at + 16] == block[..][at..at + 16];
      ShiftRows(block, at);
      SpliceTwice(before, at, s2, s3);
      assert block[at..at + 16] == block[..][at..at + 16];
      MixColumns(block, at);
      SpliceTwice(before, at, s3, XorBlock(s3, RoundKey(roundKeys, round)));
      assert block[at..at + 16] == block[..][at..at + 16];
      AddRoundKey(block, at, round);
    }

    method EncryptBlock(block: array<byte>, at: nat)
      requires at + 16 <= block.Length
      modifies block
      ensures block[..] == Splice(old(block[..]), at, Encrypt(roundKeys, old(block[at..at + 16])))
    {
      hide Splice, XorBlock, SubBlock, ShiftBlock, MixBlock, RoundKey;
      ghost var before := block[..];
      ghost var s: Block := block[at..at + 16];
      AddRoundKey(block, at, 0);
      for round := 1 to ROUNDS
        invariant block[..] == Splice(before, at, Rounds(roundKeys, s, round - 1))
      {
        SpliceTwice(before, at, Rounds(roundKeys, s, round - 1), Rounds(roundKeys, s, round));
        assert block[at..at + 16] == block[..][at..at + 16];
        EncryptRound(block, at, round);
      }
      ghost var s0: Block := Rounds(roundKeys, s, ROUNDS - 1);
      ghost var s1: Block := SubBlock(s0);
      ghost var s2: Block := ShiftBlock(s1);
      SpliceTwice(before, at, s0, s1);
      assert block[at..at + 16] == block[..][at..at + 16];
      SubBytes(block, at);
      SpliceTwice(before, at, s1, s2);
      assert block[at..at + 16] == block[..][at..at + 16];
      ShiftRows(block, at);
      SpliceTwice(before, at, s2, XorBlock(s2, RoundKey(roundKeys, ROUNDS)));
      assert block[at..at + 16] == block[..][at..at + 16];
      AddRoundKey(block, at, ROUNDS);
    }

    /** The row shift and substitution of decryption, with the key added after them. */
    method UndoLayers(block: array<byte>, at: nat, round: nat)
      requires at + 16 <= block.Length && round <= ROUNDS
      modifies block
      ensures block[..] == Splice(old(block[..]), at,
                XorBlock(InvSubBlock(InvShiftBlock(old(block[at..at + 16]))), RoundKey(roundKeys, round)))
    {
      hide Splice, XorBlock, InvSubBlock, InvShiftBlock, RoundKey;
      ghost var before := block[..];
      ghost var s1: Block := InvShiftBlock(block[at..at + 16]);
      ghost var s2: Block := InvSubBlock(s1);
      InvShiftRows(block, at);
      SpliceTwice(before, at, s1, s2);
      assert block[at..at + 16] == block[..][at..at + 16];
      InvSubBytes(block, at);
      SpliceTwice(before, at, s2, XorBlock(s2, RoundKey(roundKeys, round)));
      assert block[at..at + 16] == block[..][at..at + 16];
      AddRoundKey(block, at, round);
    }

    method DecryptBlock(block: array<byte>, at: nat)
      requires at + 16 <= block.Length
      modifies block
      ensures block[..] == Splice(old(block[..]), at, Decrypt(roundKeys, old(block[at..at + 16])))
    {
      hide Splice, XorBlock, InvSubBlock, InvShiftBlock, InvMixBlock, RoundKey;
      ghost var before := block[..];
      ghost var s: Block := block[at..at + 16];
      AddRoundKey(block, at, ROUNDS);
      for round := ROUNDS downto 1
        invariant block[..] == Splice(before, at, UnRounds(roundKeys, s, round))
      {
        ghost var s0 := UnRounds(roundKeys, s, round + 1);
        ghost var s1: Block := XorBlock(InvSubBlock(InvShiftBlock(s0)), RoundKey(roundKeys, round));
        SpliceTwice(before, at, s0, s1);
        assert block[at..at + 16] == block[..][at..at + 16];
        UndoLayers(block, at, round);
        SpliceTwice(before, at, s1, UnRounds(roundKeys, s, round));
        assert block[at..at + 16] == block[..][at..at + 16];
        InvMixColumns(block, at);
      }
      SpliceTwice(before, at, UnRounds(roundKeys, s, 1), Decrypt(roundKeys, s));
      assert block[at..at + 16] == block[..][at..at + 16];
      UndoLayers(block, at, 0);
    }

    /** XORs `prev` into the sixteen bytes at `at`. */
    method XorInto(data: array<byte>, at: nat, prev: Block)
      requires at + 16 <= data.Length
      modifies data
      ensures data[..] == Splice(old(data[..]), at, XorBlock(old(data[at..at + 16]), prev))
    {
      for j := 0 to 16
        invariant forall k :: 0 <= k < data.Length ==>
          data[k] == if at <= k < at + j then Xor(old(data[k]), prev[k - at]) else old(data[k])
      {
        data[at + j] := data[at + j] ^ prev[j];
      }
      SpliceUnique(old(data[..]), at, XorBlock(old(data[at..at + 16]), prev), data[..]);
    }

    /** One pass of the encryption loop; returns the block to chain into the next. */
    method EncryptChained(data: array<byte>, at: nat, prev: Block) returns (next: Block)
      requires at + 16 <= data.Length
      modifies data
      ensures next == Encrypt(roundKeys, XorBlock(old(data[at..at + 16]), prev))
      ensures data[..] == Splice(old(data[..]), at, next)
    {
      hide Splice, XorBlock, Encrypt;
      ghost var x: Block := XorBlock(data[at..at + 16], prev);
      SpliceTwice(data[..], at, x, Encrypt(roundKeys, x));
      XorInto(data, at, prev);
      assert data[at..at + 16] == data[..][at..at + 16] == x;
      SpliceTwice(data[..], at, Encrypt(roundKeys, x), Encrypt(roundKeys, x));
      EncryptBlock(data, at);
      next := data[at..at + 16];
      assert next == data[..][at..at + 16];
    }

    /** One pass of the decryption loop; returns the ciphertext block that was overwritten. */
    method DecryptChained(data: array<byte>, at: nat, prev: Block) returns (next: Block)
      requires at + 16 <= data.Length
      modifies data
      ensures next == old(data[at..at + 16])
      ensures data[..] == Splice(old(data[..]), at, XorBlock(Decrypt(roundKeys, next), prev))
    {
      hide Splice, XorBlock, Decrypt;
      next := data[at..at + 16];
      ghost var d: Block := Decrypt(roundKeys, next);
      SpliceTwice(data[..], at, d, XorBlock(d, prev));
      DecryptBlock(data, at);
      assert data[at..at + 16] == data[..][at..at + 16] == d;
      XorInto(data, at, prev);
    }

    method EncryptCbc(data: array<byte>, at: nat, len: nat, iv: Block)
      requires at + RoundUp(len) <= data.Length
      modifies data
      ensures data[..] == Splice(old(data[..]), at, CbcEncrypt(roundKeys, iv, old(data[at..at + RoundUp(len)])))
    {
      hide Splice, CbcEncrypt, XorBlock, Encrypt, LastBlock;
      ghost var before := data[..];
      ghost var plain: Blocks := data[at..at + RoundUp(len)];
      var prev := iv;
      var i := 0;
      NothingDone(roundKeys, iv, before, at);
      while i < len
        invariant 0 <= i <= RoundUp(len) && i % 16 == 0
        invariant data[..] == Splice(before, at, CbcEncrypt(roundKeys, iv, plain[..i]))
        invariant prev == LastBlock(iv, CbcEncrypt(roundKeys, iv, plain[..i]))
      {
        EncryptStep(roundKeys, iv, plain, i);
        NextBlock(before, at, CbcEncrypt(roundKeys, iv, plain[..i]),
                  Encrypt(roundKeys, XorBlock(plain[i..i + 16], prev)), plain);
        assert data[at + i..at + i + 16] == data[..][at + i..at + i + 16] == plain[i..i + 16];
        prev := EncryptChained(data, at + i, prev);
        i := i + 16;
      }
      assert plain[..i] == plain;
    }

    method DecryptCbc(data: array<byte>, at: nat, len: nat, iv: Block)
      requires at + RoundUp(len) <= data.Length
      modifies data
      ensures data[..] == Splice(old(data[..]), at, CbcDecrypt(roundKeys, iv, old(data[at..at + RoundUp(len)])))
    {
      hide Splice, CbcDecrypt, XorBlock, Decrypt, LastBlock;
      ghost var before := data[..];
      ghost var cipher: Blocks := data[at..at + RoundUp(len)];
      var prev := iv;
      var i := 0;
      NothingDone(roundKeys, iv, before, at);
      while i < len
        invariant 0 <= i <= RoundUp(len) && i % 16 == 0
        invariant data[..] == Splice(before, at, CbcDecrypt(roundKeys, iv, cipher[..i]))
        invariant prev == LastBlock(iv, cipher[..i])
      {
        DecryptStep(roundKeys, iv, cipher, i);
        NextBlock(before, at, CbcDecrypt(roundKeys, iv, cipher[..i]),
                  XorBlock(Decrypt(roundKeys, cipher[i..i + 16]), prev), cipher);
        assert data[at + i..at + i + 16] == data[..][at + i..at + i + 16] == cipher[i..i + 16];
        prev := DecryptChained(data, at + i, prev);
        i := i + 16;
      }
      assert cipher[..i] == cipher;
    }
  }
}
