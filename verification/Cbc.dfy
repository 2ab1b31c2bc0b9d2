/** Cipher block chaining (section 6.2 of NIST SP 800-38A) as a recursion over blocks. */
module Cbc {
  import opened Bytes
  import opened Gf256
  import opened AesBlock

  type Blocks = s: seq<byte> | |s| % 16 == 0

  function CbcEncrypt(w: Schedule, iv: Block, plain: Blocks): (cipher: Blocks)
    ensures |cipher| == |plain|
    decreases |plain|
  {
    if plain == [] then []
    else
      var c := Encrypt(w, XorBlock(plain[..16], iv));
      c + CbcEncrypt(w, c, plain[16..])
  }

  function CbcDecrypt(w: Schedule, iv: Block, cipher: Blocks): (plain: Blocks)
    ensures |plain| == |cipher|
    decreases |cipher|
  {
    if cipher == [] then []
    else XorBlock(Decrypt(w, cipher[..16]), iv) + CbcDecrypt(w, cipher[..16], cipher[16..])
  }

  /** The last block of a ciphertext, which chains into what follows; `iv` when there is none. */
  function LastBlock(iv: Block, s: Blocks): Block {
    if s == [] then iv else s[|s| - 16..]
  }

  // ----- round trips

  lemma {:induction false} CbcDecryptOfEncrypt(w: Schedule, iv: Block, plain: Blocks)
    ensures CbcDecrypt(w, iv, CbcEncrypt(w, iv, plain)) == plain
    decreases |plain|
  {
    hide Encrypt, Decrypt, XorBlock;
    if plain != [] {
      var first: Block, x := plain[..16], XorBlock(plain[..16], iv);
      var c: Block := Encrypt(w, x);
      var rest := CbcEncrypt(w, c, plain[16..]);
      assert (c + rest)[..16] == c && (c + rest)[16..] == rest;
      DecryptOfEncrypt(w, x);
      XorBlockTwice(first, iv);
      CbcDecryptOfEncrypt(w, c, plain[16..]);
      assert plain == first + plain[16..];
    }
  }

  lemma {:induction false} CbcEncryptOfDecrypt(w: Schedule, iv: Block, cipher: Blocks)
    ensures CbcEncrypt(w, iv, CbcDecrypt(w, iv, cipher)) == cipher
    decreases |cipher|
  {
    hide Encrypt, Decrypt, XorBlock;
    if cipher != [] {
      var c: Block := cipher[..16];
      var x: Block := XorBlock(Decrypt(w, c), iv);
      var rest := CbcDecrypt(w, c, cipher[16..]);
      assert (x + rest)[..16] == x && (x + rest)[16..] == rest;
      XorBlockTwice(Decrypt(w, c), iv);
      EncryptOfDecrypt(w, c);
      CbcEncryptOfDecrypt(w, c, cipher[16..]);
      assert cipher == c + cipher[16..];
    }
  }

  // ----- chaining

  lemma CbcEncryptUnfold(w: Schedule, iv: Block, plain: Blocks)
    requires plain != []
    ensures var c := Encrypt(w, XorBlock(plain[..16], iv));
            CbcEncrypt(w, iv, plain) == c + CbcEncrypt(w, c, plain[16..])
  {
    hide Encrypt, XorBlock;
  }

  lemma LastOfConcat(iv: Block, c: Block, rest: Blocks)
    ensures LastBlock(iv, c + rest) == LastBlock(c, rest)
  {
  }

  /** Encrypting p + q is encrypting p, then q with the last ciphertext block of p as its IV. */
  lemma {:induction false} CbcEncryptConcat(w: Schedule, iv: Block, p: Blocks, q: Blocks)
    ensures var cp := CbcEncrypt(w, iv, p);
            CbcEncrypt(w, iv, p + q) == cp + CbcEncrypt(w, LastBlock(iv, cp), q)
    decreases |p|
  {
    hide Encrypt, XorBlock;
    if p == [] {
      assert p + q == q;
    } else {
      hide CbcEncrypt, LastBlock;
      CbcEncryptUnfold(w, iv, p);
      CbcEncryptUnfold(w, iv, p + q);
      var first: Block, others: Blocks := p[..16], p[16..];
      assert (p + q)[..16] == first && (p + q)[16..] == others + q;
      var c: Block := Encrypt(w, XorBlock(first, iv));
      var rest: Blocks := CbcEncrypt(w, c, others);
      CbcEncryptConcat(w, c, others, q);
      LastOfConcat(iv, c, rest);
    }
  }

  lemma {:induction false} CbcDecryptConcat(w: Schedule, iv: Block, p: Blocks, q: Blocks)
    ensures CbcDecrypt(w, iv, p + q) == CbcDecrypt(w, iv, p) + CbcDecrypt(w, LastBlock(iv, p), q)
    decreases |p|
  {
    hide Decrypt, XorBlock;
    if p == [] {
      assert p + q == q;
    } else {
      var c: Block := p[..16];
      assert (p + q)[..16] == c && (p + q)[16..] == p[16..] + q;
      CbcDecryptConcat(w, c, p[16..], q);
      assert LastBlock(iv, p) == LastBlock(c, p[16..]);
    }
  }

  // ----- error propagation

  /** Block `k` of `s`. */
  function BlockAt(s: Blocks, k: nat): Block
    requires 16 * k + 16 <= |s|
  {
    s[16 * k..16 * k + 16]
  }

  /** Plaintext block `k` depends on ciphertext blocks `k` and `k` - 1 alone. */
  lemma CbcBlockAt(w: Schedule, iv: Block, s: Blocks, k: nat)
    requires 16 * k + 16 <= |s|
    ensures BlockAt(CbcDecrypt(w, iv, s), k)
         == XorBlock(Decrypt(w, BlockAt(s, k)), if k == 0 then iv else BlockAt(s, k - 1))
  {
    hide Decrypt, XorBlock;
    var p: Blocks, q: Blocks := s[..16 * k], s[16 * k..];
    assert s == p + q;
    CbcDecryptConcat(w, iv, p, q);
    assert q[..16] == BlockAt(s, k);
  }

  lemma XorCancels(d: byte, a: byte, b: byte)
    ensures Xor(Xor(d, a), Xor(d, b)) == Xor(a, b)
  {
    assert (d ^ a) ^ (d ^ b) == a ^ b;
  }

  lemma XorBlockCancels(d: Block, a: Block, b: Block)
    ensures XorBlock(XorBlock(d, a), XorBlock(d, b)) == XorBlock(a, b)
  {
    forall i | 0 <= i < 16
      ensures XorBlock(XorBlock(d, a), XorBlock(d, b))[i] == XorBlock(a, b)[i]
    {
      XorCancels(d[i], a[i], b[i]);
    }
  }

  /**
   Two runs of decryption over ciphertexts that differ in block `k` only, whatever their
   lengths and IV: every plaintext block but `k` and `k` + 1 is the same in both, block `k`
   is not, and block `k` + 1 differs exactly as the ciphertext blocks do.
   */
  lemma CbcErrorPropagation(w: Schedule, iv: Block, s: Blocks, t: Blocks, k: nat, j: nat)
    requires |s| == |t| && 16 * k + 16 <= |s| && 16 * j + 16 <= |s|
    requires forall i: nat :: 16 * i + 16 <= |s| && i != k ==> BlockAt(s, i) == BlockAt(t, i)
    requires BlockAt(s, k) != BlockAt(t, k)
    ensures j != k && j != k + 1 ==> BlockAt(CbcDecrypt(w, iv, s), j) == BlockAt(CbcDecrypt(w, iv, t), j)
    ensures j == k ==> BlockAt(CbcDecrypt(w, iv, s), j) != BlockAt(CbcDecrypt(w, iv, t), j)
    ensures j == k + 1 ==> XorBlock(BlockAt(CbcDecrypt(w, iv, s), j), BlockAt(CbcDecrypt(w, iv, t), j))
                           == XorBlock(BlockAt(s, k), BlockAt(t, k))
  {
    hide Decrypt, XorBlock, CbcDecrypt;
    CbcBlockAt(w, iv, s, j);
    CbcBlockAt(w, iv, t, j);
    if j == k {
      var before := if k == 0 then iv else BlockAt(s, k - 1);
      XorBlockTwice(Decrypt(w, BlockAt(s, k)), before);
      XorBlockTwice(Decrypt(w, BlockAt(t, k)), before);
      EncryptOfDecrypt(w, BlockAt(s, k));
      EncryptOfDecrypt(w, BlockAt(t, k));
    } else if j == k + 1 {
      XorBlockCancels(Decrypt(w, BlockAt(s, j)), BlockAt(s, k), BlockAt(t, k));
    }
  }
}
