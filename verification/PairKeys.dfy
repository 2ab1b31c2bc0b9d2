/** The key of a pair of nodes, derived from the shared base key and both addresses. */
module PairKeys {
  import opened Bytes
  import opened Gf256
  import opened Packets
  import opened KeySchedule

  /** The two addresses in byte order. */
  function Ordered(a: Mac, b: Mac): (Mac, Mac) {
    if BytesBefore(b, a) then (b, a) else (a, b)
  }

  /** Byte `i` of the base key with the ordered addresses mixed into it. */
  function Mixed(first: Mac, second: Mac, base: Key, i: nat): byte
    requires i < KEY_BYTES
  {
    if i < 6 then Xor(base[i], first[i])
    else if 16 <= i < 22 then Xor(base[i], second[i - 16])
    else base[i]
  }

  function Affine(x: byte, t: byte): byte {
    x * 17 + t
  }

  /** The last step of the derivation, in arithmetic modulo 256. */
  function Scramble(x: byte, i: u8): byte {
    Xor(Affine(x, ToByte(i)), 0xa5)
  }

  function PairKey(a: Mac, b: Mac, base: Key): Key {
    var (first, second) := Ordered(a, b);
    seq(KEY_BYTES, i requires 0 <= i < KEY_BYTES => Scramble(Mixed(first, second, base, i), i))
  }

  lemma MixedBytes(first: Mac, second: Mac, base: Key, i: nat)
    requires i < 6
    ensures Mixed(first, second, base, i) == Xor(base[i], first[i])
    ensures Mixed(first, second, base, i + 16) == Xor(base[i + 16], second[i])
  {
  }

  lemma MixedElsewhere(first: Mac, second: Mac, base: Key, i: nat)
    requires i < KEY_BYTES
    ensures !(i < 6 || 16 <= i < 22) ==> Mixed(first, second, base, i) == base[i]
  {
  }

  method DerivePairKey(macA: Mac, macB: Mac, base: Key, out: array<byte>)
    requires out.Length == KEY_BYTES
    modifies out
    ensures out[..] == PairKey(macA, macB, base)
  {
    hide Scramble, Mixed, BytesBefore, Xor;
    var first, second := macA, macB;
    if BytesBefore(macB, macA) {
      first := macB;
      second := macA;
    }
    for i := 0 to KEY_BYTES
      invariant out[..i] == base[..i]
    {
      out[i] := base[i];
    }
    for i := 0 to 6
      invariant forall k :: 0 <= k < KEY_BYTES ==>
        out[k] == if k < i || 16 <= k < 16 + i then Mixed(first, second, base, k) else base[k]
    {
      MixedBytes(first, second, base, i);
      out[i] := Xor(out[i], first[i]);
      out[i + 16] := Xor(out[i + 16], second[i]);
    }
    forall k | 0 <= k < KEY_BYTES
      ensures out[k] == Mixed(first, second, base, k)
    {
      MixedElsewhere(first, second, base, k);
    }
    for i := 0 to KEY_BYTES
      invariant forall k :: 0 <= k < i ==> out[k] == Scramble(Mixed(first, second, base, k), k)
      invariant forall k :: i <= k < KEY_BYTES ==> out[k] == Mixed(first, second, base, k)
    {
      out[i] := Scramble(out[i], i);
    }
  }

  lemma PairKeySymmetric(a: Mac, b: Mac, base: Key)
    ensures PairKey(a, b, base) == PairKey(b, a, base)
  {
    BytesBeforeTotal(a, b);
  }

  lemma SeventeenInvertible(x: byte)
    ensures x * 17 * 241 == x
  {
  }

  lemma AddSub(x: byte, t: byte)
    ensures (x + t) - t == x
  {
  }

  /** Division by 17 modulo 256: 17 * 241 is 1 more than a multiple of 256. */
  function By17(y: byte): byte {
    y * 241
  }

  /** The last step undone: without 0xa5, less the index, divided by 17. */
  function Unscramble(y: byte, t: byte): byte {
    By17(Xor(y, 0xa5) - t)
  }

  lemma ProductBy17(x: byte)
    ensures By17(x * 17) == x
  {
    SeventeenInvertible(x);
  }

  lemma AffineUndone(x: byte, t: byte)
    ensures By17(Affine(x, t) - t) == x
  {
    hide By17;
    AddSub(x * 17, t);
    ProductBy17(x);
  }

  lemma ScrambleUndone(x: byte, i: u8)
    ensures Unscramble(Scramble(x, i), ToByte(i)) == x
  {
    hide ToByte, Affine, Xor, By17;
    XorLaws(Affine(x, ToByte(i)), 0xa5);
    AffineUndone(x, ToByte(i));
  }

  /**
   Each byte of a pair key undone is the byte of the base key, with the smaller address mixed into
   bytes 0 to 5 and the larger one into bytes 16 to 21.
   */
  lemma PairKeyUndone(a: Mac, b: Mac, base: Key, i: nat)
    requires i < 32 && (a == b || BytesBefore(a, b))
    ensures Unscramble(PairKey(a, b, base)[i], ToByte(i))
         == if i < 6 then Xor(base[i], a[i]) else if 16 <= i < 22 then Xor(base[i], b[i - 16]) else base[i]
  {
    hide ToByte, Scramble, Unscramble, BytesBefore, Xor;
    BytesBeforeTotal(a, b);
    ScrambleUndone(Mixed(a, b, base, i), i);
  }

  lemma AffineInjective(x: byte, y: byte, t: byte)
    requires Affine(x, t) == Affine(y, t)
    ensures x == y
  {
    assert (x * 17 + t) - t == x * 17 && (y * 17 + t) - t == y * 17;
    SeventeenInvertible(x);
    SeventeenInvertible(y);
  }

  /** Each step of the derivation can be undone: 17 is invertible modulo 256. */
  lemma ScrambleInjective(x: byte, y: byte, i: u8)
    requires Scramble(x, i) == Scramble(y, i)
    ensures x == y
  {
    hide Xor, ToByte, Affine;
    var t := ToByte(i);
    XorLaws(Affine(x, t), 0xa5);
    XorLaws(Affine(y, t), 0xa5);
    AffineInjective(x, y, t);
  }

  lemma SameByte(f: Mac, s: Mac, g: Mac, t: Mac, base: Key, i: nat, key: Key)
    requires i < KEY_BYTES
    requires key[i] == Scramble(Mixed(f, s, base, i), i) == Scramble(Mixed(g, t, base, i), i)
    ensures Mixed(f, s, base, i) == Mixed(g, t, base, i)
  {
    hide Scramble;
    ScrambleInjective(Mixed(f, s, base, i), Mixed(g, t, base, i), i);
  }

  /** For one base key, two pairs share a key exactly when they are the same two nodes. */
  lemma PairKeyInjective(a: Mac, b: Mac, c: Mac, d: Mac, base: Key)
    ensures PairKey(a, b, base) == PairKey(c, d, base) <==> (a == c && b == d) || (a == d && b == c)
  {
    PairKeySymmetric(a, b, base);
    if PairKey(a, b, base) == PairKey(c, d, base) {
      var (f, s) := Ordered(a, b);
      var (g, t) := Ordered(c, d);
      forall i | 0 <= i < 6
        ensures f[i] == g[i] && s[i] == t[i]
      {
        SameByte(f, s, g, t, base, i, PairKey(a, b, base));
        SameByte(f, s, g, t, base, i + 16, PairKey(a, b, base));
        XorLaws(f[i], base[i]);
        XorLaws(g[i], base[i]);
        XorLaws(s[i], base[i + 16]);
        XorLaws(t[i], base[i + 16]);
      }
      assert f == g && s == t;
    }
  }
}
