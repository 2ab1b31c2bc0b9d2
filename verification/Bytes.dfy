/** Machine integers, and their little-endian storage as bytes. */
module Bytes {

  type byte = bv8
  type u8 = n: int | 0 <= n < 0x100
  type u16 = n: int | 0 <= n < 0x1_0000
  type u32 = n: int | 0 <= n < 0x1_0000_0000
  type u64 = n: int | 0 <= n < 0x1_0000_0000_0000_0000

  datatype Option<+T> = None | Some(value: T)

  function AppendBit(b: byte, bit: bool): byte {
    (b << 1) | (if bit then 1 else 0)
  }

  /** The byte of value `n`, built from its binary digits. */
  function ToByte(n: u8): byte
    decreases n
  {
    if n == 0 then 0 else AppendBit(ToByte(n / 2), n % 2 == 1)
  }

  function ToNat(b: byte): (n: u8) {
    b as int
  }

  lemma AppendBitDoubles(b: byte, bit: bool)
    requires ToNat(b) < 128
    ensures ToNat(AppendBit(b, bit)) == 2 * ToNat(b) + (if bit then 1 else 0)
  {
    if bit {
      assert ((b << 1) | 1) as int == 2 * (b as int) + 1;
    } else {
      assert ((b << 1) | 0) as int == 2 * (b as int);
    }
  }

  lemma {:induction false} ByteRoundTrip(n: u8)
    ensures ToNat(ToByte(n)) == n
  {
    if n != 0 {
      hide ToNat, AppendBit;
      ByteRoundTrip(n / 2);
      AppendBitDoubles(ToByte(n / 2), n % 2 == 1);
    }
  }

  lemma SplitBit(b: byte)
    ensures b == AppendBit(b >> 1, b & 1 == 1)
    ensures ToNat(b >> 1) < 128
  {
  }

  lemma {:induction false} NatRoundTrip(b: byte)
    ensures ToByte(ToNat(b)) == b
    decreases ToNat(b)
  {
    SplitBit(b);
    AppendBitDoubles(b >> 1, b & 1 == 1);
    if ToNat(b) != 0 {
      NatRoundTrip(b >> 1);
      hide ToNat, AppendBit;
    }
  }

  /** `n` zero bytes, as memset leaves them. */
  function Zeros(n: nat): (s: seq<byte>)
    ensures |s| == n
    ensures forall i :: 0 <= i < n ==> s[i] == 0
  {
    seq(n, _ => 0)
  }

  /** The bytes of `s` with `w` written over them from index `at` on (memcpy into a buffer). */
  function Splice(s: seq<byte>, at: nat, w: seq<byte>): (r: seq<byte>)
    requires at + |w| <= |s|
    ensures |r| == |s|
    ensures forall k :: 0 <= k < |s| ==> r[k] == if at <= k < at + |w| then w[k - at] else s[k]
  {
    s[..at] + w + s[at + |w|..]
  }

  /** memcpy: writes `src` into `dst` from index `at` on. */
  method CopyInto(src: seq<byte>, dst: array<byte>, at: nat)
    requires at + |src| <= dst.Length
    modifies dst
    ensures dst[..] == Splice(old(dst[..]), at, src)
  {
    for i := 0 to |src|
      invariant forall k :: 0 <= k < dst.Length ==>
        dst[k] == if at <= k < at + i then src[k - at] else old(dst[k])
    {
      dst[at + i] := src[i];
    }
  }

  /** Writes `value` from index `at` up to `end`. */
  method FillRange(dst: array<byte>, at: nat, end: nat, value: byte)
    requires at <= end <= dst.Length
    modifies dst
    ensures dst[..] == Splice(old(dst[..]), at, seq(end - at, _ => value))
  {
    for i := at to end
      invariant forall k :: 0 <= k < dst.Length ==> dst[k] == if at <= k < i then value else old(dst[k])
    {
      dst[i] := value;
    }
  }

  function Pow256(width: nat): (p: nat)
    ensures p > 0
  {
    if width == 0 then 1 else 256 * Pow256(width - 1)
  }

  /** The low `width` bytes of `n`, least significant first. */
  function Le(n: nat, width: nat): (s: seq<byte>)
    ensures |s| == width
    decreases width
  {
    if width == 0 then [] else [ToByte(n % 256)] + Le(n / 256, width - 1)
  }

  lemma TwoBytes(n: nat)
    requires n < 0x1_0000
    ensures Le(n, 2) == [ToByte(n % 256), ToByte(n / 256)]
  {
    hide ToByte;
    assert Le(n / 256 / 256, 0) == [];
    assert Le(n / 256, 1) == [ToByte(n / 256 % 256)] + Le(n / 256 / 256, 0);
    assert Le(n, 2) == [ToByte(n % 256)] + Le(n / 256, 1);
  }

  function FromLe(s: seq<byte>): nat {
    if s == [] then 0 else ToNat(s[0]) + 256 * FromLe(s[1..])
  }

  lemma {:induction false} FromLeBound(s: seq<byte>)
    ensures FromLe(s) < Pow256(|s|)
  {
    if s != [] {
      FromLeBound(s[1..]);
    }
  }

  /** Reading back a stored integer yields it, reduced to the width of its field. */
  lemma {:induction false} FromLeOfLe(n: nat, width: nat)
    requires n < Pow256(width)
    ensures FromLe(Le(n, width)) == n
    decreases width
  {
    if width != 0 {
      ByteRoundTrip(n % 256);
      FromLeOfLe(n / 256, width - 1);
      assert Le(n, width)[1..] == Le(n / 256, width - 1);
    }
  }

  lemma FieldWidths()
    ensures Pow256(2) == 0x1_0000
    ensures Pow256(4) == 0x1_0000_0000
    ensures Pow256(8) == 0x1_0000_0000_0000_0000
  {
    assert Pow256(1) == 256;
    assert Pow256(2) == 256 * Pow256(1);
    assert Pow256(3) == 256 * Pow256(2);
    assert Pow256(4) == 256 * Pow256(3);
    assert Pow256(5) == 256 * Pow256(4);
    assert Pow256(6) == 256 * Pow256(5);
    assert Pow256(7) == 256 * Pow256(6);
    assert Pow256(8) == 256 * Pow256(7);
  }
}
