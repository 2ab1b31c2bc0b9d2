/** Padding, and the sealed form of a message: an IV followed by CBC blocks. */
module Envelope {
  import opened Bytes
  import opened AesBlock
  import opened Cbc
  import opened Aes256

  const WORK_BYTES: nat := 1024

  function Min(a: nat, b: nat): nat {
    if a <= b then a else b
  }

  // ----- padding

  /** The length `pad_data` gives to `len` bytes in a buffer of `maxOut`. */
  function PaddedLength(len: nat, maxOut: nat): nat {
    Min((len + 16) / 16 * 16, maxOut)
  }

  /** The padded text: each added byte is the number of bytes added. */
  function Pad(plain: seq<byte>, maxOut: nat): (s: seq<byte>)
    ensures |s| == PaddedLength(|plain|, maxOut)
  {
    var n := PaddedLength(|plain|, maxOut);
    if n <= |plain| then plain[..n] else plain + seq(n - |plain|, _ => ToByte((n - |plain|) % 256))
  }

  /** The text before the padding; nothing when the padding is not of the right form. */
  function Unpad(s: seq<byte>, maxOut: nat): seq<byte> {
    if s == [] || |s| % 16 != 0 then []
    else
      var p := ToNat(s[|s| - 1]);
      if p > 16 || p == 0 then [] else s[..Min(|s| - p, maxOut)]
  }

  method PadData(input: seq<byte>, output: array<byte>, maxOut: nat) returns (n: nat)
    requires |input| <= output.Length && maxOut <= output.Length
    modifies output
    ensures n == PaddedLength(|input|, maxOut)
    ensures output[..n] == Pad(input, maxOut)
    ensures forall k :: |input| <= k < output.Length && n <= k ==> output[k] == old(output[k])
  {
    n := (|input| + 16) / 16 * 16;
    if n > maxOut {
      n := maxOut;
    }
    hide ToByte;
    CopyInto(input, output, 0);
    var padByte := ToByte((n - |input|) % 256);
    if |input| < n {
      FillRange(output, |input|, n, padByte);
    }
    assert output[..n] == Pad(input, maxOut);
  }

  method UnpadData(input: array<byte>, len: nat, output: array<byte>, maxOut: nat) returns (n: nat)
    requires len <= input.Length && maxOut <= output.Length && input != output
    modifies output
    ensures n == |Unpad(input[..len], maxOut)|
    ensures n <= output.Length && output[..n] == Unpad(input[..len], maxOut)
  {
    if len == 0 || len % 16 != 0 {
      return 0;
    }
    var p := ToNat(input[len - 1]);
    if p > 16 || p == 0 {
      return 0;
    }
    n := len - p;
    if n > maxOut {
      n := maxOut;
    }
    CopyInto(input[..n], output, 0);
    assert output[..n] == input[..n];
    assert input[..n] == input[..len][..n];
  }

  /** Padding always adds at least one byte, and unpadding finds exactly what was added. */
  lemma UnpadOfPad(plain: seq<byte>, maxPad: nat, maxOut: nat)
    requires (|plain| + 16) / 16 * 16 <= maxPad && |plain| <= maxOut
    ensures Unpad(Pad(plain, maxPad), maxOut) == plain
  {
    hide ToNat;
    var n := PaddedLength(|plain|, maxPad);
    ByteRoundTrip(n - |plain|);
    assert Pad(plain, maxPad)[n - 1] == ToByte(n - |plain|);
  }

  /** The padded text: the text, then 1 to 16 bytes that each hold their number, up to a multiple of 16. */
  lemma PadIs(plain: seq<byte>, maxOut: nat)
    requires (|plain| + 16) / 16 * 16 <= maxOut
    ensures var s := Pad(plain, maxOut);
            && |s| % 16 == 0 && |plain| < |s| <= |plain| + 16 && s[..|plain|] == plain
            && forall k :: |plain| <= k < |s| ==> s[k] == ToByte(|s| - |plain|)
  {
    hide ToByte;
  }

  /** Padding is refused exactly when the length is no positive multiple of 16 or the last byte is not 1 to 16. */
  lemma PaddingRefusedIff(s: seq<byte>, maxOut: nat)
    requires |s| <= maxOut
    ensures Unpad(s, maxOut) == []
        <==> s == [] || |s| % 16 != 0 || !(1 <= ToNat(s[|s| - 1]) <= 16) || (|s| == 16 && ToNat(s[15]) == 16)
  {
    hide ToNat;
  }

  // ----- the IV

  /** `now` shifted right arithmetically by 4 * `i` bits. */
  function Shifted(now: int, i: nat): int {
    if i == 0 then now else Shifted(now, i - 1) / 16
  }

  /** The IV made at clock value `now`: byte `i` is the low byte of the clock shifted by 4 * i bits. */
  function ClockIv(now: int): Block {
    seq(16, i requires 0 <= i < 16 => ToByte(Shifted(now, i) % 256))
  }

  method GenerateIv(now: int, iv: array<byte>)
    requires iv.Length == 16
    modifies iv
    ensures iv[..] == ClockIv(now)
  {
    hide ToByte, Shifted;
    for i := 0 to 16
      invariant forall k :: 0 <= k < i ==> iv[k] == ToByte(Shifted(now, k) % 256)
    {
      iv[i] := ToByte(Shifted(now, i) % 256);
    }
  }

  lemma LowByte(high: int, low: nat)
    requires low < 256
    ensures (256 * high + low) % 256 == low
  {
  }

  lemma NextNibble(x: int)
    ensures x % 256 / 16 == x / 16 % 256 % 16
  {
    var y := x / 16;
    var m, d := y % 16, x % 16;
    assert x == 256 * (y / 16) + (16 * m + d);
    LowByte(y / 16, 16 * m + d);
    var z := y / 16;
    assert y == 256 * (z / 16) + (16 * (z % 16) + m);
    LowByte(z / 16, 16 * (z % 16) + m);
  }

  /** Neighbouring bytes share four bits: the high half of one is the low half of the next. */
  lemma ClockIvOverlaps(now: int, i: nat)
    requires i < 15
    ensures ToNat(ClockIv(now)[i]) / 16 == ToNat(ClockIv(now)[i + 1]) % 16
  {
    hide ToByte, ToNat;
    ByteRoundTrip(Shifted(now, i) % 256);
    ByteRoundTrip(Shifted(now, i + 1) % 256);
    assert Shifted(now, i + 1) == Shifted(now, i) / 16;
    hide Shifted;
    NextNibble(Shifted(now, i));
  }

  /** Byte 3 is the clock in units of 4096, modulo 256. */
  lemma ClockIvByte3(now: int)
    ensures ToNat(ClockIv(now)[3]) == now / 4096 % 256
  {
    hide ToByte, ToNat;
    ByteRoundTrip(Shifted(now, 3) % 256);
    assert Shifted(now, 1) == Shifted(now, 0) / 16;
    assert Shifted(now, 2) == Shifted(now, 1) / 16;
    assert Shifted(now, 3) == Shifted(now, 2) / 16;
  }

  // ----- sealing

  /** IV, then the padded text encrypted; nothing when that exceeds `maxOut`. */
  function Seal(w: Schedule, iv: Block, plain: seq<byte>, maxOut: nat): (sealed: seq<byte>)
    requires |plain| <= WORK_BYTES
    ensures sealed == [] || |sealed| == 16 + PaddedLength(|plain|, WORK_BYTES) <= maxOut
  {
    if PaddedLength(|plain|, WORK_BYTES) + 16 > maxOut then []
    else iv + CbcEncrypt(w, iv, Pad(plain, WORK_BYTES))
  }

  /** The text of a sealed message; nothing when it is too short or its padding is malformed. */
  function Open(w: Schedule, sealed: seq<byte>, maxOut: nat): seq<byte> {
    if |sealed| < 32 || |sealed| % 16 != 0 then []
    else Unpad(CbcDecrypt(w, sealed[..16], sealed[16..]), maxOut)
  }

  lemma PaddedLengthBlocks(len: nat)
    requires len <= WORK_BYTES
    ensures PaddedLength(len, WORK_BYTES) % 16 == 0 && PaddedLength(len, WORK_BYTES) <= WORK_BYTES
    ensures RoundUp(PaddedLength(len, WORK_BYTES)) == PaddedLength(len, WORK_BYTES)
  {
  }

  lemma SpliceAfterHead(s: seq<byte>, w: seq<byte>, head: Block)
    requires 16 + |w| <= |s| && s[..16] == head
    ensures Splice(s, 16, w)[..16 + |w|] == head + w
  {
  }

  /** Writes the sealed form of `plain` to `out`; the IV is written even when there is no room for the rest. */
  method EncryptPayload(plain: seq<byte>, out: array<byte>, maxOut: nat, aes: Cipher, iv: Block) returns (n: nat)
    requires |plain| <= WORK_BYTES
    requires 16 <= out.Length && maxOut <= out.Length
    modifies out
    ensures n == |Seal(aes.roundKeys, iv, plain, maxOut)|
    ensures n <= out.Length && out[..n] == Seal(aes.roundKeys, iv, plain, maxOut)
  {
    hide CbcEncrypt, Pad, PaddedLength, Splice;
    CopyInto(iv, out, 0);
    var padded := new byte[WORK_BYTES];
    var len := PadData(plain, padded, WORK_BYTES);
    PaddedLengthBlocks(|plain|);
    if len + 16 > maxOut {
      return 0;
    }
    ghost var text := Pad(plain, WORK_BYTES);
    ghost var start := out[..];
    SpliceAfterHead(start, text, iv);
    CopyInto(padded[..len], out, 16);
    ghost var before := out[..];
    assert out[16..16 + RoundUp(len)] == before[..16 + len][16..];
    assert before[..16] == before[..16 + len][..16] == iv;
    aes.EncryptCbc(out, 16, len, iv);
    n := 16 + len;
    SpliceAfterHead(before, CbcEncrypt(aes.roundKeys, iv, text), iv);
    assert out[..n] == out[..][..n];
  }

  lemma RoundUpFits(len: nat)
    requires len <= WORK_BYTES
    ensures RoundUp(len) <= WORK_BYTES
    ensures len % 16 == 0 ==> RoundUp(len) == len
  {
  }

  lemma RaggedUnpad(s: seq<byte>, maxOut: nat)
    requires |s| % 16 != 0
    ensures Unpad(s, maxOut) == []
  {
  }

  /**
   Writes the text of a sealed message to `out`. The work buffer holds 1024 bytes, so the caller
   passes at most 1040; a ragged last block is decrypted over whatever the buffer holds, and the
   length check of the unpadding then rejects the result.
   */
  method DecryptPayload(sealed: seq<byte>, out: array<byte>, maxOut: nat, aes: Cipher) returns (n: nat)
    requires |sealed| <= WORK_BYTES + 16
    requires maxOut <= out.Length
    modifies out
    ensures n == |Open(aes.roundKeys, sealed, maxOut)|
    ensures n <= out.Length && out[..n] == Open(aes.roundKeys, sealed, maxOut)
  {
    hide CbcDecrypt, Unpad, Splice;
    if |sealed| < 32 {
      return 0;
    }
    var iv: Block := sealed[..16];
    var len := |sealed| - 16;
    var decrypted := new byte[WORK_BYTES];
    SpliceTwice(decrypted[..], 0, sealed[16..], sealed[16..]);
    CopyInto(sealed[16..], decrypted, 0);
    RoundUpFits(len);
    ghost var before := decrypted[..];
    assert len % 16 == 0 ==> decrypted[0..0 + RoundUp(len)] == before[0..0 + len] == sealed[16..];
    aes.DecryptCbc(decrypted, 0, len, iv);
    if len % 16 == 0 {
      ghost var text := CbcDecrypt(aes.roundKeys, iv, sealed[16..]);
      SpliceTwice(before, 0, text, text);
      assert decrypted[..len] == decrypted[..][0..0 + len] == text;
    } else {
      RaggedUnpad(decrypted[..len], maxOut);
    }
    n := UnpadData(decrypted, len, out, maxOut);
  }

  // ----- round trip

  /** A message is sealed exactly when its padded form and the IV fit. */
  lemma SealFits(w: Schedule, iv: Block, plain: seq<byte>)
    requires |plain| <= WORK_BYTES
    ensures Seal(w, iv, plain, 1024) != [] <==> |plain| <= 1007
  {
  }

  /** Opening undoes sealing whenever the text is padded in full and sealed. */
  lemma OpenOfSeal(w: Schedule, iv: Block, plain: seq<byte>, maxSeal: nat, maxOut: nat)
    requires (|plain| + 16) / 16 * 16 <= WORK_BYTES && (|plain| + 16) / 16 * 16 + 16 <= maxSeal
    requires |plain| <= maxOut
    ensures Open(w, Seal(w, iv, plain, maxSeal), maxOut) == plain
  {
    hide CbcEncrypt, CbcDecrypt, Pad, Unpad;
    var padded := Pad(plain, WORK_BYTES);
    var sealed := Seal(w, iv, plain, maxSeal);
    CbcDecryptOfEncrypt(w, iv, padded);
    assert sealed[..16] == iv && sealed[16..] == CbcEncrypt(w, iv, padded);
    UnpadOfPad(plain, WORK_BYTES, maxOut);
  }
}
