/** Addresses as text: printing, and parsing as an input string stream does it. */
module MacText {
  import opened Bytes
  import opened Packets

  // ----- printing

  function HexDigit(n: nat): (c: char)
    requires n < 16
  {
    if n < 10 then (48 + n) as char else (87 + n) as char
  }

  /** Two lower-case hexadecimal digits. */
  function HexByte(b: byte): (s: string)
    ensures |s| == 2
  {
    [HexDigit(ToNat(b) / 16), HexDigit(ToNat(b) % 16)]
  }

  function JoinHex(s: seq<byte>): (t: string)
    ensures |t| == if s == [] then 0 else 3 * |s| - 1
  {
    if |s| == 0 then ""
    else if |s| == 1 then HexByte(s[0])
    else HexByte(s[0]) + ":" + JoinHex(s[1..])
  }

  /** The text of an address, which keys the tables of a node. */
  function MacToString(mac: Mac): (t: string)
    ensures |t| == 17
  {
    JoinHex(mac)
  }

  lemma DigitIs(n: nat)
    requires n < 16
    ensures HexDigit(n) == "0123456789abcdef"[n]
  {
  }

  lemma ThreeBefore(head: string, tail: string, n: nat)
    requires |head| == 3 && 3 <= n < |head| + |tail|
    ensures (head + tail)[n] == tail[n - 3]
  {
  }

  lemma JoinHexStep(s: seq<byte>)
    requires |s| > 1
    ensures JoinHex(s) == (HexByte(s[0]) + ":") + JoinHex(s[1..])
  {
    hide HexByte;
  }

  lemma {:induction false} JoinHexAt(s: seq<byte>, i: nat)
    requires i < |s|
    ensures 3 * i + 1 < |JoinHex(s)| && (i + 1 < |s| ==> 3 * i + 2 < |JoinHex(s)|)
    ensures JoinHex(s)[3 * i] == HexByte(s[i])[0] && JoinHex(s)[3 * i + 1] == HexByte(s[i])[1]
    ensures i + 1 < |s| ==> JoinHex(s)[3 * i + 2] == ':'
  {
    hide HexByte;
    if |s| > 1 {
      hide JoinHex;
      JoinHexStep(s);
      if i > 0 {
        var head, tail := HexByte(s[0]) + ":", JoinHex(s[1..]);
        JoinHexAt(s[1..], i - 1);
        ThreeBefore(head, tail, 3 * i);
        ThreeBefore(head, tail, 3 * i + 1);
        if i + 1 < |s| {
          ThreeBefore(head, tail, 3 * i + 2);
        }
      }
    }
  }

  /** The text of an address: for each byte two lower-case hexadecimal digits, and colons between. */
  lemma MacCharacters(mac: Mac, i: nat)
    requires i < 6
    ensures var t := MacToString(mac);
            && t[3 * i] == "0123456789abcdef"[ToNat(mac[i]) / 16]
            && t[3 * i + 1] == "0123456789abcdef"[ToNat(mac[i]) % 16]
            && (i < 5 ==> t[3 * i + 2] == ':')
  {
    hide JoinHex, HexDigit, ToNat;
    JoinHexAt(mac, i);
    DigitIs(ToNat(mac[i]) / 16);
    DigitIs(ToNat(mac[i]) % 16);
  }

  method PrintMac(mac: Mac) returns (text: string)
    ensures text == MacToString(mac)
  {
    hide HexByte;
    text := "";
    for i := 0 to 6
      invariant text + JoinHex(mac[i..]) == MacToString(mac)
    {
      ghost var rest := mac[i..];
      assert rest[0] == mac[i] && rest[1..] == mac[i + 1..];
      text := text + HexByte(mac[i]);
      if i < 5 {
        text := text + ":";
      }
    }
  }

  // ----- parsing

  predicate IsSpace(c: char) {
    c == ' ' || ('\t' <= c <= '\r')
  }

  predicate IsHex(c: char) {
    '0' <= c <= '9' || 'a' <= c <= 'f' || 'A' <= c <= 'F'
  }

  function HexValue(c: char): (n: nat)
    requires IsHex(c)
    ensures n < 16
  {
    if '0' <= c <= '9' then c as int - 48
    else if 'a' <= c <= 'f' then c as int - 87
    else c as int - 55
  }

  function SkipSpaces(s: string): string {
    if s != "" && IsSpace(s[0]) then SkipSpaces(s[1..]) else s
  }

  /** Reads hexadecimal digits after the value `n`; gives the value and what follows them. */
  function ReadDigits(s: string, n: int): (int, string)
    decreases |s|
  {
    if s != "" && IsHex(s[0]) then ReadDigits(s[1..], 16 * n + HexValue(s[0])) else (n, s)
  }

  const INT_MAX: int := 0x7fff_ffff

  /**
   Extraction of an int in base 16: optional spaces, sign and 0x, then digits. There is no value
   when there are no digits or when they exceed the range of an int.
   */
  function ReadInt(s: string): Option<(int, string)> {
    var t := SkipSpaces(s);
    var negative := t != "" && t[0] == '-';
    var u := if t != "" && (t[0] == '-' || t[0] == '+') then t[1..] else t;
    var v := if |u| >= 2 && u[0] == '0' && (u[1] == 'x' || u[1] == 'X') then u[2..] else u;
    if v == "" || !IsHex(v[0]) then None
    else
      var (n, rest) := ReadDigits(v, 0);
      if n > (if negative then INT_MAX + 1 else INT_MAX) then None
      else Some((if negative then -n else n, rest))
  }

  /** Extraction of one character, after optional spaces. */
  function ReadChar(s: string): Option<string> {
    var t := SkipSpaces(s);
    if t == "" then None else Some(t[1..])
  }

  /** The `k`-th byte read from the stream, after a separator when k > 0, and what follows it. */
  function NextByte(s: string, k: nat): Option<(byte, string)> {
    match (if k == 0 then Some(s) else ReadChar(s))
    case None => None
    case Some(t) =>
      match ReadInt(t)
      case None => None
      case Some((n, rest)) => Some((ToByte(n % 256), rest))
  }

  /** Bytes `k` to 5 of the address read from `s`; the ones after malformed input stay zero. */
  function ParseFrom(s: string, k: nat): (m: seq<byte>)
    requires k <= 6
    ensures |m| == 6 - k
    decreases 6 - k
  {
    if k == 6 then []
    else
      match NextByte(s, k)
      case None => Zeros(6 - k)
      case Some((b, rest)) => [b] + ParseFrom(rest, k + 1)
  }

  function StringToMac(text: string): Mac {
    ParseFrom(text, 0)
  }

  lemma ParseFromUnfold(s: string, k: nat)
    requires k < 6
    ensures ParseFrom(s, k) == match NextByte(s, k)
                               case None => Zeros(6 - k)
                               case Some((b, rest)) => [b] + ParseFrom(rest, k + 1)
  {
    hide NextByte;
  }

  lemma ParseFromEnd(s: string)
    ensures ParseFrom(s, 6) == []
  {
  }

  method ParseMac(text: string, mac: array<byte>)
    requires mac.Length == 6
    modifies mac
    ensures mac[..] == StringToMac(text)
  {
    hide NextByte, ParseFrom;
    for i := 0 to 6
      invariant forall k :: 0 <= k < i ==> mac[k] == 0
    {
      mac[i] := 0;
    }
    var stream := text;
    var i := 0;
    while i < 6
      invariant 0 <= i <= 6
      invariant mac[..i] + ParseFrom(stream, i) == StringToMac(text)
      invariant forall k :: i <= k < 6 ==> mac[k] == 0
    {
      ParseFromUnfold(stream, i);
      match NextByte(stream, i)
      case None =>
        assert mac[..] == mac[..i] + Zeros(6 - i);
        return;
      case Some((b, rest)) =>
        ghost var before := mac[..i];
        assert before + ([b] + ParseFrom(rest, i + 1)) == (before + [b]) + ParseFrom(rest, i + 1);
        mac[i] := b;
        assert mac[..i + 1] == before + [b];
        stream := rest;
        i := i + 1;
    }
    ParseFromEnd(stream);
    assert mac[..] == mac[..6];
  }

  // ----- parsing undoes printing

  lemma HexDigitValue(n: nat)
    requires n < 16
    ensures IsHex(HexDigit(n)) && HexValue(HexDigit(n)) == n
    ensures !IsSpace(HexDigit(n)) && HexDigit(n) !in {'-', '+', 'x', 'X'}
  {
  }

  /** A printed byte is read back, up to the separator or the end. */
  lemma ReadIntOfHexByte(b: byte, rest: string)
    requires rest == "" || !IsHex(rest[0])
    ensures ReadInt(HexByte(b) + rest) == Some((ToNat(b), rest))
  {
    hide HexDigit, IsHex, HexValue, IsSpace, ToNat;
    var hi, lo := ToNat(b) / 16, ToNat(b) % 16;
    HexDigitValue(hi);
    HexDigitValue(lo);
    var s := HexByte(b) + rest;
    assert s[0] == HexDigit(hi) && s[1] == HexDigit(lo) && s[1..] == [HexDigit(lo)] + rest;
    assert s[1..][1..] == rest;
    assert SkipSpaces(s) == s;
    assert ReadDigits(rest, ToNat(b)) == (ToNat(b), rest);
    assert ReadDigits(s[1..], hi) == ReadDigits(rest, 16 * hi + lo);
    assert ReadDigits(s, 0) == ReadDigits(s[1..], 16 * 0 + hi);
  }

  function Lead(k: nat): string {
    if k == 0 then "" else ":"
  }

  lemma NextByteOfText(b: byte, tail: string, k: nat)
    requires tail == "" || !IsHex(tail[0])
    ensures NextByte(Lead(k) + (HexByte(b) + tail), k) == Some((b, tail))
  {
    hide HexByte, ReadInt;
    var text := Lead(k) + (HexByte(b) + tail);
    if k > 0 {
      assert SkipSpaces(text) == text;
      assert text[1..] == HexByte(b) + tail;
    } else {
      assert text == HexByte(b) + tail;
    }
    ReadIntOfHexByte(b, tail);
    NatRoundTrip(b);
  }

  /** What `JoinHex` puts after the first byte. */
  function TailText(m: seq<byte>): string
    requires m != []
  {
    if |m| == 1 then "" else ":" + JoinHex(m[1..])
  }

  lemma JoinHexUnfold(m: seq<byte>)
    requires m != []
    ensures JoinHex(m) == HexByte(m[0]) + TailText(m)
  {
    hide HexByte;
  }

  lemma NothingToRead(k: nat)
    requires 0 < k <= 6
    ensures ParseFrom("", k) == Zeros(6 - k)
  {
  }

  lemma {:induction false} ParseOfJoin(m: seq<byte>, k: nat)
    requires |m| + k <= 6 && m != []
    ensures ParseFrom(Lead(k) + JoinHex(m), k) == m + Zeros(6 - k - |m|)
    decreases |m|
  {
    hide HexByte, NextByte, JoinHex, ParseFrom;
    JoinHexUnfold(m);
    NextByteOfText(m[0], TailText(m), k);
    ParseFromUnfold(Lead(k) + JoinHex(m), k);
    if |m| > 1 {
      ParseOfJoin(m[1..], k + 1);
    } else {
      NothingToRead(k + 1);
    }
    assert m + Zeros(6 - k - |m|) == [m[0]] + (m[1..] + Zeros(6 - k - |m|));
  }

  /** Text that ends early gives the bytes it holds, and zeros for the rest. */
  lemma ShortTextPadded(mac: Mac, n: nat)
    requires 0 < n <= 6
    ensures StringToMac(JoinHex(mac[..n])) == mac[..n] + Zeros(6 - n)
  {
    ParseOfJoin(mac[..n], 0);
    assert "" + JoinHex(mac[..n]) == JoinHex(mac[..n]);
  }

  /** Parsing the text of an address yields the address, for every address. */
  lemma StringToMacOfMacToString(mac: Mac)
    ensures StringToMac(MacToString(mac)) == mac
  {
    ParseOfJoin(mac, 0);
    assert "" + JoinHex(mac) == JoinHex(mac);
    assert mac + Zeros(0) == mac;
  }

  lemma MacToStringInjective(a: Mac, b: Mac)
    requires MacToString(a) == MacToString(b)
    ensures a == b
  {
    StringToMacOfMacToString(a);
    StringToMacOfMacToString(b);
  }

  ghost predicate IsMacText(t: string) {
    exists m: Mac :: t == MacToString(m)
  }

  // ----- what else is accepted

  lemma ReadOne(c: char, rest: string)
    requires IsHex(c) && (rest == "" || !IsHex(rest[0]))
    ensures ReadDigits([c] + rest, 0) == (HexValue(c), rest)
  {
    assert ([c] + rest)[1..] == rest;
    assert ReadDigits(rest, 16 * 0 + HexValue(c)) == (HexValue(c), rest);
  }

  lemma ReadTwo(c: char, d: char, rest: string)
    requires IsHex(c) && IsHex(d) && (rest == "" || !IsHex(rest[0]))
    ensures ReadDigits([c, d] + rest, 0) == (16 * HexValue(c) + HexValue(d), rest)
  {
    var s := [c, d] + rest;
    assert s[1..] == [d] + rest && s[1..][1..] == rest;
    assert ReadDigits(rest, 16 * HexValue(c) + HexValue(d)) == (16 * HexValue(c) + HexValue(d), rest);
    assert ReadDigits(s[1..], HexValue(c)) == ReadDigits(rest, 16 * HexValue(c) + HexValue(d));
  }

  /** Upper-case digits and spaces before them are read. */
  lemma ReadIntLenient()
    ensures ReadInt("aB:") == Some((0xab, ":")) && ReadInt(" \tF") == Some((15, ""))
  {
    ReadTwo('a', 'B', ":");
    ReadOne('F', "");
    assert "aB:" == ['a', 'B'] + ":";
    assert SkipSpaces(" \tF") == SkipSpaces("\tF") == "F" == ['F'] + "" by {
      assert " \tF"[1..] == "\tF" && "\tF"[1..] == "F";
    }
  }

  /** A sign and a 0x are read. */
  lemma ReadIntPrefixed()
    ensures ReadInt("-1") == Some((-1, "")) && ReadInt("+2g") == Some((2, "g")) && ReadInt("0X1f") == Some((0x1f, ""))
  {
    ReadTwo('1', 'f', "");
    ReadOne('1', "");
    ReadOne('2', "g");
    assert "0X1f"[2..] == ['1', 'f'] + "";
    assert "-1"[1..] == ['1'] + "" && "+2g"[1..] == ['2'] + "g";
    hide ReadDigits;
  }

  /** Text without a digit is refused. */
  lemma ReadIntRefuses()
    ensures ReadInt("") == None && ReadInt("-") == None && ReadInt(":1") == None && ReadInt("0x") == None
  {
    hide ReadDigits;
  }

  function ZeroText(k: nat): (s: string)
    ensures |s| == k
  {
    seq(k, _ => '0')
  }

  /** The value `n` with `k` hexadecimal zeros behind it. */
  function WithZeros(n: int, k: nat): int
    decreases k
  {
    if k == 0 then n else WithZeros(16 * n, k - 1)
  }

  lemma {:induction false} ZerosRead(k: nat, n: int)
    ensures ReadDigits(ZeroText(k), n) == (WithZeros(n, k), "")
    decreases k
  {
    if k > 0 {
      assert ZeroText(k)[1..] == ZeroText(k - 1);
      ZerosRead(k - 1, 16 * n);
    }
  }

  lemma SevenZeros(n: int)
    ensures WithZeros(n, 7) == 0x1000_0000 * n
  {
    assert WithZeros(n, 7) == WithZeros(16 * n, 6) == WithZeros(256 * n, 5) == WithZeros(4096 * n, 4);
    assert WithZeros(4096 * n, 4) == WithZeros(0x1_0000 * n, 3) == WithZeros(0x10_0000 * n, 2);
    assert WithZeros(0x10_0000 * n, 2) == WithZeros(0x100_0000 * n, 1) == WithZeros(0x1000_0000 * n, 0);
  }

  /** The extraction of a sign, one digit and seven zeros. */
  lemma ReadEight(c: char, negative: bool)
    requires '1' <= c <= '9'
    ensures var value := 0x1000_0000 * HexValue(c);
            ReadInt((if negative then "-" else "") + ([c] + ZeroText(7)))
            == if value > (if negative then 0x8000_0000 else 0x7fff_ffff) then None
               else Some((if negative then -value else value, ""))
  {
    var digits := [c] + ZeroText(7);
    var s := (if negative then "-" else "") + digits;
    assert SkipSpaces(s) == s;
    assert negative ==> s[1..] == digits;
    assert !negative ==> s == digits;
    assert digits[1..] == ZeroText(7);
    hide WithZeros, ZeroText;
    ZerosRead(7, HexValue(c));
    SevenZeros(HexValue(c));
    assert ReadDigits(digits, 0) == ReadDigits(digits[1..], HexValue(c));
  }

  // ----- order

  /** The order in which std::map and std::set keep strings. */
  predicate TextBefore(s: string, t: string) {
    t != "" && (s == "" || s[0] < t[0] || (s[0] == t[0] && TextBefore(s[1..], t[1..])))
  }

  lemma HexDigitMonotone(m: nat, n: nat)
    requires m < 16 && n < 16
    ensures HexDigit(m) < HexDigit(n) <==> m < n
  {
  }

  lemma ByteOrder(a: byte, b: byte)
    ensures a < b <==> ToNat(a) < ToNat(b)
    ensures a == b <==> ToNat(a) == ToNat(b)
  {
    NatRoundTrip(a);
    NatRoundTrip(b);
  }

  lemma DigitsOrder(m: nat, n: nat)
    ensures m < n <==> m / 16 < n / 16 || (m / 16 == n / 16 && m % 16 < n % 16)
  {
  }

  lemma TwoLetters(p: char, q: char, s: string, u: char, v: char, t: string)
    ensures TextBefore([p, q] + s, [u, v] + t) <==> p < u || (p == u && (q < v || (q == v && TextBefore(s, t))))
  {
    var x, y := [p, q] + s, [u, v] + t;
    assert x[1..] == [q] + s && y[1..] == [v] + t;
    assert x[1..][1..] == s && y[1..][1..] == t;
  }

  lemma HexDigitDistinct(m: nat, n: nat)
    requires m < 16 && n < 16
    ensures HexDigit(m) == HexDigit(n) <==> m == n
  {
  }

  lemma HexByteOrder(a: byte, b: byte, s: string, t: string)
    ensures TextBefore(HexByte(a) + s, HexByte(b) + t) <==> a < b || (a == b && TextBefore(s, t))
  {
    hide HexDigit, ToNat, TextBefore;
    var m, n := ToNat(a), ToNat(b);
    TwoLetters(HexDigit(m / 16), HexDigit(m % 16), s, HexDigit(n / 16), HexDigit(n % 16), t);
    ByteOrder(a, b);
    DigitsOrder(m, n);
    HexDigitMonotone(m / 16, n / 16);
    HexDigitMonotone(n / 16, m / 16);
    HexDigitMonotone(m % 16, n % 16);
    HexDigitMonotone(n % 16, m % 16);
    HexDigitDistinct(m / 16, n / 16);
    HexDigitDistinct(m % 16, n % 16);
  }

  lemma BytesBeforeUnfold(a: seq<byte>, b: seq<byte>)
    requires |a| == |b| && a != []
    ensures BytesBefore(a, b) <==> a[0] < b[0] || (a[0] == b[0] && BytesBefore(a[1..], b[1..]))
  {
  }

  lemma NoBytesBefore()
    ensures forall a: seq<byte>, b: seq<byte> :: |a| == |b| == 0 ==> !BytesBefore(a, b)
  {
  }

  lemma NothingBefore()
    ensures !TextBefore("", "")
  {
  }

  lemma SeparatorSkip(s: string, t: string)
    ensures TextBefore(":" + s, ":" + t) <==> TextBefore(s, t)
  {
    assert (":" + s)[1..] == s && (":" + t)[1..] == t;
  }

  lemma {:induction false} JoinHexOrder(a: seq<byte>, b: seq<byte>)
    requires |a| == |b|
    ensures TextBefore(JoinHex(a), JoinHex(b)) <==> BytesBefore(a, b)
  {
    if |a| == 0 {
      return;
    }
    hide HexByte, TextBefore, JoinHex, BytesBefore;
    JoinHexUnfold(a);
    JoinHexUnfold(b);
    BytesBeforeUnfold(a, b);
    HexByteOrder(a[0], b[0], TailText(a), TailText(b));
    if |a| == 1 {
      NothingBefore();
      NoBytesBefore();
    } else {
      SeparatorSkip(JoinHex(a[1..]), JoinHex(b[1..]));
      JoinHexOrder(a[1..], b[1..]);
    }
  }

  /** Text order is byte order. */
  lemma MacTextOrder(a: Mac, b: Mac)
    ensures TextBefore(MacToString(a), MacToString(b)) <==> BytesBefore(a, b)
  {
    JoinHexOrder(a, b);
  }
}
