/** Route advertisements: the known neighbours packed into a payload, and unpacked into routes. */
module Adverts {
  import opened Bytes
  import opened Packets
  import opened MacText
  import opened Routing

  const RECORD_BYTES: nat := 7

  // ----- the order in which a set of strings is visited

  ghost predicate IsLeast(t: string, s: set<string>) {
    t in s && forall u :: u in s && u != t ==> TextBefore(t, u)
  }

  lemma TextBeforeTransitive(a: string, b: string, c: string)
    requires TextBefore(a, b) && TextBefore(b, c)
    ensures TextBefore(a, c)
    decreases |a|
  {
    if a != "" && a[0] == b[0] == c[0] {
      TextBeforeTransitive(a[1..], b[1..], c[1..]);
    }
  }

  lemma {:induction false} TextBeforeTotal(a: string, b: string)
    ensures a == b || TextBefore(a, b) || TextBefore(b, a)
    ensures !(TextBefore(a, b) && TextBefore(b, a)) && !TextBefore(a, a)
    decreases |a|
  {
    if a != "" && b != "" && a[0] == b[0] {
      TextBeforeTotal(a[1..], b[1..]);
      assert a == [a[0]] + a[1..] && b == [b[0]] + b[1..];
    }
    if a != "" {
      TextBeforeTotal(a[1..], a[1..]);
    }
  }

  lemma {:induction false} LeastExists(s: set<string>)
    requires s != {}
    ensures exists t :: IsLeast(t, s)
    decreases s
  {
    var t :| t in s;
    var rest := s - {t};
    if rest == {} {
      assert s == {t};
      assert IsLeast(t, s);
    } else {
      LeastExists(rest);
      var m :| IsLeast(m, rest);
      TextBeforeTotal(t, m);
      if TextBefore(t, m) {
        forall u | u in s && u != t
          ensures TextBefore(t, u)
        {
          if u != m {
            TextBeforeTransitive(t, m, u);
          }
        }
        assert IsLeast(t, s);
      } else {
        assert IsLeast(m, s);
      }
    }
  }

  lemma LeastUnique(t: string, u: string, s: set<string>)
    requires IsLeast(t, s) && IsLeast(u, s)
    ensures t == u
  {
    TextBeforeTotal(t, u);
  }

  /** The elements of `s` in the order of std::set. */
  ghost function Sorted(s: set<string>): seq<string>
    decreases s
  {
    if s == {} then []
    else
      LeastExists(s);
      var t :| IsLeast(t, s);
      [t] + Sorted(s - {t})
  }

  lemma {:induction false} SortedElements(s: set<string>)
    ensures |Sorted(s)| == |s|
    ensures forall t :: t in Sorted(s) <==> t in s
    decreases s
  {
    if s != {} {
      var t := Sorted(s)[0];
      LeastExists(s);
      assert t in s;
      SortedElements(s - {t});
      assert Sorted(s) == [t] + Sorted(s - {t});
    }
  }

  lemma {:induction false} SortedInOrder(s: set<string>, i: nat, j: nat)
    requires i < j < |Sorted(s)|
    ensures TextBefore(Sorted(s)[i], Sorted(s)[j])
    decreases s
  {
    LeastExists(s);
    var t := Sorted(s)[0];
    assert Sorted(s) == [t] + Sorted(s - {t});
    if i == 0 {
      SortedElements(s - {t});
      assert Sorted(s)[j] in Sorted(s - {t});
    } else {
      SortedInOrder(s - {t}, i - 1, j - 1);
    }
  }

  /** The addresses of a set of neighbour texts, in the order of the set. */
  ghost function Addresses(texts: seq<string>): seq<Mac> {
    seq(|texts|, i requires 0 <= i < |texts| => StringToMac(texts[i]))
  }

  lemma AddressOfText(t: string)
    requires IsMacText(t)
    ensures MacToString(StringToMac(t)) == t
  {
    hide MacToString, StringToMac;
    var m: Mac :| t == MacToString(m);
    StringToMacOfMacToString(m);
  }

  /** A set of neighbour texts is visited in increasing order of the addresses. */
  lemma AddressesInOrder(known: set<string>, i: nat, j: nat)
    requires forall t :: t in known ==> IsMacText(t)
    requires i < j < |known|
    ensures |Addresses(Sorted(known))| == |known|
    ensures BytesBefore(Addresses(Sorted(known))[i], Addresses(Sorted(known))[j])
  {
    hide MacToString, StringToMac, Sorted, IsMacText, TextBefore, BytesBefore;
    var texts := Sorted(known);
    SortedElements(known);
    SortedInOrder(known, i, j);
    assert texts[i] in known && texts[j] in known;
    AddressOfText(texts[i]);
    AddressOfText(texts[j]);
    MacTextOrder(StringToMac(texts[i]), StringToMac(texts[j]));
  }

  // ----- packing

  /** One record: an address at one hop. */
  function Record(mac: Mac): seq<byte> {
    mac + [1]
  }

  function Records(macs: seq<Mac>): (s: seq<byte>)
    ensures |s| == RECORD_BYTES * |macs|
  {
    if macs == [] then [] else Records(macs[..|macs| - 1]) + Record(macs[|macs| - 1])
  }

  /** The number of records that fit behind the count byte. */
  function Capacity(maxSize: nat): nat {
    if maxSize == 0 then 0 else (maxSize - 1) / RECORD_BYTES
  }

  function Take(macs: seq<Mac>, n: nat): seq<Mac> {
    if |macs| <= n then macs else macs[..n]
  }

  /** The advert of `macs` in a payload of `maxSize` bytes. */
  function Pack(macs: seq<Mac>, maxSize: nat): seq<byte> {
    var fit := Take(macs, Capacity(maxSize));
    [ToByte(|fit| % 0x100)] + Records(fit)
  }

  /** Writes one record. */
  method PutRecord(text: string, payload: array<byte>, offset: nat)
    requires offset + RECORD_BYTES <= payload.Length
    modifies payload
    ensures payload[..] == Splice(old(payload[..]), offset, Record(StringToMac(text)))
  {
    hide StringToMac;
    var mac := new byte[6];
    ParseMac(text, mac);
    CopyInto(mac[..], payload, offset);
    payload[offset + 6] := 1;
  }

  lemma NoRecords(all: seq<Mac>)
    ensures Records(all[..0]) == [] && all[0..] == all
  {
  }

  lemma NextSorted(s: set<string>, t: string)
    requires IsLeast(t, s)
    ensures Sorted(s) == [t] + Sorted(s - {t})
    ensures Addresses(Sorted(s)) == [StringToMac(t)] + Addresses(Sorted(s - {t}))
  {
    LeastUnique(t, Sorted(s)[0], s);
  }

  lemma NextRecord(all: seq<Mac>, n: nat, mac: Mac, others: seq<Mac>)
    requires n <= |all| && all[n..] == [mac] + others
    ensures n < |all| && all[n + 1..] == others && Records(all[..n + 1]) == Records(all[..n]) + Record(mac)
  {
    assert all[n..][1..] == all[n + 1..] && all[n..][0] == all[n];
    assert all[..n + 1][..n] == all[..n];
  }

  lemma SpliceRecord(s: seq<byte>, at: nat, w: seq<byte>)
    requires 1 <= at && at + |w| <= |s|
    ensures Splice(s, at, w)[1..at + |w|] == s[1..at] + w
  {
  }

  lemma NoneLeft(rest: set<string>, all: seq<Mac>, n: nat)
    requires n <= |all| && all[n..] == Addresses(Sorted(rest))
    ensures rest == {} ==> n == |all|
    ensures rest != {} ==> n < |all|
  {
    SortedElements(rest);
  }

  method PackRoutes(neighbors: set<string>, payload: array<byte>, maxSize: nat) returns (offset: nat)
    requires 1 <= payload.Length && maxSize <= payload.Length
    modifies payload
    ensures offset <= payload.Length
    ensures payload[..offset] == Pack(Addresses(Sorted(neighbors)), maxSize)
  {
    hide StringToMac, ToByte, Records, Record, Addresses, Splice, Sorted, TextBefore;
    offset := 1;
    var count := 0;
    var rest := neighbors;
    ghost var all := Addresses(Sorted(neighbors));
    ghost var n: nat := 0;
    NoRecords(all);
    while rest != {}
      invariant rest <= neighbors
      invariant offset == 1 + RECORD_BYTES * n <= payload.Length && count == n % 0x100
      invariant n <= Capacity(maxSize) && n <= |all| && all[n..] == Addresses(Sorted(rest))
      invariant payload[1..offset] == Records(all[..n])
      decreases rest
    {
      if offset + RECORD_BYTES > maxSize {
        break;
      }
      LeastExists(rest);
      var text :| text in rest && forall u :: u in rest && u != text ==> TextBefore(text, u);
      NextSorted(rest, text);
      NextRecord(all, n, StringToMac(text), Addresses(Sorted(rest - {text})));
      SpliceRecord(payload[..], offset, Record(StringToMac(text)));
      ghost var before := payload[..];
      PutRecord(text, payload, offset);
      assert payload[1..offset + 7] == payload[..][1..offset + 7] && before[1..offset] == Records(all[..n]);
      offset := offset + RECORD_BYTES;
      count := (count + 1) % 0x100;
      n := n + 1;
      rest := rest - {text};
    }
    NoneLeft(rest, all, n);
    assert all[..n] == Take(all, Capacity(maxSize));
    payload[0] := ToByte(count);
    assert payload[..offset] == [payload[0]] + payload[1..offset];
  }

  // ----- unpacking

  /** The number of records read from an advert. */
  function RecordCount(advert: seq<byte>): nat {
    if advert == [] then 0
    else if ToNat(advert[0]) <= Capacity(|advert|) then ToNat(advert[0]) else Capacity(|advert|)
  }

  /** Record `i` as a route through the sender, one hop longer than advertised. */
  function OfferAt(advert: seq<byte>, i: nat, via: Mac, time: u64): Offer
    requires i < Capacity(|advert|)
  {
    var at := 1 + RECORD_BYTES * i;
    Offer(advert[at..at + 6], via, (ToNat(advert[at + 6]) + 1) % 0x100, time)
  }

  function Offers(advert: seq<byte>, via: Mac, time: u64): seq<Offer> {
    seq(RecordCount(advert), i requires 0 <= i < RecordCount(advert) => OfferAt(advert, i, via, time))
  }

  lemma NoOffers(table: Routes)
    ensures AddAll(table, []) == table
  {
  }

  lemma NextOffer(table: Routes, all: seq<Offer>, i: nat)
    requires i < |all|
    ensures AddAll(table, all[..i + 1]) == AddRoute(AddAll(table, all[..i]), all[i])
  {
    hide AddRoute;
    assert all[..i + 1][..i] == all[..i];
  }

  method UnpackRoutes(advert: seq<byte>, via: Mac, routes: RoutingTable, now: u64)
    modifies routes
    ensures routes.table == AddAll(old(routes.table), Offers(advert, via, now))
  {
    hide ToNat, AddRoute, AddAll;
    NoOffers(routes.table);
    if |advert| < 1 {
      assert Offers(advert, via, now) == [];
      return;
    }
    var count := ToNat(advert[0]);
    var offset := 1;
    var i := 0;
    ghost var all := Offers(advert, via, now);
    assert all[..0] == [];
    while i < count
      invariant 0 <= i <= |all| && i <= count && offset == 1 + RECORD_BYTES * i
      invariant routes.table == AddAll(old(routes.table), all[..i])
    {
      if offset + RECORD_BYTES > |advert| {
        break;
      }
      var dest: Mac := advert[offset..offset + 6];
      var hops: int := ToNat(advert[offset + 6]);
      assert all[i] == Offer(dest, via, (hops + 1) % 0x100, now);
      routes.Add(dest, via, (hops + 1) % 0x100, now);
      NextOffer(old(routes.table), all, i);
      offset := offset + RECORD_BYTES;
      i := i + 1;
    }
    assert all[..i] == all;
  }

  // ----- round trip

  lemma {:induction false} RecordsAt(macs: seq<Mac>, i: nat)
    requires i < |macs|
    ensures Records(macs)[RECORD_BYTES * i..RECORD_BYTES * i + RECORD_BYTES] == Record(macs[i])
  {
    var n := |macs| - 1;
    var init := macs[..n];
    if i < n {
      RecordsAt(init, i);
      assert Records(macs)[RECORD_BYTES * i..RECORD_BYTES * i + RECORD_BYTES]
          == Records(init)[RECORD_BYTES * i..RECORD_BYTES * i + RECORD_BYTES];
    }
  }

  /** A record at `at` behind the count byte. */
  lemma RecordBehindCount(count: byte, records: seq<byte>, at: nat, mac: Mac)
    requires at + RECORD_BYTES <= |records| && records[at..at + RECORD_BYTES] == Record(mac)
    ensures var advert := [count] + records;
            advert[1 + at..1 + at + 6] == mac && advert[1 + at + 6] == 1
  {
    var advert := [count] + records;
    var record := records[at..at + RECORD_BYTES];
    assert advert[1 + at..1 + at + RECORD_BYTES] == record;
    assert advert[1 + at..1 + at + 6] == record[..6] == mac;
    assert advert[1 + at + 6] == record[6];
  }

  /** An advert that fits: the number of records, then for each an address and one hop. */
  lemma AdvertLayout(macs: seq<Mac>, maxSize: nat, i: nat)
    requires i < |macs| && 7 * |macs| + 1 <= maxSize && |macs| < 256
    ensures var advert := Pack(macs, maxSize);
            && |advert| == 7 * |macs| + 1 && advert[0] == ToByte(|macs|)
            && advert[1 + 7 * i..7 + 7 * i] == macs[i] && advert[7 + 7 * i] == 1
  {
    hide ToByte, Records;
    RecordsAt(macs, i);
    RecordBehindCount(ToByte(|macs|), Records(macs), RECORD_BYTES * i, macs[i]);
    assert Take(macs, Capacity(maxSize)) == macs;
  }

  /** From a truncated advert only the complete records are read, and none beyond its count. */
  lemma OffersComplete(advert: seq<byte>, via: Mac, time: u64)
    requires advert != []
    ensures |Offers(advert, via, time)|
         == if ToNat(advert[0]) <= (|advert| - 1) / 7 then ToNat(advert[0]) else (|advert| - 1) / 7
  {
    hide ToNat;
  }

  lemma OneIsOne()
    ensures ToNat(1) == 1
  {
  }

  /** Unpacking an advert gives, in order, a 2-hop route through the sender to each address that fitted. */
  lemma OffersOfPack(macs: seq<Mac>, maxSize: nat, via: Mac, time: u64)
    requires 1 <= maxSize && Capacity(maxSize) < 0x100
    ensures var fit := Take(macs, Capacity(maxSize));
            Offers(Pack(macs, maxSize), via, time)
            == seq(|fit|, i requires 0 <= i < |fit| => Offer(fit[i], via, 2, time))
  {
    hide ToNat, ToByte;
    var fit := Take(macs, Capacity(maxSize));
    var advert := Pack(macs, maxSize);
    hide Records;
    ByteRoundTrip(|fit|);
    OneIsOne();
    assert Capacity(|advert|) == |fit|;
    forall i | 0 <= i < |fit|
      ensures OfferAt(advert, i, via, time) == Offer(fit[i], via, 2, time)
    {
      RecordsAt(fit, i);
      RecordBehindCount(advert[0], Records(fit), RECORD_BYTES * i, fit[i]);
    }
  }

  /**
   What a node learns from the advert of a set of neighbours: for the first 73 of them in address
   order, and for no one else, a 2-hop route through the sender.
   */
  lemma AdvertRoundTrip(neighbors: set<string>, via: Mac, time: u64)
    requires forall t :: t in neighbors ==> IsMacText(t)
    ensures var texts := Sorted(neighbors);
            var offers := Offers(Pack(Addresses(texts), 512), via, time);
            && |offers| == (if |neighbors| <= 73 then |neighbors| else 73)
            && forall i :: 0 <= i < |offers| ==>
                 MacToString(offers[i].dest) == texts[i] && offers[i] == Offer(offers[i].dest, via, 2, time)
  {
    hide MacToString, StringToMac, Pack, Offers, Sorted;
    var texts := Sorted(neighbors);
    OffersOfPack(Addresses(texts), 512, via, time);
    SortedElements(neighbors);
    forall i | 0 <= i < |texts|
      ensures MacToString(Addresses(texts)[i]) == texts[i]
    {
      assert texts[i] in neighbors;
      AddressOfText(texts[i]);
    }
  }
}
