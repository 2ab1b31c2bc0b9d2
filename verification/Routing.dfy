/** The routing table of a node, keyed by the text of the destination. */
module Routing {
  import opened Bytes
  import opened Packets
  import opened MacText

  const STALE_SECONDS: nat := 30

  /** An entry of the table; the source's invalid entries are the ones that are absent here. */
  datatype RouteEntry = RouteEntry(dest: Mac, nextHop: Mac, hops: u8, updated: u64)

  type Routes = map<string, RouteEntry>

  /** A route offered to the table. */
  datatype Offer = Offer(dest: Mac, nextHop: Mac, hops: u8, time: u64)

  function EntryOf(o: Offer): RouteEntry {
    RouteEntry(o.dest, o.nextHop, o.hops, o.time)
  }

  /** A new destination or a strictly shorter route is stored; anything else changes nothing. */
  function AddRoute(table: Routes, o: Offer): Routes {
    var key := MacToString(o.dest);
    if key !in table || o.hops < table[key].hops then table[key := EntryOf(o)] else table
  }

  /** The age test, in the unsigned arithmetic of the clock. */
  predicate IsStale(updated: u64, now: u64) {
    (now - updated) % 0x1_0000_0000_0000_0000 > STALE_SECONDS
  }

  function FindNextHop(table: Routes, dest: Mac, now: u64): Option<RouteEntry> {
    var key := MacToString(dest);
    if key in table && !IsStale(table[key].updated, now) then Some(table[key]) else None
  }

  class RoutingTable {
    var table: Routes

    constructor ()
      ensures table == map[]
    {
      table := map[];
    }

    method Add(dest: Mac, nextHop: Mac, hops: u8, now: u64)
      modifies this
      ensures table == AddRoute(old(table), Offer(dest, nextHop, hops, now))
    {
      var key := PrintMac(dest);
      if key !in table || hops < table[key].hops {
        table := table[key := RouteEntry(dest, nextHop, hops, now)];
      }
    }

    method GetRoute(dest: Mac) returns (route: Option<RouteEntry>)
      ensures route == if MacToString(dest) in table then Some(table[MacToString(dest)]) else None
    {
      var key := PrintMac(dest);
      route := if key in table then Some(table[key]) else None;
    }

    method NextHop(dest: Mac, now: u64) returns (route: Option<RouteEntry>)
      ensures route == FindNextHop(table, dest, now)
    {
      var key := PrintMac(dest);
      if key in table && !IsStale(table[key].updated, now) {
        return Some(table[key]);
      }
      return None;
    }
  }

  // ----- the table against the history of offers

  /** The table after a sequence of offers. */
  function AddAll(table: Routes, offers: seq<Offer>): Routes {
    if offers == [] then table else AddRoute(AddAll(table, offers[..|offers| - 1]), offers[|offers| - 1])
  }

  /** Offer `i` is the earliest of those with the fewest hops ever offered for `dest`. */
  ghost predicate IsBest(offers: seq<Offer>, dest: Mac, i: nat) {
    && i < |offers| && offers[i].dest == dest
    && (forall j :: 0 <= j < |offers| && offers[j].dest == dest ==> offers[i].hops <= offers[j].hops)
    && (forall j :: 0 <= j < i && offers[j].dest == dest ==> offers[i].hops < offers[j].hops)
  }

  ghost predicate Offered(offers: seq<Offer>, dest: Mac) {
    exists i :: 0 <= i < |offers| && offers[i].dest == dest
  }

  lemma BestIsUnique(offers: seq<Offer>, dest: Mac, i: nat, j: nat)
    requires IsBest(offers, dest, i) && IsBest(offers, dest, j)
    ensures i == j
  {
  }

  lemma DistinctKeys(a: Mac, b: Mac)
    requires a != b
    ensures MacToString(a) != MacToString(b)
  {
    if MacToString(a) == MacToString(b) {
      MacToStringInjective(a, b);
    }
  }

  /** The entry for a destination is the best offer made for it; there is none if none was made. */
  lemma {:induction false} TableHoldsBest(offers: seq<Offer>, dest: Mac) returns (i: nat)
    ensures MacToString(dest) in AddAll(map[], offers) <==> Offered(offers, dest)
    ensures Offered(offers, dest) ==>
              IsBest(offers, dest, i) && AddAll(map[], offers)[MacToString(dest)] == EntryOf(offers[i])
    decreases |offers|
  {
    hide MacToString;
    i := 0;
    if offers != [] {
      var n := |offers| - 1;
      var before, o := offers[..n], offers[n];
      i := TableHoldsBest(before, dest);
      assert forall j :: 0 <= j < n ==> before[j] == offers[j];
      if o.dest == dest {
        assert offers[n].dest == dest;
        if !Offered(before, dest) || o.hops < offers[i].hops {
          i := n;
        }
      } else {
        DistinctKeys(o.dest, dest);
        if Offered(before, dest) {
          assert offers[i].dest == dest;
        }
      }
    }
  }

  lemma NoWrap(now: u64, time: u64)
    requires time <= now
    ensures IsStale(time, now) <==> now - time > 30
  {
  }

  /**
   Under a clock that never runs back, the next hop of a destination is its best offer (which
   `BestIsUnique` says is one), and it is found exactly when that is at most 30 seconds old.
   */
  lemma FoundExactlyWhenFresh(offers: seq<Offer>, dest: Mac, now: u64) returns (i: nat)
    requires forall k :: 0 <= k < |offers| ==> offers[k].time <= now
    ensures Offered(offers, dest) ==> IsBest(offers, dest, i)
    ensures FindNextHop(AddAll(map[], offers), dest, now)
         == if Offered(offers, dest) && now - offers[i].time <= 30 then Some(EntryOf(offers[i])) else None
  {
    hide MacToString, AddAll;
    i := TableHoldsBest(offers, dest);
    if Offered(offers, dest) {
      NoWrap(now, offers[i].time);
    }
  }

  // ----- what later offers change

  lemma {:induction false} AddAllConcat(table: Routes, p: seq<Offer>, q: seq<Offer>)
    ensures AddAll(table, p + q) == AddAll(AddAll(table, p), q)
  {
    hide AddRoute;
    if q == [] {
      assert p + q == p;
    } else {
      assert (p + q)[..|p + q| - 1] == p + q[..|q| - 1];
      AddAllConcat(table, p, q[..|q| - 1]);
    }
  }

  /** An entry stays exactly as it is as long as no offer for its destination has fewer hops. */
  lemma {:induction false} EntryStaysIff(table: Routes, offers: seq<Offer>, dest: Mac)
    requires MacToString(dest) in table
    ensures var key := MacToString(dest);
            && key in AddAll(table, offers) && AddAll(table, offers)[key].hops <= table[key].hops
            && (AddAll(table, offers)[key] == table[key]
                <==> forall o :: o in offers && o.dest == dest ==> table[key].hops <= o.hops)
            && (AddAll(table, offers)[key] == table[key] || AddAll(table, offers)[key].hops < table[key].hops)
  {
    hide MacToString;
    if offers != [] {
      var init, o := offers[..|offers| - 1], offers[|offers| - 1];
      EntryStaysIff(table, init, dest);
      assert o in offers && forall x :: x in offers <==> x in init || x == o;
      if o.dest != dest {
        DistinctKeys(o.dest, dest);
      }
    }
  }
}
