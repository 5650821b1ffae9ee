/**
 The fast table against the simple one. The fast table masks host bits and lets the
 latest of equal routes win; the simple one compares whole addresses and lets the
 earliest win. This is when they give the same answer.
 */
module TableRefinement {
  import opened Bits
  import opened Routes
  import opened RoutingTables
  import opened DummyTables

  /** Prefixes from 1 to 32, where neither table relies on undefined shifts. */
  predicate Proper(routes: seq<Route>) {
    forall i :: 0 <= i < |routes| ==> routes[i].prefix >= 1
  }

  function EntryOf(r: Route): Entry {
    Entry(r.addr, r.prefix, r.nextHop)
  }

  function EntriesOf(routes: seq<Route>): (es: seq<Entry>)
    ensures |es| == |routes|
    ensures forall i :: 0 <= i < |es| ==> es[i] == EntryOf(routes[i])
  {
    seq(|routes|, i requires 0 <= i < |routes| => EntryOf(routes[i]))
  }

  predicate HostBitsZero(r: Route) {
    r.addr % Pow2(32 - r.prefix) == 0
  }

  /** The two tables select the same route for ip, or both none. */
  ghost predicate SelectSame(routes: seq<Route>, ip: Word32, undef: Byte -> Word32) {
    match Best(routes, |routes|, ip)
    case None => forall i :: 0 <= i < |routes| ==> !Matches(EntriesOf(routes)[i], ip, undef)
    case Some(i) => FirstMatch(EntriesOf(routes), ip, undef, i)
  }

  /** The exact condition, address by address: the latest longest match has zero host
      bits and every other longest match has not. */
  lemma SelectSameExactly(routes: seq<Route>, ip: Word32, undef: Byte -> Word32)
    requires Proper(routes)
    ensures SelectSame(routes, ip, undef) <==>
            forall i: nat :: LatestLongestMatch(routes, ip, i) ==>
              && HostBitsZero(routes[i])
              && forall j :: 0 <= j < i && Covers(routes[j], ip) && routes[j].prefix == routes[i].prefix ==>
                   !HostBitsZero(routes[j])
  {
    BestIsLongestMatch(routes, |routes|, ip);
    assert routes[..|routes|] == routes;
    MatchesAll(routes, ip, undef);
    hide Covers, Matches, Best, HostBitsZero;
    var best := Best(routes, |routes|, ip);
    if best.Some? {
      var i := best.value;
      if SelectSame(routes, ip, undef) {
        forall j | 0 <= j < i && Covers(routes[j], ip) && routes[j].prefix == routes[i].prefix
          ensures !HostBitsZero(routes[j])
        {
          assert !Precedes(EntriesOf(routes), i, j);
        }
      }
    }
  }

  lemma MatchesAll(routes: seq<Route>, ip: Word32, undef: Byte -> Word32)
    requires Proper(routes)
    ensures forall i :: 0 <= i < |routes| ==>
              (Matches(EntriesOf(routes)[i], ip, undef) <==> Covers(routes[i], ip) && HostBitsZero(routes[i]))
  {
    forall i | 0 <= i < |routes|
      ensures Matches(EntriesOf(routes)[i], ip, undef) <==> Covers(routes[i], ip) && HostBitsZero(routes[i])
    {
      MatchesIsCovers(EntriesOf(routes)[i], ip, undef);
    }
  }

  /** On routes with zero host bits and no network named twice, the tables agree everywhere. */
  lemma TablesAgree(routes: seq<Route>, ip: Word32, undef: Byte -> Word32)
    requires Proper(routes) && NoRepeatedNetwork(routes)
    requires forall i :: 0 <= i < |routes| ==> HostBitsZero(routes[i])
    ensures SelectSame(routes, ip, undef)
  {
    SelectSameExactly(routes, ip, undef);
    forall i: nat | LatestLongestMatch(routes, ip, i)
      ensures forall j :: 0 <= j < i && Covers(routes[j], ip) ==> routes[j].prefix != routes[i].prefix
    {
      NoOtherOfLength(routes, i, ip);
    }
  }

  lemma NoOtherOfLength(routes: seq<Route>, i: nat, ip: Word32)
    requires NoRepeatedNetwork(routes) && i < |routes| && Covers(routes[i], ip)
    ensures forall j :: 0 <= j < |routes| && j != i && Covers(routes[j], ip) ==> routes[j].prefix != routes[i].prefix
  {
  }

  /** Route i is the longest match among the routes with zero host bits, the earliest added
      among those. */
  ghost predicate EarliestWithoutHostBits(routes: seq<Route>, ip: Word32, i: nat) {
    && i < |routes|
    && HostBitsZero(routes[i]) && Covers(routes[i], ip)
    && (forall j :: 0 <= j < |routes| && HostBitsZero(routes[j]) && Covers(routes[j], ip) ==>
          routes[j].prefix < routes[i].prefix || (routes[j].prefix == routes[i].prefix && i <= j))
  }

  /** What the simple table selects, said of the routes alone: a route with host bits set is as
      good as absent. Without such routes it selects the earliest longest match. */
  lemma FirstMatchExactly(routes: seq<Route>, ip: Word32, undef: Byte -> Word32, i: nat)
    requires Proper(routes)
    ensures FirstMatch(EntriesOf(routes), ip, undef, i) <==> EarliestWithoutHostBits(routes, ip, i)
    ensures (forall j :: 0 <= j < |routes| ==> HostBitsZero(routes[j])) ==>
              (FirstMatch(EntriesOf(routes), ip, undef, i) <==> EarliestLongestMatch(routes, ip, i))
  {
    MatchesAll(routes, ip, undef);
    hide Matches, Covers, HostBitsZero;
    if FirstMatch(EntriesOf(routes), ip, undef, i) {
      forall j | 0 <= j < |routes| && HostBitsZero(routes[j]) && Covers(routes[j], ip)
        ensures routes[j].prefix < routes[i].prefix || (routes[j].prefix == routes[i].prefix && i <= j)
      {
        assert j != i ==> Precedes(EntriesOf(routes), i, j);
      }
    }
  }

  /** Neither table finds a route, or those found lead to the same next hop. */
  ghost predicate SameHop(routes: seq<Route>, ip: Word32) {
    || NoMatch(routes, ip)
    || exists i: nat, j: nat :: LatestLongestMatch(routes, ip, i) && EarliestWithoutHostBits(routes, ip, j)
                                && routes[i].nextHop == routes[j].nextHop
  }

  function HopOf(e: Option<Entry>): Option<NextHop> {
    match e case None => None case Some(ent) => Some(ent.nextHop)
  }

  ghost predicate Found(added: seq<Entry>, ip: Word32, undef: Byte -> Word32, e: Option<Entry>) {
    match e
    case None => forall i :: 0 <= i < |added| ==> !Matches(added[i], ip, undef)
    case Some(ent) => exists i: nat :: FirstMatch(added, ip, undef, i) && ent == added[i]
  }

  lemma SameHopExactly(routes: seq<Route>, ip: Word32, undef: Byte -> Word32, slow: Option<Entry>)
    requires Proper(routes) && Found(EntriesOf(routes), ip, undef, slow)
    ensures BestHop(routes, ip) == HopOf(slow) <==> SameHop(routes, ip)
    ensures SelectSame(routes, ip, undef) ==> SameHop(routes, ip)
  {
    BestIsLongestMatch(routes, |routes|, ip);
    assert routes[..|routes|] == routes;
    MatchesAll(routes, ip, undef);
    forall i: nat ensures FirstMatch(EntriesOf(routes), ip, undef, i) <==> EarliestWithoutHostBits(routes, ip, i) {
      FirstMatchExactly(routes, ip, undef, i);
    }
    hide Matches, Covers, HostBitsZero, Best;
    var best := Best(routes, |routes|, ip);
    if slow.Some? {
      var j: nat :| FirstMatch(EntriesOf(routes), ip, undef, j) && slow.value == EntriesOf(routes)[j];
      assert Covers(routes[j], ip);
      assert forall k: nat :: EarliestWithoutHostBits(routes, ip, k) ==> k == j;
    } else {
      assert forall k: nat :: !EarliestWithoutHostBits(routes, ip, k);
    }
  }

  method LoadBothTables(routes: seq<Route>) returns (table: RoutingTable, dummy: DummyTable)
    requires |routes| <= 255
    ensures table.Valid() && table.history == History(None, routes)
    ensures dummy.Valid() && dummy.added == EntriesOf(routes)
    ensures fresh(table) && fresh(table.tbl24) && fresh(table.tblLong) && fresh(table.info)
    ensures fresh(dummy) && fresh(dummy.rtEnts) && fresh(dummy.rtEnts.list)
  {
    hide RoutingTable.Valid, DummyTable.Valid;
    table := new RoutingTable();
    dummy := new DummyTable();
    for k := 0 to |routes|
      invariant fresh(table) && fresh(table.tbl24) && fresh(table.tblLong) && fresh(table.info)
      invariant fresh(dummy) && fresh(dummy.rtEnts) && fresh(dummy.rtEnts.list)
      invariant table.Valid() && table.history == History(None, routes[..k])
      invariant dummy.Valid() && dummy.added == EntriesOf(routes)[..k]
    {
      var ok := table.AddRoute(routes[k].addr, routes[k].prefix, routes[k].nextHop);
      ok := dummy.AddRoute(routes[k].addr, routes[k].prefix, routes[k].nextHop);
    }
  }

  /** Both programs, run on the same routes: they answer alike exactly where the latest longest
      match and the earliest one without host bits have the same next hop. */
  method RunBothTables(routes: seq<Route>, ip: Word32, shift32: Word32 -> Word32, undef: Byte -> Word32)
    returns (fast: Option<NextHop>, slow: Option<Entry>)
    requires Proper(routes) && |routes| <= 255
    ensures fast == BestHop(routes, ip) && Found(EntriesOf(routes), ip, undef, slow)
    ensures fast == HopOf(slow) <==> SameHop(routes, ip)
    ensures SelectSame(routes, ip, undef) ==> fast == HopOf(slow)
  {
    hide Best, Matches, RoutingTable.Valid, DummyTable.Valid, FirstMatch, SameHop, SelectSame, HopOf, Answer, BestHop;
    var table, dummy := LoadBothTables(routes);
    var ok := table.Build(shift32);
    NothingAtZero(routes, shift32);
    BuiltAnswer(routes, ip);
    fast := table.GetNextHop(ip);
    slow := dummy.GetNextHop(ip, undef);
    SameHopExactly(routes, ip, undef, slow);
  }

  lemma BuiltAnswer(routes: seq<Route>, ip: Word32)
    ensures Answer(History(Some(routes), []), ip) == BestHop(routes, ip)
  {
  }

  /** Without prefix 0 the undefined shift plays no part. */
  lemma NothingAtZero(routes: seq<Route>, shift32: Word32 -> Word32)
    requires Proper(routes)
    ensures InBounds(routes, shift32)
  {
  }

  /** Host bits matter: 10.0.0.1/8 is found by the fast table and never by the simple one. */
  lemma HostBitsSeparateTables(mac: Mac, undef: Byte -> Word32)
    ensures var routes := [Route(0x0A00_0001, 8, NextHop(mac, 1))];
            Best(routes, 1, 0x0A00_0001) == Some(0) && !SelectSame(routes, 0x0A00_0001, undef)
  {
    var r := Route(0x0A00_0001, 8, NextHop(mac, 1));
    Pow2Values();
    MatchesIsCovers(EntryOf(r), 0x0A00_0001, undef);
    assert Covers(r, 0x0A00_0001);
    assert Best([r], 1, 0x0A00_0001) == Some(0);
    assert EntriesOf([r])[0] == EntryOf(r);
    hide Matches;
  }

  /** So do repeated networks: the fast table takes the later, the simple one the earlier. */
  lemma RepeatsSeparateTables(mac: Mac, undef: Byte -> Word32)
    ensures var routes := [Route(0, 8, NextHop(mac, 1)), Route(0, 8, NextHop(mac, 2))];
            Best(routes, 2, 0) == Some(1) && FirstMatch(EntriesOf(routes), 0, undef, 0)
  {
    var r, s := Route(0, 8, NextHop(mac, 1)), Route(0, 8, NextHop(mac, 2));
    assert Covers(r, 0) && Covers(s, 0);
    assert Best([r, s], 1, 0) == Some(0);
    MatchesIsCovers(EntryOf(r), 0, undef);
    hide Matches;
    assert EntriesOf([r, s])[0] == EntryOf(r);
  }
}
