/**
 Routes and longest-prefix matching (section 5.2.4.3 of RFC 1812), stated
 without reference to any table. Both routing tables are proved against this.
 */
module Routes {
  import opened Bits

  datatype Option<+T> = None | Some(value: T)

  type Mac = m: seq<Byte> | |m| == 6 witness [0, 0, 0, 0, 0, 0]

  type Prefix = p: nat | p <= 32

  datatype NextHop = NextHop(dstMac: Mac, dstPort: Byte)

  datatype Route = Route(addr: Word32, prefix: Prefix, nextHop: NextHop)

  /** The network part of an address: its first `prefix` bits. */
  function Network(addr: Word32, prefix: Prefix): int {
    addr / Pow2(32 - prefix)
  }

  predicate Covers(r: Route, ip: Word32) {
    Network(ip, r.prefix) == Network(r.addr, r.prefix)
  }

  /** Route i is a longest match for ip, and the latest added among those. */
  ghost predicate LatestLongestMatch(routes: seq<Route>, ip: Word32, i: nat) {
    && i < |routes|
    && Covers(routes[i], ip)
    && (forall j :: 0 <= j < |routes| && Covers(routes[j], ip) ==>
          routes[j].prefix < routes[i].prefix || (routes[j].prefix == routes[i].prefix && j <= i))
  }

  /** Route i is a longest match for ip, and the earliest added among those. */
  ghost predicate EarliestLongestMatch(routes: seq<Route>, ip: Word32, i: nat) {
    && i < |routes|
    && Covers(routes[i], ip)
    && (forall j :: 0 <= j < |routes| && Covers(routes[j], ip) ==>
          routes[j].prefix < routes[i].prefix || (routes[j].prefix == routes[i].prefix && i <= j))
  }

  ghost predicate NoMatch(routes: seq<Route>, ip: Word32) {
    forall j :: 0 <= j < |routes| ==> !Covers(routes[j], ip)
  }

  /** The winner among the first k routes, decided one route at a time: a later
      route takes over when its prefix is at least as long. */
  function Best(routes: seq<Route>, k: nat, ip: Word32): (r: Option<nat>)
    requires k <= |routes|
    ensures r.Some? ==> r.value < k
  {
    if k == 0 then None
    else
      var before := Best(routes, k - 1, ip);
      if Covers(routes[k - 1], ip)
         && (before.None? || routes[before.value].prefix <= routes[k - 1].prefix)
      then Some(k - 1)
      else before
  }

  /** Best computes the latest longest match of the routes seen so far. */
  lemma {:induction false} BestIsLongestMatch(routes: seq<Route>, k: nat, ip: Word32)
    requires k <= |routes|
    ensures Best(routes, k, ip).None? <==> NoMatch(routes[..k], ip)
    ensures forall i: nat :: Best(routes, k, ip) == Some(i) <==> LatestLongestMatch(routes[..k], ip, i)
  {
    hide Covers;
    if k > 0 {
      BestIsLongestMatch(routes, k - 1, ip);
      assert forall j :: 0 <= j < k - 1 ==> routes[..k][j] == routes[..k - 1][j];
      assert routes[..k][k - 1] == routes[k - 1];
    }
  }

  /** The next hop that longest-prefix matching gives for ip. */
  function BestHop(routes: seq<Route>, ip: Word32): Option<NextHop> {
    match Best(routes, |routes|, ip)
    case None => None
    case Some(i) => Some(routes[i].nextHop)
  }

  /** No two routes name the same network with the same prefix length. */
  ghost predicate NoRepeatedNetwork(routes: seq<Route>) {
    forall i, j :: 0 <= i < j < |routes| && routes[i].prefix == routes[j].prefix ==>
      Network(routes[i].addr, routes[i].prefix) != Network(routes[j].addr, routes[j].prefix)
  }

  /** Two matches of equal length name the same network, so they are one route. */
  lemma EqualMatchesCoincide(routes: seq<Route>, i: nat, j: nat, ip: Word32)
    requires NoRepeatedNetwork(routes)
    requires i < |routes| && j < |routes| && routes[i].prefix == routes[j].prefix
    requires Covers(routes[i], ip) && Covers(routes[j], ip)
    ensures i == j
  {
  }

  /** A longest match of one list is as long as any match of a list with the same routes. */
  lemma MatchesNoLonger(routes: seq<Route>, other: seq<Route>, ip: Word32, i: nat, j: nat)
    requires forall x :: x in routes <==> x in other
    requires LatestLongestMatch(routes, ip, i)
    requires j < |other| && Covers(other[j], ip)
    ensures other[j].prefix <= routes[i].prefix
  {
    hide Network;
    assert other[j] in routes;
  }

  /** Whatever order the routes are added in, the next hop of every address is
      the same, provided no network is named twice. */
  lemma OrderIndependence(routes: seq<Route>, other: seq<Route>, ip: Word32)
    requires multiset(routes) == multiset(other)
    requires NoRepeatedNetwork(routes)
    ensures BestHop(routes, ip) == BestHop(other, ip)
  {
    hide Network, Covers;
    SameMembers(routes, other);
    BestIsLongestMatch(routes, |routes|, ip);
    BestIsLongestMatch(other, |other|, ip);
    assert routes[..|routes|] == routes && other[..|other|] == other;
    var b, c := Best(routes, |routes|, ip), Best(other, |other|, ip);
    assert b.Some? ==> c.Some? by {
      if b.Some? {
        assert routes[b.value] in other;
      }
    }
    assert c.Some? ==> b.Some? by {
      if c.Some? {
        assert other[c.value] in routes;
      }
    }
    if b.Some? {
      MatchesNoLonger(routes, other, ip, b.value, c.value);
      MatchesNoLonger(other, routes, ip, c.value, b.value);
      assert other[c.value] in routes;
      var i :| 0 <= i < |routes| && routes[i] == other[c.value];
      EqualMatchesCoincide(routes, i, b.value, ip);
    }
  }

  lemma SameMembers<T>(a: seq<T>, b: seq<T>)
    requires multiset(a) == multiset(b)
    ensures forall x :: x in a <==> x in b
  {
    forall x ensures x in a <==> x in b {
      assert x in a <==> x in multiset(a);
      assert x in b <==> x in multiset(b);
    }
  }

  /** The proviso is needed: with the same network named twice, the later of
      the two wins, so swapping them changes the answer. */
  lemma OrderMattersForRepeats()
    ensures exists routes: seq<Route>, other: seq<Route>, ip ::
              multiset(routes) == multiset(other) && BestHop(routes, ip) != BestHop(other, ip)
  {
    var mac: Mac := [0, 0, 0, 0, 0, 0];
    var r, s := Route(0, 8, NextHop(mac, 1)), Route(0, 8, NextHop(mac, 2));
    var ip: Word32 := 0;
    assert Covers(r, ip) && Covers(s, ip);
    assert Best([r, s], 2, ip) == Some(1) && Best([s, r], 2, ip) == Some(1);
    assert multiset([r, s]) == multiset([s, r]);
    assert BestHop([r, s], ip) != BestHop([s, r], ip);
  }
}
