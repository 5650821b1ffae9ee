/**
 From the command line to the forwarded packet: the route options of a start are parsed and
 compiled, and then decide where packets go.
 */
module Startup {
  import opened Bits
  import opened Routes
  import opened RoutingTables
  import opened CStrings
  import opened Frames
  import opened Decisions
  import RouteOption
  import RoutingRuns
  import Wire

  /** The routes named by a list of options, in order; refused options are passed over. */
  function Accepted(texts: seq<string>): seq<Route> {
    if texts == [] then []
    else
      var before := Accepted(texts[..|texts| - 1]);
      match RouteOption.ParseOption(texts[|texts| - 1])
      case None => before
      case Some(route) => before + [route]
  }

  datatype StartResult = Ready | TooManyRoutes | OutOfTable

  ghost predicate Readable(args: seq<array<char>>)
    reads args
  {
    && (forall i :: 0 <= i < |args| ==> Terminated(args[i][..], 0))
    && (forall i, j :: 0 <= i < j < |args| ==> args[i] != args[j])
  }

  ghost function Texts(args: seq<array<char>>): (ts: seq<string>)
    requires Readable(args)
    ensures |ts| == |args|
    ensures forall i :: 0 <= i < |args| ==> ts[i] == Str(args[i][..], 0)
    reads args
  {
    seq(|args|, i requires 0 <= i < |args| && Readable(args) reads args => Str(args[i][..], 0))
  }

  /** Parses the route options and builds the table. It holds the accepted routes in order, unless
      there are more than 255 of them or a prefix-0 range leaves the table. */
  method LoadRoutes(args: seq<array<char>>, table: RoutingTable, shift32: Word32 -> Word32)
    returns (result: StartResult)
    requires table.Valid() && table.history == History(None, []) && Readable(args)
    modifies args, table, table.tbl24, table.tblLong, table.info
    ensures var routes := Accepted(old(Texts(args)));
            && (result == TooManyRoutes <==> |routes| > 255)
            && (result == OutOfTable <==> |routes| <= 255 && !InBounds(routes, shift32))
            && (result == Ready ==> table.Valid() && table.history == History(Some(routes), []))
  {
    hide RoutingTable.Valid, Accepted, InBounds;
    var full := ReadOptions(args, table);
    if full {
      return TooManyRoutes;
    }
    var ok := table.Build(shift32);
    return if ok then Ready else OutOfTable;
  }

  method ReadOptions(args: seq<array<char>>, table: RoutingTable) returns (full: bool)
    requires table.Valid() && table.history == History(None, []) && Readable(args)
    modifies args, table`infoIdx, table`history, table`highWater, table.info
    ensures full <==> |Accepted(old(Texts(args)))| > 255
    ensures table.Valid() && (!full ==> table.history == History(None, Accepted(old(Texts(args)))))
  {
    hide RoutingTable.Valid, Accepted, RouteOption.ParseOption, RouteOption.AlmostIntact, Str, StrEnd, Terminated;
    ghost var texts := Texts(args);
    AcceptedStep(texts, 0);
    for k := 0 to |args|
      invariant table.Valid()
      invariant table.history == History(None, Accepted(texts[..k])) && |Accepted(texts[..k])| <= INVALID
      invariant forall i :: k <= i < |args| ==> args[i][..] == old(args[i][..])
    {
      AcceptedStep(texts, k + 1);
      var parsed := RouteOption.ParseOptionR(args[k], 0, table);
      if parsed == RouteOption.TableFull {
        AcceptedGrows(texts, k + 1);
        return true;
      }
    }
    assert texts[..|args|] == texts;
    full := false;
  }

  lemma {:induction false} AcceptedStep(texts: seq<string>, k: nat)
    requires k <= |texts|
    ensures k == 0 ==> Accepted(texts[..k]) == []
    ensures k > 0 ==> Accepted(texts[..k]) == Accepted(texts[..k - 1]) +
                        match RouteOption.ParseOption(texts[k - 1]) case None => [] case Some(r) => [r]
  {
    hide RouteOption.ParseOption;
    if k > 0 {
      assert texts[..k][..k - 1] == texts[..k - 1];
    }
  }

  lemma {:induction false} AcceptedGrows(texts: seq<string>, k: nat)
    requires k <= |texts|
    ensures |Accepted(texts[..k])| <= |Accepted(texts)|
    decreases |texts|
  {
    if k == |texts| {
      assert texts[..k] == texts;
    } else {
      AcceptedGrows(texts[..|texts| - 1], k);
      assert texts[..|texts| - 1][..k] == texts[..k];
    }
  }

  function PrintedAll(routes: seq<Route>): (texts: seq<string>)
    ensures |texts| == |routes|
    ensures forall i :: 0 <= i < |routes| ==> texts[i] == RouteOption.Printed(routes[i])
  {
    seq(|routes|, i requires 0 <= i < |routes| => RouteOption.Printed(routes[i]))
  }

  /** Routes written out as options are accepted as they are. */
  lemma {:induction false} PrintedRoutesAccepted(routes: seq<Route>)
    ensures Accepted(PrintedAll(routes)) == routes
  {
    hide RouteOption.ParseOption, RouteOption.Printed, PrintedAll;
    if routes != [] {
      var last := |routes| - 1;
      PrintedRoutesAccepted(routes[..last]);
      assert PrintedAll(routes)[..last] == PrintedAll(routes[..last]);
      RouteOption.RouteRoundTrip(routes[last]);
      assert routes == routes[..last] + [routes[last]];
    }
  }

  /** What the router does with a valid IPv4 packet after a start with these routes: it goes to the
      next hop of the longest match for the address in bytes 30 to 33, the latest named among
      equals, or nowhere if none matches. */
  lemma {:induction false} ForwardsToLongestMatch(routes: seq<Route>, f: Frame, conf: IntConf, confs: seq<IntConf>,
                                                  macOf: Byte -> Mac)
    requires 34 <= |f| <= 1514 && f[12..14] == [8, 0]
    requires f[0..6] == [255, 255, 255, 255, 255, 255] || f[0..6] == conf.mac
    requires f[14] / 16 == 4 && f[14] % 16 >= 5
    requires 4 * (f[14] % 16) <= (f[16] as int) * 256 + f[17] <= |f| - 14
    requires f[22] >= 2 && Wire.SumsToZero(f)
    ensures var decided := Decide(f, conf, confs, (ip: Word32) => Answer(History(Some(routes), []), ip), macOf);
            var dst := (f[30] as int) * 0x100_0000 + (f[31] as int) * 0x1_0000 + (f[32] as int) * 0x100 + f[33];
            && (NoMatch(routes, dst) <==> decided == Discard)
            && (forall i: nat :: LatestLongestMatch(routes, dst, i) ==>
                  var hop := routes[i].nextHop;
                  decided == Transmit(hop.dstPort, Forwarded(f, macOf(hop.dstPort), hop.dstMac)))
  {
    hide Decide, Answer, NoMatch, LatestLongestMatch, Forwarded, Wire.SumsToZero;
    var dst := (f[30] as int) * 0x100_0000 + (f[31] as int) * 0x1_0000 + (f[32] as int) * 0x100 + f[33];
    Wire.Ipv4DecidedExactly(f, conf, confs, (ip: Word32) => Answer(History(Some(routes), []), ip), macOf);
    RoutingRuns.BuiltAnswersAreLongestMatches(routes, dst);
  }
}
