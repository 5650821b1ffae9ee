/**
 Whole runs of the routing table: any sequence of adds, builds and lookups,
 answered from the calls alone.
 */
module RoutingRuns {
  import opened Bits
  import opened Routes
  import opened RoutingTables

  datatype Op = Add(addr: Word32, prefix: Byte, nextHop: NextHop) | Build | Lookup(ip: Word32)

  /** How a run ends: the program exits when a 256th route arrives, and a build that
      leaves the table is not defined. */
  datatype Outcome = Running | TooManyRoutes | OutOfTable

  datatype Result = Result(history: History, answers: seq<Option<NextHop>>, outcome: Outcome)

  const START := History(None, [])

  function RouteOf(op: Op): Route
    requires op.Add?
  {
    Route(op.addr, if op.prefix <= 32 then op.prefix else 32, op.nextHop)
  }

  function Do(h: History, op: Op, shift32: Word32 -> Word32): Result {
    match op
    case Add(_, _, _) =>
      if |h.pending| >= INVALID then Result(h, [], TooManyRoutes)
      else Result(h.(pending := h.pending + [RouteOf(op)]), [], Running)
    case Build =>
      if InBounds(h.pending, shift32) then Result(History(Some(h.pending), []), [], Running)
      else Result(h, [], OutOfTable)
    case Lookup(ip) =>
      Result(h, [Answer(h, ip)], Running)
  }

  /** The answers of a run, computed from its calls. */
  function Replay(ops: seq<Op>, shift32: Word32 -> Word32): Result {
    if ops == [] then Result(START, [], Running)
    else
      var before := Replay(ops[..|ops| - 1], shift32);
      if before.outcome != Running then before
      else
        var last := Do(before.history, ops[|ops| - 1], shift32);
        Result(last.history, before.answers + last.answers, last.outcome)
  }

  lemma {:induction false} ReplayStep(ops: seq<Op>, op: Op, shift32: Word32 -> Word32)
    requires Replay(ops, shift32).outcome == Running
    ensures var before := Replay(ops, shift32); var last := Do(before.history, op, shift32);
            Replay(ops + [op], shift32) == Result(last.history, before.answers + last.answers, last.outcome)
  {
    assert (ops + [op])[..|ops|] == ops;
  }

  /** Every run of the table gives the answers computed from its calls. */
  method Run(ops: seq<Op>, shift32: Word32 -> Word32) returns (answers: seq<Option<NextHop>>, outcome: Outcome)
    ensures answers == Replay(ops, shift32).answers
    ensures outcome == Replay(ops, shift32).outcome
  {
    var table := new RoutingTable();
    answers, outcome := [], Running;
    for k := 0 to |ops|
      invariant table.Valid() && fresh(table) && fresh(table.tbl24) && fresh(table.tblLong) && fresh(table.info)
      invariant outcome == Running
      invariant Replay(ops[..k], shift32) == Result(table.history, answers, Running)
    {
      assert ops[..k + 1][..k] == ops[..k];
      assert outcome == Running ==>
          Replay(ops[..k + 1], shift32).answers == answers + Do(table.history, ops[k], shift32).answers;
      StopsAtEnd(ops, k + 1, shift32);
      match ops[k] {
        case Add(addr, prefix, nextHop) =>
          var ok := table.AddRoute(addr, prefix, nextHop);
          if !ok {
            outcome := TooManyRoutes;
            return;
          }
        case Build =>
          var ok := table.Build(shift32);
          if !ok {
            outcome := OutOfTable;
            return;
          }
        case Lookup(ip) =>
          var hop := table.GetNextHop(ip);
          answers := answers + [hop];
      }
    }
    assert ops[..|ops|] == ops;
  }

  /** Once a run has ended, later calls change nothing. */
  lemma {:induction false} StopsAtEnd(ops: seq<Op>, k: nat, shift32: Word32 -> Word32)
    requires k <= |ops|
    ensures Replay(ops[..k], shift32).outcome != Running ==> Replay(ops, shift32) == Replay(ops[..k], shift32)
    decreases |ops|
  {
    if k == |ops| {
      assert ops[..k] == ops;
    } else {
      var shorter := ops[..|ops| - 1];
      assert shorter[..k] == ops[..k];
      StopsAtEnd(shorter, k, shift32);
    }
  }

  /** The routes added after the last build of a run. */
  function AddedSinceBuild(ops: seq<Op>): seq<Route> {
    if ops == [] then []
    else
      match ops[|ops| - 1]
      case Add(_, _, _) => AddedSinceBuild(ops[..|ops| - 1]) + [RouteOf(ops[|ops| - 1])]
      case Build => []
      case Lookup(_) => AddedSinceBuild(ops[..|ops| - 1])
  }

  lemma {:induction false} PendingIsAddedSinceBuild(ops: seq<Op>, shift32: Word32 -> Word32)
    requires Replay(ops, shift32).outcome == Running
    ensures Replay(ops, shift32).history.pending == AddedSinceBuild(ops)
    ensures |AddedSinceBuild(ops)| <= 255
  {
    if ops != [] {
      PendingIsAddedSinceBuild(ops[..|ops| - 1], shift32);
    }
  }

  ghost predicate NoBuild(ops: seq<Op>) {
    forall i :: 0 <= i < |ops| ==> !ops[i].Build?
  }

  /** The routes compiled by a build stay those until the next build. */
  lemma {:induction false} BuiltUntilNextBuild(before: seq<Op>, since: seq<Op>, shift32: Word32 -> Word32)
    requires NoBuild(since) && Replay(before + [Build] + since, shift32).outcome == Running
    ensures Replay(before + [Build] + since, shift32).history
            == History(Some(AddedSinceBuild(before)), AddedSinceBuild(since))
  {
    var ops := before + [Build] + since;
    if since == [] {
      assert ops == before + [Build];
      assert ops[..|ops| - 1] == before;
      PendingIsAddedSinceBuild(before, shift32);
    } else {
      var shorter := since[..|since| - 1];
      assert ops[..|ops| - 1] == before + [Build] + shorter;
      BuiltUntilNextBuild(before, shorter, shift32);
    }
  }

  /** What the last lookup of a run answers. */
  function LastAnswer(ops: seq<Op>, ip: Word32, shift32: Word32 -> Word32): Option<NextHop>
    requires Replay(ops, shift32).outcome == Running
  {
    Answer(Replay(ops, shift32).history, ip)
  }

  /** It is the last answer of the run that goes on with this lookup. */
  lemma LastAnswerIsReplayed(ops: seq<Op>, ip: Word32, shift32: Word32 -> Word32)
    requires Replay(ops, shift32).outcome == Running
    ensures Replay(ops + [Lookup(ip)], shift32).answers
            == Replay(ops, shift32).answers + [LastAnswer(ops, ip, shift32)]
  {
    ReplayStep(ops, Lookup(ip), shift32);
  }

  /** Rebuild runs. After any run and a build, and before the next add, every lookup
      answers by longest-prefix match over the routes added since the previous
      build; nothing older shows through. */
  lemma {:induction false} RebuildForgets(before: seq<Op>, since: seq<Op>, ip: Word32, shift32: Word32 -> Word32)
    requires NoBuild(since) && AddedSinceBuild(since) == []
    requires Replay(before + [Build] + since, shift32).outcome == Running
    ensures LastAnswer(before + [Build] + since, ip, shift32) == BestHop(AddedSinceBuild(before), ip)
  {
    hide Replay, Best;
    BuiltUntilNextBuild(before, since, shift32);
  }

  /** Between an add and the next build a lookup still selects the compiled winner, but
      reads its next hop from a slot that an add may have overwritten. It answers by
      longest-prefix match exactly when the winner's slot has not been reused, or was
      reused for the same next hop. */
  lemma {:induction false} StaleLookup(before: seq<Op>, since: seq<Op>, ip: Word32, shift32: Word32 -> Word32)
    requires NoBuild(since) && Replay(before + [Build] + since, shift32).outcome == Running
    ensures var routes, added := AddedSinceBuild(before), AddedSinceBuild(since);
            var winner := Best(routes, |routes|, ip);
            LastAnswer(before + [Build] + since, ip, shift32) == BestHop(routes, ip) <==>
            (winner.Some? && winner.value < |added| ==>
               added[winner.value].nextHop == routes[winner.value].nextHop)
  {
    hide Replay, Best;
    BuiltUntilNextBuild(before, since, shift32);
  }

  /** The routes compiled by the last build of a run, if there was one. */
  function Compiled(ops: seq<Op>): Option<seq<Route>> {
    if ops == [] then None
    else if ops[|ops| - 1].Build? then Some(AddedSinceBuild(ops[..|ops| - 1]))
    else Compiled(ops[..|ops| - 1])
  }

  /** All a run leaves behind: what its last build compiled and what was added since. */
  lemma {:induction false} HistoryOfRun(ops: seq<Op>, shift32: Word32 -> Word32)
    requires Replay(ops, shift32).outcome == Running
    ensures Replay(ops, shift32).history == History(Compiled(ops), AddedSinceBuild(ops))
  {
    if ops != [] {
      HistoryOfRun(ops[..|ops| - 1], shift32);
    }
  }

  /** When a run ends: at the 256th route since the last build, and at a build with a prefix-0 route
      whose undefined shift has a low byte other than zero. */
  lemma {:induction false} RunEndsExactly(ops: seq<Op>, op: Op, shift32: Word32 -> Word32)
    requires Replay(ops, shift32).outcome == Running
    ensures var added, outcome := AddedSinceBuild(ops), Replay(ops + [op], shift32).outcome;
            && (outcome == TooManyRoutes <==> op.Add? && |added| == 255)
            && (outcome == OutOfTable <==>
                op.Build? && exists i :: 0 <= i < |added| && added[i].prefix == 0 && shift32(added[i].addr) % 256 != 0)
  {
    HistoryOfRun(ops, shift32);
    PendingIsAddedSinceBuild(ops, shift32);
    hide Replay, AddedSinceBuild;
    ReplayStep(ops, op, shift32);
  }

  /** Before the first build every lookup answers with the next hop of the first route added, or with
      a next hop of zeros if there is none, whatever the address. */
  lemma {:induction false} UnbuiltLookup(ops: seq<Op>, ip: Word32, shift32: Word32 -> Word32)
    requires NoBuild(ops) && Replay(ops, shift32).outcome == Running
    ensures LastAnswer(ops, ip, shift32) ==
            Some(if AddedSinceBuild(ops) == [] then NextHop([0, 0, 0, 0, 0, 0], 0) else AddedSinceBuild(ops)[0].nextHop)
  {
    HistoryOfRun(ops, shift32);
    NothingCompiled(ops);
    hide Replay, Compiled, AddedSinceBuild;
  }

  lemma {:induction false} NothingCompiled(ops: seq<Op>)
    requires NoBuild(ops)
    ensures Compiled(ops) == None
  {
    if ops != [] {
      NothingCompiled(ops[..|ops| - 1]);
    }
  }

  lemma SameLast<T>(s: seq<T>, x: T, y: T)
    ensures s + [x] == s + [y] <==> x == y
  {
    assert (s + [x])[|s|] == x && (s + [y])[|s|] == y;
  }

  /** When a lookup of any run answers by longest-prefix match over the compiled routes, which are none
      without a build: exactly when there was a build and the winner's slot has not been
      reused for another next hop. */
  lemma {:induction false} LookupIsRightExactly(ops: seq<Op>, ip: Word32, shift32: Word32 -> Word32)
    requires Replay(ops, shift32).outcome == Running
    ensures var routes := if Compiled(ops).Some? then Compiled(ops).value else [];
            var added, winner := AddedSinceBuild(ops), Best(routes, |routes|, ip);
            Replay(ops + [Lookup(ip)], shift32).answers == Replay(ops, shift32).answers + [BestHop(routes, ip)] <==>
            && Compiled(ops).Some?
            && (winner.Some? && winner.value < |added| ==>
                  added[winner.value].nextHop == routes[winner.value].nextHop)
  {
    HistoryOfRun(ops, shift32);
    LastAnswerIsReplayed(ops, ip, shift32);
    assert Best([], 0, ip) == None;
    hide Replay, Compiled, AddedSinceBuild, Best;
    var routes := if Compiled(ops).Some? then Compiled(ops).value else [];
    SameLast(Replay(ops, shift32).answers, LastAnswer(ops, ip, shift32), BestHop(routes, ip));
  }

  /** A run that shows it: an unrelated route added after the build takes over the next
      hop of 10.0.0.1, which the added route does not even cover. */
  lemma {:induction false} StaleLookupHappens(mac: Mac)
    ensures var ops := [Add(0x0A00_0000, 8, NextHop(mac, 1)), Build, Add(0x0B00_0000, 8, NextHop(mac, 2))];
            var shift32 := (x: Word32) => x;
            && Replay(ops, shift32).outcome == Running
            && LastAnswer(ops, 0x0A00_0001, shift32) == Some(NextHop(mac, 2))
            && !Covers(Route(0x0B00_0000, 8, NextHop(mac, 2)), 0x0A00_0001)
  {
    var ops := [Add(0x0A00_0000, 8, NextHop(mac, 1)), Build, Add(0x0B00_0000, 8, NextHop(mac, 2))];
    var shift32 := (x: Word32) => x;
    Pow2Values();
    ReplayStep([], ops[0], shift32);
    ReplayStep([ops[0]], Build, shift32);
    ReplayStep([ops[0], Build], ops[2], shift32);
    assert [] + [ops[0]] == [ops[0]] && [ops[0]] + [Build] == [ops[0], Build] && [ops[0], Build] + [ops[2]] == ops;
    hide Replay;
    var r := Route(0x0A00_0000, 8, NextHop(mac, 1));
    assert Covers(r, 0x0A00_0001);
    assert Best([r], 1, 0x0A00_0001) == Some(0);
  }

  /** The answers after a build are longest-prefix matches, the latest route winning
      among equals, and absent exactly when no route matches. */
  lemma BuiltAnswersAreLongestMatches(routes: seq<Route>, ip: Word32)
    ensures Answer(History(Some(routes), []), ip).None? <==> NoMatch(routes, ip)
    ensures forall i: nat :: LatestLongestMatch(routes, ip, i) ==>
              Answer(History(Some(routes), []), ip) == Some(routes[i].nextHop)
  {
    BestIsLongestMatch(routes, |routes|, ip);
    assert routes[..|routes|] == routes;
  }

  function AddAll(routes: seq<Route>): (ops: seq<Op>)
    ensures |ops| == |routes|
    ensures forall i :: 0 <= i < |ops| ==> ops[i] == Add(routes[i].addr, routes[i].prefix, routes[i].nextHop)
  {
    if routes == [] then []
    else
      var r := routes[|routes| - 1];
      AddAll(routes[..|routes| - 1]) + [Add(r.addr, r.prefix, r.nextHop)]
  }

  lemma {:induction false} AddAllAddsThem(routes: seq<Route>, shift32: Word32 -> Word32)
    requires |routes| <= 255
    ensures Replay(AddAll(routes), shift32) == Result(History(None, routes), [], Running)
  {
    if routes != [] {
      var shorter, r := routes[..|routes| - 1], routes[|routes| - 1];
      var op := Add(r.addr, r.prefix, r.nextHop);
      AddAllAddsThem(shorter, shift32);
      assert AddAll(routes) == AddAll(shorter) + [op];
      hide AddAll, Replay;
      ReplayStep(AddAll(shorter), op, shift32);
      assert routes == shorter + [r];
    }
  }

  /** The order of the adds does not show in any answer when no network is named twice. */
  lemma {:induction false} RunsAreOrderIndependent(routes: seq<Route>, other: seq<Route>, ip: Word32,
                                                   shift32: Word32 -> Word32)
    requires |routes| <= 255 && multiset(routes) == multiset(other) && NoRepeatedNetwork(routes)
    ensures Replay(AddAll(routes) + [Build, Lookup(ip)], shift32).answers
            == Replay(AddAll(other) + [Build, Lookup(ip)], shift32).answers
    ensures Replay(AddAll(routes) + [Build, Lookup(ip)], shift32).outcome
            == Replay(AddAll(other) + [Build, Lookup(ip)], shift32).outcome
  {
    hide Replay, InBounds, BestHop;
    assert |other| == |multiset(other)| && |routes| == |multiset(routes)|;
    AddAllAddsThem(routes, shift32);
    BuildAndLookUp(AddAll(routes), ip, shift32);
    AddAllAddsThem(other, shift32);
    BuildAndLookUp(AddAll(other), ip, shift32);
    OrderIndependence(routes, other, ip);
    SameMembers(routes, other);
    BoundsFollowMembers(routes, other, shift32);
    BoundsFollowMembers(other, routes, shift32);
  }

  /** A build and a lookup after a run that left these routes waiting. */
  lemma {:induction false} BuildAndLookUp(ops: seq<Op>, ip: Word32, shift32: Word32 -> Word32)
    requires Replay(ops, shift32).outcome == Running && Replay(ops, shift32).answers == []
    ensures var r := Replay(ops + [Build, Lookup(ip)], shift32);
            var routes := Replay(ops, shift32).history.pending;
            if InBounds(routes, shift32) then r.answers == [BestHop(routes, ip)] && r.outcome == Running
            else r.answers == [] && r.outcome == OutOfTable
  {
    hide Replay, InBounds, Best;
    ReplayStep(ops, Build, shift32);
    assert ops + [Build, Lookup(ip)] == (ops + [Build]) + [Lookup(ip)];
    if Replay(ops + [Build], shift32).outcome == Running {
      ReplayStep(ops + [Build], Lookup(ip), shift32);
    } else {
      assert (ops + [Build, Lookup(ip)])[..|ops| + 1] == ops + [Build];
      StopsAtEnd(ops + [Build, Lookup(ip)], |ops| + 1, shift32);
    }
  }

  lemma BoundsFollowMembers(routes: seq<Route>, other: seq<Route>, shift32: Word32 -> Word32)
    requires forall x :: x in routes <==> x in other
    ensures InBounds(other, shift32) ==> InBounds(routes, shift32)
  {
    forall i | InBounds(other, shift32) && 0 <= i < |routes| && routes[i].prefix == 0
      ensures shift32(routes[i].addr) % 0x100 == 0
    {
      assert routes[i] in other;
    }
  }
}
