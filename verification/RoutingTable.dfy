/**
 The two-level routing table: a first level with one entry per 24-bit index and a
 pool of 256-cell groups for the indexes that hold a route longer than 24 bits.
 */
module RoutingTables {
  import opened Bits
  import opened Routes
  import opened Ranges

  const TBLLONG_SIZE := 255
  const INFO_SIZE := 256
  const INVALID: Word16 := 255
  const LONG_FLAG := 0x8000

  /** A first-level entry is one 16-bit value: the is_long bit on top of 15 bits of id. */
  predicate IsLong(val: Word16) {
    val >= LONG_FLAG
  }

  function NextId(val: Word16): (id: Word16)
    ensures id == val % LONG_FLAG
  {
    if IsLong(val) then val - LONG_FLAG else val
  }

  function WithNextId(val: Word16, id: Word16): (v: Word16)
    ensures IsLong(v) == IsLong(val) && NextId(v) == NextId(id)
  {
    if IsLong(val) then LONG_FLAG + NextId(id) else NextId(id)
  }

  function WithIsLong(val: Word16, long: bool): (v: Word16)
    ensures IsLong(v) == long && NextId(v) == NextId(val)
  {
    if long then LONG_FLAG + NextId(val) else NextId(val)
  }

  datatype Info = Info(addr: Word32, prefix: Prefix, nextHop: NextHop, inUse: bool) {
    function ToRoute(): Route {
      Route(addr, prefix, nextHop)
    }
  }

  const ZERO_HOP := NextHop([0, 0, 0, 0, 0, 0], 0)
  const ZERO_INFO := Info(0, 0, ZERO_HOP, false)

  /** What the calls so far amount to: the routes compiled by the last build, if
      there was one, and the routes added since. */
  datatype History = History(built: Option<seq<Route>>, pending: seq<Route>)

  /** The id a lookup selects. The tables start zeroed, so before the first build
      every address selects id 0. */
  function Selected(h: History, ip: Word32): Option<nat> {
    match h.built
    case None => Some(0)
    case Some(routes) => Best(routes, |routes|, ip)
  }

  /** Adding a route overwrites the slot of a compiled route, which stays selected. */
  function Slot(h: History, i: nat): NextHop {
    if i < |h.pending| then h.pending[i].nextHop
    else if h.built.Some? && i < |h.built.value| then h.built.value[i].nextHop
    else ZERO_HOP
  }

  function Answer(h: History, ip: Word32): Option<NextHop> {
    match Selected(h, ip)
    case None => None
    case Some(i) => Some(Slot(h, i))
  }

  function Encode(winner: Option<nat>): int {
    match winner
    case None => INVALID
    case Some(i) => i
  }

  /** The build reads and writes inside the tables exactly when the undefined shift
      of every prefix-0 route has a zero low byte. */
  predicate InBounds(routes: seq<Route>, shift32: Word32 -> Word32) {
    forall i :: 0 <= i < |routes| && routes[i].prefix == 0 ==> shift32(routes[i].addr) % 0x100 == 0
  }

  /** The offsets a route longer than 24 bits covers in the group of its index. */
  ghost predicate InOffsets(info: Info, o: int)
    requires 24 < info.prefix
  {
    MinOffset(info.addr, info.prefix) <= o <= MaxOffset(MinOffset(info.addr, info.prefix), info.prefix)
  }

  lemma RangeIsCovered(r: Route, shift32: Word32 -> Word32)
    requires r.prefix <= 24
    ensures var min := MinIndex(r.addr, r.prefix, shift32); var max := MaxIndex(min, r.prefix);
            if r.prefix == 0 ==> shift32(r.addr) % 0x100 == 0 then
              && max < TBL24_SIZE
              && min <= max
              && forall i: Index24, o: Byte :: min <= i <= max <==> Covers(r, Address(i, o))
            else
              TBL24_SIZE <= min <= max
  {
    hide MinIndex, MaxIndex, Covers;
    if r.prefix == 0 {
      DefaultRange(r.addr, shift32);
      forall i: Index24, o: Byte ensures Covers(r, Address(i, o)) {
        DefaultCoversAll(r, Address(i, o));
      }
    } else {
      ShortRangeBounds(r.addr, r.prefix, shift32);
      forall i: Index24, o: Byte {
        ShortRange(r, i, o, shift32);
      }
    }
  }

  class RoutingTable {
    const tbl24: array<Word16>
    const tblLong: array2<Word16>
    var tblLongIdx: Word16
    const info: array<Info>
    var infoIdx: Word16

    ghost var history: History
    ghost var highWater: nat  // most routes ever added between two builds

    ghost predicate Shape() {
      && tbl24.Length == TBL24_SIZE
      && tblLong.Length0 == TBLLONG_SIZE
      && tblLong.Length1 == GROUP_SIZE
      && info.Length == INFO_SIZE
    }

    /** The id found for the address with this index and offset. */
    ghost function Cell(idx: Index24, off: Byte): Word16
      requires Shape()
      reads tbl24, tblLong
    {
      var v := tbl24[idx];
      if v == INVALID then INVALID
      else if !IsLong(v) then NextId(v)
      else if NextId(v) < TBLLONG_SIZE then tblLong[NextId(v), off]
      else INVALID
    }

    /** Long entries own distinct groups below the allocation index, and the groups
        from there on are still entirely unused. */
    ghost predicate GroupsOwned()
      requires Shape()
      reads this, tbl24, tblLong
    {
      && tblLongIdx <= TBLLONG_SIZE
      && (forall i :: 0 <= i < TBL24_SIZE && IsLong(tbl24[i]) ==> NextId(tbl24[i]) < tblLongIdx)
      && (forall i, j :: 0 <= i < j < TBL24_SIZE && IsLong(tbl24[i]) && IsLong(tbl24[j]) ==> tbl24[i] != tbl24[j])
      && (forall g, o :: tblLongIdx <= g < TBLLONG_SIZE && 0 <= o < GROUP_SIZE ==> tblLong[g, o] == INVALID)
    }

    /** Entries and cells name one of the first n routes, and an entry that is not
        long names a route of at most 24 bits. */
    ghost predicate IdsBelow(n: nat)
      requires Shape()
      reads this, tbl24, tblLong, info
    {
      && n <= INVALID
      && (forall i :: 0 <= i < TBL24_SIZE && tbl24[i] != INVALID && !IsLong(tbl24[i]) ==>
            tbl24[i] < n && info[tbl24[i]].prefix <= 24)
      && (forall g, o :: 0 <= g < TBLLONG_SIZE && 0 <= o < GROUP_SIZE ==>
            tblLong[g, o] == INVALID || tblLong[g, o] < n)
    }

    ghost predicate Linked(n: nat)
      reads this, tbl24, tblLong, info
    {
      Shape() && GroupsOwned() && IdsBelow(n)
    }

    /** The id a cell holds once route nhId, which covers it, has been inserted. */
    ghost function Merge(nhId: Word16, cell: Word16): Word16
      requires Shape() && nhId < INVALID && cell <= INVALID
      reads info
    {
      if cell == INVALID || info[cell].prefix <= info[nhId].prefix then nhId else cell
    }

    /** Merges a route into every cell of the group of index idx. */
    method BuildRouteLte24LongIdx(nhId: Word16, longIdx: Word16, ghost idx: Index24, ghost n: nat)
      requires Linked(n) && nhId < n && tbl24[idx] == LONG_FLAG + longIdx
      modifies tblLong
      ensures Linked(n)
      ensures forall i: Index24, o: Byte ::
                Cell(i, o) == if i == idx then Merge(nhId, old(Cell(i, o))) else old(Cell(i, o))
    {
      for i := 0 to GROUP_SIZE
        invariant IdsBelow(n)
        invariant forall g, o :: 0 <= g < TBLLONG_SIZE && 0 <= o < GROUP_SIZE ==>
                    tblLong[g, o] == if g == longIdx && o < i
                                     then Merge(nhId, old(tblLong[g, o])) else old(tblLong[g, o])
      {
        var curr := tblLong[longIdx, i];
        if curr == INVALID {
          tblLong[longIdx, i] := nhId;
        } else if info[curr].prefix <= info[nhId].prefix {
          tblLong[longIdx, i] := nhId;
        }
      }
    }

    method BuildRouteLte24Idx(nhId: Word16, idx: Index24, ghost n: nat)
      requires Linked(n) && nhId < n && info[nhId].prefix <= 24
      modifies tbl24, tblLong
      ensures Linked(n)
      ensures forall i: Index24, o: Byte ::
                Cell(i, o) == if i == idx then Merge(nhId, old(Cell(i, o))) else old(Cell(i, o))
    {
      if tbl24[idx] == INVALID {
        tbl24[idx] := WithNextId(tbl24[idx], nhId);
        tbl24[idx] := WithIsLong(tbl24[idx], false);
        return;
      }
      if !IsLong(tbl24[idx]) {
        if info[NextId(tbl24[idx])].prefix <= info[nhId].prefix {
          tbl24[idx] := WithNextId(tbl24[idx], nhId);
        }
        return;
      }
      BuildRouteLte24LongIdx(nhId, NextId(tbl24[idx]), idx, n);
    }

    /** Inserts a route of at most 24 bits. The run of indexes leaves the table, which
        C does not define, only for a prefix of 0. */
    method BuildRouteLte24(nhId: Word16, shift32: Word32 -> Word32, ghost n: nat) returns (ok: bool)
      requires Linked(n) && nhId < n && info[nhId].prefix <= 24
      modifies tbl24, tblLong
      ensures ok <==> (info[nhId].prefix == 0 ==> shift32(info[nhId].addr) % 0x100 == 0)
      ensures ok ==> Linked(n)
      ensures ok ==> forall i: Index24, o: Byte ::
                Cell(i, o) == if Covers(info[nhId].ToRoute(), Address(i, o))
                              then Merge(nhId, old(Cell(i, o))) else old(Cell(i, o))
    {
      var min := MinIndex(info[nhId].addr, info[nhId].prefix, shift32);
      var max := MaxIndex(min, info[nhId].prefix);
      RangeIsCovered(info[nhId].ToRoute(), shift32);
      var idx := min;
      while idx <= max
        invariant min <= idx <= max + 1
        invariant Linked(n)
        invariant max < TBL24_SIZE || idx == min
        invariant forall i: Index24, o: Byte ::
                    Cell(i, o) == if min <= i < idx then Merge(nhId, old(Cell(i, o))) else old(Cell(i, o))
      {
        if idx >= TBL24_SIZE {
          return false;
        }
        BuildRouteLte24Idx(nhId, idx, n);
        idx := idx + 1;
      }
      ok := true;
    }

    /** Merges a route into the cells it covers in the group of index idx. */
    method BuildRouteGt24LongIdx(nhId: Word16, longIdx: Word16, ghost idx: Index24, ghost n: nat)
      requires Linked(n) && nhId < n && 24 < info[nhId].prefix && tbl24[idx] == LONG_FLAG + longIdx
      modifies tblLong
      ensures Linked(n)
      ensures forall i: Index24, o: Byte ::
                Cell(i, o) == if i == idx && InOffsets(info[nhId], o)
                              then Merge(nhId, old(Cell(i, o))) else old(Cell(i, o))
    {
      var min := MinOffset(info[nhId].addr, info[nhId].prefix);
      var max := MaxOffset(min, info[nhId].prefix);
      LongRangeBounds(info[nhId].addr, info[nhId].prefix);
      hide MinOffset, MaxOffset, And, Or;
      var i := min;
      while i <= max
        invariant min <= i <= max + 1
        invariant IdsBelow(n)
        invariant forall g, o :: 0 <= g < TBLLONG_SIZE && 0 <= o < GROUP_SIZE ==>
                    tblLong[g, o] == if g == longIdx && min <= o < i
                                     then Merge(nhId, old(tblLong[g, o])) else old(tblLong[g, o])
      {
        var curr := tblLong[longIdx, i];
        if curr == INVALID {
          tblLong[longIdx, i] := nhId;
        } else if info[curr].prefix <= info[nhId].prefix {
          tblLong[longIdx, i] := nhId;
        }
        i := i + 1;
      }
    }

    /** Takes the next free group for an index and enters the route in it; the other
        cells of the group are unused. */
    method BuildRouteGt24Idx(nhId: Word16, idx: Index24, ghost n: nat) returns (ok: bool)
      requires Linked(n) && nhId < n && 24 < info[nhId].prefix && !IsLong(tbl24[idx])
      modifies this`tblLongIdx, tbl24, tblLong
      ensures ok <==> old(tblLongIdx) < TBLLONG_SIZE
      ensures ok ==> Linked(n) && tblLongIdx == old(tblLongIdx) + 1 && tbl24[idx] == LONG_FLAG + old(tblLongIdx)
      ensures ok ==> forall i: Index24, o: Byte ::
                Cell(i, o) == if i != idx then old(Cell(i, o)) else if InOffsets(info[nhId], o) then nhId else INVALID
    {
      if tblLongIdx >= TBLLONG_SIZE {
        return false;
      }
      var longIdx := tblLongIdx;
      tbl24[idx] := WithNextId(tbl24[idx], tblLongIdx);
      tblLongIdx := tblLongIdx + 1;
      tbl24[idx] := WithIsLong(tbl24[idx], true);
      FillOffsets(nhId, longIdx);
      ok := true;
    }

    method FillOffsets(nhId: Word16, longIdx: Word16)
      requires Shape() && nhId < INVALID && 24 < info[nhId].prefix && longIdx < TBLLONG_SIZE
      modifies tblLong
      ensures forall g, o :: 0 <= g < TBLLONG_SIZE && 0 <= o < GROUP_SIZE ==>
                tblLong[g, o] == if g == longIdx && InOffsets(info[nhId], o) then nhId else old(tblLong[g, o])
    {
      var min := MinOffset(info[nhId].addr, info[nhId].prefix);
      var max := MaxOffset(min, info[nhId].prefix);
      LongRangeBounds(info[nhId].addr, info[nhId].prefix);
      hide MinOffset, MaxOffset, And, Or;
      var i := min;
      while i <= max
        invariant min <= i <= max + 1
        invariant forall g, o :: 0 <= g < TBLLONG_SIZE && 0 <= o < GROUP_SIZE ==>
                    tblLong[g, o] == if g == longIdx && min <= o < i then nhId else old(tblLong[g, o])
      {
        tblLong[longIdx, i] := nhId;
        i := i + 1;
      }
    }

    method BuildRouteGt24(nhId: Word16, ghost n: nat) returns (ok: bool)
      requires Linked(n) && nhId < n && 24 < info[nhId].prefix
      modifies this`tblLongIdx, tbl24, tblLong
      ensures old(tblLongIdx) < TBLLONG_SIZE ==> ok
      ensures ok ==> Linked(n) && tblLongIdx <= old(tblLongIdx) + 1
      ensures ok ==> forall i: Index24, o: Byte ::
                Cell(i, o) == if i == info[nhId].addr / 0x100 && InOffsets(info[nhId], o)
                              then Merge(nhId, old(Cell(i, o))) else old(Cell(i, o))
    {
      Pow2Values();
      var idx := Shr32(info[nhId].addr, 8);
      hide InOffsets, Shr32;
      if tbl24[idx] == INVALID {
        ok := BuildRouteGt24Idx(nhId, idx, n);
        return;
      }
      if !IsLong(tbl24[idx]) {
        ok := PushDown(nhId, idx, n);
        return;
      }
      BuildRouteGt24LongIdx(nhId, NextId(tbl24[idx]), idx, n);
      ok := true;
    }

    /** The short route at this index moves into the cells of a new group that the long route
        leaves free. */
    method PushDown(nhId: Word16, idx: Index24, ghost n: nat) returns (ok: bool)
      requires Linked(n) && nhId < n && 24 < info[nhId].prefix && idx == info[nhId].addr / 0x100
      requires tbl24[idx] != INVALID && !IsLong(tbl24[idx])
      modifies this`tblLongIdx, tbl24, tblLong
      ensures old(tblLongIdx) < TBLLONG_SIZE ==> ok
      ensures ok ==> Linked(n) && tblLongIdx <= old(tblLongIdx) + 1
      ensures ok ==> forall i: Index24, o: Byte ::
                Cell(i, o) == if i == idx && InOffsets(info[nhId], o)
                              then Merge(nhId, old(Cell(i, o))) else old(Cell(i, o))
    {
      hide InOffsets;
      var cur := NextId(tbl24[idx]);
      ok := BuildRouteGt24Idx(nhId, idx, n);
      if ok {
        BuildRouteLte24LongIdx(cur, NextId(tbl24[idx]), idx, n);
      }
    }

    /** Every address finds the winner among the first k routes. */
    ghost predicate Finds(routes: seq<Route>, k: nat)
      requires Shape() && k <= |routes|
      reads tbl24, tblLong
    {
      forall i: Index24, o: Byte :: Cell(i, o) == Encode(Best(routes, k, Address(i, o)))
    }

    ghost predicate Holds(routes: seq<Route>)
      requires Shape()
      reads info
    {
      && |routes| <= INVALID
      && forall i :: 0 <= i < |routes| ==> info[i].ToRoute() == routes[i]
    }

    lemma InsertStep(routes: seq<Route>, k: nat, ip: Word32)
      requires Shape() && Holds(routes) && k < |routes|
      ensures var before := Encode(Best(routes, k, ip));
              Encode(Best(routes, k + 1, ip)) == if Covers(routes[k], ip) then Merge(k, before) else before
    {
    }

    /** One pass of the build loop. An id changes at exactly the covered addresses
        whose current winner is absent or no longer than the new route. */
    method BuildRoute(nhId: Word16, shift32: Word32 -> Word32, ghost n: nat) returns (ok: bool)
      requires Linked(n) && nhId < n && tblLongIdx <= nhId
      modifies this`tblLongIdx, tbl24, tblLong
      ensures ok <==> (info[nhId].prefix == 0 ==> shift32(info[nhId].addr) % 0x100 == 0)
      ensures ok ==> Linked(n) && tblLongIdx <= old(tblLongIdx) + 1
      ensures ok ==> forall i: Index24, o: Byte ::
                Cell(i, o) == if Covers(info[nhId].ToRoute(), Address(i, o))
                              then Merge(nhId, old(Cell(i, o))) else old(Cell(i, o))
    {
      if info[nhId].prefix <= 24 {
        ok := BuildRouteLte24(nhId, shift32, n);
      } else {
        ok := BuildRouteGt24(nhId, n);
        hide Covers, Cell, Merge;
        forall i: Index24, o: Byte
          ensures Covers(info[nhId].ToRoute(), Address(i, o)) <==>
                  i == info[nhId].addr / 0x100 && InOffsets(info[nhId], o)
        {
          LongRange(info[nhId].ToRoute(), i, o);
        }
      }
    }

    /** The same pass, seen as longest-prefix matching over one more route. */
    method BuildNextRoute(nhId: Word16, shift32: Word32 -> Word32, ghost routes: seq<Route>) returns (ok: bool)
      requires Shape() && Holds(routes) && nhId < |routes|
      requires Linked(|routes|) && tblLongIdx <= nhId && Finds(routes, nhId)
      modifies this`tblLongIdx, tbl24, tblLong
      ensures ok <==> (routes[nhId].prefix == 0 ==> shift32(routes[nhId].addr) % 0x100 == 0)
      ensures ok ==> Linked(|routes|) && tblLongIdx <= nhId + 1 && Finds(routes, nhId + 1)
    {
      ok := BuildRoute(nhId, shift32, |routes|);
      if ok {
        hide Cell, Covers, Merge;
        assert info[nhId].ToRoute() == routes[nhId];
        forall i: Index24, o: Byte ensures Cell(i, o) == Encode(Best(routes, nhId + 1, Address(i, o))) {
          InsertStep(routes, nhId, Address(i, o));
        }
      }
    }

    ghost predicate Valid()
      reads this, tbl24, tblLong, info
    {
      && Shape()
      && infoIdx == |history.pending|
      && Holds(history.pending)
      && infoIdx <= highWater <= INVALID
      && (forall i :: 0 <= i < INFO_SIZE ==> (info[i].inUse <==> i < highWater))
      && match history.built
         case None =>
           && (forall i :: 0 <= i < TBL24_SIZE ==> tbl24[i] == 0)
           && (infoIdx == 0 ==> info[0].nextHop == ZERO_HOP)
         case Some(routes) =>
           && |routes| <= INVALID
           && (forall i :: infoIdx <= i < |routes| ==> info[i].ToRoute() == routes[i])
           && GroupsOwned()
           && tblLongIdx <= |routes|
           && Finds(routes, |routes|)
    }

    /** In a built table every cell is unused or names a compiled route that covers its
        addresses, and a long entry is never taken for the unused value. */
    lemma CellsNameCoveringRoutes(idx: Index24, off: Byte)
      requires Valid() && history.built.Some?
      ensures var routes := history.built.value; var id := Cell(idx, off);
              && (id == INVALID || (id < |routes| && Covers(routes[id], Address(idx, off))))
              && (IsLong(tbl24[idx]) ==> tbl24[idx] != INVALID && NextId(tbl24[idx]) < tblLongIdx <= |routes|)
    {
      var routes, ip := history.built.value, Address(idx, off);
      BestIsLongestMatch(routes, |routes|, ip);
      assert routes[..|routes|] == routes;
      hide Best, Covers;
      var best := Best(routes, |routes|, ip);
      assert best.Some? ==> LatestLongestMatch(routes, ip, best.value);
    }

    constructor ()
      ensures Valid() && history == History(None, []) && highWater == 0
      ensures fresh(tbl24) && fresh(tblLong) && fresh(info)
    {
      tbl24 := new Word16[0x100_0000](_ => 0);
      tblLong := new Word16[255, 0x100]((_, _) => 0);
      tblLongIdx := 0;
      info := new Info[256](_ => ZERO_INFO);
      infoIdx := 0;
      history := History(None, []);
      highWater := 0;
    }

    /** Fails, where the program exits, when 255 routes are waiting. */
    method AddRoute(addr: Word32, prefix: Byte, nextHop: NextHop) returns (ok: bool)
      requires Valid()
      modifies this`infoIdx, this`history, this`highWater, info
      ensures Valid()
      ensures ok <==> |old(history.pending)| < 255
      ensures !ok ==> history == old(history)
      ensures ok ==> history == old(history).(pending := old(history.pending)
                       + [Route(addr, if prefix <= 32 then prefix else 32, nextHop)])
      ensures highWater == if old(highWater) < |history.pending| then |history.pending| else old(highWater)
    {
      if infoIdx >= INVALID {
        return false;
      }
      var p: Prefix := if prefix <= 32 then prefix else 32;
      info[infoIdx] := Info(addr, p, nextHop, true);
      infoIdx := infoIdx + 1;
      history := history.(pending := history.pending + [Route(addr, p, nextHop)]);
      highWater := if highWater < infoIdx then infoIdx else highWater;
      ok := true;
    }

    method ClearTables()
      requires Shape()
      modifies this`tblLongIdx, tbl24, tblLong
      ensures tblLongIdx == 0
      ensures forall i :: 0 <= i < TBL24_SIZE ==> tbl24[i] == INVALID
      ensures forall g, o :: 0 <= g < TBLLONG_SIZE && 0 <= o < GROUP_SIZE ==> tblLong[g, o] == INVALID
    {
      tblLongIdx := 0;
      for i := 0 to TBL24_SIZE
        invariant forall j :: 0 <= j < i ==> tbl24[j] == INVALID
        modifies tbl24
      {
        tbl24[i] := INVALID;
      }
      for i := 0 to TBLLONG_SIZE
        invariant forall g, o :: 0 <= g < i && 0 <= o < GROUP_SIZE ==> tblLong[g, o] == INVALID
        modifies tblLong
      {
        for j := 0 to GROUP_SIZE
          invariant forall g, o :: 0 <= g < TBLLONG_SIZE && 0 <= o < GROUP_SIZE && (g < i || (g == i && o < j)) ==>
                      tblLong[g, o] == INVALID
          modifies tblLong
        {
          tblLong[i, j] := INVALID;
        }
      }
    }

    /** Compiles the waiting routes. The "size is exceeded" exit never happens: the
        only failure is a run of indexes that leaves the table. */
    method Build(shift32: Word32 -> Word32) returns (ok: bool)
      requires Valid()
      modifies this`tblLongIdx, this`infoIdx, this`history, tbl24, tblLong
      ensures ok <==> InBounds(old(history.pending), shift32)
      ensures ok ==> Valid()
      ensures ok ==> history == History(Some(old(history.pending)), [])
    {
      ghost var routes := history.pending;
      ClearTables();
      assert Linked(|routes|) && Finds(routes, 0);
      hide Cell, Best, IdsBelow;
      ok := InsertAll(shift32, routes);
      if ok {
        infoIdx := 0;
        history := History(Some(routes), []);
      }
    }

    /** The build loop: the routes are merged one by one. */
    method InsertAll(shift32: Word32 -> Word32, ghost routes: seq<Route>) returns (ok: bool)
      requires Linked(|routes|) && tblLongIdx == 0 && infoIdx == |routes| && Holds(routes) && Finds(routes, 0)
      requires forall i :: 0 <= i < |routes| ==> info[i].inUse
      modifies this`tblLongIdx, tbl24, tblLong
      ensures ok <==> InBounds(routes, shift32)
      ensures ok ==> Linked(|routes|) && tblLongIdx <= |routes| && Finds(routes, |routes|)
    {
      hide Cell, Best, IdsBelow, Finds;
      var nhId: Word16 := 0;
      while nhId < infoIdx
        invariant nhId <= infoIdx == |routes|
        invariant Linked(|routes|) && tblLongIdx <= nhId
        invariant Finds(routes, nhId)
        invariant InBounds(routes[..nhId], shift32)
        modifies this`tblLongIdx, tbl24, tblLong
      {
        if info[nhId].inUse {
          ok := BuildNextRoute(nhId, shift32, routes);
          if !ok {
            return;
          }
        }
        nhId := nhId + 1;
      }
      assert routes[..nhId] == routes;
      ok := true;
    }

    /** At most two reads find the next hop. */
    method GetNextHop(ip: Word32) returns (hop: Option<NextHop>)
      requires Valid()
      ensures hop == Answer(history, ip)
    {
      SplitAddress(ip);
      var idx: Index24 := Shr32(ip, 8);
      var entIdx: Byte := And(ip, Pow2(8) - 1);
      hide And, Shr32, Best;
      assert history.built.Some? ==> Cell(idx, entIdx) == Encode(Selected(history, ip));
      if tbl24[idx] == INVALID {
        return None;
      }
      if !IsLong(tbl24[idx]) {
        return Some(info[NextId(tbl24[idx])].nextHop);
      }
      var nhId := tblLong[NextId(tbl24[idx]), entIdx];
      if nhId == INVALID {
        return None;
      }
      return Some(info[nhId].nextHop);
    }

    /** The scan stops because the last slot is never in use. It lists the slots of
        the busiest build so far, whatever the last build compiled. */
    method PrintRoutes() returns (shown: seq<Route>)
      requires Valid()
      ensures |shown| == highWater
      ensures forall i :: 0 <= i < highWater ==> shown[i] == info[i].ToRoute()
    {
      var nhId: Word16 := 0;
      shown := [];
      while info[nhId].inUse
        invariant nhId <= highWater && |shown| == nhId
        invariant forall i :: 0 <= i < nhId ==> shown[i] == info[i].ToRoute()
        decreases highWater - nhId
      {
        shown := shown + [info[nhId].ToRoute()];
        nhId := nhId + 1;
      }
    }
  }

  lemma SplitAddress(ip: Word32)
    ensures Shr32(ip, 8) < TBL24_SIZE && And(ip, Pow2(8) - 1) < GROUP_SIZE
    ensures Shr32(ip, 8) * 0x100 + And(ip, Pow2(8) - 1) == ip
  {
    Pow2Values();
    AndLowMask(ip, 8);
    hide And;
  }
}
