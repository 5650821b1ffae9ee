/**
 Dotted-decimal addresses: the parser that cuts the text at each dot and puts the dot back.
 */
module Ipv4Text {
  import opened Bits
  import opened CStrings
  import opened Numbers

  const GROUP_LEN := 3
  const NUM_DOTS := 3

  function Pow256(n: nat): (r: nat)
    ensures r >= 1
  {
    if n == 0 then 1 else 0x100 * Pow256(n - 1)
  }

  /** The contribution of one group, as a 32-bit int; -1 for a number above 255. */
  function GroupVal(group: string, idx: nat): int
    requires idx <= NUM_DOTS
  {
    var v := Atoi(group);
    if 0 <= v <= 0xFF then ToInt32(v * Pow256(NUM_DOTS - idx)) else -1
  }

  /** What one of the first three groups yields: a value and the length of the group, or a reason
      to stop; after a group that is not a number the dot stays overwritten. */
  datatype Step = Group(len: nat, val: int) | Stop | StopCut(len: nat)

  function OneGroup(s: string, idx: nat): (step: Step)
    requires idx < NUM_DOTS
    ensures step.Group? || step.StopCut? ==> step.len < |s| && s[step.len] == '.'
  {
    var d := FirstIndex(s, '.', GROUP_LEN);
    if d == -1 then Stop
    else if !AllDigits(s[..d]) then StopCut(d)
    else if GroupVal(s[..d], idx) == -1 then Stop
    else Group(d, GroupVal(s[..d], idx))
  }

  /** How the parser leaves: with an address, with the text as it was, or with one dot
      overwritten. */
  datatype Outcome = Parsed(addr: Word32) | Refused | Damaged(at: nat)

  /** The parser on the text s that starts at off, with idx groups behind it. */
  function ParseFrom(s: string, idx: nat, off: nat, res: Word32): Outcome
    requires idx <= NUM_DOTS
    decreases NUM_DOTS - idx
  {
    if idx < NUM_DOTS then
      match OneGroup(s, idx)
      case Stop => Refused
      case StopCut(len) => Damaged(off + len)
      case Group(len, val) =>
        ParseFrom(s[len + 1..], idx + 1, off + len + 1, (res + val) % 0x1_0000_0000)
    else if |s| > GROUP_LEN || !AllDigits(s) || GroupVal(s, idx) == -1 then Refused
    else Parsed((res + GroupVal(s, idx)) % 0x1_0000_0000)
  }

  lemma {:induction false} ParseUnfolds(s: string, idx: nat, off: nat, res: Word32)
    requires idx <= NUM_DOTS
    ensures idx < NUM_DOTS ==>
              ParseFrom(s, idx, off, res) ==
                match OneGroup(s, idx)
                case Stop => Refused
                case StopCut(len) => Damaged(off + len)
                case Group(len, val) =>
                  ParseFrom(s[len + 1..], idx + 1, off + len + 1, (res + val) % 0x1_0000_0000)
    ensures idx == NUM_DOTS ==>
              ParseFrom(s, idx, off, res) ==
                if |s| > GROUP_LEN || !AllDigits(s) || GroupVal(s, idx) == -1 then Refused
                else Parsed((res + GroupVal(s, idx)) % 0x1_0000_0000)
  {
  }

  /** Reads one group by cutting the text at its dot, and puts the dot back unless the group
      turns out not to be a number. */
  method ReadGroup(buf: array<char>, begin: nat, groupIdx: nat) returns (step: Step)
    requires Terminated(buf[..], begin) && groupIdx < NUM_DOTS
    modifies buf
    ensures step == OneGroup(Str(old(buf[..]), begin), groupIdx)
    ensures step.StopCut? ==> begin + step.len < buf.Length
    ensures buf[..] == if step.StopCut? then old(buf[..])[begin + step.len := NUL] else old(buf[..])
  {
    hide GroupVal;
    ghost var before := buf[..];
    var offset := IndexOfFirstChar(buf, begin, '.', GROUP_LEN);
    if offset == -1 {
      return Stop;
    }
    var end := begin + offset;
    CutString(before, begin, offset);
    buf[end] := NUL;
    assert buf[..] == before[end := NUL];
    var decimal := AreAllCharDecimal(buf, begin);
    if !decimal {
      return StopCut(offset);
    }
    var groupVal := GroupVal(Str(buf[..], begin), groupIdx);
    buf[end] := '.';
    assert buf[..] == before;
    if groupVal == -1 {
      return Stop;
    }
    return Group(offset, groupVal);
  }

  /** In place: unless a group is not a number the buffer is as it was, byte for byte. */
  method Ipv4AddrFromStr(buf: array<char>, p: nat) returns (ok: bool, addr: Word32)
    requires Terminated(buf[..], p)
    modifies buf
    ensures var outcome := ParseFrom(Str(old(buf[..]), p), 0, p, 0);
            && (ok <==> outcome.Parsed?)
            && (ok ==> addr == outcome.addr)
            && (outcome.Damaged? ==> outcome.at < buf.Length)
            && buf[..] == if outcome.Damaged? then old(buf[..])[outcome.at := NUL] else old(buf[..])
  {
    hide OneGroup, GroupVal, ParseFrom;
    ghost var before := buf[..];
    ok, addr := false, 0;
    var begin: nat, groupIdx: nat := p, 0;
    var res: Word32 := 0;
    while groupIdx < NUM_DOTS
      invariant 0 <= groupIdx <= NUM_DOTS
      invariant buf[..] == before && Terminated(before, begin)
      invariant ParseFrom(Str(before, p), 0, p, 0) == ParseFrom(Str(before, begin), groupIdx, begin, res)
    {
      ParseUnfolds(Str(before, begin), groupIdx, begin, res);
      var step := ReadGroup(buf, begin, groupIdx);
      if !step.Group? {
        return;
      }
      StrSuffix(before, begin, step.len + 1);
      begin := begin + step.len + 1;
      res := (res + step.val) % 0x1_0000_0000;
      groupIdx := groupIdx + 1;
    }
    ok, addr := ReadLast(buf, begin, res);
  }

  /** The last group, which ends the text. */
  method ReadLast(buf: array<char>, begin: nat, res: Word32) returns (ok: bool, addr: Word32)
    requires Terminated(buf[..], begin)
    ensures var outcome := ParseFrom(Str(buf[..], begin), NUM_DOTS, begin, res);
            !outcome.Damaged? && (ok <==> outcome.Parsed?) && (ok ==> addr == outcome.addr)
  {
    hide GroupVal, ParseFrom;
    ok, addr := false, 0;
    var group := Str(buf[..], begin);
    ParseUnfolds(group, NUM_DOTS, begin, res);
    if |group| > GROUP_LEN {
      return;
    }
    var decimal := AreAllCharDecimal(buf, begin);
    if !decimal {
      return;
    }
    var groupVal := GroupVal(group, NUM_DOTS);
    if groupVal == -1 {
      return;
    }
    ok, addr := true, (res + groupVal) % 0x1_0000_0000;
  }

  // ---------- the accepted texts ----------

  predicate GoodGroup(g: string) {
    |g| <= 3 && AllDigits(g) && DecValue(g) <= 255
  }

  predicate GoodGroups(gs: seq<string>) {
    forall i :: 0 <= i < |gs| ==> GoodGroup(gs[i])
  }

  /** The base-256 number the groups spell. */
  function GroupsValue(gs: seq<string>): nat
    requires GoodGroups(gs)
  {
    if gs == [] then 0 else DecValue(gs[0]) * Pow256(|gs| - 1) + GroupsValue(gs[1..])
  }

  lemma {:induction false} GroupsValueBound(gs: seq<string>)
    requires GoodGroups(gs)
    ensures GroupsValue(gs) < Pow256(|gs|)
  {
    if gs != [] {
      GroupsValueBound(gs[1..]);
      MulAtMost(DecValue(gs[0]), 0xFF, Pow256(|gs| - 1));
    }
  }

  lemma MulAtMost(a: nat, b: nat, c: nat)
    requires a <= b
    ensures a * c <= b * c
  {
  }

  /** -1 is never the value of a good group, and the sum modulo 2^32 is not disturbed by the sign. */
  lemma {:induction false} GroupValOfGood(g: string, idx: nat)
    requires GoodGroup(g) && idx <= NUM_DOTS
    ensures GroupVal(g, idx) != -1
    ensures (GroupVal(g, idx) - DecValue(g) * Pow256(NUM_DOTS - idx)) % 0x1_0000_0000 == 0
  {
    AtoiOfDigits(g);
    hide Atoi, DecValue, ToInt32;
    assert Pow256(0) == 1 && Pow256(1) == 0x100 && Pow256(2) == 0x1_0000 && Pow256(3) == 0x100_0000;
    hide Pow256;
    ScaledByte(DecValue(g), Pow256(NUM_DOTS - idx));
  }

  lemma ScaledByte(v: Byte, p: nat)
    requires p == 1 || p == 0x100 || p == 0x1_0000 || p == 0x100_0000
    ensures ToInt32(v * p) != -1 && (ToInt32(v * p) - v * p) % 0x1_0000_0000 == 0
  {
    hide ToInt32;
    ToInt32Is(v * p);
  }

  /** Below 2^32 the cut to 32 bits takes 2^32 off the upper half. */
  lemma ToInt32Is(x: nat)
    requires x < 0x1_0000_0000
    ensures ToInt32(x) == if x < 0x8000_0000 then x else x - 0x1_0000_0000
  {
  }

  lemma {:induction false} GroupValOfBad(g: string, idx: nat)
    requires AllDigits(g) && |g| <= GROUP_LEN && idx <= NUM_DOTS && DecValue(g) > 0xFF
    ensures GroupVal(g, idx) == -1
  {
    DecValueBound(g);
    assert Pow10(3) == 1000 && Pow10(2) == 100 && Pow10(1) == 10;
    AtoiOfDigits(g);
  }

  lemma {:induction false} NoDotInDigits(g: string)
    requires AllDigits(g)
    ensures '.' !in g
  {
  }

  /** A good group followed by a dot is read as such. */
  lemma {:induction false} OneGoodGroup(g: string, rest: string, idx: nat)
    requires GoodGroup(g) && idx < NUM_DOTS
    ensures OneGroup(g + ['.'] + rest, idx) == Group(|g|, GroupVal(g, idx))
    ensures (g + ['.'] + rest)[|g| + 1..] == rest
  {
    var s := g + ['.'] + rest;
    assert s[..|g|] == g;
    NoDotInDigits(g);
    FirstIndexUnique(s, '.', GROUP_LEN, |g|);
    GroupValOfGood(g, idx);
    hide GroupVal, FirstIndex;
  }

  lemma AddModulo(a: int, b: int, c: int, m: int)
    requires m > 0 && (b - c) % m == 0
    ensures (a + b) % m == (a + c) % m
  {
    var q, k := (a + c) / m, (b - c) / m;
    assert a + b == m * (q + k) + (a + c) % m by {
      assert m * (q + k) == m * q + m * k;
    }
    QuotientUnique(a + b, m, q + k, (a + c) % m);
  }

  lemma AddModuloLeft(a: int, b: int, m: int)
    requires m > 0
    ensures (a % m + b) % m == (a + b) % m
  {
    assert a - a % m == m * (a / m);
    QuotientUnique(a - a % m, m, a / m, 0);
    QuotientUnique(a % m - a, m, -(a / m), 0);
    AddModulo(b, a % m, a, m);
  }

  lemma SumStep(res: int, val: int, weight: int, rest: int, m: int)
    requires m > 0 && (val - weight) % m == 0
    ensures ((res + val) % m + rest) % m == (res + (weight + rest)) % m
  {
    AddModuloLeft(res + val, rest, m);
    AddModulo(res + rest, val, weight, m);
  }

  /** Every text of good groups is accepted, with the number they spell. */
  lemma {:induction false} GoodGroupsParse(gs: seq<string>, idx: nat, off: nat, res: Word32)
    requires idx <= NUM_DOTS && |gs| == NUM_DOTS + 1 - idx && GoodGroups(gs)
    ensures ParseFrom(Join(gs, '.'), idx, off, res) == Parsed((res + GroupsValue(gs)) % 0x1_0000_0000)
    decreases |gs|
  {
    hide ParseFrom, GroupVal, OneGroup, DecValue;
    var g, val := gs[0], GroupVal(gs[0], idx);
    var weight := DecValue(g) * Pow256(|gs| - 1);
    GroupValOfGood(g, idx);
    ParseUnfolds(Join(gs, '.'), idx, off, res);
    assert GroupsValue(gs) == weight + GroupsValue(gs[1..]);
    if |gs| > 1 {
      OneGoodGroup(g, Join(gs[1..], '.'), idx);
      GoodGroupsParse(gs[1..], idx + 1, off + |g| + 1, (res + val) % 0x1_0000_0000);
      SumStep(res, val, weight, GroupsValue(gs[1..]), 0x1_0000_0000);
    } else {
      AddModulo(res, val, weight, 0x1_0000_0000);
    }
  }

  lemma OneGroupMeans(s: string, idx: nat)
    requires idx < NUM_DOTS && OneGroup(s, idx).Group?
    ensures var len := OneGroup(s, idx).len;
            && len <= GROUP_LEN && AllDigits(s[..len]) && GroupVal(s[..len], idx) != -1
            && s == s[..len] + ['.'] + s[len + 1..]
  {
    hide GroupVal;
  }

  /** Every accepted text is one of four good groups. */
  lemma {:induction false} ParsedIsGoodGroups(s: string, idx: nat, off: nat, res: Word32) returns (gs: seq<string>)
    requires idx <= NUM_DOTS && ParseFrom(s, idx, off, res).Parsed?
    ensures |gs| == NUM_DOTS + 1 - idx && GoodGroups(gs) && s == Join(gs, '.')
    decreases NUM_DOTS - idx
  {
    hide ParseFrom, OneGroup, GroupVal, GoodGroup;
    ParseUnfolds(s, idx, off, res);
    if idx < NUM_DOTS {
      OneGroupMeans(s, idx);
      var step := OneGroup(s, idx);
      var g := s[..step.len];
      GroupIsGood(g, idx);
      var more := ParsedIsGoodGroups(s[step.len + 1..], idx + 1, off + step.len + 1, (res + step.val) % 0x1_0000_0000);
      gs := [g] + more;
      assert gs[1..] == more;
    } else {
      GroupIsGood(s, idx);
      gs := [s];
    }
  }

  lemma {:induction false} GroupIsGood(g: string, idx: nat)
    requires AllDigits(g) && |g| <= GROUP_LEN && idx <= NUM_DOTS && GroupVal(g, idx) != -1
    ensures GoodGroup(g)
  {
    if DecValue(g) > 0xFF {
      GroupValOfBad(g, idx);
    }
  }

  /** The parser accepts exactly four dot-separated groups of up to three digits, each at most
      255, and yields the number they spell in base 256. */
  lemma {:induction false} AcceptedExactly(s: string, off: nat, addr: Word32)
    ensures ParseFrom(s, 0, off, 0) == Parsed(addr) <==>
            exists gs: seq<string> :: |gs| == 4 && GoodGroups(gs) && s == Join(gs, '.') && addr == GroupsValue(gs)
  {
    hide ParseFrom, Join, GroupsValue;
    if ParseFrom(s, 0, off, 0) == Parsed(addr) {
      var gs := ParsedIsGoodGroups(s, 0, off, 0);
      FourGroups(gs, off);
    }
    if gs: seq<string> :| |gs| == 4 && GoodGroups(gs) && s == Join(gs, '.') && addr == GroupsValue(gs) {
      FourGroups(gs, off);
    }
  }

  /** Where the text lies in the buffer does not matter for what is accepted. */
  lemma OffsetIrrelevant(s: string, off: nat, other: nat)
    ensures ParseFrom(s, 0, off, 0).Parsed? <==> ParseFrom(s, 0, other, 0).Parsed?
    ensures ParseFrom(s, 0, off, 0).Parsed? ==> ParseFrom(s, 0, other, 0) == ParseFrom(s, 0, off, 0)
  {
    hide ParseFrom, Join, GroupsValue;
    if ParseFrom(s, 0, off, 0).Parsed? {
      AcceptedExactly(s, off, ParseFrom(s, 0, off, 0).addr);
      AcceptedExactly(s, other, ParseFrom(s, 0, off, 0).addr);
    }
    if ParseFrom(s, 0, other, 0).Parsed? {
      AcceptedExactly(s, off, ParseFrom(s, 0, other, 0).addr);
      AcceptedExactly(s, other, ParseFrom(s, 0, other, 0).addr);
    }
  }

  lemma {:induction false} FourGroups(gs: seq<string>, off: nat)
    requires |gs| == 4 && GoodGroups(gs)
    ensures GroupsValue(gs) < 0x1_0000_0000 && ParseFrom(Join(gs, '.'), 0, off, 0) == Parsed(GroupsValue(gs))
  {
    hide ParseFrom, Join, GroupsValue;
    GroupsValueBound(gs);
    assert Pow256(4) == 0x1_0000_0000 by {
      assert Pow256(2) == 0x1_0000;
    }
    hide Pow256;
    GoodGroupsParse(gs, 0, off, 0);
    QuotientUnique(GroupsValue(gs), 0x1_0000_0000, 0, GroupsValue(gs));
  }

  /** Groups without digits count as 0. */
  lemma {:induction false} EmptyGroupsAccepted(off: nat)
    ensures ParseFrom("..1.", 0, off, 0) == Parsed(0x100)
  {
    var gs: seq<string> := ["", "", "1", ""];
    EmptyGroups(gs);
    hide *;
    FourGroups(gs, off);
  }

  lemma {:induction false} EmptyGroups(gs: seq<string>)
    requires gs == ["", "", "1", ""]
    ensures Join(gs, '.') == "..1." && GoodGroups(gs) && GroupsValue(gs) == 0x100
  {
    assert DecValue("") == 0 && DecValue("1") == 1;
    hide DecValue, Join, GroupsValue;
    JoinOfFour(gs);
    ValueOfFour(gs);
  }

  lemma {:induction false} JoinOfFour(gs: seq<string>)
    requires |gs| == 4
    ensures Join(gs, '.') == gs[0] + ['.'] + (gs[1] + ['.'] + (gs[2] + ['.'] + gs[3]))
  {
    assert Join(gs[1..][1..], '.') == gs[2] + ['.'] + gs[3];
  }

  // ---------- printing ----------

  function Dotted(addr: Word32): string {
    Join([Dec(addr / 0x100_0000), Dec(addr / 0x1_0000 % 0x100), Dec(addr / 0x100 % 0x100), Dec(addr % 0x100)], '.')
  }

  lemma {:induction false} DecOfByte(b: Byte)
    ensures GoodGroup(Dec(b)) && DecValue(Dec(b)) == b
  {
    DecRoundTrip(b);
    assert Pow10(3) == 1000 by {
      assert Pow10(2) == 100;
    }
    DecLength(b, 3);
  }

  /** Parsing undoes printing, for every address. */
  lemma {:induction false} DottedRoundTrip(addr: Word32, off: nat)
    ensures ParseFrom(Dotted(addr), 0, off, 0) == Parsed(addr)
  {
    hide Dec, DecValue, ParseFrom, Join, GroupsValue;
    var a: Byte, b: Byte, c: Byte, d: Byte :=
      addr / 0x100_0000, addr / 0x1_0000 % 0x100, addr / 0x100 % 0x100, addr % 0x100;
    DecOfByte(a);
    DecOfByte(b);
    DecOfByte(c);
    DecOfByte(d);
    var gs := [Dec(a), Dec(b), Dec(c), Dec(d)];
    FourGroups(gs, off);
    ValueOfFour(gs);
    FourBytes(addr);
  }

  lemma FourBytes(addr: Word32)
    ensures addr == (addr / 0x100_0000) * 0x100_0000 + (addr / 0x1_0000 % 0x100) * 0x1_0000
                    + (addr / 0x100 % 0x100) * 0x100 + addr % 0x100
  {
    DivDiv(addr, 0x100, 0x100);
    DivDiv(addr, 0x1_0000, 0x100);
  }

  lemma {:induction false} ValueOfFour(gs: seq<string>)
    requires |gs| == 4 && GoodGroups(gs)
    ensures GroupsValue(gs) == DecValue(gs[0]) * 0x100_0000 + DecValue(gs[1]) * 0x1_0000
                               + DecValue(gs[2]) * 0x100 + DecValue(gs[3])
  {
    hide DecValue;
    assert Pow256(1) == 0x100 && Pow256(2) == 0x1_0000 && Pow256(3) == 0x100_0000;
    assert GroupsValue(gs[1..][1..][1..]) == DecValue(gs[3]);
    assert GroupsValue(gs[1..][1..]) == DecValue(gs[2]) * 0x100 + DecValue(gs[3]);
  }
}
