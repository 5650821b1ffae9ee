/**
 Hardware addresses as six colon-separated hexadecimal groups: the parser that cuts the text at
 each colon and puts it back.
 */
module MacText {
  import opened Bits
  import opened Routes
  import opened CStrings
  import opened Numbers

  const GROUP_LEN := 2
  const NUM_COLONS := 5

  /** What one of the first five groups yields, as for an address group. */
  datatype Step = Group(len: nat, val: nat) | Stop | StopCut(len: nat)

  function OneGroup(s: string): (step: Step)
    ensures step.Group? || step.StopCut? ==> step.len < |s| && s[step.len] == ':'
    ensures step.Group? ==> step.val <= 0xFF
  {
    var d := FirstIndex(s, ':', GROUP_LEN);
    if d == -1 then Stop
    else if !AllHex(s[..d]) then StopCut(d)
    else if HexValue(s[..d]) > 0xFF then Stop
    else Group(d, HexValue(s[..d]))
  }

  datatype Outcome = Parsed(mac: Mac) | Refused | Damaged(at: nat)

  /** The parser on the text s that starts at off, with the bytes read so far. */
  function ParseFrom(s: string, off: nat, bytes: seq<Byte>): Outcome
    requires |bytes| <= NUM_COLONS
    decreases NUM_COLONS - |bytes|
  {
    if |bytes| < NUM_COLONS then
      match OneGroup(s)
      case Stop => Refused
      case StopCut(len) => Damaged(off + len)
      case Group(len, val) =>
        ParseFrom(s[len + 1..], off + len + 1, bytes + [val])
    else if |s| != GROUP_LEN || !AllHex(s) || HexValue(s) > 0xFF then Refused
    else Parsed(bytes + [HexValue(s)])
  }

  /** The range test after the length and digit tests never fails. */
  lemma RangeTestNeverFails(g: string)
    requires |g| <= GROUP_LEN && AllHex(g)
    ensures HexValue(g) <= 0xFF
  {
    HexValueBound(g);
  }

  lemma {:induction false} ParseUnfolds(s: string, off: nat, bytes: seq<Byte>)
    requires |bytes| <= NUM_COLONS
    ensures |bytes| < NUM_COLONS ==>
              match OneGroup(s)
              case Stop => ParseFrom(s, off, bytes) == Refused
              case StopCut(len) => ParseFrom(s, off, bytes) == Damaged(off + len)
              case Group(len, val) =>
                ParseFrom(s, off, bytes) == ParseFrom(s[len + 1..], off + len + 1, bytes + [val])
    ensures |bytes| == NUM_COLONS ==>
              if |s| != GROUP_LEN || !AllHex(s) then ParseFrom(s, off, bytes) == Refused
              else HexValue(s) <= 0xFF && ParseFrom(s, off, bytes) == Parsed(bytes + [HexValue(s)])
  {
    if |bytes| == NUM_COLONS && |s| == GROUP_LEN && AllHex(s) {
      RangeTestNeverFails(s);
    }
  }

  method ReadGroup(buf: array<char>, begin: nat) returns (step: Step)
    requires Terminated(buf[..], begin)
    modifies buf
    ensures step == OneGroup(Str(old(buf[..]), begin))
    ensures step.StopCut? ==> begin + step.len < buf.Length
    ensures buf[..] == if step.StopCut? then old(buf[..])[begin + step.len := NUL] else old(buf[..])
  {
    hide HexValue;
    ghost var before := buf[..];
    var offset := IndexOfFirstChar(buf, begin, ':', GROUP_LEN);
    if offset == -1 {
      return Stop;
    }
    var end := begin + offset;
    CutString(before, begin, offset);
    buf[end] := NUL;
    assert buf[..] == before[end := NUL];
    var hex := AreAllCharHexadecimal(buf, begin);
    if !hex {
      return StopCut(offset);
    }
    var groupVal := HexValue(Str(buf[..], begin));
    buf[end] := ':';
    assert buf[..] == before;
    if groupVal > 0xFF {
      return Stop;
    }
    return Group(offset, groupVal);
  }

  /** In place: unless a group is not hexadecimal the buffer is as it was, byte for byte. */
  method MacAddrFromStr(buf: array<char>, p: nat) returns (ok: bool, mac: Mac)
    requires Terminated(buf[..], p)
    modifies buf
    ensures var outcome := ParseFrom(Str(old(buf[..]), p), p, []);
            && (ok <==> outcome.Parsed?)
            && (ok ==> mac == outcome.mac)
            && (outcome.Damaged? ==> outcome.at < buf.Length)
            && buf[..] == if outcome.Damaged? then old(buf[..])[outcome.at := NUL] else old(buf[..])
  {
    hide OneGroup, HexValue, ParseFrom;
    ghost var before := buf[..];
    ok, mac := false, [0, 0, 0, 0, 0, 0];
    var begin: nat := p;
    var bytes: seq<Byte> := [];
    while |bytes| < NUM_COLONS
      invariant |bytes| <= NUM_COLONS
      invariant buf[..] == before && Terminated(before, begin)
      invariant ParseFrom(Str(before, p), p, []) == ParseFrom(Str(before, begin), begin, bytes)
      decreases NUM_COLONS - |bytes|
    {
      ParseUnfolds(Str(before, begin), begin, bytes);
      var step := ReadGroup(buf, begin);
      if !step.Group? {
        return;
      }
      StrSuffix(before, begin, step.len + 1);
      begin := begin + step.len + 1;
      bytes := bytes + [step.val];
    }
    ParseUnfolds(Str(before, begin), begin, bytes);
    if |Str(buf[..], begin)| != GROUP_LEN {
      return;
    }
    var hex := AreAllCharHexadecimal(buf, begin);
    if !hex {
      return;
    }
    var groupVal := HexValue(Str(buf[..], begin));
    if groupVal > 0xFF {
      return;
    }
    ok, mac := true, bytes + [groupVal];
  }

  // ---------- the accepted texts ----------

  /** Up to two hexadecimal digits; exactly two in the last group. */
  predicate GoodGroups(gs: seq<string>) {
    && (forall i :: 0 <= i < |gs| ==> |gs[i]| <= 2 && AllHex(gs[i]))
    && (gs != [] ==> |gs[|gs| - 1]| == 2)
  }

  function GroupBytes(gs: seq<string>): (bytes: seq<Byte>)
    requires forall i :: 0 <= i < |gs| ==> |gs[i]| <= 2 && AllHex(gs[i])
    ensures |bytes| == |gs|
    ensures forall i :: 0 <= i < |gs| ==> bytes[i] == HexValue(gs[i])
  {
    if gs == [] then []
    else
      RangeTestNeverFails(gs[0]);
      [HexValue(gs[0])] + GroupBytes(gs[1..])
  }

  lemma {:induction false} OneGoodGroup(g: string, rest: string)
    requires |g| <= GROUP_LEN && AllHex(g)
    ensures OneGroup(g + [':'] + rest) == Group(|g|, HexValue(g))
    ensures (g + [':'] + rest)[|g| + 1..] == rest
  {
    var s := g + [':'] + rest;
    assert s[..|g|] == g;
    assert ':' !in g;
    FirstIndexUnique(s, ':', GROUP_LEN, |g|);
    RangeTestNeverFails(g);
    hide HexValue, FirstIndex;
  }

  lemma {:induction false} GoodGroupsParse(gs: seq<string>, off: nat, bytes: seq<Byte>)
    requires |bytes| <= NUM_COLONS && |gs| == NUM_COLONS + 1 - |bytes| && GoodGroups(gs)
    ensures ParseFrom(Join(gs, ':'), off, bytes) == Parsed(bytes + GroupBytes(gs))
    decreases |gs|
  {
    hide ParseFrom, OneGroup, HexValue, GroupBytes;
    ParseUnfolds(Join(gs, ':'), off, bytes);
    if |gs| > 1 {
      assert GoodGroups(gs[1..]);
      OneGoodGroup(gs[0], Join(gs[1..], ':'));
      RangeTestNeverFails(gs[0]);
      GoodGroupsParse(gs[1..], off + |gs[0]| + 1, bytes + [HexValue(gs[0])]);
      assert bytes + GroupBytes(gs) == (bytes + [HexValue(gs[0])]) + GroupBytes(gs[1..]);
    } else {
      assert GroupBytes(gs) == [HexValue(gs[0])];
    }
  }

  lemma OneGroupMeans(s: string)
    requires OneGroup(s).Group?
    ensures var len := OneGroup(s).len;
            len <= GROUP_LEN && AllHex(s[..len]) && s == s[..len] + [':'] + s[len + 1..]
  {
    hide HexValue;
  }

  lemma {:induction false} ParsedIsGoodGroups(s: string, off: nat, bytes: seq<Byte>) returns (gs: seq<string>)
    requires |bytes| <= NUM_COLONS && ParseFrom(s, off, bytes).Parsed?
    ensures |gs| == NUM_COLONS + 1 - |bytes| && GoodGroups(gs) && s == Join(gs, ':')
    decreases NUM_COLONS - |bytes|
  {
    hide ParseFrom, OneGroup, HexValue;
    ParseUnfolds(s, off, bytes);
    if |bytes| < NUM_COLONS {
      OneGroupMeans(s);
      var step := OneGroup(s);
      var more := ParsedIsGoodGroups(s[step.len + 1..], off + step.len + 1, bytes + [step.val]);
      gs := [s[..step.len]] + more;
      assert gs[1..] == more && gs[|gs| - 1] == more[|more| - 1];
    } else {
      gs := [s];
    }
  }

  /** The parser accepts exactly six colon-separated groups of up to two hexadecimal digits, the
      last of exactly two, and yields their values. */
  lemma {:induction false} AcceptedExactly(s: string, off: nat, mac: Mac)
    ensures ParseFrom(s, off, []) == Parsed(mac) <==>
            exists gs: seq<string> :: |gs| == 6 && GoodGroups(gs) && s == Join(gs, ':') && mac == GroupBytes(gs)
  {
    hide ParseFrom, Join, GroupBytes;
    if ParseFrom(s, off, []) == Parsed(mac) {
      var gs := ParsedIsGoodGroups(s, off, []);
      GoodGroupsParse(gs, off, []);
      assert [] + GroupBytes(gs) == GroupBytes(gs);
    }
    if gs: seq<string> :| |gs| == 6 && GoodGroups(gs) && s == Join(gs, ':') && mac == GroupBytes(gs) {
      GoodGroupsParse(gs, off, []);
      assert [] + GroupBytes(gs) == GroupBytes(gs);
    }
  }

  /** Where the text lies in the buffer does not matter for what is accepted. */
  lemma OffsetIrrelevant(s: string, off: nat, other: nat)
    ensures ParseFrom(s, off, []).Parsed? <==> ParseFrom(s, other, []).Parsed?
    ensures ParseFrom(s, off, []).Parsed? ==> ParseFrom(s, other, []) == ParseFrom(s, off, [])
  {
    hide ParseFrom, Join, GroupBytes;
    if ParseFrom(s, off, []).Parsed? {
      AcceptedExactly(s, off, ParseFrom(s, off, []).mac);
      AcceptedExactly(s, other, ParseFrom(s, off, []).mac);
    }
    if ParseFrom(s, other, []).Parsed? {
      AcceptedExactly(s, off, ParseFrom(s, other, []).mac);
      AcceptedExactly(s, other, ParseFrom(s, other, []).mac);
    }
  }

  /** Groups without digits count as 0, except the last. */
  lemma {:induction false} EmptyGroupsAccepted(off: nat)
    ensures ParseFrom(":::::ff", off, []) == Parsed([0, 0, 0, 0, 0, 0xFF])
  {
    var gs: seq<string> := ["", "", "", "", "", "ff"];
    EmptyGroups(gs);
    EmptyGroupBytes(gs);
    hide *;
    GoodGroupsParse(gs, off, []);
    assert [] + GroupBytes(gs) == [0, 0, 0, 0, 0, 0xFF];
  }

  lemma {:induction false} EmptyGroups(gs: seq<string>)
    requires gs == ["", "", "", "", "", "ff"]
    ensures Join(gs, ':') == ":::::ff"
  {
    assert Join(gs[1..][1..][1..][1..][1..], ':') == "ff";
    assert Join(gs[1..][1..][1..][1..], ':') == ":ff" && Join(gs[1..][1..][1..], ':') == "::ff";
    assert Join(gs[1..][1..], ':') == ":::ff" && Join(gs[1..], ':') == "::::ff";
  }

  lemma {:induction false} EmptyGroupBytes(gs: seq<string>)
    requires gs == ["", "", "", "", "", "ff"]
    ensures GoodGroups(gs) && GroupBytes(gs) == [0, 0, 0, 0, 0, 0xFF]
  {
    assert HexValue("") == 0 && HexValue("f") == 15 && "ff"[..1] == "f" && HexValue("ff") == 0xFF;
    hide HexValue;
  }

  // ---------- printing ----------

  function HexGroups(mac: Mac): (gs: seq<string>)
    ensures |gs| == 6
  {
    [Hex2(mac[0]), Hex2(mac[1]), Hex2(mac[2]), Hex2(mac[3]), Hex2(mac[4]), Hex2(mac[5])]
  }

  /** Parsing undoes printing, for every hardware address. */
  lemma {:induction false} MacRoundTrip(mac: Mac, off: nat)
    ensures ParseFrom(Join(HexGroups(mac), ':'), off, []) == Parsed(mac)
  {
    var gs := HexGroups(mac);
    forall i | 0 <= i < 6 ensures gs[i] == Hex2(mac[i]) && AllHex(gs[i]) && HexValue(gs[i]) == mac[i] {
      HexRoundTrip(mac[i]);
    }
    hide HexValue, ParseFrom, Join, GroupBytes;
    assert GoodGroups(gs);
    GoodGroupsParse(gs, off, []);
    assert [] + GroupBytes(gs) == mac;
  }

  function CapitalGroups(mac: Mac): (gs: seq<string>)
    ensures |gs| == 6
  {
    [Capital2(mac[0]), Capital2(mac[1]), Capital2(mac[2]), Capital2(mac[3]), Capital2(mac[4]), Capital2(mac[5])]
  }

  /** The same with capital digits. */
  lemma {:induction false} CapitalMacRoundTrip(mac: Mac, off: nat)
    ensures ParseFrom(Join(CapitalGroups(mac), ':'), off, []) == Parsed(mac)
  {
    var gs := CapitalGroups(mac);
    forall i | 0 <= i < 6 ensures gs[i] == Capital2(mac[i]) && AllHex(gs[i]) && HexValue(gs[i]) == mac[i] {
      CapitalRoundTrip(mac[i]);
    }
    hide HexValue, ParseFrom, Join, GroupBytes;
    assert GoodGroups(gs);
    GoodGroupsParse(gs, off, []);
    assert [] + GroupBytes(gs) == mac;
  }

  function LowerAll(gs: seq<string>): (ls: seq<string>)
    ensures |ls| == |gs| && forall i :: 0 <= i < |gs| ==> ls[i] == Lower(gs[i])
  {
    seq(|gs|, i requires 0 <= i < |gs| => Lower(gs[i]))
  }

  lemma {:induction false} LowerJoin(gs: seq<string>)
    requires gs != []
    ensures Lower(Join(gs, ':')) == Join(LowerAll(gs), ':')
  {
    if |gs| > 1 {
      LowerJoin(gs[1..]);
      assert LowerAll(gs)[1..] == LowerAll(gs[1..]);
      assert Lower(gs[0] + [':'] + Join(gs[1..], ':')) == Lower(gs[0]) + [':'] + Lower(Join(gs[1..], ':'));
    }
  }

  /** A text comes apart where its lower-case form does. */
  lemma {:induction false} UnLowerJoin(s: string, ls: seq<string>) returns (gs: seq<string>)
    requires ls != [] && Lower(s) == Join(ls, ':')
    ensures |gs| == |ls| && s == Join(gs, ':') && LowerAll(gs) == ls
    decreases |ls|
  {
    if |ls| == 1 {
      gs := [s];
      assert LowerAll(gs)[0] == ls[0];
    } else {
      var n := |ls[0]|;
      assert Lower(s)[n] == ':' && Lower(s)[..n] == ls[0] && Lower(s)[n + 1..] == Join(ls[1..], ':');
      assert Lower(s[n + 1..]) == Lower(s)[n + 1..] && Lower(s[..n]) == Lower(s)[..n];
      hide Join;
      var more := UnLowerJoin(s[n + 1..], ls[1..]);
      gs := [s[..n]] + more;
      assert gs[1..] == more && s == s[..n] + [':'] + s[n + 1..];
      JoinUnfolds(gs);
      assert forall i :: 1 <= i < |ls| ==> LowerAll(gs)[i] == LowerAll(more)[i - 1];
    }
  }

  lemma JoinUnfolds(gs: seq<string>)
    requires |gs| > 1
    ensures Join(gs, ':') == gs[0] + [':'] + Join(gs[1..], ':')
  {
  }

  lemma {:induction false} LowerGroups(gs: seq<string>)
    ensures GoodGroups(gs) <==> GoodGroups(LowerAll(gs))
    ensures GoodGroups(gs) ==> GroupBytes(LowerAll(gs)) == GroupBytes(gs)
  {
    forall i | 0 <= i < |gs| ensures |Lower(gs[i])| == |gs[i]| && (AllHex(gs[i]) <==> AllHex(Lower(gs[i]))) {
      LowerHex(gs[i]);
    }
    hide AllHex, Lower, GroupBytes, LowerAll;
    if GoodGroups(gs) {
      LowerBytes(gs);
    }
  }

  lemma {:induction false} LowerBytes(gs: seq<string>)
    requires GoodGroups(gs) && GoodGroups(LowerAll(gs))
    ensures GroupBytes(LowerAll(gs)) == GroupBytes(gs)
  {
    hide AllHex, Lower, GroupBytes, LowerAll, HexValue;
    forall i | 0 <= i < |gs| ensures GroupBytes(LowerAll(gs))[i] == GroupBytes(gs)[i] {
      CaseIrrelevant(gs[i]);
    }
  }

  lemma LowerHex(g: string)
    ensures AllHex(g) <==> AllHex(Lower(g))
  {
    assert forall i :: 0 <= i < |g| ==> (IsHex(g[i]) <==> IsHex(Lower(g)[i]));
  }

  /** A text and its lower-case form name the same address, or both none. */
  lemma {:induction false} CaseOfMacIrrelevant(s: string, off: nat, mac: Mac)
    ensures ParseFrom(s, off, []) == Parsed(mac) <==> ParseFrom(Lower(s), off, []) == Parsed(mac)
  {
    hide ParseFrom, Join, GroupBytes, Lower, LowerAll, AllHex;
    AcceptedExactly(s, off, mac);
    AcceptedExactly(Lower(s), off, mac);
    if ParseFrom(s, off, []) == Parsed(mac) {
      var gs :| |gs| == 6 && GoodGroups(gs) && s == Join(gs, ':') && mac == GroupBytes(gs);
      LowerGroups(gs);
      LowerJoin(gs);
    }
    if ParseFrom(Lower(s), off, []) == Parsed(mac) {
      var ls :| |ls| == 6 && GoodGroups(ls) && Lower(s) == Join(ls, ':') && mac == GroupBytes(ls);
      var gs := UnLowerJoin(s, ls);
      LowerGroups(gs);
    }
  }
}
