/**
 The route option "address/prefix,mac,interface": parsed in place, then added to the table.
 */
module RouteOption {
  import opened Bits
  import opened Routes
  import opened RoutingTables
  import opened CStrings
  import opened Numbers
  import Ipv4Text
  import MacText

  const IPV4_MAX_ADDR_LEN := 15
  const MAX_DEC_DIGIT_LEN := 10
  const MAC_ADDR_LEN := 17

  /** What the option says, or None where it is refused. The prefix is read by atoi alone, so
      anything that starts like a number up to 32 passes. */
  function ParseOption(s: string): Option<Route> {
    var d1 := FirstIndex(s, '/', IPV4_MAX_ADDR_LEN);
    if d1 == -1 then None else
    var addr := Ipv4Text.ParseFrom(s[..d1], 0, 0, 0);
    if !addr.Parsed? then None else
    ParsePrefix(s[d1 + 1..], addr.addr)
  }

  function ParsePrefix(s: string, addr: Word32): Option<Route> {
    var d2 := FirstIndex(s, ',', MAX_DEC_DIGIT_LEN);
    if d2 == -1 then None else
    var cidr := Atoi(s[..d2]);
    if !(0 <= cidr <= 32) then None else
    ParseHop(s[d2 + 1..], addr, cidr)
  }

  function ParseHop(s: string, addr: Word32, cidr: Prefix): Option<Route> {
    var d3 := FirstIndex(s, ',', MAC_ADDR_LEN);
    if d3 == -1 then None else
    var mac := MacText.ParseFrom(s[..d3], 0, []);
    if !mac.Parsed? then None else
    ParsePort(s[d3 + 1..], addr, cidr, mac.mac)
  }

  function ParsePort(s: string, addr: Word32, cidr: Prefix, mac: Mac): Option<Route> {
    if |s| >= MAX_DEC_DIGIT_LEN || !AllDigits(s) || !(0 <= Atoi(s) <= 0xFF) then None
    else Some(Route(addr, cidr, NextHop(mac, Atoi(s))))
  }

  /** The buffer is as it was, except that at most one character is still overwritten. */
  ghost predicate AlmostIntact(before: seq<char>, after: seq<char>) {
    && |after| == |before|
    && (forall i :: 0 <= i < |before| && after[i] != before[i] ==> after[i] == NUL)
    && (forall i, j :: 0 <= i < j < |before| ==> after[i] == before[i] || after[j] == before[j])
  }

  /** Reads the address up to the slash. */
  method ReadAddr(buf: array<char>, begin: nat) returns (ok: bool, addr: Word32, next: nat)
    requires Terminated(buf[..], begin)
    modifies buf
    ensures var s := Str(old(buf[..]), begin);
            var d := FirstIndex(s, '/', IPV4_MAX_ADDR_LEN);
            && (ok <==> d != -1 && Ipv4Text.ParseFrom(s[..d], 0, 0, 0).Parsed?)
            && (ok ==> addr == Ipv4Text.ParseFrom(s[..d], 0, 0, 0).addr && next == begin + d + 1)
            && (ok ==> buf[..] == old(buf[..]))
    ensures AlmostIntact(old(buf[..]), buf[..])
  {
    hide Ipv4Text.ParseFrom, FirstIndex;
    ghost var before := buf[..];
    ok, addr, next := false, 0, 0;
    var offset := IndexOfFirstChar(buf, begin, '/', IPV4_MAX_ADDR_LEN);
    if offset == -1 {
      return;
    }
    var end := begin + offset;
    CutString(before, begin, offset);
    buf[end] := NUL;
    assert buf[..] == before[end := NUL];
    Ipv4Text.OffsetIrrelevant(Str(buf[..], begin), begin, 0);
    ok, addr := Ipv4Text.Ipv4AddrFromStr(buf, begin);
    buf[end] := '/';
    next := end + 1;
    assert ok ==> buf[..] == before;
  }

  /** Reads the prefix length up to the comma. */
  method ReadPrefix(buf: array<char>, begin: nat) returns (ok: bool, cidr: Prefix, next: nat)
    requires Terminated(buf[..], begin)
    modifies buf
    ensures var s := Str(old(buf[..]), begin);
            var d := FirstIndex(s, ',', MAX_DEC_DIGIT_LEN);
            && (ok <==> d != -1 && 0 <= Atoi(s[..d]) <= 32)
            && (ok ==> cidr == Atoi(s[..d]) && next == begin + d + 1)
    ensures buf[..] == old(buf[..])
  {
    hide Atoi, FirstIndex;
    ghost var before := buf[..];
    ok, cidr, next := false, 0, 0;
    var offset := IndexOfFirstChar(buf, begin, ',', MAX_DEC_DIGIT_LEN);
    if offset == -1 {
      return;
    }
    var end := begin + offset;
    CutString(before, begin, offset);
    buf[end] := NUL;
    assert buf[..] == before[end := NUL];
    var value := Atoi(Str(buf[..], begin));
    buf[end] := ',';
    assert buf[..] == before;
    if !(0 <= value <= 32) {
      return;
    }
    ok, cidr, next := true, value, end + 1;
  }

  /** Reads the hardware address up to the comma. */
  method ReadMac(buf: array<char>, begin: nat) returns (ok: bool, mac: Mac, next: nat)
    requires Terminated(buf[..], begin)
    modifies buf
    ensures var s := Str(old(buf[..]), begin);
            var d := FirstIndex(s, ',', MAC_ADDR_LEN);
            && (ok <==> d != -1 && MacText.ParseFrom(s[..d], 0, []).Parsed?)
            && (ok ==> mac == MacText.ParseFrom(s[..d], 0, []).mac && next == begin + d + 1)
            && (ok ==> buf[..] == old(buf[..]))
    ensures AlmostIntact(old(buf[..]), buf[..])
  {
    hide MacText.ParseFrom, FirstIndex;
    ghost var before := buf[..];
    ok, mac, next := false, [0, 0, 0, 0, 0, 0], 0;
    var offset := IndexOfFirstChar(buf, begin, ',', MAC_ADDR_LEN);
    if offset == -1 {
      return;
    }
    var end := begin + offset;
    CutString(before, begin, offset);
    buf[end] := NUL;
    assert buf[..] == before[end := NUL];
    MacText.OffsetIrrelevant(Str(buf[..], begin), begin, 0);
    ok, mac := MacText.MacAddrFromStr(buf, begin);
    buf[end] := ',';
    next := end + 1;
    assert ok ==> buf[..] == before;
  }

  datatype OptionResult = Added | RefusedOption | TableFull

  /** Parses the option and adds the route it names. An accepted option is left as it was, and
      exactly its route is waiting in the table; a refused one changes no route. */
  method ParseOptionR(buf: array<char>, p: nat, table: RoutingTable) returns (result: OptionResult)
    requires Terminated(buf[..], p) && table.Valid()
    modifies buf, table`infoIdx, table`history, table`highWater, table.info
    ensures table.Valid()
    ensures var route := ParseOption(Str(old(buf[..]), p));
            match result
            case RefusedOption => route.None? && table.history == old(table.history)
            case TableFull =>
              route.Some? && |old(table.history.pending)| == INVALID && table.history == old(table.history)
            case Added =>
              && route.Some?
              && table.history == old(table.history).(pending := old(table.history.pending) + [route.value])
    ensures result != RefusedOption ==> buf[..] == old(buf[..])
    ensures AlmostIntact(old(buf[..]), buf[..])
  {
    ghost var before := buf[..];
    var route := ReadOption(buf, p);
    if route.None? {
      return RefusedOption;
    }
    var r := route.value;
    var ok := table.AddRoute(r.addr, r.prefix, r.nextHop);
    return if ok then Added else TableFull;
  }

  method ReadOption(buf: array<char>, p: nat) returns (route: Option<Route>)
    requires Terminated(buf[..], p)
    modifies buf
    ensures route == ParseOption(Str(old(buf[..]), p))
    ensures route.Some? ==> buf[..] == old(buf[..])
    ensures AlmostIntact(old(buf[..]), buf[..])
  {
    hide FirstIndex, ParsePrefix, Ipv4Text.ParseFrom;
    ghost var before := buf[..];
    var ok, addr, next := ReadAddr(buf, p);
    if !ok {
      return None;
    }
    StrSuffix(before, p, next - p);
    route := ReadFromPrefix(buf, next, addr);
  }

  method ReadFromPrefix(buf: array<char>, begin: nat, addr: Word32) returns (route: Option<Route>)
    requires Terminated(buf[..], begin)
    modifies buf
    ensures route == ParsePrefix(Str(old(buf[..]), begin), addr)
    ensures route.Some? ==> buf[..] == old(buf[..])
    ensures AlmostIntact(old(buf[..]), buf[..])
  {
    hide FirstIndex, ParseHop, Atoi;
    ghost var before := buf[..];
    var ok, cidr, next := ReadPrefix(buf, begin);
    if !ok {
      return None;
    }
    StrSuffix(before, begin, next - begin);
    route := ReadFromHop(buf, next, addr, cidr);
  }

  method ReadFromHop(buf: array<char>, begin: nat, addr: Word32, cidr: Prefix) returns (route: Option<Route>)
    requires Terminated(buf[..], begin)
    modifies buf
    ensures route == ParseHop(Str(old(buf[..]), begin), addr, cidr)
    ensures route.Some? ==> buf[..] == old(buf[..])
    ensures AlmostIntact(old(buf[..]), buf[..])
  {
    hide FirstIndex, Atoi, MacText.ParseFrom;
    ghost var before := buf[..];
    var ok, mac, next := ReadMac(buf, begin);
    if !ok {
      return None;
    }
    StrSuffix(before, begin, next - begin);
    if |Str(buf[..], next)| >= MAX_DEC_DIGIT_LEN {
      return None;
    }
    var decimal := AreAllCharDecimal(buf, next);
    if !decimal {
      return None;
    }
    var intId := Atoi(Str(buf[..], next));
    if !(0 <= intId <= 0xFF) {
      return None;
    }
    return Some(Route(addr, cidr, NextHop(mac, intId)));
  }

  // ---------- the accepted options ----------

  /** Cutting at the first separator recovers the two parts. */
  lemma CutAtSeparator(a: string, b: string, sep: char, max: nat)
    requires sep !in a && |a| <= max
    ensures FirstIndex(a + [sep] + b, sep, max) == |a|
    ensures (a + [sep] + b)[..|a|] == a && (a + [sep] + b)[|a| + 1..] == b
  {
    FirstIndexUnique(a + [sep] + b, sep, max, |a|);
  }

  lemma {:induction false} JoinLength(gs: seq<string>, sep: char, max: nat, c: char)
    requires gs != [] && c != sep && forall i :: 0 <= i < |gs| ==> |gs[i]| <= max && c !in gs[i]
    ensures |Join(gs, sep)| <= |gs| * (max + 1) - 1 && c !in Join(gs, sep)
    decreases |gs|
  {
    if |gs| > 1 {
      JoinLength(gs[1..], sep, max, c);
    }
  }

  /** Whatever stands for the prefix is read by atoi. */
  lemma {:induction false} PrefixPart(t: string, rest: string, addr: Word32)
    requires |t| <= MAX_DEC_DIGIT_LEN && ',' !in t
    ensures ParsePrefix(t + [','] + rest, addr) ==
            if 0 <= Atoi(t) <= 32 then ParseHop(rest, addr, Atoi(t)) else None
  {
    CutAtSeparator(t, rest, ',', MAX_DEC_DIGIT_LEN);
    hide FirstIndex, ParseHop, Atoi;
  }

  /** A text read as prefix p, exactly: at most ten characters without a comma that are blanks, an
      optional sign, digits and a tail, with p the signed number cut to 32 bits. */
  ghost predicate PrefixText(t: string, p: Prefix) {
    && |t| <= 10 && ',' !in t
    && exists blanks, sign, digits, tail ::
         TakenApart(t, blanks, sign, digits, tail) && p == Signed(sign, digits)
  }

  /** The prefix as it should be written. */
  predicate NumeralOf(t: string, p: Prefix) {
    t != [] && AllDigits(t) && DecValue(t) == p
  }

  /** A text is taken for prefix p exactly when it is such a text. */
  lemma {:induction false} PrefixReadExactly(t: string, rest: string, addr: Word32, p: Prefix)
    requires |t| <= MAX_DEC_DIGIT_LEN && ',' !in t
    ensures PrefixText(t, p) <==> Atoi(t) == p
    ensures PrefixText(t, p) ==> ParsePrefix(t + [','] + rest, addr) == ParseHop(rest, addr, p)
    ensures !(0 <= Atoi(t) <= 32) ==> ParsePrefix(t + [','] + rest, addr) == None
  {
    hide Atoi, Signed, TakenApart, ParsePrefix, ParseHop;
    AtoiExactly(t, p);
    PrefixPart(t, rest, addr);
  }

  /** An accepted prefix is the decimal numeral of the number it is read as exactly when it has only
      digits, at least one of them, and does not exceed an int. */
  lemma {:induction false} PrefixIsNumeralExactly(t: string, p: Prefix)
    requires PrefixText(t, p)
    ensures NumeralOf(t, p) <==> t != [] && AllDigits(t) && DecValue(t) < 0x8000_0000
  {
    hide Atoi, Signed, TakenApart, DecValue;
    AtoiExactly(t, p);
    if AllDigits(t) && DecValue(t) < 0x8000_0000 {
      AtoiOfDigits(t);
    }
  }

  /** Texts that pass without being the numeral of their prefix: nothing at all, a number with a tail,
      with a blank, and with a sign ... */
  lemma {:induction false} LoosePrefixes()
    ensures PrefixText("", 0) && !NumeralOf("", 0)
    ensures PrefixText("12abc", 12) && !NumeralOf("12abc", 12)
    ensures PrefixText(" 8", 8) && !NumeralOf(" 8", 8)
    ensures PrefixText("-0", 0) && !NumeralOf("-0", 0)
  {
    SmallValues();
    hide DecValue, PrefixText;
    ReadLoosely("", "", "", "", "", 0);
    ReadWithTail();
    ReadWithFront();
  }

  lemma {:induction false} SmallValues()
    ensures DecValue("") == 0 && DecValue("0") == 0 && DecValue("8") == 8 && DecValue("12") == 12
  {
    assert "12"[..1] == "1" && DecValue("1") == 1;
  }

  lemma {:induction false} ReadWithTail()
    ensures PrefixText("12abc", 12) && !NumeralOf("12abc", 12)
  {
    SmallValues();
    hide DecValue, PrefixText;
    ReadLoosely("12abc", "", "", "12", "abc", 12);
    assert !IsDigit("12abc"[2]);
  }

  lemma {:induction false} ReadWithFront()
    ensures PrefixText(" 8", 8) && !NumeralOf(" 8", 8)
    ensures PrefixText("-0", 0) && !NumeralOf("-0", 0)
  {
    SmallValues();
    hide DecValue, PrefixText;
    ReadLoosely(" 8", " ", "", "8", "", 8);
    ReadLoosely("-0", "", "-", "0", "", 0);
    assert !IsDigit(" 8"[0]) && !IsDigit("-0"[0]);
  }

  /** ... and a number beyond an int. */
  lemma {:induction false} WrappedPrefix()
    ensures PrefixText("4294967304", 8) && !NumeralOf("4294967304", 8)
  {
    WrappedNumeral();
    hide DecValue;
    ReadLoosely("4294967304", "", "", "4294967304", "", 8);
  }

  lemma {:induction false} ReadLoosely(t: string, blanks: string, sign: string, digits: string, tail: string, p: Prefix)
    requires TakenApart(t, blanks, sign, digits, tail) && p == Signed(sign, digits)
    requires |t| <= MAX_DEC_DIGIT_LEN && ',' !in t
    ensures PrefixText(t, p)
  {
  }

  lemma {:induction false} WrappedNumeral()
    ensures AllDigits("4294967304") && DecValue("4294967304") == 4294967304
  {
    var s := "4294967304";
    assert forall k :: 1 <= k < 10 ==> s[..k + 1][..k] == s[..k];
    assert DecValue(s[..1]) == 4;
    assert DecValue(s[..2]) == 42;
    assert DecValue(s[..3]) == 429;
    assert DecValue(s[..4]) == 4294;
    assert DecValue(s[..5]) == 42949;
    assert DecValue(s[..6]) == 429496;
    assert DecValue(s[..7]) == 4294967;
    assert DecValue(s[..8]) == 42949673;
    assert DecValue(s[..9]) == 429496730;
    assert s[..10] == s;
  }

  /** A prefix that is not a number is not refused: it is read as 0, a default route. */
  lemma JunkPrefixMeansDefault(junk: string, rest: string, addr: Word32)
    requires junk != [] && |junk| <= MAX_DEC_DIGIT_LEN && ',' !in junk
    requires !IsSpace(junk[0]) && !IsDigit(junk[0]) && junk[0] != '-' && junk[0] != '+'
    ensures ParsePrefix(junk + [','] + rest, addr) == ParseHop(rest, addr, 0)
  {
    CutAtSeparator(junk, rest, ',', MAX_DEC_DIGIT_LEN);
    hide FirstIndex, ParseHop;
    assert Atoi(junk) == 0;
  }

  ghost predicate AddressText(a: string, addr: Word32) {
    exists gs: seq<string> ::
      |gs| == 4 && Ipv4Text.GoodGroups(gs) && a == Join(gs, '.') && addr == Ipv4Text.GroupsValue(gs)
  }

  ghost predicate HardwareText(m: string, mac: Mac) {
    exists gs: seq<string> ::
      |gs| == 6 && MacText.GoodGroups(gs) && m == Join(gs, ':') && mac == MacText.GroupBytes(gs)
  }

  /** Up to nine digits, none at all included. */
  predicate PortText(n: string, port: Byte) {
    |n| < 10 && AllDigits(n) && DecValue(n) == port
  }

  /** No digits at all name interface 0. */
  lemma {:induction false} EmptyPortAccepted(addr: Word32, cidr: Prefix, mac: Mac)
    ensures ParsePort("", addr, cidr, mac) == Some(Route(addr, cidr, NextHop(mac, 0)))
  {
    PortExactly("", addr, cidr, mac, Route(addr, cidr, NextHop(mac, 0)));
  }

  function Assembled(a: string, t: string, m: string, n: string): string {
    a + ['/'] + (t + [','] + (m + [','] + n))
  }

  /** The text of an option that names this route. */
  ghost predicate OptionText(s: string, r: Route) {
    exists a, t, m, n ::
      && s == Assembled(a, t, m, n)
      && AddressText(a, r.addr) && PrefixText(t, r.prefix)
      && HardwareText(m, r.nextHop.dstMac) && PortText(n, r.nextHop.dstPort)
  }

  lemma {:induction false} AddressShape(a: string, addr: Word32)
    requires AddressText(a, addr)
    ensures |a| <= IPV4_MAX_ADDR_LEN && '/' !in a && Ipv4Text.ParseFrom(a, 0, 0, 0) == Ipv4Text.Parsed(addr)
  {
    Ipv4Text.AcceptedExactly(a, 0, addr);
    hide Ipv4Text.ParseFrom, Join, Ipv4Text.GroupsValue, DecValue;
    var gs: seq<string> :|
      |gs| == 4 && Ipv4Text.GoodGroups(gs) && a == Join(gs, '.') && addr == Ipv4Text.GroupsValue(gs);
    assert forall i :: 0 <= i < |gs| ==> Ipv4Text.GoodGroup(gs[i]);
    JoinLength(gs, '.', 3, '/');
  }

  lemma {:induction false} HardwareShape(m: string, mac: Mac)
    requires HardwareText(m, mac)
    ensures |m| <= MAC_ADDR_LEN && ',' !in m && MacText.ParseFrom(m, 0, []) == MacText.Parsed(mac)
  {
    MacText.AcceptedExactly(m, 0, mac);
    hide MacText.ParseFrom, Join, MacText.GroupBytes, HexValue;
    var gs: seq<string> :| |gs| == 6 && MacText.GoodGroups(gs) && m == Join(gs, ':') && mac == MacText.GroupBytes(gs);
    hide MacText.GoodGroups;
    HexJoinShape(gs);
  }

  lemma {:induction false} HexJoinShape(gs: seq<string>)
    requires |gs| == 6 && MacText.GoodGroups(gs)
    ensures |Join(gs, ':')| <= MAC_ADDR_LEN && ',' !in Join(gs, ':')
  {
    forall i | 0 <= i < |gs| ensures ',' !in gs[i] {
      assert AllHex(gs[i]);
    }
    hide Join;
    JoinLength(gs, ':', 2, ',');
  }

  lemma {:induction false} PortExactly(n: string, addr: Word32, cidr: Prefix, mac: Mac, r: Route)
    ensures ParsePort(n, addr, cidr, mac) == Some(r) <==>
            r.addr == addr && r.prefix == cidr && r.nextHop.dstMac == mac && PortText(n, r.nextHop.dstPort)
  {
    if |n| < MAX_DEC_DIGIT_LEN && AllDigits(n) {
      DecValueBound(n);
      assert Pow10(|n|) <= 1_000_000_000 by {
        Pow10Values(|n|);
      }
      AtoiOfDigits(n);
    }
    hide Atoi, DecValue;
  }

  lemma {:induction false} Pow10Values(k: nat)
    requires k <= 9
    ensures Pow10(k) <= 1_000_000_000
  {
    assert Pow10(1) == 10 && Pow10(2) == 100 && Pow10(3) == 1000 && Pow10(4) == 10_000;
    assert Pow10(5) == 100_000 && Pow10(6) == 1_000_000 && Pow10(7) == 10_000_000 && Pow10(8) == 100_000_000;
  }

  lemma {:induction false} SplitAtSeparator(s: string, sep: char, max: int)
    requires FirstIndex(s, sep, max) >= 0
    ensures var d := FirstIndex(s, sep, max);
            d <= max && d < |s| && s == s[..d] + [sep] + s[d + 1..] && sep !in s[..d]
  {
  }

  /** An option is accepted, and names route r, exactly when it is four address groups, a slash, a text
      read as the prefix, a comma, six hardware groups, a comma, and the port in digits. */
  lemma {:induction false} OptionAcceptedExactly(s: string, r: Route)
    ensures ParseOption(s) == Some(r) <==> OptionText(s, r)
  {
    if ParseOption(s) == Some(r) {
      AcceptedIsText(s, r);
    }
    if OptionText(s, r) {
      hide AddressText, PrefixText, HardwareText, PortText, Assembled, ParseOption;
      var a, t, m, n :| s == Assembled(a, t, m, n) && AddressText(a, r.addr) && PrefixText(t, r.prefix)
                        && HardwareText(m, r.nextHop.dstMac) && PortText(n, r.nextHop.dstPort);
      TextIsAccepted(a, t, m, n, r);
    }
  }

  lemma {:induction false} TextIsAccepted(a: string, t: string, m: string, n: string, r: Route)
    requires AddressText(a, r.addr) && PrefixText(t, r.prefix)
    requires HardwareText(m, r.nextHop.dstMac) && PortText(n, r.nextHop.dstPort)
    ensures ParseOption(Assembled(a, t, m, n)) == Some(r)
  {
    AddressShape(a, r.addr);
    HardwareShape(m, r.nextHop.dstMac);
    var hop := m + [','] + n;
    PrefixReadExactly(t, hop, r.addr, r.prefix);
    PortExactly(n, r.addr, r.prefix, r.nextHop.dstMac, r);
    CutAtSeparator(a, t + [','] + hop, '/', IPV4_MAX_ADDR_LEN);
    CutAtSeparator(m, n, ',', MAC_ADDR_LEN);
    hide AddressText, PrefixText, HardwareText, PortText, FirstIndex, Atoi, ParsePrefix, ParsePort,
         Ipv4Text.ParseFrom, MacText.ParseFrom;
  }

  lemma {:induction false} AcceptedIsText(s: string, r: Route)
    requires ParseOption(s) == Some(r)
    ensures OptionText(s, r)
  {
    hide FirstIndex, Ipv4Text.ParseFrom, ParsePrefix, AddressText, PrefixText, HardwareText, PortText;
    SplitAtSeparator(s, '/', IPV4_MAX_ADDR_LEN);
    var d := FirstIndex(s, '/', IPV4_MAX_ADDR_LEN);
    var a, rest := s[..d], s[d + 1..];
    AddressIsText(a, Ipv4Text.ParseFrom(a, 0, 0, 0).addr);
    var t, m, n := RestIsText(rest, Ipv4Text.ParseFrom(a, 0, 0, 0).addr, r);
    assert s == Assembled(a, t, m, n);
  }

  lemma {:induction false} RestIsText(s: string, addr: Word32, r: Route) returns (t: string, m: string, n: string)
    requires ParsePrefix(s, addr) == Some(r)
    ensures s == t + [','] + (m + [','] + n) && r.addr == addr && PrefixText(t, r.prefix)
    ensures HardwareText(m, r.nextHop.dstMac) && PortText(n, r.nextHop.dstPort)
  {
    hide FirstIndex, Atoi, ParseHop, PrefixText, HardwareText, PortText;
    SplitAtSeparator(s, ',', MAX_DEC_DIGIT_LEN);
    var d := FirstIndex(s, ',', MAX_DEC_DIGIT_LEN);
    t := s[..d];
    PrefixReadExactly(t, s[d + 1..], addr, Atoi(t));
    m, n := HopIsText(s[d + 1..], addr, Atoi(t), r);
  }

  lemma {:induction false} HopIsText(s: string, addr: Word32, cidr: Prefix, r: Route) returns (m: string, n: string)
    requires ParseHop(s, addr, cidr) == Some(r)
    ensures s == m + [','] + n && r.addr == addr && r.prefix == cidr
    ensures HardwareText(m, r.nextHop.dstMac) && PortText(n, r.nextHop.dstPort)
  {
    hide FirstIndex, MacText.ParseFrom, ParsePort, HardwareText, PortText;
    SplitAtSeparator(s, ',', MAC_ADDR_LEN);
    var d := FirstIndex(s, ',', MAC_ADDR_LEN);
    m, n := s[..d], s[d + 1..];
    HardwareIsText(m, MacText.ParseFrom(m, 0, []).mac);
    PortExactly(n, addr, cidr, MacText.ParseFrom(m, 0, []).mac, r);
  }

  lemma {:induction false} AddressIsText(a: string, addr: Word32)
    requires Ipv4Text.ParseFrom(a, 0, 0, 0) == Ipv4Text.Parsed(addr)
    ensures AddressText(a, addr)
  {
    hide Ipv4Text.ParseFrom;
    Ipv4Text.AcceptedExactly(a, 0, addr);
  }

  lemma {:induction false} HardwareIsText(m: string, mac: Mac)
    requires MacText.ParseFrom(m, 0, []) == MacText.Parsed(mac)
    ensures HardwareText(m, mac)
  {
    hide MacText.ParseFrom;
    MacText.AcceptedExactly(m, 0, mac);
  }

  // ---------- printing ----------

  function Printed(r: Route): string {
    Ipv4Text.Dotted(r.addr) + ['/'] + (Dec(r.prefix) + [','] +
      (Join(MacText.HexGroups(r.nextHop.dstMac), ':') + [','] + Dec(r.nextHop.dstPort)))
  }

  /** One option written out: 10.0.0.0/8 by way of AA:BB:CC:DD:EE:FF on interface 1. */
  lemma {:induction false} OptionExample()
    ensures ParseOption("10.0.0.0/8,AA:BB:CC:DD:EE:FF,1")
            == Some(Route(0x0A00_0000, 8, NextHop([0xAA, 0xBB, 0xCC, 0xDD, 0xEE, 0xFF], 1)))
  {
    hide *;
    var mac: Mac := [0xAA, 0xBB, 0xCC, 0xDD, 0xEE, 0xFF];
    ExampleAddress();
    ExampleHardware(mac);
    ExampleNumbers();
    ExampleText();
    TextIsAccepted("10.0.0.0", "8", "AA:BB:CC:DD:EE:FF", "1", Route(0x0A00_0000, 8, NextHop(mac, 1)));
  }

  lemma {:induction false} ExampleText()
    ensures Assembled("10.0.0.0", "8", "AA:BB:CC:DD:EE:FF", "1") == "10.0.0.0/8,AA:BB:CC:DD:EE:FF,1"
  {
    var hop, rest := "AA:BB:CC:DD:EE:FF" + [','] + "1", "8" + [','] + "AA:BB:CC:DD:EE:FF,1";
    assert hop == "AA:BB:CC:DD:EE:FF,1";
    assert rest == "8,AA:BB:CC:DD:EE:FF,1";
    assert "10.0.0.0" + ['/'] + rest == "10.0.0.0/8,AA:BB:CC:DD:EE:FF,1";
  }

  lemma {:induction false} ExampleAddress()
    ensures AddressText("10.0.0.0", 0x0A00_0000)
  {
    var gs: seq<string> := ["10", "0", "0", "0"];
    assert "10"[..1] == "1" && DecValue("1") == 1 && DecValue("10") == 10 && DecValue("0") == 0;
    hide DecValue;
    Ipv4Text.JoinOfFour(gs);
    Ipv4Text.ValueOfFour(gs);
    hide Join, Ipv4Text.GroupsValue;
    assert Join(gs, '.') == "10.0.0.0";
  }

  lemma {:induction false} ExampleHardware(mac: Mac)
    requires mac == [0xAA, 0xBB, 0xCC, 0xDD, 0xEE, 0xFF]
    ensures HardwareText("AA:BB:CC:DD:EE:FF", mac)
  {
    var gs := MacText.CapitalGroups(mac);
    assert gs == ["AA", "BB", "CC", "DD", "EE", "FF"];
    ExampleJoin(gs);
    hide MacText.ParseFrom, MacText.CapitalGroups, Join, HardwareText;
    MacText.CapitalMacRoundTrip(mac, 0);
    HardwareIsText("AA:BB:CC:DD:EE:FF", mac);
  }

  lemma {:induction false} ExampleJoin(gs: seq<string>)
    requires gs == ["AA", "BB", "CC", "DD", "EE", "FF"]
    ensures Join(gs, ':') == "AA:BB:CC:DD:EE:FF"
  {
    assert Join(gs[1..][1..][1..][1..][1..], ':') == "FF";
    assert Join(gs[1..][1..][1..][1..], ':') == "EE:FF" && Join(gs[1..][1..][1..], ':') == "DD:EE:FF";
    assert Join(gs[1..][1..], ':') == "CC:DD:EE:FF" && Join(gs[1..], ':') == "BB:CC:DD:EE:FF";
  }

  lemma {:induction false} ExampleNumbers()
    ensures PrefixText("8", 8) && PortText("1", 1)
  {
    SmallValues();
    assert DecValue("1") == 1;
    hide DecValue, PrefixText;
    ReadLoosely("8", "", "", "8", "", 8);
  }

  lemma {:induction false} SmallNumber(n: Byte)
    ensures |Dec(n)| <= 3 && ',' !in Dec(n) && AllDigits(Dec(n)) && DecValue(Dec(n)) == n && Atoi(Dec(n)) == n
  {
    Ipv4Text.DecOfByte(n);
    AtoiOfDigits(Dec(n));
  }

  /** A printed prefix is a text read as that prefix, and likewise for the port. */
  lemma {:induction false} PrintedNumbers(p: Prefix, port: Byte)
    ensures PrefixText(Dec(p), p) && PortText(Dec(port), port)
  {
    SmallNumber(p);
    SmallNumber(port);
    hide Dec, Atoi, PrefixText, DecValue, ParsePrefix, ParseHop;
    PrefixReadExactly(Dec(p), "", 0, p);
  }

  /** Parsing undoes printing, for every route with a prefix up to 32. */
  lemma {:induction false} RouteRoundTrip(r: Route)
    ensures ParseOption(Printed(r)) == Some(r)
  {
    var address, mac := Ipv4Text.Dotted(r.addr), Join(MacText.HexGroups(r.nextHop.dstMac), ':');
    hide Dec, ParseOption, PrefixText, PortText, AddressText, HardwareText, Join;
    hide Ipv4Text.ParseFrom, MacText.ParseFrom, Ipv4Text.Dotted, MacText.HexGroups;
    Ipv4Text.DottedRoundTrip(r.addr, 0);
    AddressIsText(address, r.addr);
    MacText.MacRoundTrip(r.nextHop.dstMac, 0);
    HardwareIsText(mac, r.nextHop.dstMac);
    PrintedNumbers(r.prefix, r.nextHop.dstPort);
    TextIsAccepted(address, Dec(r.prefix), mac, Dec(r.nextHop.dstPort), r);
  }
}
