/**
 What the router decides about one frame, as a function of its bytes: the checks of
 section 5.2.2 of RFC 1812, the forwarding of section 5.3.1, and the ARP reply of
 RFC 826. The packet path is proved to carry these decisions out.
 */
module Decisions {
  import opened Bits
  import opened Routes
  import opened Frames

  datatype IntConf = IntConf(intId: Byte, addr: Word32, mac: Mac)

  datatype Verdict = Discard | Transmit(port: Byte, frame: Frame)

  /** Length, destination and payload type of the frame. */
  predicate FrameValid(f: Frame, conf: IntConf) {
    && ETHER_HDR_LEN <= |f|
    && (DstMac(f) == BROADCAST || DstMac(f) == conf.mac)
    && EtherType(f) in {ETHER_TYPE_IPV4, ETHER_TYPE_IPV6, ETHER_TYPE_ARP}
    && ETHER_HDR_LEN + MinPayload(EtherType(f)) <= |f|
    && |f| <= ETHER_MAX_LEN - ETHER_CRC_LEN
  }

  function MinPayload(etherType: Word16): nat {
    if etherType == ETHER_TYPE_IPV4 then IPV4_HDR_LEN
    else if etherType == ETHER_TYPE_IPV6 then IPV6_HDR_LEN
    else ARP_HDR_LEN
  }

  /** The header checks that come after the checksum. */
  predicate FieldsValid(f: Frame)
    requires IPV4_END <= |f|
  {
    && Version(f) == 4
    && 5 <= Ihl(f)
    && 4 * Ihl(f) <= Be16(f, ETHER_HDR_LEN + 2)
    && Be16(f, ETHER_HDR_LEN + 2) <= |f| - ETHER_HDR_LEN
    && f[TTL] != 0
  }

  predicate Ipv4Valid(f: Frame)
    requires IPV4_END <= |f|
  {
    ChecksumOk(f) && FieldsValid(f)
  }

  /** A header with valid fields lies in the frame, options included. */
  lemma FieldsValidFits(f: Frame)
    requires IPV4_END <= |f| && FieldsValid(f)
    ensures HeaderFits(f)
  {
    VersionAndIhl(f);
    hide And;
  }

  /** TTL one lower, checksum renewed, addressed from the outgoing port to the next hop. */
  function Forwarded(f: Frame, srcMac: Mac, dstMac: Mac): (g: Frame)
    requires IPV4_END <= |f|
    ensures |g| == |f|
  {
    var h := f[TTL := ((f[TTL] as int) - 1) % 0x100];
    Splice(Splice(WithChecksum(h, Ipv4Cksum(WithChecksum(h, 0))), 6, srcMac), 0, dstMac)
  }

  predicate ArpValid(f: Frame, confs: seq<IntConf>)
    requires ARP_END <= |f|
  {
    && Be16(f, 14) == 1 && f[18] == 6
    && Be16(f, 16) == ETHER_TYPE_IPV4 && f[19] == 4
    && exists i :: 0 <= i < |confs| && confs[i].addr == Be32(f, ARP_TIP)
  }

  /** Answers to the asker with the interface's address in the sender fields. */
  function ArpReply(f: Frame, mac: Mac): (g: Frame)
    requires ARP_END <= |f|
    ensures |g| == |f|
  {
    var a := Splice(Splice(f, 0, SrcMac(f)), 6, mac);
    var b := Splice(a, ARP_OP, [0, 2]);
    var c := Splice(Splice(b, ARP_SHA, mac), ARP_SIP, f[ARP_TIP..ARP_TIP + 4]);
    Splice(Splice(c, ARP_THA, f[ARP_SHA..ARP_SHA + 6]), ARP_TIP, f[ARP_SIP..ARP_SIP + 4])
  }

  function Ipv4Verdict(f: Frame, hop: Option<NextHop>, macOf: Byte -> Mac): Verdict
    requires IPV4_END <= |f|
  {
    if !Ipv4Valid(f) || hop.None? || f[TTL] == 1 then Discard
    else Transmit(hop.value.dstPort, Forwarded(f, macOf(hop.value.dstPort), hop.value.dstMac))
  }

  function ArpVerdict(f: Frame, conf: IntConf, confs: seq<IntConf>): Verdict
    requires ARP_END <= |f|
  {
    if ArpValid(f, confs) && Be16(f, ARP_OP) == 1 then Transmit(conf.intId, ArpReply(f, conf.mac)) else Discard
  }

  function Decide(f: Frame, conf: IntConf, confs: seq<IntConf>, route: Word32 -> Option<NextHop>,
                  macOf: Byte -> Mac): Verdict
  {
    if !FrameValid(f, conf) then Discard
    else if EtherType(f) == ETHER_TYPE_IPV4 then Ipv4Verdict(f, route(Be32(f, IPV4_DST)), macOf)
    else if EtherType(f) == ETHER_TYPE_ARP then ArpVerdict(f, conf, confs)
    else Discard
  }

  // ---------- forwarding ----------

  /** Forwarding changes the TTL by one, the checksum and the two MAC addresses, and the
      result is valid to the next router. It verifies by RFC 1071 exactly when the
      packet that came in did. */
  lemma {:induction false} ForwardedStaysValid(f: Frame, srcMac: Mac, dstMac: Mac)
    requires IPV4_END <= |f| && Ipv4Valid(f) && f[TTL] != 1
    ensures var g := Forwarded(f, srcMac, dstMac);
            && Ipv4Valid(g)
            && HeaderFits(f) && HeaderFits(g)
            && (OnesComplementOk(g) <==> OnesComplementOk(f))
            && (OnesComplementOk(g) <==> OptionSum(f) % 0xFFFF == 0)
            && g[TTL] == f[TTL] - 1
            && DstMac(g) == dstMac && SrcMac(g) == srcMac && EtherType(g) == EtherType(f)
            && forall i :: 12 <= i < |f| && i != TTL && i != CHECKSUM && i != CHECKSUM + 1 ==> g[i] == f[i]
  {
    var g := Forwarded(f, srcMac, dstMac);
    ForwardedFields(f, srcMac, dstMac);
    hide ChecksumOk, OnesComplementOk, Forwarded, OptionSum, HeaderFits, FieldsValid, DstMac, SrcMac, EtherType;
    VerifiesExactly(f, g);
  }

  /** The header fields other than TTL and checksum stay, and the new checksum passes. */
  lemma {:induction false} ForwardedFields(f: Frame, srcMac: Mac, dstMac: Mac)
    requires IPV4_END <= |f| && FieldsValid(f) && f[TTL] != 1
    ensures var g := Forwarded(f, srcMac, dstMac);
            && ChecksumOk(g) && FieldsValid(g) && g[TTL] == f[TTL] - 1
            && DstMac(g) == dstMac && SrcMac(g) == srcMac && EtherType(g) == EtherType(f)
            && forall i :: 12 <= i < |f| && i != TTL && i != CHECKSUM && i != CHECKSUM + 1 ==> g[i] == f[i]
  {
    var h := f[TTL := ((f[TTL] as int) - 1) % 0x100];
    var c := Ipv4Cksum(WithChecksum(h, 0));
    WrittenChecksumExactly(h);
    ForwardedBytes(f, srcMac, dstMac, c);
    hide And, ChecksumOk, OnesComplementOk, Ipv4Cksum, Forwarded, OptionSum, HeaderFits;
    SameHeader(WithChecksum(h, c), Forwarded(f, srcMac, dstMac));
  }

  /** Of packets the router accepts, those verify by RFC 1071 whose option words sum to zero. */
  lemma {:induction false} VerifiesExactly(f: Frame, g: Frame)
    requires IPV4_END <= |f| == |g| && FieldsValid(f) && ChecksumOk(f) && ChecksumOk(g)
    requires f[ETHER_HDR_LEN] == g[ETHER_HDR_LEN] && forall i :: IPV4_END <= i < |f| ==> f[i] == g[i]
    ensures HeaderFits(f) && HeaderFits(g)
    ensures OnesComplementOk(f) <==> OptionSum(f) % 0xFFFF == 0
    ensures OnesComplementOk(g) <==> OptionSum(f) % 0xFFFF == 0
  {
    FieldsValidFits(f);
    SameOptions(f, g);
    hide FieldsValid, ChecksumOk, OnesComplementOk, OptionSum, HeaderFits;
    AcceptedVerifies(f);
    AcceptedVerifies(g);
  }

  lemma {:induction false} AcceptedVerifies(f: Frame)
    requires HeaderFits(f) && ChecksumOk(f)
    ensures OnesComplementOk(f) <==> OptionSum(f) % 0xFFFF == 0
  {
    hide ChecksumOk, OnesComplementOk, OptionSum;
    ChecksumTestExactly(f);
  }

  lemma ForwardedBytes(f: Frame, srcMac: Mac, dstMac: Mac, c: Word16)
    requires IPV4_END <= |f| && f[TTL] > 0 && c == Ipv4Cksum(WithChecksum(f[TTL := ((f[TTL] as int) - 1) % 0x100], 0))
    ensures var g := Forwarded(f, srcMac, dstMac); var k := WithChecksum(f[TTL := f[TTL] - 1], c);
            && g[0..6] == dstMac && g[6..12] == srcMac
            && forall i :: 12 <= i < |f| ==> g[i] == k[i]
  {
    hide Ipv4Cksum, WithChecksum;
  }

  /** The router's checksum only looks at the first 20 header bytes. */
  lemma SameHeader(f: Frame, g: Frame)
    requires IPV4_END <= |f| == |g|
    requires forall i :: ETHER_HDR_LEN <= i < IPV4_END ==> f[i] == g[i]
    ensures ChecksumOk(f) == ChecksumOk(g)
  {
    hide Reduce;
    assert FixedSum(WithChecksum(f, 0)) == FixedSum(WithChecksum(g, 0));
  }

  lemma {:induction false} SameOptions(f: Frame, g: Frame)
    requires HeaderFits(f) && |f| == |g| && f[ETHER_HDR_LEN] == g[ETHER_HDR_LEN]
    requires forall i :: IPV4_END <= i < |f| ==> f[i] == g[i]
    ensures HeaderFits(g) && OptionSum(f) == OptionSum(g)
  {
    hide And;
    SameOptionWords(f, g, 2 * Ihl(f));
  }

  lemma {:induction false} SameOptionWords(f: Frame, g: Frame, n: nat)
    requires 10 <= n <= 30 && ETHER_HDR_LEN + 2 * n <= |f| == |g|
    requires forall i :: IPV4_END <= i < |f| ==> f[i] == g[i]
    ensures OptionWords(f, n) == OptionWords(g, n)
  {
    if n > 10 {
      SameOptionWords(f, g, n - 1);
    }
  }

  // ---------- ARP ----------

  /** The reply names the asked address, our MAC, and the asker (RFC 826, "Packet Reception"). */
  lemma ArpReplyAnswers(f: Frame, mac: Mac)
    requires ARP_END <= |f|
    ensures var g := ArpReply(f, mac);
            && DstMac(g) == SrcMac(f) && SrcMac(g) == mac && EtherType(g) == EtherType(f)
            && Be16(g, ARP_OP) == 2
            && g[ARP_SHA..ARP_SHA + 6] == mac && Be32(g, ARP_SIP) == Be32(f, ARP_TIP)
            && g[ARP_THA..ARP_THA + 6] == f[ARP_SHA..ARP_SHA + 6] && Be32(g, ARP_TIP) == Be32(f, ARP_SIP)
            && forall i :: 12 <= i < |f| && !(ARP_OP <= i < ARP_OP + 2) && !(ARP_SHA <= i < ARP_END) ==> g[i] == f[i]
  {
    var g := ArpReply(f, mac);
    assert g[ARP_TIP..ARP_TIP + 4] == f[ARP_SIP..ARP_SIP + 4];
    assert g[ARP_SIP..ARP_SIP + 4] == f[ARP_TIP..ARP_TIP + 4];
    SameBe32(g, ARP_TIP, f, ARP_SIP);
    SameBe32(g, ARP_SIP, f, ARP_TIP);
  }

  lemma SameBe32(f: Frame, i: nat, g: Frame, j: nat)
    requires i + 4 <= |f| && j + 4 <= |g| && f[i..i + 4] == g[j..j + 4]
    ensures Be32(f, i) == Be32(g, j)
  {
    assert f[i..i + 4][0] == f[i] && g[j..j + 4][0] == g[j];
    assert f[i..i + 4][1] == f[i + 1] && f[i..i + 4][2] == f[i + 2] && f[i..i + 4][3] == f[i + 3];
    assert g[j..j + 4][1] == g[j + 1] && g[j..j + 4][2] == g[j + 2] && g[j..j + 4][3] == g[j + 3];
  }

  /** A reply is never answered, so two routers cannot keep an exchange going. */
  lemma RepliesAreNotAnswered(f: Frame, mac: Mac, conf: IntConf, confs: seq<IntConf>,
                              route: Word32 -> Option<NextHop>, macOf: Byte -> Mac)
    requires ARP_END <= |f| && EtherType(f) == ETHER_TYPE_ARP
    ensures Decide(ArpReply(f, mac), conf, confs, route, macOf) == Discard
  {
    ArpReplyAnswers(f, mac);
  }

  // ---------- what the checksum test refuses ----------

  /** A packet with a zero checksum field is dropped ... */
  lemma ZeroChecksumIsDropped(f: Frame, conf: IntConf, confs: seq<IntConf>,
                              route: Word32 -> Option<NextHop>, macOf: Byte -> Mac)
    requires IPV4_END <= |f| && EtherType(f) == ETHER_TYPE_IPV4 && ChecksumField(f) == 0
    ensures Decide(f, conf, confs, route, macOf) == Discard
  {
    FixedTestExactly(f);
  }

  /** ... although it can be the right checksum of a header with nothing else wrong: here version 4,
      20 bytes long, identification 0x7AEB, TTL 64 and zeros elsewhere. */
  lemma {:induction false} ZeroChecksumCanBeRight(f: Frame)
    requires |f| == IPV4_END && f[14] == 0x45 && f[17] == 20 && f[18] == 0x7A && f[19] == 0xEB && f[TTL] == 0x40
    requires forall i :: 14 <= i < IPV4_END && i !in {14, 17, 18, 19, TTL} ==> f[i] == 0
    ensures FieldsValid(f) && HeaderFits(f) && OnesComplementOk(f) && ChecksumField(f) == 0 && !ChecksumOk(f)
  {
    hide FieldsValid, HeaderFits, OnesComplementOk, ChecksumOk, ChecksumField, FixedSum, Reduce, Ihl;
    ZeroExampleFields(f);
    ZeroExampleSum(f);
    FixedTestExactly(f);
    AllOnesExactly(0xFFFF);
    NoOptions(f);
  }

  lemma {:induction false} ZeroExampleFields(f: Frame)
    requires |f| == IPV4_END && f[14] == 0x45 && f[16] == 0 && f[17] == 20 && f[TTL] == 0x40
    ensures FieldsValid(f) && Ihl(f) == 5
  {
    VersionAndIhl(f);
    hide And, Version, Ihl;
  }

  lemma {:induction false} ZeroExampleSum(f: Frame)
    requires |f| == IPV4_END && f[14] == 0x45 && f[17] == 20 && f[18] == 0x7A && f[19] == 0xEB && f[TTL] == 0x40
    requires forall i :: 14 <= i < IPV4_END && i !in {14, 17, 18, 19, TTL} ==> f[i] == 0
    ensures FixedSum(f) == 0xFFFF && ChecksumField(f) == 0
  {
    assert HeaderWord(f, 0) == 0x0045 && HeaderWord(f, 1) == 0x1400 && HeaderWord(f, 2) == 0xEB7A;
    assert HeaderWord(f, 4) == 0x0040;
  }

  /** A packet that verifies by RFC 1071 is dropped whenever its option words do not sum to zero
      modulo 65535 ... */
  lemma OptionsAreRefused(f: Frame, conf: IntConf, confs: seq<IntConf>,
                          route: Word32 -> Option<NextHop>, macOf: Byte -> Mac)
    requires HeaderFits(f) && EtherType(f) == ETHER_TYPE_IPV4
    requires OnesComplementOk(f) && OptionSum(f) % 0xFFFF != 0
    ensures Decide(f, conf, confs, route, macOf) == Discard
  {
    ChecksumTestExactly(f);
  }

  /** ... as with this router alert option (0x94040000) in a 24-byte header with nothing else wrong. */
  lemma {:induction false} OptionsCanBeRight(f: Frame)
    requires |f| == 38 && f[14] == 0x46 && f[17] == 24 && f[TTL] == 0x40 && f[24] == 0xE5 && f[25] == 0xE2
    requires f[34] == 0x94 && f[35] == 0x04
    requires forall i :: 14 <= i < 38 && i !in {14, 17, TTL, 24, 25, 34, 35} ==> f[i] == 0
    ensures FieldsValid(f) && HeaderFits(f) && OnesComplementOk(f) && ChecksumField(f) != 0 && !ChecksumOk(f)
  {
    OptionExampleSums(f);
    OptionExampleFields(f);
    hide FieldsValid, ChecksumOk, FixedSum, OptionWords, Reduce;
    assert HeaderSum(f) == 0xFFFF && OptionSum(f) == 0x0494;
    hide HeaderSum, OptionSum;
    ChecksumTestExactly(f);
    AllOnesExactly(0xFFFF);
  }

  lemma {:induction false} OptionExampleFields(f: Frame)
    requires |f| == 38 && f[14] == 0x46 && f[16] == 0 && f[17] == 24 && f[TTL] == 0x40
    ensures FieldsValid(f) && HeaderFits(f) && Ihl(f) == 6
  {
    VersionAndIhl(f);
    hide And, Version, Ihl;
  }

  lemma {:induction false} OptionExampleSums(f: Frame)
    requires |f| == 38 && f[14] == 0x46 && f[17] == 24 && f[TTL] == 0x40 && f[24] == 0xE5 && f[25] == 0xE2
    requires f[34] == 0x94 && f[35] == 0x04
    requires forall i :: 14 <= i < 38 && i !in {14, 17, TTL, 24, 25, 34, 35} ==> f[i] == 0
    ensures FixedSum(f) == 0xFB6B && OptionWords(f, 12) == 0x0494 && ChecksumField(f) == 0xE2E5
  {
    assert HeaderWord(f, 0) == 0x0046 && HeaderWord(f, 1) == 0x1800 && HeaderWord(f, 4) == 0x0040;
    assert HeaderWord(f, 10) == 0x0494 && HeaderWord(f, 11) == 0;
    assert OptionWords(f, 11) == 0x0494;
  }
}
