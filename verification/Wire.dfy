/**
 What the router decides, said of the bytes on the wire (RFC 894, RFC 791 and RFC 826) without
 any name for an offset or a type.
 */
module Wire {
  import opened Bits
  import opened Routes
  import opened Frames
  import opened Decisions

  /** The frame is broadcast or addressed to this interface. */
  predicate ToUs(f: Frame, mac: Mac)
    requires 6 <= |f|
  {
    f[0..6] == [255, 255, 255, 255, 255, 255] || f[0..6] == mac
  }

  lemma TypeBytes(f: Frame, hi: Byte, lo: Byte)
    requires 14 <= |f|
    ensures f[12..14] == [hi, lo] <==> EtherType(f) == (hi as int) * 256 + lo
  {
    assert f[12..14][0] == f[12] && f[12..14][1] == f[13];
    if f[12] == hi && f[13] == lo {
      assert f[12..14] == [hi, lo];
    }
  }

  /** The frame checks: destination, type, and length between the smallest of the type and 1514. */
  lemma {:induction false} FrameValidExactly(f: Frame, conf: IntConf)
    ensures FrameValid(f, conf) <==>
            && 14 <= |f| <= 1514 && ToUs(f, conf.mac)
            && (   (f[12..14] == [0x08, 0x00] && 34 <= |f|)
                || (f[12..14] == [0x86, 0xDD] && 54 <= |f|)
                || (f[12..14] == [0x08, 0x06] && 42 <= |f|))
  {
    if 14 <= |f| {
      TypeBytes(f, 0x08, 0x00);
      TypeBytes(f, 0x86, 0xDD);
      TypeBytes(f, 0x08, 0x06);
      hide EtherType;
    }
  }

  /** A number in network order. */
  lemma NetworkOrder(f: Frame, off: nat)
    requires off + 4 <= |f|
    ensures Be32(f, off) == (f[off] as int) * 0x100_0000 + (f[off + 1] as int) * 0x1_0000
                            + (f[off + 2] as int) * 0x100 + f[off + 3]
  {
  }

  // ---------- ARP ----------

  lemma {:induction false} ArpVerdictExactly(f: Frame, conf: IntConf, confs: seq<IntConf>)
    requires 42 <= |f|
    ensures ArpVerdict(f, conf, confs) ==
            if f[14..22] == [0, 1, 8, 0, 6, 4, 0, 1]
               && exists i :: 0 <= i < |confs|
                    && confs[i].addr == (f[38] as int) * 0x100_0000 + (f[39] as int) * 0x1_0000
                                        + (f[40] as int) * 0x100 + f[41]
            then Transmit(conf.intId, ArpReply(f, conf.mac))
            else Discard
  {
    hide ArpReply, Be32;
    NetworkOrder(f, 38);
    RequestBytes(f);
  }

  /** Hardware type 1, protocol type 0x0800, their address lengths, and operation 1. */
  lemma RequestBytes(f: Frame)
    requires 42 <= |f|
    ensures f[14..22] == [0, 1, 8, 0, 6, 4, 0, 1] <==>
            Be16(f, 14) == 1 && Be16(f, 16) == 0x0800 && f[18] == 6 && f[19] == 4 && Be16(f, 20) == 1
  {
    var a, b := f[14..22], [0, 1, 8, 0, 6, 4, 0, 1];
    assert a[0] == f[14] && a[1] == f[15] && a[2] == f[16] && a[3] == f[17];
    assert a[4] == f[18] && a[5] == f[19] && a[6] == f[20] && a[7] == f[21];
    if Be16(f, 14) == 1 && Be16(f, 16) == 0x0800 && f[18] == 6 && f[19] == 4 && Be16(f, 20) == 1 {
      assert forall i :: 0 <= i < 8 ==> a[i] == b[i];
    }
  }

  /** Which ARP frames are answered: requests for one of our addresses, and no others. */
  lemma {:induction false} ArpDecidedExactly(f: Frame, conf: IntConf, confs: seq<IntConf>,
                                             route: Word32 -> Option<NextHop>, macOf: Byte -> Mac)
    requires 42 <= |f| <= 1514 && f[12..14] == [8, 6]
    ensures Decide(f, conf, confs, route, macOf) ==
            if (f[0..6] == [255, 255, 255, 255, 255, 255] || f[0..6] == conf.mac)
               && f[14..22] == [0, 1, 8, 0, 6, 4, 0, 1]
               && exists i :: 0 <= i < |confs|
                    && confs[i].addr == (f[38] as int) * 0x100_0000 + (f[39] as int) * 0x1_0000
                                        + (f[40] as int) * 0x100 + f[41]
            then Transmit(conf.intId, ArpReply(f, conf.mac))
            else Discard
  {
    hide ArpVerdict, ArpReply, FrameValid, Ipv4Verdict, Be32, EtherType;
    FrameValidExactly(f, conf);
    ArpVerdictExactly(f, conf, confs);
    TypeBytes(f, 8, 6);
  }

  /** The reply, byte for byte: to the asker, from us, operation 2, our address pair, the asker's. */
  lemma {:induction false} ArpReplyBytes(f: Frame, mac: Mac)
    requires 42 <= |f|
    ensures ArpReply(f, mac) ==
            f[6..12] + mac + f[12..20] + [0, 2] + mac + f[38..42] + f[22..28] + f[28..32] + f[42..]
  {
    var g := f[6..12] + mac + f[12..20] + [0, 2] + mac + f[38..42] + f[22..28] + f[28..32] + f[42..];
    assert |g| == |f|;
    forall i | 0 <= i < |f| ensures ArpReply(f, mac)[i] == g[i] {
    }
  }

  // ---------- IPv4 ----------

  /** The ten 16-bit words that every header has, in network order, sum to zero modulo 65535, and
      the checksum among them is not zero. */
  predicate SumsToZero(f: Frame)
    requires 34 <= |f|
  {
    var high := (f[14] as int) + f[16] + f[18] + f[20] + f[22] + f[24] + f[26] + f[28] + f[30] + f[32];
    var low := (f[15] as int) + f[17] + f[19] + f[21] + f[23] + f[25] + f[27] + f[29] + f[31] + f[33];
    (256 * high + low) % 65535 == 0 && (f[24] != 0 || f[25] != 0)
  }

  /** Swapping the bytes of all words multiplies the sum by 256 modulo 65535. */
  lemma SwappedSum(high: nat, low: nat)
    ensures (256 * high + low) % 65535 == 0 <==> (high + 256 * low) % 65535 == 0
  {
    var net, host := 256 * high + low, high + 256 * low;
    assert 256 * net == 65535 * high + host && 256 * host == 65535 * low + net;
    if net % 65535 == 0 {
      QuotientUnique(host, 65535, 256 * (net / 65535) - high, 0);
    }
    if host % 65535 == 0 {
      QuotientUnique(net, 65535, 256 * (host / 65535) - low, 0);
    }
  }

  lemma {:induction false} SumsToZeroIs(f: Frame)
    requires 34 <= |f|
    ensures f[14] != 0 ==> (SumsToZero(f) <==> ChecksumOk(f))
  {
    var high := (f[14] as int) + f[16] + f[18] + f[20] + f[22] + f[24] + f[26] + f[28] + f[30] + f[32];
    var low := (f[15] as int) + f[17] + f[19] + f[21] + f[23] + f[25] + f[27] + f[29] + f[31] + f[33];
    assert FixedSum(f) == high + 256 * low;
    hide ChecksumOk, FixedSum, Reduce;
    SwappedSum(high, low);
    FixedTestExactly(f);
    AllOnesExactly(FixedSum(f));
  }

  /** The header checks: version 4, at least five words, a total length that holds the header and
      lies in the frame, a TTL other than zero, and the checksum. */
  lemma {:induction false} HeaderValidExactly(f: Frame)
    requires 34 <= |f|
    ensures Ipv4Valid(f) <==>
            && f[14] / 16 == 4 && f[14] % 16 >= 5
            && 4 * (f[14] % 16) <= (f[16] as int) * 256 + f[17] <= |f| - 14
            && f[22] != 0 && SumsToZero(f)
  {
    VersionAndIhl(f);
    SumsToZeroIs(f);
    hide Version, Ihl, SumsToZero, ChecksumOk;
  }

  /** Which IPv4 frames are sent on, and where: a valid header with a TTL of two or more and a next
      hop for the address in bytes 30 to 33. */
  lemma {:induction false} Ipv4DecidedExactly(f: Frame, conf: IntConf, confs: seq<IntConf>,
                                              route: Word32 -> Option<NextHop>, macOf: Byte -> Mac)
    requires 34 <= |f| <= 1514 && f[12..14] == [8, 0]
    ensures var hop := route((f[30] as int) * 0x100_0000 + (f[31] as int) * 0x1_0000 + (f[32] as int) * 0x100 + f[33]);
            Decide(f, conf, confs, route, macOf) ==
            if (f[0..6] == [255, 255, 255, 255, 255, 255] || f[0..6] == conf.mac)
               && f[14] / 16 == 4 && f[14] % 16 >= 5
               && 4 * (f[14] % 16) <= (f[16] as int) * 256 + f[17] <= |f| - 14
               && f[22] >= 2 && SumsToZero(f) && hop.Some?
            then Transmit(hop.value.dstPort, Forwarded(f, macOf(hop.value.dstPort), hop.value.dstMac))
            else Discard
  {
    hide ArpVerdict, Forwarded, FrameValid, Ipv4Valid, Be32, EtherType, SumsToZero;
    FrameValidExactly(f, conf);
    HeaderValidExactly(f);
    NetworkOrder(f, 30);
    TypeBytes(f, 8, 0);
  }

  /** What is sent, byte for byte: to the next hop, from the port, the TTL one lower, and a checksum
      that makes the header sum to zero. */
  lemma {:induction false} ForwardedExactly(f: Frame, src: Mac, dst: Mac)
    requires 34 <= |f| && f[14] != 0 && f[22] >= 1
    ensures var g := Forwarded(f, src, dst);
            && g == dst + src + f[12..22] + [f[22] - 1, f[23], g[24], g[25]] + f[26..]
            && SumsToZero(g)
  {
    hide Forwarded, SumsToZero;
    ForwardedParts(f, src, dst);
    AsParts(f, Forwarded(f, src, dst), src, dst);
  }

  lemma {:induction false} ForwardedParts(f: Frame, src: Mac, dst: Mac)
    requires 34 <= |f| && f[14] != 0 && f[22] >= 1
    ensures var g := Forwarded(f, src, dst);
            && g[0..6] == dst && g[6..12] == src && g[22] == f[22] - 1 && SumsToZero(g)
            && forall i :: 12 <= i < |f| && i !in {22, 24, 25} ==> g[i] == f[i]
  {
    var h := f[TTL := ((f[TTL] as int) - 1) % 0x100];
    var c := Ipv4Cksum(WithChecksum(h, 0));
    var g := Forwarded(f, src, dst);
    WrittenChecksumExactly(h);
    ForwardedBytes(f, src, dst, c);
    hide Ipv4Cksum, Forwarded, ChecksumOk, OnesComplementOk, OptionSum, HeaderFits, SumsToZero;
    SameHeader(WithChecksum(h, c), g);
    SumsToZeroIs(g);
  }

  lemma AsParts(f: Frame, g: Frame, src: Mac, dst: Mac)
    requires 34 <= |f| == |g| && f[22] >= 1 && g[0..6] == dst && g[6..12] == src && g[22] == f[22] - 1
    requires forall i :: 12 <= i < |f| && i !in {22, 24, 25} ==> g[i] == f[i]
    ensures g == dst + src + f[12..22] + [f[22] - 1, f[23], g[24], g[25]] + f[26..]
  {
    var k := dst + src + f[12..22] + [f[22] - 1, f[23], g[24], g[25]] + f[26..];
    forall i | 0 <= i < |f| ensures g[i] == k[i] {
      assert i < 6 ==> g[0..6][i] == g[i];
      assert 6 <= i < 12 ==> g[6..12][i - 6] == g[i];
    }
  }

  /** Everything else is discarded. */
  lemma {:induction false} OthersAreDiscarded(f: Frame, conf: IntConf, confs: seq<IntConf>,
                                              route: Word32 -> Option<NextHop>, macOf: Byte -> Mac)
    requires !(34 <= |f| <= 1514 && f[12..14] == [8, 0]) && !(42 <= |f| <= 1514 && f[12..14] == [8, 6])
    ensures Decide(f, conf, confs, route, macOf) == Discard
  {
    hide ArpVerdict, Ipv4Verdict, FrameValid, Be32, EtherType;
    FrameValidExactly(f, conf);
    if 14 <= |f| {
      TypeBytes(f, 8, 0);
      TypeBytes(f, 8, 6);
    }
  }
}
