/**
 A packet on its way through any sequence of routers that run this code, each with its
 own interfaces and routes. The sequence may visit a router again, so it covers
 routing loops.
 */
module Hops {
  import opened Bits
  import opened Routes
  import opened Frames
  import opened Decisions

  datatype Hop = Hop(conf: IntConf, confs: seq<IntConf>, route: Word32 -> Option<NextHop>, macOf: Byte -> Mac)

  function DecideAt(f: Frame, h: Hop): Verdict {
    Decide(f, h.conf, h.confs, h.route, h.macOf)
  }

  /** The frames sent on the way, until a router discards the packet or the way ends. */
  function Travel(f: Frame, hops: seq<Hop>): seq<Frame>
    decreases |hops|
  {
    if hops == [] then []
    else
      match DecideAt(f, hops[0])
      case Discard => []
      case Transmit(_, g) => [g] + Travel(g, hops[1..])
  }

  predicate IsIpv4(f: Frame) {
    IPV4_END <= |f| && EtherType(f) == ETHER_TYPE_IPV4
  }

  /** The parts of an IPv4 frame no router touches. */
  ghost predicate SamePacket(f: Frame, g: Frame) {
    && |f| == |g|
    && forall i :: 12 <= i < |f| && i != TTL && i != CHECKSUM && i != CHECKSUM + 1 ==> g[i] == f[i]
  }

  /** g is f as its (k + 1)-th transmission: the same packet, valid, with its TTL that much
      lower and not zero. */
  ghost predicate SentAs(f: Frame, g: Frame, k: nat)
    requires IPV4_END <= |f|
  {
    IsIpv4(g) && Ipv4Valid(g) && g[TTL] == f[TTL] - 1 - k && 1 <= g[TTL] && SamePacket(f, g)
  }

  lemma {:induction false} SentMeansForwarded(f: Frame, h: Hop)
    requires IsIpv4(f)
    ensures var hop := h.route(Be32(f, IPV4_DST));
            DecideAt(f, h) ==
            if FrameValid(f, h.conf) && Ipv4Valid(f) && f[TTL] != 1 && hop.Some?
            then Transmit(hop.value.dstPort, Forwarded(f, h.macOf(hop.value.dstPort), hop.value.dstMac))
            else Discard
  {
    hide Forwarded, Ipv4Valid, FrameValid, Be32;
  }

  lemma {:induction false} OneHop(f: Frame, h: Hop)
    requires IsIpv4(f) && DecideAt(f, h).Transmit?
    ensures SentAs(f, DecideAt(f, h).frame, 0)
    ensures DstMac(DecideAt(f, h).frame) == h.route(Be32(f, IPV4_DST)).value.dstMac
  {
    hide DecideAt, Forwarded, Ipv4Valid, FrameValid, SentAs, Be32, DstMac, EtherType;
    SentMeansForwarded(f, h);
    var hop := h.route(Be32(f, IPV4_DST)).value;
    ForwardedIsSent(f, h.macOf(hop.dstPort), hop.dstMac);
  }

  lemma {:induction false} ForwardedIsSent(f: Frame, src: Mac, dst: Mac)
    requires IsIpv4(f) && Ipv4Valid(f) && f[TTL] != 1
    ensures SentAs(f, Forwarded(f, src, dst), 0) && DstMac(Forwarded(f, src, dst)) == dst
  {
    ValidTtl(f);
    hide Forwarded, Ipv4Valid, OnesComplementOk, OptionSum, HeaderFits, EtherType, DstMac, SrcMac;
    ForwardedStaysValid(f, src, dst);
  }

  lemma ValidTtl(f: Frame)
    requires IPV4_END <= |f| && Ipv4Valid(f)
    ensures f[TTL] != 0
  {
    hide ChecksumOk, Version, Ihl, Be16;
  }

  lemma SentOn(f: Frame, g: Frame, h: Frame, k: nat)
    requires IPV4_END <= |f| && SentAs(f, g, 0) && SentAs(g, h, k)
    ensures SentAs(f, h, k + 1)
  {
    hide Ipv4Valid;
  }

  /** Every transmission of a packet that arrived with TTL t carries t minus its number, the
      packet is otherwise the one that arrived, and there are at most t - 1 of them. */
  lemma {:induction false} TtlBoundsTravel(f: Frame, hops: seq<Hop>)
    requires IsIpv4(f)
    ensures |Travel(f, hops)| <= if f[TTL] == 0 then 0 else f[TTL] - 1
    ensures forall k :: 0 <= k < |Travel(f, hops)| ==> SentAs(f, Travel(f, hops)[k], k)
    decreases |hops|
  {
    hide Decide, Ipv4Valid, SamePacket;
    if hops != [] && DecideAt(f, hops[0]).Transmit? {
      var g := DecideAt(f, hops[0]).frame;
      OneHop(f, hops[0]);
      var rest := Travel(g, hops[1..]);
      TtlBoundsTravel(g, hops[1..]);
      assert Travel(f, hops) == [g] + rest;
      forall k | 1 <= k < |Travel(f, hops)| ensures SentAs(f, Travel(f, hops)[k], k) {
        SentOn(f, g, rest[k - 1], k - 1);
      }
    }
  }

  /** Each router knows a next hop for the packet, and sends it to the router after it. */
  ghost predicate Connected(dst: Word32, hops: seq<Hop>) {
    && (forall i :: 0 <= i < |hops| ==> hops[i].route(dst).Some?)
    && (forall i :: 1 <= i < |hops| ==> hops[i - 1].route(dst).value.dstMac == hops[i].conf.mac)
  }

  /** A valid packet is sent on by a router that knows a next hop, and the next one takes it. */
  lemma ConnectedStep(f: Frame, hops: seq<Hop>)
    requires IsIpv4(f) && Ipv4Valid(f) && f[TTL] > 1 && hops != []
    requires Connected(Be32(f, IPV4_DST), hops) && FrameValid(f, hops[0].conf)
    ensures DecideAt(f, hops[0]).Transmit?
    ensures var g := DecideAt(f, hops[0]).frame;
            && SentAs(f, g, 0)
            && Connected(Be32(g, IPV4_DST), hops[1..])
            && (|hops| > 1 ==> FrameValid(g, hops[1].conf))
  {
    SentMeansForwarded(f, hops[0]);
    var g := DecideAt(f, hops[0]).frame;
    OneHop(f, hops[0]);
    hide DecideAt, Ipv4Valid, Forwarded, Connected, Be32, FrameValid, SamePacket;
    SameDestination(f, g);
    ConnectedTail(Be32(f, IPV4_DST), hops);
    if |hops| > 1 {
      StaysFrameValid(f, g, hops[0].conf, hops[1].conf);
    }
  }

  lemma ConnectedTail(dst: Word32, hops: seq<Hop>)
    requires hops != [] && Connected(dst, hops)
    ensures Connected(dst, hops[1..])
    ensures |hops| > 1 ==> hops[0].route(dst).value.dstMac == hops[1].conf.mac
  {
    forall i | 1 <= i < |hops[1..]|
      ensures hops[1..][i - 1].route(dst).value.dstMac == hops[1..][i].conf.mac
    {
      assert hops[1..][i] == hops[i + 1] && hops[1..][i - 1] == hops[i + 1 - 1];
    }
  }

  lemma SameDestination(f: Frame, g: Frame)
    requires IPV4_END <= |f| && SamePacket(f, g)
    ensures |g| == |f| && Be32(g, IPV4_DST) == Be32(f, IPV4_DST)
  {
  }

  lemma StaysFrameValid(f: Frame, g: Frame, conf: IntConf, next: IntConf)
    requires FrameValid(f, conf) && SamePacket(f, g) && DstMac(g) == next.mac
    ensures FrameValid(g, next)
  {
  }

  /** On a connected way the bound is met: a valid packet with TTL t is sent on exactly
      t - 1 times, or by every router if there are fewer. */
  lemma {:induction false} TravelIsExact(f: Frame, hops: seq<Hop>)
    requires IsIpv4(f) && Ipv4Valid(f) && Connected(Be32(f, IPV4_DST), hops)
    requires hops != [] ==> FrameValid(f, hops[0].conf)
    ensures |Travel(f, hops)| == if |hops| < f[TTL] then |hops| else f[TTL] - 1
    decreases |hops|
  {
    TtlBoundsTravel(f, hops);
    if hops != [] && f[TTL] > 1 {
      hide Decide, Ipv4Valid, Connected, FrameValid, SamePacket;
      ConnectedStep(f, hops);
      TravelIsExact(DecideAt(f, hops[0]).frame, hops[1..]);
    }
  }
}
