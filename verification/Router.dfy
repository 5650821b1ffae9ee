/**
 The packet path of one worker: every received buffer is checked, rewritten in place and
 sent on, answered, or freed.
 */
module Routers {
  import opened Bits
  import opened Routes
  import opened RoutingTables
  import opened Frames
  import opened Decisions
  import opened Nics
  import Wire

  /** The state of a run as seen from outside: what happened and how many attempts were made. */
  datatype Trace = Trace(log: seq<Event>, attempts: nat)

  function Handled(t: Trace, buf: Mbuf, queue: Word16, v: Verdict, accepts: nat -> bool): Trace {
    Trace(t.log + [Disposal(buf, queue, v, accepts, t.attempts)], AttemptsAfter(v, accepts, t.attempts))
  }

  /** The trace after handling buffers one by one, given the verdict on each. */
  function HandledAll(t: Trace, bufs: seq<Mbuf>, queue: Word16, vs: seq<Verdict>, accepts: nat -> bool): Trace
    requires |bufs| == |vs|
  {
    if bufs == [] then t
    else
      var last := |bufs| - 1;
      Handled(HandledAll(t, bufs[..last], queue, vs[..last], accepts), bufs[last], queue, vs[last], accepts)
  }

  lemma {:induction false} HandledNext(t: Trace, bufs: seq<Mbuf>, queue: Word16, vs: seq<Verdict>, accepts: nat -> bool,
                                       i: nat)
    requires i < |bufs| == |vs|
    ensures HandledAll(t, bufs[..i + 1], queue, vs[..i + 1], accepts)
            == Handled(HandledAll(t, bufs[..i], queue, vs[..i], accepts), bufs[i], queue, vs[i], accepts)
  {
    assert bufs[..i + 1][..i] == bufs[..i] && vs[..i + 1][..i] == vs[..i];
  }

  class RouterThread {
    const table: RoutingTable
    const nic: Nic
    const queue: Word16
    const confs: seq<IntConf>
    const macOf: Byte -> Mac

    constructor (table: RoutingTable, nic: Nic, queue: Word16, confs: seq<IntConf>, macOf: Byte -> Mac)
      ensures this.table == table && this.nic == nic && this.queue == queue
      ensures this.confs == confs && this.macOf == macOf
    {
      this.table, this.nic, this.queue, this.confs, this.macOf := table, nic, queue, confs, macOf;
    }

    ghost predicate Ready()
      reads table, table.tbl24, table.tblLong, table.info
    {
      table.Valid()
    }

    ghost function Decided(f: Frame, conf: IntConf): Verdict
      reads table
    {
      var h := table.history;
      Decide(f, conf, confs, (ip: Word32) => Answer(h, ip), macOf)
    }

    function Seen(): Trace
      reads nic
    {
      Trace(nic.log, nic.attempts)
    }

    method Drop(buf: Mbuf)
      modifies nic
      ensures Seen() == Handled(old(Seen()), buf, queue, Discard, nic.accepts)
    {
      nic.Free(buf);
    }

    method SendOrFree(port: Byte, buf: Mbuf)
      modifies nic
      ensures Seen() == Handled(old(Seen()), buf, queue, Transmit(port, buf.data[..]), nic.accepts)
    {
      nic.SendOrFree(port, queue, buf);
    }

    method WriteBytes(data: array<Byte>, off: nat, bytes: seq<Byte>)
      requires off + |bytes| <= data.Length
      modifies data
      ensures data[..] == Splice(old(data[..]), off, bytes)
    {
      for i := 0 to |bytes|
        invariant forall k :: 0 <= k < data.Length ==>
                    data[k] == if off <= k < off + i then bytes[k - off] else old(data[k])
      {
        data[off + i] := bytes[i];
      }
    }

    /** Checks the header of section 5.2.2 of RFC 1812, leaving the checksum field zero. */
    method IsIpv4HdrValid(data: array<Byte>, payloadSize: nat) returns (ok: bool)
      requires IPV4_END <= data.Length && payloadSize == data.Length - ETHER_HDR_LEN
      modifies data
      ensures ok == Ipv4Valid(old(data[..]))
      ensures data[..] == WithChecksum(old(data[..]), 0)
    {
      var checksum := ChecksumField(data[..]);
      data[CHECKSUM] := 0;
      data[CHECKSUM + 1] := 0;
      assert data[..] == WithChecksum(old(data[..]), 0);
      var calcChksm := Ipv4Cksum(data[..]);
      hide Ipv4Cksum, And;
      if calcChksm != checksum {
        return false;
      }
      var version := And(data[ETHER_HDR_LEN], 0xF0) / 0x10;
      if version != 4 {
        return false;
      }
      var ihl := And(data[ETHER_HDR_LEN], 0x0F);
      if ihl < 5 {
        return false;
      }
      var totLen := Be16(data[..], ETHER_HDR_LEN + 2);
      if totLen < 4 * ihl {
        return false;
      }
      if totLen > payloadSize {
        return false;
      }
      if data[TTL] == 0 {
        return false;
      }
      return true;
    }

    /** Forwards a packet whose header has been checked; without a next hop, or when the TTL
        runs out, the buffer is freed. */
    method SendIpv4Packet(buf: Mbuf, nextHop: Option<NextHop>)
      requires IPV4_END <= buf.data.Length
      modifies nic, buf.data
      ensures var f := old(buf.data[..]);
              var v := if nextHop.None? || f[TTL] == 1 then Discard
                       else Transmit(nextHop.value.dstPort,
                                     Forwarded(f, macOf(nextHop.value.dstPort), nextHop.value.dstMac));
              Seen() == Handled(old(Seen()), buf, queue, v, nic.accepts)
    {
      hide Handled;
      if nextHop.None? {
        Drop(buf);
        return;
      }
      ghost var f := buf.data[..];
      buf.data[TTL] := ((buf.data[TTL] as int) - 1) % 0x100;
      assert buf.data[TTL] == 0 <==> f[TTL] == 1;
      if buf.data[TTL] == 0 {
        Drop(buf);
        return;
      }
      assert buf.data[..] == f[TTL := ((f[TTL] as int) - 1) % 0x100];
      hide Ipv4Cksum, WithChecksum, Splice;
      Readdress(buf.data, macOf(nextHop.value.dstPort), nextHop.value.dstMac);
      assert buf.data[..] == Forwarded(f, macOf(nextHop.value.dstPort), nextHop.value.dstMac);
      hide Forwarded;
      SendOrFree(nextHop.value.dstPort, buf);
    }

    method Readdress(data: array<Byte>, srcMac: Mac, dstMac: Mac)
      requires IPV4_END <= data.Length
      modifies data
      ensures var h := old(data[..]);
              data[..] == Splice(Splice(WithChecksum(h, Ipv4Cksum(WithChecksum(h, 0))), 6, srcMac), 0, dstMac)
    {
      hide Ipv4Cksum, WithChecksum, Splice;
      RenewChecksum(data);
      WriteBytes(data, 6, srcMac);
      WriteBytes(data, 0, dstMac);
    }

    method RenewChecksum(data: array<Byte>)
      requires IPV4_END <= data.Length
      modifies data
      ensures data[..] == WithChecksum(old(data[..]), Ipv4Cksum(WithChecksum(old(data[..]), 0)))
    {
      ghost var h := data[..];
      data[CHECKSUM] := 0;
      data[CHECKSUM + 1] := 0;
      assert data[..] == WithChecksum(h, 0);
      var c := Ipv4Cksum(data[..]);
      hide Ipv4Cksum;
      data[CHECKSUM] := c % 0x100;
      data[CHECKSUM + 1] := c / 0x100;
      assert data[..] == WithChecksum(h, c);
    }

    method HandleEtherIpv4(buf: Mbuf)
      requires Ready() && IPV4_END <= buf.data.Length
      modifies nic, buf.data
      ensures Ready()
      ensures var f := old(buf.data[..]);
              var dst := (f[30] as int) * 0x100_0000 + (f[31] as int) * 0x1_0000 + (f[32] as int) * 0x100 + f[33];
              Seen() == Handled(old(Seen()), buf, queue, Ipv4Verdict(f, Answer(table.history, dst), macOf), nic.accepts)
    {
      hide RoutingTable.Valid, Handled, Forwarded, Ipv4Valid, Answer, WithChecksum, Be32;
      ghost var f := buf.data[..];
      Wire.NetworkOrder(f, 30);
      var ok := IsIpv4HdrValid(buf.data, buf.data.Length - ETHER_HDR_LEN);
      if !ok {
        Drop(buf);
        return;
      }
      Wire.NetworkOrder(buf.data[..], 30);
      var nextHop := table.GetNextHop(Be32(buf.data[..], IPV4_DST));
      SendIpv4Packet(buf, nextHop);
      if nextHop.Some? {
        ChecksumIsRewritten(f, macOf(nextHop.value.dstPort), nextHop.value.dstMac);
      }
    }

    /** The zeroed checksum field does not show in the forwarded packet. */
    lemma ChecksumIsRewritten(f: Frame, src: Mac, dst: Mac)
      requires IPV4_END <= |f|
      ensures Forwarded(WithChecksum(f, 0), src, dst) == Forwarded(f, src, dst)
    {
      var ttl := ((f[TTL] as int) - 1) % 0x100;
      assert WithChecksum(WithChecksum(f, 0)[TTL := ttl], 0) == WithChecksum(f[TTL := ttl], 0);
      var c := Ipv4Cksum(WithChecksum(f[TTL := ttl], 0));
      hide Ipv4Cksum, Splice;
      assert WithChecksum(WithChecksum(f, 0)[TTL := ttl], c) == WithChecksum(f[TTL := ttl], c);
    }

    method IsArpMsgValid(data: array<Byte>) returns (ok: bool)
      requires ARP_END <= data.Length
      ensures ok == ArpValid(data[..], confs)
    {
      if Be16(data[..], 14) != 1 || data[18] != 6 {
        return false;
      }
      if Be16(data[..], 16) != ETHER_TYPE_IPV4 || data[19] != 4 {
        return false;
      }
      for i := 0 to |confs|
        invariant forall k :: 0 <= k < i ==> confs[k].addr != Be32(data[..], ARP_TIP)
      {
        if confs[i].addr == Be32(data[..], ARP_TIP) {
          return true;
        }
      }
      return false;
    }

    /** Turns the request into the reply, field by field in the order of the source. */
    method RewriteArp(data: array<Byte>, mac: Mac)
      requires ARP_END <= data.Length
      modifies data
      ensures data[..] == ArpReply(old(data[..]), mac)
    {
      ghost var f := data[..];
      WriteBytes(data, 0, data[6..12]);
      WriteBytes(data, 6, mac);
      WriteBytes(data, ARP_OP, [0, 2]);
      var senderMac := data[ARP_SHA..ARP_SHA + 6];
      var senderIp := data[ARP_SIP..ARP_SIP + 4];
      assert senderMac == f[ARP_SHA..ARP_SHA + 6] && senderIp == f[ARP_SIP..ARP_SIP + 4];
      WriteBytes(data, ARP_SHA, mac);
      assert data[ARP_TIP..ARP_TIP + 4] == f[ARP_TIP..ARP_TIP + 4];
      WriteBytes(data, ARP_SIP, data[ARP_TIP..ARP_TIP + 4]);
      WriteBytes(data, ARP_THA, senderMac);
      WriteBytes(data, ARP_TIP, senderIp);
    }

    method HandleEtherArp(conf: IntConf, buf: Mbuf)
      requires ARP_END <= buf.data.Length
      modifies nic, buf.data
      ensures var f := old(buf.data[..]);
              var v := if f[14..22] == [0, 1, 8, 0, 6, 4, 0, 1]
                          && exists i :: 0 <= i < |confs|
                               && confs[i].addr == (f[38] as int) * 0x100_0000 + (f[39] as int) * 0x1_0000
                                                   + (f[40] as int) * 0x100 + f[41]
                       then Transmit(conf.intId, ArpReply(f, conf.mac)) else Discard;
              Seen() == Handled(old(Seen()), buf, queue, v, nic.accepts)
      ensures Seen() == Handled(old(Seen()), buf, queue, ArpVerdict(old(buf.data[..]), conf, confs), nic.accepts)
    {
      hide Handled, ArpReply, ArpValid;
      Wire.ArpVerdictExactly(buf.data[..], conf, confs);
      var ok := IsArpMsgValid(buf.data);
      if !ok {
        Drop(buf);
        return;
      }
      if Be16(buf.data[..], ARP_OP) == 1 {
        RewriteArp(buf.data, conf.mac);
        SendOrFree(conf.intId, buf);
      } else {
        Drop(buf);
      }
    }

    method IsFrameValid(buf: Mbuf, conf: IntConf) returns (ok: bool)
      ensures ok == FrameValid(buf.data[..], conf)
    {
      if buf.data.Length < ETHER_HDR_LEN {
        return false;
      }
      var f := buf.data[..];
      if DstMac(f) != BROADCAST && DstMac(f) != conf.mac {
        return false;
      }
      var etherType := EtherType(f);
      var minPayloadLen := 0;
      if etherType == ETHER_TYPE_IPV4 {
        minPayloadLen := IPV4_HDR_LEN;
      } else if etherType == ETHER_TYPE_IPV6 {
        minPayloadLen := IPV6_HDR_LEN;
      } else if etherType == ETHER_TYPE_ARP {
        minPayloadLen := ARP_HDR_LEN;
      } else {
        return false;
      }
      if buf.data.Length < ETHER_HDR_LEN + minPayloadLen {
        return false;
      }
      if buf.data.Length > ETHER_MAX_LEN - ETHER_CRC_LEN {
        return false;
      }
      return true;
    }

    /** One frame: exactly one event for its buffer, the one decided by its bytes. */
    method HandleFrame(conf: IntConf, buf: Mbuf)
      requires Ready()
      modifies nic, buf.data
      ensures Ready()
      ensures Seen() == Handled(old(Seen()), buf, queue, Decided(old(buf.data[..]), conf), nic.accepts)
    {
      hide RoutingTable.Valid, Handled, Answer, Ipv4Verdict, ArpVerdict;
      var ok := IsFrameValid(buf, conf);
      if !ok {
        Drop(buf);
        return;
      }
      var etherType := EtherType(buf.data[..]);
      if etherType == ETHER_TYPE_IPV4 {
        HandleEtherIpv4(buf);
      } else if etherType == ETHER_TYPE_ARP {
        HandleEtherArp(conf, buf);
      } else {
        Drop(buf);
      }
    }

    ghost function DecidedAll(frames: seq<Frame>, conf: IntConf): (vs: seq<Verdict>)
      ensures |vs| == |frames|
      ensures forall i :: 0 <= i < |frames| ==> vs[i] == Decided(frames[i], conf)
      reads table
    {
      if frames == [] then []
      else DecidedAll(frames[..|frames| - 1], conf) + [Decided(frames[|frames| - 1], conf)]
    }

    /** The first rx places of the array hold a burst of distinct buffers: they are handled in
        order. */
    method HandleFrames(conf: IntConf, bufs: array<Mbuf>, rx: Word16)
      requires Ready() && rx <= bufs.Length && Distinct(bufs[..rx])
      modifies nic, DataOf(bufs[..rx])
      ensures Ready()
      ensures var vs := old(DecidedAll(FramesOf(bufs[..rx]), conf));
              Seen() == HandledAll(old(Seen()), bufs[..rx], queue, vs, nic.accepts)
    {
      hide *;
      ghost var burst := bufs[..rx];
      ghost var frames := FramesOf(burst);
      ghost var vs := DecidedAll(frames, conf);
      WholeBurst(Seen(), burst, queue, vs, nic.accepts);
      for i := 0 to rx
        invariant Ready() && bufs[..rx] == burst
        invariant forall k :: i <= k < rx ==> burst[k].data[..] == frames[k]
        invariant DecidedAll(frames, conf) == vs
        invariant Seen() == HandledAll(old(Seen()), burst[..i], queue, vs[..i], nic.accepts)
      {
        HandledNext(old(Seen()), burst, queue, vs, nic.accepts, i);
        assert bufs[i] == burst[i];
        HandleFrame(conf, bufs[i]);
      }
    }
  }

  lemma {:induction false} WholeBurst(t: Trace, bufs: seq<Mbuf>, queue: Word16, vs: seq<Verdict>, accepts: nat -> bool)
    requires Distinct(bufs) && |bufs| == |vs|
    ensures HandledAll(t, bufs[..0], queue, vs[..0], accepts) == t
    ensures bufs[..|bufs|] == bufs && vs[..|bufs|] == vs
    ensures forall i :: 0 <= i < |bufs| ==> bufs[i].data in DataOf(bufs)
    ensures forall i, j :: 0 <= i < j < |bufs| ==> bufs[i].data != bufs[j].data
  {
  }

  ghost predicate Distinct(bufs: seq<Mbuf>) {
    forall i, j :: 0 <= i < j < |bufs| ==> bufs[i].data != bufs[j].data
  }

  /** The memory behind the buffers. */
  ghost function DataOf(bufs: seq<Mbuf>): set<array<Byte>> {
    set b | b in bufs :: b.data
  }

  ghost function FramesOf(bufs: seq<Mbuf>): (fs: seq<Frame>)
    ensures |fs| == |bufs|
    ensures forall i :: 0 <= i < |bufs| ==> fs[i] == bufs[i].data[..]
    reads DataOf(bufs)
  {
    seq(|bufs|, i requires 0 <= i < |bufs| reads DataOf(bufs) => bufs[i].data[..])
  }
}
