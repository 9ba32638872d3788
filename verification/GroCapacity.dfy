/**
How much capacity receive offload can be given.  Coalescing looks at capacities only, so it is they
that keep merged packets within what a length field can say.
*/
module GroCapacity {
  import opened Wrappers
  import opened Bytes
  import opened OnesComplement
  import opened HeaderChecksum
  import opened UdpHeader
  import opened GsoSpec
  import opened GsoProperties
  import opened GroModel
  import opened GroGroup
  import opened GroSteps
  import opened GroAccount
  import opened GroWire

  /** tcpGRO would merge `p` into the packet of `item`. */
  ghost predicate TcpAccepted(mode: CanCoalesce, p: Pkt, m: TcpMeta, item: TcpItem, target: Pkt, off: nat, skip: bool) {
    && off <= |p.data| <= p.cap && |target.data| <= target.cap
    && Plausible(p.data[off..], m.isV6, PROTO_TCP) && TcpMetaOf(p.data[off..], m.isV6) == Some(m)
    && item.iphLen == m.iphLen && item.tcphLen >= 20 && item.gsoSize > 0
    && off + item.iphLen + item.tcphLen <= |target.data|
    && mode == TcpCanCoalesce(p.data[off..], m, item, target.data[off..]) != Unavailable
    && TcpCoalesceCheck(mode, p, m, item, target, off, skip) == Success
  }

  /** A merge is accepted, and its accounting writes a wrong length. */
  ghost predicate TcpMisdescribed(mode: CanCoalesce, p: Pkt, m: TcpMeta, item: TcpItem, target: Pkt, off: nat,
                                  skip: bool)
  {
    && TcpAccepted(mode, p, m, item, target, off, skip)
    && !LengthFieldMatches(TcpAccounted(TcpMergedData(mode, p.data, m, item, target.data, off)[off..], m.isV6), m.isV6)
  }

  /** Within the bound every merge that is accepted gets a right length field. */
  lemma TcpWithinCapacity(mode: CanCoalesce, p: Pkt, m: TcpMeta, item: TcpItem, target: Pkt, off: nat, skip: bool)
    requires TcpAccepted(mode, p, m, item, target, off, skip)
    requires p.cap <= 2 * off + MaxLen(m.isV6) && target.cap <= 2 * off + MaxLen(m.isV6)
    ensures !TcpMisdescribed(mode, p, m, item, target, off, skip)
  {
    hide TcpCoalesceCheck;
    hide TcpAccounted;
    AcceptedShape(mode, p, m, item, target, off, skip);
    hide TcpMetaOf;
    hide TcpCanCoalesce;
    hide TcpMergedData;
    hide SetPsh;
    RoomBounds(mode, p, m, item, target, off, skip);
    MergedDataAt(mode, p.data, m, item, target.data, off);
    TcpLengthExact(TcpMergedData(mode, p.data, m, item, target.data, off)[off..], m.isV6);
  }

  lemma AcceptedShape(mode: CanCoalesce, p: Pkt, m: TcpMeta, item: TcpItem, target: Pkt, off: nat, skip: bool)
    requires TcpAccepted(mode, p, m, item, target, off, skip)
    ensures m.iphLen == IphLen(m.isV6) && m.tcphLen == item.tcphLen && off + m.iphLen + m.tcphLen <= |p.data|
  {
    hide TcpCoalesceCheck;
    MetaShape(p.data[off..], m);
  }

  /** A packet of 40000 bytes, and the shortest one behind it that makes the two too long for a length field. */
  function FrontLen(): nat {
    40000
  }

  function BackLen(isV6: bool, proto: byte): nat {
    MaxLen(isV6) + 1 - FrontLen() + IphLen(isV6) + if proto == PROTO_TCP then 20 else UDP_HEADER_LEN
  }

  function Buffered(off: nat, s: seq<byte>, cap: nat): (p: Pkt)
    ensures off <= |p.data| == off + |s| && p.data[off..] == s && p.cap == cap
  {
    Pkt(Zeros(off) + s, cap)
  }

  /** One byte of capacity beyond the bound, and two packets merge into one whose length field is wrong. */
  lemma TcpTooLong(isV6: bool, off: nat, skip: bool) returns (p: Pkt, m: TcpMeta, item: TcpItem, target: Pkt)
    ensures m.isV6 == isV6 && p.cap <= target.cap == 2 * off + MaxLen(isV6) + 1
    ensures off <= |target.data| && Plausible(target.data[off..], isV6, PROTO_TCP)
      && TcpMetaOf(target.data[off..], isV6).Some?
    ensures item == NewTcpItem(TcpMetaOf(target.data[off..], isV6).value, 0)
    ensures TcpMisdescribed(Append, p, m, item, target, off, skip)
  {
    hide Wire;
    hide TcpMetaOf;
    hide TcpAccounted;
    hide ChecksumValid;
    hide TcpCoalesceCheck;
    var h, n := IphLen(isV6) + 20, BackLen(isV6, PROTO_TCP);
    var front, back := Wire(isV6, PROTO_TCP, FrontLen(), 0), Wire(isV6, PROTO_TCP, n, FrontLen() - h);
    WireTcp(isV6, FrontLen(), 0);
    WireTcp(isV6, n, FrontLen() - h);
    item, m := NewTcpItem(WireTcpMeta(isV6, FrontLen(), 0), 0), WireTcpMeta(isV6, n, FrontLen() - h);
    target, p := Buffered(off, front, 2 * off + MaxLen(isV6) + 1), Buffered(off, back, off + n);
    WireValid(isV6, PROTO_TCP, FrontLen(), 0);
    WireValid(isV6, PROTO_TCP, n, FrontLen() - h);
    WiresCoalesce(isV6, PROTO_TCP, FrontLen(), 0, n, FrontLen() - h);
    RoomDecides(Append, p, m, item, target, off, skip);
    MergedDataAt(Append, p.data, m, item, target.data, off);
    TcpLengthExact(TcpMergedData(Append, p.data, m, item, target.data, off)[off..], isV6);
  }

  /**
  With capacity up to `cap`, some accepted merge is described by a wrong length exactly if `cap` is
  beyond the bound.
  */
  lemma TcpCapacityExact(isV6: bool, off: nat, cap: nat, skip: bool)
    ensures (exists mode, p, m, item, target ::
               && TcpMisdescribed(mode, p, m, item, target, off, skip)
               && m.isV6 == isV6 && p.cap <= cap && target.cap <= cap)
      <==> cap > 2 * off + MaxLen(isV6)
  {
    if cap > 2 * off + MaxLen(isV6) {
      var p, m, item, target := TcpTooLong(isV6, off, skip);
    } else {
      forall mode, p, m, item, target
        | TcpMisdescribed(mode, p, m, item, target, off, skip) && m.isV6 == isV6 && p.cap <= cap && target.cap <= cap
        ensures false
      {
        TcpWithinCapacity(mode, p, m, item, target, off, skip);
      }
    }
  }

  /** udpGRO would merge `p` into the datagram of `item`. */
  ghost predicate UdpAccepted(p: Pkt, m: UdpMeta, item: UdpItem, target: Pkt, off: nat, skip: bool) {
    && off <= |p.data| <= p.cap && |target.data| <= target.cap
    && Plausible(p.data[off..], m.isV6, PROTO_UDP) && UdpMetaOf(p.data[off..], m.isV6) == Some(m)
    && item.iphLen == m.iphLen && item.gsoSize > 0
    && off + item.iphLen + UDP_HEADER_LEN <= |target.data|
    && UdpCanCoalesce(p.data[off..], m, item, target.data[off..])
    && UdpCoalesceCheck(p, m, item, target, off, skip) == Success
  }

  ghost predicate UdpMisdescribed(p: Pkt, m: UdpMeta, item: UdpItem, target: Pkt, off: nat, skip: bool) {
    && UdpAccepted(p, m, item, target, off, skip)
    && var merged := target.data + p.data[off + item.iphLen + UDP_HEADER_LEN..];
      !UdpLengthsMatch(UdpAccounted(merged[off..], m.isV6), m.isV6)
  }

  lemma UdpWithinCapacity(p: Pkt, m: UdpMeta, item: UdpItem, target: Pkt, off: nat, skip: bool)
    requires UdpAccepted(p, m, item, target, off, skip) && target.cap <= 2 * off + MaxLen(m.isV6)
    ensures !UdpMisdescribed(p, m, item, target, off, skip)
  {
    hide UdpAccounted;
    hide UdpLengthsMatch;
    hide ChecksumValid;
    hide UdpCanCoalesce;
    UdpMetaShape(p.data[off..], m);
    hide UdpMetaOf;
    UdpLengthExact((target.data + p.data[off + item.iphLen + UDP_HEADER_LEN..])[off..], m.isV6);
  }

  /** The same for datagrams. */
  lemma UdpTooLong(isV6: bool, off: nat, skip: bool) returns (p: Pkt, m: UdpMeta, item: UdpItem, target: Pkt)
    ensures m.isV6 == isV6 && p.cap <= target.cap == 2 * off + MaxLen(isV6) + 1
    ensures off <= |target.data| && Plausible(target.data[off..], isV6, PROTO_UDP)
      && UdpMetaOf(target.data[off..], isV6).Some?
    ensures item == NewUdpItem(UdpMetaOf(target.data[off..], isV6).value, 0, false)
    ensures UdpMisdescribed(p, m, item, target, off, skip)
  {
    hide Wire;
    hide UdpMetaOf;
    hide UdpAccounted;
    hide UdpLengthsMatch;
    hide ChecksumValid;
    var h, n := IphLen(isV6) + UDP_HEADER_LEN, BackLen(isV6, PROTO_UDP);
    var front, back := Wire(isV6, PROTO_UDP, FrontLen(), 0), Wire(isV6, PROTO_UDP, n, 0);
    WireUdp(isV6, FrontLen());
    WireUdp(isV6, n);
    item, m := NewUdpItem(WireUdpMeta(isV6, FrontLen()), 0, false), WireUdpMeta(isV6, n);
    target, p := Buffered(off, front, 2 * off + MaxLen(isV6) + 1), Buffered(off, back, off + n);
    WireValid(isV6, PROTO_UDP, FrontLen(), 0);
    WireValid(isV6, PROTO_UDP, n, 0);
    WiresCoalesce(isV6, PROTO_UDP, FrontLen(), 0, n, 0);
    assert Get16(target.data, off + item.iphLen + 6) == Get16(front, item.iphLen + 6);
    assert Get16(p.data, off + item.iphLen + 6) == Get16(back, item.iphLen + 6);
    UdpLengthExact((target.data + p.data[off + item.iphLen + UDP_HEADER_LEN..])[off..], isV6);
  }

  lemma UdpCapacityExact(isV6: bool, off: nat, cap: nat, skip: bool)
    ensures (exists p, m, item, target ::
               UdpMisdescribed(p, m, item, target, off, skip) && m.isV6 == isV6 && p.cap <= cap && target.cap <= cap)
      <==> cap > 2 * off + MaxLen(isV6)
  {
    if cap > 2 * off + MaxLen(isV6) {
      var p, m, item, target := UdpTooLong(isV6, off, skip);
    } else {
      forall p, m, item, target
        | UdpMisdescribed(p, m, item, target, off, skip) && m.isV6 == isV6 && p.cap <= cap && target.cap <= cap
        ensures false
      {
        UdpWithinCapacity(p, m, item, target, off, skip);
      }
    }
  }
}
