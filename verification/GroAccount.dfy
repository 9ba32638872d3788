/** applyTCPCoalesceAccounting and applyUDPCoalesceAccounting on values, and the way back through GSOSplit. */
module GroAccount {
  import opened Wrappers
  import opened Bytes
  import opened OnesComplement
  import opened HeaderChecksum
  import opened GsoSpec
  import opened GsoProperties
  import opened GsoSplit
  import opened Virtio
  import opened GroModel
  import opened GroGroup

  function TcpHdr(item: TcpItem): VirtioHdr
    requires item.iphLen + item.tcphLen < 0x1_0000
  {
    VirtioHdr(F_NEEDS_CSUM, if item.key.isV6 then GSO_TCPV6 else GSO_TCPV4,
              item.iphLen + item.tcphLen, item.gsoSize, item.iphLen, 16)
  }

  function UdpHdr(item: UdpItem): VirtioHdr
    requires item.iphLen + UDP_HEADER_LEN < 0x1_0000
  {
    VirtioHdr(F_NEEDS_CSUM, GSO_UDP_L4, item.iphLen + UDP_HEADER_LEN, item.gsoSize, item.iphLen, 6)
  }

  /** The IP length of the merged packet and, for IPv4, its header checksum. */
  function IpAccounted(d: seq<byte>, isV6: bool): (r: seq<byte>)
    requires |d| >= IphLen(isV6)
    ensures |r| == |d|
  {
    if isV6 then Put16(d, 4, (|d| - 40) % 0x1_0000)
    else
      var a := Put16(Put16(d, 10, 0), 2, |d| % 0x1_0000);
      Put16(a, 10, Not16(Rfc1071(a[..20], 0)))
  }

  function PseudoSum(d: seq<byte>, isV6: bool, proto: byte): u16
    requires |d| >= IphLen(isV6)
  {
    var v := Ver(isV6);
    var a, n := AddrAt(v), AddrLen(v);
    PseudoHeaderChecksum(proto, d[a..a + n], d[a + n..a + 2 * n], (|d| - IphLen(isV6)) % 0x1_0000)
  }

  function TcpAccounted(d: seq<byte>, isV6: bool): (r: seq<byte>)
    requires |d| >= IphLen(isV6) + 20
    ensures |r| == |d|
  {
    var a := IpAccounted(d, isV6);
    Put16(a, IphLen(isV6) + 16, PseudoSum(a, isV6, PROTO_TCP))
  }

  function UdpAccounted(d: seq<byte>, isV6: bool): (r: seq<byte>)
    requires |d| >= IphLen(isV6) + UDP_HEADER_LEN
    ensures |r| == |d|
  {
    var a := Put16(IpAccounted(d, isV6), IphLen(isV6) + 4, (|d| - IphLen(isV6)) % 0x1_0000);
    Put16(a, IphLen(isV6) + 6, PseudoSum(a, isV6, PROTO_UDP))
  }

  /** Header bytes that accounting or splitting may change, TCP flags included. */
  predicate Volatile(isV6: bool, tcp: bool, k: int) {
    var t := IphLen(isV6);
    || (!isV6 && k in {2, 3, 4, 5, 10, 11}) || (isV6 && k in {4, 5})
    || (tcp && (t + 4 <= k < t + 8 || k in {t + 13, t + 16, t + 17}))
    || (!tcp && t + 4 <= k < t + 8)
  }

  /** Two packets with the same headers but for volatile bytes. */
  ghost predicate SameStable(p: seq<byte>, r: seq<byte>, isV6: bool, tcp: bool, h: nat) {
    h <= |p| && h <= |r| && forall k :: 0 <= k < h && !Volatile(isV6, tcp, k) ==> r[k] == p[k]
  }

  lemma IpAccountedFrame(d: seq<byte>, isV6: bool)
    requires |d| >= IphLen(isV6)
    ensures var r := IpAccounted(d, isV6);
      forall k :: 0 <= k < |d| && (k >= 12 || (isV6 && k != 4 && k != 5) || (!isV6 && k !in {2, 3, 10, 11})) ==>
        r[k] == d[k]
  {
    hide Rfc1071;
  }

  /** The length field accounting writes is right exactly when the length fits it. */
  lemma LengthExact(d: seq<byte>, isV6: bool)
    requires |d| >= IphLen(isV6)
    ensures LengthFieldMatches(IpAccounted(d, isV6), isV6) <==> |d| <= MaxLen(isV6)
  {
    hide Rfc1071;
    hide Put16;
    hide Not16;
    if !isV6 {
      var a := Put16(Put16(d, 10, 0), 2, |d| % 0x1_0000);
      assert Get16(IpAccounted(d, false), 2) == Get16(a, 2) == |d| % 0x1_0000;
    }
  }

  lemma TcpLengthExact(d: seq<byte>, isV6: bool)
    requires |d| >= IphLen(isV6) + 20
    ensures LengthFieldMatches(TcpAccounted(d, isV6), isV6) <==> |d| <= MaxLen(isV6)
  {
    hide IpAccounted;
    hide PseudoSum;
    LengthExact(d, isV6);
  }

  /** Both length fields of a datagram. */
  predicate UdpLengthsMatch(p: seq<byte>, isV6: bool)
    requires |p| >= IphLen(isV6) + UDP_HEADER_LEN
  {
    LengthFieldMatches(p, isV6) && Get16(p, IphLen(isV6) + 4) == |p| - IphLen(isV6)
  }

  lemma UdpLengthExact(d: seq<byte>, isV6: bool)
    requires |d| >= IphLen(isV6) + UDP_HEADER_LEN
    ensures UdpLengthsMatch(UdpAccounted(d, isV6), isV6) <==> |d| <= MaxLen(isV6)
  {
    hide IpAccounted;
    hide PseudoSum;
    LengthExact(d, isV6);
  }

  /** The IPv4 header that accounting leaves passes the header check. */
  lemma IpAccountedValid(d: seq<byte>)
    requires |d| >= 20 && d[0] == 0x45
    ensures Ipv4Valid(IpAccounted(d, false))
  {
    hide Rfc1071;
    hide Fold;
    hide W;
    hide Not16;
    var a := Put16(Put16(d, 10, 0), 2, |d| % 0x1_0000);
    var t := a[..20];
    Rfc1071IsFold(t, 0);
    WFirst(t);
    var x := Not16(Fold(W(t, true)));
    var r := IpAccounted(d, false);
    assert r == Put16(a, 10, x) && r[..20] == Put16(t, 10, x);
    assert Get16(t, 10) == 0;
    WPut16(t, 10, x);
    Rfc1071IsFold(Put16(t, 10, x), 0);
    Completed(W(t, true), false);
  }

  /** The field accounting leaves is the pseudo-header sum of the packet it leaves. */
  lemma PseudoLeft(a: seq<byte>, e: seq<byte>, isV6: bool, proto: byte)
    requires IphLen(isV6) <= |a| == |e| && forall k :: 0 <= k < IphLen(isV6) ==> e[k] == a[k]
    ensures PseudoOf(e, IphLen(isV6), proto, Ver(isV6)) == PseudoSum(a, isV6, proto)
  {
    hide PseudoHeaderChecksum;
    PseudoKept(a, e, IphLen(isV6), proto, Ver(isV6));
  }

  /** Left whole, the merged TCP packet has a valid header, and its checksum, once completed, is valid. */
  lemma TcpAccountedValid(d: seq<byte>, isV6: bool, o: GsoOptions)
    requires |d| >= IphLen(isV6) + 20 && d[0] / 0x10 == Ver(isV6) && (!isV6 ==> d[0] == 0x45)
    requires o.csumStart == IphLen(isV6) && o.csumOffset == 16 && o.needsCsum
    ensures var e := TcpAccounted(d, isV6);
      ChecksumValid(Completion(e, o), o.csumStart, PROTO_TCP, Ver(isV6)) && (!isV6 ==> Ipv4Valid(e))
  {
    hide IpAccounted;
    hide PseudoSum;
    hide Completion;
    hide ChecksumValid;
    hide Rfc1071;
    var a, e := IpAccounted(d, isV6), TcpAccounted(d, isV6);
    PseudoLeft(a, e, isV6, PROTO_TCP);
    CompletionValid(e, o, PROTO_TCP, Ver(isV6));
    IpAccountedFrame(d, isV6);
    if !isV6 {
      IpAccountedValid(d);
      assert e[..20] == a[..20];
    }
  }

  lemma UdpAccountedValid(d: seq<byte>, isV6: bool, o: GsoOptions)
    requires |d| >= IphLen(isV6) + UDP_HEADER_LEN && d[0] / 0x10 == Ver(isV6) && (!isV6 ==> d[0] == 0x45)
    requires o.csumStart == IphLen(isV6) && o.csumOffset == 6 && o.needsCsum
    ensures var e := UdpAccounted(d, isV6);
      ChecksumValid(Completion(e, o), o.csumStart, PROTO_UDP, Ver(isV6)) && (!isV6 ==> Ipv4Valid(e))
  {
    hide IpAccounted;
    hide PseudoSum;
    hide Completion;
    hide ChecksumValid;
    hide Rfc1071;
    var a, e := IpAccounted(d, isV6), UdpAccounted(d, isV6);
    var b := Put16(a, IphLen(isV6) + 4, (|d| - IphLen(isV6)) % 0x1_0000);
    PseudoLeft(b, e, isV6, PROTO_UDP);
    CompletionValid(e, o, PROTO_UDP, Ver(isV6));
    IpAccountedFrame(d, isV6);
    if !isV6 {
      IpAccountedValid(d);
      assert e[..20] == a[..20];
    }
  }

  lemma TcpAccountedFrame(d: seq<byte>, isV6: bool, h: nat)
    requires IphLen(isV6) + 20 <= h <= |d|
    ensures var e := TcpAccounted(d, isV6);
      && SameStable(d, e, isV6, true, h) && e[h..] == d[h..]
      && Get32(e, IphLen(isV6) + 4) == Get32(d, IphLen(isV6) + 4) && e[IphLen(isV6) + 13] == d[IphLen(isV6) + 13]
  {
    hide IpAccounted;
    hide PseudoSum;
    IpAccountedFrame(d, isV6);
  }

  lemma UdpAccountedFrame(d: seq<byte>, isV6: bool)
    requires IphLen(isV6) + UDP_HEADER_LEN <= |d|
    ensures var e, h := UdpAccounted(d, isV6), IphLen(isV6) + UDP_HEADER_LEN;
      SameStable(d, e, isV6, false, h) && e[h..] == d[h..]
  {
    hide IpAccounted;
    hide PseudoSum;
    IpAccountedFrame(d, isV6);
  }

  lemma StableTrans(p: seq<byte>, q: seq<byte>, r: seq<byte>, isV6: bool, tcp: bool, h: nat)
    requires SameStable(p, q, isV6, tcp, h) && SameStable(q, r, isV6, tcp, h)
    ensures SameStable(p, r, isV6, tcp, h)
  {
  }

  /** A segment keeps the stable header bytes of its superpacket. */
  lemma SegmentStable(e: seq<byte>, o: GsoOptions, i: nat, isV6: bool)
    requires WellFormed(e, o) && DataAt(o, i) < |e| && Version(e) == Ver(isV6) && o.csumStart == IphLen(isV6)
    requires Canonical(o)
    ensures SameStable(e, Segment(e, o, i), isV6, IsTcp(o), o.hdrLen)
  {
    hide Segment;
    hide CommonOf;
    hide WellFormed;
    CommonVersion(e, o);
    SegmentFields(e, o, i);
    WellFormedShape(e, o);
  }

  lemma WellFormedShape(e: seq<byte>, o: GsoOptions)
    requires WellFormed(e, o)
    ensures o.hdrLen <= |e|
  {
  }

  /** What a receiver parses is determined by the stable bytes, the lengths, the flags and the sequence number. */
  lemma TcpMetaTransfer(p: seq<byte>, r: seq<byte>, isV6: bool, m: TcpMeta)
    requires Plausible(p, isV6, PROTO_TCP) && TcpMetaOf(p, isV6) == Some(m)
    requires SameStable(p, r, isV6, true, m.iphLen + m.tcphLen) && m.iphLen + m.tcphLen < |r| <= MAX_UINT16
    requires LengthFieldMatches(r, isV6) && FlagsOk(r, m.iphLen)
    ensures Plausible(r, isV6, PROTO_TCP)
    ensures TcpMetaOf(r, isV6) == Some(m.(pshSet := r[m.iphLen + 13] == ACK_PSH,
                                          gsoSize := |r| - m.iphLen - m.tcphLen, seqNum := Get32(r, m.iphLen + 4)))
  {
    var v := Ver(isV6);
    var a, n, t := AddrAt(v), AddrLen(v), IphLen(isV6);
    assert r[a..a + n] == p[a..a + n] && r[a + n..a + 2 * n] == p[a + n..a + 2 * n];
    assert Get16(r, t) == Get16(p, t) && Get16(r, t + 2) == Get16(p, t + 2) && Get32(r, t + 8) == Get32(p, t + 8);
    assert TcpKeyOf(r, isV6) == TcpKeyOf(p, isV6);
  }

  lemma UdpMetaTransfer(p: seq<byte>, r: seq<byte>, isV6: bool, m: UdpMeta)
    requires Plausible(p, isV6, PROTO_UDP) && UdpMetaOf(p, isV6) == Some(m)
    requires SameStable(p, r, isV6, false, m.iphLen + UDP_HEADER_LEN) && m.iphLen + UDP_HEADER_LEN < |r| <= MAX_UINT16
    requires LengthFieldMatches(r, isV6)
    ensures Plausible(r, isV6, PROTO_UDP)
    ensures UdpMetaOf(r, isV6) == Some(m.(gsoSize := |r| - m.iphLen - UDP_HEADER_LEN))
  {
    var v := Ver(isV6);
    var a, n, t := AddrAt(v), AddrLen(v), IphLen(isV6);
    assert r[a..a + n] == p[a..a + n] && r[a + n..a + 2 * n] == p[a + n..a + 2 * n];
    assert UdpKeyOf(r, isV6) == UdpKeyOf(p, isV6);
  }
}
