/** Packets between the zero addresses, for examples, and what receive offload makes of one of them. */
module GroWire {
  import opened Wrappers
  import opened Bytes
  import opened OnesComplement
  import opened HeaderChecksum
  import opened UdpHeader
  import opened GsoSpec
  import opened GsoProperties
  import opened GroModel
  import opened GroGroup
  import opened GroAccount
  import opened RoundTrip

  /** Byte `k` of a packet between the zero addresses, before its checksum is written. */
  function RawByte(isV6: bool, proto: byte, len: nat, seqNum: u16, k: nat): byte
    requires IphLen(isV6) <= len <= MAX_UINT16
  {
    var t, n := IphLen(isV6), if isV6 then len - 40 else len;
    if k == 0 then (if isV6 then 0x60 else 0x45)
    else if k == (if isV6 then 4 else 2) then n / 0x100
    else if k == (if isV6 then 5 else 3) then n % 0x100
    else if k == (if isV6 then 6 else 9) then proto
    else if proto == PROTO_TCP && k == t + 6 then seqNum / 0x100
    else if proto == PROTO_TCP && k == t + 7 then seqNum % 0x100
    else if proto == PROTO_TCP && k == t + 12 then 0x50
    else if proto == PROTO_TCP && k == t + 13 then ACK
    else 0
  }

  function Zeros(n: nat): (r: seq<byte>)
    ensures |r| == n && forall k :: 0 <= k < n ==> r[k] == 0
  {
    seq(n, _ => 0)
  }

  function WireOptions(isV6: bool, proto: byte): GsoOptions {
    GsoOptions(if proto != PROTO_TCP then GSOUDPL4 else if isV6 then GSOTCPv6 else GSOTCPv4, 0, IphLen(isV6),
               if proto == PROTO_TCP then 16 else 6, 0, false)
  }

  function WireCommon(isV6: bool, proto: byte): Common {
    var n := AddrLen(Ver(isV6));
    Common(Ver(isV6), 0, 0, PseudoHeaderChecksum(proto, Zeros(n), Zeros(n), 0))
  }

  function Raw(isV6: bool, proto: byte, len: nat, seqNum: u16): (r: seq<byte>)
    requires IphLen(isV6) + 20 <= len <= MAX_UINT16
    ensures |r| == len
  {
    seq(len, k requires 0 <= k < len => RawByte(isV6, proto, len, seqNum, k))
  }

  /** A packet of `len` bytes between the zero addresses, with a valid checksum. */
  function Wire(isV6: bool, proto: byte, len: nat, seqNum: u16): (r: seq<byte>)
    requires IphLen(isV6) + 20 <= len <= MAX_UINT16
    ensures |r| == len
  {
    WithTransportChecksum(Raw(isV6, proto, len, seqNum), WireOptions(isV6, proto), WireCommon(isV6, proto))
  }

  lemma WireBytes(isV6: bool, proto: byte, len: nat, seqNum: u16)
    requires IphLen(isV6) + 20 <= len <= MAX_UINT16
    ensures var r, at := Wire(isV6, proto, len, seqNum), IphLen(isV6) + if proto == PROTO_TCP then 16 else 6;
      forall k :: 0 <= k < len && k != at && k != at + 1 ==> r[k] == RawByte(isV6, proto, len, seqNum, k)
  {
    hide WithTransportChecksum;
    hide RawByte;
    ChecksumFrame(Raw(isV6, proto, len, seqNum), WireOptions(isV6, proto), WireCommon(isV6, proto));
  }

  lemma WireValid(isV6: bool, proto: byte, len: nat, seqNum: u16)
    requires IphLen(isV6) + 20 <= len <= MAX_UINT16 && (proto == PROTO_TCP || proto == PROTO_UDP)
    ensures ChecksumValid(Wire(isV6, proto, len, seqNum), IphLen(isV6), proto, Ver(isV6))
  {
    hide WithTransportChecksum;
    hide Rfc1071;
    hide PseudoHeaderChecksum;
    var v, o, c := Ver(isV6), WireOptions(isV6, proto), WireCommon(isV6, proto);
    var a, n := AddrAt(v), AddrLen(v);
    var raw, r := Raw(isV6, proto, len, seqNum), Wire(isV6, proto, len, seqNum);
    WireBytes(isV6, proto, len, seqNum);
    hide Wire;
    assert r == WithTransportChecksum(raw, o, c) by {
      WireIs(isV6, proto, len, seqNum);
    }
    assert r[a..a + n] == Zeros(n) && r[a + n..a + 2 * n] == Zeros(n);
    WrittenChecksumValid(raw, o, c, Zeros(n), Zeros(n));
  }

  lemma WireIs(isV6: bool, proto: byte, len: nat, seqNum: u16)
    requires IphLen(isV6) + 20 <= len <= MAX_UINT16
    ensures Wire(isV6, proto, len, seqNum) ==
      WithTransportChecksum(Raw(isV6, proto, len, seqNum), WireOptions(isV6, proto), WireCommon(isV6, proto))
  {
  }

  function WireTcpMeta(isV6: bool, len: nat, seqNum: u16): TcpMeta
    requires IphLen(isV6) + 20 < len <= MAX_UINT16
  {
    var n := AddrLen(Ver(isV6));
    TcpMeta(isV6, IphLen(isV6), 20, false, len - IphLen(isV6) - 20, seqNum,
            TcpKey(Zeros(n), Zeros(n), 0, 0, 0, isV6))
  }

  /** What both parsers look at. */
  lemma WireFields(isV6: bool, proto: byte, len: nat, seqNum: u16)
    requires IphLen(isV6) + 20 <= len <= MAX_UINT16
    ensures var v, t, r := Ver(isV6), IphLen(isV6), Wire(isV6, proto, len, seqNum);
      var a, n := AddrAt(v), AddrLen(v);
      && Plausible(r, isV6, proto) && LengthFieldMatches(r, isV6) && (!isV6 ==> !Fragmented(r))
      && r[a..a + n] == Zeros(n) && r[a + n..a + 2 * n] == Zeros(n) && Get16(r, t) == 0 && Get16(r, t + 2) == 0
  {
    hide Wire;
    WireBytes(isV6, proto, len, seqNum);
  }

  /** tcpGRO takes such a packet up. */
  lemma WireTcp(isV6: bool, len: nat, seqNum: u16)
    requires IphLen(isV6) + 20 < len <= MAX_UINT16
    ensures var r := Wire(isV6, PROTO_TCP, len, seqNum);
      && Plausible(r, isV6, PROTO_TCP)
      && TcpMetaOf(r, isV6) == Some(WireTcpMeta(isV6, len, seqNum))
  {
    hide Wire;
    hide LengthFieldMatches;
    hide Fragmented;
    var t, r := IphLen(isV6), Wire(isV6, PROTO_TCP, len, seqNum);
    WireBytes(isV6, PROTO_TCP, len, seqNum);
    assert Get32(r, t + 4) == seqNum && Get32(r, t + 8) == 0 && r[t + 12] == 0x50 && r[t + 13] == ACK;
    WireFields(isV6, PROTO_TCP, len, seqNum);
    hide RawByte;
  }

  lemma WiresCoalesce(isV6: bool, proto: byte, len: nat, seqNum: u16, len': nat, seqNum': u16)
    requires IphLen(isV6) + 20 <= len <= MAX_UINT16 && IphLen(isV6) + 20 <= len' <= MAX_UINT16
    ensures IpHeadersCanCoalesce(Wire(isV6, proto, len', seqNum'), Wire(isV6, proto, len, seqNum))
  {
    hide Wire;
    WireBytes(isV6, proto, len, seqNum);
    WireBytes(isV6, proto, len', seqNum');
  }

  function WireUdpMeta(isV6: bool, len: nat): UdpMeta
    requires IphLen(isV6) + 20 < len <= MAX_UINT16
  {
    var n := AddrLen(Ver(isV6));
    UdpMeta(isV6, IphLen(isV6), len - IphLen(isV6) - UDP_HEADER_LEN, UdpKey(Zeros(n), Zeros(n), 0, 0, isV6))
  }

  /** udpGRO takes such a datagram up. */
  lemma WireUdp(isV6: bool, len: nat)
    requires IphLen(isV6) + 20 < len <= MAX_UINT16
    ensures var r := Wire(isV6, PROTO_UDP, len, 0);
      && Plausible(r, isV6, PROTO_UDP) && UdpMetaOf(r, isV6) == Some(WireUdpMeta(isV6, len))
      && Get16(r, IphLen(isV6) + 6) != 0
  {
    WireUdpChecksum(isV6, len);
    WireFields(isV6, PROTO_UDP, len, 0);
    hide Wire;
    hide LengthFieldMatches;
    hide Fragmented;
  }

  lemma WireUdpChecksum(isV6: bool, len: nat)
    requires IphLen(isV6) + 20 < len <= MAX_UINT16
    ensures Get16(Wire(isV6, PROTO_UDP, len, 0), IphLen(isV6) + 6) != 0
  {
    hide Rfc1071;
    hide RawByte;
  }

  /** Nothing looks at the other half of the byte that holds the header length. */
  lemma MetaIgnores(w: seq<byte>, isV6: bool, x: byte)
    requires Plausible(w, isV6, PROTO_TCP) && w[IphLen(isV6) + 12] / 0x10 == x / 0x10
    ensures var r := w[IphLen(isV6) + 12 := x];
      Plausible(r, isV6, PROTO_TCP) && TcpMetaOf(r, isV6) == TcpMetaOf(w, isV6)
  {
    var t := IphLen(isV6);
    var r := w[t + 12 := x];
    assert Get32(r, t + 4) == Get32(w, t + 4);
    KeyIgnores(w, isV6, x);
    LengthIgnores(w, isV6, x);
    hide LengthFieldMatches;
    hide Fragmented;
    hide TcpKeyOf;
    hide Get32;
    hide Get16;
  }

  lemma KeyIgnores(w: seq<byte>, isV6: bool, x: byte)
    requires |w| >= IphLen(isV6) + 20
    ensures TcpKeyOf(w[IphLen(isV6) + 12 := x], isV6) == TcpKeyOf(w, isV6)
  {
    var v, r := Ver(isV6), w[IphLen(isV6) + 12 := x];
    var a, n := AddrAt(v), AddrLen(v);
    assert r[a..a + n] == w[a..a + n] && r[a + n..a + 2 * n] == w[a + n..a + 2 * n];
  }

  lemma LengthIgnores(w: seq<byte>, isV6: bool, x: byte)
    requires |w| >= IphLen(isV6) + 20
    ensures var r := w[IphLen(isV6) + 12 := x];
      LengthFieldMatches(r, isV6) == LengthFieldMatches(w, isV6) && Fragmented(r) == Fragmented(w)
  {
  }

  /** The header length with a reserved bit set. */
  lemma ReservedMeta(isV6: bool, len: nat, seqNum: u16)
    requires IphLen(isV6) + 20 < len <= MAX_UINT16
    ensures var r := Wire(isV6, PROTO_TCP, len, seqNum)[IphLen(isV6) + 12 := 0x51];
      Plausible(r, isV6, PROTO_TCP) && TcpMetaOf(r, isV6) == Some(WireTcpMeta(isV6, len, seqNum))
  {
    hide Wire;
    hide TcpMetaOf;
    WireTcp(isV6, len, seqNum);
    WireOffset(isV6, len, seqNum);
    MetaIgnores(Wire(isV6, PROTO_TCP, len, seqNum), isV6, 0x51);
  }

  /** Two packets that differ in a reserved bit are merged, and the second comes back with the bit of the first. */
  lemma ReservedLost(isV6: bool) returns (orig: seq<seq<byte>>, item: TcpItem, d: seq<byte>)
    ensures TcpGroup(orig, [0, 1], item, d) && item.numMerged > 0 && |d| <= MaxLen(item.key.isV6)
    ensures item.iphLen + item.tcphLen <= |d|
    ensures var e, o, at := TcpAccounted(d, item.key.isV6), TcpOptions(item), item.iphLen + 12;
      && WellFormed(e, o) && DataAt(o, 1) < |e| && |orig| == 2 && at < |orig[1]| && at < |Segment(e, o, 1)|
      && Segment(e, o, 1)[at] != orig[1][at]
  {
    hide Wire;
    hide TcpMetaOf;
    hide TcpAccounted;
    hide Segment;
    hide WellFormed;
    hide DataAt;
    hide TcpGroup;
    hide Plausible;
    var t, len := IphLen(isV6), 1000;
    var pay: nat := len - t - 20;
    var w := Wire(isV6, PROTO_TCP, len, pay);
    orig := [Wire(isV6, PROTO_TCP, len, 0), w[t + 12 := 0x51]];
    var m, m' := WireTcpMeta(isV6, len, 0), WireTcpMeta(isV6, len, pay);
    WireTcp(isV6, len, 0);
    ReservedMeta(isV6, len, pay);
    TcpGroupNew(orig, 0, m);
    var first := NewTcpItem(m, 0);
    ReservedAppends(isV6, len);
    TcpGroupAppend(orig, [0], first, orig[0], 1, m');
    assert [0] + [1] == [0, 1];
    item, d := TcpMergedItem(Append, m', first), orig[0] + orig[1][t + 20..];
    WireOffset(isV6, len, 0);
    OffsetByteExact(orig, [0, 1], item, d, 1);
  }

  lemma WireOffset(isV6: bool, len: nat, seqNum: u16)
    requires IphLen(isV6) + 20 <= len <= MAX_UINT16
    ensures Wire(isV6, PROTO_TCP, len, seqNum)[IphLen(isV6) + 12] == 0x50
  {
    hide Wire;
    WireBytes(isV6, PROTO_TCP, len, seqNum);
  }

  lemma ReservedAppends(isV6: bool, len: nat)
    requires IphLen(isV6) + 20 < len <= MAX_UINT16
    ensures var t := IphLen(isV6);
      var pay: u16 := len - t - 20;
      var p, target := Wire(isV6, PROTO_TCP, len, pay)[t + 12 := 0x51], Wire(isV6, PROTO_TCP, len, 0);
      TcpCanCoalesce(p, WireTcpMeta(isV6, len, pay), NewTcpItem(WireTcpMeta(isV6, len, 0), 0), target) == Append
  {
    hide Wire;
    hide IpHeadersCanCoalesce;
    var t := IphLen(isV6);
    WiresCoalesce(isV6, PROTO_TCP, len, 0, len, len - t - 20);
    IpIgnores(Wire(isV6, PROTO_TCP, len, len - t - 20), Wire(isV6, PROTO_TCP, len, 0), isV6, 0x51);
  }

  lemma IpIgnores(w: seq<byte>, target: seq<byte>, isV6: bool, x: byte)
    requires |w| >= IphLen(isV6) + 20
    ensures IpHeadersCanCoalesce(w[IphLen(isV6) + 12 := x], target) == IpHeadersCanCoalesce(w, target)
  {
  }
}
