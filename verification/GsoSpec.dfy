/** tun_offload.go on values: what each segment of a split superpacket must be. */
module GsoSpec {
  import opened Bytes
  import opened OnesComplement
  import opened GvisorChecksum
  import opened HeaderChecksum
  import opened UdpHeader

  datatype GsoType = GSONone | GSOTCPv4 | GSOTCPv6 | GSOUDPL4

  datatype GsoOptions = GsoOptions(
    gsoType: GsoType, hdrLen: u16, csumStart: u16, csumOffset: u16, gsoSize: u16, needsCsum: bool)

  const PROTO_TCP: byte := 6
  const PROTO_UDP: byte := 17
  const TCP_FLAGS_OFFSET := 13

  predicate IsTcp(o: GsoOptions) {
    o.gsoType == GSOTCPv4 || o.gsoType == GSOTCPv6
  }

  function Protocol(o: GsoOptions): byte {
    if IsTcp(o) then PROTO_TCP else PROTO_UDP
  }

  function Version(s: seq<byte>): int
    requires s != []
  {
    s[0] / 0x10
  }

  function AddrAt(v: int): nat {
    if v == 4 then 12 else 8
  }

  function AddrLen(v: int): nat {
    if v == 4 then 4 else 16
  }

  /**
  A superpacket whose transport header starts at csumStart behind a full IP header and lies inside
  hdrLen, and so does its checksum field, wherever csumOffset puts it.
  */
  predicate WellFormed(s: seq<byte>, o: GsoOptions) {
    && s != [] && (Version(s) == 4 || Version(s) == 6)
    && (if Version(s) == 4 then 20 else 40) <= o.csumStart
    && o.csumStart + (if IsTcp(o) then 20 else 8) <= o.hdrLen <= |s|
    && o.csumStart + o.csumOffset + 2 <= o.hdrLen
  }

  /** The checksum field is where the protocol puts it. */
  predicate Canonical(o: GsoOptions) {
    o.csumOffset == if IsTcp(o) then 16 else 6
  }

  /** The checksum field lies apart from the `n` bytes at `at` of the transport header. */
  predicate Apart(o: GsoOptions, at: nat, n: nat) {
    o.csumOffset + 2 <= at || at + n <= o.csumOffset
  }

  /** Clears FIN and PSH, bits 0 and 3, and keeps the other flags. */
  function WithoutFinPsh(f: byte): (r: byte)
    ensures r % 2 == 0 && r / 8 % 2 == 0 && r / 2 % 4 == f / 2 % 4 && r / 0x10 == f / 0x10
  {
    f / 0x10 * 0x10 + f / 2 % 4 * 2
  }

  /** What the segments have in common, read off the superpacket before any write. */
  datatype Common = Common(v: int, firstSeq: u32, flags: byte, pseudo: u16)

  function CommonOf(s: seq<byte>, o: GsoOptions): Common
    requires WellFormed(s, o)
  {
    var v := Version(s);
    var a, n := AddrAt(v), AddrLen(v);
    Common(v,
           if IsTcp(o) then Get32(s, o.csumStart + 4) else 0,
           if IsTcp(o) then s[o.csumStart + TCP_FLAGS_OFFSET] else 0,
           PseudoHeaderChecksum(Protocol(o), s[a..a + n], s[a + n..a + 2 * n], 0))
  }

  /** IP fields of segment `i`: identification, length and header checksum. */
  function IpFields(h: seq<byte>, o: GsoOptions, c: Common, i: nat, totalLen: nat): (r: seq<byte>)
    requires |h| == o.hdrLen && (if c.v == 4 then 20 else 40) <= o.csumStart <= o.hdrLen <= totalLen
    ensures |r| == |h|
  {
    if c.v == 4 then
      var a := if i > 0 then Put16(h, 4, (Get16(h, 4) + i) % 0x1_0000) else h;
      var b := Put16(Put16(a, 10, 0), 2, totalLen % 0x1_0000);
      Put16(b, 10, Not16(Rfc1071(b[..o.csumStart], 0)))
    else
      Put16(h, 4, (totalLen - o.csumStart) % 0x1_0000)
  }

  function SeqOf(o: GsoOptions, c: Common, i: nat): u32 {
    (c.firstSeq + o.gsoSize * (i % 0x1_0000) % 0x1_0000) % 0x1_0000_0000
  }

  /** Transport fields of a segment: sequence number and flags, or datagram length. */
  function TransportFields(h: seq<byte>, o: GsoOptions, c: Common, i: nat, dataLen: nat, last: bool): (r: seq<byte>)
    requires |h| == o.hdrLen && o.csumStart + (if IsTcp(o) then 20 else 8) <= o.hdrLen
    ensures |r| == |h|
  {
    if IsTcp(o) then
      Put32(h, o.csumStart + 4, SeqOf(o, c, i))
        [o.csumStart + TCP_FLAGS_OFFSET := if last then c.flags else WithoutFinPsh(c.flags)]
    else
      Put16(h, o.csumStart + 4, (dataLen + (o.hdrLen - o.csumStart)) % 0x1_0000)
  }

  /** The transport checksum, computed with its own field cleared. */
  function WithTransportChecksum(p: seq<byte>, o: GsoOptions, c: Common): (r: seq<byte>)
    requires o.csumStart + o.csumOffset + 2 <= |p|
    ensures |r| == |p|
  {
    var z := Put16(p, o.csumStart + o.csumOffset, 0);
    var x := Not16(Rfc1071(z[o.csumStart..], Combine(c.pseudo, (|p| - o.csumStart) % 0x1_0000)));
    Put16(z, o.csumStart + o.csumOffset, if IsTcp(o) then x else NormalizeUDPChecksum(x))
  }

  /** Segment `i` built from the header `h` and its payload. */
  function Build(h: seq<byte>, payload: seq<byte>, o: GsoOptions, c: Common, i: nat, last: bool): (r: seq<byte>)
    requires |h| == o.hdrLen && (if c.v == 4 then 20 else 40) <= o.csumStart
    requires o.csumStart + (if IsTcp(o) then 20 else 8) <= o.hdrLen
    requires o.csumStart + o.csumOffset + 2 <= o.hdrLen
    ensures |r| == |h| + |payload|
  {
    var a := IpFields(h, o, c, i, o.hdrLen + |payload|);
    var b := TransportFields(a, o, c, i, |payload|, last);
    WithTransportChecksum(b + payload, o, c)
  }

  /** Where the payload of segment `i` starts and ends. */
  function DataAt(o: GsoOptions, i: nat): nat {
    o.hdrLen + i * o.gsoSize
  }

  function DataEnd(s: seq<byte>, o: GsoOptions, i: nat): nat {
    if DataAt(o, i) + o.gsoSize > |s| then |s| else DataAt(o, i) + o.gsoSize
  }

  function Payload(s: seq<byte>, o: GsoOptions, i: nat): seq<byte>
    requires DataAt(o, i) <= |s|
  {
    s[DataAt(o, i)..DataEnd(s, o, i)]
  }

  /** Segment `i` of the superpacket `s`. */
  function Segment(s: seq<byte>, o: GsoOptions, i: nat): (r: seq<byte>)
    requires WellFormed(s, o) && DataAt(o, i) <= |s|
    ensures |r| == o.hdrLen + |Payload(s, o, i)|
  {
    Build(s[..o.hdrLen], Payload(s, o, i), o, CommonOf(s, o), i, DataEnd(s, o, i) == |s|)
  }

  /** The header bytes every segment overwrites. */
  predicate Overwritten(o: GsoOptions, v: int, k: int) {
    || (v == 4 && k in {2, 3, 10, 11})
    || (v != 4 && k in {4, 5})
    || (IsTcp(o) && (o.csumStart + 4 <= k < o.csumStart + 8 || k == o.csumStart + TCP_FLAGS_OFFSET))
    || (!IsTcp(o) && o.csumStart + 4 <= k < o.csumStart + 6)
    || (o.csumStart + o.csumOffset <= k < o.csumStart + o.csumOffset + 2)
  }

  ghost predicate SameOutside(h: seq<byte>, g: seq<byte>, o: GsoOptions, v: int) {
    |h| == |g| && forall k :: 0 <= k < |h| && !Overwritten(o, v, k) ==> h[k] == g[k]
  }

  ghost predicate Shape(h: seq<byte>, o: GsoOptions, v: int) {
    && |h| == o.hdrLen && (if v == 4 then 20 else 40) <= o.csumStart
    && o.csumStart + (if IsTcp(o) then 20 else 8) <= o.hdrLen
    && o.csumStart + o.csumOffset + 2 <= o.hdrLen
  }

  /** The transport checksum field apart, two packets agree. */
  ghost predicate SameButChecksum(p: seq<byte>, q: seq<byte>, o: GsoOptions) {
    var at := o.csumStart + o.csumOffset;
    |p| == |q| && forall k :: 0 <= k < |p| && k != at && k != at + 1 ==> p[k] == q[k]
  }

  lemma IpFieldsAbsorb(h: seq<byte>, g: seq<byte>, o: GsoOptions, c: Common, i: nat, n: nat)
    requires Shape(h, o, c.v) && SameOutside(h, g, o, c.v) && o.hdrLen <= n
    ensures var a, b := IpFields(h, o, c, i, n), IpFields(g, o, c, i, n);
      a[..o.csumStart] == b[..o.csumStart] && SameOutside(a, b, o, c.v)
  {
    hide Rfc1071;
    if c.v == 4 {
      var a := if i > 0 then Put16(h, 4, (Get16(h, 4) + i) % 0x1_0000) else h;
      var a' := if i > 0 then Put16(g, 4, (Get16(g, 4) + i) % 0x1_0000) else g;
      assert SameOutside(a, a', o, c.v);
      var b := Put16(Put16(a, 10, 0), 2, n % 0x1_0000);
      var b' := Put16(Put16(a', 10, 0), 2, n % 0x1_0000);
      assert b[..o.csumStart] == b'[..o.csumStart];
    }
  }

  lemma TransportFieldsAbsorb(h: seq<byte>, g: seq<byte>, o: GsoOptions, c: Common, i: nat, n: nat, last: bool)
    requires Shape(h, o, c.v) && SameOutside(h, g, o, c.v) && h[..o.csumStart] == g[..o.csumStart]
    ensures var a, b := TransportFields(h, o, c, i, n, last), TransportFields(g, o, c, i, n, last);
      SameButChecksum(a, b, o)
  {
    assert forall k :: 0 <= k < o.csumStart ==> h[k] == h[..o.csumStart][k] && g[k] == g[..o.csumStart][k];
  }

  lemma ChecksumAbsorb(p: seq<byte>, q: seq<byte>, o: GsoOptions, c: Common)
    requires o.csumStart + o.csumOffset + 2 <= |p| == |q|
    requires SameButChecksum(p, q, o)
    ensures WithTransportChecksum(p, o, c) == WithTransportChecksum(q, o, c)
  {
    var at := o.csumStart + o.csumOffset;
    assert Put16(p, at, 0) == Put16(q, at, 0);
  }

  /** A segment does not depend on what its header held in the overwritten fields. */
  lemma BuildAbsorb(h: seq<byte>, g: seq<byte>, payload: seq<byte>, o: GsoOptions, c: Common, i: nat, last: bool)
    requires Shape(h, o, c.v) && SameOutside(h, g, o, c.v)
    ensures Build(h, payload, o, c, i, last) == Build(g, payload, o, c, i, last)
  {
    hide IpFields;
    hide TransportFields;
    hide WithTransportChecksum;
    var n := o.hdrLen + |payload|;
    var a, b := IpFields(h, o, c, i, n), IpFields(g, o, c, i, n);
    IpFieldsAbsorb(h, g, o, c, i, n);
    TransportFieldsAbsorb(a, b, o, c, i, |payload|, last);
    ChecksumAbsorb(TransportFields(a, o, c, i, |payload|, last) + payload,
                   TransportFields(b, o, c, i, |payload|, last) + payload, o, c);
  }

  lemma IpFieldsFrame(h: seq<byte>, o: GsoOptions, c: Common, i: nat, n: nat)
    requires Shape(h, o, c.v) && o.hdrLen <= n
    ensures var r := IpFields(h, o, c, i, n);
      forall k :: 0 <= k < |h| && !Overwritten(o, c.v, k) && (i == 0 || (k != 4 && k != 5)) ==> r[k] == h[k]
  {
    hide Rfc1071;
  }

  lemma TransportFieldsFrame(h: seq<byte>, o: GsoOptions, c: Common, i: nat, n: nat, last: bool)
    requires Shape(h, o, c.v)
    ensures SameOutside(h, TransportFields(h, o, c, i, n, last), o, c.v)
  {
  }

  lemma ChecksumFrame(p: seq<byte>, o: GsoOptions, c: Common)
    requires o.csumStart + o.csumOffset + 2 <= |p|
    ensures SameButChecksum(p, WithTransportChecksum(p, o, c), o)
  {
    hide Rfc1071;
  }

  /**
  A segment carries its payload unchanged, and of the header it changes the overwritten fields
  and, past the first segment, the IPv4 identification.
  */
  lemma BuildKeeps(h: seq<byte>, payload: seq<byte>, o: GsoOptions, c: Common, i: nat, last: bool)
    requires Shape(h, o, c.v)
    ensures var r := Build(h, payload, o, c, i, last);
      && r[o.hdrLen..] == payload
      && forall k :: 0 <= k < |h| && !Overwritten(o, c.v, k) && (i == 0 || (k != 4 && k != 5)) ==> r[k] == h[k]
  {
    hide IpFields;
    hide TransportFields;
    hide WithTransportChecksum;
    var n := o.hdrLen + |payload|;
    var a := IpFields(h, o, c, i, n);
    IpFieldsFrame(h, o, c, i, n);
    var b := TransportFields(a, o, c, i, |payload|, last);
    TransportFieldsFrame(a, o, c, i, |payload|, last);
    ChecksumFrame(b + payload, o, c);
    var r := Build(h, payload, o, c, i, last);
    assert r[o.hdrLen..] == (b + payload)[o.hdrLen..] == payload;
  }
}
