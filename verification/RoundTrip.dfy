/**
Coalescing and splitting are inverse: the buffer a table item describes, after accounting, is read
back as the packets that were merged into it.
*/
module RoundTrip {
  import opened Wrappers
  import opened Bytes
  import opened OnesComplement
  import opened HeaderChecksum
  import opened GsoSpec
  import opened GsoProperties
  import opened GsoSplit
  import opened Virtio
  import opened GroModel
  import opened GroGroup
  import opened GroAccount

  function TcpOptions(item: TcpItem): GsoOptions
    requires item.iphLen + item.tcphLen < 0x1_0000
  {
    GsoOptions(if item.key.isV6 then GSOTCPv6 else GSOTCPv4,
               item.iphLen + item.tcphLen, item.iphLen, 16, item.gsoSize, true)
  }

  function UdpOptions(item: UdpItem): GsoOptions
    requires item.iphLen + UDP_HEADER_LEN < 0x1_0000
  {
    GsoOptions(GSOUDPL4, item.iphLen + UDP_HEADER_LEN, item.iphLen, 6, item.gsoSize, true)
  }

  /** Where the cuts fall in a payload of more than `n - 1` and at most `n` segment sizes. */
  lemma Cuts(e: seq<byte>, o: GsoOptions, n: nat, q: nat)
    requires o.gsoSize > 0 && q < n && o.hdrLen <= |e|
    requires (n - 1) * o.gsoSize < |e| - o.hdrLen <= n * o.gsoSize
    ensures SegmentCount(e, o) == n && DataAt(o, q) < |e|
    ensures DataEnd(e, o, q) == if q < n - 1 then o.hdrLen + (q + 1) * o.gsoSize else |e|
    ensures DataEnd(e, o, q) == |e| <==> q == n - 1
  {
    SegmentCountIs(e, o, n);
    MulStep(q, n - 1, o.gsoSize);
    DataAtStep(o, q);
    if q < n - 1 {
      MulStep(q + 1, n - 1, o.gsoSize);
    }
  }

  /** The joined payloads of `n` packets fill more than `n - 1` and at most `n` segment sizes. */
  lemma LayoutSpan(orig: seq<seq<byte>>, segs: seq<nat>, h: nat, gso: nat, len: nat)
    requires Sized(orig, segs, h, gso) && segs != [] && len == |JoinPay(orig, segs, h)|
    ensures (|segs| - 1) * gso < len <= |segs| * gso
  {
    hide JoinPay;
    JoinSlice(orig, segs, h, gso, |segs| - 1);
  }

  lemma PayloadSlice(orig: seq<seq<byte>>, segs: seq<nat>, h: nat, gso: nat, q: nat, j: seq<byte>, lo: nat, hi: nat)
    requires Sized(orig, segs, h, gso) && q < |segs| && j == JoinPay(orig, segs, h)
    requires lo == q * gso && hi == if q < |segs| - 1 then lo + gso else |j|
    ensures segs[q] < |orig| && h <= |orig[segs[q]]|
    ensures lo <= hi <= |j| && j[lo..hi] == orig[segs[q]][h..]
  {
    hide JoinPay;
    JoinSlice(orig, segs, h, gso, q);
    OneMore(q, gso, q + 1);
  }

  /** Where the cuts fall in a layout. */
  lemma LayoutCuts(orig: seq<seq<byte>>, segs: seq<nat>, e: seq<byte>, o: GsoOptions, q: nat)
    requires Sized(orig, segs, o.hdrLen, o.gsoSize) && segs != [] && o.gsoSize > 0
    requires o.hdrLen <= |e| && e[o.hdrLen..] == JoinPay(orig, segs, o.hdrLen) && q < |segs|
    ensures SegmentCount(e, o) == |segs|
    ensures o.hdrLen <= DataAt(o, q) < |e| && DataAt(o, q) - o.hdrLen == q * o.gsoSize
    ensures DataEnd(e, o, q) == if q < |segs| - 1 then DataAt(o, q) + o.gsoSize else |e|
    ensures DataEnd(e, o, q) == |e| <==> q == |segs| - 1
  {
    hide JoinPay;
    hide SegmentCount;
    hide Sized;
    LayoutSpan(orig, segs, o.hdrLen, o.gsoSize, |e| - o.hdrLen);
    Cuts(e, o, |segs|, q);
    OneMore(q, o.gsoSize, q + 1);
  }

  /** Cut at `gso`, a layout falls apart into exactly the payloads it was joined from. */
  lemma LayoutSplits(orig: seq<seq<byte>>, segs: seq<nat>, e: seq<byte>, o: GsoOptions, q: nat)
    requires Sized(orig, segs, o.hdrLen, o.gsoSize) && segs != [] && o.gsoSize > 0
    requires o.hdrLen <= |e| && e[o.hdrLen..] == JoinPay(orig, segs, o.hdrLen) && q < |segs|
    ensures SegmentCount(e, o) == |segs|
    ensures DataAt(o, q) < |e| && Payload(e, o, q) == orig[segs[q]][o.hdrLen..]
    ensures DataEnd(e, o, q) == |e| <==> q == |segs| - 1
  {
    hide *;
    LayoutCuts(orig, segs, e, o, q);
    var h, lo, hi := o.hdrLen, DataAt(o, q) - o.hdrLen, DataEnd(e, o, q) - o.hdrLen;
    PayloadSlice(orig, segs, h, o.gsoSize, q, e[h..], lo, hi);
    SliceShift(e, h, lo, hi);
    PayloadIs(e, o, q, h + lo, h + hi);
  }

  lemma PayloadIs(e: seq<byte>, o: GsoOptions, q: nat, lo: nat, hi: nat)
    requires lo == DataAt(o, q) <= |e| && hi == DataEnd(e, o, q)
    ensures Payload(e, o, q) == e[lo..hi]
  {
  }

  lemma DataAtIs(o: GsoOptions, q: nat)
    ensures DataAt(o, q) == o.hdrLen + q * o.gsoSize
  {
  }

  lemma SliceShift(e: seq<byte>, h: nat, lo: nat, hi: nat)
    requires h <= |e| && lo <= hi <= |e| - h
    ensures e[h..][lo..hi] == e[h + lo..h + hi]
  {
  }

  lemma TcpFront(orig: seq<seq<byte>>, segs: seq<nat>, item: TcpItem, d: seq<byte>)
    requires TcpGroup(orig, segs, item, d)
    ensures segs != [] && segs[0] < |orig|
    ensures Plausible(orig[segs[0]], item.key.isV6, PROTO_TCP) && TcpMetaOf(orig[segs[0]], item.key.isV6).Some?
    ensures var p, m := orig[segs[0]], TcpMetaOf(orig[segs[0]], item.key.isV6).value;
      && m.key == item.key && m.tcphLen == item.tcphLen && m.iphLen == item.iphLen && m.seqNum == item.sentSeq
      && item.iphLen + item.tcphLen <= |d| && SameStable(p, d, item.key.isV6, true, item.iphLen + item.tcphLen)
      && Get32(d, item.iphLen + 4) == item.sentSeq && d[0] == p[0] && d[item.iphLen + 12] == p[item.iphLen + 12]
      && p[item.iphLen + 12] / 0x10 * 4 == item.tcphLen <= 60
  {
    assert TcpMember(orig[segs[0]], item, 0);
  }

  lemma TcpParsed(item: TcpItem, e: seq<byte>)
    requires item.iphLen == IphLen(item.key.isV6) && 20 <= item.tcphLen <= 60 && item.iphLen + item.tcphLen <= |e|
    requires e[item.iphLen + 12] / 0x10 * 4 == item.tcphLen && e[0] / 0x10 == Ver(item.key.isV6)
    ensures ParseOptions(TcpHdr(item), e) == Accepted(TcpOptions(item)) && WellFormed(e, TcpOptions(item))
  {
  }

  lemma TcpMany(item: TcpItem, e: seq<byte>, room: nat)
    requires item.iphLen + item.tcphLen < 0x1_0000 && WellFormed(e, TcpOptions(item))
    requires item.iphLen + item.tcphLen + item.gsoSize < |e| && e[0] / 0x10 == Ver(item.key.isV6)
    ensures Decide(e, TcpOptions(item), room) == Many
  {
  }

  /** The accounted buffer is a well-formed superpacket and is recognised as one. */
  lemma TcpSuperpacket(orig: seq<seq<byte>>, segs: seq<nat>, item: TcpItem, d: seq<byte>, room: nat)
    requires TcpGroup(orig, segs, item, d) && item.numMerged > 0 && |d| <= MaxLen(item.key.isV6)
    ensures item.iphLen + item.tcphLen <= |d|
    ensures var e, o := TcpAccounted(d, item.key.isV6), TcpOptions(item);
      && ParseOptions(TcpHdr(item), e) == Accepted(o)
      && Decide(e, o, room) == Many && WellFormed(e, o)
      && e[o.hdrLen..] == JoinPay(orig, segs, o.hdrLen)
  {
    hide TcpMembers;
    hide TcpMetaOf;
    hide JoinPay;
    hide TcpAccounted;
    hide ParseOptions;
    hide Decide;
    hide WellFormed;
    hide SameHeader;
    var h := item.iphLen + item.tcphLen;
    TcpFront(orig, segs, item, d);
    TcpAccountedFrame(d, item.key.isV6, h);
    TcpParsed(item, TcpAccounted(d, item.key.isV6));
    TwoSegments(orig, segs, h, item.gsoSize);
    TcpMany(item, TcpAccounted(d, item.key.isV6), room);
  }

  lemma TwoSegments(orig: seq<seq<byte>>, segs: seq<nat>, h: nat, gso: nat)
    requires Sized(orig, segs, h, gso) && |segs| > 1 && gso > 0
    ensures |JoinPay(orig, segs, h)| > gso
  {
    hide JoinPay;
    JoinLength(orig, segs, h, gso);
    MulStep(1, |segs| - 1, gso);
  }

  /** The segments are as many as the merged packets, and as long. */
  lemma TcpSegmentShape(orig: seq<seq<byte>>, segs: seq<nat>, item: TcpItem, d: seq<byte>, q: nat)
    requires TcpGroup(orig, segs, item, d) && item.numMerged > 0 && |d| <= MaxLen(item.key.isV6) && q < |segs|
    requires item.iphLen + item.tcphLen <= |d|
    ensures var e, o := TcpAccounted(d, item.key.isV6), TcpOptions(item);
      && WellFormed(e, o) && SegmentCount(e, o) == |segs| && DataAt(o, q) < |e|
      && segs[q] < |orig| && o.hdrLen <= |orig[segs[q]]|
      && Payload(e, o, q) == orig[segs[q]][o.hdrLen..]
      && (DataEnd(e, o, q) == |e| <==> q == |segs| - 1)
  {
    hide TcpMembers;
    hide JoinPay;
    hide TcpAccounted;
    hide WellFormed;
    TcpSuperpacket(orig, segs, item, d, 0);
    var e, o := TcpAccounted(d, item.key.isV6), TcpOptions(item);
    LayoutSplits(orig, segs, e, o, q);
  }

  /** A segment of at most 65535 bytes as its receiver parses it. */
  lemma TcpSegmentParse(e: seq<byte>, o: GsoOptions, q: nat, isV6: bool)
    requires WellFormed(e, o) && IsTcp(o) && Canonical(o) && DataAt(o, q) < |e| <= MaxLen(isV6) && o.gsoSize > 0
    requires Version(e) == Ver(isV6) && o.csumStart == IphLen(isV6)
    requires FlagsOk(e, o.csumStart) && (!isV6 ==> e[0] % 0x10 == 5)
    ensures var r := Segment(e, o, q);
      && r[o.hdrLen..] == Payload(e, o, q) && |r| <= MaxLen(isV6) && |r| >= o.hdrLen
      && LengthFieldMatches(r, isV6)
      && Get32(r, o.csumStart + 4) == (Get32(e, o.csumStart + 4) + q * o.gsoSize) % 0x1_0000_0000
      && r[o.csumStart + 13] == (if DataEnd(e, o, q) == |e| then e[o.csumStart + 13] else ACK)
      && ChecksumValid(r, o.csumStart, PROTO_TCP, Ver(isV6)) && (!isV6 ==> Ipv4Valid(r))
  {
    hide Segment;
    hide Ipv4Valid;
    hide Rfc1071;
    hide ChecksumValid;
    hide WithoutFinPsh;
    hide Payload;
    hide DataAt;
    hide DataEnd;
    hide Overwritten;
    hide WellFormed;
    SegmentBound(e, o, q);
    SegmentFields(e, o, q);
    SegmentChecksumValid(e, o, q);
    if !isV6 {
      SegmentHeaderValid(e, o, q);
    }
    CutFlags(e[o.csumStart + 13]);
    SmallLength(Segment(e, o, q), isV6);
  }

  lemma SegmentBound(e: seq<byte>, o: GsoOptions, q: nat)
    requires WellFormed(e, o) && DataAt(o, q) < |e|
    ensures o.csumStart + 20 <= o.hdrLen || !IsTcp(o)
    ensures o.hdrLen <= |Segment(e, o, q)| <= |e|
  {
    hide Segment;
    hide DataAt;
    DataAtIs(o, q);
    MulStep(0, q, if o.gsoSize > 0 then o.gsoSize else 1);
  }

  lemma SmallLength(r: seq<byte>, isV6: bool)
    requires IphLen(isV6) <= |r| <= MaxLen(isV6)
    requires if isV6 then Get16(r, 4) == (|r| - 40) % 0x1_0000 else Get16(r, 2) == |r| % 0x1_0000
    ensures LengthFieldMatches(r, isV6)
  {
  }

  lemma CutFlags(f: byte)
    requires f == ACK || f == ACK_PSH
    ensures WithoutFinPsh(f) == ACK
  {
  }

  /**
  The IP header comes back byte by byte, but for the identification and header checksum of IPv4 and
  the flow label of IPv6; its length field is right, as it was.
  */
  predicate IpAlike(p: seq<byte>, r: seq<byte>, isV6: bool, proto: byte) {
    if isV6 then
      && |p| >= 40 && |r| >= 40
      && p[0] / 0x10 == 6 && p[6] == proto && Get16(p, 4) == |p| - 40 && Get16(r, 4) == |r| - 40
      && r[0] == p[0] && r[1] / 0x10 == p[1] / 0x10 && r[6..40] == p[6..40]
    else
      && |p| >= 20 && |r| >= 20
      && p[0] == 0x45 && p[9] == proto && Get16(p, 2) == |p| && Get16(r, 2) == |r|
      && r[0] == p[0] && r[1] == p[1] && r[6..10] == p[6..10] && r[12..20] == p[12..20]
  }

  /**
  Of the TCP header, at `t`, ports, sequence and acknowledgement numbers, header length and options
  come back; so do the flags, ACK or ACK and PSH, except that the last segment may lose PSH.
  */
  predicate TcpAlike(p: seq<byte>, r: seq<byte>, t: nat, h: nat, last: bool) {
    && t + 20 <= h <= |p| == |r| && h == t + p[t + 12] / 0x10 * 4
    && r[t..t + 12] == p[t..t + 12] && r[t + 12] / 0x10 == p[t + 12] / 0x10 && r[t + 20..h] == p[t + 20..h]
    && (p[t + 13] == 0x10 || p[t + 13] == 0x18)
    && (r[t + 13] == p[t + 13] || (last && p[t + 13] == 0x18 && r[t + 13] == 0x10))
  }

  /** Of the UDP header, at `t`, the ports come back, and the length is right. */
  predicate UdpAlike(p: seq<byte>, r: seq<byte>, t: nat) {
    t + 8 <= |p| == |r| && r[t..t + 4] == p[t..t + 4] && Get16(r, t + 4) == |r| - t
  }

  lemma Get32Bytes(p: seq<byte>, r: seq<byte>, x: nat)
    requires x + 4 <= |p| && x + 4 <= |r| && Get32(p, x) == Get32(r, x)
    ensures r[x..x + 4] == p[x..x + 4]
  {
    Get16Bytes(p, r, x);
    Get16Bytes(p, r, x + 2);
    assert r[x..x + 4] == r[x..x + 2] + r[x + 2..x + 4] && p[x..x + 4] == p[x..x + 2] + p[x + 2..x + 4];
  }

  lemma Get16Bytes(p: seq<byte>, r: seq<byte>, x: nat)
    requires x + 2 <= |p| && x + 2 <= |r| && Get16(p, x) == Get16(r, x)
    ensures r[x..x + 2] == p[x..x + 2]
  {
  }

  /** Two packets that are no fragments and can coalesce have the same IP header. */
  lemma IpAlikeFrom(p: seq<byte>, r: seq<byte>, isV6: bool, proto: byte)
    requires Plausible(p, isV6, proto) && Plausible(r, isV6, proto) && IpHeadersCanCoalesce(p, r)
    requires LengthFieldMatches(p, isV6) && LengthFieldMatches(r, isV6)
    requires !isV6 ==> !Fragmented(p) && !Fragmented(r)
    requires if isV6 then r[8..24] == p[8..24] && r[24..40] == p[24..40]
             else r[12..16] == p[12..16] && r[16..20] == p[16..20]
    ensures IpAlike(p, r, isV6, proto)
  {
    if isV6 {
      assert r[6..40] == r[6..8] + r[8..24] + r[24..40] && p[6..40] == p[6..8] + p[8..24] + p[24..40];
    } else {
      assert r[12..20] == r[12..16] + r[16..20] && p[12..20] == p[12..16] + p[16..20];
      assert r[6] == p[6] && r[7] == p[7];
    }
  }

  /** The flow key and the numbers of a packet are bytes of its headers. */
  lemma TcpAlikeFrom(p: seq<byte>, r: seq<byte>, isV6: bool, h: nat, m: TcpMeta, psh: bool)
    requires Plausible(p, isV6, PROTO_TCP) && TcpMetaOf(p, isV6) == Some(m)
    requires Plausible(r, isV6, PROTO_TCP) && TcpMetaOf(r, isV6) == Some(m.(pshSet := psh))
    requires h == IphLen(isV6) + m.tcphLen && TcpCompatible(p, r, IphLen(isV6), h)
    ensures IpAlike(p, r, isV6, PROTO_TCP)
    ensures var t := IphLen(isV6);
      && t + 20 <= h <= |p| == |r| && h == t + p[t + 12] / 0x10 * 4 && r[t + 20..h] == p[t + 20..h]
      && r[t..t + 12] == p[t..t + 12] && r[t + 12] / 0x10 == p[t + 12] / 0x10
      && p[t + 13] == (if m.pshSet then 0x18 else 0x10) && r[t + 13] == (if psh then 0x18 else 0x10)
  {
    hide IpHeadersCanCoalesce;
    hide Get16;
    hide Fragmented;
    hide LengthFieldMatches;
    hide IpAlike;
    var t := IphLen(isV6);
    Get16Bytes(p, r, t);
    Get16Bytes(p, r, t + 2);
    Get32Bytes(p, r, t + 4);
    Get32Bytes(p, r, t + 8);
    assert r[t..t + 12] == r[t..t + 2] + r[t + 2..t + 4] + r[t + 4..t + 8] + r[t + 8..t + 12];
    assert p[t..t + 12] == p[t..t + 2] + p[t + 2..t + 4] + p[t + 4..t + 8] + p[t + 8..t + 12];
    IpAlikeFrom(p, r, isV6, PROTO_TCP);
  }

  lemma UdpAlikeFrom(p: seq<byte>, r: seq<byte>, isV6: bool, m: UdpMeta)
    requires Plausible(p, isV6, PROTO_UDP) && UdpMetaOf(p, isV6) == Some(m)
    requires Plausible(r, isV6, PROTO_UDP) && UdpMetaOf(r, isV6) == Some(m) && UdpCompatible(p, r)
    ensures IpAlike(p, r, isV6, PROTO_UDP)
    ensures var t := IphLen(isV6); t + 8 <= |p| == |r| && r[t..t + 4] == p[t..t + 4]
  {
    hide IpHeadersCanCoalesce;
    hide Get16;
    hide Fragmented;
    hide LengthFieldMatches;
    hide IpAlike;
    var t := IphLen(isV6);
    Get16Bytes(p, r, t);
    Get16Bytes(p, r, t + 2);
    assert r[t..t + 4] == r[t..t + 2] + r[t + 2..t + 4] && p[t..t + 4] == p[t..t + 2] + p[t + 2..t + 4];
    IpAlikeFrom(p, r, isV6, PROTO_UDP);
  }

  /** Segment `r` is packet `p` again: same payload, same flow, same place in it. */
  ghost predicate TcpRestored(p: seq<byte>, r: seq<byte>, isV6: bool, h: nat, last: bool) {
    && IpAlike(p, r, isV6, PROTO_TCP) && TcpAlike(p, r, IphLen(isV6), h, last)
    && Plausible(p, isV6, PROTO_TCP) && Plausible(r, isV6, PROTO_TCP)
    && h <= |p| && h <= |r| && r[h..] == p[h..]
    && TcpMetaOf(p, isV6).Some? && h == IphLen(isV6) + TcpMetaOf(p, isV6).value.tcphLen
    && TcpMetaOf(r, isV6) == Some(TcpMetaOf(p, isV6).value.(pshSet := r[IphLen(isV6) + 13] == ACK_PSH))
    && TcpCompatible(p, r, IphLen(isV6), h)
    && ChecksumValid(r, IphLen(isV6), PROTO_TCP, Ver(isV6))
    && (!isV6 ==> Ipv4Valid(r))
  }

  /** A receiver parses segment `q` with the metadata of the packet whose payload and position it has. */
  lemma TcpRestore(front: seq<byte>, p: seq<byte>, r: seq<byte>, isV6: bool, m0: TcpMeta, m: TcpMeta)
    requires Plausible(front, isV6, PROTO_TCP) && TcpMetaOf(front, isV6) == Some(m0)
    requires Plausible(p, isV6, PROTO_TCP) && TcpMetaOf(p, isV6) == Some(m)
    requires m.key == m0.key && m.tcphLen == m0.tcphLen && m.iphLen + m.tcphLen <= |r| && |r| == |p|
    requires SameStable(front, r, isV6, true, m.iphLen + m.tcphLen)
    requires LengthFieldMatches(r, isV6) && FlagsOk(r, m.iphLen) && Get32(r, m.iphLen + 4) == m.seqNum
    ensures Plausible(r, isV6, PROTO_TCP)
    ensures TcpMetaOf(r, isV6) == Some(m.(pshSet := r[m.iphLen + 13] == ACK_PSH))
  {
    hide TcpMetaOf;
    MetaIsV6(front, isV6);
    MetaIsV6(p, isV6);
    MetaShape(front, m0);
    MetaShape(p, m);
    TcpMetaTransfer(front, r, isV6, m0);
  }

  lemma MetaIsV6(p: seq<byte>, isV6: bool)
    requires Plausible(p, isV6, PROTO_TCP) && TcpMetaOf(p, isV6).Some?
    ensures TcpMetaOf(p, isV6).value.isV6 == isV6 && TcpMetaOf(p, isV6).value.iphLen == IphLen(isV6)
  {
  }

  /** The stable header bytes of every segment are those of the packet at the front. */
  lemma TcpSegmentStable(orig: seq<seq<byte>>, segs: seq<nat>, item: TcpItem, d: seq<byte>, q: nat)
    requires TcpGroup(orig, segs, item, d) && item.numMerged > 0 && |d| <= MaxLen(item.key.isV6) && q < |segs|
    requires item.iphLen + item.tcphLen <= |d| && segs[0] < |orig|
    ensures var e, o := TcpAccounted(d, item.key.isV6), TcpOptions(item);
      && WellFormed(e, o) && DataAt(o, q) < |e| && Version(e) == Ver(item.key.isV6)
      && (!item.key.isV6 ==> e[0] % 0x10 == 5)
      && FlagsOk(e, o.csumStart) && Get32(e, o.csumStart + 4) == item.sentSeq
      && e[o.csumStart + 13] == d[o.csumStart + 13]
      && SameStable(orig[segs[0]], Segment(e, o, q), item.key.isV6, true, o.hdrLen)
  {
    hide TcpAccounted;
    hide JoinPay;
    hide Segment;
    hide TcpMetaOf;
    hide Layout;
    hide TcpMembers;
    hide WellFormed;
    hide SameStable;
    var isV6, h := item.key.isV6, item.iphLen + item.tcphLen;
    TcpFront(orig, segs, item, d);
    var e, o := TcpAccounted(d, isV6), TcpOptions(item);
    TcpSegmentShape(orig, segs, item, d, q);
    TcpAccountedFrame(d, isV6, h);
    StableFirst(d, e, isV6, h);
    SegmentStable(e, o, q, isV6);
    StableTrans(orig[segs[0]], d, e, isV6, true, h);
    StableTrans(orig[segs[0]], e, Segment(e, o, q), isV6, true, h);
  }

  lemma GroupShape(orig: seq<seq<byte>>, segs: seq<nat>, item: TcpItem, d: seq<byte>)
    requires TcpGroup(orig, segs, item, d)
    ensures item.gsoSize > 0 && |segs| == item.numMerged + 1
    ensures item.iphLen == IphLen(item.key.isV6) && 20 <= item.tcphLen
  {
  }

  lemma StableFirst(d: seq<byte>, e: seq<byte>, isV6: bool, h: nat)
    requires SameStable(d, e, isV6, true, h) && h > 0
    ensures e != [] && e[0] == d[0]
  {
  }

  /**
  Segment `q` is packet `q` again: the same payload, and parsed with the same flow key, sequence
  number, header lengths and segment size.  The unused half of the header length byte is the front's.
  */
  lemma TcpRoundTrip(orig: seq<seq<byte>>, segs: seq<nat>, item: TcpItem, d: seq<byte>, q: nat)
    requires TcpGroup(orig, segs, item, d) && item.numMerged > 0 && |d| <= MaxLen(item.key.isV6) && q < |segs|
    ensures item.iphLen + item.tcphLen <= |d|
    ensures var e, o := TcpAccounted(d, item.key.isV6), TcpOptions(item);
      && WellFormed(e, o) && SegmentCount(e, o) == |segs| && DataAt(o, q) < |e| && segs[q] < |orig|
      && TcpRestored(orig[segs[q]], Segment(e, o, q), item.key.isV6, o.hdrLen, q == |segs| - 1)
      && segs[0] < |orig| && item.iphLen + 20 <= |orig[segs[0]]|
      && Segment(e, o, q)[item.iphLen + 12] == orig[segs[0]][item.iphLen + 12]
  {
    hide TcpAccounted;
    hide JoinPay;
    hide Segment;
    hide TcpMetaOf;
    hide TcpCompatible;
    hide Layout;
    hide ChecksumValid;
    hide SameStable;
    hide Ipv4Valid;
    hide WellFormed;
    hide SegmentCount;
    hide DataAt;
    hide DataEnd;
    hide Payload;
    hide IpAlike;
    hide PshLast;
    var isV6 := item.key.isV6;
    TcpFront(orig, segs, item, d);
    var e, o, front, p := TcpAccounted(d, isV6), TcpOptions(item), orig[segs[0]], orig[segs[q]];
    TcpSegmentShape(orig, segs, item, d, q);
    TcpSegmentStable(orig, segs, item, d, q);
    assert item.gsoSize > 0 by {
      GroupShape(orig, segs, item, d);
    }
    TcpSegmentParse(e, o, q, isV6);
    assert TcpMember(p, item, q) && TcpCompatible(p, d, item.iphLen, o.hdrLen);
    MetaIsV6(p, isV6);
    TcpRestore(front, p, Segment(e, o, q), isV6, TcpMetaOf(front, isV6).value, TcpMetaOf(p, isV6).value);
    CompatibleStable(p, front, d, Segment(e, o, q), isV6, o.hdrLen);
    TcpAlikeFrom(p, Segment(e, o, q), isV6, o.hdrLen, TcpMetaOf(p, isV6).value,
                 Segment(e, o, q)[item.iphLen + 13] == ACK_PSH);
    PshShown(orig, segs, item, d, q);
    StableOffset(front, Segment(e, o, q), isV6, o.hdrLen);
  }

  /** PSH shows on the last packet, if at all. */
  lemma PshShown(orig: seq<seq<byte>>, segs: seq<nat>, item: TcpItem, d: seq<byte>, q: nat)
    requires TcpGroup(orig, segs, item, d) && q < |segs|
    ensures segs[q] < |orig| && item.iphLen + 13 < |orig[segs[q]]| && item.iphLen + 13 < |d|
    ensures q < |segs| - 1 ==> orig[segs[q]][item.iphLen + 13] == ACK
    ensures q == |segs| - 1 && d[item.iphLen + 13] == ACK_PSH ==> orig[segs[q]][item.iphLen + 13] == ACK_PSH
    ensures d[item.iphLen + 13] == ACK || d[item.iphLen + 13] == ACK_PSH
  {
    hide Layout;
    hide TcpMembers;
  }

  lemma StableOffset(p: seq<byte>, r: seq<byte>, isV6: bool, h: nat)
    requires SameStable(p, r, isV6, true, h) && IphLen(isV6) + 20 <= h
    ensures r[IphLen(isV6) + 12] == p[IphLen(isV6) + 12]
  {
  }

  /**
  The byte that holds the header length is restored exactly if its other half agrees with that of
  the packet in front, which is the one the segments get.
  */
  lemma OffsetByteExact(orig: seq<seq<byte>>, segs: seq<nat>, item: TcpItem, d: seq<byte>, q: nat)
    requires TcpGroup(orig, segs, item, d) && item.numMerged > 0 && |d| <= MaxLen(item.key.isV6) && q < |segs|
    ensures item.iphLen + item.tcphLen <= |d|
    ensures var e, o, at := TcpAccounted(d, item.key.isV6), TcpOptions(item), item.iphLen + 12;
      && WellFormed(e, o) && DataAt(o, q) < |e| && segs[q] < |orig| && segs[0] < |orig|
      && at < |orig[segs[q]]| && at < |orig[segs[0]]| && at < |Segment(e, o, q)|
      && (Segment(e, o, q)[at] == orig[segs[q]][at] <==> orig[segs[q]][at] % 0x10 == orig[segs[0]][at] % 0x10)
  {
    hide TcpGroup;
    hide TcpAccounted;
    hide Segment;
    hide WellFormed;
    hide SegmentCount;
    hide DataAt;
    hide TcpMetaOf;
    hide ChecksumValid;
    hide Ipv4Valid;
    hide TcpCompatible;
    hide IpAlike;
    GroupShape(orig, segs, item, d);
    TcpRoundTrip(orig, segs, item, d, q);
  }

  /** Compatibility with the buffer carries over to anything with the stable bytes of its front. */
  lemma CompatibleStable(p: seq<byte>, front: seq<byte>, d: seq<byte>, r: seq<byte>, isV6: bool, h: nat)
    requires TcpCompatible(p, d, IphLen(isV6), h) && SameStable(front, d, isV6, true, h)
      && SameStable(front, r, isV6, true, h)
    ensures TcpCompatible(p, r, IphLen(isV6), h)
  {
    assert r[IphLen(isV6) + 20..h] == d[IphLen(isV6) + 20..h];
  }

  lemma UdpFront(orig: seq<seq<byte>>, segs: seq<nat>, item: UdpItem, d: seq<byte>)
    requires UdpGroup(orig, segs, item, d)
    ensures segs != [] && segs[0] < |orig| && item.iphLen + UDP_HEADER_LEN <= |d|
    ensures Plausible(orig[segs[0]], item.key.isV6, PROTO_UDP) && UdpMetaOf(orig[segs[0]], item.key.isV6).Some?
    ensures var p, m := orig[segs[0]], UdpMetaOf(orig[segs[0]], item.key.isV6).value;
      && m.key == item.key && m.iphLen == item.iphLen && d[0] == p[0]
      && SameStable(p, d, item.key.isV6, false, item.iphLen + UDP_HEADER_LEN)
  {
    hide JoinPay;
    assert UdpMember(orig[segs[0]], item);
  }

  lemma UdpParsed(item: UdpItem, e: seq<byte>, room: nat)
    requires item.iphLen == IphLen(item.key.isV6) && item.iphLen + UDP_HEADER_LEN + item.gsoSize < |e|
    requires e[0] / 0x10 == Ver(item.key.isV6)
    ensures ParseOptions(UdpHdr(item), e) == Accepted(UdpOptions(item))
    ensures WellFormed(e, UdpOptions(item)) && Decide(e, UdpOptions(item), room) == Many
  {
  }

  lemma UdpSuperpacket(orig: seq<seq<byte>>, segs: seq<nat>, item: UdpItem, d: seq<byte>, room: nat)
    requires UdpGroup(orig, segs, item, d) && item.numMerged > 0 && |d| <= MaxLen(item.key.isV6)
    ensures item.iphLen + UDP_HEADER_LEN <= |d|
    ensures var e, o := UdpAccounted(d, item.key.isV6), UdpOptions(item);
      && ParseOptions(UdpHdr(item), e) == Accepted(o)
      && Decide(e, o, room) == Many && WellFormed(e, o)
      && e[o.hdrLen..] == JoinPay(orig, segs, o.hdrLen)
  {
    hide UdpMembers;
    hide UdpMetaOf;
    hide JoinPay;
    hide UdpAccounted;
    hide ParseOptions;
    hide Decide;
    hide WellFormed;
    hide SameHeader;
    UdpFront(orig, segs, item, d);
    UdpAccountedFrame(d, item.key.isV6);
    TwoSegments(orig, segs, item.iphLen + UDP_HEADER_LEN, item.gsoSize);
    UdpParsed(item, UdpAccounted(d, item.key.isV6), room);
  }

  lemma UdpSegmentShape(orig: seq<seq<byte>>, segs: seq<nat>, item: UdpItem, d: seq<byte>, q: nat)
    requires UdpGroup(orig, segs, item, d) && item.numMerged > 0 && |d| <= MaxLen(item.key.isV6) && q < |segs|
    requires item.iphLen + UDP_HEADER_LEN <= |d|
    ensures var e, o := UdpAccounted(d, item.key.isV6), UdpOptions(item);
      && WellFormed(e, o) && SegmentCount(e, o) == |segs| && DataAt(o, q) < |e|
      && segs[q] < |orig| && o.hdrLen <= |orig[segs[q]]|
      && Payload(e, o, q) == orig[segs[q]][o.hdrLen..]
  {
    hide UdpMembers;
    hide JoinPay;
    hide UdpAccounted;
    hide WellFormed;
    UdpSuperpacket(orig, segs, item, d, 0);
    LayoutSplits(orig, segs, UdpAccounted(d, item.key.isV6), UdpOptions(item), q);
  }

  lemma UdpSegmentParse(e: seq<byte>, o: GsoOptions, q: nat, isV6: bool)
    requires WellFormed(e, o) && o.gsoType == GSOUDPL4 && Canonical(o) && DataAt(o, q) < |e| <= MaxLen(isV6)
    requires Version(e) == Ver(isV6) && o.csumStart == IphLen(isV6) && (!isV6 ==> e[0] % 0x10 == 5)
    ensures var r := Segment(e, o, q);
      && r[o.hdrLen..] == Payload(e, o, q) && |r| <= MaxLen(isV6) && |r| >= o.hdrLen
      && LengthFieldMatches(r, isV6) && Get16(r, o.csumStart + 4) == |r| - o.csumStart
      && ChecksumValid(r, o.csumStart, PROTO_UDP, Ver(isV6)) && (!isV6 ==> Ipv4Valid(r))
  {
    hide Segment;
    hide CommonOf;
    hide ChecksumValid;
    hide Payload;
    hide DataAt;
    hide DataEnd;
    hide Overwritten;
    hide Ipv4Valid;
    hide Rfc1071;
    SegmentBound(e, o, q);
    SegmentFields(e, o, q);
    SegmentChecksumValid(e, o, q);
    if !isV6 {
      SegmentHeaderValid(e, o, q);
    }
    SmallLength(Segment(e, o, q), isV6);
  }

  /** Datagram `r` is datagram `p` again. */
  ghost predicate UdpRestored(p: seq<byte>, r: seq<byte>, isV6: bool) {
    var h := IphLen(isV6) + UDP_HEADER_LEN;
    && IpAlike(p, r, isV6, PROTO_UDP) && UdpAlike(p, r, IphLen(isV6))
    && Plausible(p, isV6, PROTO_UDP) && Plausible(r, isV6, PROTO_UDP)
    && r[h..] == p[h..]
    && UdpMetaOf(p, isV6).Some? && UdpMetaOf(r, isV6) == UdpMetaOf(p, isV6)
    && UdpCompatible(p, r)
    && ChecksumValid(r, IphLen(isV6), PROTO_UDP, Ver(isV6))
    && (!isV6 ==> Ipv4Valid(r))
  }

  lemma UdpRestore(front: seq<byte>, p: seq<byte>, r: seq<byte>, isV6: bool, m0: UdpMeta, m: UdpMeta)
    requires Plausible(front, isV6, PROTO_UDP) && UdpMetaOf(front, isV6) == Some(m0)
    requires Plausible(p, isV6, PROTO_UDP) && UdpMetaOf(p, isV6) == Some(m)
    requires m.key == m0.key && IphLen(isV6) + UDP_HEADER_LEN <= |r| && |r| == |p|
    requires SameStable(front, r, isV6, false, IphLen(isV6) + UDP_HEADER_LEN) && LengthFieldMatches(r, isV6)
    ensures Plausible(r, isV6, PROTO_UDP) && UdpMetaOf(r, isV6) == Some(m)
  {
    hide UdpMetaOf;
    UdpMetaIsV6(front, isV6);
    UdpMetaIsV6(p, isV6);
    UdpMetaShape(front, m0);
    UdpMetaShape(p, m);
    UdpMetaTransfer(front, r, isV6, m0);
  }

  lemma UdpMetaIsV6(p: seq<byte>, isV6: bool)
    requires Plausible(p, isV6, PROTO_UDP) && UdpMetaOf(p, isV6).Some?
    ensures UdpMetaOf(p, isV6).value.isV6 == isV6 && UdpMetaOf(p, isV6).value.iphLen == IphLen(isV6)
  {
  }

  lemma UdpSegmentStable(orig: seq<seq<byte>>, segs: seq<nat>, item: UdpItem, d: seq<byte>, q: nat)
    requires UdpGroup(orig, segs, item, d) && item.numMerged > 0 && |d| <= MaxLen(item.key.isV6) && q < |segs|
    requires item.iphLen + UDP_HEADER_LEN <= |d| && segs[0] < |orig|
    ensures var e, o := UdpAccounted(d, item.key.isV6), UdpOptions(item);
      && WellFormed(e, o) && DataAt(o, q) < |e| && Version(e) == Ver(item.key.isV6)
      && (!item.key.isV6 ==> e[0] % 0x10 == 5)
      && SameStable(orig[segs[0]], Segment(e, o, q), item.key.isV6, false, o.hdrLen)
  {
    hide UdpAccounted;
    hide JoinPay;
    hide Segment;
    hide UdpMetaOf;
    hide Layout;
    hide UdpMembers;
    hide WellFormed;
    var isV6, h := item.key.isV6, item.iphLen + UDP_HEADER_LEN;
    var e, o := UdpAccounted(d, isV6), UdpOptions(item);
    UdpSegmentShape(orig, segs, item, d, q);
    UdpFront(orig, segs, item, d);
    UdpAccountedFrame(d, isV6);
    SegmentStable(e, o, q, isV6);
    StableTrans(orig[segs[0]], d, e, isV6, false, h);
    StableTrans(orig[segs[0]], e, Segment(e, o, q), isV6, false, h);
  }

  lemma UdpCompatibleStable(p: seq<byte>, front: seq<byte>, d: seq<byte>, r: seq<byte>, isV6: bool, h: nat)
    requires UdpCompatible(p, d) && SameStable(front, d, isV6, false, h) && SameStable(front, r, isV6, false, h)
      && h >= 28
    ensures UdpCompatible(p, r)
  {
  }

  /** Datagram `q` of a merged buffer comes back with its payload, flow, length and valid checksums. */
  lemma UdpRoundTrip(orig: seq<seq<byte>>, segs: seq<nat>, item: UdpItem, d: seq<byte>, q: nat)
    requires UdpGroup(orig, segs, item, d) && item.numMerged > 0 && |d| <= MaxLen(item.key.isV6) && q < |segs|
    ensures item.iphLen + UDP_HEADER_LEN <= |d|
    ensures var e, o := UdpAccounted(d, item.key.isV6), UdpOptions(item);
      && WellFormed(e, o) && SegmentCount(e, o) == |segs| && DataAt(o, q) < |e| && segs[q] < |orig|
      && UdpRestored(orig[segs[q]], Segment(e, o, q), item.key.isV6)
  {
    hide UdpAccounted;
    hide JoinPay;
    hide Segment;
    hide UdpMetaOf;
    hide UdpCompatible;
    hide Layout;
    hide ChecksumValid;
    hide SameStable;
    hide Ipv4Valid;
    hide WellFormed;
    hide SegmentCount;
    hide DataAt;
    hide DataEnd;
    hide Payload;
    var isV6 := item.key.isV6;
    UdpFront(orig, segs, item, d);
    var e, o, front, p := UdpAccounted(d, isV6), UdpOptions(item), orig[segs[0]], orig[segs[q]];
    UdpSegmentShape(orig, segs, item, d, q);
    UdpSegmentStable(orig, segs, item, d, q);
    UdpSegmentParse(e, o, q, isV6);
    assert UdpMember(p, item) && UdpCompatible(p, d);
    UdpRestore(front, p, Segment(e, o, q), isV6, UdpMetaOf(front, isV6).value, UdpMetaOf(p, isV6).value);
    UdpCompatibleStable(p, front, d, Segment(e, o, q), isV6, o.hdrLen);
    UdpAlikeFrom(p, Segment(e, o, q), isV6, UdpMetaOf(p, isV6).value);
    hide IpAlike;
  }

  /** A packet written under the zero header is passed on as it is, whatever it holds. */
  lemma PlainRoundTrip(s: seq<byte>, room: nat)
    ensures ParseOptions(ZERO_HDR, s) == Accepted(GsoOptions(GSONone, 0, 0, 0, 0, false))
    ensures var o := GsoOptions(GSONone, 0, 0, 0, 0, false);
      && (Decide(s, o, room) == Single <==> 1 < |s| <= room)
      && (|s| > 1 ==> Completion(s, o) == s)
  {
  }
}
