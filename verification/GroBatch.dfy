/** What a whole batch delivers once the accounting has run. */
module GroBatch {
  import opened Wrappers
  import opened Bytes
  import opened HeaderChecksum
  import opened GsoSpec
  import opened GsoProperties
  import opened GsoSplit
  import opened Virtio
  import opened GroModel
  import opened GroGroup
  import opened GroInvariant
  import opened GroRun
  import opened GroUdp
  import opened GroTrack
  import opened GroVet
  import opened GroAccount
  import opened RoundTrip

  predicate TcpAccountable(p: Pkt, item: TcpItem, off: nat) {
    && HDR_LEN <= off && item.iphLen == IphLen(item.key.isV6)
    && 20 <= item.tcphLen <= 60 && off + item.iphLen + item.tcphLen <= |p.data|
  }

  /** One turn of the loop in applyTCPCoalesceAccounting. */
  function TcpAccountedBuf(p: Pkt, item: TcpItem, off: nat, le: bool): (r: Pkt)
    requires TcpAccountable(p, item, off)
  {
    var head := p.data[..off - HDR_LEN];
    if item.numMerged > 0 then
      Pkt(head + Encode(TcpHdr(item), le) + TcpAccounted(p.data[off..], item.key.isV6), p.cap)
    else
      Pkt(head + Encode(ZERO_HDR, le) + p.data[off..], p.cap)
  }

  predicate UdpAccountable(p: Pkt, item: UdpItem, off: nat) {
    && HDR_LEN <= off && item.iphLen == IphLen(item.key.isV6)
    && off + item.iphLen + UDP_HEADER_LEN <= |p.data|
  }

  function UdpAccountedBuf(p: Pkt, item: UdpItem, off: nat, le: bool): (r: Pkt)
    requires UdpAccountable(p, item, off)
  {
    var head := p.data[..off - HDR_LEN];
    if item.numMerged > 0 then
      Pkt(head + Encode(UdpHdr(item), le) + UdpAccounted(p.data[off..], item.key.isV6), p.cap)
    else
      Pkt(head + Encode(ZERO_HDR, le) + p.data[off..], p.cap)
  }

  ghost predicate TcpItemDone(bufs: seq<Pkt>, bufs': seq<Pkt>, item: TcpItem, off: nat, le: bool) {
    && item.bufsIndex < |bufs| == |bufs'| && TcpAccountable(bufs[item.bufsIndex], item, off)
    && bufs'[item.bufsIndex] == TcpAccountedBuf(bufs[item.bufsIndex], item, off, le)
  }

  ghost predicate UdpItemDone(bufs: seq<Pkt>, bufs': seq<Pkt>, item: UdpItem, off: nat, le: bool) {
    && item.bufsIndex < |bufs| == |bufs'| && UdpAccountable(bufs[item.bufsIndex], item, off)
    && bufs'[item.bufsIndex] == UdpAccountedBuf(bufs[item.bufsIndex], item, off, le)
  }

  /** Every item has been accounted for, and no other buffer has changed. */
  ghost predicate Accounted(st: GroState, bufs': seq<Pkt>, off: nat, le: bool) {
    && |bufs'| == |st.bufs|
    && (forall key, j :: key in st.tcp && 0 <= j < |st.tcp[key]| ==>
          TcpItemDone(st.bufs, bufs', st.tcp[key][j], off, le))
    && (forall key, j :: key in st.udp && 0 <= j < |st.udp[key]| ==>
          UdpItemDone(st.bufs, bufs', st.udp[key][j], off, le))
    && (forall k :: 0 <= k < |bufs'| && !HasTcp(st.tcp, k) && !HasUdp(st.udp, k) ==> bufs'[k] == st.bufs[k])
  }

  /** Segment `r` is packet `p` of the batch again. */
  ghost predicate Restored(p: seq<byte>, r: seq<byte>, last: bool) {
    || (exists isV6, h :: TcpRestored(p, r, isV6, h, last))
    || (exists isV6 :: UdpRestored(p, r, isV6))
  }

  /**
  Read back behind header `h`, the superpacket `s` splits into exactly the listed packets.  Left
  whole, it is a packet with a right length, a valid header and, once completed, a valid checksum.
  */
  ghost predicate SplitsInto(orig: seq<seq<byte>>, segs: seq<nat>, h: VirtioHdr, s: seq<byte>) {
    && ParseOptions(h, s).Accepted?
    && var o := ParseOptions(h, s).options;
      && WellFormed(s, o) && o.gsoSize > 0
      && h.flags == 1 && h.hdrLen == o.hdrLen && LengthFieldMatches(s, Version(s) == 6)
      && (Version(s) == 4 ==> Ipv4Valid(s)) && ChecksumValid(Completion(s, o), o.csumStart, Protocol(o), Version(s))
      && (!IsTcp(o) ==> Get16(s, o.csumStart + 4) == |s| - o.csumStart)
      && (forall room: nat :: Decide(s, o, room) == Many)
      && SegmentCount(s, o) == |segs|
      && (forall q :: 0 <= q < |segs| ==>
            DataAt(o, q) < |s| && segs[q] < |orig| && Restored(orig[segs[q]], Segment(s, o, q), q == |segs| - 1))
  }

  /** Read back behind header `h`, the packet `s` is passed on as it is, into any buffer it fits. */
  ghost predicate PassedOn(h: VirtioHdr, s: seq<byte>) {
    && ParseOptions(h, s).Accepted?
    && var o := ParseOptions(h, s).options;
      && (forall room: nat :: Decide(s, o, room) == Single <==> 1 < |s| <= room)
      && (|s| > 1 ==> o.csumStart + o.csumOffset + 1 < |s| && Completion(s, o) == s)
  }

  /**
  A written buffer stands for the packets it carries.  The header of a TCP packet that was dropped
  from its table, because its checksum failed validation, is the only one left open.
  */
  ghost predicate Delivered(orig: seq<seq<byte>>, segs: seq<nat>, d: seq<byte>, off: nat, le: bool, skip: bool) {
    && HDR_LEN <= off <= |d| && segs != []
    && var h, s := Decode(d[off - HDR_LEN..off], le), d[off..];
      if |segs| == 1 then
        && segs[0] < |orig| && s == orig[segs[0]]
        && ((h == ZERO_HDR && PassedOn(h, s)) || (!skip && BadTcp(s)))
      else SplitsInto(orig, segs, h, s)
  }

  /**
  Every packet of the batch is carried once, by a buffer that is written, in increasing slots; those
  that share one were vetted.
  */
  ghost predicate Conserved(orig: seq<seq<byte>>, bufs: seq<Pkt>, toWrite: seq<nat>, segs: Slots, cfg: Config,
                            le: bool)
  {
    && Partition(segs, |orig|) && Increasing(toWrite) && (forall k :: k in toWrite <==> k in segs)
    && (forall k :: k in segs ==> k < |bufs| && Delivered(orig, segs[k], bufs[k].data, cfg.off, le, cfg.skip))
    && Vouched(orig, segs, cfg)
  }

  /** A header and a packet laid out behind some headroom are read back as they are. */
  lemma ReadBack(head: seq<byte>, h: VirtioHdr, s: seq<byte>, off: nat, le: bool)
    requires |head| + HDR_LEN == off
    ensures var d := head + Encode(h, le) + s;
      off <= |d| && d[off..] == s && Decode(d[off - HDR_LEN..off], le) == h
  {
    hide Encode;
    hide Decode;
    var d := head + Encode(h, le) + s;
    assert d[off - HDR_LEN..off] == Encode(h, le) + [];
    DecodeEncode(h, [], le);
  }

  lemma ZeroPassedOn(s: seq<byte>)
    ensures PassedOn(ZERO_HDR, s)
  {
    hide ParseOptions;
    hide Decide;
    hide Completion;
    forall room: nat
      ensures ParseOptions(ZERO_HDR, s).Accepted?
        && (Decide(s, ParseOptions(ZERO_HDR, s).options, room) == Single <==> 1 < |s| <= room)
    {
      PlainRoundTrip(s, room);
    }
    PlainRoundTrip(s, 0);
  }

  /** The merged buffer as one packet. */
  lemma TcpWhole(orig: seq<seq<byte>>, segs: seq<nat>, item: TcpItem, d: seq<byte>)
    requires TcpGroup(orig, segs, item, d) && |d| <= MaxLen(item.key.isV6)
    ensures item.iphLen + item.tcphLen <= |d| && item.iphLen == IphLen(item.key.isV6)
    ensures var e, o := TcpAccounted(d, item.key.isV6), TcpOptions(item);
      && Version(e) == Ver(item.key.isV6) && TcpHdr(item).hdrLen == o.hdrLen && LengthFieldMatches(e, item.key.isV6)
      && (!item.key.isV6 ==> Ipv4Valid(e)) && ChecksumValid(Completion(e, o), o.csumStart, PROTO_TCP, Version(e))
  {
    hide TcpAccounted;
    hide TcpMembers;
    hide PshLast;
    hide Completion;
    hide ChecksumValid;
    hide TcpMetaOf;
    hide JoinPay;
    hide LengthFieldMatches;
    hide Ipv4Valid;
    var isV6 := item.key.isV6;
    TcpFront(orig, segs, item, d);
    TcpAccountedFrame(d, isV6, item.iphLen + item.tcphLen);
    StableFirst(d, TcpAccounted(d, isV6), isV6, item.iphLen + item.tcphLen);
    TcpAccountedValid(d, isV6, TcpOptions(item));
    TcpLengthExact(d, isV6);
  }

  lemma UdpWhole(orig: seq<seq<byte>>, segs: seq<nat>, item: UdpItem, d: seq<byte>)
    requires UdpGroup(orig, segs, item, d) && |d| <= MaxLen(item.key.isV6)
    ensures item.iphLen + UDP_HEADER_LEN <= |d| && item.iphLen == IphLen(item.key.isV6)
    ensures var e, o := UdpAccounted(d, item.key.isV6), UdpOptions(item);
      && Version(e) == Ver(item.key.isV6) && UdpHdr(item).hdrLen == o.hdrLen && UdpLengthsMatch(e, item.key.isV6)
      && (!item.key.isV6 ==> Ipv4Valid(e)) && ChecksumValid(Completion(e, o), o.csumStart, PROTO_UDP, Version(e))
  {
    hide UdpAccounted;
    hide UdpMembers;
    hide Completion;
    hide ChecksumValid;
    hide UdpMetaOf;
    hide JoinPay;
    hide LengthFieldMatches;
    hide Ipv4Valid;
    var isV6 := item.key.isV6;
    UdpFront(orig, segs, item, d);
    UdpAccountedFrame(d, isV6);
    UdpStableFirst(d, UdpAccounted(d, isV6), isV6, item.iphLen + UDP_HEADER_LEN);
    UdpAccountedValid(d, isV6, UdpOptions(item));
    UdpLengthExact(d, isV6);
  }

  lemma UdpStableFirst(d: seq<byte>, e: seq<byte>, isV6: bool, h: nat)
    requires SameStable(d, e, isV6, false, h) && h > 0
    ensures e != [] && e[0] == d[0]
  {
  }

  lemma TcpSplitsInto(orig: seq<seq<byte>>, segs: seq<nat>, item: TcpItem, d: seq<byte>)
    requires TcpGroup(orig, segs, item, d) && item.numMerged > 0 && |d| <= MaxLen(item.key.isV6)
    ensures item.iphLen + item.tcphLen <= |d|
    ensures SplitsInto(orig, segs, TcpHdr(item), TcpAccounted(d, item.key.isV6))
  {
    hide TcpGroup;
    hide TcpAccounted;
    hide ParseOptions;
    hide Decide;
    hide WellFormed;
    hide SegmentCount;
    hide Segment;
    hide DataAt;
    hide Completion;
    hide ChecksumValid;
    hide Ipv4Valid;
    hide LengthFieldMatches;
    hide TcpRestored;
    GroupShape(orig, segs, item, d);
    TcpSuperpacket(orig, segs, item, d, 0);
    var e, o := TcpAccounted(d, item.key.isV6), TcpOptions(item);
    forall room: nat ensures Decide(e, o, room) == Many {
      TcpSuperpacket(orig, segs, item, d, room);
    }
    TcpRoundTrip(orig, segs, item, d, 0);
    TcpWhole(orig, segs, item, d);
    forall q | 0 <= q < |segs|
      ensures DataAt(o, q) < |e| && segs[q] < |orig| && Restored(orig[segs[q]], Segment(e, o, q), q == |segs| - 1)
    {
      TcpRoundTrip(orig, segs, item, d, q);
    }
  }

  lemma UdpGroupShape(orig: seq<seq<byte>>, segs: seq<nat>, item: UdpItem, d: seq<byte>)
    requires UdpGroup(orig, segs, item, d)
    ensures item.gsoSize > 0 && |segs| == item.numMerged + 1 && item.iphLen == IphLen(item.key.isV6)
  {
  }

  lemma UdpSplitsInto(orig: seq<seq<byte>>, segs: seq<nat>, item: UdpItem, d: seq<byte>)
    requires UdpGroup(orig, segs, item, d) && item.numMerged > 0 && |d| <= MaxLen(item.key.isV6)
    ensures item.iphLen + UDP_HEADER_LEN <= |d|
    ensures SplitsInto(orig, segs, UdpHdr(item), UdpAccounted(d, item.key.isV6))
  {
    hide UdpGroup;
    hide UdpAccounted;
    hide ParseOptions;
    hide Decide;
    hide WellFormed;
    hide SegmentCount;
    hide Segment;
    hide DataAt;
    hide Completion;
    hide ChecksumValid;
    hide Ipv4Valid;
    hide LengthFieldMatches;
    hide UdpRestored;
    UdpGroupShape(orig, segs, item, d);
    UdpSuperpacket(orig, segs, item, d, 0);
    var e, o := UdpAccounted(d, item.key.isV6), UdpOptions(item);
    forall room: nat ensures Decide(e, o, room) == Many {
      UdpSuperpacket(orig, segs, item, d, room);
    }
    UdpRoundTrip(orig, segs, item, d, 0);
    UdpWhole(orig, segs, item, d);
    forall q | 0 <= q < |segs|
      ensures DataAt(o, q) < |e| && segs[q] < |orig| && Restored(orig[segs[q]], Segment(e, o, q), q == |segs| - 1)
    {
      UdpRoundTrip(orig, segs, item, d, q);
    }
  }

  /** The accounted buffer of a TCP item delivers its group. */
  lemma TcpDelivered(orig: seq<seq<byte>>, segs: seq<nat>, item: TcpItem, p: Pkt, off: nat, le: bool, skip: bool)
    requires off <= |p.data| && TcpGroup(orig, segs, item, p.data[off..]) && SlotOk(orig, segs, p.data[off..])
    requires TcpAccountable(p, item, off)
    ensures Delivered(orig, segs, TcpAccountedBuf(p, item, off, le).data, off, le, skip)
  {
    hide TcpGroup;
    hide TcpAccounted;
    hide Encode;
    hide Decode;
    hide SplitsInto;
    hide PassedOn;
    hide BadTcp;
    hide Layout;
    var d, head := p.data[off..], p.data[..off - HDR_LEN];
    GroupShape(orig, segs, item, d);
    GroupKeyVersion(orig, segs, item, d);
    if item.numMerged > 0 {
      ReadBack(head, TcpHdr(item), TcpAccounted(d, item.key.isV6), off, le);
      TcpSplitsInto(orig, segs, item, d);
    } else {
      ReadBack(head, ZERO_HDR, d, off, le);
      ZeroPassedOn(d);
    }
  }

  lemma UdpDelivered(orig: seq<seq<byte>>, segs: seq<nat>, item: UdpItem, p: Pkt, off: nat, le: bool, skip: bool)
    requires off <= |p.data| && UdpGroup(orig, segs, item, p.data[off..]) && SlotOk(orig, segs, p.data[off..])
    requires UdpAccountable(p, item, off)
    ensures Delivered(orig, segs, UdpAccountedBuf(p, item, off, le).data, off, le, skip)
  {
    hide UdpGroup;
    hide UdpAccounted;
    hide Encode;
    hide Decode;
    hide SplitsInto;
    hide PassedOn;
    hide BadTcp;
    hide Layout;
    var d, head := p.data[off..], p.data[..off - HDR_LEN];
    UdpGroupShape(orig, segs, item, d);
    UdpGroupVersion(orig, segs, item, d);
    if item.numMerged > 0 {
      ReadBack(head, UdpHdr(item), UdpAccounted(d, item.key.isV6), off, le);
      UdpSplitsInto(orig, segs, item, d);
    } else {
      ReadBack(head, ZERO_HDR, d, off, le);
      ZeroPassedOn(d);
    }
  }

  lemma PlainDelivered(orig: seq<seq<byte>>, segs: seq<nat>, d: seq<byte>, cfg: Config, le: bool)
    requires HDR_LEN <= cfg.off <= |d| && SlotOk(orig, segs, d[cfg.off..]) && |segs| == 1
    requires Alone(d, cfg)
    ensures Delivered(orig, segs, d, cfg.off, le, cfg.skip)
  {
    hide Decode;
    hide Encode;
    hide PassedOn;
    hide BadTcp;
    if ZeroHeaded(d, cfg.off) {
      ZeroEncodes(le);
      DecodeEncode(ZERO_HDR, [], le);
      assert d[cfg.off - HDR_LEN..cfg.off] == Encode(ZERO_HDR, le) + [];
      ZeroPassedOn(d[cfg.off..]);
    }
  }

  lemma SlotDelivered(orig: seq<seq<byte>>, st: GroState, segs: Slots, cfg: Config, bufs': seq<Pkt>, le: bool, k: nat)
    requires Inv(orig, st, segs, |orig|, cfg) && Tracked(st, segs, cfg) && Accounted(st, bufs', cfg.off, le)
      && k in segs
    ensures k < |bufs'| && Delivered(orig, segs[k], bufs'[k].data, cfg.off, le, cfg.skip)
  {
    hide Delivered;
    hide TcpGroup;
    hide UdpGroup;
    hide SlotOk;
    hide Partition;
    hide UdpOrdered;
    hide ToWriteOk;
    hide Alone;
    hide TcpAccountedBuf;
    hide UdpAccountedBuf;
    assert SlotTracked(st, k, segs[k], cfg) && SlotOk(orig, segs[k], st.bufs[k].data[cfg.off..]);
    if HasTcp(st.tcp, k) {
      var key :| key in st.tcp && ItemsHave(st.tcp[key], k);
      var j :| 0 <= j < |st.tcp[key]| && st.tcp[key][j].bufsIndex == k;
      assert TcpFlowOk(orig, st.bufs, segs, key, st.tcp[key], cfg.off);
      assert TcpItemOk(orig, st.bufs, segs, st.tcp[key][j], cfg.off);
      assert TcpItemDone(st.bufs, bufs', st.tcp[key][j], cfg.off, le);
      TcpDelivered(orig, segs[k], st.tcp[key][j], st.bufs[k], cfg.off, le, cfg.skip);
    } else if HasUdp(st.udp, k) {
      var key :| key in st.udp && UdpItemsHave(st.udp[key], k);
      var j :| 0 <= j < |st.udp[key]| && st.udp[key][j].bufsIndex == k;
      assert UdpFlowOk(orig, st.bufs, segs, key, st.udp[key], cfg.off);
      assert UdpItemOk(orig, st.bufs, segs, st.udp[key][j], cfg.off);
      assert UdpItemDone(st.bufs, bufs', st.udp[key][j], cfg.off, le);
      UdpDelivered(orig, segs[k], st.udp[key][j], st.bufs[k], cfg.off, le, cfg.skip);
    } else {
      PlainDelivered(orig, segs[k], st.bufs[k].data, cfg, le);
    }
  }

  /**
  A batch conserves traffic: the written buffers, read back through the virtio header and GSO,
  are exactly the packets of the batch, each once.
  */
  lemma BatchConserved(orig: seq<seq<byte>>, st: GroState, segs: Slots, cfg: Config, bufs': seq<Pkt>, le: bool)
    requires Inv(orig, st, segs, |orig|, cfg) && Tracked(st, segs, cfg) && Accounted(st, bufs', cfg.off, le)
    requires Vouched(orig, segs, cfg)
    ensures Conserved(orig, bufs', st.toWrite, segs, cfg, le)
  {
    hide Accounted;
    hide Tracked;
    hide Delivered;
    hide Vouched;
    hide TcpTableOk;
    hide UdpTableOk;
    hide UdpOrdered;
    hide Partition;
    forall k | k in segs ensures k < |bufs'| && Delivered(orig, segs[k], bufs'[k].data, cfg.off, le, cfg.skip) {
      SlotDelivered(orig, st, segs, cfg, bufs', le, k);
    }
  }

  lemma {:induction false} ArrivalsIncrease(orig: seq<seq<byte>>, n: nat, key: UdpKey, cfg: Config)
    requires n <= |orig|
    ensures Increasing(Arrivals(orig, n, key, cfg))
    ensures forall x :: 0 <= x < |Arrivals(orig, n, key, cfg)| ==> Arrivals(orig, n, key, cfg)[x] < n
    decreases n
  {
    hide EntryOf;
    if n > 0 {
      ArrivalsIncrease(orig, n - 1, key, cfg);
    }
  }

  /** Items whose concatenated contents increase stand in increasing slots. */
  lemma {:induction false} FlattenSlots(items: seq<UdpItem>, segs: Slots)
    requires forall j :: 0 <= j < |items| ==>
      var k := items[j].bufsIndex; k in segs && segs[k] != [] && segs[k][0] == k
    requires Increasing(Flatten(items, segs))
    ensures forall j :: 0 <= j < |items| ==> items[j].bufsIndex in Flatten(items, segs)
    ensures forall j, j' :: 0 <= j < j' < |items| ==> items[j].bufsIndex < items[j'].bufsIndex
    decreases |items|
  {
    if items != [] {
      var front, k := items[..|items| - 1], items[|items| - 1].bufsIndex;
      var f, all := Flatten(front, segs), Flatten(items, segs);
      assert all == f + segs[k];
      assert Increasing(f) by {
        assert forall x :: 0 <= x < |f| ==> all[x] == f[x];
      }
      FlattenSlots(front, segs);
      assert all[|f|] == k;
      forall j | 0 <= j < |front| ensures front[j].bufsIndex < k && front[j].bufsIndex in all {
        var x :| 0 <= x < |f| && f[x] == front[j].bufsIndex;
        assert all[x] == f[x];
      }
    }
  }

  /**
  Datagrams of a flow leave in arrival order: its items stand in increasing slots, so in the
  order of toWrite, and what they carry, end to end, is the flow's datagrams as they arrived.
  */
  lemma UdpInOrder(orig: seq<seq<byte>>, st: GroState, segs: Slots, cfg: Config, key: UdpKey)
    requires Inv(orig, st, segs, |orig|, cfg) && key in st.udp
    ensures Flatten(st.udp[key], segs) == Arrivals(orig, |orig|, key, cfg)
    ensures forall j :: 0 <= j < |st.udp[key]| ==> st.udp[key][j].bufsIndex in st.toWrite
    ensures forall j, j' :: 0 <= j < j' < |st.udp[key]| ==> st.udp[key][j].bufsIndex < st.udp[key][j'].bufsIndex
  {
    hide Core;
    hide TcpTableOk;
    hide Layout;
    hide UdpMembers;
    hide EntryOf;
    hide Flatten;
    var items := st.udp[key];
    ArrivalsIncrease(orig, |orig|, key, cfg);
    assert Arrivals(orig, |orig|, key, cfg) == Flatten(items, segs);
    forall j | 0 <= j < |items|
      ensures var k := items[j].bufsIndex; k in segs && segs[k] != [] && segs[k][0] == k
    {
      assert UdpItemOk(orig, st.bufs, segs, items[j], cfg.off);
    }
    FlattenSlots(items, segs);
  }
}
