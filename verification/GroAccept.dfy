/** When packets are merged, said of the packets themselves. */
module GroAccept {
  import opened Wrappers
  import opened Bytes
  import opened GsoSpec
  import opened GsoProperties
  import opened GroModel
  import opened GroGroup

  /**
  Two packets agree in type of service, fragment bits and time to live, or in version, traffic class
  and hop limit.
  */
  predicate SameService(p: seq<byte>, d: seq<byte>, isV6: bool)
    requires |p| >= 20 && |d| >= 20
  {
    if isV6 then p[0] == d[0] && p[1] / 0x10 == d[1] / 0x10 && p[7] == d[7]
    else p[1] == d[1] && p[6] / 0x20 == d[6] / 0x20 && p[8] == d[8]
  }

  /** The packet can go behind `last`, the last packet of a group with segments of `gso` bytes. */
  predicate Continues(p: seq<byte>, last: seq<byte>, t: nat, h: nat, gso: nat)
    requires t + 20 <= h <= |p| && h <= |last|
  {
    && last[t + 13] == ACK
    && |last| - h == gso && |p| - h <= gso
    && Get32(p, t + 4) == (Get32(last, t + 4) + (|last| - h)) % 0x1_0000_0000
  }

  /** The packet can go in front of `first`, the first of `n` packets. */
  predicate Precedes(p: seq<byte>, first: seq<byte>, t: nat, h: nat, gso: nat, n: nat)
    requires t + 20 <= h <= |p| && h <= |first|
  {
    && p[t + 13] == ACK
    && (|p| - h == gso || (|p| - h > gso && n == 1))
    && Get32(first, t + 4) == (Get32(p, t + 4) + (|p| - h)) % 0x1_0000_0000
  }

  /** A packet of the item's flow, with its metadata. */
  ghost predicate OfFlow(p: seq<byte>, m: TcpMeta, item: TcpItem) {
    Plausible(p, m.isV6, PROTO_TCP) && TcpMetaOf(p, m.isV6) == Some(m) && m.key == item.key
  }

  lemma MetaFields(p: seq<byte>, m: TcpMeta)
    requires Plausible(p, m.isV6, PROTO_TCP) && TcpMetaOf(p, m.isV6) == Some(m)
    ensures m.iphLen == IphLen(m.isV6) && m.iphLen + m.tcphLen < |p|
    ensures m.seqNum == Get32(p, m.iphLen + 4) && (m.pshSet <==> p[m.iphLen + 13] != ACK)
    ensures m.tcphLen == p[m.iphLen + 12] / 0x10 * 4 && m.gsoSize == |p| - m.iphLen - m.tcphLen
  {
  }

  lemma MemberFields(orig: seq<seq<byte>>, segs: seq<nat>, item: TcpItem, d: seq<byte>, q: nat)
    requires TcpGroup(orig, segs, item, d) && q < |segs|
    ensures segs[q] < |orig| && item.iphLen + item.tcphLen < |orig[segs[q]]| && item.tcphLen >= 20
    ensures Get32(orig[segs[q]], item.iphLen + 4) == (item.sentSeq + q * item.gsoSize) % 0x1_0000_0000
  {
    hide TcpMetaOf;
    hide Layout;
    hide PshLast;
    assert TcpMember(orig[segs[q]], item, q);
    MemberMeta(orig[segs[q]], item.key.isV6);
    MetaFields(orig[segs[q]], TcpMetaOf(orig[segs[q]], item.key.isV6).value);
  }

  lemma MemberMeta(p: seq<byte>, isV6: bool)
    requires Plausible(p, isV6, PROTO_TCP) && TcpMetaOf(p, isV6).Some?
    ensures TcpMetaOf(p, isV6).value.isV6 == isV6
  {
  }

  lemma GroupEnds(orig: seq<seq<byte>>, segs: seq<nat>, item: TcpItem, d: seq<byte>)
    requires TcpGroup(orig, segs, item, d)
    ensures var h, n := item.iphLen + item.tcphLen, |segs|;
      && n > 0 && segs[n - 1] < |orig| && segs[0] < |orig|
      && |orig[segs[n - 1]]| - h <= item.gsoSize && |orig[segs[0]]| - h == item.gsoSize
      && (item.pshSet <==> FlagsAt(orig[segs[n - 1]], item.iphLen) == ACK_PSH)
      && FlagsOk(orig[segs[n - 1]], item.iphLen)
  {
    hide JoinPay;
    hide TcpMembers;
    hide SameHeader;
    hide FlagsAt;
  }

  /** The last packet of a group, as the item knows it. */
  lemma GroupLast(orig: seq<seq<byte>>, segs: seq<nat>, item: TcpItem, d: seq<byte>)
    requires TcpGroup(orig, segs, item, d)
    ensures var t, h, n := item.iphLen, item.iphLen + item.tcphLen, |segs|;
      && n > 0 && segs[n - 1] < |orig| && segs[0] < |orig| && h < |orig[segs[n - 1]]| && h < |orig[segs[0]]|
      && var last, first := orig[segs[n - 1]], orig[segs[0]];
        && |last| - h <= item.gsoSize && (item.pshSet <==> last[t + 13] != ACK)
        && Get32(last, t + 4) == (item.sentSeq + (n - 1) * item.gsoSize) % 0x1_0000_0000
        && Get32(first, t + 4) == item.sentSeq && |first| - h == item.gsoSize
  {
    hide TcpGroup;
    GroupEnds(orig, segs, item, d);
    MemberFields(orig, segs, item, d, |segs| - 1);
    MemberFields(orig, segs, item, d, 0);
  }

  /** What the item computes of its buffer, if its last packet is full. */
  lemma FullGroup(orig: seq<seq<byte>>, segs: seq<nat>, item: TcpItem, d: seq<byte>)
    requires TcpGroup(orig, segs, item, d) && |d| <= MaxLen(item.key.isV6)
    requires |orig[segs[|segs| - 1]]| - (item.iphLen + item.tcphLen) == item.gsoSize
    ensures LhsLen(item) == |segs| * item.gsoSize
    ensures (|d| - (item.iphLen + item.tcphLen)) % item.gsoSize == 0
  {
    hide JoinPay;
    hide TcpMembers;
    hide LhsLen;
    hide PshLast;
    var h, n, gso := item.iphLen + item.tcphLen, |segs|, item.gsoSize;
    JoinLength(orig, segs, h, gso);
    OneMore(n - 1, gso, n);
    LhsLenExact(item, n);
    MultipleMod(n, gso);
  }

  lemma MultipleMod(n: nat, g: nat)
    requires g > 0
    ensures n * g % g == 0
  {
    var x := n * g;
    DivBetween(x, g, n);
    assert x == x / g * g + x % g;
  }

  lemma CanAppendIff(p: seq<byte>, m: TcpMeta, item: TcpItem, d: seq<byte>)
    requires m.iphLen + m.tcphLen <= |p| && m.iphLen == item.iphLen && item.iphLen + item.tcphLen <= |d|
    requires item.gsoSize > 0 && m.tcphLen >= 20 && m.iphLen == IphLen(m.isV6) && p[0] / 0x10 == Ver(m.isV6)
    ensures TcpCanCoalesce(p, m, item, d) == Append <==>
      && m.tcphLen == item.tcphLen && SameService(p, d, m.isV6)
      && p[m.iphLen + 20..m.iphLen + m.tcphLen] == d[m.iphLen + 20..m.iphLen + m.tcphLen]
      && m.seqNum == (item.sentSeq + LhsLen(item)) % 0x1_0000_0000
      && !item.pshSet && (|d| - m.iphLen - m.tcphLen) % item.gsoSize == 0 && m.gsoSize <= item.gsoSize
  {
    hide LhsLen;
    if m.tcphLen == 20 && m.tcphLen == item.tcphLen {
      assert p[m.iphLen + 20..m.iphLen + m.tcphLen] == [] == d[m.iphLen + 20..m.iphLen + m.tcphLen];
    }
  }

  /** What is appended continues the last packet. */
  lemma AppendContinues(orig: seq<seq<byte>>, segs: seq<nat>, item: TcpItem, d: seq<byte>, p: seq<byte>, m: TcpMeta)
    requires TcpGroup(orig, segs, item, d) && |d| <= MaxLen(item.key.isV6) && OfFlow(p, m, item)
    requires item.iphLen == m.iphLen && item.iphLen + item.tcphLen <= |d| && item.gsoSize > 0
    requires m.tcphLen >= 20 && m.iphLen + m.tcphLen <= |p| && TcpCanCoalesce(p, m, item, d) == Append
    ensures var h := m.iphLen + m.tcphLen;
      && segs != [] && segs[|segs| - 1] < |orig| && h <= |orig[segs[|segs| - 1]]|
      && Continues(p, orig[segs[|segs| - 1]], m.iphLen, h, item.gsoSize)
  {
    hide *;
    FlowMeta(p, m, item);
    MetaFields(p, m);
    GroupNext(orig, segs, item, d);
    AppendConditions(p, m, item, d);
    TcpAppendFacts(orig, segs, item, d, p, m);
    ContinuesFrom(p, orig[segs[|segs| - 1]], m.iphLen, m.iphLen + m.tcphLen, item.gsoSize);
  }

  /** Where the packet behind a full group starts. */
  lemma GroupNext(orig: seq<seq<byte>>, segs: seq<nat>, item: TcpItem, d: seq<byte>)
    requires TcpGroup(orig, segs, item, d)
    ensures var t, h, n := item.iphLen, item.iphLen + item.tcphLen, |segs|;
      && n > 0 && segs[n - 1] < |orig| && h < |orig[segs[n - 1]]| && item.tcphLen >= 20
      && (item.pshSet <==> orig[segs[n - 1]][t + 13] != ACK)
      && (Get32(orig[segs[n - 1]], t + 4) + item.gsoSize) % 0x1_0000_0000
           == (item.sentSeq + n * item.gsoSize) % 0x1_0000_0000
  {
    hide TcpGroup;
    hide Get32;
    GroupLast(orig, segs, item, d);
    MemberFields(orig, segs, item, d, 0);
    NextSequence(item.sentSeq, |segs|, item.gsoSize);
  }

  lemma FlowMeta(p: seq<byte>, m: TcpMeta, item: TcpItem)
    requires OfFlow(p, m, item)
    ensures Plausible(p, m.isV6, PROTO_TCP) && TcpMetaOf(p, m.isV6) == Some(m)
  {
  }

  lemma ContinuesFrom(p: seq<byte>, last: seq<byte>, t: nat, h: nat, gso: nat)
    requires t + 20 <= h <= |p| && h <= |last| && last[t + 13] == ACK && |last| - h == gso && |p| - h <= gso
    requires Get32(p, t + 4) == (Get32(last, t + 4) + gso) % 0x1_0000_0000
    ensures Continues(p, last, t, h, gso)
  {
  }

  /** What continues the last packet meets the conditions for an append. */
  lemma ContinuesAppends(orig: seq<seq<byte>>, segs: seq<nat>, item: TcpItem, d: seq<byte>, p: seq<byte>, m: TcpMeta)
    requires TcpGroup(orig, segs, item, d) && |d| <= MaxLen(item.key.isV6) && OfFlow(p, m, item)
    requires item.iphLen == m.iphLen && m.tcphLen == item.tcphLen >= 20 && m.iphLen + m.tcphLen <= |p|
    requires segs != [] && segs[|segs| - 1] < |orig| && m.iphLen + m.tcphLen <= |orig[segs[|segs| - 1]]|
    requires Continues(p, orig[segs[|segs| - 1]], m.iphLen, m.iphLen + m.tcphLen, item.gsoSize) && item.gsoSize > 0
    ensures m.seqNum == (item.sentSeq + LhsLen(item)) % 0x1_0000_0000
    ensures !item.pshSet && (|d| - m.iphLen - m.tcphLen) % item.gsoSize == 0 && m.gsoSize <= item.gsoSize
  {
    hide TcpMetaOf;
    hide LhsLen;
    hide TcpGroup;
    hide Get32;
    MetaFields(p, m);
    GroupLast(orig, segs, item, d);
    FullGroup(orig, segs, item, d);
    NextSequence(item.sentSeq, |segs|, item.gsoSize);
  }

  /**
  A packet is appended if and only if it has the flow's header lengths, options and service, and
  continues the last packet of the group, which is full and has no PSH.
  */
  lemma AppendExact(orig: seq<seq<byte>>, segs: seq<nat>, item: TcpItem, d: seq<byte>, p: seq<byte>, m: TcpMeta)
    requires TcpGroup(orig, segs, item, d) && |d| <= MaxLen(item.key.isV6) && OfFlow(p, m, item)
    requires item.iphLen == m.iphLen && item.iphLen + item.tcphLen <= |d| && item.gsoSize > 0
    requires m.tcphLen >= 20 && m.iphLen + m.tcphLen <= |p|
    ensures var h := m.iphLen + m.tcphLen;
      TcpCanCoalesce(p, m, item, d) == Append <==>
        && m.tcphLen == item.tcphLen && SameService(p, d, m.isV6) && p[m.iphLen + 20..h] == d[m.iphLen + 20..h]
        && segs != [] && segs[|segs| - 1] < |orig| && h <= |orig[segs[|segs| - 1]]|
        && Continues(p, orig[segs[|segs| - 1]], m.iphLen, h, item.gsoSize)
  {
    hide TcpMetaOf;
    hide TcpCanCoalesce;
    hide LhsLen;
    hide SameService;
    hide TcpGroup;
    hide Continues;
    MetaFields(p, m);
    GroupLast(orig, segs, item, d);
    CanAppendIff(p, m, item, d);
    if TcpCanCoalesce(p, m, item, d) == Append {
      AppendContinues(orig, segs, item, d, p, m);
    } else if m.tcphLen == item.tcphLen
              && Continues(p, orig[segs[|segs| - 1]], m.iphLen, m.iphLen + m.tcphLen, item.gsoSize) {
      ContinuesAppends(orig, segs, item, d, p, m);
    }
  }

  lemma NextSequence(first: u32, n: nat, gso: nat)
    requires n > 0
    ensures ((first + (n - 1) * gso) % 0x1_0000_0000 + gso) % 0x1_0000_0000 == (first + n * gso) % 0x1_0000_0000
  {
    OneMore(n - 1, gso, n);
  }

  lemma CanPrependIff(p: seq<byte>, m: TcpMeta, item: TcpItem, d: seq<byte>)
    requires m.iphLen + m.tcphLen <= |p| && m.iphLen == item.iphLen && item.iphLen + item.tcphLen <= |d|
    requires item.gsoSize > 0 && m.tcphLen >= 20 && m.iphLen == IphLen(m.isV6) && p[0] / 0x10 == Ver(m.isV6)
    requires m.gsoSize > 0
    ensures TcpCanCoalesce(p, m, item, d) == Prepend <==>
      && m.tcphLen == item.tcphLen && SameService(p, d, m.isV6)
      && p[m.iphLen + 20..m.iphLen + m.tcphLen] == d[m.iphLen + 20..m.iphLen + m.tcphLen]
      && (m.seqNum + m.gsoSize) % 0x1_0000_0000 == item.sentSeq
      && !m.pshSet && (m.gsoSize == item.gsoSize || (m.gsoSize > item.gsoSize && item.numMerged == 0))
  {
    hide LhsLen;
    NotBoth(m.seqNum, m.gsoSize, item.sentSeq, LhsLen(item));
    if m.tcphLen == 20 && m.tcphLen == item.tcphLen {
      assert p[m.iphLen + 20..m.iphLen + m.tcphLen] == [] == d[m.iphLen + 20..m.iphLen + m.tcphLen];
    }
  }

  /** A packet cannot be in front of an item and behind it. */
  lemma NotBoth(seqNum: u32, gso: u16, sent: u32, lhs: u16)
    requires gso > 0
    ensures !(seqNum == (sent + lhs) % 0x1_0000_0000 && (seqNum + gso) % 0x1_0000_0000 == sent)
  {
  }

  /**
  A packet is prepended if and only if it has the flow's header lengths, options and service, and
  precedes the group.
  */
  lemma PrependExact(orig: seq<seq<byte>>, segs: seq<nat>, item: TcpItem, d: seq<byte>, p: seq<byte>, m: TcpMeta)
    requires TcpGroup(orig, segs, item, d) && OfFlow(p, m, item)
    requires item.iphLen == m.iphLen && item.iphLen + item.tcphLen <= |d| && item.gsoSize > 0
    requires m.tcphLen >= 20 && m.iphLen + m.tcphLen <= |p|
    ensures var h := m.iphLen + m.tcphLen;
      TcpCanCoalesce(p, m, item, d) == Prepend <==>
        && m.tcphLen == item.tcphLen && SameService(p, d, m.isV6) && p[m.iphLen + 20..h] == d[m.iphLen + 20..h]
        && segs != [] && segs[0] < |orig| && h <= |orig[segs[0]]|
        && Precedes(p, orig[segs[0]], m.iphLen, h, item.gsoSize, |segs|)
  {
    hide TcpMetaOf;
    hide TcpCanCoalesce;
    hide SameService;
    hide TcpGroup;
    GroupLast(orig, segs, item, d);
    GroupCount(orig, segs, item, d);
    MetaFields(p, m);
    CanPrependIff(p, m, item, d);
  }

  lemma GroupCount(orig: seq<seq<byte>>, segs: seq<nat>, item: TcpItem, d: seq<byte>)
    requires TcpGroup(orig, segs, item, d)
    ensures |segs| == item.numMerged + 1
  {
  }

  /** The item takes the packet. */
  predicate Takes(bufs: seq<Pkt>, item: TcpItem, i: nat, m: TcpMeta, off: nat, skip: bool)
    requires ItemFits(bufs, i, m, item, off)
    requires i < |bufs| && off + m.iphLen + m.tcphLen <= |bufs[i].data| && m.tcphLen >= 20
  {
    var target := bufs[item.bufsIndex];
    var can := TcpCanCoalesce(bufs[i].data[off..], m, item, target.data[off..]);
    can != Unavailable && TcpCoalesceCheck(can, bufs[i], m, item, target, off, skip) == Success
  }

  predicate PacketPasses(bufs: seq<Pkt>, i: nat, m: TcpMeta, off: nat, skip: bool)
    requires i < |bufs| && off + m.iphLen + 20 <= |bufs[i].data| && m.iphLen == IphLen(m.isV6)
  {
    skip || ChecksumValid(bufs[i].data[off..], m.iphLen, PROTO_TCP, Ver(m.isV6))
  }

  /** What the scan does with its last item. */
  function Verdict(bufs: seq<Pkt>, item: TcpItem, i: nat, m: TcpMeta, off: nat, skip: bool): CoalesceResult
    requires ItemFits(bufs, i, m, item, off)
    requires i < |bufs| && off + m.iphLen + m.tcphLen <= |bufs[i].data| && m.tcphLen >= 20
  {
    var target := bufs[item.bufsIndex];
    var can := TcpCanCoalesce(bufs[i].data[off..], m, item, target.data[off..]);
    if can == Unavailable then InsufficientCap else TcpCoalesceCheck(can, bufs[i], m, item, target, off, skip)
  }

  lemma VerdictIs(bufs: seq<Pkt>, item: TcpItem, i: nat, m: TcpMeta, off: nat, skip: bool)
    requires ItemFits(bufs, i, m, item, off) && m.iphLen == IphLen(m.isV6)
    requires i < |bufs| && off + m.iphLen + m.tcphLen <= |bufs[i].data| && m.tcphLen >= 20
    ensures Verdict(bufs, item, i, m, off, skip) == Success <==> Takes(bufs, item, i, m, off, skip)
    ensures Verdict(bufs, item, i, m, off, skip) == Success ==> PacketPasses(bufs, i, m, off, skip)
    ensures Verdict(bufs, item, i, m, off, skip) == PktInvalidCSum ==> !PacketPasses(bufs, i, m, off, skip)
  {
    hide TcpCanCoalesce;
    hide ChecksumValid;
  }

  lemma ScanTurn(bufs: seq<Pkt>, items: seq<TcpItem>, n: nat, i: nat, m: TcpMeta, off: nat, skip: bool)
    requires 0 < n <= |items| && ScanOk(bufs, items, i, m, off)
    ensures var item, e := items[n - 1], TcpScan(bufs, items, n, i, m, off, skip).effect;
      var rest := items[..n - 1] + items[n..];
      match Verdict(bufs, item, i, m, off, skip)
      case Success => e.Merged? && e.slot == item.bufsIndex
      case ItemInvalidCSum => e == TcpScan(bufs, rest, n - 1, i, m, off, skip).effect
      case PktInvalidCSum => e == Noop
      case _ => e == TcpScan(bufs, items, n - 1, i, m, off, skip).effect
  {
    hide TcpCanCoalesce;
    hide TcpCoalesceCheck;
    hide TcpMergedData;
    hide MergedBufs;
    hide TcpMergedItem;
  }

  /** The latest of the first `n` items that takes the packet, or -1. */
  function Taker(bufs: seq<Pkt>, items: seq<TcpItem>, n: nat, i: nat, m: TcpMeta, off: nat, skip: bool): (j: int)
    requires n <= |items| && ScanOk(bufs, items, i, m, off)
    ensures -1 <= j < n
    ensures j >= 0 ==> Takes(bufs, items[j], i, m, off, skip)
    ensures forall k :: j < k < n ==> !Takes(bufs, items[k], i, m, off, skip)
  {
    if n == 0 then -1
    else if Takes(bufs, items[n - 1], i, m, off, skip) then n - 1
    else Taker(bufs, items, n - 1, i, m, off, skip)
  }

  lemma {:induction false} TakerRest(bufs: seq<Pkt>, items: seq<TcpItem>, rest: seq<TcpItem>, n: nat, i: nat,
                                     m: TcpMeta, off: nat, skip: bool)
    requires n <= |items| && n <= |rest| && ScanOk(bufs, items, i, m, off) && ScanOk(bufs, rest, i, m, off)
    requires forall j :: 0 <= j < n ==> rest[j] == items[j]
    ensures Taker(bufs, rest, n, i, m, off, skip) == Taker(bufs, items, n, i, m, off, skip)
    decreases n
  {
    hide Takes;
    hide ItemFits;
    if n > 0 {
      TakerRest(bufs, items, rest, n - 1, i, m, off, skip);
    }
  }

  /**
  tcpGRO merges a packet if and only if its checksum passes and an item of its flow takes it; of
  several it is the latest.
  */
  lemma {:induction false} ScanMergesExact(bufs: seq<Pkt>, items: seq<TcpItem>, n: nat, i: nat, m: TcpMeta, off: nat,
                                           skip: bool)
    requires n <= |items| && ScanOk(bufs, items, i, m, off) && m.iphLen == IphLen(m.isV6)
    ensures var e, j := TcpScan(bufs, items, n, i, m, off, skip).effect, Taker(bufs, items, n, i, m, off, skip);
      && (e.Merged? <==> PacketPasses(bufs, i, m, off, skip) && j >= 0)
      && (e.Merged? ==> e.slot == items[j].bufsIndex)
    decreases n
  {
    hide TcpScan;
    hide Takes;
    hide PacketPasses;
    hide Verdict;
    hide ItemFits;
    if n == 0 {
      ScanNothing(bufs, items, i, m, off, skip);
    } else {
      VerdictIs(bufs, items[n - 1], i, m, off, skip);
      ScanTurn(bufs, items, n, i, m, off, skip);
      match Verdict(bufs, items[n - 1], i, m, off, skip) {
        case ItemInvalidCSum =>
          var rest := items[..n - 1] + items[n..];
          ScanMergesExact(bufs, rest, n - 1, i, m, off, skip);
          TakerRest(bufs, items, rest, n - 1, i, m, off, skip);
        case InsufficientCap =>
          ScanMergesExact(bufs, items, n - 1, i, m, off, skip);
        case PSHEnding =>
          ScanMergesExact(bufs, items, n - 1, i, m, off, skip);
        case _ =>
      }
    }
  }

  lemma ScanNothing(bufs: seq<Pkt>, items: seq<TcpItem>, i: nat, m: TcpMeta, off: nat, skip: bool)
    requires ScanOk(bufs, items, i, m, off)
    ensures TcpScan(bufs, items, 0, i, m, off, skip).effect == Insert
  {
  }

  /**
  A datagram can be appended if and only if it has the flow's service and is no longer than the
  last datagram of the group, which is full.
  */
  lemma UdpAppendExact(orig: seq<seq<byte>>, segs: seq<nat>, item: UdpItem, d: seq<byte>, p: seq<byte>, m: UdpMeta)
    requires UdpGroup(orig, segs, item, d) && m.iphLen == item.iphLen && m.key == item.key && item.gsoSize > 0
    requires Plausible(p, m.isV6, PROTO_UDP) && UdpMetaOf(p, m.isV6) == Some(m)
    ensures |d| >= 20 && segs != [] && segs[|segs| - 1] < |orig|
    ensures var h := m.iphLen + UDP_HEADER_LEN;
      UdpCanCoalesce(p, m, item, d) <==>
        SameService(p, d, m.isV6) && |orig[segs[|segs| - 1]]| - h == item.gsoSize && |p| - h <= item.gsoSize
  {
    hide JoinPay;
    hide UdpMembers;
    hide SameHeader;
    hide UdpMetaOf;
    var h, n, gso := m.iphLen + UDP_HEADER_LEN, |segs|, item.gsoSize;
    UdpMetaShape(p, m);
    UdpGroupVersion(orig, segs, item, d);
    JoinLength(orig, segs, h, gso);
    var last := |orig[segs[n - 1]]| - h;
    if (|d| - h) % gso == 0 {
      AppendNumbers(n, gso, last, |d| - h);
    }
    if last == gso {
      OneMore(n - 1, gso, n);
      MultipleMod(n, gso);
    }
  }

  /** A datagram has a checksum, and it is right or not looked at. */
  predicate UdpPasses(p: Pkt, iphLen: nat, isV6: bool, off: nat, skip: bool)
    requires off + iphLen + 8 <= |p.data| && iphLen == IphLen(isV6)
  {
    && Get16(p.data, off + iphLen + 6) != 0
    && (skip || ChecksumValid(p.data[off..], iphLen, PROTO_UDP, Ver(isV6)))
  }

  /**
  udpGRO merges a datagram if and only if the last item of its flow can take it, there is room, and
  the checksums of both pass; that of the item is looked at when nothing has been merged into it.
  */
  lemma UdpMergesExact(bufs: seq<Pkt>, table: UdpTable, i: nat, m: UdpMeta, off: nat, skip: bool)
    requires UdpTableFits(bufs, table, i, m, off) && m.iphLen == IphLen(m.isV6)
    ensures UdpGro(bufs, table, i, m, off, skip).effect.Merged? <==>
      && |bufs| != 1 && m.key in table
      && var item := table[m.key][|table[m.key]| - 1];
        var target := bufs[item.bufsIndex];
        && UdpCanCoalesce(bufs[i].data[off..], m, item, target.data[off..])
        && |target.data| - off + |bufs[i].data| - off - (item.iphLen + UDP_HEADER_LEN) <= target.cap - 2 * off
        && (item.numMerged > 0 || (!item.cSumKnownInvalid && UdpPasses(target, item.iphLen, m.isV6, off, skip)))
        && UdpPasses(bufs[i], m.iphLen, m.isV6, off, skip)
  {
    hide UdpCanCoalesce;
    hide ChecksumValid;
    hide MergedBufs;
    hide Get16;
  }
}
