/**
A group is a run of packets merged into one buffer.  `orig` holds the packets of the batch as they
arrived, `segs` the arrival indices of the packets in the buffer, front to back.
*/
module GroGroup {
  import opened Wrappers
  import opened Bytes
  import opened GsoSpec
  import opened GsoProperties
  import opened GroModel

  /** Payloads of the listed packets, end to end; `h` is the length of their headers. */
  function JoinPay(orig: seq<seq<byte>>, segs: seq<nat>, h: nat): seq<byte>
    requires forall q :: 0 <= q < |segs| ==> segs[q] < |orig| && h <= |orig[segs[q]]|
  {
    if segs == [] then [] else orig[segs[0]][h..] + JoinPay(orig, segs[1..], h)
  }

  ghost predicate Listed(orig: seq<seq<byte>>, segs: seq<nat>, h: nat) {
    forall q :: 0 <= q < |segs| ==> segs[q] < |orig| && h <= |orig[segs[q]]|
  }

  lemma {:induction false} JoinConcat(orig: seq<seq<byte>>, a: seq<nat>, b: seq<nat>, h: nat)
    requires Listed(orig, a, h) && Listed(orig, b, h)
    ensures JoinPay(orig, a + b, h) == JoinPay(orig, a, h) + JoinPay(orig, b, h)
    decreases |a|
  {
    if a == [] {
      assert a + b == b;
    } else {
      assert (a + b)[1..] == a[1..] + b;
      JoinConcat(orig, a[1..], b, h);
    }
  }

  lemma JoinOne(orig: seq<seq<byte>>, i: nat, h: nat)
    requires i < |orig| && h <= |orig[i]|
    ensures JoinPay(orig, [i], h) == orig[i][h..]
  {
    assert [i][1..] == [];
    assert JoinPay(orig, [i], h) == orig[i][h..] + JoinPay(orig, [], h);
  }

  /** All payloads have `gso` bytes, except that the last may be shorter but not empty. */
  ghost predicate Sized(orig: seq<seq<byte>>, segs: seq<nat>, h: nat, gso: nat) {
    && Listed(orig, segs, h)
    && (forall q :: 0 <= q < |segs| ==> 0 < |orig[segs[q]]| - h <= gso)
    && (forall q :: 0 <= q < |segs| - 1 ==> |orig[segs[q]]| - h == gso)
  }

  /** Payload `q` lies between `q` and `q + 1` segment sizes. */
  lemma {:induction false} JoinSlice(orig: seq<seq<byte>>, segs: seq<nat>, h: nat, gso: nat, q: nat)
    requires Sized(orig, segs, h, gso) && q < |segs|
    ensures var j := JoinPay(orig, segs, h);
      && q * gso < |j| && (q < |segs| - 1 ==> (q + 1) * gso <= |j|) && (q == |segs| - 1 ==> |j| <= (q + 1) * gso)
      && j[q * gso..if q < |segs| - 1 then (q + 1) * gso else |j|] == orig[segs[q]][h..]
    decreases |segs|
  {
    JoinCons(orig, segs, h);
    SizedTail(orig, segs, h, gso);
    hide JoinPay;
    hide Sized;
    var j, first, rest := JoinPay(orig, segs, h), orig[segs[0]][h..], JoinPay(orig, segs[1..], h);
    if q > 0 {
      JoinSlice(orig, segs[1..], h, gso, q - 1);
      assert (q - 1) * gso + gso == q * gso && q * gso + gso == (q + 1) * gso;
      var lo: nat := (q - 1) * gso;
      var hi: nat := if q < |segs| - 1 then q * gso else |rest|;
      BehindFirst(first, rest, lo, hi);
    } else if |segs| > 1 {
      JoinSlice(orig, segs[1..], h, gso, 0);
    }
  }

  lemma JoinCons(orig: seq<seq<byte>>, segs: seq<nat>, h: nat)
    requires Listed(orig, segs, h) && segs != []
    ensures JoinPay(orig, segs, h) == orig[segs[0]][h..] + JoinPay(orig, segs[1..], h)
    ensures |segs| == 1 ==> JoinPay(orig, segs[1..], h) == []
  {
  }

  lemma SizedTail(orig: seq<seq<byte>>, segs: seq<nat>, h: nat, gso: nat)
    requires Sized(orig, segs, h, gso) && segs != []
    ensures Listed(orig, segs, h) && Sized(orig, segs[1..], h, gso)
    ensures 0 < |orig[segs[0]][h..]| <= gso && (|segs| > 1 ==> |orig[segs[0]][h..]| == gso)
  {
  }

  lemma BehindFirst(first: seq<byte>, rest: seq<byte>, lo: nat, hi: nat)
    requires lo <= hi <= |rest|
    ensures (first + rest)[lo + |first|..hi + |first|] == rest[lo..hi]
  {
  }

  lemma JoinLength(orig: seq<seq<byte>>, segs: seq<nat>, h: nat, gso: nat)
    requires Sized(orig, segs, h, gso) && segs != []
    ensures |JoinPay(orig, segs, h)| == (|segs| - 1) * gso + (|orig[segs[|segs| - 1]]| - h)
    ensures |segs| <= |JoinPay(orig, segs, h)|
  {
    hide JoinPay;
    var q := |segs| - 1;
    JoinSlice(orig, segs, h, gso, q);
    var j := JoinPay(orig, segs, h);
    assert |j[q * gso..]| == |orig[segs[q]]| - h;
    MulStep(1, gso, if q > 0 then q else 1);
    assert q <= q * gso;
  }

  /** A total that is a multiple of the segment size ends in a full segment. */
  lemma FullLast(k: nat, gso: nat, last: nat)
    requires 0 < last <= gso && (k * gso + last) % gso == 0
    ensures last == gso
  {
    var x := k * gso + last;
    var d := x / gso;
    assert x == d * gso;
    if last < gso {
      assert (d - k) * gso == last;
      if d > k {
        MulStep(1, d - k, gso);
      } else {
        MulStep(d - k, 0, gso);
      }
    }
  }

  /** What all packets of a TCP group have in common with the packet at the front. */
  ghost predicate TcpCompatible(p: seq<byte>, d: seq<byte>, iphLen: nat, h: nat) {
    && iphLen + 20 <= h <= |p| && h <= |d|
    && p[0] / 0x10 == d[0] / 0x10
    && IpHeadersCanCoalesce(p, d)
    && p[iphLen + 20..h] == d[iphLen + 20..h]
  }

  /** Two headers that agree but for the TCP flags. */
  ghost predicate SameHeader(p: seq<byte>, d: seq<byte>, iphLen: nat, h: nat) {
    h <= |p| && h <= |d| && forall k :: 0 <= k < h && k != iphLen + TCP_FLAGS_OFFSET ==> p[k] == d[k]
  }

  /** Packet `q` of a group: of the item's flow, at its place in the sequence space. */
  ghost predicate TcpMember(p: seq<byte>, item: TcpItem, q: nat) {
    && Plausible(p, item.key.isV6, PROTO_TCP) && TcpMetaOf(p, item.key.isV6).Some?
    && var m := TcpMetaOf(p, item.key.isV6).value;
      && m.key == item.key && m.tcphLen == item.tcphLen
      && m.seqNum == (item.sentSeq + q * item.gsoSize) % 0x1_0000_0000
  }

  /**
  The item describes its buffer: the headers of the packet at the front, then the payloads of
  `numMerged + 1` consecutive packets of one flow, cut at multiples of `gsoSize`.
  */
  ghost predicate TcpGroup(orig: seq<seq<byte>>, segs: seq<nat>, item: TcpItem, d: seq<byte>) {
    && item.iphLen == IphLen(item.key.isV6) && item.tcphLen >= 20
    && |segs| == item.numMerged + 1
    && Layout(orig, segs, item.iphLen, item.iphLen + item.tcphLen, item.gsoSize, d)
    && TcpMembers(orig, segs, item, d)
    && FlagsOk(d, item.iphLen) && PshLast(orig, segs, item, d)
    && (item.numMerged == 0 ==> segs == [item.bufsIndex] && d == orig[item.bufsIndex])
  }

  /** The flags of a candidate: ACK, perhaps with PSH. */
  predicate FlagsOk(d: seq<byte>, iphLen: nat) {
    iphLen + TCP_FLAGS_OFFSET < |d| && (d[iphLen + TCP_FLAGS_OFFSET] == ACK || d[iphLen + TCP_FLAGS_OFFSET] == ACK_PSH)
  }

  /** The TCP flags of a packet. */
  function FlagsAt(p: seq<byte>, iphLen: nat): byte {
    if iphLen + TCP_FLAGS_OFFSET < |p| then p[iphLen + TCP_FLAGS_OFFSET] else 0
  }

  /** Only the last packet of a group may have PSH; the item knows whether it does, and the buffer shows no other. */
  ghost predicate PshLast(orig: seq<seq<byte>>, segs: seq<nat>, item: TcpItem, d: seq<byte>) {
    && segs != [] && (forall q :: 0 <= q < |segs| ==> segs[q] < |orig| && FlagsOk(orig[segs[q]], item.iphLen))
    && (forall q :: 0 <= q < |segs| - 1 ==> FlagsAt(orig[segs[q]], item.iphLen) == ACK)
    && (item.pshSet <==> FlagsAt(orig[segs[|segs| - 1]], item.iphLen) == ACK_PSH)
    && (FlagsAt(d, item.iphLen) == ACK_PSH ==> item.pshSet)
  }

  lemma PshAppend(orig: seq<seq<byte>>, segs: seq<nat>, item: TcpItem, d: seq<byte>, i: nat, m: TcpMeta, item': TcpItem,
                  e: seq<byte>)
    requires PshLast(orig, segs, item, d) && !item.pshSet && i < |orig| && FlagsOk(orig[i], item.iphLen)
    requires m.pshSet <==> FlagsAt(orig[i], item.iphLen) == ACK_PSH
    requires item'.pshSet == m.pshSet && item'.iphLen == item.iphLen
    requires FlagsAt(e, item.iphLen) == ACK_PSH ==> m.pshSet || FlagsAt(d, item.iphLen) == ACK_PSH
    ensures PshLast(orig, segs + [i], item', e)
  {
    var segs' := segs + [i];
    assert forall q :: 0 <= q < |segs| ==> segs'[q] == segs[q];
  }

  lemma PshPrepend(orig: seq<seq<byte>>, segs: seq<nat>, item: TcpItem, d: seq<byte>, i: nat, item': TcpItem,
                   e: seq<byte>)
    requires PshLast(orig, segs, item, d) && i < |orig| && FlagsOk(orig[i], item.iphLen)
    requires FlagsAt(orig[i], item.iphLen) == FlagsAt(e, item.iphLen) == ACK
    requires item'.pshSet == item.pshSet && item'.iphLen == item.iphLen
    ensures PshLast(orig, [i] + segs, item', e)
  {
    var segs' := [i] + segs;
    assert forall q :: 0 < q < |segs'| ==> segs'[q] == segs[q - 1];
  }

  /** The flags as the parser takes them. */
  lemma MetaFlags(p: seq<byte>, m: TcpMeta, tail: seq<byte>)
    requires Plausible(p, m.isV6, PROTO_TCP) && TcpMetaOf(p, m.isV6) == Some(m)
    ensures FlagsOk(p, m.iphLen) && FlagsAt(p + tail, m.iphLen) == FlagsAt(p, m.iphLen)
    ensures FlagsAt(p, m.iphLen) == if m.pshSet then ACK_PSH else ACK
  {
  }

  /** Headers of the first packet, then all payloads cut at multiples of `gso`. */
  ghost predicate Layout(orig: seq<seq<byte>>, segs: seq<nat>, iphLen: nat, h: nat, gso: nat, d: seq<byte>) {
    && gso > 0 && segs != []
    && Sized(orig, segs, h, gso) && |orig[segs[0]]| - h == gso
    && SameHeader(orig[segs[0]], d, iphLen, h)
    && d[h..] == JoinPay(orig, segs, h)
  }

  ghost predicate TcpMembers(orig: seq<seq<byte>>, segs: seq<nat>, item: TcpItem, d: seq<byte>) {
    forall q :: 0 <= q < |segs| ==>
      && segs[q] < |orig|
      && TcpMember(orig[segs[q]], item, q)
      && TcpCompatible(orig[segs[q]], d, item.iphLen, item.iphLen + item.tcphLen)
  }

  lemma CompatibleSelf(p: seq<byte>, m: TcpMeta)
    requires Plausible(p, m.isV6, PROTO_TCP) && TcpMetaOf(p, m.isV6) == Some(m)
    ensures TcpCompatible(p, p, m.iphLen, m.iphLen + m.tcphLen)
  {
  }

  /** A packet that enters the table is a group of one. */
  lemma TcpGroupNew(orig: seq<seq<byte>>, i: nat, m: TcpMeta)
    requires i < |orig| <= 0x1_0000 && Plausible(orig[i], m.isV6, PROTO_TCP) && TcpMetaOf(orig[i], m.isV6) == Some(m)
    ensures TcpGroup(orig, [i], NewTcpItem(m, i), orig[i])
  {
    hide TcpMetaOf;
    hide Plausible;
    hide JoinPay;
    hide FlagsAt;
    hide FlagsOk;
    var item := NewTcpItem(m, i);
    MetaShape(orig[i], m);
    MetaFlags(orig[i], m, []);
    assert orig[i] + [] == orig[i];
    CompatibleSelf(orig[i], m);
    JoinOne(orig, i, item.iphLen + item.tcphLen);
  }

  /** Seen from the front packet, an acceptable packet is compatible. */
  lemma AcceptedCompatible(p: seq<byte>, m: TcpMeta, item: TcpItem, d: seq<byte>)
    requires Plausible(p, m.isV6, PROTO_TCP) && TcpMetaOf(p, m.isV6) == Some(m) && m.key == item.key
    requires item.iphLen == m.iphLen && item.tcphLen >= 20 && item.iphLen + item.tcphLen <= |d| && item.gsoSize > 0
    requires d[0] / 0x10 == Ver(m.isV6)
    requires TcpCanCoalesce(p, m, item, d) != Unavailable
    ensures TcpCompatible(p, d, item.iphLen, item.iphLen + item.tcphLen) && m.tcphLen == item.tcphLen
  {
    var h := item.iphLen + item.tcphLen;
    if m.tcphLen == 20 {
      assert p[item.iphLen + 20..h] == [] == d[item.iphLen + 20..h];
    }
  }

  /** Appending: the item is full, its sixteen-bit length is exact, and the packet continues it. */
  lemma TcpAppendFacts(orig: seq<seq<byte>>, segs: seq<nat>, item: TcpItem, d: seq<byte>, p: seq<byte>, m: TcpMeta)
    requires TcpGroup(orig, segs, item, d) && |d| <= MaxLen(item.key.isV6)
    requires m.iphLen + m.tcphLen <= |p| && m.tcphLen >= 20 && m.iphLen == item.iphLen
    requires TcpCanCoalesce(p, m, item, d) == Append
    ensures |orig[segs[|segs| - 1]]| - (item.iphLen + item.tcphLen) == item.gsoSize
    ensures |JoinPay(orig, segs, item.iphLen + item.tcphLen)| == |segs| * item.gsoSize <= MAX_UINT16
    ensures m.seqNum == (item.sentSeq + |segs| * item.gsoSize) % 0x1_0000_0000
    ensures m.gsoSize <= item.gsoSize && |segs| < MAX_UINT16
  {
    hide JoinPay;
    hide TcpCompatible;
    hide TcpMember;
    hide TcpMetaOf;
    hide TcpCanCoalesce;
    hide LhsLen;
    var h := item.iphLen + item.tcphLen;
    AppendConditions(p, m, item, d);
    JoinLength(orig, segs, h, item.gsoSize);
    AppendNumbers(|segs|, item.gsoSize, |orig[segs[|segs| - 1]]| - h, |JoinPay(orig, segs, h)|);
    LhsLenExact(item, |segs|);
  }

  lemma AppendConditions(p: seq<byte>, m: TcpMeta, item: TcpItem, d: seq<byte>)
    requires m.iphLen + m.tcphLen <= |p| && m.iphLen == item.iphLen && item.iphLen + item.tcphLen <= |d|
    requires item.gsoSize > 0 && m.tcphLen >= 20 && TcpCanCoalesce(p, m, item, d) == Append
    ensures m.seqNum == (item.sentSeq + LhsLen(item)) % 0x1_0000_0000 && m.gsoSize <= item.gsoSize && !item.pshSet
    ensures m.tcphLen == item.tcphLen && (|d| - (item.iphLen + item.tcphLen)) % item.gsoSize == 0
  {
  }

  lemma AppendNumbers(n: nat, gso: nat, last: nat, total: nat)
    requires n > 0 && 0 < last <= gso && total == (n - 1) * gso + last && total % gso == 0
    ensures last == gso && total == n * gso
  {
    FullLast(n - 1, gso, last);
    assert (n - 1) * gso + gso == n * gso;
  }

  lemma LhsLenExact(item: TcpItem, n: nat)
    requires n == item.numMerged + 1 && n * item.gsoSize <= MAX_UINT16
    ensures LhsLen(item) == n * item.gsoSize
  {
    OneMore(item.numMerged, item.gsoSize, n);
    SmallSum(item.gsoSize, item.numMerged * item.gsoSize);
  }

  lemma OneMore(k: nat, g: nat, n: nat)
    requires n == k + 1
    ensures n * g == k * g + g && k * g >= 0
  {
  }

  /** A sum that fits sixteen bits is not changed by truncating it. */
  lemma SmallSum(g: nat, x: nat)
    requires x + g <= MAX_UINT16
    ensures (g + x % 0x1_0000) % 0x1_0000 == x + g
  {
  }

  /** Compatibility does not look at the flags, nor at anything behind the headers. */
  lemma CompatibleFrame(p: seq<byte>, d: seq<byte>, e: seq<byte>, iphLen: nat, h: nat)
    requires TcpCompatible(p, d, iphLen, h) && SameHeader(d, e, iphLen, h)
    ensures TcpCompatible(p, e, iphLen, h)
  {
    assert e[iphLen + 20..h] == d[iphLen + 20..h];
  }

  /** Two packets compatible with a third are compatible with each other. */
  lemma CompatibleTrans(p: seq<byte>, q: seq<byte>, d: seq<byte>, iphLen: nat, h: nat)
    requires TcpCompatible(p, d, iphLen, h) && TcpCompatible(q, d, iphLen, h)
    ensures TcpCompatible(p, q, iphLen, h)
  {
  }

  /** The buffer after an append: possibly a flag more in the headers, then one more payload. */
  lemma AppendedData(d: seq<byte>, p: seq<byte>, iphLen: nat, h: nat, psh: bool)
    requires (psh ==> iphLen + 20 <= h) && h <= |d| && h <= |p|
    ensures var e := (if psh then SetPsh(d, iphLen + TCP_FLAGS_OFFSET) else d) + p[h..];
      SameHeader(d, e, iphLen, h) && e[h..] == d[h..] + p[h..]
  {
  }

  lemma SizedAppend(orig: seq<seq<byte>>, segs: seq<nat>, i: nat, h: nat, gso: nat)
    requires Sized(orig, segs, h, gso) && segs != [] && |orig[segs[|segs| - 1]]| - h == gso
    requires i < |orig| && 0 < |orig[i]| - h <= gso
    ensures Sized(orig, segs + [i], h, gso)
  {
  }

  lemma SizedPrepend(orig: seq<seq<byte>>, segs: seq<nat>, i: nat, h: nat, was: nat, gso: nat)
    requires Sized(orig, segs, h, was) && i < |orig| && |orig[i]| - h == gso > 0
    requires was == gso || (was < gso && |segs| == 1)
    ensures Sized(orig, [i] + segs, h, gso)
  {
    var s := [i] + segs;
    assert forall q :: 0 < q < |s| ==> s[q] == segs[q - 1];
  }

  lemma LayoutAppend(orig: seq<seq<byte>>, segs: seq<nat>, iphLen: nat, h: nat, gso: nat, d: seq<byte>, i: nat,
                     psh: bool)
    requires Layout(orig, segs, iphLen, h, gso, d) && (psh ==> iphLen + 20 <= h) && |orig[segs[|segs| - 1]]| - h == gso
    requires i < |orig| && 0 < |orig[i]| - h <= gso
    ensures var e := (if psh then SetPsh(d, iphLen + TCP_FLAGS_OFFSET) else d) + orig[i][h..];
      SameHeader(d, e, iphLen, h) && Layout(orig, segs + [i], iphLen, h, gso, e)
  {
    hide JoinPay;
    hide SetPsh;
    AppendedData(d, orig[i], iphLen, h, psh);
    SizedAppend(orig, segs, i, h, gso);
    JoinConcat(orig, segs, [i], h);
    JoinOne(orig, i, h);
  }

  lemma TcpMembersAppend(orig: seq<seq<byte>>, segs: seq<nat>, item: TcpItem, d: seq<byte>, i: nat, m: TcpMeta,
                         item': TcpItem, e: seq<byte>)
    requires TcpMembers(orig, segs, item, d) && i < |orig|
    requires Plausible(orig[i], m.isV6, PROTO_TCP) && TcpMetaOf(orig[i], m.isV6) == Some(m) && m.key == item.key
    requires m.isV6 == item.key.isV6 && m.tcphLen == item.tcphLen
    requires m.seqNum == (item.sentSeq + |segs| * item.gsoSize) % 0x1_0000_0000
    requires item' == item.(pshSet := item'.pshSet, numMerged := item'.numMerged)
    requires TcpCompatible(orig[i], d, item.iphLen, item.iphLen + item.tcphLen)
    requires SameHeader(d, e, item.iphLen, item.iphLen + item.tcphLen)
    ensures TcpMembers(orig, segs + [i], item', e)
  {
    hide TcpCompatible;
    hide TcpMember;
    hide TcpMetaOf;
    hide SameHeader;
    var h, segs' := item.iphLen + item.tcphLen, segs + [i];
    forall q | 0 <= q < |segs'|
      ensures segs'[q] < |orig| && TcpMember(orig[segs'[q]], item', q)
        && TcpCompatible(orig[segs'[q]], e, item.iphLen, h)
    {
      if q < |segs| {
        CompatibleFrame(orig[segs[q]], d, e, item.iphLen, h);
        MemberSame(orig[segs[q]], item, item', q, q);
      } else {
        CompatibleFrame(orig[i], d, e, item.iphLen, h);
        MemberNew(orig[i], m, item', q);
      }
    }
  }

  lemma TcpGroupAppend(orig: seq<seq<byte>>, segs: seq<nat>, item: TcpItem, d: seq<byte>, i: nat, m: TcpMeta)
    requires TcpGroup(orig, segs, item, d) && |d| <= MaxLen(item.key.isV6) && i < |orig|
    requires Plausible(orig[i], m.isV6, PROTO_TCP) && TcpMetaOf(orig[i], m.isV6) == Some(m) && m.key == item.key
    requires item.iphLen == m.iphLen && item.iphLen + item.tcphLen <= |d| && item.gsoSize > 0
    requires m.tcphLen >= 20 && m.iphLen + m.tcphLen <= |orig[i]|
    requires TcpCanCoalesce(orig[i], m, item, d) == Append
    ensures var h := item.iphLen + item.tcphLen;
      && h <= |orig[i]|
      && var e := (if m.pshSet then SetPsh(d, item.iphLen + TCP_FLAGS_OFFSET) else d) + orig[i][h..];
      TcpGroup(orig, segs + [i], TcpMergedItem(Append, m, item), e)
  {
    hide FlagsOk;
    hide FlagsAt;
    hide PshLast;
    hide Layout;
    hide TcpMembers;
    hide SetPsh;
    hide TcpCanCoalesce;
    hide TcpMetaOf;
    hide TcpCompatible;
    var h := item.iphLen + item.tcphLen;
    MetaShape(orig[i], m);
    GroupKeyVersion(orig, segs, item, d);
    AcceptedCompatible(orig[i], m, item, d);
    TcpAppendFacts(orig, segs, item, d, orig[i], m);
    LayoutAppend(orig, segs, item.iphLen, h, item.gsoSize, d, i, m.pshSet);
    var e := (if m.pshSet then SetPsh(d, item.iphLen + TCP_FLAGS_OFFSET) else d) + orig[i][h..];
    TcpMembersAppend(orig, segs, item, d, i, m, TcpMergedItem(Append, m, item), e);
    FlagsAppend(d, orig[i][h..], item.iphLen, m.pshSet);
    MetaFlags(orig[i], m, []);
    AppendConditions(orig[i], m, item, d);
    PshAppend(orig, segs, item, d, i, m, TcpMergedItem(Append, m, item), e);
  }

  lemma FlagsAppend(d: seq<byte>, tail: seq<byte>, iphLen: nat, psh: bool)
    requires FlagsOk(d, iphLen)
    ensures var e := (if psh then SetPsh(d, iphLen + TCP_FLAGS_OFFSET) else d) + tail;
      FlagsOk(e, iphLen) && (FlagsAt(e, iphLen) == ACK_PSH ==> psh || FlagsAt(d, iphLen) == ACK_PSH)
  {
  }

  lemma FlagsMeta(p: seq<byte>, m: TcpMeta, tail: seq<byte>)
    requires Plausible(p, m.isV6, PROTO_TCP) && TcpMetaOf(p, m.isV6) == Some(m)
    ensures FlagsOk(p + tail, m.iphLen)
  {
  }

  lemma MetaShape(p: seq<byte>, m: TcpMeta)
    requires Plausible(p, m.isV6, PROTO_TCP) && TcpMetaOf(p, m.isV6) == Some(m)
    ensures m.iphLen == IphLen(m.isV6) && m.tcphLen >= 20 && m.iphLen + m.tcphLen + m.gsoSize == |p| && m.gsoSize > 0
    ensures m.key.isV6 == m.isV6 && |p| <= MAX_UINT16
  {
  }

  lemma MemberSame(p: seq<byte>, item: TcpItem, item': TcpItem, q: nat, q': nat)
    requires TcpMember(p, item, q) && item.key == item'.key && item.tcphLen == item'.tcphLen
    requires (item.sentSeq + q * item.gsoSize) % 0x1_0000_0000 == (item'.sentSeq + q' * item'.gsoSize) % 0x1_0000_0000
    ensures TcpMember(p, item', q')
  {
  }

  lemma MemberNew(p: seq<byte>, m: TcpMeta, item: TcpItem, q: nat)
    requires Plausible(p, m.isV6, PROTO_TCP) && TcpMetaOf(p, m.isV6) == Some(m)
    requires m.key == item.key && m.isV6 == item.key.isV6 && m.tcphLen == item.tcphLen
    requires m.seqNum == (item.sentSeq + q * item.gsoSize) % 0x1_0000_0000
    ensures TcpMember(p, item, q)
  {
  }

  /** The front of a group shows the family of its flow. */
  lemma GroupKeyVersion(orig: seq<seq<byte>>, segs: seq<nat>, item: TcpItem, d: seq<byte>)
    requires TcpGroup(orig, segs, item, d)
    ensures item.iphLen + item.tcphLen <= |d| && d[0] / 0x10 == Ver(item.key.isV6)
  {
    assert TcpMember(orig[segs[0]], item, 0);
  }

  lemma PrependConditions(p: seq<byte>, m: TcpMeta, item: TcpItem, d: seq<byte>)
    requires m.iphLen + m.tcphLen <= |p| && m.iphLen == item.iphLen && item.iphLen + item.tcphLen <= |d|
    requires item.gsoSize > 0 && m.tcphLen >= 20 && TcpCanCoalesce(p, m, item, d) == Prepend
    ensures (m.seqNum + m.gsoSize) % 0x1_0000_0000 == item.sentSeq && !m.pshSet
    ensures m.gsoSize == item.gsoSize || (m.gsoSize > item.gsoSize && item.numMerged == 0)
  {
  }

  /** Sequence numbers counted from the prepended packet. */
  lemma PrependSequence(first: u32, gso: u16, was: u16, sent: u32, q: nat)
    requires (first + gso) % 0x1_0000_0000 == sent && (q == 0 || was == gso)
    ensures (sent + q * was) % 0x1_0000_0000 == (first + (q + 1) * gso) % 0x1_0000_0000
  {
    assert (q + 1) * gso == q * gso + gso;
  }

  lemma LayoutPrepend(orig: seq<seq<byte>>, segs: seq<nat>, iphLen: nat, h: nat, was: nat, gso: nat, d: seq<byte>,
                      i: nat)
    requires Layout(orig, segs, iphLen, h, was, d) && i < |orig| && |orig[i]| - h == gso > 0
    requires was == gso || (was < gso && |segs| == 1)
    ensures SameHeader(orig[i], orig[i] + d[h..], iphLen, h)
      && Layout(orig, [i] + segs, iphLen, h, gso, orig[i] + d[h..])
  {
    hide JoinPay;
    SizedPrepend(orig, segs, i, h, was, gso);
    JoinConcat(orig, [i], segs, h);
    JoinOne(orig, i, h);
    assert (orig[i] + d[h..])[h..] == orig[i][h..] + d[h..];
  }

  /** A member moves up by one place behind a prepended packet. */
  lemma MemberBehind(p: seq<byte>, first: seq<byte>, item: TcpItem, d: seq<byte>, m: TcpMeta, item': TcpItem,
                     e: seq<byte>, q: nat)
    requires TcpMember(p, item, q) && TcpCompatible(p, d, item.iphLen, item.iphLen + item.tcphLen)
    requires (m.seqNum + m.gsoSize) % 0x1_0000_0000 == item.sentSeq && (m.gsoSize == item.gsoSize || q == 0)
    requires item' == item.(sentSeq := m.seqNum, gsoSize := m.gsoSize, numMerged := item'.numMerged)
    requires TcpCompatible(first, d, item.iphLen, item.iphLen + item.tcphLen)
    requires SameHeader(first, e, item.iphLen, item.iphLen + item.tcphLen)
    ensures TcpMember(p, item', q + 1) && TcpCompatible(p, e, item.iphLen, item.iphLen + item.tcphLen)
  {
    hide *;
    var h := item.iphLen + item.tcphLen;
    CompatibleTrans(p, first, d, item.iphLen, h);
    CompatibleFrame(p, first, e, item.iphLen, h);
    PrependSequence(m.seqNum, m.gsoSize, item.gsoSize, item.sentSeq, q);
    MemberSame(p, item, item', q, q + 1);
  }

  lemma TcpMembersPrepend(orig: seq<seq<byte>>, segs: seq<nat>, item: TcpItem, d: seq<byte>, i: nat, m: TcpMeta,
                          item': TcpItem, e: seq<byte>)
    requires TcpMembers(orig, segs, item, d) && i < |orig|
    requires Plausible(orig[i], m.isV6, PROTO_TCP) && TcpMetaOf(orig[i], m.isV6) == Some(m) && m.key == item.key
    requires m.isV6 == item.key.isV6 && m.tcphLen == item.tcphLen
    requires (m.seqNum + m.gsoSize) % 0x1_0000_0000 == item.sentSeq && (m.gsoSize == item.gsoSize || |segs| == 1)
    requires item' == item.(sentSeq := m.seqNum, gsoSize := m.gsoSize, numMerged := item'.numMerged)
    requires TcpCompatible(orig[i], d, item.iphLen, item.iphLen + item.tcphLen)
    requires SameHeader(orig[i], e, item.iphLen, item.iphLen + item.tcphLen)
    ensures TcpMembers(orig, [i] + segs, item', e)
  {
    hide TcpCompatible;
    hide TcpMember;
    hide TcpMetaOf;
    hide SameHeader;
    var h, segs' := item.iphLen + item.tcphLen, [i] + segs;
    forall q | 0 <= q < |segs'|
      ensures segs'[q] < |orig| && TcpMember(orig[segs'[q]], item', q)
        && TcpCompatible(orig[segs'[q]], e, item.iphLen, h)
    {
      if q > 0 {
        assert segs'[q] == segs[q - 1];
        MemberBehind(orig[segs[q - 1]], orig[i], item, d, m, item', e, q - 1);
      } else {
        CompatibleTrans(orig[i], orig[i], d, item.iphLen, h);
        CompatibleFrame(orig[i], orig[i], e, item.iphLen, h);
        MemberNew(orig[i], m, item', q);
      }
    }
  }

  lemma TcpGroupPrepend(orig: seq<seq<byte>>, segs: seq<nat>, item: TcpItem, d: seq<byte>, i: nat, m: TcpMeta)
    requires TcpGroup(orig, segs, item, d) && i < |orig| && |segs| < MAX_UINT16
    requires Plausible(orig[i], m.isV6, PROTO_TCP) && TcpMetaOf(orig[i], m.isV6) == Some(m) && m.key == item.key
    requires item.iphLen == m.iphLen && item.iphLen + item.tcphLen <= |d| && item.gsoSize > 0
    requires m.tcphLen >= 20 && m.iphLen + m.tcphLen <= |orig[i]|
    requires TcpCanCoalesce(orig[i], m, item, d) == Prepend
    ensures var h := item.iphLen + item.tcphLen;
      TcpGroup(orig, [i] + segs, TcpMergedItem(Prepend, m, item), orig[i] + d[h..])
  {
    hide FlagsOk;
    hide FlagsAt;
    hide PshLast;
    hide Layout;
    hide TcpMembers;
    hide TcpCanCoalesce;
    hide TcpMetaOf;
    hide TcpCompatible;
    var h := item.iphLen + item.tcphLen;
    MetaShape(orig[i], m);
    GroupKeyVersion(orig, segs, item, d);
    PrependConditions(orig[i], m, item, d);
    AcceptedCompatible(orig[i], m, item, d);
    LayoutPrepend(orig, segs, item.iphLen, h, item.gsoSize, m.gsoSize, d, i);
    TcpMembersPrepend(orig, segs, item, d, i, m, TcpMergedItem(Prepend, m, item), orig[i] + d[h..]);
    FlagsMeta(orig[i], m, d[h..]);
    MetaFlags(orig[i], m, d[h..]);
    PshPrepend(orig, segs, item, d, i, TcpMergedItem(Prepend, m, item), orig[i] + d[h..]);
  }

  // UDP groups

  ghost predicate UdpMember(p: seq<byte>, item: UdpItem) {
    && Plausible(p, item.key.isV6, PROTO_UDP) && UdpMetaOf(p, item.key.isV6).Some?
    && UdpMetaOf(p, item.key.isV6).value.key == item.key
  }

  ghost predicate UdpCompatible(p: seq<byte>, d: seq<byte>) {
    |p| >= 9 && |d| >= 9 && p[0] / 0x10 == d[0] / 0x10 && IpHeadersCanCoalesce(p, d)
  }

  ghost predicate UdpMembers(orig: seq<seq<byte>>, segs: seq<nat>, item: UdpItem, d: seq<byte>) {
    forall q :: 0 <= q < |segs| ==>
      segs[q] < |orig| && UdpMember(orig[segs[q]], item) && UdpCompatible(orig[segs[q]], d)
  }

  ghost predicate Increasing(s: seq<nat>) {
    forall a, b :: 0 <= a < b < |s| ==> s[a] < s[b]
  }

  /** A UDP item describes its buffer; its datagrams stand in arrival order, the first in its own slot. */
  ghost predicate UdpGroup(orig: seq<seq<byte>>, segs: seq<nat>, item: UdpItem, d: seq<byte>) {
    && item.iphLen == IphLen(item.key.isV6)
    && |segs| == item.numMerged + 1
    && Layout(orig, segs, item.iphLen, item.iphLen + UDP_HEADER_LEN, item.gsoSize, d)
    && UdpMembers(orig, segs, item, d)
    && segs[0] == item.bufsIndex && Increasing(segs)
    && (item.numMerged == 0 ==> d == orig[item.bufsIndex])
  }

  lemma UdpMetaShape(p: seq<byte>, m: UdpMeta)
    requires Plausible(p, m.isV6, PROTO_UDP) && UdpMetaOf(p, m.isV6) == Some(m)
    ensures m.iphLen == IphLen(m.isV6) && m.iphLen + UDP_HEADER_LEN + m.gsoSize == |p| && m.gsoSize > 0
    ensures m.key.isV6 == m.isV6 && |p| <= MAX_UINT16
  {
  }

  lemma UdpGroupNew(orig: seq<seq<byte>>, i: nat, m: UdpMeta, bad: bool)
    requires i < |orig| <= 0x1_0000 && Plausible(orig[i], m.isV6, PROTO_UDP) && UdpMetaOf(orig[i], m.isV6) == Some(m)
    ensures UdpGroup(orig, [i], NewUdpItem(m, i, bad), orig[i])
  {
    UdpMetaShape(orig[i], m);
    JoinOne(orig, i, m.iphLen + UDP_HEADER_LEN);
  }

  lemma UdpGroupVersion(orig: seq<seq<byte>>, segs: seq<nat>, item: UdpItem, d: seq<byte>)
    requires UdpGroup(orig, segs, item, d)
    ensures item.iphLen + UDP_HEADER_LEN <= |d| && d[0] / 0x10 == Ver(item.key.isV6) && item.gsoSize > 0
  {
    assert UdpMember(orig[segs[0]], item);
  }

  lemma UdpMembersAppend(orig: seq<seq<byte>>, segs: seq<nat>, item: UdpItem, d: seq<byte>, i: nat, item': UdpItem,
                         e: seq<byte>)
    requires UdpMembers(orig, segs, item, d) && i < |orig| && UdpMember(orig[i], item) && UdpCompatible(orig[i], d)
    requires item'.key == item.key && |e| >= |d| >= 9 && e[..9] == d[..9]
    ensures UdpMembers(orig, segs + [i], item', e)
  {
    hide UdpMetaOf;
    hide Plausible;
    assert forall k :: 0 <= k < 9 ==> e[k] == e[..9][k] && d[k] == d[..9][k];
  }

  lemma UdpGroupAppend(orig: seq<seq<byte>>, segs: seq<nat>, item: UdpItem, d: seq<byte>, i: nat, m: UdpMeta)
    requires UdpGroup(orig, segs, item, d) && |d| <= MaxLen(item.key.isV6) && i < |orig| && segs[|segs| - 1] < i
    requires Plausible(orig[i], m.isV6, PROTO_UDP) && UdpMetaOf(orig[i], m.isV6) == Some(m) && m.key == item.key
    requires item.gsoSize > 0 && UdpCanCoalesce(orig[i], m, item, d)
    ensures item.iphLen + UDP_HEADER_LEN <= |orig[i]|
    ensures UdpGroup(orig, segs + [i], item.(numMerged := (item.numMerged + 1) % 0x1_0000),
                     d + orig[i][item.iphLen + UDP_HEADER_LEN..])
  {
    hide UdpMembers;
    hide UdpMetaOf;
    hide JoinPay;
    hide IpHeadersCanCoalesce;
    var h := item.iphLen + UDP_HEADER_LEN;
    UdpMetaShape(orig[i], m);
    UdpGroupVersion(orig, segs, item, d);
    JoinLength(orig, segs, h, item.gsoSize);
    AppendNumbers(|segs|, item.gsoSize, |orig[segs[|segs| - 1]]| - h, |JoinPay(orig, segs, h)|);
    LayoutAppend(orig, segs, item.iphLen, h, item.gsoSize, d, i, false);
    var e, item' := d + orig[i][h..], item.(numMerged := (item.numMerged + 1) % 0x1_0000);
    assert e[..9] == d[..9];
    UdpMembersAppend(orig, segs, item, d, i, item', e);
  }
}
