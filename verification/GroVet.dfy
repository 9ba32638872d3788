/**
What is merged was fit to be merged: of an enabled protocol, with a checksum, and a right one if
checksums are validated.
*/
module GroVet {
  import opened Wrappers
  import opened Bytes
  import opened GsoSpec
  import opened GsoProperties
  import opened GroModel
  import opened GroGroup
  import opened GroInvariant
  import opened GroSteps
  import opened GroRun
  import opened GroUdp
  import opened GroTrack
  import opened GroAccept

  predicate VettedTcp(p: seq<byte>, isV6: bool, cfg: Config) {
    && cfg.canTCP && Plausible(p, isV6, PROTO_TCP)
    && (cfg.skip || ChecksumValid(p, IphLen(isV6), PROTO_TCP, Ver(isV6)))
  }

  predicate VettedUdp(p: seq<byte>, isV6: bool, cfg: Config) {
    && cfg.canUDP && Plausible(p, isV6, PROTO_UDP) && Get16(p, IphLen(isV6) + 6) != 0
    && (cfg.skip || ChecksumValid(p, IphLen(isV6), PROTO_UDP, Ver(isV6)))
  }

  predicate Vetted(p: seq<byte>, cfg: Config) {
    VettedTcp(p, false, cfg) || VettedTcp(p, true, cfg) || VettedUdp(p, false, cfg) || VettedUdp(p, true, cfg)
  }

  /** Every packet that shares a slot with another was vetted. */
  ghost predicate Vouched(orig: seq<seq<byte>>, segs: Slots, cfg: Config) {
    forall k, q {:trigger segs[k][q]} :: k in segs && |segs[k]| > 1 && 0 <= q < |segs[k]| ==>
      segs[k][q] < |orig| && Vetted(orig[segs[k][q]], cfg)
  }

  /** A merge of vetted packets. */
  lemma VouchedMerge(orig: seq<seq<byte>>, segs: Slots, i: nat, k: nat, front: bool, cfg: Config)
    requires Vouched(orig, segs, cfg) && k in segs && i < |orig| && Vetted(orig[i], cfg)
    requires |segs[k]| == 1 ==> segs[k][0] < |orig| && Vetted(orig[segs[k][0]], cfg)
    ensures Vouched(orig, NextSegs(segs, i, Merged(k, front)), cfg)
  {
    hide Vetted;
    var segs' := NextSegs(segs, i, Merged(k, front));
    forall x, q | x in segs' && |segs'[x]| > 1 && 0 <= q < |segs'[x]|
      ensures segs'[x][q] < |orig| && Vetted(orig[segs'[x][q]], cfg)
    {
      if x == k {
        var at := if front then q - 1 else q;
        if 0 <= at < |segs[k]| {
          assert segs'[k][q] == segs[k][at];
        } else {
          assert segs'[k][q] == i;
        }
      } else {
        assert segs'[x][q] == segs[x][q];
      }
    }
  }

  lemma VouchedAlone(orig: seq<seq<byte>>, segs: Slots, i: nat, effect: Effect, cfg: Config)
    requires Vouched(orig, segs, cfg) && !effect.Merged?
    ensures Vouched(orig, NextSegs(segs, i, effect), cfg)
  {
    hide Vetted;
    var segs' := segs[i := [i]];
    forall x, q | x in segs' && |segs'[x]| > 1 && 0 <= q < |segs'[x]|
      ensures segs'[x][q] < |orig| && Vetted(orig[segs'[x][q]], cfg)
    {
      assert segs'[x][q] == segs[x][q];
    }
  }

  /** Where a scan merges, an item of the flow let the packet pass the checks. */
  lemma ScanChecks(bufs: seq<Pkt>, items: seq<TcpItem>, i: nat, m: TcpMeta, off: nat, skip: bool)
    requires ScanOk(bufs, items, i, m, off) && m.iphLen == IphLen(m.isV6)
    ensures var e := TcpScan(bufs, items, |items|, i, m, off, skip).effect;
      e.Merged? ==> exists j ::
        0 <= j < |items| && items[j].bufsIndex == e.slot && ItemPasses(bufs, items[j], i, m, off, skip)
  {
    hide TcpScan;
    hide Takes;
    hide ItemPasses;
    hide PacketPasses;
    hide ItemFits;
    ScanMergesExact(bufs, items, |items|, i, m, off, skip);
    var j := Taker(bufs, items, |items|, i, m, off, skip);
    if j >= 0 {
      TakenPasses(bufs, items[j], i, m, off, skip);
    }
  }

  lemma TakenPasses(bufs: seq<Pkt>, item: TcpItem, i: nat, m: TcpMeta, off: nat, skip: bool)
    requires ItemFits(bufs, i, m, item, off) && m.iphLen == IphLen(m.isV6)
    requires i < |bufs| && off + m.iphLen + m.tcphLen <= |bufs[i].data| && m.tcphLen >= 20
    requires Takes(bufs, item, i, m, off, skip)
    ensures ItemPasses(bufs, item, i, m, off, skip)
  {
    hide TcpCanCoalesce;
    hide ChecksumValid;
  }

  predicate ItemPasses(bufs: seq<Pkt>, item: TcpItem, i: nat, m: TcpMeta, off: nat, skip: bool)
    requires ItemFits(bufs, i, m, item, off) && i < |bufs| && off + m.iphLen + 20 <= |bufs[i].data|
  {
    ChecksPass(bufs[i], m, item, bufs[item.bufsIndex], off, skip)
  }

  /** The packet an unmerged item describes, and the one merged into it, are vetted. */
  lemma TcpMergeVetted(orig: seq<seq<byte>>, bufs: seq<Pkt>, segs: Slots, item: TcpItem, i: nat, m: TcpMeta,
                       cfg: Config)
    requires TcpItemOk(orig, bufs, segs, item, cfg.off) && ItemFits(bufs, i, m, item, cfg.off) && item.key == m.key
    requires i < |orig| == |bufs| && cfg.off + m.iphLen + 20 <= |bufs[i].data| && bufs[i].data[cfg.off..] == orig[i]
    requires Plausible(orig[i], m.isV6, PROTO_TCP) && m.key.isV6 == m.isV6 && cfg.canTCP
    requires ItemPasses(bufs, item, i, m, cfg.off, cfg.skip)
    ensures var k := item.bufsIndex;
      && k in segs && Vetted(orig[i], cfg)
      && (|segs[k]| == 1 ==> segs[k][0] < |orig| && Vetted(orig[segs[k][0]], cfg))
  {
    hide ChecksumValid;
    hide TcpMetaOf;
    hide Layout;
    hide PshLast;
    var k := item.bufsIndex;
    assert VettedTcp(orig[i], m.isV6, cfg);
    if |segs[k]| == 1 {
      assert TcpMember(orig[segs[k][0]], item, 0);
      assert VettedTcp(orig[segs[k][0]], m.isV6, cfg);
    }
  }

  lemma TcpVouched(orig: seq<seq<byte>>, st: GroState, segs: Slots, i: nat, m: TcpMeta, cfg: Config)
    requires TcpTableOk(orig, st.bufs, segs, st.tcp, cfg.off) && Vouched(orig, segs, cfg)
    requires i < |orig| == |st.bufs| && cfg.off <= |st.bufs[i].data| && st.bufs[i].data[cfg.off..] == orig[i]
    requires Plausible(orig[i], m.isV6, PROTO_TCP) && TcpMetaOf(orig[i], m.isV6) == Some(m) && cfg.canTCP
    requires m.key in st.tcp && ScanOk(st.bufs, st.tcp[m.key], i, m, cfg.off)
    ensures var e := TcpScan(st.bufs, st.tcp[m.key], |st.tcp[m.key]|, i, m, cfg.off, cfg.skip).effect;
      Vouched(orig, NextSegs(segs, i, e), cfg)
  {
    hide TcpScan;
    hide TcpMetaOf;
    hide Plausible;
    hide TcpItemOk;
    hide Vouched;
    hide ItemPasses;
    hide Vetted;
    var items := st.tcp[m.key];
    var e := TcpScan(st.bufs, items, |items|, i, m, cfg.off, cfg.skip).effect;
    MetaShape(orig[i], m);
    if e.Merged? {
      ScanChecks(st.bufs, items, i, m, cfg.off, cfg.skip);
      var j :| 0 <= j < |items| && items[j].bufsIndex == e.slot
        && ItemPasses(st.bufs, items[j], i, m, cfg.off, cfg.skip);
      assert TcpFlowOk(orig, st.bufs, segs, m.key, items, cfg.off);
      TcpMergeVetted(orig, st.bufs, segs, items[j], i, m, cfg);
      VouchedMerge(orig, segs, i, e.slot, e.front, cfg);
    } else {
      VouchedAlone(orig, segs, i, e, cfg);
    }
  }

  lemma UdpVouched(orig: seq<seq<byte>>, st: GroState, segs: Slots, i: nat, m: UdpMeta, cfg: Config)
    requires UdpTableOk(orig, st.bufs, segs, st.udp, cfg.off) && Vouched(orig, segs, cfg)
    requires i < |orig| == |st.bufs| && cfg.off <= |st.bufs[i].data| && st.bufs[i].data[cfg.off..] == orig[i]
    requires Plausible(orig[i], m.isV6, PROTO_UDP) && UdpMetaOf(orig[i], m.isV6) == Some(m) && cfg.canUDP
    requires UdpTableFits(st.bufs, st.udp, i, m, cfg.off) && m.iphLen == IphLen(m.isV6) && m.key.isV6 == m.isV6
    ensures Vouched(orig, NextSegs(segs, i, UdpGro(st.bufs, st.udp, i, m, cfg.off, cfg.skip).effect), cfg)
  {
    hide UdpMetaOf;
    hide Plausible;
    hide UdpItemOk;
    hide Vouched;
    hide Vetted;
    hide UdpGro;
    hide UdpCanCoalesce;
    hide UdpCoalesceCheck;
    var off := cfg.off;
    var e := UdpGro(st.bufs, st.udp, i, m, off, cfg.skip).effect;
    if e.Merged? {
      UdpMergedFrom(st.bufs, st.udp, i, m, off, cfg.skip);
      var items := st.udp[m.key];
      var item := items[|items| - 1];
      assert UdpFlowOk(orig, st.bufs, segs, m.key, items, off);
      UdpMergeVetted(orig, st.bufs, segs, item, i, m, cfg);
      VouchedMerge(orig, segs, i, item.bufsIndex, false, cfg);
    } else {
      VouchedAlone(orig, segs, i, e, cfg);
    }
  }

  lemma UdpMergedFrom(bufs: seq<Pkt>, table: UdpTable, i: nat, m: UdpMeta, off: nat, skip: bool)
    requires UdpTableFits(bufs, table, i, m, off) && UdpGro(bufs, table, i, m, off, skip).effect.Merged?
    ensures m.key in table
    ensures var item := table[m.key][|table[m.key]| - 1];
      && UdpGro(bufs, table, i, m, off, skip).effect == Merged(item.bufsIndex, false)
      && UdpCoalesceCheck(bufs[i], m, item, bufs[item.bufsIndex], off, skip) == Success
  {
    hide UdpCanCoalesce;
    hide UdpCoalesceCheck;
    hide MergedBufs;
  }

  lemma UdpMergeVetted(orig: seq<seq<byte>>, bufs: seq<Pkt>, segs: Slots, item: UdpItem, i: nat, m: UdpMeta,
                       cfg: Config)
    requires UdpItemOk(orig, bufs, segs, item, cfg.off) && UdpItemFits(bufs, i, m, item, cfg.off) && item.key == m.key
    requires i < |orig| == |bufs| && cfg.off + m.iphLen + 8 <= |bufs[i].data| && bufs[i].data[cfg.off..] == orig[i]
    requires Plausible(orig[i], m.isV6, PROTO_UDP) && m.key.isV6 == m.isV6 && cfg.canUDP
    requires UdpCoalesceCheck(bufs[i], m, item, bufs[item.bufsIndex], cfg.off, cfg.skip) == Success
    ensures var k := item.bufsIndex;
      && k in segs && Vetted(orig[i], cfg)
      && (|segs[k]| == 1 ==> segs[k][0] < |orig| && Vetted(orig[segs[k][0]], cfg))
  {
    hide ChecksumValid;
    hide UdpMetaOf;
    hide Layout;
    var k := item.bufsIndex;
    assert VettedUdp(orig[i], m.isV6, cfg);
    if |segs[k]| == 1 {
      assert UdpMember(orig[segs[k][0]], item);
      assert VettedUdp(orig[segs[k][0]], m.isV6, cfg);
    }
  }

  /** Candidates are of an enabled protocol. */
  lemma EntryEnabled(p: seq<byte>, cfg: Config, batch: nat)
    ensures EntryOf(p, cfg, batch).TcpEntry? ==> cfg.canTCP
    ensures EntryOf(p, cfg, batch).UdpEntry? ==> cfg.canUDP
  {
    hide TcpMetaOf;
    hide UdpMetaOf;
  }

  /** Every turn of handleGRO merges only what was vetted. */
  lemma VouchedStep(orig: seq<seq<byte>>, st: GroState, segs: Slots, i: nat, cfg: Config)
    requires Inv(orig, st, segs, i, cfg) && i < |orig| && Ready(st, i, cfg) && Vouched(orig, segs, cfg)
    ensures StepOk(st, i, cfg)
    ensures Vouched(orig, NextSegs(segs, i, EffectOf(st, i, cfg)), cfg)
  {
    StepKeeps(orig, st, segs, i, cfg);
    CoreNow(orig, st, segs, i, cfg);
    EntryBatch(orig[i], cfg, |orig|);
    EntryEnabled(orig[i], cfg, |orig|);
    InvTables(orig, st, segs, i, cfg);
    hide Inv;
    hide EntryOf;
    hide TcpMetaOf;
    hide UdpMetaOf;
    hide TcpScan;
    hide UdpGro;
    hide TcpTableOk;
    hide UdpTableOk;
    hide Vouched;
    match EntryOf(orig[i], cfg, |orig|) {
      case NoEntry =>
        VouchedAlone(orig, segs, i, Noop, cfg);
      case TcpEntry(m) =>
        if m.key in st.tcp {
          TcpVouched(orig, st, segs, i, m, cfg);
        } else {
          VouchedAlone(orig, segs, i, Insert, cfg);
        }
      case UdpEntry(m) =>
        UdpMetaShape(orig[i], m);
        UdpVouched(orig, st, segs, i, m, cfg);
    }
  }

  lemma InvTables(orig: seq<seq<byte>>, st: GroState, segs: Slots, i: nat, cfg: Config)
    requires Inv(orig, st, segs, i, cfg)
    ensures TcpTableOk(orig, st.bufs, segs, st.tcp, cfg.off) && UdpTableOk(orig, st.bufs, segs, st.udp, cfg.off)
    ensures |st.bufs| == |orig| <= 0x1_0000
  {
  }

  /** A datagram that would pass the checks of a merge. */
  predicate Sound(p: seq<byte>, isV6: bool, skip: bool) {
    && |p| >= IphLen(isV6) + 8 && Get16(p, IphLen(isV6) + 6) != 0
    && (skip || ChecksumValid(p, IphLen(isV6), PROTO_UDP, Ver(isV6)))
  }

  /** Only items whose datagram fails the checks are marked as known to be invalid. */
  ghost predicate Honest(orig: seq<seq<byte>>, udp: UdpTable, cfg: Config) {
    forall key, j :: key in udp && 0 <= j < |udp[key]| ==> HonestItem(orig, udp[key][j], cfg)
  }

  ghost predicate HonestItem(orig: seq<seq<byte>>, item: UdpItem, cfg: Config) {
    item.cSumKnownInvalid ==> item.bufsIndex < |orig| && !Sound(orig[item.bufsIndex], item.key.isV6, cfg.skip)
  }

  /** Every datagram is marked rightly. */
  lemma HonestGro(orig: seq<seq<byte>>, bufs: seq<Pkt>, udp: UdpTable, i: nat, m: UdpMeta, cfg: Config)
    requires Honest(orig, udp, cfg) && UdpTableFits(bufs, udp, i, m, cfg.off) && i < |orig| <= 0x1_0000
    requires bufs[i].data[cfg.off..] == orig[i] && m.iphLen == IphLen(m.isV6) && m.key.isV6 == m.isV6
    ensures Honest(orig, UdpGro(bufs, udp, i, m, cfg.off, cfg.skip).table, cfg)
  {
    hide UdpCanCoalesce;
    hide ChecksumValid;
    hide MergedBufs;
    var table := UdpGro(bufs, udp, i, m, cfg.off, cfg.skip).table;
    forall key, j | key in table && 0 <= j < |table[key]| ensures HonestItem(orig, table[key][j], cfg) {
      if key in udp && j < |udp[key]| {
        assert HonestItem(orig, udp[key][j], cfg);
      }
    }
  }

  lemma HonestStep(orig: seq<seq<byte>>, st: GroState, segs: Slots, i: nat, cfg: Config)
    requires Inv(orig, st, segs, i, cfg) && i < |orig| && Ready(st, i, cfg) && Honest(orig, st.udp, cfg)
    ensures StepOk(st, i, cfg)
    ensures Honest(orig, Step(st, i, cfg).udp, cfg)
  {
    hide *;
    StepKeeps(orig, st, segs, i, cfg);
    CoreNow(orig, st, segs, i, cfg);
    InvTables(orig, st, segs, i, cfg);
    var e := EntryOf(orig[i], cfg, |orig|);
    StepTables(st, i, cfg, e);
    if e.UdpEntry? {
      UdpMetaShape(orig[i], e.udp);
      HonestGro(orig, st.bufs, st.udp, i, e.udp, cfg);
    }
  }

  /**
  In a run, a datagram is merged if and only if the last item of its flow can take it, there is
  room, it passes the checks, and so does the datagram of that item if it is still alone.
  */
  lemma UdpMergesInRun(orig: seq<seq<byte>>, st: GroState, segs: Slots, i: nat, m: UdpMeta, cfg: Config)
    requires UdpTableOk(orig, st.bufs, segs, st.udp, cfg.off) && Honest(orig, st.udp, cfg)
    requires UdpTableFits(st.bufs, st.udp, i, m, cfg.off) && i < |orig| == |st.bufs| && |orig| != 1
    requires st.bufs[i].data[cfg.off..] == orig[i] && m.iphLen == IphLen(m.isV6) && m.key.isV6 == m.isV6
    ensures UdpGro(st.bufs, st.udp, i, m, cfg.off, cfg.skip).effect.Merged? <==>
      && m.key in st.udp
      && var item := st.udp[m.key][|st.udp[m.key]| - 1];
        var k, target := item.bufsIndex, st.bufs[item.bufsIndex];
        && UdpCanCoalesce(orig[i], m, item, target.data[cfg.off..])
        && |target.data| + |st.bufs[i].data| - (item.iphLen + UDP_HEADER_LEN) <= target.cap
        && k in segs && (|segs[k]| == 1 ==> k < |orig| && Sound(orig[k], m.isV6, cfg.skip))
        && Sound(orig[i], m.isV6, cfg.skip)
  {
    hide UdpCanCoalesce;
    hide ChecksumValid;
    hide Layout;
    hide UdpMembers;
    hide UdpGro;
    UdpMergesExact(st.bufs, st.udp, i, m, cfg.off, cfg.skip);
    if m.key in st.udp {
      var items := st.udp[m.key];
      var item := items[|items| - 1];
      assert UdpFlowOk(orig, st.bufs, segs, m.key, items, cfg.off);
      assert UdpItemOk(orig, st.bufs, segs, item, cfg.off) && HonestItem(orig, item, cfg);
      SoundIs(st.bufs[i], m.iphLen, m.isV6, cfg.off, cfg.skip);
      SoundIs(st.bufs[item.bufsIndex], m.iphLen, m.isV6, cfg.off, cfg.skip);
    }
  }

  lemma SoundIs(p: Pkt, iphLen: nat, isV6: bool, off: nat, skip: bool)
    requires off + iphLen + 8 <= |p.data| && iphLen == IphLen(isV6)
    ensures UdpPasses(p, iphLen, isV6, off, skip) <==> Sound(p.data[off..], isV6, skip)
  {
    hide ChecksumValid;
  }
}
