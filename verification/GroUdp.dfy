/** The UDP step keeps the invariant: datagrams of a flow stay in arrival order. */
module GroUdp {
  import opened Wrappers
  import opened Bytes
  import opened GsoSpec
  import opened GsoProperties
  import opened Virtio
  import opened GroModel
  import opened GroGroup
  import opened GroInvariant
  import opened GroSteps
  import opened GroRun

  lemma UdpFits(orig: seq<seq<byte>>, st: GroState, segs: Slots, i: nat, m: UdpMeta, cfg: Config)
    requires Inv(orig, st, segs, i, cfg) && i < |orig| && Ready(st, i, cfg)
      && EntryOf(orig[i], cfg, |orig|) == UdpEntry(m)
    ensures UdpTableFits(st.bufs, st.udp, i, m, cfg.off) && st.bufs[i].data[cfg.off..] == orig[i]
  {
    hide EntryOf;
    hide UdpMetaOf;
    hide TcpTableOk;
    hide UdpOrdered;
    hide Partition;
    hide SlotsOk;
    hide UdpGroup;
    UdpMetaShape(orig[i], m);
    if m.key in st.udp {
      var items := st.udp[m.key];
      assert UdpFlowOk(orig, st.bufs, segs, m.key, items, cfg.off);
      UdpItemFitsFlow(orig, st.bufs, segs, items[|items| - 1], i, m, cfg.off);
    }
  }

  lemma UdpItemFitsFlow(orig: seq<seq<byte>>, bufs: seq<Pkt>, segs: Slots, item: UdpItem, i: nat, m: UdpMeta, off: nat)
    requires UdpItemOk(orig, bufs, segs, item, off) && i !in segs && item.key == m.key
    requires m.iphLen == IphLen(m.isV6) && m.key.isV6 == m.isV6
    ensures UdpItemFits(bufs, i, m, item, off)
  {
    hide UdpMembers;
    UdpGroupVersion(orig, segs[item.bufsIndex], item, bufs[item.bufsIndex].data[off..]);
  }

  lemma UdpTableReplace(orig: seq<seq<byte>>, bufs: seq<Pkt>, segs: Slots, bufs': seq<Pkt>, segs': Slots,
                        table: UdpTable, key: UdpKey, items: seq<UdpItem>, except: set<nat>, off: nat)
    requires UdpTableOk(orig, bufs, segs, table, off) && Agree(bufs, segs, bufs', segs', except)
    requires forall k :: k in except ==> UdpSlot(orig, segs, k, key)
    requires UdpFlowOk(orig, bufs', segs', key, items, off)
    ensures UdpTableOk(orig, bufs', segs', table[key := items], off)
  {
    hide UdpFlowOk;
    hide UdpSlot;
    hide Agree;
    var others := table - {key};
    forall k, other | k in except && other in others ensures !UdpSlot(orig, segs, k, other) {
      SlotFlowUnique(orig, segs, k);
    }
    UdpTableFrame(orig, bufs, segs, bufs', segs', others, except, off);
    var table' := table[key := items];
    forall x | x in table' ensures UdpFlowOk(orig, bufs', segs', x, table'[x], off) {
      if x != key {
        assert x in others && others[x] == table'[x];
      }
    }
  }

  lemma UdpFlowInsert(orig: seq<seq<byte>>, bufs: seq<Pkt>, segs: Slots, items: seq<UdpItem>, i: nat, m: UdpMeta,
                      bad: bool, off: nat)
    requires Core(orig, bufs, segs, i, off) && i < |bufs| && off <= |bufs[i].data|
    requires items == [] || UdpFlowOk(orig, bufs, segs, m.key, items, off)
    requires Plausible(orig[i], m.isV6, PROTO_UDP) && UdpMetaOf(orig[i], m.isV6) == Some(m)
    ensures UdpFlowOk(orig, bufs, segs[i := [i]], m.key, items + [NewUdpItem(m, i, bad)], off)
  {
    hide UdpGroup;
    hide UdpMetaOf;
    hide Partition;
    hide SlotsOk;
    var segs' := segs[i := [i]];
    UdpGroupNew(orig, i, m, bad);
    if items != [] {
      UdpFlowFrame(orig, bufs, segs, bufs, segs', m.key, items, {}, off);
    }
    assert UdpItemOk(orig, bufs, segs', NewUdpItem(m, i, bad), off);
    assert forall j :: 0 <= j < |items| ==> items[j].bufsIndex in segs;
  }

  lemma UdpFlowMerged(orig: seq<seq<byte>>, bufs: seq<Pkt>, segs: Slots, bufs': seq<Pkt>, segs': Slots,
                      key: UdpKey, items: seq<UdpItem>, j: nat, item': UdpItem, off: nat)
    requires UdpFlowOk(orig, bufs, segs, key, items, off) && j < |items|
    requires item'.bufsIndex == items[j].bufsIndex && item'.key == key
    requires Agree(bufs, segs, bufs', segs', {items[j].bufsIndex}) && UdpItemOk(orig, bufs', segs', item', off)
    ensures UdpFlowOk(orig, bufs', segs', key, items[j := item'], off)
  {
    hide UdpGroup;
    var items' := items[j := item'];
    forall x | 0 <= x < |items'| ensures items'[x].key == key && UdpItemOk(orig, bufs', segs', items'[x], off) {
      if x != j {
        assert items'[x] == items[x] && items[x].bufsIndex != items[j].bufsIndex;
        assert UdpItemOk(orig, bufs, segs, items[x], off);
      }
    }
  }

  /** The datagram enters its own flow at the end and no other flow. */
  lemma OrderedEntry(orig: seq<seq<byte>>, bufs: seq<Pkt>, udp: UdpTable, segs: Slots, udp': UdpTable, segs': Slots,
                     i: nat, m: UdpMeta, cfg: Config, items': seq<UdpItem>, except: set<nat>)
    requires i < |orig| && UdpTableOk(orig, bufs, segs, udp, cfg.off) && UdpOrdered(orig, udp, segs, i, cfg)
    requires EntryOf(orig[i], cfg, |orig|) == UdpEntry(m)
    requires udp' == udp[m.key := items']
    requires forall k :: k in segs && k !in except ==> k in segs' && segs'[k] == segs[k]
    requires forall k :: k in except ==> UdpSlot(orig, segs, k, m.key)
    requires Flatten(items', segs') == (if m.key in udp then Flatten(udp[m.key], segs) else []) + [i]
    ensures UdpOrdered(orig, udp', segs', i + 1, cfg)
  {
    hide UdpFlowOk;
    hide UdpSlot;
    hide EntryOf;
    hide Flatten;
    forall key ensures Arrivals(orig, i + 1, key, cfg) == if key in udp' then Flatten(udp'[key], segs') else [] {
      assert Arrivals(orig, i, key, cfg) == if key in udp then Flatten(udp[key], segs) else [];
      if key != m.key && key in udp {
        forall k | k in except ensures !UdpSlot(orig, segs, k, key) {
          SlotFlowUnique(orig, segs, k);
        }
        OrderedFrame(orig, bufs, udp, segs, segs', key, except, cfg.off);
      }
    }
  }

  lemma FlattenInsert(orig: seq<seq<byte>>, bufs: seq<Pkt>, segs: Slots, key: UdpKey, items: seq<UdpItem>,
                      item: UdpItem, i: nat, off: nat)
    requires items == [] || UdpFlowOk(orig, bufs, segs, key, items, off)
    requires i !in segs && item.bufsIndex == i
    ensures Flatten(items + [item], segs[i := [i]]) == Flatten(items, segs) + [i]
  {
    hide UdpGroup;
    var s := items + [item];
    assert s[..|s| - 1] == items;
    FlattenFrame(items, segs, segs[i := [i]]);
  }

  lemma FlattenMerged(orig: seq<seq<byte>>, bufs: seq<Pkt>, segs: Slots, key: UdpKey, items: seq<UdpItem>,
                      item': UdpItem, i: nat, off: nat)
    requires UdpFlowOk(orig, bufs, segs, key, items, off)
    requires item'.bufsIndex == items[|items| - 1].bufsIndex
    ensures var k := item'.bufsIndex;
      k in segs && Flatten(items[|items| - 1 := item'], segs[k := segs[k] + [i]]) == Flatten(items, segs) + [i]
  {
    hide UdpGroup;
    var n, k := |items| - 1, item'.bufsIndex;
    var s := items[n := item'];
    assert UdpItemOk(orig, bufs, segs, items[n], off);
    assert s[..n] == items[..n];
    forall j | 0 <= j < n ensures items[..n][j].bufsIndex in segs && items[..n][j].bufsIndex != k {
      assert UdpItemOk(orig, bufs, segs, items[j], off);
    }
    FlattenFrame(items[..n], segs, segs[k := segs[k] + [i]]);
  }

  /** A new item at the end of the flow. */
  lemma UdpInsertKeeps(orig: seq<seq<byte>>, st: GroState, segs: Slots, i: nat, m: UdpMeta, cfg: Config, bad: bool)
    requires Inv(orig, st, segs, i, cfg) && i < |orig| && Ready(st, i, cfg)
      && EntryOf(orig[i], cfg, |orig|) == UdpEntry(m)
    ensures var items := if m.key in st.udp then st.udp[m.key] else [];
      Inv(orig, st.(udp := st.udp[m.key := items + [NewUdpItem(m, i, bad)]], toWrite := st.toWrite + [i]),
          segs[i := [i]], i + 1, cfg)
  {
    hide EntryOf;
    hide UdpMetaOf;
    hide UdpOrdered;
    hide Partition;
    hide SlotsOk;
    hide UdpFlowOk;
    hide TcpTableOk;
    hide ToWriteOk;
    hide Flatten;
    var items: seq<UdpItem> := if m.key in st.udp then st.udp[m.key] else [];
    var items', segs' := items + [NewUdpItem(m, i, bad)], segs[i := [i]];
    CorePlain(orig, st.bufs, st.bufs, segs, i, cfg.off);
    TcpTableFrame(orig, st.bufs, segs, st.bufs, segs', st.tcp, {}, cfg.off);
    UdpFlowInsert(orig, st.bufs, segs, items, i, m, bad, cfg.off);
    UdpTableReplace(orig, st.bufs, segs, st.bufs, segs', st.udp, m.key, items', {}, cfg.off);
    FlattenInsert(orig, st.bufs, segs, m.key, items, NewUdpItem(m, i, bad), i, cfg.off);
    FlattenEmpty(segs);
    OrderedEntry(orig, st.bufs, st.udp, segs, st.udp[m.key := items'], segs', i, m, cfg, items', {});
    ToWriteStep(st.toWrite, segs, i);
  }

  lemma FlattenEmpty(segs: Slots)
    ensures Flatten([], segs) == []
  {
  }

  /** What a merge leaves, spelled out. */
  lemma UdpMergeIs(bufs: seq<Pkt>, udp: UdpTable, i: nat, m: UdpMeta, off: nat, skip: bool)
    requires UdpTableFits(bufs, udp, i, m, off) && m.key in udp && |bufs| != 1
    requires UdpGro(bufs, udp, i, m, off, skip).effect.Merged?
    ensures var last := |udp[m.key]| - 1;
      var item := udp[m.key][last];
      && UdpCanCoalesce(bufs[i].data[off..], m, item, bufs[item.bufsIndex].data[off..])
      && UdpCoalesceCheck(bufs[i], m, item, bufs[item.bufsIndex], off, skip) == Success
      && UdpGro(bufs, udp, i, m, off, skip) == UdpStep(
           MergedBufs(bufs, i, item.bufsIndex, false,
             bufs[item.bufsIndex].data + bufs[i].data[off + item.iphLen + 8..]),
           udp[m.key := udp[m.key][last := UdpMergedItem(item)]], Merged(item.bufsIndex, false))
  {
    hide UdpCanCoalesce;
    hide UdpCoalesceCheck;
    hide MergedBufs;
  }

  function UdpMergedItem(item: UdpItem): UdpItem {
    item.(numMerged := (item.numMerged + 1) % 0x1_0000)
  }

  /** The buffers after the merge carry the datagram, in a slot its item describes. */
  lemma UdpMergedCore(orig: seq<seq<byte>>, bufs: seq<Pkt>, segs: Slots, item: UdpItem, i: nat, m: UdpMeta, cfg: Config)
    requires Core(orig, bufs, segs, i, cfg.off) && i < |orig| && cfg.off <= |bufs[i].data|
    requires UdpItemOk(orig, bufs, segs, item, cfg.off) && UdpItemFits(bufs, i, m, item, cfg.off)
    requires Plausible(orig[i], m.isV6, PROTO_UDP) && UdpMetaOf(orig[i], m.isV6) == Some(m) && m.key == item.key
    requires cfg.off + m.iphLen + 8 <= |bufs[i].data|
    requires UdpCanCoalesce(bufs[i].data[cfg.off..], m, item, bufs[item.bufsIndex].data[cfg.off..])
    requires UdpCoalesceCheck(bufs[i], m, item, bufs[item.bufsIndex], cfg.off, cfg.skip) == Success
    ensures var k, segs' := item.bufsIndex, NextSegs(segs, i, Merged(item.bufsIndex, false));
      var bufs' := MergedBufs(bufs, i, k, false, bufs[k].data + bufs[i].data[cfg.off + item.iphLen + 8..]);
      && segs' == segs[k := segs[k] + [i]]
      && Core(orig, bufs', segs', i + 1, cfg.off) && Agree(bufs, segs, bufs', segs', {k})
      && UdpItemOk(orig, bufs', segs', UdpMergedItem(item), cfg.off)
  {
    hide UdpMetaOf;
    hide UdpGroup;
    hide UdpCanCoalesce;
    hide UdpCoalesceCheck;
    hide MergedBufs;
    hide Partition;
    hide SlotsOk;
    hide SlotOk;
    hide Agree;
    hide Bounded;
    var off, k := cfg.off, item.bufsIndex;
    var data := bufs[k].data + bufs[i].data[off + item.iphLen + 8..];
    UdpMergedGroup(orig, bufs, segs, item, i, m, cfg);
    UdpSlotOk(orig, segs[k] + [i], UdpMergedItem(item), data[off..]);
    CoreMerged(orig, bufs, segs, i, k, false, data, off);
    MergedSlotIs(bufs, i, k, data);
  }

  /** The datagram appended to the last item of the flow. */
  lemma UdpMergeKeeps(orig: seq<seq<byte>>, st: GroState, segs: Slots, i: nat, m: UdpMeta, cfg: Config)
    requires Inv(orig, st, segs, i, cfg) && i < |orig| && Ready(st, i, cfg)
    requires EntryOf(orig[i], cfg, |orig|) == UdpEntry(m)
    requires UdpTableFits(st.bufs, st.udp, i, m, cfg.off) && m.key in st.udp && |st.bufs| != 1
    requires UdpGro(st.bufs, st.udp, i, m, cfg.off, cfg.skip).effect.Merged?
    ensures var r := UdpGro(st.bufs, st.udp, i, m, cfg.off, cfg.skip);
      Inv(orig, st.(bufs := r.bufs, udp := r.table), NextSegs(segs, i, r.effect), i + 1, cfg)
  {
    hide EntryOf;
    hide UdpMetaOf;
    hide Plausible;
    hide UdpOrdered;
    hide Core;
    hide TcpTableOk;
    hide ToWriteOk;
    hide Flatten;
    hide UdpItemOk;
    hide UdpGro;
    hide UdpCanCoalesce;
    hide UdpCoalesceCheck;
    hide MergedBufs;
    hide UdpSlot;
    var off, items := cfg.off, st.udp[m.key];
    var last := |items| - 1;
    var item := items[last];
    var k, item' := item.bufsIndex, UdpMergedItem(item);
    UdpMergeIs(st.bufs, st.udp, i, m, off, cfg.skip);
    assert UdpFlowOk(orig, st.bufs, segs, m.key, items, off);
    UdpMergedCore(orig, st.bufs, segs, item, i, m, cfg);
    var data := st.bufs[k].data + st.bufs[i].data[off + item.iphLen + 8..];
    var segs', bufs' := NextSegs(segs, i, Merged(k, false)), MergedBufs(st.bufs, i, k, false, data);
    UdpTablesKept(orig, st, segs, bufs', segs', m.key, item', off);
    FlattenMerged(orig, st.bufs, segs, m.key, items, item', i, off);
    UdpItemSlot(orig, st.bufs, segs, item, off);
    OrderedEntry(orig, st.bufs, st.udp, segs, st.udp[m.key := items[last := item']], segs', i, m, cfg,
                 items[last := item'], {k});
    ToWriteSame(st.toWrite, segs, segs');
  }

  lemma MergedSlotIs(bufs: seq<Pkt>, i: nat, k: nat, data: seq<byte>)
    requires i < |bufs| && k < |bufs| && i != k
    ensures MergedBufs(bufs, i, k, false, data)[k] == Pkt(data, bufs[k].cap)
  {
  }

  /** Both tables describe the buffers after a datagram was appended to the last item of a flow. */
  lemma UdpTablesKept(orig: seq<seq<byte>>, st: GroState, segs: Slots, bufs': seq<Pkt>, segs': Slots, key: UdpKey,
                      item': UdpItem, off: nat)
    requires UdpTableOk(orig, st.bufs, segs, st.udp, off) && TcpTableOk(orig, st.bufs, segs, st.tcp, off)
    requires key in st.udp && st.udp[key] != []
    requires var last := st.udp[key][|st.udp[key]| - 1]; item'.bufsIndex == last.bufsIndex && item'.key == key
    requires Agree(st.bufs, segs, bufs', segs', {item'.bufsIndex}) && UdpItemOk(orig, bufs', segs', item', off)
    ensures UdpTableOk(orig, bufs', segs', st.udp[key := st.udp[key][|st.udp[key]| - 1 := item']], off)
    ensures TcpTableOk(orig, bufs', segs', st.tcp, off)
  {
    hide UdpGroup;
    hide UdpSlot;
    hide TcpSlot;
    hide Agree;
    hide TcpTableOk;
    var items, k := st.udp[key], item'.bufsIndex;
    var last := |items| - 1;
    assert UdpFlowOk(orig, st.bufs, segs, key, items, off);
    UdpItemSlot(orig, st.bufs, segs, items[last], off);
    UdpFlowMerged(orig, st.bufs, segs, bufs', segs', key, items, last, item', off);
    UdpTableReplace(orig, st.bufs, segs, bufs', segs', st.udp, key, items[last := item'], {k}, off);
    forall other ensures !TcpSlot(orig, segs, k, other) {
      SlotFlowUnique(orig, segs, k);
    }
    TcpTableFrame(orig, st.bufs, segs, bufs', segs', st.tcp, {k}, off);
  }

  lemma ToWriteSame(toWrite: seq<nat>, segs: Slots, segs': Slots)
    requires ToWriteOk(toWrite, segs) && segs'.Keys == segs.Keys
    ensures ToWriteOk(toWrite, segs')
  {
  }

  lemma UdpSlotOk(orig: seq<seq<byte>>, segs: seq<nat>, item: UdpItem, d: seq<byte>)
    requires UdpGroup(orig, segs, item, d) && |d| <= MaxLen(item.key.isV6)
    ensures SlotOk(orig, segs, d)
  {
    UdpGroupVersion(orig, segs, item, d);
    hide UdpMembers;
    assert Layout(orig, segs, item.iphLen, item.iphLen + UDP_HEADER_LEN, item.gsoSize, d);
  }

  lemma UdpMergedGroup(orig: seq<seq<byte>>, bufs: seq<Pkt>, segs: Slots, item: UdpItem, i: nat, m: UdpMeta,
                       cfg: Config)
    requires Core(orig, bufs, segs, i, cfg.off) && i < |orig| && cfg.off <= |bufs[i].data|
      && UdpItemOk(orig, bufs, segs, item, cfg.off)
    requires Plausible(orig[i], m.isV6, PROTO_UDP) && UdpMetaOf(orig[i], m.isV6) == Some(m) && m.key == item.key
    requires UdpItemFits(bufs, i, m, item, cfg.off) && cfg.off + m.iphLen + 8 <= |bufs[i].data|
    requires UdpCanCoalesce(bufs[i].data[cfg.off..], m, item, bufs[item.bufsIndex].data[cfg.off..])
    requires UdpCoalesceCheck(bufs[i], m, item, bufs[item.bufsIndex], cfg.off, cfg.skip) == Success
    ensures var data := bufs[item.bufsIndex].data + bufs[i].data[cfg.off + item.iphLen + 8..];
      && cfg.off <= |data| <= bufs[item.bufsIndex].cap && |data| - cfg.off <= MaxLen(m.isV6)
      && SaysV6(data[cfg.off..]) == SaysV6(bufs[item.bufsIndex].data[cfg.off..]) == m.isV6 == m.key.isV6
      && UdpGroup(orig, segs[item.bufsIndex] + [i], item.(numMerged := (item.numMerged + 1) % 0x1_0000),
         data[cfg.off..])
  {
    hide UdpGroup;
    hide UdpMetaOf;
    hide SlotsOk;
    hide UdpCanCoalesce;
    hide ChecksumValid;
    var off, k := cfg.off, item.bufsIndex;
    var d := bufs[k].data[off..];
    var q := |segs[k]| - 1;
    SegsNonEmpty(orig, segs[k], item, d);
    UdpMetaShape(orig[i], m);
    UdpGroupVersion(orig, segs[k], item, d);
    assert CapacityOk(bufs[k], off);
    assert segs[k][q] < i;
    UdpGroupAppend(orig, segs[k], item, d, i, m);
    var h := item.iphLen + 8;
    assert orig[i][h..] == bufs[i].data[off + h..];
    assert (bufs[k].data + bufs[i].data[off + h..])[off..] == d + orig[i][h..];
  }

  lemma SegsNonEmpty(orig: seq<seq<byte>>, segs: seq<nat>, item: UdpItem, d: seq<byte>)
    requires UdpGroup(orig, segs, item, d)
    ensures segs != []
  {
  }

  /** Without a merge, the datagram becomes the last item of its flow. */
  lemma UdpGroInserts(bufs: seq<Pkt>, table: UdpTable, i: nat, m: UdpMeta, off: nat, skip: bool) returns (bad: bool)
    requires UdpTableFits(bufs, table, i, m, off) && |bufs| != 1
    requires !UdpGro(bufs, table, i, m, off, skip).effect.Merged?
    ensures var items := if m.key in table then table[m.key] else [];
      UdpGro(bufs, table, i, m, off, skip) == UdpStep(bufs, table[m.key := items + [NewUdpItem(m, i, bad)]], Insert)
  {
    hide UdpCanCoalesce;
    hide UdpCoalesceCheck;
    bad := false;
    if m.key !in table {
      assert [] + [NewUdpItem(m, i, false)] == [NewUdpItem(m, i, false)];
    } else {
      var items := table[m.key];
      var item := items[|items| - 1];
      var target := bufs[item.bufsIndex];
      bad := UdpCanCoalesce(bufs[i].data[off..], m, item, target.data[off..])
        && UdpCoalesceCheck(bufs[i], m, item, target, off, skip) == PktInvalidCSum;
    }
  }

  lemma UdpStepIs(st: GroState, i: nat, m: UdpMeta, cfg: Config)
    requires StepOk(st, i, cfg) && EntryOf(st.bufs[i].data[cfg.off..], cfg, |st.bufs|) == UdpEntry(m)
    ensures UdpTableFits(st.bufs, st.udp, i, m, cfg.off)
    ensures var r := UdpGro(st.bufs, st.udp, i, m, cfg.off, cfg.skip);
      && EffectOf(st, i, cfg) == r.effect
      && (r.effect.Merged? ==> Step(st, i, cfg) == st.(bufs := r.bufs, udp := r.table))
      && (r.effect == Insert ==> Step(st, i, cfg) == st.(udp := r.table, toWrite := st.toWrite + [i]))
  {
    hide EntryOf;
    hide UdpGro;
  }

  lemma UdpEntryKeeps(orig: seq<seq<byte>>, st: GroState, segs: Slots, i: nat, m: UdpMeta, cfg: Config)
    requires Inv(orig, st, segs, i, cfg) && i < |orig| && Ready(st, i, cfg)
      && EntryOf(orig[i], cfg, |orig|) == UdpEntry(m)
    requires StepOk(st, i, cfg) && st.bufs[i].data[cfg.off..] == orig[i] && |st.bufs| != 1
    ensures Inv(orig, Step(st, i, cfg), NextSegs(segs, i, EffectOf(st, i, cfg)), i + 1, cfg)
  {
    hide UdpGro;
    CoreNow(orig, st, segs, i, cfg);
    hide EntryOf;
    hide Inv;
    hide UdpMetaOf;
    hide Step;
    hide EffectOf;
    hide StepOk;
    hide UdpTableFits;
    UdpStepIs(st, i, m, cfg);
    var r := UdpGro(st.bufs, st.udp, i, m, cfg.off, cfg.skip);
    if r.effect.Merged? {
      MergedKnown(st.bufs, st.udp, i, m, cfg.off, cfg.skip);
      UdpMergeKeeps(orig, st, segs, i, m, cfg);
    } else {
      var bad := UdpGroInserts(st.bufs, st.udp, i, m, cfg.off, cfg.skip);
      UdpInsertKeeps(orig, st, segs, i, m, cfg, bad);
    }
  }

  lemma MergedKnown(bufs: seq<Pkt>, table: UdpTable, i: nat, m: UdpMeta, off: nat, skip: bool)
    requires UdpTableFits(bufs, table, i, m, off) && UdpGro(bufs, table, i, m, off, skip).effect.Merged?
    ensures m.key in table
  {
    hide UdpCanCoalesce;
    hide UdpCoalesceCheck;
  }

  /** Every step keeps the invariant; the carrying map follows its effect. */
  lemma StepKeeps(orig: seq<seq<byte>>, st: GroState, segs: Slots, i: nat, cfg: Config)
    requires Inv(orig, st, segs, i, cfg) && i < |orig| && Ready(st, i, cfg)
    ensures StepOk(st, i, cfg)
    ensures Inv(orig, Step(st, i, cfg), NextSegs(segs, i, EffectOf(st, i, cfg)), i + 1, cfg)
  {
    CoreNow(orig, st, segs, i, cfg);
    hide Inv;
    hide EntryOf;
    hide Step;
    hide EffectOf;
    match EntryOf(orig[i], cfg, |orig|) {
      case NoEntry =>
        NoEntryStep(orig, st, segs, i, cfg);
      case TcpEntry(m) =>
        TcpFits(orig, st, segs, i, m, cfg);
        TcpEntryKeeps(orig, st, segs, i, m, cfg);
      case UdpEntry(m) =>
        UdpFits(orig, st, segs, i, m, cfg);
        EntryBatch(orig[i], cfg, |orig|);
        UdpEntryKeeps(orig, st, segs, i, m, cfg);
    }
  }

  lemma CoreNow(orig: seq<seq<byte>>, st: GroState, segs: Slots, i: nat, cfg: Config)
    requires Inv(orig, st, segs, i, cfg) && i < |orig| && Ready(st, i, cfg)
    ensures |st.bufs| == |orig| && st.bufs[i].data[cfg.off..] == orig[i]
    ensures HDR_LEN <= cfg.off <= |st.bufs[i].data|
  {
  }

  lemma EntryBatch(p: seq<byte>, cfg: Config, batch: nat)
    ensures batch == 1 ==> EntryOf(p, cfg, batch).NoEntry?
  {
  }

  lemma NoEntryStep(orig: seq<seq<byte>>, st: GroState, segs: Slots, i: nat, cfg: Config)
    requires Inv(orig, st, segs, i, cfg) && i < |orig| && Ready(st, i, cfg) && EntryOf(orig[i], cfg, |orig|).NoEntry?
    ensures StepOk(st, i, cfg)
    ensures Inv(orig, Step(st, i, cfg), NextSegs(segs, i, EffectOf(st, i, cfg)), i + 1, cfg)
  {
    CoreNow(orig, st, segs, i, cfg);
    hide Inv;
    hide EntryOf;
    NoEntryKeeps(orig, st, segs, i, cfg);
  }
}
