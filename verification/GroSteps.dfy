/** Every step of receive offload keeps the invariant of GroInvariant. */
module GroSteps {
  import opened Wrappers
  import opened Bytes
  import opened GsoSpec
  import opened GsoProperties
  import opened GroModel
  import opened GroGroup
  import opened GroInvariant

  /** A packet that is written as it is: only its headroom may change. */
  lemma CorePlain(orig: seq<seq<byte>>, bufs: seq<Pkt>, bufs': seq<Pkt>, segs: Slots, i: nat, off: nat)
    requires Core(orig, bufs, segs, i, off) && i < |bufs| && off <= |bufs[i].data|
    requires |bufs'| == |bufs| && bufs' == bufs[i := bufs'[i]]
    requires |bufs'[i].data| == |bufs[i].data| && bufs'[i].cap == bufs[i].cap
      && bufs'[i].data[off..] == bufs[i].data[off..]
    ensures Core(orig, bufs', segs[i := [i]], i + 1, off)
    ensures Agree(bufs, segs, bufs', segs[i := [i]], {})
  {
    hide Partition;
    hide SlotOk;
    assert i !in segs;
    PartitionStep(segs, i, Noop);
    OwnSlotOk(orig, i);
    var segs' := segs[i := [i]];
    assert forall k :: 0 <= k < |bufs| && k != i ==> bufs'[k] == bufs[k];
    assert SlotsOk(orig, bufs', segs', off);
  }

  lemma OwnSlotOk(orig: seq<seq<byte>>, i: nat)
    requires i < |orig|
    ensures SlotOk(orig, [i], orig[i])
  {
  }

  /** A packet merged into slot `k`. */
  lemma CoreMerged(orig: seq<seq<byte>>, bufs: seq<Pkt>, segs: Slots, i: nat, k: nat, front: bool, data: seq<byte>,
                   off: nat)
    requires Core(orig, bufs, segs, i, off) && i < |bufs| && off <= |bufs[i].data| && k in segs && k < |bufs| && i != k
    requires off <= |data| <= bufs[if front then i else k].cap
    requires SaysV6(data[off..]) == SaysV6(PacketIn(bufs[if front then i else k].data, off))
    requires SlotOk(orig, NextSegs(segs, i, Merged(k, front))[k], data[off..])
    ensures Core(orig, MergedBufs(bufs, i, k, front, data), NextSegs(segs, i, Merged(k, front)), i + 1, off)
    ensures Agree(bufs, segs, MergedBufs(bufs, i, k, front, data), NextSegs(segs, i, Merged(k, front)), {k})
  {
    hide Partition;
    hide SlotOk;
    hide SlotsOk;
    hide CapacitiesOk;
    assert i !in segs;
    PartitionStep(segs, i, Merged(k, front));
    CapacitiesMerged(bufs, i, k, front, data, off);
    var bufs', segs' := MergedBufs(bufs, i, k, front, data), NextSegs(segs, i, Merged(k, front));
    assert segs'.Keys == segs.Keys;
    assert forall s :: 0 <= s < |bufs| && s != k && s != i ==> bufs'[s] == bufs[s];
    MergedSlots(orig, bufs, bufs', segs, segs', i, k, data, off);
  }

  /** A merge uses the capacity of the packet in front; a prepend leaves the other slice in its place. */
  lemma CapacitiesMerged(bufs: seq<Pkt>, i: nat, k: nat, front: bool, data: seq<byte>, off: nat)
    requires CapacitiesOk(bufs, off) && i < |bufs| && k < |bufs| && i != k
    requires off <= |data| <= bufs[if front then i else k].cap
    requires SaysV6(data[off..]) == SaysV6(PacketIn(bufs[if front then i else k].data, off))
    ensures CapacitiesOk(MergedBufs(bufs, i, k, front, data), off)
  {
    assert CapacityOk(bufs[i], off) && CapacityOk(bufs[k], off);
  }

  /** One slot carries something new, the others what they carried. */
  lemma MergedSlots(orig: seq<seq<byte>>, bufs: seq<Pkt>, bufs': seq<Pkt>, segs: Slots, segs': Slots, i: nat,
                    k: nat, data: seq<byte>, off: nat)
    requires SlotsOk(orig, bufs, segs, off) && k in segs && i !in segs && k < |bufs| == |bufs'| && bufs'[k].data == data
    requires forall s :: 0 <= s < |bufs| && s != k && s != i ==> bufs'[s] == bufs[s]
    requires segs'.Keys == segs.Keys && (forall s :: s in segs && s != k ==> segs'[s] == segs[s])
    requires off <= |data| && SlotOk(orig, segs'[k], data[off..])
    ensures SlotsOk(orig, bufs', segs', off) && Agree(bufs, segs, bufs', segs', {k})
  {
    hide SlotOk;
  }

  lemma FlowScanOk(orig: seq<seq<byte>>, bufs: seq<Pkt>, segs: Slots, items: seq<TcpItem>, i: nat, m: TcpMeta, off: nat)
    requires Core(orig, bufs, segs, i, off) && i < |bufs| && off <= |bufs[i].data|
      && TcpFlowOk(orig, bufs, segs, m.key, items, off)
    requires Plausible(orig[i], m.isV6, PROTO_TCP) && TcpMetaOf(orig[i], m.isV6) == Some(m)
    ensures ScanOk(bufs, items, i, m, off)
  {
    hide Partition;
    hide SlotsOk;
    hide TcpMetaOf;
    MetaShape(orig[i], m);
    forall j | 0 <= j < |items| ensures ItemFits(bufs, i, m, items[j], off) {
      FlowItemFits(orig, bufs, segs, items[j], i, m, off);
    }
  }

  lemma FlowItemFits(orig: seq<seq<byte>>, bufs: seq<Pkt>, segs: Slots, item: TcpItem, i: nat, m: TcpMeta, off: nat)
    requires TcpItemOk(orig, bufs, segs, item, off) && i !in segs && item.key == m.key
    requires m.iphLen == IphLen(m.isV6) && m.key.isV6 == m.isV6
    ensures ItemFits(bufs, i, m, item, off)
  {
    hide TcpMembers;
    var k := item.bufsIndex;
    GroupKeyVersion(orig, segs[k], item, bufs[k].data[off..]);
  }

  /** The merged buffer, seen behind the headroom. */
  lemma MergedDataAt(mode: CanCoalesce, p: seq<byte>, m: TcpMeta, item: TcpItem, target: seq<byte>, off: nat)
    requires off + item.iphLen + item.tcphLen <= |p| && off + item.iphLen + item.tcphLen <= |target|
    requires item.tcphLen >= 20
    ensures var h, d, e := item.iphLen + item.tcphLen, target[off..], TcpMergedData(mode, p, m, item, target, off);
      && |e| == |p| + |target| - off - h
      && e[off..] == (if mode == Prepend then p[off..] + d[h..]
                      else (if m.pshSet then SetPsh(d, item.iphLen + TCP_FLAGS_OFFSET) else d) + p[off..][h..])
  {
    var h := item.iphLen + item.tcphLen;
    assert target[off..][h..] == target[off + h..];
    assert p[off..][h..] == p[off + h..];
    if mode != Prepend && m.pshSet {
      assert SetPsh(target, off + item.iphLen + 13)[off..] == SetPsh(target[off..], item.iphLen + 13);
    }
  }

  /** A successful check leaves room, so all lengths stay within sixteen bits. */
  lemma RoomBounds(mode: CanCoalesce, p: Pkt, m: TcpMeta, item: TcpItem, target: Pkt, off: nat, skip: bool)
    requires off + m.iphLen + 20 <= |p.data| && off + item.iphLen + item.tcphLen <= |target.data|
    requires m.iphLen == item.iphLen == IphLen(m.isV6) && item.tcphLen >= 20
    requires TcpCoalesceCheck(mode, p, m, item, target, off, skip) == Success
    requires p.cap <= 2 * off + MaxLen(m.isV6) && target.cap <= 2 * off + MaxLen(m.isV6)
    ensures var len := |target.data| - off + |p.data| - off - (item.iphLen + item.tcphLen);
      len + off + off <= (if mode == Prepend then p else target).cap && len <= MaxLen(m.isV6)
    ensures off >= 10 && p.cap <= off + 0x1_0000 && target.cap <= off + 0x1_0000 ==>
      |target.data| - off + |p.data| - off - (item.iphLen + item.tcphLen) <= 65526
  {
    hide ChecksumValid;
  }

  /** The checksums of a merge are good, or not looked at. */
  predicate ChecksPass(p: Pkt, m: TcpMeta, item: TcpItem, target: Pkt, off: nat, skip: bool)
    requires off + m.iphLen + 20 <= |p.data| && off + item.iphLen + item.tcphLen <= |target.data|
    requires m.iphLen == item.iphLen == IphLen(m.isV6) && item.tcphLen >= 20
  {
    || skip
    || ((item.numMerged > 0 || ChecksumValid(target.data[off..], item.iphLen, PROTO_TCP, Ver(m.isV6)))
        && ChecksumValid(p.data[off..], item.iphLen, PROTO_TCP, Ver(m.isV6)))
  }

  /** Checksums aside, capacity is all that limits a merge. */
  lemma RoomDecides(mode: CanCoalesce, p: Pkt, m: TcpMeta, item: TcpItem, target: Pkt, off: nat, skip: bool)
    requires off + m.iphLen + 20 <= |p.data| && off + item.iphLen + item.tcphLen <= |target.data|
    requires m.iphLen == item.iphLen == IphLen(m.isV6) && item.tcphLen >= 20 && !(mode == Prepend && m.pshSet)
    requires ChecksPass(p, m, item, target, off, skip)
    ensures TcpCoalesceCheck(mode, p, m, item, target, off, skip) == Success <==>
      |target.data| - off + |p.data| - off - (item.iphLen + item.tcphLen)
        <= (if mode == Prepend then p else target).cap - 2 * off
  {
    hide ChecksumValid;
  }

  /** The group after a merge. */
  lemma MergedGroup(orig: seq<seq<byte>>, segs: seq<nat>, bufs: seq<Pkt>, item: TcpItem, i: nat, m: TcpMeta,
                    can: CanCoalesce, off: nat, skip: bool)
    requires i < |orig| == |bufs| && Bounded(bufs, off) && off <= |bufs[i].data| && bufs[i].data[off..] == orig[i]
    requires Plausible(orig[i], m.isV6, PROTO_TCP) && TcpMetaOf(orig[i], m.isV6) == Some(m) && m.key == item.key
    requires ItemFits(bufs, i, m, item, off) && TcpGroup(orig, segs, item, bufs[item.bufsIndex].data[off..])
    requires off + m.iphLen + m.tcphLen <= |bufs[i].data| && m.tcphLen >= 20
    requires can == TcpCanCoalesce(orig[i], m, item, bufs[item.bufsIndex].data[off..]) != Unavailable
    requires TcpCoalesceCheck(can, bufs[i], m, item, bufs[item.bufsIndex], off, skip) == Success
    ensures off + item.iphLen + item.tcphLen <= |bufs[i].data|
    ensures var data := TcpMergedData(can, bufs[i].data, m, item, bufs[item.bufsIndex].data, off);
      && off <= |data| <= bufs[if can == Prepend then i else item.bufsIndex].cap && |data| - off <= MaxLen(m.isV6)
      && SaysV6(data[off..]) == SaysV6(orig[i]) == SaysV6(bufs[item.bufsIndex].data[off..]) == m.isV6 == m.key.isV6
      && TcpGroup(orig, if can == Prepend then [i] + segs else segs + [i], TcpMergedItem(can, m, item), data[off..])
  {
    hide TcpCanCoalesce;
    hide TcpMetaOf;
    hide TcpCoalesceCheck;
    hide TcpMembers;
    hide TcpMergedData;
    hide SetPsh;
    var d := bufs[item.bufsIndex].data[off..];
    MetaShape(orig[i], m);
    GroupKeyVersion(orig, segs, item, d);
    AcceptedCompatible(orig[i], m, item, d);
    RoomBounds(can, bufs[i], m, item, bufs[item.bufsIndex], off, skip);
    MergedDataAt(can, bufs[i].data, m, item, bufs[item.bufsIndex].data, off);
    if can == Prepend {
      GroupSize(orig, segs, item, d);
      TcpGroupPrepend(orig, segs, item, d, i, m);
    } else {
      TcpGroupAppend(orig, segs, item, d, i, m);
    }
  }

  lemma GroupSize(orig: seq<seq<byte>>, segs: seq<nat>, item: TcpItem, d: seq<byte>)
    requires TcpGroup(orig, segs, item, d)
    ensures |segs| <= |d| - (item.iphLen + item.tcphLen)
  {
    hide TcpMembers;
    hide JoinPay;
    JoinLength(orig, segs, item.iphLen + item.tcphLen, item.gsoSize);
  }

  lemma GroupSlotOk(orig: seq<seq<byte>>, segs: seq<nat>, item: TcpItem, d: seq<byte>)
    requires TcpGroup(orig, segs, item, d) && |d| <= MaxLen(item.key.isV6)
    ensures SlotOk(orig, segs, d)
  {
    GroupKeyVersion(orig, segs, item, d);
    hide TcpMembers;
    assert Layout(orig, segs, item.iphLen, item.iphLen + item.tcphLen, item.gsoSize, d);
  }

  /** One item replaced, the others untouched. */
  lemma FlowMerged(orig: seq<seq<byte>>, bufs: seq<Pkt>, segs: Slots, bufs': seq<Pkt>, segs': Slots,
                   key: TcpKey, items: seq<TcpItem>, j: nat, item': TcpItem, off: nat)
    requires TcpFlowOk(orig, bufs, segs, key, items, off) && j < |items|
    requires item'.bufsIndex == items[j].bufsIndex && item'.key == key
    requires Agree(bufs, segs, bufs', segs', {items[j].bufsIndex}) && TcpItemOk(orig, bufs', segs', item', off)
    ensures TcpFlowOk(orig, bufs', segs', key, items[j := item'], off)
  {
    hide TcpGroup;
    var items' := items[j := item'];
    forall x | 0 <= x < |items'| ensures items'[x].key == key && TcpItemOk(orig, bufs', segs', items'[x], off) {
      if x != j {
        assert items'[x] == items[x] && items[x].bufsIndex != items[j].bufsIndex;
        assert TcpItemOk(orig, bufs, segs, items[x], off);
      }
    }
  }

  /** What a scan leaves behind. */
  ghost predicate ScanDone(orig: seq<seq<byte>>, bufs: seq<Pkt>, segs: Slots, key: TcpKey, i: nat, off: nat,
                           r: ScanResult)
  {
    match r.effect
    case Merged(k, front) =>
      && TcpSlot(orig, segs, k, key)
      && Core(orig, r.bufs, NextSegs(segs, i, r.effect), i + 1, off)
      && Agree(bufs, segs, r.bufs, NextSegs(segs, i, r.effect), {k})
      && TcpFlowOk(orig, r.bufs, NextSegs(segs, i, r.effect), key, r.items, off)
    case _ => r.bufs == bufs && TcpFlowOk(orig, bufs, segs, key, r.items, off)
  }

  lemma ScanMerges(orig: seq<seq<byte>>, bufs: seq<Pkt>, segs: Slots, items: seq<TcpItem>, j: nat, i: nat, m: TcpMeta,
                   can: CanCoalesce, off: nat, skip: bool)
    requires Core(orig, bufs, segs, i, off) && i < |bufs| && off <= |bufs[i].data| && j < |items|
    requires TcpFlowOk(orig, bufs, segs, m.key, items, off) && ScanOk(bufs, items, i, m, off)
    requires Plausible(orig[i], m.isV6, PROTO_TCP) && TcpMetaOf(orig[i], m.isV6) == Some(m)
    requires can == TcpCanCoalesce(orig[i], m, items[j], bufs[items[j].bufsIndex].data[off..]) != Unavailable
    requires TcpCoalesceCheck(can, bufs[i], m, items[j], bufs[items[j].bufsIndex], off, skip) == Success
    ensures off + items[j].iphLen + items[j].tcphLen <= |bufs[i].data|
    ensures var item := items[j];
      var data := TcpMergedData(can, bufs[i].data, m, item, bufs[item.bufsIndex].data, off);
      ScanDone(orig, bufs, segs, m.key, i, off,
               ScanResult(MergedBufs(bufs, i, item.bufsIndex, can == Prepend, data),
                          items[j := TcpMergedItem(can, m, item)], Merged(item.bufsIndex, can == Prepend)))
  {
    hide TcpCanCoalesce;
    hide TcpMetaOf;
    hide TcpCoalesceCheck;
    hide TcpGroup;
    hide Partition;
    hide SlotsOk;
    hide SlotOk;
    hide TcpMergedData;
    hide TcpSlot;
    var item := items[j];
    var k, front := item.bufsIndex, can == Prepend;
    assert TcpItemOk(orig, bufs, segs, item, off);
    TcpItemSlot(orig, bufs, segs, item, off);
    MergedGroup(orig, segs[k], bufs, item, i, m, can, off, skip);
    var data := TcpMergedData(can, bufs[i].data, m, item, bufs[k].data, off);
    var segs' := NextSegs(segs, i, Merged(k, front));
    GroupSlotOk(orig, segs'[k], TcpMergedItem(can, m, item), data[off..]);
    CoreMerged(orig, bufs, segs, i, k, front, data, off);
    var bufs' := MergedBufs(bufs, i, k, front, data);
    assert bufs'[k].data == data;
    FlowMerged(orig, bufs, segs, bufs', segs', m.key, items, j, TcpMergedItem(can, m, item), off);
  }

  /** An item removed, the others close up and describe their buffers as before. */
  lemma FlowDeleted(orig: seq<seq<byte>>, bufs: seq<Pkt>, segs: Slots, key: TcpKey, items: seq<TcpItem>, j: nat,
                    off: nat)
    requires TcpFlowOk(orig, bufs, segs, key, items, off) && j < |items|
    ensures TcpFlowOk(orig, bufs, segs, key, items[..j] + items[j + 1..], off)
  {
    hide TcpItemOk;
    var r := items[..j] + items[j + 1..];
    assert forall x :: 0 <= x < |r| ==> r[x] == items[if x < j then x else x + 1];
  }

  lemma {:induction false} ScanKeeps(orig: seq<seq<byte>>, bufs: seq<Pkt>, segs: Slots, items: seq<TcpItem>, n: nat,
                                     i: nat, m: TcpMeta, off: nat, skip: bool)
    requires Core(orig, bufs, segs, i, off) && i < |bufs| && off <= |bufs[i].data| && n <= |items|
    requires TcpFlowOk(orig, bufs, segs, m.key, items, off) && ScanOk(bufs, items, i, m, off)
    requires Plausible(orig[i], m.isV6, PROTO_TCP) && TcpMetaOf(orig[i], m.isV6) == Some(m)
    ensures ScanDone(orig, bufs, segs, m.key, i, off, TcpScan(bufs, items, n, i, m, off, skip))
    decreases n
  {
    hide TcpCanCoalesce;
    hide TcpMetaOf;
    hide TcpCoalesceCheck;
    hide TcpFlowOk;
    hide Partition;
    hide SlotsOk;
    hide TcpMergedData;
    hide TcpSlot;
    hide Agree;
    hide Bounded;
    if n > 0 {
      var item := items[n - 1];
      var can := TcpCanCoalesce(bufs[i].data[off..], m, item, bufs[item.bufsIndex].data[off..]);
      if can == Unavailable {
        ScanKeeps(orig, bufs, segs, items, n - 1, i, m, off, skip);
      } else {
        match TcpCoalesceCheck(can, bufs[i], m, item, bufs[item.bufsIndex], off, skip) {
          case Success =>
            ScanMerges(orig, bufs, segs, items, n - 1, i, m, can, off, skip);
          case ItemInvalidCSum =>
            FlowDeleted(orig, bufs, segs, m.key, items, n - 1, off);
            ScanKeeps(orig, bufs, segs, items[..n - 1] + items[n..], n - 1, i, m, off, skip);
          case PktInvalidCSum =>
          case _ =>
            ScanKeeps(orig, bufs, segs, items, n - 1, i, m, off, skip);
        }
      }
    }
  }
}
