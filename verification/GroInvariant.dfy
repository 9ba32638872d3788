/**
What every step of receive offload keeps, for TCP and UDP together.

`segs` maps each slot that will be written to the arrival indices of the packets it carries.
*/
module GroInvariant {
  import opened Wrappers
  import opened Bytes
  import opened GsoSpec
  import opened GsoProperties
  import opened GroModel
  import opened GroGroup

  type Slots = map<nat, seq<nat>>

  /** Packets `0` to `n - 1` are carried, each once. */
  ghost predicate Partition(segs: Slots, n: nat) {
    && (forall k, q {:trigger segs[k][q]} :: k in segs && 0 <= q < |segs[k]| ==> segs[k][q] < n)
    && (forall k, q, k', q' {:trigger segs[k][q], segs[k'][q']} ::
          k in segs && 0 <= q < |segs[k]| && k' in segs && 0 <= q' < |segs[k']| && segs[k][q] == segs[k'][q']
          ==> k == k' && q == q')
    && (forall j :: 0 <= j < n ==> Carried(segs, j))
  }

  ghost predicate Carried(segs: Slots, j: nat) {
    exists k, q :: k in segs && 0 <= q < |segs[k]| && segs[k][q] == j
  }

  /** How the carrying map changes with the effect of step `i`. */
  ghost function NextSegs(segs: Slots, i: nat, effect: Effect): Slots {
    match effect
    case Merged(k, front) =>
      if k in segs then segs[k := if front then [i] + segs[k] else segs[k] + [i]] else segs
    case _ => segs[i := [i]]
  }

  lemma CarriedKept(segs: Slots, segs': Slots, i: nat, effect: Effect, j: nat)
    requires segs' == NextSegs(segs, i, effect) && i !in segs && Carried(segs, j)
    ensures Carried(segs', j)
  {
    var k, q :| k in segs && 0 <= q < |segs[k]| && segs[k][q] == j;
    if effect.Merged? && effect.slot == k {
      if effect.front {
        assert segs'[k][q + 1] == j;
      } else {
        assert segs'[k][q] == j;
      }
    } else {
      assert segs'[k][q] == j;
    }
  }

  lemma PartitionStep(segs: Slots, i: nat, effect: Effect)
    requires Partition(segs, i) && i !in segs && (effect.Merged? ==> effect.slot in segs)
    ensures Partition(NextSegs(segs, i, effect), i + 1)
  {
    var segs' := NextSegs(segs, i, effect);
    forall j | 0 <= j < i + 1 ensures Carried(segs', j) {
      if j < i {
        CarriedKept(segs, segs', i, effect, j);
      } else if effect.Merged? {
        var k := effect.slot;
        var q := if effect.front then 0 else |segs[k]|;
        assert segs'[k][q] == i;
      } else {
        assert segs'[i][0] == i;
      }
    }
    forall k, q | k in segs' && 0 <= q < |segs'[k]|
      ensures segs'[k][q] < i + 1 && (segs'[k][q] == i ==> Newest(segs, i, effect, k, q))
    {
      Older(segs, i, effect, k, q);
    }
    forall k, q, k', q' | k in segs' && 0 <= q < |segs'[k]| && k' in segs' && 0 <= q' < |segs'[k']|
        && segs'[k][q] == segs'[k'][q']
      ensures k == k' && q == q'
    {
      Older(segs, i, effect, k, q);
      Older(segs, i, effect, k', q');
    }
  }

  /** Where packet `i` went. */
  ghost predicate Newest(segs: Slots, i: nat, effect: Effect, k: nat, q: nat) {
    match effect
    case Merged(slot, front) => k == slot && slot in segs && q == (if front then 0 else |segs[slot]|)
    case _ => k == i && q == 0
  }

  /** Every other place holds what it held, shifted by one behind a prepended packet. */
  lemma Older(segs: Slots, i: nat, effect: Effect, k: nat, q: nat)
    requires Partition(segs, i) && i !in segs && (effect.Merged? ==> effect.slot in segs)
    requires k in NextSegs(segs, i, effect) && q < |NextSegs(segs, i, effect)[k]|
    ensures var x := NextSegs(segs, i, effect)[k][q];
      if Newest(segs, i, effect, k, q) then x == i
      else
        var q' := if effect.Merged? && effect.slot == k && effect.front then q - 1 else q;
        k in segs && 0 <= q' < |segs[k]| && x == segs[k][q'] && x < i
  {
  }

  /** A slot carries its packets: one packet unchanged, or several under the headers of the first. */
  ghost predicate SlotOk(orig: seq<seq<byte>>, segs: seq<nat>, d: seq<byte>) {
    && segs != [] && (forall q :: 0 <= q < |segs| ==> segs[q] < |orig|)
    && (|segs| == 1 ==> d == orig[segs[0]])
    && (|segs| > 1 ==> |d| <= MaxLen(SaysV6(d)))
    && (|segs| > 1 ==> exists iphLen, h, gso :: Layout(orig, segs, iphLen, h, gso, d))
  }

  ghost predicate SlotsOk(orig: seq<seq<byte>>, bufs: seq<Pkt>, segs: Slots, off: nat) {
    forall k :: k in segs ==> k < |bufs| && off <= |bufs[k].data| && SlotOk(orig, segs[k], bufs[k].data[off..])
  }

  /** Room for a virtio header, slots and capacities that keep indices and lengths within sixteen bits. */
  ghost predicate Bounded(bufs: seq<Pkt>, off: nat) {
    off >= 10 && |bufs| <= 0x1_0000 && CapacitiesOk(bufs, off)
  }

  ghost predicate CapacitiesOk(bufs: seq<Pkt>, off: nat) {
    forall k :: 0 <= k < |bufs| ==> CapacityOk(bufs[k], off)
  }

  ghost predicate CapacityOk(p: Pkt, off: nat) {
    |p.data| <= p.cap <= 2 * off + MaxLen(SaysV6(PacketIn(p.data, off)))
  }

  ghost predicate TcpItemOk(orig: seq<seq<byte>>, bufs: seq<Pkt>, segs: Slots, item: TcpItem, off: nat) {
    && item.bufsIndex in segs && item.bufsIndex < |bufs| && off <= |bufs[item.bufsIndex].data|
    && TcpGroup(orig, segs[item.bufsIndex], item, bufs[item.bufsIndex].data[off..])
  }

  ghost predicate TcpFlowOk(orig: seq<seq<byte>>, bufs: seq<Pkt>, segs: Slots, key: TcpKey, items: seq<TcpItem>,
                            off: nat)
  {
    && (forall j :: 0 <= j < |items| ==> items[j].key == key && TcpItemOk(orig, bufs, segs, items[j], off))
    && (forall j, j' :: 0 <= j < j' < |items| ==> items[j].bufsIndex != items[j'].bufsIndex)
  }

  ghost predicate TcpTableOk(orig: seq<seq<byte>>, bufs: seq<Pkt>, segs: Slots, table: TcpTable, off: nat) {
    forall key :: key in table ==> TcpFlowOk(orig, bufs, segs, key, table[key], off)
  }

  ghost predicate UdpItemOk(orig: seq<seq<byte>>, bufs: seq<Pkt>, segs: Slots, item: UdpItem, off: nat) {
    && item.bufsIndex in segs && item.bufsIndex < |bufs| && off <= |bufs[item.bufsIndex].data|
    && UdpGroup(orig, segs[item.bufsIndex], item, bufs[item.bufsIndex].data[off..])
  }

  ghost predicate UdpFlowOk(orig: seq<seq<byte>>, bufs: seq<Pkt>, segs: Slots, key: UdpKey, items: seq<UdpItem>,
                            off: nat)
  {
    && items != []
    && (forall j :: 0 <= j < |items| ==> items[j].key == key && UdpItemOk(orig, bufs, segs, items[j], off))
    && (forall j, j' :: 0 <= j < j' < |items| ==> items[j].bufsIndex != items[j'].bufsIndex)
  }

  ghost predicate UdpTableOk(orig: seq<seq<byte>>, bufs: seq<Pkt>, segs: Slots, table: UdpTable, off: nat) {
    forall key :: key in table ==> UdpFlowOk(orig, bufs, segs, key, table[key], off)
  }

  /** The packet behind the headroom; a buffer shorter than that holds none. */
  function PacketIn(d: seq<byte>, off: nat): seq<byte> {
    if off <= |d| then d[off..] else []
  }

  /** The state before packet `n` is considered. */
  ghost predicate Core(orig: seq<seq<byte>>, bufs: seq<Pkt>, segs: Slots, n: nat, off: nat) {
    && |bufs| == |orig| && n <= |bufs| && Bounded(bufs, off)
    && Partition(segs, n) && (forall k :: k in segs ==> k < n) && SlotsOk(orig, bufs, segs, off)
    && (forall j :: n <= j < |bufs| ==> PacketIn(bufs[j].data, off) == orig[j])
  }

  /** All slots but `except` carry what they carried. */
  ghost predicate Agree(bufs: seq<Pkt>, segs: Slots, bufs': seq<Pkt>, segs': Slots, except: set<nat>) {
    && |bufs'| == |bufs|
    && (forall k :: k in segs && k !in except ==>
          k in segs' && segs'[k] == segs[k] && (k < |bufs| ==> bufs'[k] == bufs[k]))
  }

  lemma TcpFlowFrame(orig: seq<seq<byte>>, bufs: seq<Pkt>, segs: Slots, bufs': seq<Pkt>, segs': Slots,
                     key: TcpKey, items: seq<TcpItem>, except: set<nat>, off: nat)
    requires TcpFlowOk(orig, bufs, segs, key, items, off) && Agree(bufs, segs, bufs', segs', except)
    requires forall j :: 0 <= j < |items| ==> items[j].bufsIndex !in except
    ensures TcpFlowOk(orig, bufs', segs', key, items, off)
  {
    hide TcpGroup;
  }

  lemma UdpFlowFrame(orig: seq<seq<byte>>, bufs: seq<Pkt>, segs: Slots, bufs': seq<Pkt>, segs': Slots,
                     key: UdpKey, items: seq<UdpItem>, except: set<nat>, off: nat)
    requires UdpFlowOk(orig, bufs, segs, key, items, off) && Agree(bufs, segs, bufs', segs', except)
    requires forall j :: 0 <= j < |items| ==> items[j].bufsIndex !in except
    ensures UdpFlowOk(orig, bufs', segs', key, items, off)
  {
    hide UdpGroup;
  }

  /** The first packet of a slot tells the flow its item belongs to. */
  ghost predicate TcpSlot(orig: seq<seq<byte>>, segs: Slots, k: nat, key: TcpKey) {
    && k in segs && segs[k] != [] && segs[k][0] < |orig|
    && var p := orig[segs[k][0]];
      Plausible(p, key.isV6, PROTO_TCP) && TcpMetaOf(p, key.isV6).Some? && TcpMetaOf(p, key.isV6).value.key == key
  }

  ghost predicate UdpSlot(orig: seq<seq<byte>>, segs: Slots, k: nat, key: UdpKey) {
    && k in segs && segs[k] != [] && segs[k][0] < |orig|
    && var p := orig[segs[k][0]];
      Plausible(p, key.isV6, PROTO_UDP) && UdpMetaOf(p, key.isV6).Some? && UdpMetaOf(p, key.isV6).value.key == key
  }

  lemma TcpItemSlot(orig: seq<seq<byte>>, bufs: seq<Pkt>, segs: Slots, item: TcpItem, off: nat)
    requires TcpItemOk(orig, bufs, segs, item, off)
    ensures TcpSlot(orig, segs, item.bufsIndex, item.key)
  {
    hide TcpMetaOf;
    assert TcpMember(orig[segs[item.bufsIndex][0]], item, 0);
  }

  lemma UdpItemSlot(orig: seq<seq<byte>>, bufs: seq<Pkt>, segs: Slots, item: UdpItem, off: nat)
    requires UdpItemOk(orig, bufs, segs, item, off)
    ensures UdpSlot(orig, segs, item.bufsIndex, item.key)
  {
    hide UdpMetaOf;
    assert UdpMember(orig[segs[item.bufsIndex][0]], item);
  }

  /** A slot belongs to one flow of one protocol. */
  lemma SlotFlowUnique(orig: seq<seq<byte>>, segs: Slots, k: nat)
    ensures forall a, b :: TcpSlot(orig, segs, k, a) && TcpSlot(orig, segs, k, b) ==> a == b
    ensures forall a, b :: UdpSlot(orig, segs, k, a) && UdpSlot(orig, segs, k, b) ==> a == b
    ensures forall a, b :: !(TcpSlot(orig, segs, k, a) && UdpSlot(orig, segs, k, b))
  {
    hide TcpMetaOf;
    hide UdpMetaOf;
    if k in segs && segs[k] != [] && segs[k][0] < |orig| {
      var p := orig[segs[k][0]];
      assert forall a: TcpKey, b: TcpKey ::
        Plausible(p, a.isV6, PROTO_TCP) && Plausible(p, b.isV6, PROTO_TCP) ==> a.isV6 == b.isV6;
    }
  }

  /** Tables of flows that do not own the changed slot stay right. */
  lemma TcpTableFrame(orig: seq<seq<byte>>, bufs: seq<Pkt>, segs: Slots, bufs': seq<Pkt>, segs': Slots,
                      table: TcpTable, except: set<nat>, off: nat)
    requires TcpTableOk(orig, bufs, segs, table, off) && Agree(bufs, segs, bufs', segs', except)
    requires forall k, key :: k in except && key in table ==> !TcpSlot(orig, segs, k, key)
    ensures TcpTableOk(orig, bufs', segs', table, off)
  {
    hide TcpGroup;
    hide TcpSlot;
    forall key | key in table ensures TcpFlowOk(orig, bufs', segs', key, table[key], off) {
      var items := table[key];
      assert TcpFlowOk(orig, bufs, segs, key, items, off);
      forall j | 0 <= j < |items| ensures items[j].bufsIndex !in except {
        TcpItemSlot(orig, bufs, segs, items[j], off);
      }
      TcpFlowFrame(orig, bufs, segs, bufs', segs', key, items, except, off);
    }
  }

  lemma UdpTableFrame(orig: seq<seq<byte>>, bufs: seq<Pkt>, segs: Slots, bufs': seq<Pkt>, segs': Slots,
                      table: UdpTable, except: set<nat>, off: nat)
    requires UdpTableOk(orig, bufs, segs, table, off) && Agree(bufs, segs, bufs', segs', except)
    requires forall k, key :: k in except && key in table ==> !UdpSlot(orig, segs, k, key)
    ensures UdpTableOk(orig, bufs', segs', table, off)
  {
    hide UdpGroup;
    hide UdpSlot;
    forall key | key in table ensures UdpFlowOk(orig, bufs', segs', key, table[key], off) {
      var items := table[key];
      assert UdpFlowOk(orig, bufs, segs, key, items, off);
      forall j | 0 <= j < |items| ensures items[j].bufsIndex !in except {
        UdpItemSlot(orig, bufs, segs, items[j], off);
      }
      UdpFlowFrame(orig, bufs, segs, bufs', segs', key, items, except, off);
    }
  }
}
