/** handleGRO: a whole batch in place. */
module GroDevice {
  import opened Wrappers
  import opened Bytes
  import opened GsoSpec
  import opened GsoProperties
  import opened Virtio
  import opened GroModel
  import opened GroGroup
  import opened GroInvariant
  import opened GroRun
  import opened GroUdp
  import opened GroTrack
  import opened GroVet
  import opened GroBatch
  import opened GroBuffers
  import opened GroEngine
  import opened GroHandle
  import opened GroPool
  import opened GroApply

  /** The packets of a batch as they arrive. */
  ghost function Originals(v: seq<Pkt>, off: nat): (r: seq<seq<byte>>)
    ensures |r| == |v| && forall k :: 0 <= k < |v| ==> r[k] == PacketIn(v[k].data, off)
  {
    seq(|v|, k requires 0 <= k < |v| => PacketIn(v[k].data, off))
  }

  lemma InitialInv(v: seq<Pkt>, cfg: Config)
    requires Bounded(v, cfg.off)
    ensures Inv(Originals(v, cfg.off), GroState(v, map[], map[], []), map[], 0, cfg)
    ensures Tracked(GroState(v, map[], map[], []), map[], cfg)
  {
  }

  /** Different flows of a protocol describe different slots. */
  lemma TcpFlowsApart(orig: seq<seq<byte>>, bufs: seq<Pkt>, segs: Slots, table: TcpTable, off: nat)
    requires TcpTableOk(orig, bufs, segs, table, off)
    ensures TcpApart(table)
  {
    hide TcpGroup;
    hide TcpSlot;
    forall key, other, k | key in table && other in table && ItemsHave(table[key], k) && ItemsHave(table[other], k)
      ensures key == other
    {
      var j :| 0 <= j < |table[key]| && table[key][j].bufsIndex == k;
      var j' :| 0 <= j' < |table[other]| && table[other][j'].bufsIndex == k;
      TcpItemSlot(orig, bufs, segs, table[key][j], off);
      TcpItemSlot(orig, bufs, segs, table[other][j'], off);
      SlotFlowUnique(orig, segs, k);
    }
  }

  lemma UdpFlowsApart(orig: seq<seq<byte>>, bufs: seq<Pkt>, segs: Slots, table: UdpTable, off: nat)
    requires UdpTableOk(orig, bufs, segs, table, off)
    ensures UdpApart(table)
  {
    hide UdpGroup;
    hide UdpSlot;
    forall key, other, k
      | key in table && other in table && UdpItemsHave(table[key], k) && UdpItemsHave(table[other], k)
      ensures key == other
    {
      var j :| 0 <= j < |table[key]| && table[key][j].bufsIndex == k;
      var j' :| 0 <= j' < |table[other]| && table[other][j'].bufsIndex == k;
      UdpItemSlot(orig, bufs, segs, table[key][j], off);
      UdpItemSlot(orig, bufs, segs, table[other][j'], off);
      SlotFlowUnique(orig, segs, k);
    }
  }

  /** No slot is described by items of both protocols. */
  lemma ProtocolsApart(orig: seq<seq<byte>>, st: GroState, segs: Slots, off: nat, k: nat)
    requires TcpTableOk(orig, st.bufs, segs, st.tcp, off) && UdpTableOk(orig, st.bufs, segs, st.udp, off)
    ensures !(HasTcp(st.tcp, k) && HasUdp(st.udp, k))
  {
    hide TcpGroup;
    hide TcpSlot;
    hide UdpGroup;
    hide UdpSlot;
    if HasTcp(st.tcp, k) && HasUdp(st.udp, k) {
      var key :| key in st.tcp && ItemsHave(st.tcp[key], k);
      var other :| other in st.udp && UdpItemsHave(st.udp[other], k);
      var j :| 0 <= j < |st.tcp[key]| && st.tcp[key][j].bufsIndex == k;
      var j' :| 0 <= j' < |st.udp[other]| && st.udp[other][j'].bufsIndex == k;
      TcpItemSlot(orig, st.bufs, segs, st.tcp[key][j], off);
      UdpItemSlot(orig, st.bufs, segs, st.udp[other][j'], off);
      SlotFlowUnique(orig, segs, k);
    }
  }

  lemma TcpItemReady(orig: seq<seq<byte>>, bufs: seq<Pkt>, segs: Slots, item: TcpItem, off: nat)
    requires TcpItemOk(orig, bufs, segs, item, off) && off >= HDR_LEN
    ensures TcpAccountable(bufs[item.bufsIndex], item, off)
  {
    hide JoinPay;
    var k := item.bufsIndex;
    GroupKeyVersion(orig, segs[k], item, bufs[k].data[off..]);
    assert TcpMember(orig[segs[k][0]], item, 0);
  }

  lemma TcpReadyToAccount(orig: seq<seq<byte>>, bufs: seq<Pkt>, segs: Slots, table: TcpTable, off: nat)
    requires TcpTableOk(orig, bufs, segs, table, off) && off >= HDR_LEN
    ensures forall key :: key in table ==> TcpFlowReady(bufs, table[key], off)
  {
    hide TcpGroup;
    hide TcpAccountable;
    forall key | key in table ensures TcpFlowReady(bufs, table[key], off) {
      var items := table[key];
      assert TcpFlowOk(orig, bufs, segs, key, items, off);
      forall j | 0 <= j < |items|
        ensures items[j].bufsIndex < |bufs| && TcpAccountable(bufs[items[j].bufsIndex], items[j], off)
      {
        TcpItemReady(orig, bufs, segs, items[j], off);
      }
    }
  }

  lemma UdpReadyToAccount(orig: seq<seq<byte>>, bufs: seq<Pkt>, segs: Slots, table: UdpTable, off: nat)
    requires UdpTableOk(orig, bufs, segs, table, off) && off >= HDR_LEN
    ensures forall key :: key in table ==> UdpFlowReady(bufs, table[key], off)
  {
    hide UdpGroup;
    hide UdpAccountable;
    forall key | key in table ensures UdpFlowReady(bufs, table[key], off) {
      var items := table[key];
      assert UdpFlowOk(orig, bufs, segs, key, items, off);
      forall j | 0 <= j < |items|
        ensures items[j].bufsIndex < |bufs| && UdpAccountable(bufs[items[j].bufsIndex], items[j], off)
      {
        UdpItemReady(orig, bufs, segs, items[j], off);
      }
    }
  }

  lemma UdpItemReady(orig: seq<seq<byte>>, bufs: seq<Pkt>, segs: Slots, item: UdpItem, off: nat)
    requires UdpItemOk(orig, bufs, segs, item, off) && off >= HDR_LEN
    ensures UdpAccountable(bufs[item.bufsIndex], item, off)
  {
    var k := item.bufsIndex;
    UdpGroupVersion(orig, segs[k], item, bufs[k].data[off..]);
  }

  /** TCP accounting, then UDP accounting, accounts for every item. */
  lemma BothAccounted(orig: seq<seq<byte>>, st: GroState, segs: Slots, w: seq<Pkt>, w': seq<Pkt>, off: nat, le: bool)
    requires TcpTableOk(orig, st.bufs, segs, st.tcp, off) && UdpTableOk(orig, st.bufs, segs, st.udp, off)
    requires |w| == |st.bufs| == |w'|
    requires forall key :: key in st.tcp ==> TcpFlowDone(st.bufs, w, st.tcp[key], off, le)
    requires forall k :: 0 <= k < |w| && !HasTcp(st.tcp, k) ==> w[k] == st.bufs[k]
    requires forall key :: key in st.udp ==> UdpFlowDone(w, w', st.udp[key], off, le)
    requires forall k :: 0 <= k < |w| && !HasUdp(st.udp, k) ==> w'[k] == w[k]
    ensures Accounted(st, w', off, le)
  {
    hide TcpTableOk;
    hide UdpTableOk;
    hide TcpAccountedBuf;
    hide UdpAccountedBuf;
    hide TcpAccountable;
    hide UdpAccountable;
    forall key, j | key in st.tcp && 0 <= j < |st.tcp[key]| ensures TcpItemDone(st.bufs, w', st.tcp[key][j], off, le) {
      var k := st.tcp[key][j].bufsIndex;
      assert TcpFlowDone(st.bufs, w, st.tcp[key], off, le);
      assert ItemsHave(st.tcp[key], k);
      ProtocolsApart(orig, st, segs, off, k);
    }
    forall key, j | key in st.udp && 0 <= j < |st.udp[key]| ensures UdpItemDone(st.bufs, w', st.udp[key][j], off, le) {
      var k := st.udp[key][j].bufsIndex;
      assert UdpFlowDone(w, w', st.udp[key], off, le);
      assert UdpItemsHave(st.udp[key], k);
      ProtocolsApart(orig, st, segs, off, k);
    }
  }

  /** The state before packet `i`; nothing is processed without room for a header. */
  ghost predicate Running(orig: seq<seq<byte>>, st: GroState, segs: Slots, i: nat, cfg: Config) {
    && |st.bufs| == |orig| && Opened(orig, st, i, cfg) && Vouched(orig, segs, cfg)
    && if cfg.off >= HDR_LEN then Inv(orig, st, segs, i, cfg) && Tracked(st, segs, cfg)
       else i == 0 && st == GroState(st.bufs, map[], map[], []) && segs == map[]
            && forall k :: 0 <= k < |orig| ==> PacketIn(st.bufs[k].data, cfg.off) == orig[k]
  }

  lemma RunningStart(v: seq<Pkt>, cfg: Config)
    requires |v| <= 0x1_0000 && CapacitiesOk(v, cfg.off)
    ensures Running(Originals(v, cfg.off), GroState(v, map[], map[], []), map[], 0, cfg)
  {
    hide Inv;
    hide Tracked;
    if cfg.off >= HDR_LEN {
      InitialInv(v, cfg);
    }
  }

  /** Whether packet `i` is rejected can be told from the packets as they arrived. */
  lemma RunningNext(orig: seq<seq<byte>>, st: GroState, segs: Slots, i: nat, cfg: Config)
    requires Running(orig, st, segs, i, cfg) && i < |orig|
    ensures PacketIn(st.bufs[i].data, cfg.off) == orig[i]
    ensures cfg.off < |st.bufs[i].data| <==> orig[i] != []
  {
  }

  /** One packet more, for which the pools have a slice if it needs one. */
  lemma RunningStep(orig: seq<seq<byte>>, st: GroState, segs: Slots, i: nat, cfg: Config, tcpPool: nat, udpPool: nat)
    requires Running(orig, st, segs, i, cfg) && i < |orig| && HDR_LEN <= cfg.off < |st.bufs[i].data|
    requires |st.tcp| + tcpPool == IDEAL_BATCH_SIZE && |st.udp| + udpPool == IDEAL_BATCH_SIZE
      && FlowsFit(orig, i + 1, cfg)
    ensures TurnReady(st, tcpPool, udpPool, i, cfg)
    ensures Running(orig, Step(st, i, cfg), NextSegs(segs, i, EffectOf(st, i, cfg)), i + 1, cfg)
  {
    StepKeeps(orig, st, segs, i, cfg);
    TrackedStep(orig, st, segs, i, cfg);
    VouchedStep(orig, st, segs, i, cfg);
    TurnReadyExact(orig, st, segs, i, cfg, tcpPool, udpPool);
    CoreNow(orig, st, segs, i, cfg);
    StepOpens(orig, st, i, cfg);
    StepBatch(orig, Step(st, i, cfg), NextSegs(segs, i, EffectOf(st, i, cfg)), i + 1, cfg);
    hide *;
  }

  lemma StepBatch(orig: seq<seq<byte>>, st: GroState, segs: Slots, i: nat, cfg: Config)
    requires Inv(orig, st, segs, i, cfg) && Opened(orig, st, i, cfg) && Vouched(orig, segs, cfg)
    ensures |st.bufs| == |orig|
    ensures Tracked(st, segs, cfg) && cfg.off >= HDR_LEN ==> Running(orig, st, segs, i, cfg)
  {
  }

  /** A packet that leaves no room for a header, or no packet at all. */
  ghost predicate Rejected(orig: seq<seq<byte>>, off: nat, k: nat) {
    k < |orig| && (off < HDR_LEN || orig[k] == [])
  }

  /** The packets before the first one that is rejected open no more flows than the pools have slices. */
  ghost predicate PoolsSuffice(orig: seq<seq<byte>>, cfg: Config) {
    forall n {:trigger FlowsFit(orig, n, cfg)} ::
      0 <= n <= |orig| && (forall k :: 0 <= k < n ==> !Rejected(orig, cfg.off, k)) ==> FlowsFit(orig, n, cfg)
  }

  /** An accepted packet keeps the run going. */
  method Turn(b: Batch, t: TcpGroTable, u: UdpGroTable, i: nat, cfg: Config, le: bool, ghost orig: seq<seq<byte>>,
              ghost segs: Slots)
    returns (ghost segs': Slots)
    requires b.Valid() && t.Valid() && u.Valid() && i < |b.mems| == |orig|
    requires Running(orig, State(b, t, u), segs, i, cfg) && HDR_LEN <= cfg.off < |b.View()[i].data|
    requires FlowsFit(orig, i + 1, cfg)
    modifies b, b.mems, t, u
    ensures b.Valid() && t.Valid() && u.Valid() && SameArrays(b)
    ensures Running(orig, State(b, t, u), segs', i + 1, cfg)
  {
    hide Batch.Valid;
    hide Batch.View;
    hide TurnReady;
    hide Running;
    hide Step;
    hide EffectOf;
    hide NextSegs;
    hide FlowsFit;
    ghost var st := State(b, t, u);
    RunningStep(orig, st, segs, i, cfg, t.itemsPool, u.itemsPool);
    TurnStepOk(st, t.itemsPool, u.itemsPool, i, cfg);
    segs' := NextSegs(segs, i, EffectOf(st, i, cfg));
    HandlePacket(b, i, t, u, cfg, le);
  }

  /** The loop of handleGRO over the batch: it stops at the first packet it rejects. */
  method EvaluateBatch(b: Batch, t: TcpGroTable, u: UdpGroTable, cfg: Config, le: bool)
    returns (failed: bool, ghost segs: Slots)
    requires b.Valid() && t.Valid() && u.Valid() && t.itemsByFlow == map[] && u.itemsByFlow == map[] && b.toWrite == []
    requires |b.mems| <= 0x1_0000 && PoolsSuffice(Originals(b.View(), cfg.off), cfg)
    requires CapacitiesOk(b.View(), cfg.off)
    modifies b, b.mems, t, u
    ensures b.Valid() && t.Valid() && u.Valid() && SameArrays(b)
    ensures failed <==> exists k :: Rejected(Originals(old(b.View()), cfg.off), cfg.off, k)
    ensures !failed ==> Running(Originals(old(b.View()), cfg.off), State(b, t, u), segs, |b.mems|, cfg)
  {
    hide Batch.Valid;
    hide Batch.View;
    hide Running;
    hide PacketIn;
    hide FlowsFit;
    ghost var orig := Originals(b.View(), cfg.off);
    RunningStart(b.View(), cfg);
    hide Originals;
    segs := map[];
    var i := 0;
    while i < |b.mems|
      invariant b.Valid() && t.Valid() && u.Valid() && SameArrays(b) && 0 <= i <= |b.mems|
      invariant Running(orig, State(b, t, u), segs, i, cfg)
      invariant forall k :: 0 <= k < i ==> !Rejected(orig, cfg.off, k)
    {
      RunningNext(orig, State(b, t, u), segs, i, cfg);
      LengthOf(b, i);
      if cfg.off < HDR_LEN || b.lens[i] <= cfg.off {
        assert Rejected(orig, cfg.off, i);
        return true, segs;
      }
      assert FlowsFit(orig, i + 1, cfg);
      segs := Turn(b, t, u, i, cfg, le, orig, segs);
      i := i + 1;
    }
    failed := false;
  }

  lemma TurnStepOk(st: GroState, tcpPool: nat, udpPool: nat, i: nat, cfg: Config)
    requires TurnReady(st, tcpPool, udpPool, i, cfg)
    ensures StepOk(st, i, cfg)
  {
  }

  lemma LengthOf(b: Batch, i: nat)
    requires b.Valid() && i < |b.mems|
    ensures |b.lens| == |b.mems| && |b.View()[i].data| == b.lens[i]
  {
  }

  /** A flow's datagrams leave in arrival order. */
  ghost predicate FlowInOrder(orig: seq<seq<byte>>, items: seq<UdpItem>, toWrite: seq<nat>, segs: Slots,
                              key: UdpKey, cfg: Config)
  {
    && Flatten(items, segs) == Arrivals(orig, |orig|, key, cfg)
    && (forall j :: 0 <= j < |items| ==> items[j].bufsIndex in toWrite)
    && (forall j, j' :: 0 <= j < j' < |items| ==> items[j].bufsIndex < items[j'].bufsIndex)
  }

  /** What the end of the loop gives the accounting. */
  lemma RunningDone(orig: seq<seq<byte>>, st: GroState, segs: Slots, cfg: Config)
    requires Running(orig, st, segs, |orig|, cfg) && (orig != [] ==> cfg.off >= HDR_LEN)
    ensures TcpTableOk(orig, st.bufs, segs, st.tcp, cfg.off) && UdpTableOk(orig, st.bufs, segs, st.udp, cfg.off)
    ensures TcpApart(st.tcp) && UdpApart(st.udp)
    ensures forall key :: key in st.tcp ==> TcpFlowReady(st.bufs, st.tcp[key], cfg.off)
    ensures forall key :: key in st.udp ==> UdpFlowReady(st.bufs, st.udp[key], cfg.off)
    ensures forall key :: key in st.udp ==> FlowInOrder(orig, st.udp[key], st.toWrite, segs, key, cfg)
  {
    hide TcpFlowOk;
    hide UdpFlowOk;
    hide UdpFlowReady;
    hide TcpFlowReady;
    TcpFlowsApart(orig, st.bufs, segs, st.tcp, cfg.off);
    UdpFlowsApart(orig, st.bufs, segs, st.udp, cfg.off);
    if cfg.off >= HDR_LEN {
      TcpReadyToAccount(orig, st.bufs, segs, st.tcp, cfg.off);
      UdpReadyToAccount(orig, st.bufs, segs, st.udp, cfg.off);
      hide Core;
      hide TcpTableOk;
      hide UdpTableOk;
      hide UdpOrdered;
      forall key | key in st.udp ensures FlowInOrder(orig, st.udp[key], st.toWrite, segs, key, cfg) {
        UdpInOrder(orig, st, segs, cfg, key);
      }
    }
  }

  lemma RunningConserved(orig: seq<seq<byte>>, st: GroState, segs: Slots, cfg: Config, w: seq<Pkt>, le: bool)
    requires Running(orig, st, segs, |orig|, cfg) && (orig != [] ==> cfg.off >= HDR_LEN)
    requires Accounted(st, w, cfg.off, le)
    ensures Conserved(orig, w, st.toWrite, segs, cfg, le)
  {
    hide Inv;
    hide Tracked;
    hide Accounted;
    if cfg.off >= HDR_LEN {
      BatchConserved(orig, st, segs, cfg, w, le);
    }
  }

  /**
  handleGRO.  It fails exactly when some packet leaves no room for a header or is empty.
  Otherwise the written buffers carry exactly the packets of the batch, and the datagrams of
  every tracked flow leave in the order they came.
  */
  method HandleGRO(b: Batch, t: TcpGroTable, u: UdpGroTable, cfg: Config, le: bool)
    returns (failed: bool, ghost segs: Slots)
    requires b.Valid() && t.Valid() && u.Valid() && t.itemsByFlow == map[] && u.itemsByFlow == map[] && b.toWrite == []
    requires |b.mems| <= 0x1_0000 && PoolsSuffice(Originals(b.View(), cfg.off), cfg)
    requires CapacitiesOk(b.View(), cfg.off)
    modifies b, b.mems, t, u
    ensures b.Valid() && t.Valid() && u.Valid()
    ensures failed <==> exists k :: Rejected(Originals(old(b.View()), cfg.off), cfg.off, k)
    ensures !failed ==> Conserved(Originals(old(b.View()), cfg.off), b.View(), b.toWrite, segs, cfg, le)
    ensures !failed ==> forall key :: key in u.itemsByFlow ==>
      FlowInOrder(Originals(old(b.View()), cfg.off), u.itemsByFlow[key], b.toWrite, segs, key, cfg)
  {
    hide Batch.Valid;
    hide Batch.View;
    hide Running;
    hide Conserved;
    hide FlowInOrder;
    hide TcpFlowReady;
    hide UdpFlowReady;
    hide TcpFlowDone;
    hide UdpFlowDone;
    hide TcpTableOk;
    hide UdpTableOk;
    hide TcpApart;
    hide UdpApart;
    hide Accounted;
    hide PoolsSuffice;
    ghost var orig := Originals(b.View(), cfg.off);
    failed, segs := EvaluateBatch(b, t, u, cfg, le);
    if !failed {
      assert orig != [] ==> cfg.off >= HDR_LEN by {
        assert orig != [] ==> !Rejected(orig, cfg.off, 0);
      }
      ghost var st := State(b, t, u);
      RunningDone(orig, st, segs, cfg);
      ApplyTcpCoalesceAccounting(b, cfg.off, t, le);
      ghost var w := b.View();
      UdpReadyStill(orig, st, segs, w, cfg.off);
      ApplyUdpCoalesceAccounting(b, cfg.off, u, le);
      BothAccounted(orig, st, segs, w, b.View(), cfg.off, le);
      RunningConserved(orig, st, segs, cfg, b.View(), le);
    }
  }

  /** TCP accounting leaves the UDP flows ready. */
  lemma UdpReadyStill(orig: seq<seq<byte>>, st: GroState, segs: Slots, w: seq<Pkt>, off: nat)
    requires TcpTableOk(orig, st.bufs, segs, st.tcp, off) && UdpTableOk(orig, st.bufs, segs, st.udp, off)
    requires |w| == |st.bufs| && forall k :: 0 <= k < |w| && !HasTcp(st.tcp, k) ==> w[k] == st.bufs[k]
    requires forall key :: key in st.udp ==> UdpFlowReady(st.bufs, st.udp[key], off)
    ensures forall key :: key in st.udp ==> UdpFlowReady(w, st.udp[key], off)
  {
    hide TcpTableOk;
    hide UdpTableOk;
    hide UdpAccountable;
    forall key | key in st.udp ensures UdpFlowReady(w, st.udp[key], off) {
      var items := st.udp[key];
      assert UdpFlowReady(st.bufs, items, off);
      forall j | 0 <= j < |items| ensures w[items[j].bufsIndex] == st.bufs[items[j].bufsIndex] {
        assert UdpItemsHave(items, items[j].bufsIndex);
        ProtocolsApart(orig, st, segs, off, items[j].bufsIndex);
      }
    }
  }
}
