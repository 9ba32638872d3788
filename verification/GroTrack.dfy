/**
Which written buffers get a virtio header of their own: every slot has an item, a zero header, or
was dropped from its table.
*/
module GroTrack {
  import opened Wrappers
  import opened Bytes
  import opened GsoSpec
  import opened GsoProperties
  import opened Virtio
  import opened GroModel
  import opened GroGroup
  import opened GroInvariant
  import opened GroSteps
  import opened GroRun
  import opened GroUdp

  ghost predicate ItemsHave(items: seq<TcpItem>, k: nat) {
    exists j :: 0 <= j < |items| && items[j].bufsIndex == k
  }

  ghost predicate UdpItemsHave(items: seq<UdpItem>, k: nat) {
    exists j :: 0 <= j < |items| && items[j].bufsIndex == k
  }

  ghost predicate HasTcp(table: TcpTable, k: nat) {
    exists key :: key in table && ItemsHave(table[key], k)
  }

  ghost predicate HasUdp(table: UdpTable, k: nat) {
    exists key :: key in table && UdpItemsHave(table[key], k)
  }

  predicate ZeroHeaded(d: seq<byte>, off: nat) {
    HDR_LEN <= off <= |d| && d[off - HDR_LEN..off] == seq(HDR_LEN, _ => 0)
  }

  /** A packet that tcpGRO takes up although its checksum is wrong. */
  ghost predicate BadTcp(p: seq<byte>) {
    exists isV6 :: BadTcpOf(p, isV6)
  }

  predicate BadTcpOf(p: seq<byte>, isV6: bool) {
    && Plausible(p, isV6, PROTO_TCP) && TcpMetaOf(p, isV6).Some?
    && !ChecksumValid(p, IphLen(isV6), PROTO_TCP, Ver(isV6))
  }

  /** A lone packet under a zero header, or one dropped from its table for its checksum. */
  ghost predicate Alone(d: seq<byte>, cfg: Config) {
    ZeroHeaded(d, cfg.off) || (!cfg.skip && cfg.off <= |d| && BadTcp(d[cfg.off..]))
  }

  /** A slot without item carries one packet on its own. */
  ghost predicate SlotTracked(st: GroState, k: nat, carried: seq<nat>, cfg: Config) {
    && k < |st.bufs|
    && (HasTcp(st.tcp, k) || HasUdp(st.udp, k) || (|carried| == 1 && Alone(st.bufs[k].data, cfg)))
  }

  ghost predicate Tracked(st: GroState, segs: Slots, cfg: Config) {
    forall k :: k in segs ==> SlotTracked(st, k, segs[k], cfg)
  }

  /** The packet of an item fails validation. */
  predicate FailsCheck(bufs: seq<Pkt>, item: TcpItem, i: nat, m: TcpMeta, off: nat)
    requires ItemFits(bufs, i, m, item, off)
  {
    !ChecksumValid(bufs[item.bufsIndex].data[off..], item.iphLen, PROTO_TCP, Ver(m.isV6))
  }

  /** A scan drops only unmerged items whose packet fails validation, and only when it validates. */
  lemma {:induction false} ScanTracks(bufs: seq<Pkt>, items: seq<TcpItem>, n: nat, i: nat, m: TcpMeta, off: nat,
                                      skip: bool, x: nat)
    requires n <= |items| && ScanOk(bufs, items, i, m, off) && x < |items|
    ensures ItemsHave(TcpScan(bufs, items, n, i, m, off, skip).items, items[x].bufsIndex)
      || (!skip && items[x].numMerged == 0 && FailsCheck(bufs, items[x], i, m, off))
    decreases n
  {
    hide TcpCanCoalesce;
    hide ChecksumValid;
    hide TcpMergedData;
    hide MergedBufs;
    if n > 0 {
      var item := items[n - 1];
      var can := TcpCanCoalesce(bufs[i].data[off..], m, item, bufs[item.bufsIndex].data[off..]);
      if can == Unavailable {
        ScanTracks(bufs, items, n - 1, i, m, off, skip, x);
      } else {
        match TcpCoalesceCheck(can, bufs[i], m, item, bufs[item.bufsIndex], off, skip) {
          case Success =>
            assert items[n - 1 := TcpMergedItem(can, m, item)][x].bufsIndex == items[x].bufsIndex;
          case ItemInvalidCSum =>
            if x != n - 1 {
              var rest, y := items[..n - 1] + items[n..], if x < n - 1 then x else x - 1;
              assert rest[y] == items[x];
              ScanTracks(bufs, rest, n - 1, i, m, off, skip, y);
            }
          case PktInvalidCSum =>
            assert items[x].bufsIndex == items[x].bufsIndex;
          case _ =>
            ScanTracks(bufs, items, n - 1, i, m, off, skip, x);
        }
      }
    } else {
      assert items[x].bufsIndex == items[x].bufsIndex;
    }
  }

  /** Only the merged slot and the packet's own change. */
  ghost predicate ScanTouches(bufs: seq<Pkt>, i: nat, r: ScanResult) {
    match r.effect
    case Merged(k, _) =>
      && |r.bufs| == |bufs| && ItemsHave(r.items, k)
      && (forall s :: 0 <= s < |bufs| && s != k && s != i ==> r.bufs[s] == bufs[s])
    case _ => r.bufs == bufs
  }

  lemma {:induction false} ScanTouched(bufs: seq<Pkt>, items: seq<TcpItem>, n: nat, i: nat, m: TcpMeta, off: nat,
                                       skip: bool)
    requires n <= |items| && ScanOk(bufs, items, i, m, off)
    ensures ScanTouches(bufs, i, TcpScan(bufs, items, n, i, m, off, skip))
    decreases n
  {
    hide TcpCanCoalesce;
    hide TcpCoalesceCheck;
    hide TcpMergedData;
    if n > 0 {
      var item := items[n - 1];
      var can := TcpCanCoalesce(bufs[i].data[off..], m, item, bufs[item.bufsIndex].data[off..]);
      if can == Unavailable {
        ScanTouched(bufs, items, n - 1, i, m, off, skip);
      } else {
        match TcpCoalesceCheck(can, bufs[i], m, item, bufs[item.bufsIndex], off, skip) {
          case Success =>
            assert items[n - 1 := TcpMergedItem(can, m, item)][n - 1].bufsIndex == item.bufsIndex;
          case ItemInvalidCSum =>
            ScanTouched(bufs, items[..n - 1] + items[n..], n - 1, i, m, off, skip);
          case PktInvalidCSum =>
          case _ =>
            ScanTouched(bufs, items, n - 1, i, m, off, skip);
        }
      }
    }
  }

  lemma ZeroHeaderHeaded(d: seq<byte>, off: nat)
    requires HDR_LEN <= off <= |d|
    ensures ZeroHeaded(ZeroHeader(d, off), off)
  {
  }

  /** An unmerged item whose packet fails validation leaves that packet alone in its slot. */
  lemma DroppedAlone(orig: seq<seq<byte>>, bufs: seq<Pkt>, segs: Slots, items: seq<TcpItem>, x: nat, i: nat,
                     m: TcpMeta, cfg: Config)
    requires TcpFlowOk(orig, bufs, segs, m.key, items, cfg.off) && !cfg.skip
    requires x < |items| && items[x].numMerged == 0
    requires ItemFits(bufs, i, m, items[x], cfg.off) && FailsCheck(bufs, items[x], i, m, cfg.off)
    ensures var k := items[x].bufsIndex; k in segs && |segs[k]| == 1 && Alone(bufs[k].data, cfg)
  {
    hide Layout;
    hide TcpMetaOf;
    hide ChecksumValid;
    var item := items[x];
    assert TcpItemOk(orig, bufs, segs, item, cfg.off);
    assert TcpMember(orig[segs[item.bufsIndex][0]], item, 0);
    assert BadTcpOf(bufs[item.bufsIndex].data[cfg.off..], item.key.isV6);
  }

  /** A slot other than the packet's own and the merged one stays tracked through tcpGRO. */
  lemma TcpOtherTracked(orig: seq<seq<byte>>, st: GroState, st': GroState, segs: Slots, i: nat, m: TcpMeta,
                        cfg: Config, k: nat)
    requires TcpTableOk(orig, st.bufs, segs, st.tcp, cfg.off)
    requires m.key in st.tcp && i < |st.bufs|
    requires ScanOk(st.bufs, st.tcp[m.key], i, m, cfg.off)
    requires k in segs && SlotTracked(st, k, segs[k], cfg)
    requires |st'.bufs| == |st.bufs| && st'.bufs[k] == st.bufs[k] && st'.udp == st.udp
    requires var r := TcpScan(st.bufs, st.tcp[m.key], |st.tcp[m.key]|, i, m, cfg.off, cfg.skip);
      exists tail :: st'.tcp == st.tcp[m.key := r.items + tail]
    ensures SlotTracked(st', k, segs[k], cfg)
  {
    hide TcpScan;
    hide TcpItemOk;
    hide Alone;
    hide FailsCheck;
    var items := st.tcp[m.key];
    var r := TcpScan(st.bufs, items, |items|, i, m, cfg.off, cfg.skip);
    var tail :| st'.tcp == st.tcp[m.key := r.items + tail];
    if HasTcp(st.tcp, k) {
      var key :| key in st.tcp && ItemsHave(st.tcp[key], k);
      if key == m.key {
        var x :| 0 <= x < |items| && items[x].bufsIndex == k;
        ScanTracks(st.bufs, items, |items|, i, m, cfg.off, cfg.skip, x);
        if ItemsHave(r.items, k) {
          var y :| 0 <= y < |r.items| && r.items[y].bufsIndex == k;
          assert (r.items + tail)[y].bufsIndex == k;
          assert ItemsHave(st'.tcp[m.key], k);
        } else {
          assert TcpFlowOk(orig, st.bufs, segs, m.key, items, cfg.off);
          DroppedAlone(orig, st.bufs, segs, items, x, i, m, cfg);
        }
      } else {
        assert ItemsHave(st'.tcp[key], k);
      }
    }
  }

  lemma TableHas(table: TcpTable, key: TcpKey, items: seq<TcpItem>, j: nat)
    requires j < |items|
    ensures HasTcp(table[key := items], items[j].bufsIndex)
  {
    assert ItemsHave(table[key := items][key], items[j].bufsIndex);
  }

  /** A packet put on the wire is tracked: by its new item, or by the zero header just written. */
  lemma OwnTracked(st: GroState, i: nat, m: TcpMeta, table: TcpTable, items: seq<TcpItem>, effect: Effect, cfg: Config)
    requires i < |st.bufs| <= 0x1_0000 && HDR_LEN <= cfg.off <= |st.bufs[i].data| && !effect.Merged?
    requires effect == Insert ==> table == st.tcp[m.key := items + [NewTcpItem(m, i)]]
    ensures SlotTracked(Written(st.(tcp := table), i, effect, cfg.off), i, [i], cfg)
  {
    hide ZeroHeader;
    if effect == Insert {
      TableHas(st.tcp, m.key, items + [NewTcpItem(m, i)], |items|);
    } else {
      ZeroHeaderHeaded(st.bufs[i].data, cfg.off);
    }
  }

  lemma TcpKnownTracked(orig: seq<seq<byte>>, st: GroState, segs: Slots, i: nat, m: TcpMeta, cfg: Config)
    requires Inv(orig, st, segs, i, cfg) && i < |orig| && Ready(st, i, cfg) && Tracked(st, segs, cfg) && i !in segs
    requires m.key in st.tcp && EntryOf(orig[i], cfg, |orig|) == TcpEntry(m) && StepOk(st, i, cfg) && |orig| != 1
    requires st.bufs[i].data[cfg.off..] == orig[i] && |st.bufs| == |orig|
    ensures Tracked(Step(st, i, cfg), NextSegs(segs, i, EffectOf(st, i, cfg)), cfg)
  {
    hide EntryOf;
    hide TcpScan;
    hide TcpMetaOf;
    hide Inv;
    hide SlotTracked;
    hide ScanOk;
    hide ZeroHeader;
    InvTcp(orig, st, segs, i, cfg);
    hide TcpTableOk;
    var items := st.tcp[m.key];
    var r := TcpScan(st.bufs, items, |items|, i, m, cfg.off, cfg.skip);
    ScanTouched(st.bufs, items, |items|, i, m, cfg.off, cfg.skip);
    var st', segs' := Step(st, i, cfg), NextSegs(segs, i, r.effect);
    var tail := if r.effect == Insert then [NewTcpItem(m, i)] else [];
    assert r.items + [] == r.items;
    assert st'.tcp == st.tcp[m.key := r.items + tail];
    forall k | k in segs' ensures SlotTracked(st', k, segs'[k], cfg) {
      if k == i {
        OwnTracked(st, i, m, st'.tcp, r.items, r.effect, cfg);
      } else if r.effect.Merged? && k == r.effect.slot {
        var y :| 0 <= y < |r.items| && r.items[y].bufsIndex == k;
        TableHas(st.tcp, m.key, r.items, y);
        ItemTracked(st', k, segs'[k], cfg);
      } else {
        TcpOtherTracked(orig, st, st', segs, i, m, cfg, k);
      }
    }
  }

  lemma ItemTracked(st: GroState, k: nat, carried: seq<nat>, cfg: Config)
    requires k < |st.bufs| && (HasTcp(st.tcp, k) || HasUdp(st.udp, k))
    ensures SlotTracked(st, k, carried, cfg)
  {
  }

  lemma InvTcp(orig: seq<seq<byte>>, st: GroState, segs: Slots, i: nat, cfg: Config)
    requires Inv(orig, st, segs, i, cfg)
    ensures TcpTableOk(orig, st.bufs, segs, st.tcp, cfg.off) && |st.bufs| == |orig| <= 0x1_0000
    ensures cfg.off >= HDR_LEN
    ensures forall k :: k in segs ==> k < i && k < |st.bufs|
  {
  }

  lemma NewFlowKeeps(table: TcpTable, key: TcpKey, items: seq<TcpItem>, k: nat)
    requires key !in table && HasTcp(table, k)
    ensures HasTcp(table[key := items], k)
  {
    var x :| x in table && ItemsHave(table[x], k);
    assert ItemsHave(table[key := items][x], k);
  }

  /** The step of a packet that opens a flow. */
  lemma NewFlowStep(st: GroState, i: nat, m: TcpMeta, cfg: Config)
    requires StepOk(st, i, cfg) && EntryOf(st.bufs[i].data[cfg.off..], cfg, |st.bufs|) == TcpEntry(m)
    requires m.key !in st.tcp && |st.bufs| != 1
    ensures EffectOf(st, i, cfg) == Insert
    ensures Step(st, i, cfg) == st.(tcp := st.tcp[m.key := [NewTcpItem(m, i)]], toWrite := st.toWrite + [i])
  {
    hide EntryOf;
    hide TcpScan;
    hide TcpTableFits;
    hide TcpMetaOf;
  }

  lemma TcpNewTracked(orig: seq<seq<byte>>, st: GroState, segs: Slots, i: nat, m: TcpMeta, cfg: Config)
    requires Inv(orig, st, segs, i, cfg) && i < |orig| && Ready(st, i, cfg) && Tracked(st, segs, cfg) && i !in segs
    requires m.key !in st.tcp && EntryOf(orig[i], cfg, |orig|) == TcpEntry(m) && StepOk(st, i, cfg) && |orig| != 1
    requires st.bufs[i].data[cfg.off..] == orig[i] && |st.bufs| == |orig|
    ensures Tracked(Step(st, i, cfg), NextSegs(segs, i, EffectOf(st, i, cfg)), cfg)
  {
    hide EntryOf;
    hide Inv;
    hide TcpTableOk;
    hide HasTcp;
    hide HasUdp;
    hide Alone;
    hide StepOk;
    hide Step;
    hide EffectOf;
    InvTcp(orig, st, segs, i, cfg);
    NewFlowStep(st, i, m, cfg);
    var st', segs' := Step(st, i, cfg), NextSegs(segs, i, Insert);
    TableHas(st.tcp, m.key, [NewTcpItem(m, i)], 0);
    forall k | k in segs' ensures SlotTracked(st', k, segs'[k], cfg) {
      if k != i && HasTcp(st.tcp, k) {
        NewFlowKeeps(st.tcp, m.key, [NewTcpItem(m, i)], k);
      }
    }
  }

  lemma NoEntryTracked(orig: seq<seq<byte>>, st: GroState, segs: Slots, i: nat, cfg: Config)
    requires Inv(orig, st, segs, i, cfg) && i < |orig| && Ready(st, i, cfg) && Tracked(st, segs, cfg) && i !in segs
    requires EntryOf(orig[i], cfg, |orig|).NoEntry? && StepOk(st, i, cfg)
    requires st.bufs[i].data[cfg.off..] == orig[i] && |st.bufs| == |orig|
    ensures Tracked(Step(st, i, cfg), NextSegs(segs, i, EffectOf(st, i, cfg)), cfg)
  {
    hide EntryOf;
    hide Inv;
    hide HasTcp;
    hide HasUdp;
    hide ZeroHeaded;
    hide ZeroHeader;
    ZeroHeaderHeaded(st.bufs[i].data, cfg.off);
    var st', segs' := Step(st, i, cfg), NextSegs(segs, i, Noop);
    forall k | k in segs' ensures SlotTracked(st', k, segs'[k], cfg) {
    }
  }

  /** The UDP items of a flow never leave the table. */
  ghost predicate UdpGrows(table: UdpTable, table': UdpTable, key: UdpKey) {
    && key in table' && table' == table[key := table'[key]]
    && (key in table ==>
          && |table[key]| <= |table'[key]|
          && forall x :: 0 <= x < |table[key]| ==> table'[key][x].bufsIndex == table[key][x].bufsIndex)
  }

  lemma UdpGrowsHas(table: UdpTable, table': UdpTable, key: UdpKey, k: nat)
    requires UdpGrows(table, table', key) && HasUdp(table, k)
    ensures HasUdp(table', k)
  {
    var key' :| key' in table && UdpItemsHave(table[key'], k);
    if key' == key {
      var x :| 0 <= x < |table[key]| && table[key][x].bufsIndex == k;
      assert table'[key][x].bufsIndex == k;
    }
    assert UdpItemsHave(table'[key'], k);
  }

  /** What a UDP step does to the tables and the buffers. */
  lemma UdpStepGrows(st: GroState, i: nat, m: UdpMeta, cfg: Config)
    requires UdpTableFits(st.bufs, st.udp, i, m, cfg.off) && |st.bufs| != 1 && |st.bufs| <= 0x1_0000
    ensures var r := UdpGro(st.bufs, st.udp, i, m, cfg.off, cfg.skip);
      && UdpGrows(st.udp, r.table, m.key) && r.effect != Noop && |r.bufs| == |st.bufs|
      && (r.effect.Merged? ==> HasUdp(st.udp, r.effect.slot))
      && (r.effect.Merged? ==> forall s :: 0 <= s < |st.bufs| && s != r.effect.slot ==> r.bufs[s] == st.bufs[s])
      && (!r.effect.Merged? ==> r.bufs == st.bufs && HasUdp(r.table, i))
  {
    hide UdpCanCoalesce;
    hide UdpCoalesceCheck;
    var r := UdpGro(st.bufs, st.udp, i, m, cfg.off, cfg.skip);
    var items := r.table[m.key];
    if r.effect.Merged? {
      var last := |st.udp[m.key]| - 1;
      assert st.udp[m.key][last].bufsIndex == r.effect.slot;
      assert UdpItemsHave(st.udp[m.key], r.effect.slot);
    } else {
      assert items[|items| - 1].bufsIndex == i;
      assert UdpItemsHave(items, i);
    }
  }

  lemma UdpTracked(orig: seq<seq<byte>>, st: GroState, segs: Slots, i: nat, m: UdpMeta, cfg: Config)
    requires Inv(orig, st, segs, i, cfg) && i < |orig| && Ready(st, i, cfg) && Tracked(st, segs, cfg) && i !in segs
    requires EntryOf(orig[i], cfg, |orig|) == UdpEntry(m) && StepOk(st, i, cfg) && |orig| != 1
    requires st.bufs[i].data[cfg.off..] == orig[i] && |st.bufs| == |orig|
    ensures Tracked(Step(st, i, cfg), NextSegs(segs, i, EffectOf(st, i, cfg)), cfg)
  {
    hide EntryOf;
    hide Inv;
    hide UdpGro;
    hide UdpGrows;
    hide HasUdp;
    hide HasTcp;
    hide UdpMetaOf;
    hide ZeroHeaded;
    InvTcp(orig, st, segs, i, cfg);
    hide TcpTableOk;
    UdpStepGrows(st, i, m, cfg);
    var r := UdpGro(st.bufs, st.udp, i, m, cfg.off, cfg.skip);
    var st', segs' := Step(st, i, cfg), NextSegs(segs, i, r.effect);
    forall k | k in segs' ensures SlotTracked(st', k, segs'[k], cfg) {
      if HasUdp(st.udp, k) {
        UdpGrowsHas(st.udp, r.table, m.key, k);
      }
    }
  }

  lemma TrackedStep(orig: seq<seq<byte>>, st: GroState, segs: Slots, i: nat, cfg: Config)
    requires Inv(orig, st, segs, i, cfg) && i < |orig| && Ready(st, i, cfg) && Tracked(st, segs, cfg)
    ensures StepOk(st, i, cfg)
    ensures Tracked(Step(st, i, cfg), NextSegs(segs, i, EffectOf(st, i, cfg)), cfg)
  {
    StepKeeps(orig, st, segs, i, cfg);
    CoreNow(orig, st, segs, i, cfg);
    InvTcp(orig, st, segs, i, cfg);
    EntryBatch(orig[i], cfg, |orig|);
    assert i !in segs;
    hide Inv;
    hide EntryOf;
    hide Step;
    hide EffectOf;
    hide Tracked;
    hide StepOk;
    match EntryOf(orig[i], cfg, |orig|) {
      case NoEntry =>
        NoEntryTracked(orig, st, segs, i, cfg);
      case TcpEntry(m) =>
        if m.key in st.tcp {
          TcpKnownTracked(orig, st, segs, i, m, cfg);
        } else {
          TcpNewTracked(orig, st, segs, i, m, cfg);
        }
      case UdpEntry(m) =>
        UdpTracked(orig, st, segs, i, m, cfg);
    }
  }
}
