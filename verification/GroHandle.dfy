/** tcpGRO, udpGRO and one turn of handleGRO in place. */
module GroHandle {
  import opened Wrappers
  import opened Bytes
  import opened GsoSpec
  import opened GsoProperties
  import opened GroModel
  import opened GroBuffers
  import opened GroEngine
  import opened GroRun
  import opened GroTrack
  import opened Virtio
  import opened GroGroup
  import opened GroInvariant
  import opened GroSteps
  import opened GroUdp

  /** What tcpGRO needs of its table: the items of the flow fit, or a slice for a new flow is left. */
  ghost predicate TcpReady(v: seq<Pkt>, table: TcpTable, pool: nat, i: nat, m: TcpMeta, off: nat) {
    && TcpTableFits(v, table, i, m, off)
    && (if m.key in table then FlowScannable(v, table, i, m, off) else pool > 0)
  }

  method TcpGRO(b: Batch, off: nat, i: nat, t: TcpGroTable, isV6: bool, skip: bool) returns (result: GroResult)
    requires b.Valid() && t.Valid() && i < |b.mems| && off <= b.lens[i] && Plausible(b.Packet(i, off), isV6, PROTO_TCP)
    requires var meta := TcpMetaOf(b.Packet(i, off), isV6);
      meta.Some? && |b.mems| > 1 ==> TcpReady(b.View(), t.itemsByFlow, t.itemsPool, i, meta.value, off)
    modifies b`mems, b`lens, b.mems, t
    ensures b.Valid() && t.Valid() && SameArrays(b)
    ensures var meta := TcpMetaOf(old(b.Packet(i, off)), isV6);
      if meta.None? || |b.mems| == 1 then
        result == GroNoop && b.View() == old(b.View()) && t.itemsByFlow == old(t.itemsByFlow)
      else
        var s := TcpGro(old(b.View()), old(t.itemsByFlow), i, meta.value, off, skip);
        result == ResultOf(s.effect) && b.View() == s.bufs && t.itemsByFlow == s.table
  {
    hide TcpScan;
    hide Batch.Valid;
    hide Batch.View;
    hide Batch.Packet;
    hide TcpMetaOf;
    hide Plausible;
    hide ScanOk;
    var meta := TcpMetaOf(b.Packet(i, off), isV6);
    if meta.None? || |b.mems| == 1 {
      return GroNoop;
    }
    var m := meta.value;
    if m.key !in t.itemsByFlow {
      t.Insert(m.key, NewTcpItem(m, i));
      assert [] + [NewTcpItem(m, i)] == [NewTcpItem(m, i)];
      return GroTableInsert;
    }
    result := ScanFlow(b, off, i, t, m, skip);
  }

  ghost predicate UdpReady(v: seq<Pkt>, table: UdpTable, pool: nat, i: nat, m: UdpMeta, off: nat) {
    && UdpTableFits(v, table, i, m, off) && i < |v| && off + m.iphLen + 8 <= |v[i].data|
    && (if m.key in table then table[m.key][|table[m.key]| - 1].key == m.key else pool > 0)
  }

  method UdpGRO(b: Batch, off: nat, i: nat, t: UdpGroTable, isV6: bool, skip: bool) returns (result: GroResult)
    requires b.Valid() && t.Valid() && i < |b.mems| && off <= b.lens[i] && Plausible(b.Packet(i, off), isV6, PROTO_UDP)
    requires var meta := UdpMetaOf(b.Packet(i, off), isV6);
      meta.Some? && |b.mems| > 1 ==> UdpReady(b.View(), t.itemsByFlow, t.itemsPool, i, meta.value, off)
    modifies b`lens, b.mems, t
    ensures b.Valid() && t.Valid()
    ensures var meta := UdpMetaOf(old(b.Packet(i, off)), isV6);
      if meta.None? || |b.mems| == 1 then
        result == GroNoop && b.View() == old(b.View()) && t.itemsByFlow == old(t.itemsByFlow)
      else
        var s := UdpGro(old(b.View()), old(t.itemsByFlow), i, meta.value, off, skip);
        result == ResultOf(s.effect) && b.View() == s.bufs && t.itemsByFlow == s.table
  {
    hide Batch.Valid;
    hide Batch.View;
    hide Batch.At;
    hide Batch.Packet;
    hide UdpMetaOf;
    hide Plausible;
    hide UdpCanCoalesce;
    hide UdpCoalesceCheck;
    hide MergedBufs;
    hide NewUdpItem;
    var meta := UdpMetaOf(b.Packet(i, off), isV6);
    if meta.None? || |b.mems| == 1 {
      return GroNoop;
    }
    var m := meta.value;
    if m.key !in t.itemsByFlow {
      t.Insert(m.key, NewUdpItem(m, i, false));
      assert [] + [NewUdpItem(m, i, false)] == [NewUdpItem(m, i, false)];
      return GroTableInsert;
    }
    var items := t.itemsByFlow[m.key];
    var last := |items| - 1;
    var item, invalid := items[last], false;
    if UdpCanCoalesce(b.Packet(i, off), m, item, b.Packet(item.bufsIndex, off)) {
      var outcome, merged := CoalesceUDPPackets(b, i, m, item, off, skip);
      if outcome == Success {
        t.UpdateAt(merged, last);
        return GroCoalesced;
      }
      invalid := outcome == PktInvalidCSum;
    }
    t.Insert(m.key, NewUdpItem(m, i, invalid));
    result := GroTableInsert;
  }

  ghost function State(b: Batch, t: TcpGroTable, u: UdpGroTable): GroState
    requires b.Valid()
    reads b, b.mems, t, u
  {
    GroState(b.View(), t.itemsByFlow, u.itemsByFlow, b.toWrite)
  }

  /** What a turn of handleGRO needs: the tables are ready for the packet, if it is a candidate. */
  ghost predicate TurnReady(st: GroState, tcpPool: nat, udpPool: nat, i: nat, cfg: Config) {
    && StepOk(st, i, cfg)
    && match EntryOf(st.bufs[i].data[cfg.off..], cfg, |st.bufs|)
       case NoEntry => true
       case TcpEntry(m) => TcpReady(st.bufs, st.tcp, tcpPool, i, m, cfg.off)
       case UdpEntry(m) => UdpReady(st.bufs, st.udp, udpPool, i, m, cfg.off)
  }

  /** The result of a step, before the packet's index is noted for writing. */
  ghost predicate Handled(old_: GroState, st: GroState, result: GroResult, i: nat, cfg: Config)
    requires StepOk(old_, i, cfg)
  {
    && st.toWrite == old_.toWrite
    && match EntryOf(old_.bufs[i].data[cfg.off..], cfg, |old_.bufs|)
       case NoEntry => result == GroNoop && st == old_
       case TcpEntry(m) =>
         var s := TcpGro(old_.bufs, old_.tcp, i, m, cfg.off, cfg.skip);
         result == ResultOf(s.effect) && st == old_.(bufs := s.bufs, tcp := s.table)
       case UdpEntry(m) =>
         var s := UdpGro(old_.bufs, old_.udp, i, m, cfg.off, cfg.skip);
         result == ResultOf(s.effect) && st == old_.(bufs := s.bufs, udp := s.table)
  }

  /** A candidate is what its family's parser is given. */
  lemma CandidateEntry(p: seq<byte>, cfg: Config, batch: nat)
    ensures match CandidateOf(p, cfg.canTCP, cfg.canUDP)
      case NotCandidate => EntryOf(p, cfg, batch) == NoEntry
      case Tcp4 => Plausible(p, false, PROTO_TCP) && EntryOf(p, cfg, batch) == TcpEntryIf(p, false, batch)
      case Tcp6 => Plausible(p, true, PROTO_TCP) && EntryOf(p, cfg, batch) == TcpEntryIf(p, true, batch)
      case Udp4 => Plausible(p, false, PROTO_UDP) && EntryOf(p, cfg, batch) == UdpEntryIf(p, false, batch)
      case Udp6 => Plausible(p, true, PROTO_UDP) && EntryOf(p, cfg, batch) == UdpEntryIf(p, true, batch)
  {
    hide TcpMetaOf;
    hide UdpMetaOf;
  }

  function TcpEntryIf(p: seq<byte>, isV6: bool, batch: nat): Entry
    requires Plausible(p, isV6, PROTO_TCP)
  {
    if batch != 1 && TcpMetaOf(p, isV6).Some? then TcpEntry(TcpMetaOf(p, isV6).value) else NoEntry
  }

  function UdpEntryIf(p: seq<byte>, isV6: bool, batch: nat): Entry
    requires Plausible(p, isV6, PROTO_UDP)
  {
    if batch != 1 && UdpMetaOf(p, isV6).Some? then UdpEntry(UdpMetaOf(p, isV6).value) else NoEntry
  }

  /** The switch over packetIsGROCandidate. */
  method Dispatch(b: Batch, i: nat, t: TcpGroTable, u: UdpGroTable, cfg: Config) returns (result: GroResult)
    requires b.Valid() && t.Valid() && u.Valid()
    requires TurnReady(State(b, t, u), t.itemsPool, u.itemsPool, i, cfg)
    modifies b`mems, b`lens, b.mems, t, u
    ensures b.Valid() && t.Valid() && u.Valid() && SameArrays(b)
    ensures Handled(old(State(b, t, u)), State(b, t, u), result, i, cfg)
  {
    hide Batch.Valid;
    hide Batch.View;
    hide Batch.At;
    hide Batch.Packet;
    hide EntryOf;
    hide CandidateOf;
    hide Plausible;
    hide TcpMetaOf;
    hide UdpMetaOf;
    hide TcpReady;
    hide UdpReady;
    hide TcpGro;
    hide UdpGro;
    hide TcpTableFits;
    hide UdpTableFits;
    ghost var p := b.Packet(i, cfg.off);
    CandidateEntry(b.Packet(i, cfg.off), cfg, |b.mems|);
    match CandidateOf(b.Packet(i, cfg.off), cfg.canTCP, cfg.canUDP) {
      case Tcp4 =>
        result := TcpGRO(b, cfg.off, i, t, false, cfg.skip);
      case Tcp6 =>
        result := TcpGRO(b, cfg.off, i, t, true, cfg.skip);
      case Udp4 =>
        result := UdpGRO(b, cfg.off, i, u, false, cfg.skip);
      case Udp6 =>
        result := UdpGRO(b, cfg.off, i, u, true, cfg.skip);
      case NotCandidate =>
        result := GroNoop;
    }
  }

  lemma TcpGroTouches(bufs: seq<Pkt>, table: TcpTable, i: nat, m: TcpMeta, off: nat, skip: bool)
    requires TcpTableFits(bufs, table, i, m, off)
    ensures var s := TcpGro(bufs, table, i, m, off, skip);
      (!s.effect.Merged? ==> s.bufs == bufs) && |s.bufs| == |bufs|
  {
    hide TcpScan;
    hide ScanOk;
    if m.key in table {
      ScanTouched(bufs, table[m.key], |table[m.key]|, i, m, off, skip);
    }
  }

  lemma UdpGroTouches(bufs: seq<Pkt>, table: UdpTable, i: nat, m: UdpMeta, off: nat, skip: bool)
    requires UdpTableFits(bufs, table, i, m, off)
    ensures var s := UdpGro(bufs, table, i, m, off, skip);
      (!s.effect.Merged? ==> s.bufs == bufs) && |s.bufs| == |bufs|
  {
    hide UdpCoalesceCheck;
    hide UdpCanCoalesce;
  }

  /** Noting the index of an unmerged packet completes the step. */
  lemma HandledStep(was: GroState, st: GroState, result: GroResult, i: nat, cfg: Config)
    requires StepOk(was, i, cfg) && Handled(was, st, result, i, cfg)
    ensures |st.bufs| == |was.bufs| && (result != GroCoalesced ==> st.bufs == was.bufs)
    ensures Step(was, i, cfg) == match result
      case GroNoop => Written(st.(bufs := was.bufs), i, Noop, cfg.off)
      case GroTableInsert => Written(st.(bufs := was.bufs), i, Insert, cfg.off)
      case GroCoalesced => st
  {
    hide EntryOf;
    hide TcpGro;
    hide UdpGro;
    hide TcpTableFits;
    hide UdpTableFits;
    hide ZeroHeader;
    match EntryOf(was.bufs[i].data[cfg.off..], cfg, |was.bufs|) {
      case NoEntry =>
      case TcpEntry(m) =>
        TcpGroTouches(was.bufs, was.tcp, i, m, cfg.off, cfg.skip);
      case UdpEntry(m) =>
        UdpGroTouches(was.bufs, was.udp, i, m, cfg.off, cfg.skip);
    }
  }

  /** A packet that is written: under a zero header at once, or under one that accounting will write. */
  method WritePlain(b: Batch, i: nat, noop: bool, off: nat, le: bool)
    requires b.Valid() && i < |b.mems| && HDR_LEN <= off <= b.lens[i]
    modifies b`toWrite, b.mems[i]
    ensures b.Valid() && b.toWrite == old(b.toWrite) + [i]
    ensures b.View() ==
      if noop then old(b.View())[i := Pkt(ZeroHeader(old(b.At(i)).data, off), old(b.At(i)).cap)] else old(b.View())
  {
    hide Batch.Valid;
    hide Batch.View;
    hide Batch.At;
    if noop {
      ZeroEncodes(le);
      b.PutBytes(i, off - HDR_LEN, Encode(ZERO_HDR, le));
    }
    b.NoteForWriting(i);
  }

  /** One turn of the loop in handleGRO. */
  method HandlePacket(b: Batch, i: nat, t: TcpGroTable, u: UdpGroTable, cfg: Config, le: bool)
    requires b.Valid() && t.Valid() && u.Valid()
    requires TurnReady(State(b, t, u), t.itemsPool, u.itemsPool, i, cfg)
    modifies b, b.mems, t, u
    ensures b.Valid() && t.Valid() && u.Valid() && SameArrays(b)
    ensures State(b, t, u) == Step(old(State(b, t, u)), i, cfg)
  {
    hide Batch.Valid;
    hide Batch.View;
    hide Batch.At;
    hide EntryOf;
    hide Step;
    hide Handled;
    hide ZeroHeader;
    ghost var was := State(b, t, u);
    var result := Dispatch(b, i, t, u, cfg);
    HandledStep(was, State(b, t, u), result, i, cfg);
    hide StepOk;
    if result != GroCoalesced {
      WritePlain(b, i, result == GroNoop, cfg.off, le);
    }
  }

  /** Packet `i` opens a flow and takes a slice from the pool. */
  predicate NewTcpFlow(orig: seq<seq<byte>>, st: GroState, i: nat, cfg: Config)
    requires i < |orig|
  {
    var e := EntryOf(orig[i], cfg, |orig|);
    e.TcpEntry? && e.tcp.key !in st.tcp
  }

  predicate NewUdpFlow(orig: seq<seq<byte>>, st: GroState, i: nat, cfg: Config)
    requires i < |orig|
  {
    var e := EntryOf(orig[i], cfg, |orig|);
    e.UdpEntry? && e.udp.key !in st.udp
  }

  /** The invariant of a run makes the next turn ready, exactly if a packet that opens a flow finds a slice. */
  lemma InvTurnReady(orig: seq<seq<byte>>, st: GroState, segs: Slots, i: nat, cfg: Config, tcpPool: nat, udpPool: nat)
    requires Inv(orig, st, segs, i, cfg) && i < |orig| && Ready(st, i, cfg)
    ensures TurnReady(st, tcpPool, udpPool, i, cfg) <==>
      && (NewTcpFlow(orig, st, i, cfg) ==> tcpPool > 0)
      && (NewUdpFlow(orig, st, i, cfg) ==> udpPool > 0)
  {
    StepKeeps(orig, st, segs, i, cfg);
    CoreNow(orig, st, segs, i, cfg);
    match EntryOf(orig[i], cfg, |orig|) {
      case NoEntry =>
      case TcpEntry(m) =>
        TcpTurnReady(orig, st, segs, i, m, cfg, tcpPool);
      case UdpEntry(m) =>
        UdpTurnReady(orig, st, segs, i, m, cfg, udpPool);
    }
  }

  lemma TcpTurnReady(orig: seq<seq<byte>>, st: GroState, segs: Slots, i: nat, m: TcpMeta, cfg: Config, pool: nat)
    requires Inv(orig, st, segs, i, cfg) && i < |orig| && Ready(st, i, cfg)
    requires EntryOf(orig[i], cfg, |orig|) == TcpEntry(m)
    ensures TcpReady(st.bufs, st.tcp, pool, i, m, cfg.off) <==> m.key in st.tcp || pool > 0
  {
    hide EntryOf;
    TcpFits(orig, st, segs, i, m, cfg);
    if m.key in st.tcp {
      InvTcp(orig, st, segs, i, cfg);
      hide Inv;
      hide TcpItemOk;
      assert TcpFlowOk(orig, st.bufs, segs, m.key, st.tcp[m.key], cfg.off);
    }
  }

  lemma UdpTurnReady(orig: seq<seq<byte>>, st: GroState, segs: Slots, i: nat, m: UdpMeta, cfg: Config, pool: nat)
    requires Inv(orig, st, segs, i, cfg) && i < |orig| && Ready(st, i, cfg)
    requires EntryOf(orig[i], cfg, |orig|) == UdpEntry(m)
    ensures UdpReady(st.bufs, st.udp, pool, i, m, cfg.off) <==> m.key in st.udp || pool > 0
  {
    hide EntryOf;
    hide Core;
    hide TcpTableOk;
    hide UdpOrdered;
    hide UdpItemOk;
    UdpFits(orig, st, segs, i, m, cfg);
  }
}
