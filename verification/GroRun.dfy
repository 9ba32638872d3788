/** handleGRO on values: the loop over a batch, and the invariant of every state it passes through. */
module GroRun {
  import opened Wrappers
  import opened Bytes
  import opened GsoSpec
  import opened GsoProperties
  import opened Virtio
  import opened GroModel
  import opened GroGroup
  import opened GroInvariant
  import opened GroSteps

  datatype Config = Config(off: nat, canTCP: bool, canUDP: bool, skip: bool)

  datatype GroState = GroState(bufs: seq<Pkt>, tcp: TcpTable, udp: UdpTable, toWrite: seq<nat>)

  /** How a packet enters the tables, if at all; a lone packet never does. */
  datatype Entry = NoEntry | TcpEntry(tcp: TcpMeta) | UdpEntry(udp: UdpMeta)

  function EntryOf(p: seq<byte>, cfg: Config, batch: nat): (e: Entry)
    ensures e.TcpEntry? ==> Plausible(p, e.tcp.isV6, PROTO_TCP) && TcpMetaOf(p, e.tcp.isV6) == Some(e.tcp)
    ensures e.UdpEntry? ==> Plausible(p, e.udp.isV6, PROTO_UDP) && UdpMetaOf(p, e.udp.isV6) == Some(e.udp)
  {
    if batch == 1 then NoEntry
    else
      match CandidateOf(p, cfg.canTCP, cfg.canUDP)
      case NotCandidate => NoEntry
      case Tcp4 => if TcpMetaOf(p, false).Some? then TcpEntry(TcpMetaOf(p, false).value) else NoEntry
      case Tcp6 => if TcpMetaOf(p, true).Some? then TcpEntry(TcpMetaOf(p, true).value) else NoEntry
      case Udp4 => if UdpMetaOf(p, false).Some? then UdpEntry(UdpMetaOf(p, false).value) else NoEntry
      case Udp6 => if UdpMetaOf(p, true).Some? then UdpEntry(UdpMetaOf(p, true).value) else NoEntry
  }

  /** An IPv4 packet without options that is no fragment and has its own length in its header. */
  predicate Whole4(p: seq<byte>, proto: byte) {
    && 28 <= |p| <= 0xFFFF && p[0] == 0x45 && p[9] == proto
    && Get16(p, 2) == |p| && p[6] % 0x20 == 0 && p[6] / 0x20 % 2 == 0 && p[7] == 0
  }

  predicate Whole6(p: seq<byte>, proto: byte) {
    48 <= |p| <= 0xFFFF && p[0] / 0x10 == 6 && p[6] == proto && Get16(p, 4) == |p| - 40
  }

  /** A TCP segment with payload behind its header at `t`, and no flags but ACK and perhaps PSH. */
  predicate PlainSegment(p: seq<byte>, t: nat) {
    t + 20 < |p| && 5 <= p[t + 12] / 0x10 && t + p[t + 12] / 0x10 * 4 < |p| && (p[t + 13] == 0x10 || p[t + 13] == 0x18)
  }

  /** Which packets enter the tables. */
  lemma EntryExact(p: seq<byte>, cfg: Config, batch: nat)
    ensures EntryOf(p, cfg, batch).TcpEntry? <==>
      && batch != 1 && cfg.canTCP
      && ((Whole4(p, 6) && PlainSegment(p, 20)) || (Whole6(p, 6) && PlainSegment(p, 40)))
    ensures EntryOf(p, cfg, batch).UdpEntry? <==>
      && batch != 1 && cfg.canUDP
      && ((Whole4(p, 17) && |p| > 28) || (Whole6(p, 17) && |p| > 48))
  {
    if |p| >= 28 {
      FragmentBits(p[6], p[7]);
      if p[0] / 0x10 == 4 {
        EntryExact4(p, cfg, batch);
      } else if p[0] / 0x10 == 6 {
        EntryExact6(p, cfg, batch);
      }
    }
    hide TcpMetaOf;
    hide UdpMetaOf;
    hide PlainSegment;
    hide Get16;
  }

  lemma FragmentBits(a: byte, b: byte)
    ensures a as int * 8 % 0x100 == 0 <==> a % 0x20 == 0
  {
  }

  lemma EntryExact4(p: seq<byte>, cfg: Config, batch: nat)
    requires |p| >= 28 && p[0] / 0x10 == 4
    ensures EntryOf(p, cfg, batch).TcpEntry? <==>
      batch != 1 && cfg.canTCP && Whole4(p, 6) && PlainSegment(p, 20)
    ensures EntryOf(p, cfg, batch).UdpEntry? <==>
      batch != 1 && cfg.canUDP && Whole4(p, 17) && |p| > 28
  {
    hide Get16;
    FragmentBits(p[6], p[7]);
  }

  lemma EntryExact6(p: seq<byte>, cfg: Config, batch: nat)
    requires |p| >= 28 && p[0] / 0x10 == 6
    ensures EntryOf(p, cfg, batch).TcpEntry? <==>
      batch != 1 && cfg.canTCP && Whole6(p, 6) && PlainSegment(p, 40)
    ensures EntryOf(p, cfg, batch).UdpEntry? <==>
      batch != 1 && cfg.canUDP && Whole6(p, 17) && |p| > 48
  {
    hide Get16;
  }

  /** A packet written on its own gets a zero virtio header in its headroom. */
  function ZeroHeader(d: seq<byte>, off: nat): (r: seq<byte>)
    requires HDR_LEN <= off <= |d|
    ensures |r| == |d| && r[off..] == d[off..]
  {
    Patch(d, off - HDR_LEN, seq(HDR_LEN, _ => 0))
  }

  predicate StepOk(st: GroState, i: nat, cfg: Config) {
    && i < |st.bufs| && HDR_LEN <= cfg.off <= |st.bufs[i].data|
    && match EntryOf(st.bufs[i].data[cfg.off..], cfg, |st.bufs|)
       case NoEntry => true
       case TcpEntry(m) => TcpTableFits(st.bufs, st.tcp, i, m, cfg.off)
       case UdpEntry(m) => UdpTableFits(st.bufs, st.udp, i, m, cfg.off)
  }

  function Written(st: GroState, i: nat, effect: Effect, off: nat): GroState
    requires i < |st.bufs| && HDR_LEN <= off <= |st.bufs[i].data|
  {
    match effect
    case Noop =>
      st.(bufs := st.bufs[i := Pkt(ZeroHeader(st.bufs[i].data, off), st.bufs[i].cap)], toWrite := st.toWrite + [i])
    case Insert => st.(toWrite := st.toWrite + [i])
    case Merged(_, _) => st
  }

  function EffectOf(st: GroState, i: nat, cfg: Config): Effect
    requires StepOk(st, i, cfg)
  {
    match EntryOf(st.bufs[i].data[cfg.off..], cfg, |st.bufs|)
    case NoEntry => Noop
    case TcpEntry(m) => TcpGro(st.bufs, st.tcp, i, m, cfg.off, cfg.skip).effect
    case UdpEntry(m) => UdpGro(st.bufs, st.udp, i, m, cfg.off, cfg.skip).effect
  }

  /** Packet `i` of the loop in handleGRO. */
  function Step(st: GroState, i: nat, cfg: Config): GroState
    requires StepOk(st, i, cfg)
  {
    match EntryOf(st.bufs[i].data[cfg.off..], cfg, |st.bufs|)
    case NoEntry => Written(st, i, Noop, cfg.off)
    case TcpEntry(m) =>
      var r := TcpGro(st.bufs, st.tcp, i, m, cfg.off, cfg.skip);
      if r.effect.Merged? then st.(bufs := r.bufs, tcp := r.table)
      else Written(st.(tcp := r.table), i, r.effect, cfg.off)
    case UdpEntry(m) =>
      var r := UdpGro(st.bufs, st.udp, i, m, cfg.off, cfg.skip);
      if r.effect.Merged? then st.(bufs := r.bufs, udp := r.table)
      else Written(st.(udp := r.table), i, r.effect, cfg.off)
  }

  lemma StepTables(st: GroState, i: nat, cfg: Config, e: Entry)
    requires StepOk(st, i, cfg) && e == EntryOf(st.bufs[i].data[cfg.off..], cfg, |st.bufs|)
    ensures match e
      case NoEntry => Step(st, i, cfg).tcp == st.tcp && Step(st, i, cfg).udp == st.udp
      case TcpEntry(m) =>
        && TcpTableFits(st.bufs, st.tcp, i, m, cfg.off)
        && Step(st, i, cfg).tcp == TcpGro(st.bufs, st.tcp, i, m, cfg.off, cfg.skip).table
        && Step(st, i, cfg).udp == st.udp
      case UdpEntry(m) =>
        && UdpTableFits(st.bufs, st.udp, i, m, cfg.off)
        && Step(st, i, cfg).udp == UdpGro(st.bufs, st.udp, i, m, cfg.off, cfg.skip).table
        && Step(st, i, cfg).tcp == st.tcp
  {
    hide EntryOf;
    hide TcpGro;
    hide UdpGro;
    hide TcpTableFits;
    hide UdpTableFits;
    hide ZeroHeader;
  }

  /** Datagrams of a flow that enter the table among the first `n` packets, in arrival order. */
  ghost function Arrivals(orig: seq<seq<byte>>, n: nat, key: UdpKey, cfg: Config): seq<nat>
    requires n <= |orig|
    decreases n
  {
    if n == 0 then []
    else
      var e := EntryOf(orig[n - 1], cfg, |orig|);
      Arrivals(orig, n - 1, key, cfg) + (if e.UdpEntry? && e.udp.key == key then [n - 1] else [])
  }

  /** The datagrams of a flow as its items carry them, in item order. */
  ghost function Flatten(items: seq<UdpItem>, segs: Slots): seq<nat> {
    if items == [] then []
    else
      var k := items[|items| - 1].bufsIndex;
      Flatten(items[..|items| - 1], segs) + (if k in segs then segs[k] else [])
  }

  ghost predicate UdpOrdered(orig: seq<seq<byte>>, udp: UdpTable, segs: Slots, n: nat, cfg: Config)
    requires n <= |orig|
  {
    forall key :: Arrivals(orig, n, key, cfg) == if key in udp then Flatten(udp[key], segs) else []
  }

  ghost predicate ToWriteOk(toWrite: seq<nat>, segs: Slots) {
    Increasing(toWrite) && (forall k :: k in toWrite <==> k in segs)
  }

  /** The invariant before packet `n`. */
  ghost predicate Inv(orig: seq<seq<byte>>, st: GroState, segs: Slots, n: nat, cfg: Config) {
    && Core(orig, st.bufs, segs, n, cfg.off)
    && TcpTableOk(orig, st.bufs, segs, st.tcp, cfg.off)
    && UdpTableOk(orig, st.bufs, segs, st.udp, cfg.off)
    && ToWriteOk(st.toWrite, segs)
    && UdpOrdered(orig, st.udp, segs, n, cfg)
  }

  /** Packet `i` is not shorter than the headroom. */
  predicate Ready(st: GroState, i: nat, cfg: Config) {
    i < |st.bufs| && cfg.off <= |st.bufs[i].data|
  }

  lemma {:induction false} FlattenFrame(items: seq<UdpItem>, segs: Slots, segs': Slots)
    requires forall j :: 0 <= j < |items| ==>
      items[j].bufsIndex in segs && items[j].bufsIndex in segs' && segs'[items[j].bufsIndex] == segs[items[j].bufsIndex]
    ensures Flatten(items, segs') == Flatten(items, segs)
    decreases |items|
  {
    if items != [] {
      FlattenFrame(items[..|items| - 1], segs, segs');
    }
  }

  /** Flows whose slots are untouched keep their order. */
  lemma OrderedFrame(orig: seq<seq<byte>>, bufs: seq<Pkt>, udp: UdpTable, segs: Slots, segs': Slots, key: UdpKey,
                     except: set<nat>, off: nat)
    requires key in udp && UdpFlowOk(orig, bufs, segs, key, udp[key], off)
    requires forall k :: k in segs && k !in except ==> k in segs' && segs'[k] == segs[k]
    requires forall k :: k in except ==> !UdpSlot(orig, segs, k, key)
    ensures Flatten(udp[key], segs') == Flatten(udp[key], segs)
  {
    hide UdpGroup;
    hide UdpSlot;
    forall j | 0 <= j < |udp[key]| ensures udp[key][j].bufsIndex !in except {
      UdpItemSlot(orig, bufs, segs, udp[key][j], off);
    }
    FlattenFrame(udp[key], segs, segs');
  }

  /** A packet that is no datagram of the table leaves all UDP flows in order. */
  lemma OrderedOther(orig: seq<seq<byte>>, bufs: seq<Pkt>, udp: UdpTable, segs: Slots, segs': Slots, i: nat,
                     cfg: Config, except: set<nat>)
    requires i < |orig| && UdpTableOk(orig, bufs, segs, udp, cfg.off) && UdpOrdered(orig, udp, segs, i, cfg)
    requires !EntryOf(orig[i], cfg, |orig|).UdpEntry?
    requires forall k :: k in segs && k !in except ==> k in segs' && segs'[k] == segs[k]
    requires forall k, key :: k in except && key in udp ==> !UdpSlot(orig, segs, k, key)
    ensures UdpOrdered(orig, udp, segs', i + 1, cfg)
  {
    hide UdpFlowOk;
    hide UdpSlot;
    hide EntryOf;
    hide Flatten;
    forall key ensures Arrivals(orig, i + 1, key, cfg) == if key in udp then Flatten(udp[key], segs') else [] {
      assert Arrivals(orig, i, key, cfg) == if key in udp then Flatten(udp[key], segs) else [];
      if key in udp {
        OrderedFrame(orig, bufs, udp, segs, segs', key, except, cfg.off);
      }
    }
  }

  lemma ToWriteStep(toWrite: seq<nat>, segs: Slots, i: nat)
    requires ToWriteOk(toWrite, segs) && (forall k :: k in segs ==> k < i)
    ensures ToWriteOk(toWrite + [i], segs[i := [i]])
  {
    assert forall x :: 0 <= x < |toWrite| ==> toWrite[x] in toWrite;
  }

  /** The effects that put packet `i` itself on the wire. */
  lemma PlainKeeps(orig: seq<seq<byte>>, st: GroState, st': GroState, segs: Slots, i: nat, cfg: Config)
    requires Inv(orig, st, segs, i, cfg) && i < |orig| && Ready(st, i, cfg) && !EntryOf(orig[i], cfg, |orig|).UdpEntry?
    requires st'.udp == st.udp && st'.toWrite == st.toWrite + [i]
    requires |st'.bufs| == |st.bufs| && st'.bufs == st.bufs[i := st'.bufs[i]]
    requires |st'.bufs[i].data| == |st.bufs[i].data| && st'.bufs[i].cap == st.bufs[i].cap
    requires st'.bufs[i].data[cfg.off..] == st.bufs[i].data[cfg.off..]
    requires TcpTableOk(orig, st'.bufs, segs[i := [i]], st'.tcp, cfg.off)
    ensures Inv(orig, st', segs[i := [i]], i + 1, cfg)
  {
    hide EntryOf;
    hide TcpTableOk;
    hide UdpTableOk;
    hide UdpOrdered;
    hide Partition;
    hide SlotsOk;
    hide ToWriteOk;
    var segs' := segs[i := [i]];
    CorePlain(orig, st.bufs, st'.bufs, segs, i, cfg.off);
    UdpTableFrame(orig, st.bufs, segs, st'.bufs, segs', st.udp, {}, cfg.off);
    OrderedOther(orig, st.bufs, st.udp, segs, segs', i, cfg, {});
    ToWriteStep(st.toWrite, segs, i);
  }

  lemma NoEntryKeeps(orig: seq<seq<byte>>, st: GroState, segs: Slots, i: nat, cfg: Config)
    requires Inv(orig, st, segs, i, cfg) && i < |orig| && Ready(st, i, cfg) && EntryOf(orig[i], cfg, |orig|).NoEntry?
    requires HDR_LEN <= cfg.off <= |st.bufs[i].data|
    ensures Inv(orig, Written(st, i, Noop, cfg.off), segs[i := [i]], i + 1, cfg)
  {
    hide EntryOf;
    hide TcpTableOk;
    hide UdpTableOk;
    hide UdpOrdered;
    hide Partition;
    hide SlotsOk;
    hide ToWriteOk;
    hide ZeroHeader;
    var st' := Written(st, i, Noop, cfg.off);
    CorePlain(orig, st.bufs, st'.bufs, segs, i, cfg.off);
    TcpTableFrame(orig, st.bufs, segs, st'.bufs, segs[i := [i]], st.tcp, {}, cfg.off);
    PlainKeeps(orig, st, st', segs, i, cfg);
  }

  /** A new item behind the items of a flow. */
  lemma FlowInsert(orig: seq<seq<byte>>, bufs: seq<Pkt>, segs: Slots, items: seq<TcpItem>, i: nat, m: TcpMeta, off: nat)
    requires Core(orig, bufs, segs, i, off) && i < |bufs| && off <= |bufs[i].data|
      && TcpFlowOk(orig, bufs, segs, m.key, items, off)
    requires Plausible(orig[i], m.isV6, PROTO_TCP) && TcpMetaOf(orig[i], m.isV6) == Some(m)
    ensures TcpFlowOk(orig, bufs, segs[i := [i]], m.key, items + [NewTcpItem(m, i)], off)
  {
    hide TcpGroup;
    hide TcpMetaOf;
    hide Partition;
    hide SlotsOk;
    var segs' := segs[i := [i]];
    TcpGroupNew(orig, i, m);
    TcpFlowFrame(orig, bufs, segs, bufs, segs', m.key, items, {}, off);
    assert TcpItemOk(orig, bufs, segs', NewTcpItem(m, i), off);
    var items' := items + [NewTcpItem(m, i)];
    assert forall j :: 0 <= j < |items| ==> items[j].bufsIndex in segs;
  }

  /** One flow of the table replaced, the others framed. */
  lemma TableReplace(orig: seq<seq<byte>>, bufs: seq<Pkt>, segs: Slots, bufs': seq<Pkt>, segs': Slots,
                     table: TcpTable, key: TcpKey, items: seq<TcpItem>, except: set<nat>, off: nat)
    requires TcpTableOk(orig, bufs, segs, table, off) && Agree(bufs, segs, bufs', segs', except)
    requires forall k :: k in except ==> TcpSlot(orig, segs, k, key)
    requires TcpFlowOk(orig, bufs', segs', key, items, off)
    ensures TcpTableOk(orig, bufs', segs', table[key := items], off)
  {
    hide TcpFlowOk;
    hide TcpSlot;
    hide Agree;
    var others := table - {key};
    forall k, other | k in except && other in others ensures !TcpSlot(orig, segs, k, other) {
      SlotFlowUnique(orig, segs, k);
    }
    TcpTableFrame(orig, bufs, segs, bufs', segs', others, except, off);
    var table' := table[key := items];
    forall x | x in table' ensures TcpFlowOk(orig, bufs', segs', x, table'[x], off) {
      if x != key {
        assert x in others && others[x] == table'[x];
      }
    }
  }

  lemma TcpFits(orig: seq<seq<byte>>, st: GroState, segs: Slots, i: nat, m: TcpMeta, cfg: Config)
    requires Inv(orig, st, segs, i, cfg) && i < |orig| && Ready(st, i, cfg)
      && EntryOf(orig[i], cfg, |orig|) == TcpEntry(m)
    ensures TcpTableFits(st.bufs, st.tcp, i, m, cfg.off) && st.bufs[i].data[cfg.off..] == orig[i]
  {
    hide EntryOf;
    hide TcpMetaOf;
    hide UdpTableOk;
    hide UdpOrdered;
    hide Partition;
    hide SlotsOk;
    hide TcpFlowOk;
    MetaShape(orig[i], m);
    if m.key in st.tcp {
      FlowScanOk(orig, st.bufs, segs, st.tcp[m.key], i, m, cfg.off);
    }
  }

  lemma TcpEntryKeeps(orig: seq<seq<byte>>, st: GroState, segs: Slots, i: nat, m: TcpMeta, cfg: Config)
    requires Inv(orig, st, segs, i, cfg) && i < |orig| && Ready(st, i, cfg)
      && EntryOf(orig[i], cfg, |orig|) == TcpEntry(m)
    requires StepOk(st, i, cfg) && st.bufs[i].data[cfg.off..] == orig[i]
    ensures Inv(orig, Step(st, i, cfg), NextSegs(segs, i, EffectOf(st, i, cfg)), i + 1, cfg)
  {
    hide EntryOf;
    hide TcpMetaOf;
    hide UdpTableOk;
    hide UdpOrdered;
    hide Partition;
    hide SlotsOk;
    hide TcpFlowOk;
    hide TcpScan;
    hide ZeroHeader;
    hide ToWriteOk;
    hide Bounded;
    var off := cfg.off;
    var st' := Step(st, i, cfg);
    var r := TcpGro(st.bufs, st.tcp, i, m, off, cfg.skip);
    var known := m.key in st.tcp;
    if !known {
      TcpFlowOkEmpty(orig, st.bufs, segs, m.key, off);
    }
    var items: seq<TcpItem> := if known then st.tcp[m.key] else [];
    if known {
      FlowScanOk(orig, st.bufs, segs, items, i, m, off);
      ScanKeeps(orig, st.bufs, segs, items, |items|, i, m, off, cfg.skip);
    }
    if r.effect.Merged? {
      TcpMergedKeeps(orig, st, segs, i, m, cfg, TcpScan(st.bufs, items, |items|, i, m, off, cfg.skip));
    } else if known {
      TcpPlainKeeps(orig, st, st', segs, i, m, cfg, r, TcpScan(st.bufs, items, |items|, i, m, off, cfg.skip).items);
    } else {
      assert [NewTcpItem(m, i)] == items + [NewTcpItem(m, i)];
      TcpPlainKeeps(orig, st, st', segs, i, m, cfg, r, items);
    }
  }

  lemma TcpFlowOkEmpty(orig: seq<seq<byte>>, bufs: seq<Pkt>, segs: Slots, key: TcpKey, off: nat)
    ensures TcpFlowOk(orig, bufs, segs, key, [], off)
  {
  }

  lemma TcpMergedKeeps(orig: seq<seq<byte>>, st: GroState, segs: Slots, i: nat, m: TcpMeta, cfg: Config, r: ScanResult)
    requires Inv(orig, st, segs, i, cfg) && i < |orig| && Ready(st, i, cfg)
      && EntryOf(orig[i], cfg, |orig|) == TcpEntry(m)
    requires r.effect.Merged? && ScanDone(orig, st.bufs, segs, m.key, i, cfg.off, r)
    ensures Inv(orig, st.(bufs := r.bufs, tcp := st.tcp[m.key := r.items]), NextSegs(segs, i, r.effect), i + 1, cfg)
  {
    hide EntryOf;
    hide UdpOrdered;
    hide Partition;
    hide SlotsOk;
    hide TcpFlowOk;
    hide UdpTableOk;
    hide TcpTableOk;
    hide TcpSlot;
    hide UdpSlot;
    var k, segs' := r.effect.slot, NextSegs(segs, i, r.effect);
    TcpSlotIn(orig, segs, k, m.key);
    TableReplace(orig, st.bufs, segs, r.bufs, segs', st.tcp, m.key, r.items, {k}, cfg.off);
    forall key ensures !UdpSlot(orig, segs, k, key) {
      SlotFlowUnique(orig, segs, k);
    }
    UdpTableFrame(orig, st.bufs, segs, r.bufs, segs', st.udp, {k}, cfg.off);
    OrderedOther(orig, st.bufs, st.udp, segs, segs', i, cfg, {k});
    assert segs'.Keys == segs.Keys;
  }

  lemma TcpSlotIn(orig: seq<seq<byte>>, segs: Slots, k: nat, key: TcpKey)
    requires TcpSlot(orig, segs, k, key)
    ensures k in segs
  {
  }

  lemma TcpPlainKeeps(orig: seq<seq<byte>>, st: GroState, st': GroState, segs: Slots, i: nat, m: TcpMeta, cfg: Config,
                      r: TcpStep, items: seq<TcpItem>)
    requires Inv(orig, st, segs, i, cfg) && i < |orig| && Ready(st, i, cfg)
      && EntryOf(orig[i], cfg, |orig|) == TcpEntry(m)
    requires HDR_LEN <= cfg.off <= |st.bufs[i].data| && st.bufs[i].data[cfg.off..] == orig[i]
    requires !r.effect.Merged? && st' == Written(st.(tcp := r.table), i, r.effect, cfg.off)
    requires TcpFlowOk(orig, st.bufs, segs, m.key, items, cfg.off)
    requires r.effect == Noop ==> r.table == st.tcp || r.table == st.tcp[m.key := items]
    requires r.effect == Insert ==> r.table == st.tcp[m.key := items + [NewTcpItem(m, i)]]
    ensures Inv(orig, st', segs[i := [i]], i + 1, cfg)
  {
    hide EntryOf;
    hide TcpMetaOf;
    hide UdpOrdered;
    hide Partition;
    hide SlotsOk;
    hide TcpFlowOk;
    hide UdpTableOk;
    hide TcpTableOk;
    hide ZeroHeader;
    hide ToWriteOk;
    hide Bounded;
    var segs' := segs[i := [i]];
    CorePlain(orig, st.bufs, st'.bufs, segs, i, cfg.off);
    if r.effect == Insert {
      FlowInsert(orig, st.bufs, segs, items, i, m, cfg.off);
      TableReplace(orig, st.bufs, segs, st'.bufs, segs', st.tcp, m.key, items + [NewTcpItem(m, i)], {}, cfg.off);
    } else if r.table == st.tcp {
      TcpTableFrame(orig, st.bufs, segs, st'.bufs, segs', st.tcp, {}, cfg.off);
    } else {
      TcpFlowFrame(orig, st.bufs, segs, st'.bufs, segs', m.key, items, {}, cfg.off);
      TableReplace(orig, st.bufs, segs, st'.bufs, segs', st.tcp, m.key, items, {}, cfg.off);
    }
    PlainKeeps(orig, st, st', segs, i, cfg);
  }
}
