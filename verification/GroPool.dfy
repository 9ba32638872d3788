/** The flows a batch opens, and whether the item pools have a slice for each of them. */
module GroPool {
  import opened Wrappers
  import opened Bytes
  import opened GsoSpec
  import opened GsoProperties
  import opened GroModel
  import opened GroInvariant
  import opened GroRun
  import opened GroUdp
  import opened GroBuffers
  import opened GroHandle

  /** The TCP flow packet `k` belongs to, if it enters the table. */
  ghost function TcpFlowOf(orig: seq<seq<byte>>, k: nat, cfg: Config): set<TcpKey>
    requires k < |orig|
  {
    var e := EntryOf(orig[k], cfg, |orig|);
    if e.TcpEntry? then {e.tcp.key} else {}
  }

  ghost function UdpFlowOf(orig: seq<seq<byte>>, k: nat, cfg: Config): set<UdpKey>
    requires k < |orig|
  {
    var e := EntryOf(orig[k], cfg, |orig|);
    if e.UdpEntry? then {e.udp.key} else {}
  }

  /** The flows among the first `n` packets. */
  ghost function TcpFlows(orig: seq<seq<byte>>, n: nat, cfg: Config): set<TcpKey>
    requires n <= |orig|
    decreases n
  {
    if n == 0 then {} else TcpFlows(orig, n - 1, cfg) + TcpFlowOf(orig, n - 1, cfg)
  }

  ghost function UdpFlows(orig: seq<seq<byte>>, n: nat, cfg: Config): set<UdpKey>
    requires n <= |orig|
    decreases n
  {
    if n == 0 then {} else UdpFlows(orig, n - 1, cfg) + UdpFlowOf(orig, n - 1, cfg)
  }

  /** The first `n` packets open no more flows than there are slices. */
  ghost predicate FlowsFit(orig: seq<seq<byte>>, n: nat, cfg: Config)
    requires n <= |orig|
  {
    |TcpFlows(orig, n, cfg)| <= IDEAL_BATCH_SIZE && |UdpFlows(orig, n, cfg)| <= IDEAL_BATCH_SIZE
  }

  /** The tables hold exactly the flows of the packets so far. */
  ghost predicate Opened(orig: seq<seq<byte>>, st: GroState, i: nat, cfg: Config) {
    i <= |orig| && st.tcp.Keys == TcpFlows(orig, i, cfg) && st.udp.Keys == UdpFlows(orig, i, cfg)
  }

  lemma TcpGroFlows(bufs: seq<Pkt>, table: TcpTable, i: nat, m: TcpMeta, off: nat, skip: bool)
    requires TcpTableFits(bufs, table, i, m, off) && |bufs| != 1
    ensures TcpGro(bufs, table, i, m, off, skip).table.Keys == table.Keys + {m.key}
  {
    hide TcpScan;
    hide ScanOk;
  }

  lemma UdpGroFlows(bufs: seq<Pkt>, table: UdpTable, i: nat, m: UdpMeta, off: nat, skip: bool)
    requires UdpTableFits(bufs, table, i, m, off) && |bufs| != 1
    ensures UdpGro(bufs, table, i, m, off, skip).table.Keys == table.Keys + {m.key}
  {
    hide UdpCanCoalesce;
    hide UdpCoalesceCheck;
    hide MergedBufs;
  }

  /** A step adds the flow of its packet, and no flow is ever forgotten. */
  lemma StepKeys(st: GroState, i: nat, cfg: Config, e: Entry)
    requires StepOk(st, i, cfg) && e == EntryOf(st.bufs[i].data[cfg.off..], cfg, |st.bufs|)
    ensures Step(st, i, cfg).tcp.Keys == if e.TcpEntry? then st.tcp.Keys + {e.tcp.key} else st.tcp.Keys
    ensures Step(st, i, cfg).udp.Keys == if e.UdpEntry? then st.udp.Keys + {e.udp.key} else st.udp.Keys
  {
    EntryBatch(st.bufs[i].data[cfg.off..], cfg, |st.bufs|);
    StepTables(st, i, cfg, e);
    hide *;
    match e {
      case NoEntry =>
      case TcpEntry(m) =>
        TcpGroFlows(st.bufs, st.tcp, i, m, cfg.off, cfg.skip);
      case UdpEntry(m) =>
        UdpGroFlows(st.bufs, st.udp, i, m, cfg.off, cfg.skip);
    }
  }

  lemma FlowsNext(orig: seq<seq<byte>>, i: nat, cfg: Config, e: Entry)
    requires i < |orig| && e == EntryOf(orig[i], cfg, |orig|)
    ensures TcpFlows(orig, i + 1, cfg) ==
      if e.TcpEntry? then TcpFlows(orig, i, cfg) + {e.tcp.key} else TcpFlows(orig, i, cfg)
    ensures UdpFlows(orig, i + 1, cfg) ==
      if e.UdpEntry? then UdpFlows(orig, i, cfg) + {e.udp.key} else UdpFlows(orig, i, cfg)
  {
    hide EntryOf;
  }

  /** The tables keep holding exactly the flows of the packets so far. */
  lemma StepOpens(orig: seq<seq<byte>>, st: GroState, i: nat, cfg: Config)
    requires StepOk(st, i, cfg) && i < |orig| == |st.bufs| && st.bufs[i].data[cfg.off..] == orig[i]
    requires Opened(orig, st, i, cfg)
    ensures Opened(orig, Step(st, i, cfg), i + 1, cfg)
  {
    hide EntryOf;
    hide Step;
    hide StepOk;
    hide TcpFlows;
    hide UdpFlows;
    StepKeys(st, i, cfg, EntryOf(orig[i], cfg, |orig|));
    FlowsNext(orig, i, cfg, EntryOf(orig[i], cfg, |orig|));
  }

  lemma SizeWith<T>(s: set<T>, x: T)
    ensures |s + {x}| == if x in s then |s| else |s| + 1
  {
    if x in s {
      assert s + {x} == s;
    }
  }

  /** The number of flows grows by one exactly with a packet that opens one. */
  lemma FlowsGrow(orig: seq<seq<byte>>, i: nat, cfg: Config, e: Entry)
    requires i < |orig| && e == EntryOf(orig[i], cfg, |orig|)
    ensures |TcpFlows(orig, i + 1, cfg)| ==
      |TcpFlows(orig, i, cfg)| + if e.TcpEntry? && e.tcp.key !in TcpFlows(orig, i, cfg) then 1 else 0
    ensures |UdpFlows(orig, i + 1, cfg)| ==
      |UdpFlows(orig, i, cfg)| + if e.UdpEntry? && e.udp.key !in UdpFlows(orig, i, cfg) then 1 else 0
  {
    hide EntryOf;
    hide TcpFlows;
    hide UdpFlows;
    FlowsNext(orig, i, cfg, e);
    if e.TcpEntry? {
      SizeWith(TcpFlows(orig, i, cfg), e.tcp.key);
    } else if e.UdpEntry? {
      SizeWith(UdpFlows(orig, i, cfg), e.udp.key);
    }
  }

  /**
  The pool limit is exact: with the slices that the flows so far have left, the next turn goes
  through if and only if the packets up to this one open at most 128 flows of each protocol.
  */
  lemma TurnReadyExact(orig: seq<seq<byte>>, st: GroState, segs: Slots, i: nat, cfg: Config, tcpPool: nat, udpPool: nat)
    requires Inv(orig, st, segs, i, cfg) && i < |orig| && Ready(st, i, cfg) && Opened(orig, st, i, cfg)
    requires |st.tcp| + tcpPool == IDEAL_BATCH_SIZE && |st.udp| + udpPool == IDEAL_BATCH_SIZE
    ensures TurnReady(st, tcpPool, udpPool, i, cfg) <==> FlowsFit(orig, i + 1, cfg)
  {
    hide Inv;
    hide TurnReady;
    hide EntryOf;
    hide TcpFlows;
    hide UdpFlows;
    InvTurnReady(orig, st, segs, i, cfg, tcpPool, udpPool);
    FlowsGrow(orig, i, cfg, EntryOf(orig[i], cfg, |orig|));
    SizeKeys(st.tcp);
    SizeKeys(st.udp);
  }

  lemma SizeKeys<K, V>(m: map<K, V>)
    ensures |m| == |m.Keys|
  {
  }

  lemma NoFlows(orig: seq<seq<byte>>, cfg: Config)
    ensures |TcpFlows(orig, 0, cfg)| == 0 && |UdpFlows(orig, 0, cfg)| == 0
  {
  }

  /** A batch with more flows than slices has a packet that opens a flow when all slices are taken. */
  lemma {:induction false} TcpPoolRunsOut(orig: seq<seq<byte>>, n: nat, cfg: Config) returns (i: nat)
    requires n <= |orig| && |TcpFlows(orig, n, cfg)| > IDEAL_BATCH_SIZE
    ensures i < n && |TcpFlows(orig, i, cfg)| == IDEAL_BATCH_SIZE
      && |TcpFlows(orig, i + 1, cfg)| == IDEAL_BATCH_SIZE + 1
    decreases n
  {
    hide EntryOf;
    hide TcpFlows;
    hide UdpFlows;
    NoFlows(orig, cfg);
    FlowsGrow(orig, n - 1, cfg, EntryOf(orig[n - 1], cfg, |orig|));
    if |TcpFlows(orig, n - 1, cfg)| > IDEAL_BATCH_SIZE {
      i := TcpPoolRunsOut(orig, n - 1, cfg);
    } else {
      i := n - 1;
    }
  }

  lemma {:induction false} UdpPoolRunsOut(orig: seq<seq<byte>>, n: nat, cfg: Config) returns (i: nat)
    requires n <= |orig| && |UdpFlows(orig, n, cfg)| > IDEAL_BATCH_SIZE
    ensures i < n && |UdpFlows(orig, i, cfg)| == IDEAL_BATCH_SIZE
      && |UdpFlows(orig, i + 1, cfg)| == IDEAL_BATCH_SIZE + 1
    decreases n
  {
    hide EntryOf;
    hide TcpFlows;
    hide UdpFlows;
    NoFlows(orig, cfg);
    FlowsGrow(orig, n - 1, cfg, EntryOf(orig[n - 1], cfg, |orig|));
    if |UdpFlows(orig, n - 1, cfg)| > IDEAL_BATCH_SIZE {
      i := UdpPoolRunsOut(orig, n - 1, cfg);
    } else {
      i := n - 1;
    }
  }
}
