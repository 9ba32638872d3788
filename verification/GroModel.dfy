/**
tun_offload_linux.go on values: one step of TCP and UDP receive offload.

A buffer is its visible bytes and its capacity; `off` is where packets start in their buffers.
Every step also reports its effect, which is what the proofs follow.
*/
module GroModel {
  import opened Wrappers
  import opened Bytes
  import opened GsoSpec
  import opened GsoProperties

  datatype Pkt = Pkt(data: seq<byte>, cap: nat)

  const MAX_UINT16 := 0xFFFF
  const ACK: byte := 0x10
  const ACK_PSH: byte := 0x18
  const UDP_HEADER_LEN := 8

  /** tcpFlowKey; an IPv4 address is kept as its four bytes. */
  datatype TcpKey = TcpKey(src: seq<byte>, dst: seq<byte>, srcPort: u16, dstPort: u16, rxAck: u32, isV6: bool)

  datatype TcpItem = TcpItem(
    key: TcpKey, sentSeq: u32, bufsIndex: u16, numMerged: u16, gsoSize: u16, iphLen: nat, tcphLen: nat, pshSet: bool)

  datatype UdpKey = UdpKey(src: seq<byte>, dst: seq<byte>, srcPort: u16, dstPort: u16, isV6: bool)

  datatype UdpItem = UdpItem(
    key: UdpKey, bufsIndex: u16, numMerged: u16, gsoSize: u16, iphLen: nat, cSumKnownInvalid: bool)

  datatype CanCoalesce = Prepend | Unavailable | Append

  datatype CoalesceResult = InsufficientCap | PSHEnding | ItemInvalidCSum | PktInvalidCSum | Success

  /** What a step did with packet `i`: nothing, a new table item, or a merge into slot `slot`. */
  datatype Effect = Noop | Insert | Merged(slot: nat, front: bool)

  function IphLen(isV6: bool): nat {
    if isV6 then 40 else 20
  }

  function Ver(isV6: bool): int {
    if isV6 then 6 else 4
  }

  /** The longest packet its length field can describe: IPv6 counts what follows its header. */
  function MaxLen(isV6: bool): nat {
    if isV6 then 40 + MAX_UINT16 else MAX_UINT16
  }

  /** The packet calls itself IPv6. */
  predicate SaysV6(p: seq<byte>) {
    p != [] && p[0] / 0x10 == 6
  }

  datatype Candidate = NotCandidate | Tcp4 | Tcp6 | Udp4 | Udp6

  /** packetIsGROCandidate. */
  function CandidateOf(b: seq<byte>, canTCP: bool, canUDP: bool): Candidate {
    if |b| < 28 then NotCandidate
    else if b[0] / 0x10 == 4 then
      if b[0] % 0x10 != 5 then NotCandidate
      else if b[9] == PROTO_TCP && |b| >= 40 && canTCP then Tcp4
      else if b[9] == PROTO_UDP && canUDP then Udp4
      else NotCandidate
    else if b[0] / 0x10 == 6 then
      if b[6] == PROTO_TCP && |b| >= 60 && canTCP then Tcp6
      else if b[6] == PROTO_UDP && |b| >= 48 && canUDP then Udp6
      else NotCandidate
    else NotCandidate
  }

  /** The packet passed the candidate test for its family. */
  predicate Plausible(p: seq<byte>, isV6: bool, proto: byte) {
    && |p| >= IphLen(isV6) + (if proto == PROTO_TCP then 20 else 8)
    && p[0] / 0x10 == Ver(isV6) && (!isV6 ==> p[0] % 0x10 == 5)
    && p[if isV6 then 6 else 9] == proto
  }

  predicate LengthFieldMatches(p: seq<byte>, isV6: bool)
    requires |p| >= 20
  {
    if isV6 then Get16(p, 4) == |p| - 40 else Get16(p, 2) == |p|
  }

  predicate Fragmented(p: seq<byte>)
    requires |p| >= 20
  {
    p[6] / 0x20 % 2 != 0 || p[6] as int * 8 % 0x100 != 0 || p[7] != 0
  }

  function TcpKeyOf(p: seq<byte>, isV6: bool): TcpKey
    requires |p| >= IphLen(isV6) + 20
  {
    var v := Ver(isV6);
    var a, n, t := AddrAt(v), AddrLen(v), IphLen(isV6);
    TcpKey(p[a..a + n], p[a + n..a + 2 * n], Get16(p, t), Get16(p, t + 2), Get32(p, t + 8), isV6)
  }

  function UdpKeyOf(p: seq<byte>, isV6: bool): UdpKey
    requires |p| >= IphLen(isV6) + 8
  {
    var v := Ver(isV6);
    var a, n, t := AddrAt(v), AddrLen(v), IphLen(isV6);
    UdpKey(p[a..a + n], p[a + n..a + 2 * n], Get16(p, t), Get16(p, t + 2), isV6)
  }

  /** What tcpGRO reads off a packet it may coalesce. */
  datatype TcpMeta = TcpMeta(
    isV6: bool, iphLen: nat, tcphLen: nat, pshSet: bool, gsoSize: u16, seqNum: u32, key: TcpKey)

  function TcpMetaOf(p: seq<byte>, isV6: bool): Option<TcpMeta>
    requires Plausible(p, isV6, PROTO_TCP)
  {
    var iphLen := IphLen(isV6);
    if |p| > MAX_UINT16 || !LengthFieldMatches(p, isV6) then None
    else
      var tcphLen: nat := p[iphLen + 12] / 0x10 * 4;
      if tcphLen < 20 || tcphLen > 60 || |p| < iphLen + tcphLen then None
      else if !isV6 && Fragmented(p) then None
      else if p[iphLen + 13] != ACK && p[iphLen + 13] != ACK_PSH then None
      else if |p| - tcphLen - iphLen < 1 then None
      else Some(TcpMeta(isV6, iphLen, tcphLen, p[iphLen + 13] == ACK_PSH, |p| - tcphLen - iphLen,
                        Get32(p, iphLen + 4), TcpKeyOf(p, isV6)))
  }

  datatype UdpMeta = UdpMeta(isV6: bool, iphLen: nat, gsoSize: u16, key: UdpKey)

  function UdpMetaOf(p: seq<byte>, isV6: bool): Option<UdpMeta>
    requires Plausible(p, isV6, PROTO_UDP)
  {
    var iphLen := IphLen(isV6);
    if |p| > MAX_UINT16 || !LengthFieldMatches(p, isV6) then None
    else if !isV6 && Fragmented(p) then None
    else if |p| - UDP_HEADER_LEN - iphLen < 1 then None
    else Some(UdpMeta(isV6, iphLen, |p| - UDP_HEADER_LEN - iphLen, UdpKeyOf(p, isV6)))
  }

  /** ipHeadersCanCoalesce. */
  predicate IpHeadersCanCoalesce(a: seq<byte>, b: seq<byte>) {
    && |a| >= 9 && |b| >= 9
    && (if a[0] / 0x10 == 6 then a[0] == b[0] && a[1] / 0x10 == b[1] / 0x10 && a[7] == b[7]
        else a[1] == b[1] && a[6] / 0x20 == b[6] / 0x20 && a[8] == b[8])
  }

  /** The sixteen-bit length of what precedes an appended packet. */
  function LhsLen(item: TcpItem): u16 {
    (item.gsoSize + item.numMerged * item.gsoSize % 0x1_0000) % 0x1_0000
  }

  /** tcpPacketsCanCoalesce; `target` is the item's packet. */
  function TcpCanCoalesce(p: seq<byte>, m: TcpMeta, item: TcpItem, target: seq<byte>): CanCoalesce
    requires m.iphLen + m.tcphLen <= |p| && m.iphLen == item.iphLen && item.iphLen + item.tcphLen <= |target|
    requires item.gsoSize > 0 && m.tcphLen >= 20
  {
    if m.tcphLen != item.tcphLen then Unavailable
    else if m.tcphLen > 20 && p[m.iphLen + 20..m.iphLen + m.tcphLen] != target[m.iphLen + 20..m.iphLen + m.tcphLen] then
      Unavailable
    else if !IpHeadersCanCoalesce(p, target) then Unavailable
    else if m.seqNum == (item.sentSeq + LhsLen(item)) % 0x1_0000_0000 then
      if item.pshSet || (|target| - m.iphLen - m.tcphLen) % item.gsoSize != 0 || m.gsoSize > item.gsoSize then
        Unavailable
      else Append
    else if (m.seqNum + m.gsoSize) % 0x1_0000_0000 == item.sentSeq then
      if m.pshSet || m.gsoSize < item.gsoSize || (m.gsoSize > item.gsoSize && item.numMerged > 0) then Unavailable
      else Prepend
    else Unavailable
  }

  /** The checks coalesceTCPPackets makes before it changes anything. */
  function TcpCoalesceCheck(mode: CanCoalesce, p: Pkt, m: TcpMeta, item: TcpItem, target: Pkt, off: nat, skip: bool)
    : CoalesceResult
    requires off + m.iphLen + 20 <= |p.data| && off + item.iphLen + item.tcphLen <= |target.data|
    requires m.iphLen == item.iphLen == IphLen(m.isV6) && item.tcphLen >= 20
  {
    var coalescedLen := |target.data| - off + |p.data| - off - (item.iphLen + item.tcphLen);
    var head := if mode == Prepend then p else target;
    if head.cap - off - off < coalescedLen then InsufficientCap
    else if mode == Prepend && m.pshSet then PSHEnding
    else if !skip && item.numMerged == 0 && !ChecksumValid(target.data[off..], item.iphLen, PROTO_TCP, Ver(m.isV6)) then
      ItemInvalidCSum
    else if !skip && !ChecksumValid(p.data[off..], item.iphLen, PROTO_TCP, Ver(m.isV6)) then PktInvalidCSum
    else Success
  }

  function SetPsh(d: seq<byte>, at: nat): (r: seq<byte>)
    requires at < |d|
    ensures |r| == |d|
  {
    if d[at] / 8 % 2 == 1 then d else d[at := d[at] as int + 8]
  }

  /** The buffer a merge leaves in the item's slot. */
  function TcpMergedData(mode: CanCoalesce, p: seq<byte>, m: TcpMeta, item: TcpItem, target: seq<byte>, off: nat)
    : seq<byte>
    requires off + item.iphLen + item.tcphLen <= |p| && off + item.iphLen + item.tcphLen <= |target|
    requires item.tcphLen >= 20
  {
    var hdr := off + item.iphLen + item.tcphLen;
    if mode == Prepend then p + target[hdr..]
    else (if m.pshSet then SetPsh(target, off + item.iphLen + TCP_FLAGS_OFFSET) else target) + p[hdr..]
  }

  function TcpMergedItem(mode: CanCoalesce, m: TcpMeta, item: TcpItem): TcpItem {
    item.(sentSeq := if mode == Prepend then m.seqNum else item.sentSeq,
          pshSet := if mode != Prepend && m.pshSet then true else item.pshSet,
          gsoSize := if m.gsoSize > item.gsoSize then m.gsoSize else item.gsoSize,
          numMerged := (item.numMerged + 1) % 0x1_0000)
  }

  /** Buffers after merging packet `i` into slot `k`: a prepend leaves the old target in slot `i`. */
  function MergedBufs(bufs: seq<Pkt>, i: nat, k: nat, front: bool, data: seq<byte>): (r: seq<Pkt>)
    requires i < |bufs| && k < |bufs| && i != k
    ensures |r| == |bufs|
  {
    if front then bufs[k := Pkt(data, bufs[i].cap)][i := bufs[k]]
    else bufs[k := Pkt(data, bufs[k].cap)]
  }

  /** Items of one flow after a scan, with what the scan did. */
  datatype ScanResult = ScanResult(bufs: seq<Pkt>, items: seq<TcpItem>, effect: Effect)

  /** The slot and headers an item describes exist. */
  predicate ItemFits(bufs: seq<Pkt>, i: nat, m: TcpMeta, item: TcpItem, off: nat) {
    && item.bufsIndex < |bufs| && item.bufsIndex != i
    && item.iphLen == m.iphLen == IphLen(m.isV6) && item.tcphLen >= 20 && item.gsoSize > 0
    && off + item.iphLen + item.tcphLen <= |bufs[item.bufsIndex].data|
  }

  predicate ScanOk(bufs: seq<Pkt>, items: seq<TcpItem>, i: nat, m: TcpMeta, off: nat) {
    && i < |bufs| && off + m.iphLen + m.tcphLen <= |bufs[i].data| && m.tcphLen >= 20
    && (forall j :: 0 <= j < |items| ==> ItemFits(bufs, i, m, items[j], off))
  }

  /** The reverse loop of tcpGRO over the items of the packet's flow, from index `n - 1` down. */
  function TcpScan(bufs: seq<Pkt>, items: seq<TcpItem>, n: nat, i: nat, m: TcpMeta, off: nat, skip: bool): ScanResult
    requires n <= |items| && ScanOk(bufs, items, i, m, off)
    decreases n
  {
    if n == 0 then ScanResult(bufs, items, Insert)
    else
      var item := items[n - 1];
      var target := bufs[item.bufsIndex];
      var can := TcpCanCoalesce(bufs[i].data[off..], m, item, target.data[off..]);
      if can == Unavailable then TcpScan(bufs, items, n - 1, i, m, off, skip)
      else
        match TcpCoalesceCheck(can, bufs[i], m, item, target, off, skip)
        case Success =>
          ScanResult(MergedBufs(bufs, i, item.bufsIndex, can == Prepend,
                                TcpMergedData(can, bufs[i].data, m, item, target.data, off)),
                     items[n - 1 := TcpMergedItem(can, m, item)], Merged(item.bufsIndex, can == Prepend))
        case ItemInvalidCSum => TcpScan(bufs, items[..n - 1] + items[n..], n - 1, i, m, off, skip)
        case PktInvalidCSum => ScanResult(bufs, items, Noop)
        case _ => TcpScan(bufs, items, n - 1, i, m, off, skip)
  }

  function NewTcpItem(m: TcpMeta, i: nat): TcpItem {
    TcpItem(m.key, m.seqNum, i % 0x1_0000, 0, m.gsoSize, m.iphLen, m.tcphLen, m.pshSet)
  }

  type TcpTable = map<TcpKey, seq<TcpItem>>
  type UdpTable = map<UdpKey, seq<UdpItem>>

  datatype TcpStep = TcpStep(bufs: seq<Pkt>, table: TcpTable, effect: Effect)

  predicate TcpTableFits(bufs: seq<Pkt>, table: TcpTable, i: nat, m: TcpMeta, off: nat) {
    && i < |bufs| && off + m.iphLen + m.tcphLen <= |bufs[i].data| && m.tcphLen >= 20
    && (m.key in table ==> ScanOk(bufs, table[m.key], i, m, off))
  }

  /** tcpGRO for a packet with metadata `m`. */
  function TcpGro(bufs: seq<Pkt>, table: TcpTable, i: nat, m: TcpMeta, off: nat, skip: bool): TcpStep
    requires TcpTableFits(bufs, table, i, m, off)
  {
    if |bufs| == 1 then TcpStep(bufs, table, Noop)
    else if m.key !in table then TcpStep(bufs, table[m.key := [NewTcpItem(m, i)]], Insert)
    else
      var r := TcpScan(bufs, table[m.key], |table[m.key]|, i, m, off, skip);
      TcpStep(r.bufs,
              table[m.key := if r.effect == Insert then r.items + [NewTcpItem(m, i)] else r.items],
              r.effect)
  }

  /** udpPacketsCanCoalesce. */
  predicate UdpCanCoalesce(p: seq<byte>, m: UdpMeta, item: UdpItem, target: seq<byte>)
    requires item.gsoSize > 0
  {
    && IpHeadersCanCoalesce(p, target)
    && (|target| - m.iphLen - UDP_HEADER_LEN) % item.gsoSize == 0
    && m.gsoSize <= item.gsoSize
  }

  /** The checks of coalesceUDPPackets. */
  function UdpCoalesceCheck(p: Pkt, m: UdpMeta, item: UdpItem, target: Pkt, off: nat, skip: bool): CoalesceResult
    requires off + m.iphLen + 8 <= |p.data| && off + item.iphLen + 8 <= |target.data|
    requires m.iphLen == item.iphLen == IphLen(m.isV6)
  {
    var coalescedLen := |target.data| - off + |p.data| - off - (item.iphLen + UDP_HEADER_LEN);
    if target.cap - off - off < coalescedLen then InsufficientCap
    else if item.numMerged == 0
            && (item.cSumKnownInvalid || Get16(target.data, off + item.iphLen + 6) == 0
                || (!skip && !ChecksumValid(target.data[off..], item.iphLen, PROTO_UDP, Ver(m.isV6)))) then
      ItemInvalidCSum
    else if Get16(p.data, off + item.iphLen + 6) == 0
            || (!skip && !ChecksumValid(p.data[off..], item.iphLen, PROTO_UDP, Ver(m.isV6))) then PktInvalidCSum
    else Success
  }

  function NewUdpItem(m: UdpMeta, i: nat, cSumKnownInvalid: bool): UdpItem {
    UdpItem(m.key, i % 0x1_0000, 0, m.gsoSize, m.iphLen, cSumKnownInvalid)
  }

  datatype UdpStep = UdpStep(bufs: seq<Pkt>, table: UdpTable, effect: Effect)

  predicate UdpItemFits(bufs: seq<Pkt>, i: nat, m: UdpMeta, item: UdpItem, off: nat) {
    && item.bufsIndex < |bufs| && item.bufsIndex != i
    && item.iphLen == m.iphLen == IphLen(m.isV6) && item.gsoSize > 0
    && off + item.iphLen + 8 <= |bufs[item.bufsIndex].data|
  }

  predicate UdpTableFits(bufs: seq<Pkt>, table: UdpTable, i: nat, m: UdpMeta, off: nat) {
    && i < |bufs| && off + m.iphLen + 8 <= |bufs[i].data|
    && (m.key in table ==> table[m.key] != [] && UdpItemFits(bufs, i, m, table[m.key][|table[m.key]| - 1], off))
  }

  /** udpGRO for a packet with metadata `m`: only the last item of the flow is tried. */
  function UdpGro(bufs: seq<Pkt>, table: UdpTable, i: nat, m: UdpMeta, off: nat, skip: bool): UdpStep
    requires UdpTableFits(bufs, table, i, m, off)
  {
    if |bufs| == 1 then UdpStep(bufs, table, Noop)
    else if m.key !in table then UdpStep(bufs, table[m.key := [NewUdpItem(m, i, false)]], Insert)
    else
      var items := table[m.key];
      var last := |items| - 1;
      var item := items[last];
      var target := bufs[item.bufsIndex];
      var result :=
        if UdpCanCoalesce(bufs[i].data[off..], m, item, target.data[off..])
        then UdpCoalesceCheck(bufs[i], m, item, target, off, skip) else InsufficientCap;
      if result == Success then
        UdpStep(MergedBufs(bufs, i, item.bufsIndex, false, target.data + bufs[i].data[off + item.iphLen + 8..]),
                table[m.key := items[last := item.(numMerged := (item.numMerged + 1) % 0x1_0000)]],
                Merged(item.bufsIndex, false))
      else
        UdpStep(bufs, table[m.key := items + [NewUdpItem(m, i, result == PktInvalidCSum)]], Insert)
  }
}
