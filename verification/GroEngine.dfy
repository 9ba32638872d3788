/** tcpGRO, udpGRO and the coalescing functions on buffers in place, each proved against its step on values. */
module GroEngine {
  import opened Wrappers
  import opened Bytes
  import opened GsoSpec
  import opened GsoProperties
  import opened GroModel
  import opened GroBuffers

  /** The arrays of a batch may change slots but not leave it. */
  twostate predicate SameArrays(b: Batch)
    reads b
  {
    |b.mems| == old(|b.mems|) && forall k :: 0 <= k < |b.mems| ==> b.mems[k] in old(b.mems)
  }

  /** The packet takes the item's slot, the item's payload goes behind it, and the slices swap slots. */
  method PrependInPlace(b: Batch, i: nat, k: nat, hdr: nat)
    requires b.Valid() && i < |b.mems| && k < |b.mems| && i != k && hdr <= b.lens[k]
    requires b.lens[i] + (b.lens[k] - hdr) <= b.mems[i].Length
    modifies b`mems, b`lens, b.mems[i]
    ensures b.Valid() && SameArrays(b)
    ensures b.View() == MergedBufs(old(b.View()), i, k, true, old(b.At(i)).data + old(b.At(k)).data[hdr..])
  {
    ghost var d := old(b.At(k)).data;
    var tail := b.mems[k][hdr..b.lens[k]];
    assert tail == d[hdr..];
    b.Extend(i, tail);
    b.Swap(i, k);
  }

  /** The packet's payload goes behind the item's, and PSH, if set, into the item's flags. */
  method AppendInPlace(b: Batch, i: nat, k: nat, hdr: nat, psh: bool, at: nat)
    requires b.Valid() && i < |b.mems| && k < |b.mems| && i != k && hdr <= b.lens[i] && at < b.lens[k]
    requires b.lens[k] + (b.lens[i] - hdr) <= b.mems[k].Length
    modifies b`lens, b.mems[k]
    ensures b.Valid()
    ensures b.View() == MergedBufs(old(b.View()), i, k, false,
                                   (if psh then SetPsh(old(b.At(k)).data, at) else old(b.At(k)).data)
                                     + old(b.At(i)).data[hdr..])
  {
    hide SetPsh;
    ghost var d := old(b.At(i)).data;
    var tail := b.mems[i][hdr..b.lens[i]];
    assert tail == d[hdr..];
    if psh {
      var target := b.mems[k][..b.lens[k]];
      SetPshAt(target, at);
      b.PutByte(k, at, SetPsh(target, at)[at]);
    }
    b.Extend(k, tail);
  }

  /** coalesceTCPPackets. */
  method CoalesceTCPPackets(b: Batch, mode: CanCoalesce, i: nat, m: TcpMeta, item: TcpItem, off: nat, skip: bool)
    returns (result: CoalesceResult, merged: TcpItem)
    requires b.Valid() && i < |b.mems| && item.bufsIndex < |b.mems| && item.bufsIndex != i && mode != Unavailable
    requires m.iphLen == item.iphLen == IphLen(m.isV6) && item.tcphLen >= 20
    requires off + item.iphLen + item.tcphLen <= |b.At(i).data|
      && off + item.iphLen + item.tcphLen <= |b.At(item.bufsIndex).data|
    modifies b`mems, b`lens, b.mems[i], b.mems[item.bufsIndex]
    ensures b.Valid() && SameArrays(b)
    ensures result == TcpCoalesceCheck(mode, old(b.At(i)), m, item, old(b.At(item.bufsIndex)), off, skip)
    ensures result == Success ==> merged == TcpMergedItem(mode, m, item)
    ensures b.View() == if result != Success then old(b.View()) else
      MergedBufs(old(b.View()), i, item.bufsIndex, mode == Prepend,
                 TcpMergedData(mode, old(b.At(i)).data, m, item, old(b.At(item.bufsIndex)).data, off))
  {
    hide ChecksumValid;
    hide SetPsh;
    hide MergedBufs;
    var k := item.bufsIndex;
    var p, target := Pkt(b.mems[i][..b.lens[i]], b.mems[i].Length), Pkt(b.mems[k][..b.lens[k]], b.mems[k].Length);
    result, merged := TcpCoalesceCheck(mode, p, m, item, target, off, skip), item;
    if result == Success {
      var hdr := off + item.iphLen + item.tcphLen;
      if mode == Prepend {
        PrependInPlace(b, i, k, hdr);
      } else {
        AppendInPlace(b, i, k, hdr, m.pshSet, off + item.iphLen + TCP_FLAGS_OFFSET);
      }
      merged := TcpMergedItem(mode, m, item);
    }
  }

  lemma SetPshAt(d: seq<byte>, at: nat)
    requires at < |d|
    ensures d[at := SetPsh(d, at)[at]] == SetPsh(d, at)
  {
  }

  /** coalesceUDPPackets. */
  method CoalesceUDPPackets(b: Batch, i: nat, m: UdpMeta, item: UdpItem, off: nat, skip: bool)
    returns (result: CoalesceResult, merged: UdpItem)
    requires b.Valid() && i < |b.mems| && item.bufsIndex < |b.mems| && item.bufsIndex != i
    requires m.iphLen == item.iphLen == IphLen(m.isV6)
    requires off + item.iphLen + 8 <= |b.At(i).data| && off + item.iphLen + 8 <= |b.At(item.bufsIndex).data|
    modifies b`lens, b.mems[item.bufsIndex]
    ensures b.Valid()
    ensures result == UdpCoalesceCheck(old(b.At(i)), m, item, old(b.At(item.bufsIndex)), off, skip)
    ensures result == Success ==> merged == item.(numMerged := (item.numMerged + 1) % 0x1_0000)
    ensures b.View() == if result != Success then old(b.View()) else
      MergedBufs(old(b.View()), i, item.bufsIndex, false,
                 old(b.At(item.bufsIndex)).data + old(b.At(i)).data[off + item.iphLen + 8..])
  {
    hide ChecksumValid;
    var k := item.bufsIndex;
    var p, target := Pkt(b.mems[i][..b.lens[i]], b.mems[i].Length), Pkt(b.mems[k][..b.lens[k]], b.mems[k].Length);
    result, merged := UdpCoalesceCheck(p, m, item, target, off, skip), item;
    if result == Success {
      b.Extend(k, p.data[off + item.iphLen + 8..]);
      merged := item.(numMerged := (item.numMerged + 1) % 0x1_0000);
    }
  }

  /** groResult: what a step did with its packet. */
  datatype GroResult = GroNoop | GroTableInsert | GroCoalesced

  function ResultOf(e: Effect): GroResult {
    match e
    case Noop => GroNoop
    case Insert => GroTableInsert
    case Merged(_, _) => GroCoalesced
  }

  /** The items of a flow, as a scan needs them. */
  ghost predicate FlowScannable(v: seq<Pkt>, t: TcpTable, i: nat, m: TcpMeta, off: nat) {
    && m.key in t && ScanOk(v, t[m.key], i, m, off)
    && (forall j :: 0 <= j < |t[m.key]| ==> t[m.key][j].key == m.key)
  }

  ghost predicate ScanEnds(r: ScanResult, flows: TcpTable, v: seq<Pkt>, t: TcpTable, key: TcpKey, result: GroResult) {
    r.effect != Insert && result == ResultOf(r.effect) && v == r.bufs && t == flows[key := r.items]
  }

  lemma FlowWithout(v: seq<Pkt>, t: TcpTable, i: nat, m: TcpMeta, off: nat, n: nat)
    requires FlowScannable(v, t, i, m, off) && n < |t[m.key]|
    ensures var items := t[m.key]; FlowScannable(v, t[m.key := items[..n] + items[n + 1..]], i, m, off)
  {
    hide ItemFits;
    var items := t[m.key];
    var rest := items[..n] + items[n + 1..];
    assert forall j :: 0 <= j < |rest| ==> rest[j] == items[if j < n then j else j + 1];
  }

  /** A scan under way: `n` items of the flow are still to be tried, and what comes out is settled. */
  ghost predicate ScanGoesOn(v: seq<Pkt>, flows: TcpTable, t: TcpTable, n: nat, i: nat, m: TcpMeta, off: nat,
                             skip: bool, whole: ScanResult)
  {
    && FlowScannable(v, t, i, m, off) && t == flows[m.key := t[m.key]] && n <= |t[m.key]|
    && TcpScan(v, t[m.key], n, i, m, off, skip) == whole
  }

  /** An item that cannot be merged is passed over. */
  lemma ScanPasses(v: seq<Pkt>, flows: TcpTable, t: TcpTable, n: nat, i: nat, m: TcpMeta, off: nat, skip: bool,
                   whole: ScanResult)
    requires ScanGoesOn(v, flows, t, n + 1, i, m, off, skip, whole)
    requires var item := t[m.key][n];
      var can := TcpCanCoalesce(v[i].data[off..], m, item, v[item.bufsIndex].data[off..]);
      can == Unavailable ||
      var r := TcpCoalesceCheck(can, v[i], m, item, v[item.bufsIndex], off, skip);
      r == InsufficientCap || r == PSHEnding
    ensures ScanGoesOn(v, flows, t, n, i, m, off, skip, whole)
  {
    hide TcpCanCoalesce;
    hide TcpCoalesceCheck;
    hide ScanOk;
    hide TcpMergedData;
    hide MergedBufs;
  }

  /** An item with an invalid checksum leaves the table. */
  lemma ScanDrops(v: seq<Pkt>, flows: TcpTable, t: TcpTable, n: nat, i: nat, m: TcpMeta, off: nat, skip: bool,
                  whole: ScanResult)
    requires ScanGoesOn(v, flows, t, n + 1, i, m, off, skip, whole)
    requires var item := t[m.key][n];
      var can := TcpCanCoalesce(v[i].data[off..], m, item, v[item.bufsIndex].data[off..]);
      can != Unavailable && TcpCoalesceCheck(can, v[i], m, item, v[item.bufsIndex], off, skip) == ItemInvalidCSum
    ensures var items := t[m.key];
      ScanGoesOn(v, flows, t[m.key := items[..n] + items[n + 1..]], n, i, m, off, skip, whole)
  {
    hide TcpCanCoalesce;
    hide TcpCoalesceCheck;
    hide TcpMergedData;
    hide MergedBufs;
    var items := t[m.key];
    FlowWithout(v, t, i, m, off, n);
    hide ScanOk;
    Overwrite(flows, m.key, items[..n] + items[n + 1..], items);
  }

  /** A merge, or a packet with an invalid checksum, ends the scan. */
  lemma ScanStops(v: seq<Pkt>, flows: TcpTable, t: TcpTable, n: nat, i: nat, m: TcpMeta, off: nat, skip: bool,
                  whole: ScanResult)
    requires ScanGoesOn(v, flows, t, n + 1, i, m, off, skip, whole)
    ensures var item := t[m.key][n];
      var can := TcpCanCoalesce(v[i].data[off..], m, item, v[item.bufsIndex].data[off..]);
      can != Unavailable ==>
        var r := TcpCoalesceCheck(can, v[i], m, item, v[item.bufsIndex], off, skip);
        && (r == PktInvalidCSum ==> ScanEnds(whole, flows, v, t, m.key, GroNoop))
        && (r == Success ==>
              && off + item.iphLen + item.tcphLen <= |v[i].data|
              && ScanEnds(whole, flows,
                          MergedBufs(v, i, item.bufsIndex, can == Prepend,
                                     TcpMergedData(can, v[i].data, m, item, v[item.bufsIndex].data, off)),
                          t[m.key := t[m.key][n := TcpMergedItem(can, m, item)]], m.key, GroCoalesced))
  {
    var items, item := t[m.key], t[m.key][n];
    if TcpCanCoalesce(v[i].data[off..], m, item, v[item.bufsIndex].data[off..]) != Unavailable {
      CanFits(v, i, m, item, off);
    }
    hide TcpCanCoalesce;
    hide TcpCoalesceCheck;
    hide TcpMergedData;
    hide TcpMergedItem;
    hide MergedBufs;
    hide ScanOk;
    var can := TcpCanCoalesce(v[i].data[off..], m, item, v[item.bufsIndex].data[off..]);
    Overwrite(flows, m.key, items[n := TcpMergedItem(can, m, item)], items);
  }

  /** One turn of the loop: the scan ends, or goes on with what is left of the flow. */
  method ScanItem(b: Batch, off: nat, i: nat, t: TcpGroTable, m: TcpMeta, skip: bool, item: TcpItem, n: nat,
                  ghost flows: TcpTable, ghost whole: ScanResult) returns (done: bool, result: GroResult)
    requires b.Valid() && t.Valid() && ScanGoesOn(b.View(), flows, t.itemsByFlow, n + 1, i, m, off, skip, whole)
    requires item == t.itemsByFlow[m.key][n]
    modifies b`mems, b`lens, b.mems, t`itemsByFlow
    ensures b.Valid() && t.Valid() && SameArrays(b)
    ensures done ==> ScanEnds(whole, flows, b.View(), t.itemsByFlow, m.key, result)
    ensures !done ==> b.View() == old(b.View()) && ScanGoesOn(b.View(), flows, t.itemsByFlow, n, i, m, off, skip, whole)
    ensures !done ==> t.itemsByFlow[m.key][..n] == old(t.itemsByFlow)[m.key][..n]
  {
    hide TcpCanCoalesce;
    hide TcpCoalesceCheck;
    hide TcpMergedData;
    hide MergedBufs;
    hide TcpMergedItem;
    hide TcpScan;
    hide ScanEnds;
    hide Batch.Valid;
    hide Batch.View;
    hide Batch.At;
    hide Batch.Packet;
    ghost var v, table := b.View(), t.itemsByFlow;
    var k := item.bufsIndex;
    assert ItemFits(v, i, m, item, off) && item.key == m.key;
    var can := TcpCanCoalesce(b.Packet(i, off), m, item, b.Packet(k, off));
    ScanStops(v, flows, table, n, i, m, off, skip, whole);
    done, result := false, GroNoop;
    if can == Unavailable {
      ScanPasses(v, flows, table, n, i, m, off, skip, whole);
    } else {
      CanFits(v, i, m, item, off);
      var outcome, merged := CoalesceTCPPackets(b, can, i, m, item, off, skip);
      if outcome == Success {
        MergedKeepsKey(can, m, item);
        t.UpdateAt(merged, n);
        done, result := true, GroCoalesced;
      } else if outcome == ItemInvalidCSum {
        ScanDrops(v, flows, table, n, i, m, off, skip, whole);
        t.DeleteAt(item.key, n);
      } else if outcome == PktInvalidCSum {
        done := true;
      } else {
        ScanPasses(v, flows, table, n, i, m, off, skip, whole);
      }
    }
  }

  /** The reverse loop of tcpGRO over the items of the packet's flow. */
  method ScanFlow(b: Batch, off: nat, i: nat, t: TcpGroTable, m: TcpMeta, skip: bool) returns (result: GroResult)
    requires b.Valid() && t.Valid() && FlowScannable(b.View(), t.itemsByFlow, i, m, off)
    modifies b`mems, b`lens, b.mems, t
    ensures b.Valid() && t.Valid() && SameArrays(b)
    ensures var r := TcpScan(old(b.View()), old(t.itemsByFlow)[m.key], |old(t.itemsByFlow)[m.key]|, i, m, off, skip);
      && result == ResultOf(r.effect) && b.View() == r.bufs
      && t.itemsByFlow == old(t.itemsByFlow)[
           m.key := if r.effect == Insert then r.items + [NewTcpItem(m, i)] else r.items]
  {
    hide ScanOk;
    hide ItemFits;
    hide Batch.Valid;
    hide Batch.View;
    hide NewTcpItem;
    hide TcpScan;
    ghost var v, flows := b.View(), t.itemsByFlow;
    ghost var whole := TcpScan(v, flows[m.key], |flows[m.key]|, i, m, off, skip);
    assert flows == flows[m.key := flows[m.key]];
    var items := t.itemsByFlow[m.key];
    var n: nat := |items|;
    assert items[..n] == flows[m.key][..n];
    while n > 0
      invariant b.Valid() && t.Valid() && b.View() == v && SameArrays(b) && n <= |items|
      invariant ScanGoesOn(v, flows, t.itemsByFlow, n, i, m, off, skip, whole)
      invariant items[..n] == t.itemsByFlow[m.key][..n]
    {
      PrefixLast(items, t.itemsByFlow[m.key], n);
      var done, outcome := ScanItem(b, off, i, t, m, skip, items[n - 1], n - 1, flows, whole);
      if done {
        return outcome;
      }
      n := n - 1;
    }
    ScanZero(v, t.itemsByFlow[m.key], i, m, off, skip);
    Overwrite(flows, m.key, t.itemsByFlow[m.key] + [NewTcpItem(m, i)], t.itemsByFlow[m.key]);
    t.Insert(m.key, NewTcpItem(m, i));
    result := GroTableInsert;
  }

  lemma PrefixLast(a: seq<TcpItem>, b: seq<TcpItem>, n: nat)
    requires 0 < n <= |a| && n <= |b| && a[..n] == b[..n]
    ensures a[n - 1] == b[n - 1] && a[..n - 1] == b[..n - 1]
  {
    assert a[..n - 1] == a[..n][..n - 1] && b[..n - 1] == b[..n][..n - 1];
    assert a[n - 1] == a[..n][n - 1] && b[n - 1] == b[..n][n - 1];
  }

  lemma Overwrite(t: TcpTable, key: TcpKey, items: seq<TcpItem>, was: seq<TcpItem>)
    ensures t[key := was][key := items] == t[key := items]
  {
  }

  lemma ScanZero(v: seq<Pkt>, items: seq<TcpItem>, i: nat, m: TcpMeta, off: nat, skip: bool)
    requires ScanOk(v, items, i, m, off)
    ensures TcpScan(v, items, 0, i, m, off, skip) == ScanResult(v, items, Insert)
  {
  }

  lemma CanFits(v: seq<Pkt>, i: nat, m: TcpMeta, item: TcpItem, off: nat)
    requires i < |v| && ItemFits(v, i, m, item, off) && off + m.iphLen + m.tcphLen <= |v[i].data| && m.tcphLen >= 20
    requires TcpCanCoalesce(v[i].data[off..], m, item, v[item.bufsIndex].data[off..]) != Unavailable
    ensures off + item.iphLen + item.tcphLen <= |v[i].data|
  {
  }

  lemma MergedKeepsKey(mode: CanCoalesce, m: TcpMeta, item: TcpItem)
    ensures TcpMergedItem(mode, m, item).key == item.key
  {
  }
}
