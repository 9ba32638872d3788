/** applyTCPCoalesceAccounting, applyUDPCoalesceAccounting and handleGRO in place. */
module GroApply {
  import opened Wrappers
  import opened Bytes
  import opened OnesComplement
  import opened GsoSpec
  import opened GsoProperties
  import opened Virtio
  import opened GroModel
  import opened GroGroup
  import opened GroInvariant
  import opened GroRun
  import opened GroUdp
  import opened GroTrack
  import opened GroAccount
  import opened GroBatch
  import opened GroBuffers
  import opened GroEngine
  import opened GroHandle

  lemma PatchInFront(d: seq<byte>, off: nat, s: seq<byte>)
    requires |s| <= off <= |d|
    ensures Patch(d, off - |s|, s) == d[..off - |s|] + s + d[off..]
  {
  }

  /** The IP length and, for IPv4, the header checksum of slot `k`. */
  method AccountIp(b: Batch, k: nat, off: nat, isV6: bool)
    requires b.Valid() && k < |b.mems| && off + IphLen(isV6) <= b.lens[k]
    modifies b.mems[k]
    ensures var d := old(b.At(k)).data;
      b.View() == old(b.View())[k := Pkt(d[..off] + IpAccounted(d[off..], isV6), old(b.At(k)).cap)]
  {
    hide Batch.Valid;
    hide Batch.View;
    hide Batch.At;
    hide Batch.Packet;
    hide Put16;
    hide Get16;
    hide Rfc1071;
    hide Not16;
    ghost var v := b.View();
    ghost var d := b.At(k).data;
    var n := |b.Packet(k, off)|;
    if isV6 {
      PutBehind(d, off, 4, (n - 40) % 0x1_0000);
      b.PutU16(k, off + 4, (n - 40) % 0x1_0000);
      ghost var e := b.At(k).data;
      assert e == e[..off] + e[off..];
    } else {
      AccountIpv4(b, k, off, n % 0x1_0000);
    }
  }

  /** The checksum field cleared, the length written, and the checksum over both. */
  method AccountIpv4(b: Batch, k: nat, off: nat, len: u16)
    requires b.Valid() && k < |b.mems| && off + 20 <= b.lens[k]
    modifies b.mems[k]
    ensures var d := old(b.At(k)).data;
      var a := Put16(Put16(d[off..], 10, 0), 2, len);
      b.View() == old(b.View())[k := Pkt(d[..off] + Put16(a, 10, Not16(Rfc1071(a[..20], 0))), old(b.At(k)).cap)]
  {
    hide Batch.Valid;
    hide Batch.View;
    hide Batch.At;
    hide Batch.Packet;
    hide Put16;
    hide Rfc1071;
    hide Not16;
    ghost var d := b.At(k).data;
    PutBehind(d, off, 10, 0);
    b.PutU16(k, off + 10, 0);
    PutBehind(b.At(k).data, off, 2, len);
    b.PutU16(k, off + 2, len);
    var x := Not16(Rfc1071(b.Packet(k, off)[..20], 0));
    PutBehind(b.At(k).data, off, 10, x);
    b.PutU16(k, off + 10, x);
    ghost var e := b.At(k).data;
    assert e == e[..off] + e[off..];
  }

  /** The header in front and the pseudo-header sum in the checksum field complete a merged packet. */
  lemma TcpAccountParts(d: seq<byte>, item: TcpItem, off: nat, le: bool)
    requires TcpAccountable(Pkt(d, |d|), item, off) && item.numMerged > 0
    ensures var a := d[..off] + IpAccounted(d[off..], item.key.isV6);
      var e := Patch(a, off - HDR_LEN, Encode(TcpHdr(item), le));
      Put16(e, off + item.iphLen + 16, PseudoSum(e[off..], item.key.isV6, PROTO_TCP))
         == d[..off - HDR_LEN] + Encode(TcpHdr(item), le) + TcpAccounted(d[off..], item.key.isV6)
  {
    hide IpAccounted;
    hide Encode;
    hide Put16;
    hide PseudoSum;
    hide Patch;
    hide Get16;
    var x, h := IpAccounted(d[off..], item.key.isV6), Encode(TcpHdr(item), le);
    var a := d[..off] + x;
    var e := Patch(a, off - HDR_LEN, h);
    PatchInFront(a, off, h);
    var front := d[..off - HDR_LEN] + h;
    assert a[..off - HDR_LEN] == d[..off - HDR_LEN];
    assert e == front + x;
    var sum := PseudoSum(e[off..], item.key.isV6, PROTO_TCP);
    assert e[..off] == front && e[off..] == x;
    PutBehind(e, off, item.iphLen + 16, sum);
    var r := Put16(e, off + item.iphLen + 16, sum);
    assert r == r[..off] + r[off..];
  }

  /** The same for UDP, whose length field is written between the two. */
  lemma UdpAccountParts(d: seq<byte>, item: UdpItem, off: nat, le: bool)
    requires UdpAccountable(Pkt(d, |d|), item, off) && item.numMerged > 0
    ensures var a := d[..off] + IpAccounted(d[off..], item.key.isV6);
      var n := |d| - off;
      var e := Put16(Patch(a, off - HDR_LEN, Encode(UdpHdr(item), le)), off + item.iphLen + 4,
        (n - item.iphLen) % 0x1_0000);
      Put16(e, off + item.iphLen + 6, PseudoSum(e[off..], item.key.isV6, PROTO_UDP))
         == d[..off - HDR_LEN] + Encode(UdpHdr(item), le) + UdpAccounted(d[off..], item.key.isV6)
  {
    hide IpAccounted;
    hide Encode;
    hide Put16;
    hide PseudoSum;
    hide Patch;
    hide Get16;
    var x, h := IpAccounted(d[off..], item.key.isV6), Encode(UdpHdr(item), le);
    var a := d[..off] + x;
    var y := Patch(a, off - HDR_LEN, h);
    PatchInFront(a, off, h);
    var front := d[..off - HDR_LEN] + h;
    assert a[..off - HDR_LEN] == d[..off - HDR_LEN];
    assert y == front + x;
    var len := (|d| - off - item.iphLen) % 0x1_0000;
    assert y[..off] == front && y[off..] == x;
    PutBehind(y, off, item.iphLen + 4, len);
    var e := Put16(y, off + item.iphLen + 4, len);
    var sum := PseudoSum(e[off..], item.key.isV6, PROTO_UDP);
    PutBehind(e, off, item.iphLen + 6, sum);
    var r := Put16(e, off + item.iphLen + 6, sum);
    assert r == r[..off] + r[off..];
  }

  /** A zero header for an item nothing was merged into. */
  method AccountSingle(b: Batch, k: nat, off: nat, le: bool)
    requires b.Valid() && k < |b.mems| && HDR_LEN <= off <= b.lens[k]
    modifies b.mems[k]
    ensures var d := old(b.At(k)).data;
      b.View() == old(b.View())[k := Pkt(d[..off - HDR_LEN] + Encode(ZERO_HDR, le) + d[off..], old(b.At(k)).cap)]
  {
    hide Batch.Valid;
    hide Batch.View;
    hide Batch.At;
    hide Encode;
    PatchInFront(b.At(k).data, off, Encode(ZERO_HDR, le));
    b.PutBytes(k, off - HDR_LEN, Encode(ZERO_HDR, le));
  }

  method AccountTcpItem(b: Batch, item: TcpItem, off: nat, le: bool)
    requires b.Valid() && item.bufsIndex < |b.mems| && TcpAccountable(b.At(item.bufsIndex), item, off)
    modifies b.mems[item.bufsIndex]
    ensures b.View() == old(b.View())[item.bufsIndex := TcpAccountedBuf(old(b.At(item.bufsIndex)), item, off, le)]
  {
    hide Batch.Valid;
    hide Batch.View;
    hide Batch.At;
    hide Batch.Packet;
    hide Put16;
    hide Get16;
    hide PseudoSum;
    hide IpAccounted;
    hide TcpAccounted;
    hide Encode;
    hide Patch;
    var k, isV6 := item.bufsIndex, item.key.isV6;
    if item.numMerged == 0 {
      AccountSingle(b, k, off, le);
    } else {
      ghost var d := b.At(k).data;
      TcpAccountParts(d, item, off, le);
      AccountIp(b, k, off, isV6);
      b.PutBytes(k, off - HDR_LEN, Encode(TcpHdr(item), le));
      var sum := PseudoSum(b.Packet(k, off), isV6, PROTO_TCP);
      b.PutU16(k, off + item.iphLen + 16, sum);
    }
  }

  method AccountUdpItem(b: Batch, item: UdpItem, off: nat, le: bool)
    requires b.Valid() && item.bufsIndex < |b.mems| && UdpAccountable(b.At(item.bufsIndex), item, off)
    modifies b.mems[item.bufsIndex]
    ensures b.View() == old(b.View())[item.bufsIndex := UdpAccountedBuf(old(b.At(item.bufsIndex)), item, off, le)]
  {
    hide Batch.Valid;
    hide Batch.View;
    hide Batch.At;
    hide Batch.Packet;
    hide Put16;
    hide Get16;
    hide PseudoSum;
    hide IpAccounted;
    hide UdpAccounted;
    hide Encode;
    hide Patch;
    var k, isV6 := item.bufsIndex, item.key.isV6;
    if item.numMerged == 0 {
      AccountSingle(b, k, off, le);
    } else {
      ghost var d := b.At(k).data;
      UdpAccountParts(d, item, off, le);
      var n := |b.Packet(k, off)|;
      AccountIp(b, k, off, isV6);
      b.PutBytes(k, off - HDR_LEN, Encode(UdpHdr(item), le));
      b.PutU16(k, off + item.iphLen + 4, (n - item.iphLen) % 0x1_0000);
      var sum := PseudoSum(b.Packet(k, off), isV6, PROTO_UDP);
      b.PutU16(k, off + item.iphLen + 6, sum);
    }
  }

  /** The items of one flow describe different slots, each ready for accounting. */
  ghost predicate TcpFlowReady(v: seq<Pkt>, items: seq<TcpItem>, off: nat) {
    && (forall j :: 0 <= j < |items| ==>
          items[j].bufsIndex < |v| && TcpAccountable(v[items[j].bufsIndex], items[j], off))
    && (forall j, j' :: 0 <= j < j' < |items| ==> items[j].bufsIndex != items[j'].bufsIndex)
  }

  ghost predicate TcpFlowDone(v: seq<Pkt>, w: seq<Pkt>, items: seq<TcpItem>, off: nat, le: bool) {
    forall j :: 0 <= j < |items| ==> TcpItemDone(v, w, items[j], off, le)
  }

  /** The inner loop of applyTCPCoalesceAccounting. */
  method AccountTcpFlow(b: Batch, items: seq<TcpItem>, off: nat, le: bool)
    requires b.Valid() && TcpFlowReady(b.View(), items, off)
    modifies b.mems
    ensures |b.View()| == old(|b.View()|) && TcpFlowDone(old(b.View()), b.View(), items, off, le)
    ensures forall k :: 0 <= k < |b.View()| && !ItemsHave(items, k) ==> b.View()[k] == old(b.View()[k])
  {
    hide TcpAccountedBuf;
    hide TcpAccountable;
    hide Batch.Valid;
    hide Batch.View;
    hide Batch.At;
    ghost var v := b.View();
    for n := 0 to |items|
      invariant b.Valid() && |b.View()| == |v|
      invariant forall j :: 0 <= j < n ==> TcpItemDone(v, b.View(), items[j], off, le)
      invariant forall j :: n <= j < |items| ==> b.View()[items[j].bufsIndex] == v[items[j].bufsIndex]
      invariant forall k :: 0 <= k < |v| && !ItemsHave(items, k) ==> b.View()[k] == v[k]
    {
      ghost var w := b.View();
      AccountTcpItem(b, items[n], off, le);
      ghost var k := items[n].bufsIndex;
      assert forall x :: 0 <= x < |v| && x != k ==> b.View()[x] == w[x];
      assert ItemsHave(items, k);
    }
  }

  /** Slots of the flows already visited. */
  ghost predicate TcpVisited(table: TcpTable, left: set<TcpKey>, k: nat) {
    exists key :: key in table && key !in left && ItemsHave(table[key], k)
  }

  ghost predicate TcpApart(table: TcpTable) {
    forall key, other, k ::
      key in table && other in table && ItemsHave(table[key], k) && ItemsHave(table[other], k) ==> key == other
  }

  ghost predicate TcpPartlyDone(v: seq<Pkt>, w: seq<Pkt>, table: TcpTable, left: set<TcpKey>, off: nat, le: bool) {
    && |w| == |v|
    && (forall key :: key in table && key !in left ==> TcpFlowDone(v, w, table[key], off, le))
    && (forall k :: 0 <= k < |v| && !TcpVisited(table, left, k) ==> w[k] == v[k])
  }

  lemma TcpFlowUntouched(v: seq<Pkt>, w: seq<Pkt>, table: TcpTable, left: set<TcpKey>, key: TcpKey, off: nat, le: bool)
    requires TcpPartlyDone(v, w, table, left, off, le) && TcpApart(table) && key in left && key in table
    requires TcpFlowReady(v, table[key], off)
    ensures TcpFlowReady(w, table[key], off)
    ensures forall j :: 0 <= j < |table[key]| ==> w[table[key][j].bufsIndex] == v[table[key][j].bufsIndex]
  {
    hide TcpAccountable;
    forall j | 0 <= j < |table[key]| ensures w[table[key][j].bufsIndex] == v[table[key][j].bufsIndex] {
      assert ItemsHave(table[key], table[key][j].bufsIndex);
    }
  }

  lemma TcpFlowAdded(v: seq<Pkt>, w: seq<Pkt>, w': seq<Pkt>, table: TcpTable, left: set<TcpKey>, key: TcpKey,
                     off: nat, le: bool)
    requires TcpPartlyDone(v, w, table, left, off, le) && TcpApart(table) && key in left && key in table && |w'| == |w|
    requires forall j :: 0 <= j < |table[key]| ==>
      table[key][j].bufsIndex < |v| && w[table[key][j].bufsIndex] == v[table[key][j].bufsIndex]
    requires TcpFlowDone(w, w', table[key], off, le)
    requires forall k :: 0 <= k < |w| && !ItemsHave(table[key], k) ==> w'[k] == w[k]
    ensures TcpPartlyDone(v, w', table, left - {key}, off, le)
  {
    hide TcpAccountedBuf;
    hide TcpAccountable;
    forall other | other in table && other !in left - {key} ensures TcpFlowDone(v, w', table[other], off, le) {
      if other != key {
        assert TcpFlowDone(v, w, table[other], off, le);
        forall j | 0 <= j < |table[other]| ensures TcpItemDone(v, w', table[other][j], off, le) {
          assert ItemsHave(table[other], table[other][j].bufsIndex);
        }
      }
    }
    forall k | 0 <= k < |v| && !TcpVisited(table, left - {key}, k) ensures w'[k] == v[k] {
      assert !ItemsHave(table[key], k) && !TcpVisited(table, left, k);
    }
  }

  /** applyTCPCoalesceAccounting: the flows come in any order. */
  method ApplyTcpCoalesceAccounting(b: Batch, off: nat, t: TcpGroTable, le: bool)
    requires b.Valid() && TcpApart(t.itemsByFlow)
    requires forall key :: key in t.itemsByFlow ==> TcpFlowReady(b.View(), t.itemsByFlow[key], off)
    modifies b.mems
    ensures |b.View()| == old(|b.View()|)
    ensures forall key :: key in t.itemsByFlow ==> TcpFlowDone(old(b.View()), b.View(), t.itemsByFlow[key], off, le)
    ensures forall k :: 0 <= k < |b.View()| && !HasTcp(t.itemsByFlow, k) ==> b.View()[k] == old(b.View()[k])
  {
    hide TcpFlowReady;
    hide TcpFlowDone;
    hide TcpApart;
    hide Batch.Valid;
    hide Batch.View;
    hide Batch.At;
    ghost var v := b.View();
    var table := t.itemsByFlow;
    var left := table.Keys;
    while left != {}
      invariant b.Valid() && left <= table.Keys && t.itemsByFlow == table
      invariant TcpPartlyDone(v, b.View(), table, left, off, le)
      decreases |left|
    {
      var key :| key in left;
      ghost var w := b.View();
      TcpFlowUntouched(v, w, table, left, key, off, le);
      TcpFlowSlots(v, table[key], off);
      AccountTcpFlow(b, table[key], off, le);
      TcpFlowAdded(v, w, b.View(), table, left, key, off, le);
      left := left - {key};
    }
    assert forall k :: 0 <= k < |v| && TcpVisited(table, {}, k) ==> HasTcp(table, k);
  }

  lemma TcpFlowSlots(v: seq<Pkt>, items: seq<TcpItem>, off: nat)
    requires TcpFlowReady(v, items, off)
    ensures forall j :: 0 <= j < |items| ==> items[j].bufsIndex < |v|
  {
  }

  /** The items of one flow describe different slots, each ready for accounting. */
  ghost predicate UdpFlowReady(v: seq<Pkt>, items: seq<UdpItem>, off: nat) {
    && (forall j :: 0 <= j < |items| ==>
          items[j].bufsIndex < |v| && UdpAccountable(v[items[j].bufsIndex], items[j], off))
    && (forall j, j' :: 0 <= j < j' < |items| ==> items[j].bufsIndex != items[j'].bufsIndex)
  }

  ghost predicate UdpFlowDone(v: seq<Pkt>, w: seq<Pkt>, items: seq<UdpItem>, off: nat, le: bool) {
    forall j :: 0 <= j < |items| ==> UdpItemDone(v, w, items[j], off, le)
  }

  /** The inner loop of applyUDPCoalesceAccounting. */
  method AccountUdpFlow(b: Batch, items: seq<UdpItem>, off: nat, le: bool)
    requires b.Valid() && UdpFlowReady(b.View(), items, off)
    modifies b.mems
    ensures |b.View()| == old(|b.View()|) && UdpFlowDone(old(b.View()), b.View(), items, off, le)
    ensures forall k :: 0 <= k < |b.View()| && !UdpItemsHave(items, k) ==> b.View()[k] == old(b.View()[k])
  {
    hide UdpAccountedBuf;
    hide UdpAccountable;
    hide Batch.Valid;
    hide Batch.View;
    hide Batch.At;
    ghost var v := b.View();
    for n := 0 to |items|
      invariant b.Valid() && |b.View()| == |v|
      invariant forall j :: 0 <= j < n ==> UdpItemDone(v, b.View(), items[j], off, le)
      invariant forall j :: n <= j < |items| ==> b.View()[items[j].bufsIndex] == v[items[j].bufsIndex]
      invariant forall k :: 0 <= k < |v| && !UdpItemsHave(items, k) ==> b.View()[k] == v[k]
    {
      ghost var w := b.View();
      AccountUdpItem(b, items[n], off, le);
      ghost var k := items[n].bufsIndex;
      assert forall x :: 0 <= x < |v| && x != k ==> b.View()[x] == w[x];
      assert UdpItemsHave(items, k);
    }
  }

  /** Slots of the flows already visited. */
  ghost predicate UdpVisited(table: UdpTable, left: set<UdpKey>, k: nat) {
    exists key :: key in table && key !in left && UdpItemsHave(table[key], k)
  }

  ghost predicate UdpApart(table: UdpTable) {
    forall key, other, k ::
      key in table && other in table && UdpItemsHave(table[key], k) && UdpItemsHave(table[other], k) ==> key == other
  }

  ghost predicate UdpPartlyDone(v: seq<Pkt>, w: seq<Pkt>, table: UdpTable, left: set<UdpKey>, off: nat, le: bool) {
    && |w| == |v|
    && (forall key :: key in table && key !in left ==> UdpFlowDone(v, w, table[key], off, le))
    && (forall k :: 0 <= k < |v| && !UdpVisited(table, left, k) ==> w[k] == v[k])
  }

  lemma UdpFlowUntouched(v: seq<Pkt>, w: seq<Pkt>, table: UdpTable, left: set<UdpKey>, key: UdpKey, off: nat, le: bool)
    requires UdpPartlyDone(v, w, table, left, off, le) && UdpApart(table) && key in left && key in table
    requires UdpFlowReady(v, table[key], off)
    ensures UdpFlowReady(w, table[key], off)
    ensures forall j :: 0 <= j < |table[key]| ==> w[table[key][j].bufsIndex] == v[table[key][j].bufsIndex]
  {
    hide UdpAccountable;
    forall j | 0 <= j < |table[key]| ensures w[table[key][j].bufsIndex] == v[table[key][j].bufsIndex] {
      assert UdpItemsHave(table[key], table[key][j].bufsIndex);
    }
  }

  lemma UdpFlowAdded(v: seq<Pkt>, w: seq<Pkt>, w': seq<Pkt>, table: UdpTable, left: set<UdpKey>, key: UdpKey,
                     off: nat, le: bool)
    requires UdpPartlyDone(v, w, table, left, off, le) && UdpApart(table) && key in left && key in table && |w'| == |w|
    requires forall j :: 0 <= j < |table[key]| ==>
      table[key][j].bufsIndex < |v| && w[table[key][j].bufsIndex] == v[table[key][j].bufsIndex]
    requires UdpFlowDone(w, w', table[key], off, le)
    requires forall k :: 0 <= k < |w| && !UdpItemsHave(table[key], k) ==> w'[k] == w[k]
    ensures UdpPartlyDone(v, w', table, left - {key}, off, le)
  {
    hide UdpAccountedBuf;
    hide UdpAccountable;
    forall other | other in table && other !in left - {key} ensures UdpFlowDone(v, w', table[other], off, le) {
      if other != key {
        assert UdpFlowDone(v, w, table[other], off, le);
        forall j | 0 <= j < |table[other]| ensures UdpItemDone(v, w', table[other][j], off, le) {
          assert UdpItemsHave(table[other], table[other][j].bufsIndex);
        }
      }
    }
    forall k | 0 <= k < |v| && !UdpVisited(table, left - {key}, k) ensures w'[k] == v[k] {
      assert !UdpItemsHave(table[key], k) && !UdpVisited(table, left, k);
    }
  }

  /** applyUDPCoalesceAccounting: the flows come in any order. */
  method ApplyUdpCoalesceAccounting(b: Batch, off: nat, t: UdpGroTable, le: bool)
    requires b.Valid() && UdpApart(t.itemsByFlow)
    requires forall key :: key in t.itemsByFlow ==> UdpFlowReady(b.View(), t.itemsByFlow[key], off)
    modifies b.mems
    ensures |b.View()| == old(|b.View()|)
    ensures forall key :: key in t.itemsByFlow ==> UdpFlowDone(old(b.View()), b.View(), t.itemsByFlow[key], off, le)
    ensures forall k :: 0 <= k < |b.View()| && !HasUdp(t.itemsByFlow, k) ==> b.View()[k] == old(b.View()[k])
  {
    hide UdpFlowReady;
    hide UdpFlowDone;
    hide UdpApart;
    hide Batch.Valid;
    hide Batch.View;
    hide Batch.At;
    ghost var v := b.View();
    var table := t.itemsByFlow;
    var left := table.Keys;
    while left != {}
      invariant b.Valid() && left <= table.Keys && t.itemsByFlow == table
      invariant UdpPartlyDone(v, b.View(), table, left, off, le)
      decreases |left|
    {
      var key :| key in left;
      ghost var w := b.View();
      UdpFlowUntouched(v, w, table, left, key, off, le);
      UdpFlowSlots(v, table[key], off);
      AccountUdpFlow(b, table[key], off, le);
      UdpFlowAdded(v, w, b.View(), table, left, key, off, le);
      left := left - {key};
    }
    assert forall k :: 0 <= k < |v| && UdpVisited(table, {}, k) ==> HasUdp(table, k);
  }

  lemma UdpFlowSlots(v: seq<Pkt>, items: seq<UdpItem>, off: nat)
    requires UdpFlowReady(v, items, off)
    ensures forall j :: 0 <= j < |items| ==> items[j].bufsIndex < |v|
  {
  }
}
