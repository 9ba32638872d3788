/** The buffers and tables of tun_offload_linux.go as they are changed in place. */
module GroBuffers {
  import opened Wrappers
  import opened Bytes
  import opened ByteArrays
  import opened GroModel

  /** A Go byte slice per slot: its backing array, of the slice's capacity, and its length. */
  class Batch {
    var mems: seq<array<byte>>
    var lens: seq<nat>
    var toWrite: seq<nat>

    ghost predicate Valid()
      reads this
    {
      && |mems| == |lens|
      && (forall k :: 0 <= k < |mems| ==> lens[k] <= mems[k].Length)
      && (forall j, k :: 0 <= j < k < |mems| ==> mems[j] != mems[k])
    }

    ghost function At(k: nat): (p: Pkt)
      requires Valid() && k < |mems|
      reads this, mems
      ensures |p.data| == lens[k] && p.cap == mems[k].Length
    {
      Pkt(mems[k][..lens[k]], mems[k].Length)
    }

    /** The packet in slot `k`, behind its headroom. */
    function Packet(k: nat, off: nat): (p: seq<byte>)
      requires Valid() && k < |mems| && off <= lens[k]
      reads this, mems
      ensures p == At(k).data[off..]
    {
      mems[k][off..lens[k]]
    }

    ghost function View(): (v: seq<Pkt>)
      requires Valid()
      reads this, mems
      ensures |v| == |mems| && forall k :: 0 <= k < |mems| ==> v[k] == At(k)
    {
      seq(|mems|, k requires 0 <= k < |mems| && Valid() reads this, mems => At(k))
    }

    /** Buffers of the caller, pairwise disjoint. */
    constructor (bufs: seq<array<byte>>, sizes: seq<nat>)
      requires |bufs| == |sizes| && (forall k :: 0 <= k < |bufs| ==> sizes[k] <= bufs[k].Length)
      requires forall j, k :: 0 <= j < k < |bufs| ==> bufs[j] != bufs[k]
      ensures Valid() && mems == bufs && lens == sizes && toWrite == []
    {
      mems, lens, toWrite := bufs, sizes, [];
    }

    /** Extends slot `k` into its capacity and copies `s` behind its old end. */
    method Extend(k: nat, s: seq<byte>)
      requires Valid() && k < |mems| && lens[k] + |s| <= mems[k].Length
      modifies this`lens, mems[k]
      ensures Valid() && View() == old(View())[k := Pkt(old(At(k)).data + s, mems[k].Length)]
    {
      ghost var was := old(View());
      var n := lens[k];
      WriteBytes(mems[k], n, s);
      lens := lens[k := n + |s|];
      assert mems[k][..n + |s|] == was[k].data + s;
      assert forall j :: 0 <= j < |mems| && j != k ==> At(j) == was[j];
    }

    /** Exchanges the slice headers of two slots. */
    method Swap(i: nat, k: nat)
      requires Valid() && i < |mems| && k < |mems| && i != k
      modifies this`mems, this`lens
      ensures Valid() && View() == old(View())[k := old(At(i))][i := old(At(k))]
      ensures mems == old(mems[k := mems[i]][i := mems[k]])
    {
      ghost var was := old(View());
      ghost var old_mems := mems;
      mems := mems[k := mems[i]][i := mems[k]];
      lens := lens[k := lens[i]][i := lens[k]];
      forall a, c | 0 <= a < c < |mems| ensures mems[a] != mems[c] {
        var a', c' := if a == i then k else if a == k then i else a, if c == i then k else if c == k then i else c;
        assert mems[a] == old_mems[a'] && mems[c] == old_mems[c'];
      }
      assert forall j :: 0 <= j < |mems| ==> At(j) == was[if j == i then k else if j == k then i else j];
    }

    method NoteForWriting(i: nat)
      requires Valid()
      modifies this`toWrite
      ensures Valid() && View() == old(View()) && toWrite == old(toWrite) + [i]
    {
      toWrite := toWrite + [i];
    }

    method PutU16(k: nat, at: nat, v: u16)
      requires Valid() && k < |mems| && at + 2 <= lens[k]
      modifies mems[k]
      ensures View() == old(View())[k := Pkt(Put16(old(At(k)).data, at, v), mems[k].Length)]
    {
      ghost var was := old(View());
      WriteU16(mems[k], at, v);
      assert mems[k][..lens[k]] == Put16(was[k].data, at, v);
      assert forall j :: 0 <= j < |mems| && j != k ==> At(j) == was[j];
    }

    method PutByte(k: nat, at: nat, v: byte)
      requires Valid() && k < |mems| && at < lens[k]
      modifies mems[k]
      ensures View() == old(View())[k := Pkt(old(At(k)).data[at := v], mems[k].Length)]
    {
      ghost var was := old(View());
      WriteByte(mems[k], at, v);
      assert mems[k][..lens[k]] == was[k].data[at := v];
      assert forall j :: 0 <= j < |mems| && j != k ==> At(j) == was[j];
    }

    method PutBytes(k: nat, at: nat, s: seq<byte>)
      requires Valid() && k < |mems| && at + |s| <= lens[k]
      modifies mems[k]
      ensures View() == old(View())[k := Pkt(Patch(old(At(k)).data, at, s), mems[k].Length)]
    {
      ghost var was := old(View());
      WriteBytes(mems[k], at, s);
      assert mems[k][..lens[k]] == Patch(was[k].data, at, s);
      assert forall j :: 0 <= j < |mems| && j != k ==> At(j) == was[j];
    }
  }

  const IDEAL_BATCH_SIZE := 128

  /** tcpGROTable; of the pool of item slices only their number matters. */
  class TcpGroTable {
    var itemsByFlow: TcpTable
    var itemsPool: nat

    ghost predicate Valid()
      reads this
    {
      |itemsByFlow| + itemsPool == IDEAL_BATCH_SIZE
    }

    constructor ()
      ensures Valid() && itemsByFlow == map[]
    {
      itemsByFlow, itemsPool := map[], IDEAL_BATCH_SIZE;
    }

    /** Adds an item behind those of its flow; a new flow takes a slice from the pool. */
    method Insert(key: TcpKey, item: TcpItem)
      requires Valid() && (key !in itemsByFlow ==> itemsPool > 0)
      modifies this
      ensures Valid() && itemsByFlow == old(itemsByFlow)[key :=
        (if key in old(itemsByFlow) then old(itemsByFlow)[key] else []) + [item]]
    {
      var items: seq<TcpItem> := [];
      if key in itemsByFlow {
        items := itemsByFlow[key];
        assert itemsByFlow[key := items + [item]].Keys == itemsByFlow.Keys;
      } else {
        itemsPool := itemsPool - 1;
        assert itemsByFlow[key := items + [item]].Keys == itemsByFlow.Keys + {key};
      }
      itemsByFlow := itemsByFlow[key := items + [item]];
    }

    method UpdateAt(item: TcpItem, i: nat)
      requires Valid() && item.key in itemsByFlow && i < |itemsByFlow[item.key]|
      modifies this`itemsByFlow
      ensures Valid() && itemsByFlow == old(itemsByFlow)[item.key := old(itemsByFlow)[item.key][i := item]]
    {
      assert itemsByFlow[item.key := itemsByFlow[item.key][i := item]].Keys == itemsByFlow.Keys;
      itemsByFlow := itemsByFlow[item.key := itemsByFlow[item.key][i := item]];
    }

    method DeleteAt(key: TcpKey, i: nat)
      requires Valid() && key in itemsByFlow && i < |itemsByFlow[key]|
      modifies this`itemsByFlow
      ensures Valid()
      ensures var items := old(itemsByFlow)[key]; itemsByFlow == old(itemsByFlow)[key := items[..i] + items[i + 1..]]
    {
      var items := itemsByFlow[key];
      assert itemsByFlow[key := items[..i] + items[i + 1..]].Keys == itemsByFlow.Keys;
      itemsByFlow := itemsByFlow[key := items[..i] + items[i + 1..]];
    }

    /** Gives every slice back to the pool. */
    method Reset()
      requires Valid()
      modifies this
      ensures Valid() && itemsByFlow == map[] && itemsPool == IDEAL_BATCH_SIZE
    {
      while itemsByFlow != map[]
        invariant Valid()
        decreases |itemsByFlow|
      {
        var key :| key in itemsByFlow;
        assert (itemsByFlow - {key}).Keys == itemsByFlow.Keys - {key};
        itemsByFlow, itemsPool := itemsByFlow - {key}, itemsPool + 1;
      }
    }
  }

  /** udpGROTable. */
  class UdpGroTable {
    var itemsByFlow: UdpTable
    var itemsPool: nat

    ghost predicate Valid()
      reads this
    {
      |itemsByFlow| + itemsPool == IDEAL_BATCH_SIZE
    }

    constructor ()
      ensures Valid() && itemsByFlow == map[]
    {
      itemsByFlow, itemsPool := map[], IDEAL_BATCH_SIZE;
    }

    method Insert(key: UdpKey, item: UdpItem)
      requires Valid() && (key !in itemsByFlow ==> itemsPool > 0)
      modifies this
      ensures Valid() && itemsByFlow == old(itemsByFlow)[key :=
        (if key in old(itemsByFlow) then old(itemsByFlow)[key] else []) + [item]]
    {
      var items: seq<UdpItem> := [];
      if key in itemsByFlow {
        items := itemsByFlow[key];
        assert itemsByFlow[key := items + [item]].Keys == itemsByFlow.Keys;
      } else {
        itemsPool := itemsPool - 1;
        assert itemsByFlow[key := items + [item]].Keys == itemsByFlow.Keys + {key};
      }
      itemsByFlow := itemsByFlow[key := items + [item]];
    }

    method UpdateAt(item: UdpItem, i: nat)
      requires Valid() && item.key in itemsByFlow && i < |itemsByFlow[item.key]|
      modifies this`itemsByFlow
      ensures Valid() && itemsByFlow == old(itemsByFlow)[item.key := old(itemsByFlow)[item.key][i := item]]
    {
      assert itemsByFlow[item.key := itemsByFlow[item.key][i := item]].Keys == itemsByFlow.Keys;
      itemsByFlow := itemsByFlow[item.key := itemsByFlow[item.key][i := item]];
    }

    method Reset()
      requires Valid()
      modifies this
      ensures Valid() && itemsByFlow == map[] && itemsPool == IDEAL_BATCH_SIZE
    {
      while itemsByFlow != map[]
        invariant Valid()
        decreases |itemsByFlow|
      {
        var key :| key in itemsByFlow;
        assert (itemsByFlow - {key}).Keys == itemsByFlow.Keys - {key};
        itemsByFlow, itemsPool := itemsByFlow - {key}, itemsPool + 1;
      }
    }
  }
}
