/** internal/gtcpip/checksum: the alignment-dependent, byte-swapping summer. */
module GvisorChecksum {
  import opened Bytes
  import opened OnesComplement
  import opened NativeWords

  function Reduce(acc: u64): u16 {
    var a := acc / 0x1_0000_0000 + acc % 0x1_0000_0000;
    var b: u32 := (a / 0x1_0000_0000 + a) % 0x1_0000_0000;
    var c := b / 0x1_0000 + b % 0x1_0000;
    (c / 0x1_0000 + c) % 0x1_0000
  }

  lemma Reduce32Rep(b: u32)
    ensures var c := b / 0x1_0000 + b % 0x1_0000;
      Rep((c / 0x1_0000 + c) % 0x1_0000, b)
  {
    hide Rep;
    var h: int, l: int := b / 0x1_0000, b % 0x1_0000;
    var c := h + l;
    var r := (c / 0x1_0000 + c) % 0x1_0000;
    RepFrom(h + l, b, -h);
    RepFrom(r, c, -(c / 0x1_0000));
    RepTrans(r, c, b);
  }

  /** Reducing the 64-bit accumulator keeps what it represents. */
  lemma ReduceRep(acc: u64)
    ensures Rep(Reduce(acc), acc)
  {
    hide Rep;
    var a := acc / 0x1_0000_0000 + acc % 0x1_0000_0000;
    var b: u32 := (a / 0x1_0000_0000 + a) % 0x1_0000_0000;
    HalvesRep(acc);
    CarryRep(a);
    Reduce32Rep(b);
    RepTrans(b, a, acc);
    RepTrans(Reduce(acc), b, acc);
  }

  lemma HalvesRep(acc: u64)
    ensures Rep(acc / 0x1_0000_0000 + acc % 0x1_0000_0000, acc)
  {
    hide Rep;
    var h: int, l: int := acc / 0x1_0000_0000, acc % 0x1_0000_0000;
    RepFrom(h + l, acc, -0x1_0001 * h);
  }

  lemma CarryRep(a: nat)
    requires a <= 0x1_FFFF_FFFE
    ensures Rep((a / 0x1_0000_0000 + a) % 0x1_0000_0000, a)
  {
    hide Rep;
    RepFrom((a / 0x1_0000_0000 + a) % 0x1_0000_0000, a, -0x1_0001 * (a / 0x1_0000_0000));
  }

  function BswapIfLittleEndian32(x: u32, le: bool): u32 {
    if le then ReverseBytes32(x) else x
  }

  function BswapIfLittleEndian16(x: u16, le: bool): u16 {
    if le then ReverseBytes16(x) else x
  }

  function BswapIfBigEndian16(x: u16, le: bool): u16 {
    if le then x else ReverseBytes16(x)
  }

  /** `k` 64-bit additions started without carry, the last carry added back. */
  function SumBlock(acc: u64, buf: seq<byte>, k: nat, le: bool): u64
    requires 8 * k <= |buf|
  {
    var (z, c) := Chain64(acc, 0, buf, k, le);
    Add64(z, 0, c).0
  }

  lemma SumBlockRep(acc: u64, buf: seq<byte>, k: nat, le: bool, total: nat)
    requires 8 * k <= |buf| && Rep(Pending(acc, 0, buf, le), total)
    ensures Rep(Pending(SumBlock(acc, buf, k, le), 0, buf[8 * k..], le), total)
  {
    hide Rep;
    Chain64Rep(acc, 0, buf, k, le);
    var (z, c) := Chain64(acc, 0, buf, k, le);
    RepTrans(Pending(z, c, buf[8 * k..], le), Pending(acc, 0, buf, le), total);
  }

  function SumTail(acc: u64, y: u64): u64 {
    var (z, c) := Add64(acc, y, 0);
    Add64(z, 0, c).0
  }

  lemma SumTailRep(acc: u64, buf: seq<byte>, n: nat, y: u64, le: bool, total: nat)
    requires n <= |buf| && Rep(Pending(acc, 0, buf, le), total)
    requires Rep(y + W(buf[n..], !le), W(buf, !le))
    ensures Rep(Pending(SumTail(acc, y), 0, buf[n..], le), total)
  {
    hide Rep;
    Tail64Rep(acc, 0, buf, n, y, le);
    var (z, c) := Add64(acc, y, 0);
    RepTrans(Pending(z, c, buf[n..], le), Pending(acc, 0, buf, le), total);
  }

  /** Buffers under 8 bytes, summed word by word without any swap. */
  method SumShort(acc0: u64, buf0: seq<byte>) returns (xsum: u16)
    requires |buf0| < 8 && acc0 < 0x2_0000
    ensures xsum == Fold(acc0 + W(buf0, true))
  {
    hide Reduce;
    hide Fold;
    var buf := buf0;
    var acc: u64 := acc0;
    if |buf| >= 4 {
      Load16Rep(buf, false);
      Load16Rep(buf[2..], false);
      assert buf[2..][2..] == buf[4..];
      acc := acc + Get16(buf, 0);
      acc := acc + Get16(buf, 2);
      buf := buf[4..];
    }
    if |buf| >= 2 {
      Load16Rep(buf, false);
      acc := acc + Get16(buf, 0);
      buf := buf[2..];
    }
    if |buf| >= 1 {
      acc := acc + buf[0] as int * 0x100;
    }
    xsum := Reduce(acc);
    ReducedTotal(acc);
  }

  lemma ReducedTotal(acc: u64)
    ensures Reduce(acc) == Fold(acc)
  {
    hide Rep;
    ReduceRep(acc);
    RepUnique(Reduce(acc), acc);
  }

  /** Swapping the accumulator and reading the rest with the weights exchanged scales the total by 256. */
  lemma SwapPending(acc: nat, swapped: nat, buf: seq<byte>, high: bool)
    requires Rep(swapped, 0x100 * acc)
    ensures Rep(swapped + W(buf, !high), 0x100 * (acc + W(buf, high)))
  {
    hide Rep;
    WSwap(buf, high);
    RepAdd(swapped, 0x100 * acc, W(buf, !high), 0x100 * W(buf, high));
  }

  lemma SwapByte(b: byte, le: bool)
    ensures BswapIfLittleEndian16(b, le) == if le then 0x100 * b as int else b
    ensures BswapIfBigEndian16(b, le) == if le then b else 0x100 * b as int
  {
  }

  lemma AlignByte(acc: nat, swapped: nat, buf: seq<byte>, le: bool, total: nat)
    requires buf != [] && Rep(swapped, 0x100 * acc) && Rep(Pending(acc, 0, buf, le), total)
    ensures Rep(Pending(swapped + BswapIfLittleEndian16(buf[0], le), 0, buf[1..], le), 0x100 * total)
  {
    hide Rep;
    SwapPending(acc, swapped, buf, !le);
    RepScale256(Pending(acc, 0, buf, le), total);
    RepTrans(swapped + W(buf, le), 0x100 * (acc + W(buf, !le)), 0x100 * total);
    SwapByte(buf[0], le);
  }

  lemma AlignWord(acc: u64, buf: seq<byte>, le: bool, total: nat)
    requires |buf| >= 4 && Rep(Pending(acc, 0, buf, le), total)
    ensures Rep(Pending(acc + Load16(buf, 0, le), 0, buf[2..], le), total)
    ensures Rep(Pending(acc + Load32(buf, 0, le), 0, buf[4..], le), total)
  {
    hide Rep;
    Load16Rep(buf, le);
    Load32Rep(buf, le);
    RepPlus(Load32(buf, 0, le) + W(buf[4..], !le), W(buf, !le), acc);
    RepTrans(acc + Load32(buf, 0, le) + W(buf[4..], !le), Pending(acc, 0, buf, le), total);
  }

  /**
  Brings the start of `buf0` to an 8-byte boundary; `addr0` is the address of its first byte.
  `total` is what accumulator and buffer stand for in the byte order of the processor.
  */
  method Align(acc0: u32, buf0: seq<byte>, addr0: nat, le: bool, ghost total: nat)
    returns (acc: u64, buf: seq<byte>, bswapped: bool)
    requires |buf0| >= 8 && Rep(Pending(acc0, 0, buf0, le), total)
    ensures bswapped == (addr0 % 2 == 1)
    ensures Rep(Pending(acc, 0, buf, le), if bswapped then 0x100 * total else total)
  {
    hide ReverseBytes32;
    hide Load16;
    hide Load32;
    hide Pending;
    hide BswapIfLittleEndian16;
    hide Rep;
    acc, buf, bswapped := acc0, buf0, false;
    var addr := addr0;
    ghost var n := total;
    if addr % 2 != 0 {
      Reverse32Rep(acc0);
      AlignByte(acc0, ReverseBytes32(acc0), buf0, le, total);
      n := 0x100 * total;
      acc, bswapped := ReverseBytes32(acc0), true;
      acc := acc + BswapIfLittleEndian16(buf[0], le);
      buf, addr := buf[1..], addr + 1;
    }
    if addr / 2 % 2 != 0 {
      AlignWord(acc, buf, le, n);
      acc := acc + Load16(buf, 0, le);
      buf, addr := buf[2..], addr + 2;
    }
    if addr / 4 % 2 != 0 {
      AlignWord(acc, buf, le, n);
      acc := acc + Load32(buf, 0, le);
      buf := buf[4..];
    }
  }

  /** The aligned part: 64 bytes at a time, then the 0 to 63 bytes left. */
  method SumAligned(acc0: u64, buf0: seq<byte>, le: bool, ghost total: nat) returns (acc: u64)
    requires Rep(Pending(acc0, 0, buf0, le), total)
    ensures Rep(acc, total)
  {
    hide Rep;
    var buf := buf0;
    acc := acc0;
    while |buf| >= 64
      invariant Rep(Pending(acc, 0, buf, le), total)
      decreases |buf|
    {
      SumBlockRep(acc, buf, 8, le, total);
      acc, buf := SumBlock(acc, buf, 8, le), buf[64..];
    }
    if |buf| >= 32 {
      SumBlockRep(acc, buf, 4, le, total);
      acc, buf := SumBlock(acc, buf, 4, le), buf[32..];
    }
    if |buf| >= 16 {
      SumBlockRep(acc, buf, 2, le, total);
      acc, buf := SumBlock(acc, buf, 2, le), buf[16..];
    }
    if |buf| >= 8 {
      SumBlockRep(acc, buf, 1, le, total);
      acc, buf := SumBlock(acc, buf, 1, le), buf[8..];
    }
    acc := SumLast(acc, buf, le, total);
  }

  method SumLast(acc0: u64, buf0: seq<byte>, le: bool, ghost total: nat) returns (acc: u64)
    requires |buf0| < 8 && Rep(Pending(acc0, 0, buf0, le), total)
    ensures Rep(acc, total)
  {
    hide Rep;
    var buf := buf0;
    acc := acc0;
    if |buf| >= 4 {
      Load32Rep(buf, le);
      SumTailRep(acc, buf, 4, Load32(buf, 0, le), le, total);
      acc, buf := SumTail(acc, Load32(buf, 0, le)), buf[4..];
    }
    if |buf| >= 2 {
      TailLoads(buf, le);
      SumTailRep(acc, buf, 2, Load16(buf, 0, le), le, total);
      acc, buf := SumTail(acc, Load16(buf, 0, le)), buf[2..];
    }
    if |buf| >= 1 {
      LastByteRep(acc, buf, le, total);
      acc := SumTail(acc, BswapIfBigEndian16(buf[0], le));
    }
  }

  lemma LastByteRep(acc: u64, buf: seq<byte>, le: bool, total: nat)
    requires |buf| == 1 && Rep(Pending(acc, 0, buf, le), total)
    ensures Rep(SumTail(acc, BswapIfBigEndian16(buf[0], le)), total)
  {
    hide Rep;
    TailLoads(buf, le);
    assert buf[1..] == [];
    SwapByte(buf[0], le);
    SumTailRep(acc, buf, 1, LastByte(buf, le), le, total);
  }

  /**
  For every buffer, initial value, odd flag, start address and byte order the result is the
  section 2 sum of RFC 1071, and the returned flag is the parity of all bytes summed so far.
  */
  method CalculateChecksum(buf0: seq<byte>, odd: bool, initial: u16, addr: nat, le: bool)
    returns (xsum: u16, oddOut: bool)
    requires odd ==> buf0 != []
    ensures xsum == Rfc1071Resumed(buf0, odd, initial)
    ensures oddOut == ((|buf0| % 2 == 1) != odd)
  {
    var buf, at := buf0, addr;
    var acc: u64 := initial;
    if odd {
      acc := acc + buf[0];
      buf, at := buf[1..], at + 1;
    }
    oddOut := |buf| % 2 != 0;
    ghost var n := acc + W(buf, true);
    assert n == initial + W(buf0, !odd);
    Rfc1071ResumedIsFold(buf0, odd, initial);
    if |buf| < 8 {
      xsum := SumShort(acc, buf);
    } else {
      xsum := SumLong(acc, buf, at, le);
    }
  }

  /** Buffers of at least 8 bytes, summed in the byte order of the processor. */
  method SumLong(acc0: u32, buf0: seq<byte>, addr: nat, le: bool) returns (xsum: u16)
    requires |buf0| >= 8
    ensures xsum == Fold(acc0 + W(buf0, true))
  {
    hide Rep;
    ghost var n := acc0 + W(buf0, true);
    ghost var total := if le then 0x100 * n else n;
    NativeTotal(acc0, buf0, le);
    var acc, buf, bswapped := Align(BswapIfLittleEndian32(acc0, le), buf0, addr, le, total);
    ghost var total' := if bswapped then 0x100 * total else total;
    acc := SumAligned(acc, buf, le, total');
    ReduceRep(acc);
    RepTrans(Reduce(acc), acc, total');
    xsum := BswapIfLittleEndian16(Reduce(acc), le);
    UndoSwaps(Reduce(acc), n, le, bswapped);
    if bswapped {
      xsum := ReverseBytes16(xsum);
    }
  }

  lemma NativeTotal(acc: u32, buf: seq<byte>, le: bool)
    ensures var n := acc + W(buf, true);
      Rep(Pending(BswapIfLittleEndian32(acc, le), 0, buf, le), if le then 0x100 * n else n)
  {
    hide Rep;
    if le {
      Reverse32Rep(acc);
      SwapPending(acc, ReverseBytes32(acc), buf, true);
    } else {
      RepFrom(acc + W(buf, true), acc + W(buf, true), 0);
    }
  }

  /** The swaps before returning undo the swaps of the accumulator. */
  lemma UndoSwaps(x: u16, n: nat, le: bool, bswapped: bool)
    requires var total := if le then 0x100 * n else n;
      Rep(x, if bswapped then 0x100 * total else total)
    ensures var y := BswapIfLittleEndian16(x, le);
      (if bswapped then ReverseBytes16(y) else y) == Fold(n)
  {
    hide Rep;
    var total := if le then 0x100 * n else n;
    var y := BswapIfLittleEndian16(x, le);
    Reverse16Rep(x);
    Reverse16Rep(y);
    if bswapped && le {
      RepScale256(x, 0x1_0000 * n);
      RepTrans(y, 0x100 * x, 0x100_0000 * n);
      RepFrom(0x100_0000 * n, 0x100 * n, 0x100 * n);
      RepTrans(y, 0x100_0000 * n, 0x100 * n);
      SwapTwice(ReverseBytes16(y), y, n);
    } else if bswapped || le {
      SwapTwice(ReverseBytes16(x), x, n);
    } else {
      RepUnique(x, n);
    }
  }

  /** Combine adds two partial sums with end-around carry. */
  function Combine(a: u16, b: u16): (r: u16)
    ensures r == EndAroundAdd(a, b) && r == Fold(a + b)
  {
    var v := a + b;
    EndAroundRep(a, b);
    (v + v / 0x1_0000) % 0x1_0000
  }
}
