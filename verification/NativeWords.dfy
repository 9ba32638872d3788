/**
Machine words as the summers load them: `le` is the byte order of the processor.
A load in either order represents the weighted sum of its bytes, with the first byte
weighing 256 exactly on a big-endian processor.
*/
module NativeWords {
  import opened Bytes
  import opened OnesComplement

  function Load16(s: seq<byte>, at: nat, le: bool): u16
    requires at + 2 <= |s|
  {
    if le then s[at] as int + s[at + 1] as int * 0x100 else Get16(s, at)
  }

  function Load32(s: seq<byte>, at: nat, le: bool): u32
    requires at + 4 <= |s|
  {
    if le then Load16(s, at, le) + Load16(s, at + 2, le) * 0x1_0000
    else Load16(s, at, le) * 0x1_0000 + Load16(s, at + 2, le)
  }

  function Load64(s: seq<byte>, at: nat, le: bool): u64
    requires at + 8 <= |s|
  {
    if le then Load32(s, at, le) + Load32(s, at + 4, le) * 0x1_0000_0000
    else Load32(s, at, le) * 0x1_0000_0000 + Load32(s, at + 4, le)
  }

  /** A load, added to what follows it, represents the sum from its first byte on. */
  lemma Load16Rep(s: seq<byte>, le: bool)
    requires 2 <= |s|
    ensures Load16(s, 0, le) + W(s[2..], !le) == W(s, !le)
  {
    WSplit(s, 2, !le);
    W2(s[..2], !le);
  }

  lemma Load32Rep(s: seq<byte>, le: bool)
    requires 4 <= |s|
    ensures Rep(Load32(s, 0, le) + W(s[4..], !le), W(s, !le))
  {
    hide Rep;
    var x: int, y: int, rest: int := Load16(s, 0, le), Load16(s, 2, le), W(s[4..], !le);
    Load16Rep(s, le);
    Load16Rep(s[2..], le);
    assert s[2..][2..] == s[4..];
    if le {
      RepFrom(x + y * 0x1_0000 + rest, x + y + rest, y);
    } else {
      RepFrom(x * 0x1_0000 + y + rest, x + y + rest, x);
    }
  }

  /** Two halves in front of a rest, joined in either order. */
  lemma JoinRep(x: nat, y: nat, rest: nat, m: nat, n: nat)
    requires Rep(y + rest, m) && Rep(x + m, n)
    ensures Rep(x * 0x1_0000_0000 + y + rest, n)
    ensures Rep(x + y * 0x1_0000_0000 + rest, n)
  {
    hide Rep;
    RepPlus(y + rest, m, x);
    RepTrans(x + y + rest, x + m, n);
    RepFrom(x * 0x1_0000_0000 + y + rest, x + y + rest, x * 0x1_0001);
    RepFrom(x + y * 0x1_0000_0000 + rest, x + y + rest, y * 0x1_0001);
    RepTrans(x * 0x1_0000_0000 + y + rest, x + y + rest, n);
    RepTrans(x + y * 0x1_0000_0000 + rest, x + y + rest, n);
  }

  lemma Load64Rep(s: seq<byte>, le: bool)
    requires 8 <= |s|
    ensures Rep(Load64(s, 0, le) + W(s[8..], !le), W(s, !le))
  {
    hide Rep;
    Load32Rep(s, le);
    Load32Rep(s[4..], le);
    assert s[4..][4..] == s[8..];
    JoinRep(Load32(s, 0, le), Load32(s, 4, le), W(s[8..], !le), W(s[4..], !le), W(s, !le));
  }

  function ReverseBytes16(x: u16): u16 {
    x % 0x100 * 0x100 + x / 0x100
  }

  function ReverseBytes32(x: u32): u32 {
    ReverseBytes16(x % 0x1_0000) * 0x1_0000 + ReverseBytes16(x / 0x1_0000)
  }

  lemma Reverse16Rep(x: u16)
    ensures Rep(ReverseBytes16(x), 0x100 * x)
  {
    hide Rep;
    RepFrom(ReverseBytes16(x), 0x100 * x, -(x / 0x100));
  }

  lemma HalvesRep(h: nat, l: nat, rh: nat, rl: nat)
    requires Rep(rh, 0x100 * h) && Rep(rl, 0x100 * l)
    ensures Rep(rl * 0x1_0000 + rh, 0x100 * (h * 0x1_0000 + l))
  {
    hide Rep;
    RepShift(rl, 0x100 * l);
    RepAdd(rl * 0x1_0000, 0x100 * l, rh, 0x100 * h);
    RepFrom(0x100 * l + 0x100 * h, 0x100 * (h * 0x1_0000 + l), -0x100 * h);
    RepTrans(rl * 0x1_0000 + rh, 0x100 * l + 0x100 * h, 0x100 * (h * 0x1_0000 + l));
  }

  lemma Reverse32Rep(x: u32)
    ensures Rep(ReverseBytes32(x), 0x100 * x)
  {
    hide Rep;
    var h: u16, l: u16 := x / 0x1_0000, x % 0x1_0000;
    Reverse16Rep(h);
    Reverse16Rep(l);
    HalvesRep(h, l, ReverseBytes16(h), ReverseBytes16(l));
    assert x == h * 0x1_0000 + l;
  }

  /** Two exchanges of byte order cancel. */
  lemma SwapTwice(x: u16, v: nat, n: nat)
    requires Rep(x, 0x100 * v) && Rep(v, 0x100 * n)
    ensures x == Fold(n)
  {
    hide Rep;
    RepScale256(v, 0x100 * n);
    RepTrans(x, 0x100 * v, 0x1_0000 * n);
    RepFrom(0x1_0000 * n, n, n);
    RepTrans(x, 0x1_0000 * n, n);
    RepUnique(x, n);
  }

  function Add64(x: u64, y: u64, carry: bit): (u64, bit) {
    if x + y + carry < 0x1_0000_0000_0000_0000 then (x + y + carry, 0)
    else (x + y + carry - 0x1_0000_0000_0000_0000, 1)
  }

  function Add32(x: u32, y: u32, carry: bit): (u32, bit) {
    if x + y + carry < 0x1_0000_0000 then (x + y + carry, 0)
    else (x + y + carry - 0x1_0000_0000, 1)
  }

  /** One addition keeps the represented value, and never leaves all ones together with a carry. */
  lemma Add64Rep(x: u64, y: u64, carry: bit)
    requires x + carry < 0x1_0000_0000_0000_0000
    ensures var (z, c) := Add64(x, y, carry);
      z + c < 0x1_0000_0000_0000_0000 && Rep(z + c, x + carry + y)
  {
    var (z, c) := Add64(x, y, carry);
    RepFrom(z + c, x + carry + y, -0x1_0001_0001_0001 * c);
  }

  lemma Add32Rep(x: u32, y: u32, carry: bit)
    requires x + carry < 0x1_0000_0000
    ensures var (z, c) := Add32(x, y, carry);
      z + c < 0x1_0000_0000 && Rep(z + c, x + carry + y)
  {
    var (z, c) := Add32(x, y, carry);
    RepFrom(z + c, x + carry + y, -0x1_0001 * c);
  }

  /** `k` successive 64-bit loads from the front of `s`, added with a running carry. */
  function Chain64(acc: u64, carry: bit, s: seq<byte>, k: nat, le: bool): (u64, bit)
    requires 8 * k <= |s|
    decreases k
  {
    if k == 0 then (acc, carry)
    else
      var (z, c) := Add64(acc, Load64(s, 0, le), carry);
      Chain64(z, c, s[8..], k - 1, le)
  }

  function Chain32(acc: u32, carry: bit, s: seq<byte>, k: nat, le: bool): (u32, bit)
    requires 4 * k <= |s|
    decreases k
  {
    if k == 0 then (acc, carry)
    else
      var (z, c) := Add32(acc, Load32(s, 0, le), carry);
      Chain32(z, c, s[4..], k - 1, le)
  }

  /** What is accumulated plus what is left to sum. */
  ghost function Pending(acc: nat, carry: nat, s: seq<byte>, le: bool): nat {
    acc + carry + W(s, !le)
  }

  lemma PendingNothing(acc: nat, carry: nat, s: seq<byte>, le: bool)
    requires s == []
    ensures Pending(acc, carry, s, le) == acc + carry
  {
  }

  lemma {:induction false} Chain64Rep(acc: u64, carry: bit, s: seq<byte>, k: nat, le: bool)
    requires 8 * k <= |s| && acc + carry < 0x1_0000_0000_0000_0000
    ensures var (z, c) := Chain64(acc, carry, s, k, le);
      z + c < 0x1_0000_0000_0000_0000 && Rep(Pending(z, c, s[8 * k..], le), Pending(acc, carry, s, le))
    decreases k
  {
    hide Rep;
    if k == 0 {
      RepFrom(Pending(acc, carry, s, le), Pending(acc, carry, s, le), 0);
      assert s[8 * k..] == s;
    } else {
      var y := Load64(s, 0, le);
      var (z, c) := Add64(acc, y, carry);
      Add64Rep(acc, y, carry);
      Load64Rep(s, le);
      var rest := W(s[8..], !le);
      RepPlus(z + c, acc + carry + y, rest);
      RepPlus(y + rest, W(s, !le), acc + carry);
      RepTrans(z + c + rest, acc + carry + y + rest, Pending(acc, carry, s, le));
      Chain64Rep(z, c, s[8..], k - 1, le);
      assert s[8..][8 * (k - 1)..] == s[8 * k..];
      var (z', c') := Chain64(acc, carry, s, k, le);
      RepTrans(Pending(z', c', s[8 * k..], le), Pending(z, c, s[8..], le), Pending(acc, carry, s, le));
    }
  }

  lemma {:induction false} Chain32Rep(acc: u32, carry: bit, s: seq<byte>, k: nat, le: bool)
    requires 4 * k <= |s| && acc + carry < 0x1_0000_0000
    ensures var (z, c) := Chain32(acc, carry, s, k, le);
      z + c < 0x1_0000_0000 && Rep(Pending(z, c, s[4 * k..], le), Pending(acc, carry, s, le))
    decreases k
  {
    hide Rep;
    if k == 0 {
      RepFrom(Pending(acc, carry, s, le), Pending(acc, carry, s, le), 0);
      assert s[4 * k..] == s;
    } else {
      var y := Load32(s, 0, le);
      var (z, c) := Add32(acc, y, carry);
      Add32Rep(acc, y, carry);
      Load32Rep(s, le);
      var rest := W(s[4..], !le);
      RepPlus(z + c, acc + carry + y, rest);
      RepPlus(y + rest, W(s, !le), acc + carry);
      RepTrans(z + c + rest, acc + carry + y + rest, Pending(acc, carry, s, le));
      Chain32Rep(z, c, s[4..], k - 1, le);
      assert s[4..][4 * (k - 1)..] == s[4 * k..];
      var (z', c') := Chain32(acc, carry, s, k, le);
      RepTrans(Pending(z', c', s[4 * k..], le), Pending(z, c, s[4..], le), Pending(acc, carry, s, le));
    }
  }

  /** A short tail load of one, two or four bytes, added with the running carry. */
  lemma Tail64Rep(acc: u64, carry: bit, s: seq<byte>, n: nat, y: u64, le: bool)
    requires n <= |s| && acc + carry < 0x1_0000_0000_0000_0000
    requires Rep(y + W(s[n..], !le), W(s, !le))
    ensures var (z, c) := Add64(acc, y, carry);
      z + c < 0x1_0000_0000_0000_0000 && Rep(Pending(z, c, s[n..], le), Pending(acc, carry, s, le))
  {
    hide Rep;
    var (z, c) := Add64(acc, y, carry);
    var rest := W(s[n..], !le);
    Add64Rep(acc, y, carry);
    RepPlus(z + c, acc + carry + y, rest);
    RepPlus(y + rest, W(s, !le), acc + carry);
    RepTrans(z + c + rest, acc + carry + y + rest, Pending(acc, carry, s, le));
  }

  lemma Tail32Rep(acc: u32, carry: bit, s: seq<byte>, n: nat, y: u32, le: bool)
    requires n <= |s| && acc + carry < 0x1_0000_0000
    requires Rep(y + W(s[n..], !le), W(s, !le))
    ensures var (z, c) := Add32(acc, y, carry);
      z + c < 0x1_0000_0000 && Rep(Pending(z, c, s[n..], le), Pending(acc, carry, s, le))
  {
    hide Rep;
    var (z, c) := Add32(acc, y, carry);
    var rest := W(s[n..], !le);
    Add32Rep(acc, y, carry);
    RepPlus(z + c, acc + carry + y, rest);
    RepPlus(y + rest, W(s, !le), acc + carry);
    RepTrans(z + c + rest, acc + carry + y + rest, Pending(acc, carry, s, le));
  }

  /** A single last byte, loaded as the high byte of a big-endian word. */
  function LastByte(s: seq<byte>, le: bool): u16
    requires s != []
  {
    if le then s[0] else s[0] as int * 0x100
  }

  lemma TailLoads(s: seq<byte>, le: bool)
    ensures |s| >= 2 ==> Rep(Load16(s, 0, le) + W(s[2..], !le), W(s, !le))
    ensures |s| >= 1 ==> Rep(LastByte(s, le) + W(s[1..], le), W(s, !le))
  {
    hide Rep;
    if |s| >= 2 {
      Load16Rep(s, le);
      RepFrom(W(s, !le), W(s, !le), 0);
    }
    if |s| >= 1 {
      RepFrom(W(s, !le), W(s, !le), 0);
    }
  }

  /** A 16-bit value in the byte order of the processor; its own inverse. */
  function Native16(x: u16, le: bool): u16 {
    if le then ReverseBytes16(x) else x
  }

  /** The total the accumulator must represent when summing in the processor's byte order. */
  ghost function NativeTotal(n: nat, le: bool): nat {
    if le then 0x100 * n else n
  }

  lemma NativeStart(initial: u16, s: seq<byte>, le: bool)
    ensures Rep(Pending(Native16(initial, le), 0, s, le), NativeTotal(initial + W(s, true), le))
  {
    hide Rep;
    if le {
      Reverse16Rep(initial);
      WSwap(s, true);
      RepAdd(ReverseBytes16(initial), 0x100 * initial, W(s, false), 0x100 * W(s, true));
    } else {
      RepFrom(initial + W(s, true), initial + W(s, true), 0);
    }
  }

  lemma NativeEnd(x: u16, n: nat, le: bool)
    requires Rep(x, NativeTotal(n, le))
    ensures Native16(x, le) == Fold(n)
  {
    hide Rep;
    if le {
      Reverse16Rep(x);
      SwapTwice(ReverseBytes16(x), x, n);
    } else {
      RepUnique(x, n);
    }
  }
}
