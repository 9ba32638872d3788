/**
One's-complement arithmetic on 16-bit words.

`Rfc1071` is the reference: words are taken from the front, big-endian, and added with
end-around carry.  Every fast form is related to it through `Rep`: a natural number `v`
represents the total `n` when the two agree modulo 65535 and are zero together.  Zero is
what separates the two one's-complement zeros, so a 16-bit representative is unique.
*/
module OnesComplement {
  import opened Bytes

  function EndAroundAdd(a: u16, b: u16): u16 {
    if a + b < 0x1_0000 then a + b else a + b - 0xFFFF
  }

  /** Section 2 of RFC 1071: the sum of the big-endian words of `s`, a last odd byte padded with zero. */
  function Rfc1071(s: seq<byte>, initial: u16): u16
    decreases |s|
  {
    if s == [] then initial
    else if |s| == 1 then EndAroundAdd(initial, s[0] as int * 0x100)
    else Rfc1071(s[2..], EndAroundAdd(initial, Get16(s, 0)))
  }

  /** The same sum resumed after an odd number of bytes: the first byte completes a word. */
  function Rfc1071Resumed(s: seq<byte>, odd: bool, initial: u16): u16
    requires odd ==> s != []
  {
    if odd then Rfc1071(s[1..], EndAroundAdd(initial, s[0])) else Rfc1071(s, initial)
  }

  ghost function Times65535(k: int): int {
    0xFFFF * k
  }

  ghost predicate Rep(v: int, n: int) {
    0 <= v && 0 <= n && (v == 0 <==> n == 0) && exists k :: v - n == Times65535(k)
  }

  /** The unique 16-bit representative of a total. */
  function Fold(n: nat): u16 {
    if n == 0 then 0 else (n - 1) % 0xFFFF + 1
  }

  lemma FoldRep(n: nat)
    ensures Rep(Fold(n), n)
  {
    if n > 0 {
      assert Fold(n) - n == Times65535(-((n - 1) / 0xFFFF));
    } else {
      assert Fold(n) - n == Times65535(0);
    }
  }

  lemma RepUnique(x: u16, n: nat)
    requires Rep(x, n)
    ensures x == Fold(n)
  {
    if n > 0 {
      var k :| x - n == Times65535(k);
    }
  }

  lemma RepAdd(v: int, n: int, w: int, m: int)
    requires Rep(v, n) && Rep(w, m)
    ensures Rep(v + w, n + m)
  {
    var i :| v - n == Times65535(i);
    var j :| w - m == Times65535(j);
    RepFrom(v + w, n + m, i + j);
  }

  lemma RepTrans(v: int, n: int, m: int)
    requires Rep(v, n) && Rep(n, m)
    ensures Rep(v, m)
  {
    var i :| v - n == Times65535(i);
    var j :| n - m == Times65535(j);
    RepFrom(v, m, i + j);
  }

  /** Differing by a multiple of 65535 and being zero together is representation. */
  lemma RepFrom(v: int, n: int, k: int)
    requires 0 <= v && 0 <= n && v - n == 0xFFFF * k && (v == 0 <==> n == 0)
    ensures Rep(v, n)
  {
    assert v - n == Times65535(k);
  }

  /** A total represents itself, and anything can be added on both sides. */
  lemma RepPlus(v: int, n: int, m: nat)
    requires Rep(v, n)
    ensures Rep(v + m, n + m)
  {
    RepFrom(m, m, 0);
    RepAdd(v, n, m, m);
  }

  /** Powers of 2^16 weigh nothing. */
  lemma RepShift(v: int, n: int)
    requires Rep(v, n)
    ensures Rep(0x1_0000 * v, n)
    ensures Rep(0x1_0000_0000 * v, n)
    ensures Rep(0x1_0000_0000_0000_0000 * v, n)
  {
    RepFrom(0x1_0000 * v, v, v);
    RepFrom(0x1_0000_0000 * v, v, 0x1_0001 * v);
    RepFrom(0x1_0000_0000_0000_0000 * v, v, 0x1_0001_0001_0001 * v);
    RepTrans(0x1_0000 * v, v, n);
    RepTrans(0x1_0000_0000 * v, v, n);
    RepTrans(0x1_0000_0000_0000_0000 * v, v, n);
  }

  lemma RepScale256(v: int, n: int)
    requires Rep(v, n)
    ensures Rep(0x100 * v, 0x100 * n)
  {
    var k :| v - n == Times65535(k);
    RepFrom(0x100 * v, 0x100 * n, 0x100 * k);
  }

  /** Weighted byte sum: bytes weigh 256 and 1 in turn, the first weighing 256 when `high`. */
  function W(s: seq<byte>, high: bool): nat {
    if s == [] then 0
    else (if high then 0x100 * s[0] as int else s[0]) + W(s[1..], !high)
  }

  lemma WEmpty(s: seq<byte>, high: bool)
    requires s == []
    ensures W(s, high) == 0
  {
  }

  lemma WFirst(s: seq<byte>)
    requires s != []
    ensures W(s, true) >= 0x100 * s[0] as int
  {
  }

  lemma {:induction false} WConcat(a: seq<byte>, b: seq<byte>, high: bool)
    ensures W(a + b, high) == W(a, high) + W(b, high == (|a| % 2 == 0))
    decreases |a|
  {
    if a == [] {
      assert a + b == b;
    } else {
      assert (a + b)[1..] == a[1..] + b;
      WConcat(a[1..], b, !high);
    }
  }

  lemma WSplit(s: seq<byte>, k: nat, high: bool)
    requires k <= |s|
    ensures W(s, high) == W(s[..k], high) + W(s[k..], high == (k % 2 == 0))
  {
    assert s == s[..k] + s[k..];
    WConcat(s[..k], s[k..], high);
  }

  /** Exchanging the two weights multiplies the sum by 256 (section 2(B) of RFC 1071). */
  lemma {:induction false} WSwap(s: seq<byte>, high: bool)
    ensures Rep(W(s, !high), 0x100 * W(s, high))
    decreases |s|
  {
    hide Rep;
    if s == [] {
      RepFrom(0, 0, 0);
    } else {
      WSwap(s[1..], !high);
      if high {
        RepFrom(s[0], 0x1_0000 * s[0] as int, -(s[0] as int));
        RepAdd(s[0], 0x1_0000 * s[0] as int, W(s[1..], true), 0x100 * W(s[1..], false));
      } else {
        RepFrom(0x100 * s[0] as int, 0x100 * s[0] as int, 0);
        RepAdd(0x100 * s[0] as int, 0x100 * s[0] as int, W(s[1..], false), 0x100 * W(s[1..], true));
      }
    }
  }

  lemma EndAroundRep(a: u16, b: u16)
    ensures Rep(EndAroundAdd(a, b), a + b)
    ensures EndAroundAdd(a, b) == Fold(a + b)
  {
    RepFrom(EndAroundAdd(a, b), a + b, if a + b < 0x1_0000 then 0 else -1);
    RepUnique(EndAroundAdd(a, b), a + b);
  }

  lemma W2(s: seq<byte>, high: bool)
    requires |s| == 2
    ensures W(s, high) == if high then 0x100 * s[0] as int + s[1] else s[0] + 0x100 * s[1] as int
  {
    assert W(s[1..], !high) == (if !high then 0x100 * s[1] as int else s[1]) + W(s[1..][1..], high);
  }

  /** The iterated sum is the closed form. */
  lemma {:induction false} Rfc1071IsFold(s: seq<byte>, initial: u16)
    ensures Rfc1071(s, initial) == Fold(initial + W(s, true))
    decreases |s|
  {
    hide Fold;
    hide Rep;
    if s == [] {
      RepFrom(initial, initial, 0);
      RepUnique(initial, initial);
    } else if |s| == 1 {
      EndAroundRep(initial, s[0] as int * 0x100);
      assert W(s, true) == 0x100 * s[0] as int + W(s[1..], false);
    } else {
      var next := EndAroundAdd(initial, Get16(s, 0));
      EndAroundRep(initial, Get16(s, 0));
      Rfc1071IsFold(s[2..], next);
      WSplit(s, 2, true);
      W2(s[..2], true);
      FoldRep(next + W(s[2..], true));
      RepPlus(next, initial + Get16(s, 0), W(s[2..], true));
      RepTrans(Fold(next + W(s[2..], true)), next + W(s[2..], true), initial + W(s, true));
      RepUnique(Fold(next + W(s[2..], true)), initial + W(s, true));
    }
  }

  lemma Rfc1071ResumedIsFold(s: seq<byte>, odd: bool, initial: u16)
    requires odd ==> s != []
    ensures Rfc1071Resumed(s, odd, initial) == Fold(initial + W(s, !odd))
  {
    if odd {
      var next := EndAroundAdd(initial, s[0]);
      EndAroundRep(initial, s[0]);
      Rfc1071IsFold(s[1..], next);
      FoldAbsorb(initial + s[0], W(s[1..], true));
    } else {
      Rfc1071IsFold(s, initial);
    }
  }

  /** Folding part of a sum early does not change the folded total. */
  lemma FoldAbsorb(n: nat, m: nat)
    ensures Fold(Fold(n) + m) == Fold(n + m)
  {
    hide Rep;
    FoldRep(n);
    FoldRep(Fold(n) + m);
    RepPlus(Fold(n), n, m);
    RepTrans(Fold(Fold(n) + m), Fold(n) + m, n + m);
    RepUnique(Fold(Fold(n) + m), n + m);
  }

  /** Chaining: the sum over `a + b` resumes from the sum and the parity over `a`. */
  lemma ResumedChain(a: seq<byte>, b: seq<byte>, odd: bool, initial: u16)
    requires odd ==> a != []
    requires (|a| % 2 == 1) != odd ==> b != []
    ensures Rfc1071Resumed(a + b, odd, initial)
         == Rfc1071Resumed(b, (|a| % 2 == 1) != odd, Rfc1071Resumed(a, odd, initial))
  {
    hide W;
    hide Rfc1071Resumed;
    hide Fold;
    var odd' := (|a| % 2 == 1) != odd;
    Rfc1071ResumedIsFold(a + b, odd, initial);
    Rfc1071ResumedIsFold(a, odd, initial);
    Rfc1071ResumedIsFold(b, odd', Rfc1071Resumed(a, odd, initial));
    WConcat(a, b, !odd);
    FoldAbsorb(initial + W(a, !odd), W(b, !odd'));
  }
}
