/** internal/tschecksum: the unrolled generic summers, their folds and the pseudo-header forms. */
module TsChecksum {
  import opened Bytes
  import opened OnesComplement
  import opened NativeWords
  import opened HeaderChecksum

  function Half(x: nat): nat {
    x / 0x1_0000 + x % 0x1_0000
  }

  function Fold64(unfolded: u64, carryIn: bit): u16 {
    var (x, carry) := Add32(unfolded / 0x1_0000_0000, unfolded % 0x1_0000_0000, carryIn);
    Half(Half(x) + carry) % 0x1_0000
  }

  function Fold32(unfolded: u32, carryIn: bit): u16 {
    Half(Half(Half(unfolded) + carryIn)) % 0x1_0000
  }

  lemma HalfRep(x: nat)
    ensures Rep(Half(x), x)
    ensures x < 0x1_0000_0000 ==> Half(x) <= 0x1_FFFE
    ensures x <= 0x1_FFFF ==> Half(x) <= 0x1_0000
    ensures x <= 0x1_FFFE ==> Half(x) <= 0xFFFF
  {
    hide Rep;
    RepFrom(Half(x), x, -(x / 0x1_0000));
  }

  /** Two more folds bring any sum of at most 17 bits down to 16. */
  lemma LastFolds(x: nat, n: nat)
    requires x <= 0x1_FFFF && Rep(x, n)
    ensures Half(Half(x)) % 0x1_0000 == Fold(n)
    ensures x <= 0x1_FFFE ==> Half(x) % 0x1_0000 == Fold(n)
  {
    hide Rep;
    HalfRep(x);
    HalfRep(Half(x));
    RepTrans(Half(x), x, n);
    RepTrans(Half(Half(x)), Half(x), n);
    RepUnique(Half(Half(x)), n);
    if x <= 0x1_FFFE {
      RepUnique(Half(x), n);
    }
  }

  /** Folding is exact for every 32-bit sum and carry. */
  lemma Fold32Exact(u: u32, c: bit)
    ensures Fold32(u, c) == Fold(u + c)
  {
    hide Half;
    HalfRep(u);
    RepPlus(Half(u), u, c);
    LastFolds(Half(u) + c, u + c);
  }

  lemma Fold64Halves(u: u64, c: bit, x: u32, carry: bit)
    requires u + c < 0x1_0000_0000_0000_0000
    requires (x, carry) == Add32(u / 0x1_0000_0000, u % 0x1_0000_0000, c)
    ensures x + carry < 0x1_0000_0000 && Rep(x + carry, u + c)
  {
    hide Rep;
    var h: int, l: int := u / 0x1_0000_0000, u % 0x1_0000_0000;
    RepFrom(x + carry, u + c, -0x1_0001 * (h + carry));
  }

  lemma Fold64Steps(x: u32, carry: bit, n: nat)
    requires x + carry < 0x1_0000_0000 && Rep(x + carry, n)
    ensures Half(Half(x) + carry) % 0x1_0000 == Fold(n)
  {
    hide Rep;
    HalfRep(x);
    RepPlus(Half(x), x, carry);
    RepTrans(Half(x) + carry, x + carry, n);
    assert Half(x) + carry <= 0x1_FFFE;
    LastFolds(Half(x) + carry, n);
  }

  /** Folding 64 bits is exact unless all ones meet a carry: then, and only then, it is wrong. */
  lemma Fold64Exact(u: u64, c: bit)
    ensures Fold64(u, c) == Fold(u + c) <==> u + c < 0x1_0000_0000_0000_0000
  {
    if u + c < 0x1_0000_0000_0000_0000 {
      var (x, carry) := Add32(u / 0x1_0000_0000, u % 0x1_0000_0000, c);
      Fold64Halves(u, c, x, carry);
      Fold64Steps(x, carry, u + c);
    } else {
      Fold64AllOnes();
    }
  }

  lemma Fold64AllOnes()
    ensures Fold64(0xFFFF_FFFF_FFFF_FFFF, 1) == 0 && Fold(0x1_0000_0000_0000_0000) == 1
  {
    hide Half;
    hide Fold;
    hide Rep;
    HalfAllOnes();
    assert Add32(0xFFFF_FFFF, 0xFFFF_FFFF, 1) == (0xFFFF_FFFF, 1);
    RepFrom(1, 0x1_0000_0000_0000_0000, -0x1_0001_0001_0001);
    RepUnique(1, 0x1_0000_0000_0000_0000);
  }

  lemma HalfAllOnes()
    ensures Half(0xFFFF_FFFF) == 0x1_FFFE && Half(0x1_FFFF) == 0x1_0000
  {
  }

  /** checksumGeneric64 is the RFC 1071 sum for every buffer and byte order. */
  method ChecksumGeneric64(b0: seq<byte>, initial: u16, le: bool) returns (r: u16)
    ensures r == Rfc1071(b0, initial)
  {
    hide Rep;
    var b := b0;
    var ac: u64, carry: bit := Native16(initial, le), 0;
    ghost var total := NativeTotal(initial + W(b, true), le);
    NativeStart(initial, b, le);
    while |b| >= 128
      invariant ac + carry < 0x1_0000_0000_0000_0000
      invariant Rep(Pending(ac, carry, b, le), total)
      decreases |b|
    {
      ac, carry, b := Chunk64(ac, carry, b, 16, le, total);
    }
    if |b| >= 64 {
      ac, carry, b := Chunk64(ac, carry, b, 8, le, total);
    }
    if |b| >= 32 {
      ac, carry, b := Chunk64(ac, carry, b, 4, le, total);
    }
    if |b| >= 16 {
      ac, carry, b := Chunk64(ac, carry, b, 2, le, total);
    }
    if |b| >= 8 {
      ac, carry, b := Chunk64(ac, carry, b, 1, le, total);
    }
    ac, carry := Tail64(ac, carry, b, le, total);
    r := Native16(Fold64(ac, carry), le);
    Fold64Exact(ac, carry);
    FinishSum(ac + carry, initial, b0, le);
  }

  /** `k` unrolled 64-bit additions and the re-slicing after them. */
  method Chunk64(ac0: u64, carry0: bit, b0: seq<byte>, k: nat, le: bool, ghost total: nat)
    returns (ac: u64, carry: bit, b: seq<byte>)
    requires 8 * k <= |b0| && ac0 + carry0 < 0x1_0000_0000_0000_0000
    requires Rep(Pending(ac0, carry0, b0, le), total)
    ensures |b| == |b0| - 8 * k && ac + carry < 0x1_0000_0000_0000_0000
    ensures Rep(Pending(ac, carry, b, le), total)
  {
    hide Rep;
    Chain64Rep(ac0, carry0, b0, k, le);
    var (z, c) := Chain64(ac0, carry0, b0, k, le);
    ac, carry, b := z, c, b0[8 * k..];
    RepTrans(Pending(ac, carry, b, le), Pending(ac0, carry0, b0, le), total);
  }

  /** The last 0 to 7 bytes. */
  method Tail64(ac0: u64, carry0: bit, b0: seq<byte>, le: bool, ghost total: nat) returns (ac: u64, carry: bit)
    requires |b0| < 8 && ac0 + carry0 < 0x1_0000_0000_0000_0000
    requires Rep(Pending(ac0, carry0, b0, le), total)
    ensures ac + carry < 0x1_0000_0000_0000_0000 && Rep(ac + carry, total)
  {
    hide *;
    var b := b0;
    ac, carry := ac0, carry0;
    if |b| >= 4 {
      Load32Rep(b, le);
      TailStep64(ac, carry, b, 4, Load32(b, 0, le), le, total);
      var (z, c) := Add64(ac, Load32(b, 0, le), carry);
      ac, carry, b := z, c, b[4..];
    }
    if |b| >= 2 {
      TailLoads(b, le);
      TailStep64(ac, carry, b, 2, Load16(b, 0, le), le, total);
      var (z, c) := Add64(ac, Load16(b, 0, le), carry);
      ac, carry, b := z, c, b[2..];
    }
    if |b| >= 1 {
      LastLoad(b, le);
      TailStep64(ac, carry, b, 1, LastByte(b, le), le, total);
      var (z, c) := Add64(ac, LastByte(b, le), carry);
      ac, carry, b := z, c, b[1..];
    }
    PendingNothing(ac, carry, b, le);
  }

  lemma LastLoad(b: seq<byte>, le: bool)
    requires |b| == 1
    ensures Rep(LastByte(b, le) + W(b[1..], !le), W(b, !le))
  {
    hide Rep;
    TailLoads(b, le);
    assert b[1..] == [];
  }

  lemma TailStep64(ac: u64, carry: bit, b: seq<byte>, n: nat, y: u64, le: bool, total: nat)
    requires n <= |b| && ac + carry < 0x1_0000_0000_0000_0000
    requires Rep(y + W(b[n..], !le), W(b, !le)) && Rep(Pending(ac, carry, b, le), total)
    ensures var (z, c) := Add64(ac, y, carry);
      z + c < 0x1_0000_0000_0000_0000 && Rep(Pending(z, c, b[n..], le), total)
  {
    hide Rep;
    Tail64Rep(ac, carry, b, n, y, le);
    var (z, c) := Add64(ac, y, carry);
    RepTrans(Pending(z, c, b[n..], le), Pending(ac, carry, b, le), total);
  }

  /** A folded native sum, back in network order, is the RFC 1071 sum. */
  lemma FinishSum(v: nat, initial: u16, b: seq<byte>, le: bool)
    requires Rep(v, NativeTotal(initial + W(b, true), le))
    ensures Native16(Fold(v), le) == Rfc1071(b, initial)
  {
    hide Rep;
    FoldRep(v);
    RepTrans(Fold(v), v, NativeTotal(initial + W(b, true), le));
    NativeEnd(Fold(v), initial + W(b, true), le);
    Rfc1071IsFold(b, initial);
  }

  /** checksumGeneric32 is the same sum with 32-bit additions. */
  method ChecksumGeneric32(b0: seq<byte>, initial: u16, le: bool) returns (r: u16)
    ensures r == Rfc1071(b0, initial)
  {
    hide Rep;
    var b := b0;
    var ac: u32, carry: bit := Native16(initial, le), 0;
    ghost var total := NativeTotal(initial + W(b, true), le);
    NativeStart(initial, b, le);
    while |b| >= 64
      invariant ac + carry < 0x1_0000_0000
      invariant Rep(Pending(ac, carry, b, le), total)
      decreases |b|
    {
      ac, carry, b := Chunk32(ac, carry, b, 16, le, total);
    }
    if |b| >= 32 {
      ac, carry, b := Chunk32(ac, carry, b, 8, le, total);
    }
    if |b| >= 16 {
      ac, carry, b := Chunk32(ac, carry, b, 4, le, total);
    }
    if |b| >= 8 {
      ac, carry, b := Chunk32(ac, carry, b, 2, le, total);
    }
    if |b| >= 4 {
      ac, carry, b := Chunk32(ac, carry, b, 1, le, total);
    }
    ac, carry := Tail32(ac, carry, b, le, total);
    r := Native16(Fold32(ac, carry), le);
    Fold32Exact(ac, carry);
    FinishSum(ac + carry, initial, b0, le);
  }

  method Chunk32(ac0: u32, carry0: bit, b0: seq<byte>, k: nat, le: bool, ghost total: nat)
    returns (ac: u32, carry: bit, b: seq<byte>)
    requires 4 * k <= |b0| && ac0 + carry0 < 0x1_0000_0000
    requires Rep(Pending(ac0, carry0, b0, le), total)
    ensures |b| == |b0| - 4 * k && ac + carry < 0x1_0000_0000
    ensures Rep(Pending(ac, carry, b, le), total)
  {
    hide Rep;
    Chain32Rep(ac0, carry0, b0, k, le);
    var (z, c) := Chain32(ac0, carry0, b0, k, le);
    ac, carry, b := z, c, b0[4 * k..];
    RepTrans(Pending(ac, carry, b, le), Pending(ac0, carry0, b0, le), total);
  }

  /** The last 0 to 3 bytes. */
  method Tail32(ac0: u32, carry0: bit, b0: seq<byte>, le: bool, ghost total: nat) returns (ac: u32, carry: bit)
    requires |b0| < 4 && ac0 + carry0 < 0x1_0000_0000
    requires Rep(Pending(ac0, carry0, b0, le), total)
    ensures ac + carry < 0x1_0000_0000 && Rep(ac + carry, total)
  {
    hide *;
    var b := b0;
    ac, carry := ac0, carry0;
    if |b| >= 2 {
      TailLoads(b, le);
      TailStep32(ac, carry, b, 2, Load16(b, 0, le), le, total);
      var (z, c) := Add32(ac, Load16(b, 0, le), carry);
      ac, carry, b := z, c, b[2..];
    }
    if |b| >= 1 {
      LastLoad(b, le);
      TailStep32(ac, carry, b, 1, LastByte(b, le), le, total);
      var (z, c) := Add32(ac, LastByte(b, le), carry);
      ac, carry, b := z, c, b[1..];
    }
    PendingNothing(ac, carry, b, le);
  }

  lemma TailStep32(ac: u32, carry: bit, b: seq<byte>, n: nat, y: u32, le: bool, total: nat)
    requires n <= |b| && ac + carry < 0x1_0000_0000
    requires Rep(y + W(b[n..], !le), W(b, !le)) && Rep(Pending(ac, carry, b, le), total)
    ensures var (z, c) := Add32(ac, y, carry);
      z + c < 0x1_0000_0000 && Rep(Pending(z, c, b[n..], le), total)
  {
    hide Rep;
    Tail32Rep(ac, carry, b, n, y, le);
    var (z, c) := Add32(ac, y, carry);
    RepTrans(Pending(z, c, b[n..], le), Pending(ac, carry, b, le), total);
  }

  /** The wrap-arounds of a total are a multiple of 65535, and wrapping does not reach zero. */
  predicate Harmless32(total: nat) {
    total / 0x1_0000_0000 % 0xFFFF == 0 && (total % 0x1_0000_0000 == 0 ==> total == 0)
  }

  predicate Harmless64(total: nat) {
    total / 0x1_0000_0000_0000_0000 % 0xFFFF == 0 && (total % 0x1_0000_0000_0000_0000 == 0 ==> total == 0)
  }

  /** Wrap-around loses multiples of 2^width; the fold survives when the number lost is a multiple of 65535. */
  lemma FoldWrapped32(total: nat)
    ensures Fold(total % 0x1_0000_0000) == Fold(total) <==> Harmless32(total)
  {
    var q, r := total / 0x1_0000_0000, total % 0x1_0000_0000;
    FoldsAgree(r, total, q, 0x1_0001);
  }

  lemma FoldWrapped64(total: nat)
    ensures Fold(total % 0x1_0000_0000_0000_0000) == Fold(total) <==> Harmless64(total)
  {
    var q, r := total / 0x1_0000_0000_0000_0000, total % 0x1_0000_0000_0000_0000;
    FoldsAgree(r, total, q, 0x1_0001_0001_0001);
  }

  lemma FoldsAgree(r: nat, total: nat, q: nat, m: nat)
    requires m in {0x1_0001, 0x1_0001_0001_0001} && total == r + q + 0xFFFF * (m * q)
    ensures Fold(r) == Fold(total) <==> q % 0xFFFF == 0 && (r == 0 ==> total == 0)
  {
    FoldRep(r);
    FoldRep(total);
    var i :| Fold(r) - r == Times65535(i);
    var j :| Fold(total) - total == Times65535(j);
    if Fold(r) == Fold(total) {
      assert q == 0xFFFF * (i - j - m * q);
      MultipleOf65535(q, i - j - m * q);
    } else if q % 0xFFFF == 0 && (r == 0 ==> total == 0) {
      RepFrom(r, total, -(q / 0xFFFF) - m * q);
      RepTrans(Fold(r), r, total);
      RepUnique(Fold(r), total);
    }
  }

  lemma MultipleOf65535(x: int, k: int)
    requires x == 0xFFFF * k
    ensures x % 0xFFFF == 0
  {
  }

  /** `k` successive 16-bit loads added into a wrapping 32-bit accumulator. */
  function AddWords16(ac: u32, s: seq<byte>, k: nat, le: bool): u32
    requires 2 * k <= |s|
    decreases k
  {
    if k == 0 then ac
    else AddWords16((ac + Load16(s, 0, le)) % 0x1_0000_0000, s[2..], k - 1, le)
  }

  /** The accumulator holds, modulo 2^32, the total less what is left to sum. */
  ghost predicate Holds32(ac: u32, s: seq<byte>, le: bool, total: nat) {
    (ac + W(s, !le)) % 0x1_0000_0000 == total % 0x1_0000_0000
  }

  lemma Holds32Step(ac: u32, s: seq<byte>, n: nat, x: u32, le: bool, total: nat)
    requires n <= |s| && Holds32(ac, s, le, total) && W(s, !le) == x + W(s[n..], !le)
    ensures Holds32((ac + x) % 0x1_0000_0000, s[n..], le, total)
  {
  }

  lemma {:induction false} AddWords16Sum(ac: u32, s: seq<byte>, k: nat, le: bool, total: nat)
    requires 2 * k <= |s| && Holds32(ac, s, le, total)
    ensures Holds32(AddWords16(ac, s, k, le), s[2 * k..], le, total)
    decreases k
  {
    hide Holds32;
    hide W;
    hide Load16;
    if k == 0 {
      assert s[2 * k..] == s;
    } else {
      Load16Rep(s, le);
      Holds32Step(ac, s, 2, Load16(s, 0, le), le, total);
      AddWords16Sum((ac + Load16(s, 0, le)) % 0x1_0000_0000, s[2..], k - 1, le, total);
      assert s[2..][2 * (k - 1)..] == s[2 * k..];
    }
  }

  /** The sum the 32-bit alternate would need to hold without wrapping. */
  function WordTotal(initial: u16, b: seq<byte>, le: bool): nat {
    Native16(initial, le) + W(b, !le)
  }

  lemma {:induction false} WBound(s: seq<byte>, high: bool)
    ensures |s| % 2 == 0 ==> W(s, high) <= |s| / 2 * 0xFFFF
    ensures W(s, high) <= (|s| + 1) / 2 * 0xFFFF
    decreases |s|
  {
    if |s| == 1 {
      WEmpty(s[1..], !high);
    } else if |s| >= 2 {
      WSplit(s, 2, high);
      W2(s[..2], high);
      WBound(s[2..], high);
    }
  }

  /**
  The 32-bit alternate sums 16-bit words without carries.  It is the RFC 1071 sum exactly when
  the number of wrap-arounds is a multiple of 65535 and the wrapped sum is zero only for a zero
  total; that is so for every buffer of at most 131072 bytes.
  */
  method ChecksumGeneric32Alternate(b0: seq<byte>, initial: u16, le: bool) returns (r: u16)
    ensures |b0| <= 131072 ==> r == Rfc1071(b0, initial)
    ensures r == Rfc1071(b0, initial) <==> Harmless32(WordTotal(initial, b0, le))
  {
    var b := b0;
    var ac: u32 := Native16(initial, le);
    ghost var total := WordTotal(initial, b0, le);
    assert Holds32(ac, b, le, total);
    hide *;
    while |b| >= 64
      invariant Holds32(ac, b, le, total)
      decreases |b|
    {
      ac, b := Chunk16(ac, b, 32, le, total);
    }
    ac, b := AddTail16(ac, b, le, total);
    r := Native16(Fold32(ac, 0), le);
    AlternateEnd(ac, b, initial, b0, le);
  }

  method Chunk16(ac0: u32, b0: seq<byte>, k: nat, le: bool, ghost total: nat) returns (ac: u32, b: seq<byte>)
    requires 2 * k <= |b0| && Holds32(ac0, b0, le, total)
    ensures |b| == |b0| - 2 * k && Holds32(ac, b, le, total)
  {
    AddWords16Sum(ac0, b0, k, le, total);
    ac, b := AddWords16(ac0, b0, k, le), b0[2 * k..];
  }

  /** The last 0 to 63 bytes, halving the unrolled step each time. */
  method AddTail16(ac0: u32, b0: seq<byte>, le: bool, ghost total: nat) returns (ac: u32, b: seq<byte>)
    requires |b0| < 64 && Holds32(ac0, b0, le, total)
    ensures b == [] && Holds32(ac, b, le, total)
  {
    hide *;
    ac, b := ac0, b0;
    if |b| >= 32 {
      ac, b := Chunk16(ac, b, 16, le, total);
    }
    if |b| >= 16 {
      ac, b := Chunk16(ac, b, 8, le, total);
    }
    if |b| >= 8 {
      ac, b := Chunk16(ac, b, 4, le, total);
    }
    if |b| >= 4 {
      ac, b := Chunk16(ac, b, 2, le, total);
    }
    if |b| >= 2 {
      ac, b := Chunk16(ac, b, 1, le, total);
    }
    if |b| >= 1 {
      LastByteSum(b, le);
      Holds32Step(ac, b, 1, LastByte(b, le), le, total);
      ac, b := (ac + LastByte(b, le)) % 0x1_0000_0000, b[1..];
    }
  }

  lemma AlternateEnd(ac: u32, b: seq<byte>, initial: u16, b0: seq<byte>, le: bool)
    requires b == [] && Holds32(ac, b, le, WordTotal(initial, b0, le))
    ensures var r, total := Native16(Fold32(ac, 0), le), WordTotal(initial, b0, le);
      && (|b0| <= 131072 ==> r == Rfc1071(b0, initial))
      && (r == Rfc1071(b0, initial) <==> Harmless32(total))
  {
    hide Fold;
    hide Rfc1071;
    hide Fold32;
    hide Native16;
    hide WordTotal;
    var total := WordTotal(initial, b0, le);
    WEmpty(b, !le);
    Fold32Exact(ac, 0);
    FoldWrapped32(total);
    WordTotalFold(initial, b0, le);
    Native16Injective(Fold(ac), Fold(total), le);
    WordTotalBound(initial, b0, le);
  }

  lemma LastByteSum(b: seq<byte>, le: bool)
    requires |b| == 1
    ensures LastByte(b, le) + W(b[1..], !le) == W(b, !le)
  {
    WEmpty(b[1..], le);
    WEmpty(b[1..], !le);
  }

  lemma WordTotalFold(initial: u16, b: seq<byte>, le: bool)
    ensures Native16(Fold(WordTotal(initial, b, le)), le) == Rfc1071(b, initial)
  {
    NativeStart(initial, b, le);
    FinishSum(WordTotal(initial, b, le), initial, b, le);
  }

  lemma Native16Injective(x: u16, y: u16, le: bool)
    ensures Native16(x, le) == Native16(y, le) <==> x == y
  {
  }

  /** 65537 words of 65535 are 2^32 - 1. */
  lemma WordTotalBound(initial: u16, b: seq<byte>, le: bool)
    ensures |b| <= 131072 ==> WordTotal(initial, b, le) < 0x1_0000_0000
  {
    WBound(b, !le);
  }

  lemma {:induction false} WAllOnes(n: nat, high: bool)
    ensures W(seq(2 * n, _ => 0xFF), high) == 0xFFFF * n
    decreases n
  {
    var s: seq<byte> := seq(2 * n, _ => 0xFF);
    if n == 0 {
      WEmpty(s, high);
    } else {
      WSplit(s, 2, high);
      W2(s[..2], high);
      assert s[2..] == seq(2 * (n - 1), _ => 0xFF);
      WAllOnes(n - 1, high);
    }
  }

  /** The bound is tight: one more word of all ones already breaks the 32-bit alternate. */
  lemma AlternateTooLong(le: bool)
    ensures !Harmless32(WordTotal(0xFFFF, seq(131074, _ => 0xFF), le))
  {
    WAllOnes(65537, !le);
    assert Native16(0xFFFF, le) == 0xFFFF;
  }

  /** `k` successive 32-bit loads added into a wrapping 64-bit accumulator. */
  function AddWords32(ac: u64, s: seq<byte>, k: nat, le: bool): u64
    requires 4 * k <= |s|
    decreases k
  {
    if k == 0 then ac
    else AddWords32((ac + Load32(s, 0, le)) % 0x1_0000_0000_0000_0000, s[4..], k - 1, le)
  }

  /** The exact sum of the 32-bit loads of `s` and of its last one to three bytes. */
  function Sum32(s: seq<byte>, le: bool): nat
    decreases |s|
  {
    if |s| >= 4 then Load32(s, 0, le) + Sum32(s[4..], le)
    else if |s| >= 2 then Load16(s, 0, le) + Sum32(s[2..], le)
    else if |s| == 1 then LastByte(s, le)
    else 0
  }

  lemma {:induction false} Sum32Rep(s: seq<byte>, le: bool)
    ensures Rep(Sum32(s, le), W(s, !le))
    ensures Sum32(s, le) <= |s| / 4 * 0xFFFF_FFFF + 0x1_FFFE
    decreases |s|
  {
    hide W;
    hide Rep;
    hide Load32;
    if |s| >= 4 {
      Sum32Rep(s[4..], le);
      Load32Rep(s, le);
      RepPlus(Sum32(s[4..], le), W(s[4..], !le), Load32(s, 0, le));
      RepTrans(Sum32(s, le), Load32(s, 0, le) + W(s[4..], !le), W(s, !le));
    } else if |s| >= 2 {
      Sum32Tail(s[2..], le);
      Load16Rep(s, le);
      RepPlus(Sum32(s[2..], le), W(s[2..], !le), Load16(s, 0, le));
    } else {
      Sum32Tail(s, le);
    }
  }

  lemma Sum32Tail(s: seq<byte>, le: bool)
    requires |s| <= 1
    ensures Rep(Sum32(s, le), W(s, !le)) && Sum32(s, le) <= 0xFFFF
  {
    if |s| == 1 {
      LastByteSum(s, le);
      WEmpty(s[1..], !le);
    }
    RepFrom(Sum32(s, le), W(s, !le), 0);
  }

  ghost predicate Holds64(ac: u64, s: seq<byte>, le: bool, total: nat) {
    (ac + Sum32(s, le)) % 0x1_0000_0000_0000_0000 == total % 0x1_0000_0000_0000_0000
  }

  lemma Holds64Step(ac: u64, s: seq<byte>, n: nat, x: u32, le: bool, total: nat)
    requires n <= |s| && Holds64(ac, s, le, total) && Sum32(s, le) == x + Sum32(s[n..], le)
    ensures Holds64((ac + x) % 0x1_0000_0000_0000_0000, s[n..], le, total)
  {
    hide Sum32;
  }

  lemma {:induction false} AddWords32Sum(ac: u64, s: seq<byte>, k: nat, le: bool, total: nat)
    requires 4 * k <= |s| && Holds64(ac, s, le, total)
    ensures Holds64(AddWords32(ac, s, k, le), s[4 * k..], le, total)
    decreases k
  {
    hide Holds64;
    hide Load32;
    if k == 0 {
      assert s[4 * k..] == s;
    } else {
      Holds64Step(ac, s, 4, Load32(s, 0, le), le, total);
      AddWords32Sum((ac + Load32(s, 0, le)) % 0x1_0000_0000_0000_0000, s[4..], k - 1, le, total);
      assert s[4..][4 * (k - 1)..] == s[4 * k..];
    }
  }

  /** The 64-bit alternate: exact under the analogous condition, met by every buffer of up to 2^34 bytes. */
  method ChecksumGeneric64Alternate(b0: seq<byte>, initial: u16, le: bool) returns (r: u16)
    ensures |b0| <= 0x4_0000_0000 ==> r == Rfc1071(b0, initial)
    ensures r == Rfc1071(b0, initial) <==> Harmless64(Native16(initial, le) + Sum32(b0, le))
  {
    var b := b0;
    var ac: u64 := Native16(initial, le);
    ghost var total := Native16(initial, le) + Sum32(b0, le);
    assert Holds64(ac, b, le, total);
    hide *;
    while |b| >= 64
      invariant Holds64(ac, b, le, total)
      decreases |b|
    {
      ac, b := ChunkWords32(ac, b, 16, le, total);
    }
    ac, b := AddTail32(ac, b, le, total);
    r := Native16(Fold64(ac, 0), le);
    Alternate64End(ac, b, initial, b0, le);
  }

  /** The last 0 to 63 bytes. */
  method AddTail32(ac0: u64, b0: seq<byte>, le: bool, ghost total: nat) returns (ac: u64, b: seq<byte>)
    requires |b0| < 64 && Holds64(ac0, b0, le, total)
    ensures b == [] && Holds64(ac, b, le, total)
  {
    hide *;
    ac, b := ac0, b0;
    if |b| >= 32 {
      ac, b := ChunkWords32(ac, b, 8, le, total);
    }
    if |b| >= 16 {
      ac, b := ChunkWords32(ac, b, 4, le, total);
    }
    if |b| >= 8 {
      ac, b := ChunkWords32(ac, b, 2, le, total);
    }
    if |b| >= 4 {
      ac, b := ChunkWords32(ac, b, 1, le, total);
    }
    if |b| >= 2 {
      Sum32Last(b, le);
      Holds64Step(ac, b, 2, Load16(b, 0, le), le, total);
      ac, b := (ac + Load16(b, 0, le)) % 0x1_0000_0000_0000_0000, b[2..];
    }
    if |b| >= 1 {
      Sum32Last(b, le);
      Holds64Step(ac, b, 1, LastByte(b, le), le, total);
      ac, b := (ac + LastByte(b, le)) % 0x1_0000_0000_0000_0000, b[1..];
    }
  }

  method ChunkWords32(ac0: u64, b0: seq<byte>, k: nat, le: bool, ghost total: nat) returns (ac: u64, b: seq<byte>)
    requires 4 * k <= |b0| && Holds64(ac0, b0, le, total)
    ensures |b| == |b0| - 4 * k && Holds64(ac, b, le, total)
  {
    AddWords32Sum(ac0, b0, k, le, total);
    ac, b := AddWords32(ac0, b0, k, le), b0[4 * k..];
  }

  lemma Sum32Last(b: seq<byte>, le: bool)
    ensures 2 <= |b| < 4 ==> Sum32(b, le) == Load16(b, 0, le) + Sum32(b[2..], le)
    ensures |b| == 1 ==> Sum32(b, le) == LastByte(b, le) + Sum32(b[1..], le)
  {
  }

  lemma Alternate64End(ac: u64, b: seq<byte>, initial: u16, b0: seq<byte>, le: bool)
    requires b == [] && Holds64(ac, b, le, Native16(initial, le) + Sum32(b0, le))
    ensures var r, total := Native16(Fold64(ac, 0), le), Native16(initial, le) + Sum32(b0, le);
      && (|b0| <= 0x4_0000_0000 ==> r == Rfc1071(b0, initial))
      && (r == Rfc1071(b0, initial) <==> Harmless64(total))
  {
    hide *;
    var total := Native16(initial, le) + Sum32(b0, le);
    Holds64Done(ac, b, le, total);
    Fold64Exact(ac, 0);
    FoldWrapped64(total);
    Sum32Total(initial, b0, le);
    FinishSum(total, initial, b0, le);
    Native16Injective(Fold(ac), Fold(total), le);
  }

  lemma Holds64Done(ac: u64, b: seq<byte>, le: bool, total: nat)
    requires b == [] && Holds64(ac, b, le, total)
    ensures ac == total % 0x1_0000_0000_0000_0000
  {
  }

  lemma Sum32Total(initial: u16, b: seq<byte>, le: bool)
    ensures Rep(Native16(initial, le) + Sum32(b, le), NativeTotal(initial + W(b, true), le))
    ensures |b| <= 0x4_0000_0000 ==> Harmless64(Native16(initial, le) + Sum32(b, le))
  {
    hide Rep;
    hide W;
    hide Native16;
    hide Sum32;
    Sum32Rep(b, le);
    RepPlus(Sum32(b, le), W(b, !le), Native16(initial, le));
    NativeStart(initial, b, le);
    RepTrans(Native16(initial, le) + Sum32(b, le), Pending(Native16(initial, le), 0, b, le),
             NativeTotal(initial + W(b, true), le));
  }

  /** The 64-bit pseudo-header form agrees with header.PseudoHeaderChecksum. */
  method PseudoHeaderChecksum64(protocol: byte, src: seq<byte>, dst: seq<byte>, totalLen: u16, le: bool)
    returns (r: u16)
    requires |src| in {4, 16} && |dst| in {4, 16}
    ensures r == PseudoHeaderChecksum(protocol, src, dst, totalLen)
  {
    ghost var n := totalLen + protocol;
    var sum: u64 := PseudoInitial(protocol, totalLen, le);
    PseudoInitialRep(protocol, totalLen, le);
    var carry: bit := 0;
    sum, carry := AddrPartialChecksum64(src, sum, carry, le, n);
    sum, carry := AddrPartialChecksum64(dst, sum, carry, le, n + W(src, true));
    r := Native16(Fold64(sum, carry), le);
    PseudoEnd64(sum, carry, protocol, src, dst, totalLen, le);
  }

  function PseudoInitial(protocol: byte, totalLen: u16, le: bool): (r: u32)
    ensures r < 0x2_0000
  {
    if le then ReverseBytes16(totalLen) + protocol as int * 0x100 else totalLen + protocol
  }

  lemma PseudoInitialRep(protocol: byte, totalLen: u16, le: bool)
    ensures Rep(PseudoInitial(protocol, totalLen, le), NativeTotal(totalLen + protocol, le))
  {
    hide Rep;
    if le {
      Reverse16Rep(totalLen);
      RepPlus(ReverseBytes16(totalLen), 0x100 * totalLen, protocol as int * 0x100);
    } else {
      RepFrom(totalLen + protocol, totalLen + protocol, 0);
    }
  }

  /** Adding an address in the processor's byte order. */
  lemma AddrNative(v: nat, v': nat, addr: seq<byte>, n: nat, le: bool)
    requires Rep(v, NativeTotal(n, le)) && Rep(v', v + W(addr, !le))
    ensures Rep(v', NativeTotal(n + W(addr, true), le))
  {
    hide Rep;
    RepPlus(v, NativeTotal(n, le), W(addr, !le));
    RepTrans(v', v + W(addr, !le), NativeTotal(n, le) + W(addr, !le));
    if le {
      WSwap(addr, true);
      RepPlus(W(addr, false), 0x100 * W(addr, true), 0x100 * n);
      RepTrans(v', 0x100 * n + W(addr, false), 0x100 * (n + W(addr, true)));
    }
  }

  method AddrPartialChecksum64(addr: seq<byte>, initial: u64, carryIn: bit, le: bool, ghost n: nat)
    returns (sum: u64, carry: bit)
    requires |addr| in {4, 16} && initial + carryIn < 0x1_0000_0000_0000_0000
    requires Rep(initial + carryIn, NativeTotal(n, le))
    ensures sum + carry < 0x1_0000_0000_0000_0000
    ensures Rep(sum + carry, NativeTotal(n + W(addr, true), le))
  {
    hide Rep;
    hide Load32;
    if |addr| == 4 {
      Load32Rep(addr, le);
      Tail64Rep(initial, carryIn, addr, 4, Load32(addr, 0, le), le);
      var (z, c) := Add64(initial, Load32(addr, 0, le), carryIn);
      sum, carry := z, c;
      PendingNothing(sum, carry, addr[4..], le);
    } else {
      Chain64Rep(initial, carryIn, addr, 2, le);
      var (z, c) := Chain64(initial, carryIn, addr, 2, le);
      sum, carry := z, c;
      PendingNothing(sum, carry, addr[16..], le);
    }
    AddrNative(initial + carryIn, sum + carry, addr, n, le);
  }

  lemma PseudoEnd64(sum: u64, carry: bit, protocol: byte, src: seq<byte>, dst: seq<byte>, totalLen: u16, le: bool)
    requires sum + carry < 0x1_0000_0000_0000_0000
    requires Rep(sum + carry, NativeTotal(totalLen + protocol + W(src, true) + W(dst, true), le))
    ensures Native16(Fold64(sum, carry), le) == PseudoHeaderChecksum(protocol, src, dst, totalLen)
  {
    hide *;
    Fold64Exact(sum, carry);
    PseudoEnd(sum + carry, protocol, src, dst, totalLen, le);
  }

  lemma PseudoEnd(v: nat, protocol: byte, src: seq<byte>, dst: seq<byte>, totalLen: u16, le: bool)
    requires Rep(v, NativeTotal(totalLen + protocol + W(src, true) + W(dst, true), le))
    ensures Native16(Fold(v), le) == PseudoHeaderChecksum(protocol, src, dst, totalLen)
  {
    hide *;
    var n := totalLen + protocol + W(src, true) + W(dst, true);
    FoldRep(v);
    RepTrans(Fold(v), v, NativeTotal(n, le));
    NativeEnd(Fold(v), n, le);
    PseudoHeaderTotal(protocol, src, dst, totalLen);
  }

  /** The 32-bit pseudo-header form agrees with header.PseudoHeaderChecksum. */
  method PseudoHeaderChecksum32(protocol: byte, src: seq<byte>, dst: seq<byte>, totalLen: u16, le: bool)
    returns (r: u16)
    requires |src| in {4, 16} && |dst| in {4, 16}
    ensures r == PseudoHeaderChecksum(protocol, src, dst, totalLen)
  {
    ghost var n := totalLen + protocol;
    var sum: u32 := PseudoInitial(protocol, totalLen, le);
    PseudoInitialRep(protocol, totalLen, le);
    var carry: bit := 0;
    sum, carry := AddrPartialChecksum32(src, sum, carry, le, n);
    sum, carry := AddrPartialChecksum32(dst, sum, carry, le, n + W(src, true));
    r := Native16(Fold32(sum, carry), le);
    Fold32Exact(sum, carry);
    PseudoEnd(sum + carry, protocol, src, dst, totalLen, le);
  }

  method AddrPartialChecksum32(addr: seq<byte>, initial: u32, carryIn: bit, le: bool, ghost n: nat)
    returns (sum: u32, carry: bit)
    requires |addr| in {4, 16} && initial + carryIn < 0x1_0000_0000
    requires Rep(initial + carryIn, NativeTotal(n, le))
    ensures sum + carry < 0x1_0000_0000
    ensures Rep(sum + carry, NativeTotal(n + W(addr, true), le))
  {
    hide Rep;
    var k := |addr| / 4;
    Chain32Rep(initial, carryIn, addr, k, le);
    var (z, c) := Chain32(initial, carryIn, addr, k, le);
    sum, carry := z, c;
    PendingNothing(sum, carry, addr[4 * k..], le);
    AddrNative(initial + carryIn, sum + carry, addr, n, le);
  }
}
