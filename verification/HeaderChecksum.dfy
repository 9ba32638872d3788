/**
internal/gtcpip/header: pseudo-header sums and incremental checksum updates
(section 3 of RFC 1624), on IPv4, TCP and UDP headers rewritten in place.
*/
module HeaderChecksum {
  import opened Bytes
  import opened ByteArrays
  import opened OnesComplement
  import opened GvisorChecksum

  /** Four chained sums over addresses, length and protocol. */
  function PseudoHeaderChecksum(protocol: byte, src: seq<byte>, dst: seq<byte>, totalLen: u16): u16 {
    Rfc1071([0, protocol], Rfc1071(Enc16(totalLen), Rfc1071(dst, Rfc1071(src, 0))))
  }

  /** The chain folds to the plain total of its parts. */
  lemma PseudoHeaderTotal(protocol: byte, src: seq<byte>, dst: seq<byte>, totalLen: u16)
    ensures PseudoHeaderChecksum(protocol, src, dst, totalLen)
         == Fold(W(src, true) + W(dst, true) + totalLen + protocol)
  {
    hide Fold;
    hide Rfc1071;
    hide W;
    var a := Rfc1071(src, 0);
    var b := Rfc1071(dst, a);
    var c := Rfc1071(Enc16(totalLen), b);
    Rfc1071IsFold(src, 0);
    Rfc1071IsFold(dst, a);
    Rfc1071IsFold(Enc16(totalLen), b);
    Rfc1071IsFold([0, protocol], c);
    W2(Enc16(totalLen), true);
    W2([0, protocol], true);
    FoldAbsorb(W(src, true), W(dst, true));
    FoldAbsorb(W(src, true) + W(dst, true), totalLen);
    FoldAbsorb(W(src, true) + W(dst, true) + totalLen, protocol);
  }

  /** checksumUpdate2ByteAlignedUint16. */
  function Update16(xsum: u16, was: u16, now: u16): u16 {
    if was == now then xsum else Combine(xsum, Combine(now, Not16(was)))
  }

  /**
  Replacing a word in a folded sum gives exactly the folded new sum, except when nothing but the
  replaced word was there and it becomes zero: then the result is the other zero, all ones.
  */
  lemma Update16Exact(rest: nat, was: u16, now: u16)
    ensures Update16(Fold(rest + was), was, now)
         == if rest == 0 && now == 0 && was != 0 then 0xFFFF else Fold(rest + now)
  {
    hide Fold;
    hide Rep;
    if was != now {
      var r := Update16(Fold(rest + was), was, now);
      FoldAbsorb(now + Not16(was), Fold(rest + was));
      FoldAbsorb(rest + was, now + Not16(was));
      assert r == Fold(rest + now + 0xFFFF);
      FoldRep(rest + now + 0xFFFF);
      if rest + now > 0 {
        RepFrom(rest + now + 0xFFFF, rest + now, 1);
        RepTrans(r, rest + now + 0xFFFF, rest + now);
        RepUnique(r, rest + now);
      } else {
        RepFrom(0xFFFF, 0xFFFF, 0);
        RepUnique(0xFFFF, 0xFFFF);
      }
    }
  }

  /** checksumUpdate2ByteAlignedAddress, word by word. */
  function UpdateWords(xsum: u16, was: seq<byte>, now: seq<byte>): u16
    requires |was| == |now| && |was| % 2 == 0
    decreases |was|
  {
    if was == [] then xsum
    else UpdateWords(Update16(xsum, Get16(was, 0), Get16(now, 0)), was[2..], now[2..])
  }

  lemma UpdateWordsStep(xsum: u16, was: seq<byte>, now: seq<byte>)
    requires |was| == |now| && |was| % 2 == 0 && was != []
    ensures |was| >= 2
    ensures UpdateWords(xsum, was, now) == UpdateWords(Update16(xsum, Get16(was, 0), Get16(now, 0)), was[2..], now[2..])
  {
  }

  method UpdateAddress(xsum: u16, was: seq<byte>, now: seq<byte>) returns (r: u16)
    requires |was| == |now| && |was| % 2 == 0
    ensures r == UpdateWords(xsum, was, now)
  {
    hide Update16;
    hide Get16;
    r := xsum;
    var oldAddr, newAddr := was, now;
    while oldAddr != []
      invariant |oldAddr| == |newAddr| && |oldAddr| % 2 == 0
      invariant UpdateWords(r, oldAddr, newAddr) == UpdateWords(xsum, was, now)
      decreases |oldAddr|
    {
      UpdateWordsStep(r, oldAddr, newAddr);
      hide UpdateWords;
      r := Update16(r, Get16(oldAddr, 0), Get16(newAddr, 0));
      oldAddr, newAddr := oldAddr[2..], newAddr[2..];
    }
  }

  lemma WFieldBound(s: seq<byte>, at: nat)
    requires at + 2 <= |s| && at % 2 == 0
    ensures W(s, true) >= Get16(s, at)
  {
    hide W;
    WSplit(s, at, true);
    WSplit(s[at..], 2, true);
    W2(s[at..][..2], true);
  }

  /** The folded sum of an address and of `other` summed data. */
  function PartialSum(other: nat, addr: seq<byte>): u16 {
    Fold(other + W(addr, true))
  }

  /** Incremental update is recomputation whenever something nonzero besides the address is summed. */
  lemma {:induction false} UpdateWordsExact(rest: nat, was: seq<byte>, now: seq<byte>)
    requires |was| == |now| && |was| % 2 == 0 && rest > 0
    ensures UpdateWords(Fold(rest + W(was, true)), was, now) == Fold(rest + W(now, true))
    decreases |was|
  {
    hide Fold;
    hide Update16;
    if was == [] {
      WEmpty(was, true);
      WEmpty(now, true);
    } else {
      var a: u16, b: u16 := Get16(was, 0), Get16(now, 0);
      WSplit(was, 2, true);
      W2(was[..2], true);
      WSplit(now, 2, true);
      W2(now[..2], true);
      Update16Exact(rest + W(was[2..], true), a, b);
      UpdateWordsExact(rest + b, was[2..], now[2..]);
    }
  }

  /** Overwriting an aligned field replaces its share of the sum. */
  lemma WPatch(s: seq<byte>, at: nat, p: seq<byte>)
    requires at + |p| <= |s| && at % 2 == 0 && |p| % 2 == 0
    ensures W(Patch(s, at, p), true) + W(s[at..at + |p|], true) == W(s, true) + W(p, true)
  {
    hide W;
    var n := at + |p|;
    var r := Patch(s, at, p);
    WSplit(s, at, true);
    WSplit(s[at..], |p|, true);
    assert s[at..][..|p|] == s[at..n] && s[at..][|p|..] == s[n..];
    WSplit(r, at, true);
    WSplit(r[at..], |p|, true);
    assert r[..at] == s[..at] && r[at..][..|p|] == p && r[at..][|p|..] == s[n..];
  }

  lemma WPut16(s: seq<byte>, at: nat, v: u16)
    requires at + 2 <= |s| && at % 2 == 0
    ensures W(Put16(s, at, v), true) + Get16(s, at) == W(s, true) + v
  {
    PutIsPatch(s, at, v);
    WPatch(s, at, Enc16(v));
    WEnc16(v);
    WGet16(s, at);
    hide *;
  }

  lemma PutIsPatch(s: seq<byte>, at: nat, v: u16)
    requires at + 2 <= |s|
    ensures |Enc16(v)| == 2 && Put16(s, at, v) == Patch(s, at, Enc16(v))
  {
  }

  lemma WEnc16(v: u16)
    ensures W(Enc16(v), true) == v
  {
    hide W;
    W2(Enc16(v), true);
  }

  lemma WGet16(s: seq<byte>, at: nat)
    requires at + 2 <= |s|
    ensures W(s[at..at + 2], true) == Get16(s, at)
  {
    hide W;
    W2(s[at..at + 2], true);
  }

  // IPv4

  function HeaderLength(s: seq<byte>): nat
    requires s != []
  {
    s[0] % 0x10 * 4
  }

  predicate IsIpv4Header(s: seq<byte>) {
    s != [] && 20 <= HeaderLength(s) <= |s|
  }

  /** IPv4.CalculateChecksum: the header's sum with the checksum field left out. */
  function Ipv4Sum(s: seq<byte>): u16
    requires IsIpv4Header(s)
  {
    Rfc1071(s[12..HeaderLength(s)], Rfc1071(s[..10], 0))
  }

  /** The stored checksum is the one computed from scratch. */
  predicate Ipv4FromScratch(s: seq<byte>) {
    IsIpv4Header(s) && Get16(s, 10) == Not16(Ipv4Sum(s))
  }

  /** IPv4.IsChecksumValid. */
  predicate Ipv4Valid(s: seq<byte>) {
    IsIpv4Header(s) && Rfc1071(s[..HeaderLength(s)], 0) == 0xFFFF
  }

  ghost function Ipv4Rest(s: seq<byte>): nat
    requires IsIpv4Header(s)
  {
    W(s[..10], true) + W(s[12..HeaderLength(s)], true)
  }

  lemma Ipv4Totals(s: seq<byte>)
    requires IsIpv4Header(s)
    ensures Ipv4Sum(s) == Fold(Ipv4Rest(s)) && Ipv4Rest(s) > 0
    ensures W(s[..HeaderLength(s)], true) == Ipv4Rest(s) + Get16(s, 10)
  {
    hide Fold;
    hide Rfc1071;
    hide W;
    var n := HeaderLength(s);
    var h := s[..n];
    Rfc1071IsFold(s[..10], 0);
    Rfc1071IsFold(s[12..n], Rfc1071(s[..10], 0));
    FoldAbsorb(W(s[..10], true), W(s[12..n], true));
    WFirst(s[..10]);
    WSplit(h, 10, true);
    WSplit(h[10..], 2, true);
    W2(h[10..][..2], true);
    assert h[..10] == s[..10] && h[10..][2..] == s[12..n];
  }

  /** A from-scratch checksum always verifies: the header's sum is never positive zero. */
  lemma Ipv4ScratchValid(s: seq<byte>)
    requires Ipv4FromScratch(s)
    ensures Ipv4Valid(s)
  {
    hide Rfc1071;
    hide W;
    Ipv4Totals(s);
    Rfc1071IsFold(s[..HeaderLength(s)], 0);
    FoldAbsorb(Ipv4Rest(s), Get16(s, 10));
    assert Fold(0xFFFF) == 0xFFFF;
  }

  /** SetSourceAddressWithChecksumUpdate (`at` is 12) and its destination twin (`at` is 16). */
  function SetAddress(s: seq<byte>, at: nat, addr: seq<byte>): (r: seq<byte>)
    requires |s| >= 20 && at in {12, 16} && |addr| == 4
    ensures |r| == |s| && r[at..at + 4] == addr
    ensures forall k :: 0 <= k < |s| && k != 10 && k != 11 && !(at <= k < at + 4) ==> r[k] == s[k]
  {
    Patch(Put16(s, 10, Not16(UpdateWords(Not16(Get16(s, 10)), s[at..at + 4], addr))), at, addr)
  }

  /** What the header sums to besides the field at `at`. */
  lemma Ipv4RestPatched(s: seq<byte>, at: nat, addr: seq<byte>)
    requires IsIpv4Header(s) && at in {12, 16} && |addr| == 4
    ensures var r := SetAddress(s, at, addr);
      IsIpv4Header(r) && Ipv4Rest(r) + W(s[at..at + 4], true) == Ipv4Rest(s) + W(addr, true)
  {
    hide W;
    hide SetAddress;
    hide Patch;
    var r, n := SetAddress(s, at, addr), HeaderLength(s);
    var was, now := s[12..n], r[12..n];
    assert r[..10] == s[..10];
    PatchedTail(s, r, at, addr, n);
    SliceSlice(s, 12, n, at - 12, at - 8);
    WPatch(was, at - 12, addr);
  }

  lemma PatchedTail(s: seq<byte>, r: seq<byte>, at: nat, addr: seq<byte>, n: nat)
    requires 20 <= n <= |s| == |r| && at in {12, 16} && |addr| == 4 && r[at..at + 4] == addr
    requires forall k :: 0 <= k < |s| && k != 10 && k != 11 && !(at <= k < at + 4) ==> r[k] == s[k]
    ensures r[12..n] == Patch(s[12..n], at - 12, addr)
  {
    hide Patch;
    var now, was := r[12..n], s[12..n];
    forall k | 0 <= k < n - 12 ensures now[k] == Patch(was, at - 12, addr)[k] {
      assert now[k] == r[k + 12] && was[k] == s[k + 12];
      if at <= k + 12 < at + 4 {
        assert r[k + 12] == r[at..at + 4][k + 12 - at];
      }
    }
  }

  /** The address setter leaves exactly the checksum a recomputation would. */
  lemma SetAddressFromScratch(s: seq<byte>, at: nat, addr: seq<byte>)
    requires Ipv4FromScratch(s) && at in {12, 16} && |addr| == 4
    ensures Ipv4FromScratch(SetAddress(s, at, addr))
  {
    hide W;
    hide UpdateWords;
    hide Fold;
    hide Ipv4Rest;
    var r := SetAddress(s, at, addr);
    Ipv4Totals(s);
    Ipv4RestPatched(s, at, addr);
    Ipv4Totals(r);
    var rest := Ipv4Rest(s) - W(s[at..at + 4], true);
    Ipv4RestPositive(s, at);
    UpdateWordsExact(rest, s[at..at + 4], addr);
    assert Get16(r, 10) == Not16(UpdateWords(Not16(Get16(s, 10)), s[at..at + 4], addr));
  }

  lemma Ipv4RestPositive(s: seq<byte>, at: nat)
    requires IsIpv4Header(s) && at in {12, 16}
    ensures Ipv4Rest(s) > W(s[at..at + 4], true)
  {
    hide W;
    var n := HeaderLength(s);
    var t := s[12..n];
    WFirst(s[..10]);
    WSplit(t, at - 12, true);
    WSplit(t[at - 12..], 4, true);
    assert t[at - 12..][..4] == s[at..at + 4];
  }

  method SetSourceAddressWithChecksumUpdate(b: array<byte>, addr: seq<byte>)
    requires b.Length >= 20 && |addr| == 4
    modifies b
    ensures b[..] == SetAddress(old(b[..]), 12, addr)
    ensures old(Ipv4FromScratch(b[..])) ==> Ipv4FromScratch(b[..])
  {
    if Ipv4FromScratch(b[..]) {
      SetAddressFromScratch(b[..], 12, addr);
    }
    var x := UpdateAddress(Not16(Get16(b[..], 10)), b[12..16], addr);
    assert b[..][12..16] == b[12..16];
    WriteU16(b, 10, Not16(x));
    WriteBytes(b, 12, addr);
  }

  method SetDestinationAddressWithChecksumUpdate(b: array<byte>, addr: seq<byte>)
    requires b.Length >= 20 && |addr| == 4
    modifies b
    ensures b[..] == SetAddress(old(b[..]), 16, addr)
    ensures old(Ipv4FromScratch(b[..])) ==> Ipv4FromScratch(b[..])
  {
    if Ipv4FromScratch(b[..]) {
      SetAddressFromScratch(b[..], 16, addr);
    }
    var x := UpdateAddress(Not16(Get16(b[..], 10)), b[16..20], addr);
    assert b[..][16..20] == b[16..20];
    WriteU16(b, 10, Not16(x));
    WriteBytes(b, 16, addr);
  }
}
