/** internal/gtcpip/header/udp.go: checksum updates that respect the zero marker of RFC 768. */
module UdpHeader {
  import opened Bytes
  import opened ByteArrays
  import opened OnesComplement
  import opened GvisorChecksum
  import opened HeaderChecksum

  /** A computed zero is sent as all ones; zero means that no checksum was generated. */
  function NormalizeUDPChecksum(xsum: u16): u16 {
    if xsum == 0 then 0xFFFF else xsum
  }

  /** Differing by a multiple of 65535. */
  ghost predicate Cong(a: int, b: int) {
    exists k :: a - b == Times65535(k)
  }

  lemma CongFrom(a: int, b: int, k: int)
    requires a - b == 0xFFFF * k
    ensures Cong(a, b)
  {
    assert a - b == Times65535(k);
  }

  lemma CongTrans(a: int, b: int, c: int)
    requires Cong(a, b) && Cong(b, c)
    ensures Cong(a, c)
  {
    var i :| a - b == Times65535(i);
    var j :| b - c == Times65535(j);
    CongFrom(a, c, i + j);
  }

  /** A total verifies exactly when it is positive and a multiple of 65535. */
  lemma VerifiesIff(n: nat)
    ensures Fold(n) == 0xFFFF <==> n > 0 && Cong(n, 0)
  {
    if n > 0 && Fold(n) == 0xFFFF {
      CongFrom(n, 0, (n - 1) / 0xFFFF + 1);
    }
    if n > 0 && Cong(n, 0) {
      var k :| n - 0 == Times65535(k);
      MultipleFolds(n, k);
    }
  }

  lemma MultipleFolds(n: nat, k: int)
    requires n > 0 && n == 0xFFFF * k
    ensures Fold(n) == 0xFFFF
  {
    assert n - 1 == 0xFFFF * (k - 1) + 0xFFFE;
  }

  lemma Update16Cong(xsum: u16, was: u16, now: u16)
    ensures Cong(Update16(xsum, was, now), xsum - was + now)
  {
    if was == now {
      CongFrom(xsum, xsum, 0);
    } else {
      var inner := Combine(now, Not16(was));
      EndAroundCong(now, Not16(was));
      EndAroundCong(xsum, inner);
      var i :| inner - (now + Not16(was)) == Times65535(i);
      CongFrom(xsum + inner, xsum - was + now, i + 1);
      CongTrans(Update16(xsum, was, now), xsum + inner, xsum - was + now);
    }
  }

  lemma EndAroundCong(a: u16, b: u16)
    ensures Cong(Combine(a, b), a + b)
  {
    CongFrom(EndAroundAdd(a, b), a + b, if a + b < 0x1_0000 then 0 else -1);
  }

  lemma {:induction false} UpdateWordsCong(xsum: u16, was: seq<byte>, now: seq<byte>)
    requires |was| == |now| && |was| % 2 == 0
    ensures Cong(UpdateWords(xsum, was, now), xsum - W(was, true) + W(now, true))
    decreases |was|
  {
    hide Cong;
    hide Update16;
    if was == [] {
      WEmpty(was, true);
      WEmpty(now, true);
      CongFrom(xsum, xsum, 0);
    } else {
      var a, b := Get16(was, 0), Get16(now, 0);
      var next := Update16(xsum, a, b);
      Update16Cong(xsum, a, b);
      UpdateWordsCong(next, was[2..], now[2..]);
      WSplit(was, 2, true);
      W2(was[..2], true);
      WSplit(now, 2, true);
      W2(now[..2], true);
      var d := W(now[2..], true) - W(was[2..], true);
      CongShift(next, xsum - a + b, d);
      CongTrans(UpdateWords(xsum, was, now), next + d, xsum - a + b + d);
    }
  }

  lemma CongShift(a: int, b: int, d: int)
    requires Cong(a, b)
    ensures Cong(a + d, b + d)
  {
    var k :| a - b == Times65535(k);
    CongFrom(a + d, b + d, k);
  }

  /** The checksum field after the summed data changed, given the updated complement `x`. */
  function Refreshed(x: u16): (c: u16)
    ensures c != 0
  {
    NormalizeUDPChecksum(Not16(x))
  }

  /**
  If the updated complement follows the change from `was` to `now`, the refreshed field verifies
  exactly when the previous one did.
  */
  lemma RefreshedValid(c: u16, x: u16, was: nat, now: nat, rest: nat)
    requires c != 0 && Cong(x, Not16(c) - was + now)
    ensures Fold(rest + was + c) == 0xFFFF <==> Fold(rest + now + Refreshed(x)) == 0xFFFF
  {
    var n, m := rest + was + c, rest + now + Refreshed(x);
    VerifiesIff(n);
    VerifiesIff(m);
    var k :| x - (Not16(c) - was + now) == Times65535(k);
    var e := if x == 0xFFFF then 1 else 0;
    assert m - n == 0xFFFF * (e - k);
    CongFrom(m, n, e - k);
    CongFrom(n, m, k - e);
    if Cong(n, 0) {
      CongTrans(m, n, 0);
    }
    if Cong(m, 0) {
      CongTrans(n, m, 0);
    }
  }

  /** What the header sums to outside the checksum field. */
  ghost function UdpRest(s: seq<byte>): nat
    requires |s| >= 8
  {
    W(s[..6], true)
  }

  lemma UdpTotal(s: seq<byte>, partial: u16)
    requires |s| >= 8
    ensures Rfc1071(s[..8], partial) == Fold(partial + UdpRest(s) + Get16(s, 6))
  {
    hide Fold;
    hide W;
    Rfc1071IsFold(s[..8], partial);
    WSplit(s[..8], 6, true);
    W2(s[..8][6..], true);
    assert s[..8][..6] == s[..6];
  }

  /** UDP.IsChecksumValid, `partial` being the sum of pseudo-header and payload. */
  predicate UdpValid(s: seq<byte>, partial: u16)
    requires |s| >= 8
  {
    Rfc1071(s[..8], partial) == 0xFFFF
  }

  /**
  The port setters (`at` is 0 or 2): a header without checksum keeps the zero marker, any other
  keeps a nonzero checksum that verifies exactly when the old one did.
  */
  method SetPortWithChecksumUpdate(b: array<byte>, at: nat, port: u16)
    requires b.Length >= 8 && at in {0, 2}
    modifies b
    ensures Get16(b[..], at) == port && b[..][2 - at..4 - at] == old(b[..])[2 - at..4 - at]
    ensures b[4..6] == old(b[4..6]) && b[8..] == old(b[8..])
    ensures Get16(b[..], 6) == 0 <==> old(Get16(b[..], 6)) == 0
    ensures old(Get16(b[..], 6)) != 0 ==>
      forall partial: u16 :: UdpValid(b[..], partial) <==> UdpValid(old(b[..]), partial)
  {
    ghost var s := b[..];
    var was := Get16(b[..], at);
    WriteU16(b, at, port);
    var c := Get16(b[..], 6);
    assert c == Get16(s, 6);
    if c == 0 {
      return;
    }
    var x := Update16(Not16(c), was, port);
    WriteU16(b, 6, NormalizeUDPChecksum(Not16(x)));
    ghost var r := b[..];
    forall partial: u16 ensures UdpValid(r, partial) <==> UdpValid(s, partial) {
      PortValid(s, r, at, port, x, partial);
    }
  }

  lemma PortValid(s: seq<byte>, r: seq<byte>, at: nat, port: u16, x: u16, partial: u16)
    requires |s| >= 8 && at in {0, 2} && Get16(s, 6) != 0
    requires x == Update16(Not16(Get16(s, 6)), Get16(s, at), port)
    requires r == Put16(Put16(s, at, port), 6, Refreshed(x))
    ensures UdpValid(r, partial) <==> UdpValid(s, partial)
  {
    hide Fold;
    hide W;
    hide Rfc1071;
    hide Update16;
    hide Cong;
    var was, c := Get16(s, at), Get16(s, 6);
    assert r[..6] == Put16(s[..6], at, port);
    WPut16(s[..6], at, port);
    WFieldBound(s[..6], at);
    UdpTotal(s, partial);
    UdpTotal(r, partial);
    Update16Cong(Not16(c), was, port);
    RefreshedValid(c, x, was, port, partial + UdpRest(s) - was);
  }

  /**
  UpdateChecksumPseudoHeaderAddress.  With a full checksum it keeps the zero marker, and otherwise
  the header verifies against the new pseudo-header exactly when it did against the old one
  (`other` is the rest of the sum).  A partial checksum is replaced by that of the new address.
  */
  method UpdateChecksumPseudoHeaderAddress(b: array<byte>, was: seq<byte>, now: seq<byte>, fullChecksum: bool)
    requires b.Length >= 8 && |was| == |now| && |was| % 2 == 0
    modifies b
    ensures b[..6] == old(b[..6]) && b[8..] == old(b[8..])
    ensures fullChecksum ==> (Get16(b[..], 6) == 0 <==> old(Get16(b[..], 6)) == 0)
    ensures fullChecksum && old(Get16(b[..], 6)) != 0 ==> (forall other: nat ::
      UdpValid(b[..], PartialSum(other, now)) <==> UdpValid(old(b[..]), PartialSum(other, was)))
    ensures !fullChecksum ==> (forall other: nat ::
      other > 0 && old(Get16(b[..], 6)) == PartialSum(other, was) ==> Get16(b[..], 6) == PartialSum(other, now))
  {
    ghost var s := b[..];
    var xsum := Get16(b[..], 6);
    if fullChecksum {
      if xsum == 0 {
        return;
      }
      var x := UpdateAddress(Not16(xsum), was, now);
      WriteU16(b, 6, NormalizeUDPChecksum(Not16(x)));
      ghost var r := b[..];
      forall other: nat
        ensures UdpValid(r, PartialSum(other, now)) <==> UdpValid(s, PartialSum(other, was))
      {
        AddressValid(s, r, was, now, x, other);
      }
    } else {
      xsum := UpdateAddress(xsum, was, now);
      WriteU16(b, 6, xsum);
      forall other: nat | other > 0 && Get16(s, 6) == PartialSum(other, was)
        ensures xsum == PartialSum(other, now)
      {
        UpdateWordsExact(other, was, now);
      }
    }
  }

  lemma AddressValid(s: seq<byte>, r: seq<byte>, was: seq<byte>, now: seq<byte>, x: u16, other: nat)
    requires |s| >= 8 && |was| == |now| && |was| % 2 == 0 && Get16(s, 6) != 0
    requires x == UpdateWords(Not16(Get16(s, 6)), was, now)
    requires r == Put16(s, 6, Refreshed(x))
    ensures UdpValid(r, Fold(other + W(now, true))) <==> UdpValid(s, Fold(other + W(was, true)))
  {
    hide Fold;
    hide W;
    hide Rfc1071;
    hide UpdateWords;
    hide Cong;
    var c, rest := Get16(s, 6), UdpRest(s);
    assert r[..6] == s[..6];
    UdpTotal(s, Fold(other + W(was, true)));
    UdpTotal(r, Fold(other + W(now, true)));
    FoldAbsorb(other + W(was, true), rest + c);
    FoldAbsorb(other + W(now, true), rest + Refreshed(x));
    UpdateWordsCong(Not16(c), was, now);
    RefreshedValid(c, x, W(was, true), W(now, true), other + rest);
  }
}
