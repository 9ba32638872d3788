/** What every split promises, proved of the segments of GsoSpec. */
module GsoProperties {
  import opened Bytes
  import opened OnesComplement
  import opened GvisorChecksum
  import opened HeaderChecksum
  import opened UdpHeader
  import opened GsoSpec

  /** The number of segments a payload is cut into. */
  function SegmentCount(s: seq<byte>, o: GsoOptions): nat
    requires o.hdrLen <= |s| && o.gsoSize > 0
  {
    (|s| - o.hdrLen + o.gsoSize - 1) / o.gsoSize
  }

  /** `n` segments have been cut exactly when `n` segment sizes reach the end and `n - 1` do not. */
  lemma SegmentCountIs(s: seq<byte>, o: GsoOptions, n: nat)
    requires o.hdrLen <= |s| && o.gsoSize > 0
    requires DataAt(o, n) >= |s| && (n > 0 ==> DataAt(o, n - 1) < |s|)
    ensures n == SegmentCount(s, o)
  {
    var g, len := o.gsoSize, |s| - o.hdrLen;
    assert n * g >= len;
    if n > 0 {
      assert (n - 1) * g < len;
      assert (n - 1) * g + g == n * g;
      DivBetween(len + g - 1, g, n);
    } else {
      DivBetween(len + g - 1, g, 0);
    }
  }

  lemma DivBetween(x: int, g: int, n: int)
    requires g > 0 && n * g <= x < n * g + g
    ensures x / g == n
  {
    var q, r := x / g, x % g;
    assert x == q * g + r;
    if q < n {
      MulStep(q + 1, n, g);
    } else if q > n {
      MulStep(n + 1, q, g);
    }
  }

  lemma MulStep(a: int, b: int, g: int)
    requires a <= b && g > 0
    ensures a * g <= b * g
  {
  }

  lemma DataAtStep(o: GsoOptions, i: nat)
    ensures DataAt(o, i + 1) == DataAt(o, i) + o.gsoSize
  {
  }

  lemma DataAtMonotone(o: GsoOptions, i: nat, j: nat)
    requires i <= j
    ensures DataAt(o, i) <= DataAt(o, j)
  {
    MulStep(i, j, if o.gsoSize > 0 then o.gsoSize else 1);
  }

  /** The payloads of the first `n` segments, end to end. */
  function Joined(s: seq<byte>, o: GsoOptions, n: nat): seq<byte>
    requires n > 0 ==> DataAt(o, n - 1) <= |s|
    decreases n
  {
    if n == 0 then []
    else
      DataAtMonotone(o, if n > 1 then n - 2 else 0, n - 1);
      Joined(s, o, n - 1) + Payload(s, o, n - 1)
  }

  /** Splitting loses, repeats and reorders no payload byte. */
  lemma {:induction false} PayloadsRejoin(s: seq<byte>, o: GsoOptions, n: nat)
    requires o.hdrLen <= |s| && (n > 0 ==> DataAt(o, n - 1) <= |s|)
    ensures Joined(s, o, n) == s[o.hdrLen..if DataAt(o, n) > |s| then |s| else DataAt(o, n)]
    decreases n
  {
    hide DataAt;
    hide DataEnd;
    DataAtZero(o);
    if n > 0 {
      DataAtStep(o, n - 1);
      DataAtMonotone(o, if n > 1 then n - 2 else 0, n - 1);
      PayloadsRejoin(s, o, n - 1);
      DataAtMonotone(o, 0, n - 1);
      DataEndIs(s, o, n - 1);
    }
  }

  lemma DataAtZero(o: GsoOptions)
    ensures DataAt(o, 0) == o.hdrLen
  {
  }

  lemma DataEndIs(s: seq<byte>, o: GsoOptions, i: nat)
    ensures DataEnd(s, o, i) == if DataAt(o, i + 1) > |s| then |s| else DataAt(o, i + 1)
  {
    DataAtStep(o, i);
  }

  lemma AllPayloadsRejoin(s: seq<byte>, o: GsoOptions)
    requires o.hdrLen <= |s| && o.gsoSize > 0
    ensures var n := SegmentCount(s, o);
      (n > 0 ==> DataAt(o, n - 1) < |s|) && Joined(s, o, n) == s[o.hdrLen..]
  {
    SegmentCountBounds(s, o);
    hide DataAt;
    hide SegmentCount;
    hide Joined;
    PayloadsRejoin(s, o, SegmentCount(s, o));
  }

  lemma SegmentCountBounds(s: seq<byte>, o: GsoOptions)
    requires o.hdrLen <= |s| && o.gsoSize > 0
    ensures var n := SegmentCount(s, o);
      (n > 0 ==> DataAt(o, n - 1) < |s|) && DataAt(o, n) >= |s|
  {
    var g, len, n := o.gsoSize, |s| - o.hdrLen, SegmentCount(s, o);
    CeilBounds(len, g);
    if n > 0 {
      assert (n - 1) * g + g == n * g;
    }
  }

  lemma CeilBounds(len: nat, g: int)
    requires g > 0
    ensures var n := (len + g - 1) / g; len <= n * g < len + g
  {
    var x := len + g - 1;
    assert x == x / g * g + x % g;
  }

  /** Every segment but the last is full, and the last is not empty. */
  lemma PayloadSizes(s: seq<byte>, o: GsoOptions, i: nat)
    requires DataAt(o, i) < |s|
    ensures |Payload(s, o, i)| == (if DataAt(o, i + 1) <= |s| then o.gsoSize else |s| - DataAt(o, i))
    ensures o.gsoSize > 0 ==> 0 < |Payload(s, o, i)| <= o.gsoSize
    ensures DataEnd(s, o, i) == |s| <==> DataAt(o, i + 1) >= |s|
  {
    DataAtStep(o, i);
  }

  /** The sixteen-bit product in the sequence number does not wrap for payloads of up to 65536 bytes. */
  lemma SequenceNumbers(s: seq<byte>, o: GsoOptions, c: Common, i: nat)
    requires o.hdrLen <= |s| <= o.hdrLen + 0x1_0000 && DataAt(o, i) < |s| && o.gsoSize > 0
    ensures SeqOf(o, c, i) == (c.firstSeq + i * o.gsoSize) % 0x1_0000_0000
  {
    MulStep(1, o.gsoSize, if i > 0 then i else 1);
    assert i * o.gsoSize < 0x1_0000;
    assert i <= i * o.gsoSize;
    assert o.gsoSize * (i % 0x1_0000) == i * o.gsoSize;
  }

  /** The fields of a segment as a receiver reads them, where the checksum field does not lie over them. */
  lemma SegmentFields(s: seq<byte>, o: GsoOptions, i: nat)
    requires WellFormed(s, o) && DataAt(o, i) < |s|
    ensures var r, v, last, at := Segment(s, o, i), Version(s), DataEnd(s, o, i) == |s|, o.csumStart;
      && r[o.hdrLen..] == Payload(s, o, i)
      && (v == 4 ==> Get16(r, 2) == |r| % 0x1_0000 && Get16(r, 4) == (Get16(s, 4) + i) % 0x1_0000)
      && (v == 6 ==> Get16(r, 4) == (|r| - at) % 0x1_0000)
      && (IsTcp(o) && Apart(o, 4, 4) && o.gsoSize > 0 && |s| <= o.hdrLen + 0x1_0000 ==>
            Get32(r, at + 4) == (Get32(s, at + 4) + i * o.gsoSize) % 0x1_0000_0000)
      && (IsTcp(o) && Apart(o, 13, 1) ==> r[at + 13] == if last then s[at + 13] else WithoutFinPsh(s[at + 13]))
      && (!IsTcp(o) && Apart(o, 4, 2) ==> Get16(r, o.csumStart + 4) == (|r| - o.csumStart) % 0x1_0000)
      && (forall k :: 0 <= k < o.hdrLen && !Overwritten(o, v, k) && (i == 0 || (k != 4 && k != 5)) ==> r[k] == s[k])
  {
    hide IpFields;
    hide TransportFields;
    hide WithTransportChecksum;
    hide CommonOf;
    var c, last, payload := CommonOf(s, o), DataEnd(s, o, i) == |s|, Payload(s, o, i);
    var h, n := s[..o.hdrLen], o.hdrLen + |payload|;
    CommonVersion(s, o);
    var a := IpFields(h, o, c, i, n);
    IpLengths(h, o, c, i, n);
    var b := TransportFields(a, o, c, i, |payload|, last);
    TransportStart(a, b, o, c, i, |payload|, last);
    TransportValues(a, o, c, i, |payload|, last);
    ChecksumFrame(b + payload, o, c);
    BuildKeeps(h, payload, o, c, i, last);
    if IsTcp(o) {
      CommonTcp(s, o);
      if o.gsoSize > 0 && |s| <= o.hdrLen + 0x1_0000 {
        SequenceNumbers(s, o, c, i);
      }
    }
    hide SeqOf;
    hide Overwritten;
  }

  lemma CommonTcp(s: seq<byte>, o: GsoOptions)
    requires WellFormed(s, o) && IsTcp(o)
    ensures CommonOf(s, o).firstSeq == Get32(s, o.csumStart + 4) && CommonOf(s, o).flags == s[o.csumStart + 13]
  {
  }

  lemma CommonVersion(s: seq<byte>, o: GsoOptions)
    requires WellFormed(s, o)
    ensures CommonOf(s, o).v == Version(s)
  {
  }

  lemma IpLengths(h: seq<byte>, o: GsoOptions, c: Common, i: nat, n: nat)
    requires Shape(h, o, c.v) && o.hdrLen <= n
    ensures var r := IpFields(h, o, c, i, n);
      && (c.v == 4 ==> Get16(r, 2) == n % 0x1_0000 && Get16(r, 4) == (Get16(h, 4) + i) % 0x1_0000)
      && (c.v != 4 ==> Get16(r, 4) == (n - o.csumStart) % 0x1_0000)
  {
    hide Rfc1071;
  }

  lemma TransportValues(h: seq<byte>, o: GsoOptions, c: Common, i: nat, n: nat, last: bool)
    requires Shape(h, o, c.v)
    ensures var r := TransportFields(h, o, c, i, n, last);
      && (IsTcp(o) ==> Get32(r, o.csumStart + 4) == SeqOf(o, c, i))
      && (IsTcp(o) ==> r[o.csumStart + 13] == (if last then c.flags else WithoutFinPsh(c.flags)))
      && (!IsTcp(o) ==> Get16(r, o.csumStart + 4) == (n + o.hdrLen - o.csumStart) % 0x1_0000)
  {
  }

  /** checksumValid of tun_offload_linux.go: the transport part sums to all ones. */
  predicate ChecksumValid(p: seq<byte>, start: nat, proto: byte, v: int)
    requires AddrAt(v) + 2 * AddrLen(v) <= start <= |p|
  {
    var a, n := AddrAt(v), AddrLen(v);
    var pseudo := PseudoHeaderChecksum(proto, p[a..a + n], p[a + n..a + 2 * n], (|p| - start) % 0x1_0000);
    Not16(Rfc1071(p[start..], pseudo)) == 0
  }

  /** A sum completed by the complement of its fold is all ones. */
  lemma Completed(n: nat, udp: bool)
    requires n > 0
    ensures var x := Not16(Fold(n));
      Fold(n + if udp then NormalizeUDPChecksum(x) else x) == 0xFFFF
  {
    var x := Not16(Fold(n));
    FoldAbsorb(n, if udp then NormalizeUDPChecksum(x) else x);
    assert Fold(0xFFFF) == 0xFFFF && Fold(0x1_FFFE) == 0xFFFF;
  }

  /** The transport checksum written into a segment verifies. */
  lemma WrittenChecksumValid(p: seq<byte>, o: GsoOptions, c: Common, src: seq<byte>, dst: seq<byte>)
    requires o.csumStart + o.csumOffset + 2 <= |p| && o.csumOffset % 2 == 0
    requires c.pseudo == PseudoHeaderChecksum(Protocol(o), src, dst, 0)
    ensures var r := WithTransportChecksum(p, o, c);
      Rfc1071(r[o.csumStart..], PseudoHeaderChecksum(Protocol(o), src, dst, (|p| - o.csumStart) % 0x1_0000)) == 0xFFFF
  {
    hide Rfc1071;
    hide PseudoHeaderChecksum;
    hide Put16;
    hide Get16;
    hide Combine;
    hide Not16;
    hide NormalizeUDPChecksum;
    var len, at := (|p| - o.csumStart) % 0x1_0000, o.csumStart + o.csumOffset;
    var z := Put16(p, at, 0);
    var zs := z[o.csumStart..];
    var y := Not16(Rfc1071(zs, Combine(c.pseudo, len)));
    var x := if IsTcp(o) then y else NormalizeUDPChecksum(y);
    PutBehind(p, o.csumStart, o.csumOffset, 0);
    PutBehind(z, o.csumStart, o.csumOffset, x);
    ChecksumSums(zs, o.csumOffset, Protocol(o), src, dst, len, c.pseudo, !IsTcp(o), x);
  }

  /** Completing a zero field with the complement of the sum over any start value makes the sum all ones. */
  lemma CompletedSum(zs: seq<byte>, at: nat, initial: u16, udp: bool, x: u16)
    requires at + 2 <= |zs| && at % 2 == 0 && Get16(zs, at) == 0 && initial > 0
    requires var y := Not16(Rfc1071(zs, initial)); x == if udp then NormalizeUDPChecksum(y) else y
    ensures Rfc1071(Put16(zs, at, x), initial) == 0xFFFF
  {
    hide *;
    Rfc1071IsFold(zs, initial);
    Rfc1071IsFold(Put16(zs, at, x), initial);
    WPut16(zs, at, x);
    Completed(initial + W(zs, true), udp);
  }

  /** Completing a zero field with the complement of the whole sum makes the sum all ones. */
  lemma ChecksumSums(zs: seq<byte>, at: nat, proto: byte, src: seq<byte>, dst: seq<byte>, len: u16, pseudo: u16,
                     udp: bool, x: u16)
    requires at + 2 <= |zs| && at % 2 == 0 && Get16(zs, at) == 0
    requires pseudo == PseudoHeaderChecksum(proto, src, dst, 0) && proto > 0
    requires var y := Not16(Rfc1071(zs, Combine(pseudo, len))); x == if udp then NormalizeUDPChecksum(y) else y
    ensures Rfc1071(Put16(zs, at, x), PseudoHeaderChecksum(proto, src, dst, len)) == 0xFFFF
  {
    hide *;
    var base := W(src, true) + W(dst, true) + proto;
    var psum, rs := PseudoHeaderChecksum(proto, src, dst, len), Put16(zs, at, x);
    PseudoTotals(proto, src, dst, len);
    Rfc1071IsFold(zs, psum);
    Rfc1071IsFold(rs, psum);
    WPut16(zs, at, x);
    FoldAbsorb(base + len, W(zs, true));
    SumNumbers(base + len, W(zs, true), W(rs, true), udp, x);
  }

  /** The partial pseudo-header sum and the length combine to the whole pseudo-header sum. */
  lemma PseudoTotals(proto: byte, src: seq<byte>, dst: seq<byte>, len: u16)
    ensures PseudoHeaderChecksum(proto, src, dst, len) == Fold(W(src, true) + W(dst, true) + proto + len)
    ensures Combine(PseudoHeaderChecksum(proto, src, dst, 0), len) == PseudoHeaderChecksum(proto, src, dst, len)
  {
    hide *;
    PseudoHeaderTotal(proto, src, dst, 0);
    PseudoHeaderTotal(proto, src, dst, len);
    FoldAbsorb(W(src, true) + W(dst, true) + proto, len);
  }

  lemma SumNumbers(n: nat, wz: nat, wr: nat, udp: bool, x: u16)
    requires n > 0 && wr == wz + x
    requires x == if udp then NormalizeUDPChecksum(Not16(Fold(n + wz))) else Not16(Fold(n + wz))
    ensures Fold(Fold(n) + wr) == 0xFFFF
  {
    hide *;
    Completed(n + wz, udp);
    FoldAbsorb(n, wr);
  }

  /** A segment has the addresses of its superpacket. */
  lemma AddressesKept(s: seq<byte>, o: GsoOptions, i: nat)
    requires WellFormed(s, o) && DataAt(o, i) < |s|
    ensures var v, r := Version(s), Segment(s, o, i);
      var a, n := AddrAt(v), AddrLen(v);
      r[a..a + n] == s[a..a + n] && r[a + n..a + 2 * n] == s[a + n..a + 2 * n]
  {
    hide CommonOf;
    hide Segment;
    SegmentFields(s, o, i);
    var v, r := Version(s), Segment(s, o, i);
    var a, n := AddrAt(v), AddrLen(v);
    forall k | a <= k < a + 2 * n ensures r[k] == s[k] {
      assert !Overwritten(o, v, k);
    }
    SameSlice(s, r, a, a + n);
    SameSlice(s, r, a + n, a + 2 * n);
  }

  /** With the checksum field on a word, every segment passes the transport check its receiver makes. */
  lemma SegmentChecksumValid(s: seq<byte>, o: GsoOptions, i: nat)
    requires WellFormed(s, o) && DataAt(o, i) < |s| && o.csumOffset % 2 == 0
    ensures ChecksumValid(Segment(s, o, i), o.csumStart, Protocol(o), Version(s))
  {
    hide Rfc1071;
    hide PseudoHeaderChecksum;
    hide WithTransportChecksum;
    hide IpFields;
    hide TransportFields;
    hide Payload;
    var v, c := Version(s), CommonOf(s, o);
    var a, n := AddrAt(v), AddrLen(v);
    var src, dst := s[a..a + n], s[a + n..a + 2 * n];
    var payload, last := Payload(s, o, i), DataEnd(s, o, i) == |s|;
    var h := s[..o.hdrLen];
    AddressesKept(s, o, i);
    var p := TransportFields(IpFields(h, o, c, i, o.hdrLen + |payload|), o, c, i, |payload|, last) + payload;
    WrittenChecksumValid(p, o, c, src, dst);
  }

  /** Every IPv4 segment passes the header check, its header being the csumStart bytes before the transport header. */
  lemma SegmentHeaderValid(s: seq<byte>, o: GsoOptions, i: nat)
    requires WellFormed(s, o) && DataAt(o, i) < |s| && Version(s) == 4
    ensures Rfc1071(Segment(s, o, i)[..o.csumStart], 0) == 0xFFFF
    ensures HeaderLength(s) == o.csumStart ==> Ipv4Valid(Segment(s, o, i))
  {
    hide Rfc1071;
    hide WithTransportChecksum;
    hide TransportFields;
    hide IpFields;
    var c, payload, last := CommonOf(s, o), Payload(s, o, i), DataEnd(s, o, i) == |s|;
    var h, n := s[..o.hdrLen], o.hdrLen + |payload|;
    var a := IpFields(h, o, c, i, n);
    var b := TransportFields(a, o, c, i, |payload|, last);
    var r := Segment(s, o, i);
    HeaderCompleted(h, o, c, i, n);
    TransportFieldsFrame(a, o, c, i, |payload|, last);
    ChecksumFrame(b + payload, o, c);
    TransportStart(a, b, o, c, i, |payload|, last);
    assert r[..o.csumStart] == a[..o.csumStart];
    BuildKeeps(h, payload, o, c, i, last);
  }

  lemma TransportStart(a: seq<byte>, b: seq<byte>, o: GsoOptions, c: Common, i: nat, n: nat, last: bool)
    requires Shape(a, o, c.v) && b == TransportFields(a, o, c, i, n, last)
    ensures forall k :: 0 <= k < o.csumStart ==> b[k] == a[k]
  {
  }

  lemma HeaderCompleted(h: seq<byte>, o: GsoOptions, c: Common, i: nat, n: nat)
    requires Shape(h, o, c.v) && o.hdrLen <= n && c.v == 4 && h[0] > 0
    ensures Rfc1071(IpFields(h, o, c, i, n)[..o.csumStart], 0) == 0xFFFF
  {
    hide Rfc1071;
    hide Fold;
    hide W;
    var a := if i > 0 then Put16(h, 4, (Get16(h, 4) + i) % 0x1_0000) else h;
    var b := Put16(Put16(a, 10, 0), 2, n % 0x1_0000);
    var t := b[..o.csumStart];
    Rfc1071IsFold(t, 0);
    WFirst(t);
    var x := Not16(Fold(W(t, true)));
    var r := IpFields(h, o, c, i, n);
    assert r == Put16(b, 10, x);
    assert r[..o.csumStart] == Put16(t, 10, x);
    assert Get16(t, 10) == 0;
    WPut16(t, 10, x);
    Rfc1071IsFold(Put16(t, 10, x), 0);
    Completed(W(t, true), false);
  }
}
