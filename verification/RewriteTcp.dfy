/** stack_system.go: translating the address and port tuple of an IPv4 TCP packet in place. */
module RewriteTcp {
  import opened Bytes
  import opened ByteArrays
  import opened OnesComplement
  import opened GvisorChecksum
  import opened HeaderChecksum
  import GsoSpec
  import GsoProperties

  /** A valid IPv4 packet that holds at least a minimal TCP header. */
  predicate IsTcp4(s: seq<byte>) {
    IsIpv4Header(s) && |s| >= 20 && HeaderLength(s) + 20 <= Get16(s, 2) <= |s|
  }

  /** The transport part of the packet, as IPv4.Payload cuts it out. */
  function Segment(s: seq<byte>): (t: seq<byte>)
    requires IsTcp4(s)
    ensures |t| == Get16(s, 2) - HeaderLength(s) >= 20
  {
    s[HeaderLength(s)..Get16(s, 2)]
  }

  /** The TCP checksum computed from scratch. */
  function TcpChecksum(s: seq<byte>): u16
    requires IsTcp4(s)
  {
    var t := Segment(s);
    Not16(Rfc1071(t[18..], Rfc1071(t[..16], PseudoHeaderChecksum(GsoSpec.PROTO_TCP, s[12..16], s[16..20], |t|))))
  }

  predicate TcpFromScratch(s: seq<byte>) {
    IsTcp4(s) && Get16(Segment(s), 16) == TcpChecksum(s)
  }

  ghost function TcpTotal(s: seq<byte>): nat
    requires IsTcp4(s)
  {
    var t := Segment(s);
    W(s[12..16], true) + W(s[16..20], true) + |t| + 6 + W(t[..16], true) + W(t[18..], true)
  }

  lemma TcpTotals(s: seq<byte>)
    requires IsTcp4(s)
    ensures TcpChecksum(s) == Not16(Fold(TcpTotal(s)))
  {
    hide Fold;
    hide Rfc1071;
    hide W;
    hide PseudoHeaderChecksum;
    var t := Segment(s);
    var p := PseudoHeaderChecksum(GsoSpec.PROTO_TCP, s[12..16], s[16..20], |t|);
    var n := W(s[12..16], true) + W(s[16..20], true) + |t| + 6;
    PseudoHeaderTotal(GsoSpec.PROTO_TCP, s[12..16], s[16..20], |t|);
    Rfc1071IsFold(t[..16], p);
    Rfc1071IsFold(t[18..], Rfc1071(t[..16], p));
    FoldAbsorb(n, W(t[..16], true));
    FoldAbsorb(n + W(t[..16], true), W(t[18..], true));
  }

  /** A checksum computed from scratch passes the check a receiver makes. */
  lemma TcpScratchValid(s: seq<byte>)
    requires TcpFromScratch(s)
    ensures GsoProperties.ChecksumValid(s[..Get16(s, 2)], HeaderLength(s), GsoSpec.PROTO_TCP, 4)
  {
    hide Fold;
    hide Rfc1071;
    hide W;
    hide PseudoHeaderChecksum;
    hide TcpChecksum;
    var t, p := Segment(s), s[..Get16(s, 2)];
    assert p[HeaderLength(s)..] == t && p[12..16] == s[12..16] && p[16..20] == s[16..20];
    var pseudo := PseudoHeaderChecksum(GsoSpec.PROTO_TCP, s[12..16], s[16..20], |t|);
    PseudoHeaderTotal(GsoSpec.PROTO_TCP, s[12..16], s[16..20], |t|);
    TcpTotals(s);
    SegmentSum(t);
    Rfc1071IsFold(t, pseudo);
    var n := W(s[12..16], true) + W(s[16..20], true) + |t| + 6;
    FoldAbsorb(n, W(t, true));
    GsoProperties.Completed(TcpTotal(s), false);
  }

  /** The words of a segment, its checksum apart. */
  lemma SegmentSum(t: seq<byte>)
    requires |t| >= 20
    ensures W(t, true) == W(t[..16], true) + Get16(t, 16) + W(t[18..], true)
  {
    hide W;
    WSplit(t, 16, true);
    WSplit(t[16..], 2, true);
    W2(t[16..][..2], true);
    assert t[16..][2..] == t[18..];
  }

  /** TCP.UpdateChecksumPseudoHeaderAddress with a full checksum. */
  function TcpUpdateAddress(s: seq<byte>, h: nat, was: seq<byte>, now: seq<byte>): (r: seq<byte>)
    requires h + 18 <= |s| && |was| == |now| && |was| % 2 == 0
    ensures |r| == |s| && Get16(r, h + 16) == Not16(UpdateWords(Not16(Get16(s, h + 16)), was, now))
    ensures forall k :: 0 <= k < |s| && k != h + 16 && k != h + 17 ==> r[k] == s[k]
  {
    Put16(s, h + 16, Not16(UpdateWords(Not16(Get16(s, h + 16)), was, now)))
  }

  /** TCP.SetSourcePortWithChecksumUpdate (`at` is 0) and its destination twin (`at` is 2). */
  function TcpSetPort(s: seq<byte>, h: nat, at: nat, port: u16): (r: seq<byte>)
    requires h + 18 <= |s| && at in {0, 2}
    ensures |r| == |s| && Get16(r, h + at) == port
    ensures Get16(r, h + 16) == Not16(Update16(Not16(Get16(s, h + 16)), Get16(s, h + at), port))
    ensures forall k :: 0 <= k < |s| && !(h + at <= k < h + at + 2) && k != h + 16 && k != h + 17 ==> r[k] == s[k]
  {
    var t := Put16(s, h + at, port);
    Put16(t, h + 16, Not16(Update16(Not16(Get16(t, h + 16)), Get16(s, h + at), port)))
  }

  /** Bytes after the IPv4 header do not matter to its checksum. */
  lemma Ipv4Frame(s: seq<byte>, r: seq<byte>)
    requires Ipv4FromScratch(s) && |r| == |s| && forall k :: 0 <= k < HeaderLength(s) ==> r[k] == s[k]
    ensures Ipv4FromScratch(r)
  {
    hide Rfc1071;
    assert r[..10] == s[..10] && r[12..HeaderLength(s)] == s[12..HeaderLength(s)];
  }

  /** The first bytes decide where the TCP segment lies. */
  lemma SameShape(s: seq<byte>, r: seq<byte>)
    requires IsTcp4(s) && |r| == |s| && r[0] == s[0] && r[2] == s[2] && r[3] == s[3]
    ensures IsTcp4(r) && HeaderLength(r) == HeaderLength(s) && Get16(r, 2) == Get16(s, 2)
  {
  }

  lemma SetAddressKeepsTcp(s: seq<byte>, at: nat, addr: seq<byte>)
    requires IsTcp4(s) && at in {12, 16} && |addr| == 4
    ensures var r := SetAddress(s, at, addr);
      && IsTcp4(r) && HeaderLength(r) == HeaderLength(s) && Segment(r) == Segment(s)
      && TcpTotal(r) + W(s[at..at + 4], true) == TcpTotal(s) + W(addr, true)
  {
    hide SetAddress;
    hide W;
    var r, h := SetAddress(s, at, addr), HeaderLength(s);
    SameShape(s, r);
    hide Get16;
    SameSlice(s, r, h, Get16(s, 2));
    SameSlice(s, r, 28 - at, 32 - at);
  }

  lemma TcpUpdateSegment(s: seq<byte>, was: seq<byte>, now: seq<byte>)
    requires IsTcp4(s) && |was| == |now| && |was| % 2 == 0
    ensures var r := TcpUpdateAddress(s, HeaderLength(s), was, now);
      && IsTcp4(r) && HeaderLength(r) == HeaderLength(s) && TcpTotal(r) == TcpTotal(s)
      && Get16(Segment(r), 16) == Not16(UpdateWords(Not16(Get16(Segment(s), 16)), was, now))
  {
    hide TcpUpdateAddress;
    hide UpdateWords;
    hide Not16;
    hide W;
    hide Get16;
    var h := HeaderLength(s);
    var r := TcpUpdateAddress(s, h, was, now);
    SameShape(s, r);
    ChecksumOnly(s, r);
    SegmentField(s, 16);
    SegmentField(r, 16);
    hide *;
  }

  /** Only the TCP checksum differs, which the total leaves out. */
  lemma ChecksumOnly(s: seq<byte>, r: seq<byte>)
    requires IsTcp4(s) && IsTcp4(r) && |r| == |s| && HeaderLength(r) == HeaderLength(s) && Get16(r, 2) == Get16(s, 2)
    requires var h := HeaderLength(s); forall k :: 0 <= k < |s| && k != h + 16 && k != h + 17 ==> r[k] == s[k]
    ensures TcpTotal(r) == TcpTotal(s)
  {
    hide Get16;
    hide TcpTotal;
    SameSlice(s, r, 12, 16);
    SameSlice(s, r, 16, 20);
    SegmentSlices(s, r, 0);
    SameTotal(s, r);
  }

  lemma SameTotal(s: seq<byte>, r: seq<byte>)
    requires IsTcp4(s) && IsTcp4(r) && |Segment(r)| == |Segment(s)|
    requires r[12..16] == s[12..16] && r[16..20] == s[16..20]
    requires Segment(r)[0..16] == Segment(s)[0..16] && Segment(r)[18..] == Segment(s)[18..]
    ensures TcpTotal(r) == TcpTotal(s)
  {
    hide W;
    hide IsTcp4;
    assert Segment(r)[..16] == Segment(s)[..16];
    hide Segment;
  }

  /** A field of the segment, read from the packet. */
  lemma SegmentField(s: seq<byte>, at: nat)
    requires IsTcp4(s) && at + 2 <= 20
    ensures Get16(Segment(s), at) == Get16(s, HeaderLength(s) + at)
  {
  }

  /** Packets that agree behind their ports, but for the checksum, have segments that do. */
  lemma SegmentSlices(s: seq<byte>, r: seq<byte>, from: nat)
    requires IsTcp4(s) && IsTcp4(r) && |r| == |s| && HeaderLength(r) == HeaderLength(s) && Get16(r, 2) == Get16(s, 2)
      && from <= 16
    requires var h := HeaderLength(s); forall k :: h + from <= k < |s| && k != h + 16 && k != h + 17 ==> r[k] == s[k]
    ensures Segment(r)[from..16] == Segment(s)[from..16] && Segment(r)[18..] == Segment(s)[18..]
  {
    hide Get16;
    var h, n := HeaderLength(s), Get16(s, 2);
    SameSlice(s, r, h + from, h + 16);
    SameSlice(s, r, h + 18, n);
    SliceSlice(s, h, n, from, 16);
    SliceSlice(r, h, n, from, 16);
    SliceSlice(s, h, n, 18, n - h);
    SliceSlice(r, h, n, 18, n - h);
    assert Segment(s)[18..n - h] == Segment(s)[18..] && Segment(r)[18..n - h] == Segment(r)[18..];
  }

  /** Changing an address in the IP header and in the TCP checksum leaves both from scratch. */
  lemma AddressStep(s: seq<byte>, at: nat, addr: seq<byte>)
    requires IsTcp4(s) && at in {12, 16} && |addr| == 4
    ensures var q := SetAddress(s, at, addr);
      var r := TcpUpdateAddress(q, HeaderLength(s), s[at..at + 4], addr);
      && IsTcp4(q) && IsTcp4(r)
      && (Ipv4FromScratch(s) ==> Ipv4FromScratch(q) && Ipv4FromScratch(r))
      && (TcpFromScratch(s) ==> TcpFromScratch(r))
  {
    hide SetAddress;
    hide TcpUpdateAddress;
    hide UpdateWords;
    hide Segment;
    hide TcpChecksum;
    hide TcpTotal;
    hide W;
    hide Fold;
    var q := SetAddress(s, at, addr);
    var r := TcpUpdateAddress(q, HeaderLength(s), s[at..at + 4], addr);
    SetAddressKeepsTcp(s, at, addr);
    TcpUpdateSegment(q, s[at..at + 4], addr);
    if Ipv4FromScratch(s) {
      SetAddressFromScratch(s, at, addr);
      Ipv4Frame(q, r);
    }
    if TcpFromScratch(s) {
      TcpTotals(s);
      TcpTotals(r);
      TcpTotalExceeds(s, at);
      UpdateWordsExact(TcpTotal(s) - W(s[at..at + 4], true), s[at..at + 4], addr);
    }
  }

  lemma TcpTotalExceeds(s: seq<byte>, at: nat)
    requires IsTcp4(s) && at in {12, 16}
    ensures TcpTotal(s) > W(s[at..at + 4], true)
  {
    hide W;
  }

  /** The segment after a port was set. */
  lemma PortSegment(s: seq<byte>, at: nat, port: u16)
    requires IsTcp4(s) && at in {0, 2}
    ensures var r := TcpSetPort(s, HeaderLength(s), at, port);
      && IsTcp4(r) && HeaderLength(r) == HeaderLength(s)
      && r[12..16] == s[12..16] && r[16..20] == s[16..20]
      && Segment(r)[18..] == Segment(s)[18..] && Segment(r)[..16] == Put16(Segment(s)[..16], at, port)
      && Get16(Segment(s)[..16], at) == Get16(Segment(s), at)
      && Get16(Segment(r), 16) == Not16(Update16(Not16(Get16(Segment(s), 16)), Get16(Segment(s), at), port))
  {
    hide TcpSetPort;
    hide Update16;
    var r := TcpSetPort(s, HeaderLength(s), at, port);
    var a, b := Segment(s), Segment(r);
    assert b[18..] == a[18..];
    assert Get16(b, at) == port;
    assert b[..16] == Put16(a[..16], at, port);
  }

  lemma PortTotal(s: seq<byte>, at: nat, port: u16)
    requires IsTcp4(s) && at in {0, 2}
    ensures var r := TcpSetPort(s, HeaderLength(s), at, port);
      && IsTcp4(r) && HeaderLength(r) == HeaderLength(s)
      && TcpTotal(r) + Get16(Segment(s), at) == TcpTotal(s) + port
      && TcpTotal(s) > Get16(Segment(s), at)
      && Get16(Segment(r), 16)
         == Not16(Update16(Not16(Get16(Segment(s), 16)), Get16(Segment(s), at), port))
  {
    hide TcpSetPort;
    hide W;
    hide Update16;
    hide Get16;
    hide Put16;
    hide IsTcp4;
    hide HeaderLength;
    hide Segment;
    PortSegment(s, at, port);
    var a := Segment(s);
    WPut16(a[..16], at, port);
    WFieldBound(a[..16], at);
  }

  /** Changing a port leaves both checksums from scratch. */
  lemma PortStep(s: seq<byte>, at: nat, port: u16)
    requires IsTcp4(s) && at in {0, 2}
    ensures var r := TcpSetPort(s, HeaderLength(s), at, port);
      && IsTcp4(r)
      && (Ipv4FromScratch(s) ==> Ipv4FromScratch(r))
      && (TcpFromScratch(s) ==> TcpFromScratch(r))
  {
    hide TcpSetPort;
    hide Update16;
    hide TcpTotal;
    hide TcpChecksum;
    hide Segment;
    hide Fold;
    var r := TcpSetPort(s, HeaderLength(s), at, port);
    PortTotal(s, at, port);
    if Ipv4FromScratch(s) {
      Ipv4Frame(s, r);
    }
    if TcpFromScratch(s) {
      TcpTotals(s);
      TcpTotals(r);
      Update16Exact(TcpTotal(s) - Get16(Segment(s), at), Get16(Segment(s), at), port);
    }
  }

  /** The connection tuple a packet carries. */
  datatype Tuple = Tuple(source: seq<byte>, sourcePort: u16, destination: seq<byte>, destinationPort: u16)

  function TupleOf(s: seq<byte>): (t: Tuple)
    requires IsTcp4(s)
    ensures |t.source| == 4 && |t.destination| == 4
  {
    var h := HeaderLength(s);
    Tuple(s[12..16], Get16(s, h), s[16..20], Get16(s, h + 2))
  }

  /** Everything but the tuple and the two checksum fields is as before. */
  ghost predicate OnlyTupleChanged(s: seq<byte>, r: seq<byte>)
    requires IsTcp4(s)
  {
    var h := HeaderLength(s);
    && |r| == |s| && IsTcp4(r) && HeaderLength(r) == h
    && forall k :: 0 <= k < |s| && !(10 <= k < 20) && !(h <= k < h + 4) && k != h + 16 && k != h + 17 ==> r[k] == s[k]
  }

  /** What rewriting keeps: the rest of the packet, and checksums that were computed from scratch. */
  ghost predicate Rewritten(s: seq<byte>, r: seq<byte>, txChecksumOffload: bool)
    requires IsTcp4(s)
  {
    && OnlyTupleChanged(s, r)
    && (Ipv4FromScratch(s) ==> Ipv4FromScratch(r))
    && (!txChecksumOffload && TcpFromScratch(s) ==> TcpFromScratch(r))
  }

  lemma RewrittenTrans(s: seq<byte>, q: seq<byte>, r: seq<byte>, txChecksumOffload: bool)
    requires IsTcp4(s) && Rewritten(s, q, txChecksumOffload) && Rewritten(q, r, txChecksumOffload)
    ensures Rewritten(s, r, txChecksumOffload)
  {
    hide Ipv4FromScratch;
    hide TcpFromScratch;
  }

  lemma RewrittenSame(s: seq<byte>, txChecksumOffload: bool)
    requires IsTcp4(s)
    ensures Rewritten(s, s, txChecksumOffload)
  {
  }

  function WithAddress(t: Tuple, at: nat, addr: seq<byte>): Tuple {
    if at == 12 then t.(source := addr) else t.(destination := addr)
  }

  function WithPort(t: Tuple, at: nat, port: u16): Tuple {
    if at == 0 then t.(sourcePort := port) else t.(destinationPort := port)
  }

  /** One address of the tuple: IP header first, then the TCP checksum unless the device computes it. */
  method RewriteAddress(b: array<byte>, at: nat, addr: seq<byte>, txChecksumOffload: bool)
    requires IsTcp4(b[..]) && at in {12, 16} && |addr| == 4
    modifies b
    ensures Rewritten(old(b[..]), b[..], txChecksumOffload)
    ensures TupleOf(b[..]) == WithAddress(old(TupleOf(b[..])), at, addr)
  {
    hide Rewritten;
    hide TupleOf;
    hide WithAddress;
    hide Ipv4FromScratch;
    ghost var s := b[..];
    var was, h := b[at..at + 4], HeaderLength(b[..]);
    assert s[at..at + 4] == was;
    if was != addr {
      AddressFrame(s, at, addr, txChecksumOffload);
      if at == 12 {
        SetSourceAddressWithChecksumUpdate(b, addr);
      } else {
        SetDestinationAddressWithChecksumUpdate(b, addr);
      }
      if !txChecksumOffload {
        UpdateChecksumPseudoHeaderAddress(b, h, was, addr, true);
      }
    } else {
      RewrittenSame(s, txChecksumOffload);
      SameAddress(s, at, addr);
    }
  }

  lemma SameAddress(s: seq<byte>, at: nat, addr: seq<byte>)
    requires IsTcp4(s) && at in {12, 16} && s[at..at + 4] == addr
    ensures TupleOf(s) == WithAddress(TupleOf(s), at, addr)
  {
  }

  /**
  TCP.UpdateChecksumPseudoHeaderAddress.  A full checksum follows the address by the word update; a
  partial one, of the address and `other`, becomes that of the new address.
  */
  method UpdateChecksumPseudoHeaderAddress(b: array<byte>, h: nat, was: seq<byte>, now: seq<byte>, fullChecksum: bool)
    requires h + 18 <= b.Length && |was| == |now| && |was| % 2 == 0
    modifies b
    ensures fullChecksum ==> b[..] == TcpUpdateAddress(old(b[..]), h, was, now)
    ensures b[..h + 16] == old(b[..h + 16]) && b[h + 18..] == old(b[h + 18..])
    ensures !fullChecksum ==> (forall other: nat ::
      other > 0 && old(Get16(b[..], h + 16)) == PartialSum(other, was) ==>
        Get16(b[..], h + 16) == PartialSum(other, now))
  {
    ghost var s := b[..];
    var xsum := Get16(b[..], h + 16);
    if fullChecksum {
      xsum := Not16(xsum);
    }
    xsum := UpdateAddress(xsum, was, now);
    if fullChecksum {
      xsum := Not16(xsum);
    }
    WriteU16(b, h + 16, xsum);
    forall other: nat | !fullChecksum && other > 0 && Get16(s, h + 16) == PartialSum(other, was)
      ensures xsum == PartialSum(other, now)
    {
      UpdateWordsExact(other, was, now);
    }
  }

  lemma AddressFrame(s: seq<byte>, at: nat, addr: seq<byte>, txChecksumOffload: bool)
    requires IsTcp4(s) && at in {12, 16} && |addr| == 4
    ensures var q := SetAddress(s, at, addr);
      var r := if txChecksumOffload then q else TcpUpdateAddress(q, HeaderLength(s), s[at..at + 4], addr);
      Rewritten(s, r, txChecksumOffload) && TupleOf(r) == WithAddress(TupleOf(s), at, addr)
  {
    hide SetAddress;
    hide TcpUpdateAddress;
    hide Ipv4FromScratch;
    hide TcpFromScratch;
    AddressStep(s, at, addr);
  }

  /** One port of the tuple. */
  method RewritePort(b: array<byte>, at: nat, port: u16, txChecksumOffload: bool)
    requires IsTcp4(b[..]) && at in {0, 2}
    modifies b
    ensures Rewritten(old(b[..]), b[..], txChecksumOffload)
    ensures TupleOf(b[..]) == WithPort(old(TupleOf(b[..])), at, port)
  {
    hide Rewritten;
    hide TupleOf;
    hide WithPort;
    ghost var s := b[..];
    var h := HeaderLength(b[..]);
    PortFrame(s, at, port, txChecksumOffload);
    if txChecksumOffload {
      WriteU16(b, h + at, port);
    } else {
      SetPortWithChecksumUpdate(b, h, at, port);
    }
  }

  /** TCP.SetSourcePortWithChecksumUpdate and TCP.SetDestinationPortWithChecksumUpdate. */
  method SetPortWithChecksumUpdate(b: array<byte>, h: nat, at: nat, port: u16)
    requires h + 18 <= b.Length && at in {0, 2}
    modifies b
    ensures b[..] == TcpSetPort(old(b[..]), h, at, port)
  {
    var was := Get16(b[..], h + at);
    WriteU16(b, h + at, port);
    WriteU16(b, h + 16, Not16(Update16(Not16(Get16(b[..], h + 16)), was, port)));
  }

  lemma PortFrame(s: seq<byte>, at: nat, port: u16, txChecksumOffload: bool)
    requires IsTcp4(s) && at in {0, 2}
    ensures var h := HeaderLength(s);
      var r := if txChecksumOffload then Put16(s, h + at, port) else TcpSetPort(s, h, at, port);
      Rewritten(s, r, txChecksumOffload) && TupleOf(r) == WithPort(TupleOf(s), at, port)
  {
    hide TcpSetPort;
    hide Put16;
    hide TcpFromScratch;
    hide Ipv4FromScratch;
    hide Get16;
    var h := HeaderLength(s);
    var r := if txChecksumOffload then Put16(s, h + at, port) else TcpSetPort(s, h, at, port);
    PortStep(s, at, port);
    SameShape(s, r);
    ScratchFrame(s, r);
    PortTuple(s, r, at, port);
    hide TupleOf;
  }

  lemma PortTuple(s: seq<byte>, r: seq<byte>, at: nat, port: u16)
    requires IsTcp4(s) && IsTcp4(r) && |r| == |s| && HeaderLength(r) == HeaderLength(s) && at in {0, 2}
    requires var h := HeaderLength(s);
      && Get16(r, h + at) == port
      && (forall k :: 12 <= k < 20 ==> r[k] == s[k]) && r[h + 2 - at] == s[h + 2 - at] && r[h + 3 - at] == s[h + 3 - at]
    ensures TupleOf(r) == WithPort(TupleOf(s), at, port)
  {
    SameSlice(s, r, 12, 16);
    SameSlice(s, r, 16, 20);
    PortsRead(s, r, at, port);
    hide Get16;
  }

  lemma PortsRead(s: seq<byte>, r: seq<byte>, at: nat, port: u16)
    requires IsTcp4(s) && at in {0, 2} && |r| == |s|
    requires var h := HeaderLength(s);
      Get16(r, h + at) == port && r[h + 2 - at] == s[h + 2 - at] && r[h + 3 - at] == s[h + 3 - at]
    ensures var h := HeaderLength(s); Get16(r, h + 2 - at) == Get16(s, h + 2 - at)
  {
  }

  lemma ScratchFrame(s: seq<byte>, r: seq<byte>)
    requires IsTcp4(s) && |r| == |s| && forall k :: 0 <= k < HeaderLength(s) ==> r[k] == s[k]
    ensures Ipv4FromScratch(s) ==> Ipv4FromScratch(r)
  {
    if Ipv4FromScratch(s) {
      Ipv4Frame(s, r);
    }
  }

  /** Clearing the TCP checksum for the device to fill in. */
  method ClearChecksum(b: array<byte>)
    requires IsTcp4(b[..])
    modifies b
    ensures Rewritten(old(b[..]), b[..], true)
    ensures TupleOf(b[..]) == old(TupleOf(b[..])) && Get16(b[..], HeaderLength(b[..]) + 16) == 0
  {
    ghost var s := b[..];
    var h := HeaderLength(b[..]);
    WriteU16(b, h + 16, 0);
    ScratchFrame(s, b[..]);
    assert b[..][12..16] == s[12..16] && b[..][16..20] == s[16..20];
  }

  /**
  The packet carries the requested tuple and is otherwise untouched; an IPv4 checksum computed
  from scratch stays so, and a TCP checksum computed from scratch stays so, or is cleared when
  the device computes it.
  */
  method RewriteIPv4TCP(b: array<byte>, txChecksumOffload: bool,
                        newSource: seq<byte>, newSourcePort: u16, rewriteSourcePort: bool,
                        newDestination: seq<byte>, newDestinationPort: u16, rewriteDestinationPort: bool)
    requires IsTcp4(b[..]) && |newSource| == 4 && |newDestination| == 4
    modifies b
    ensures Rewritten(old(b[..]), b[..], txChecksumOffload)
    ensures TupleOf(b[..]) == Tuple(
      newSource, if rewriteSourcePort then newSourcePort else old(TupleOf(b[..])).sourcePort,
      newDestination, if rewriteDestinationPort then newDestinationPort else old(TupleOf(b[..])).destinationPort)
    ensures txChecksumOffload ==> Get16(b[..], HeaderLength(b[..]) + 16) == 0
  {
    ghost var s := b[..];
    RewriteAddress(b, 12, newSource, txChecksumOffload);
    ghost var q := b[..];
    RewriteAddress(b, 16, newDestination, txChecksumOffload);
    RewrittenTrans(s, q, b[..], txChecksumOffload);
    RewritePorts(b, txChecksumOffload, newSourcePort, rewriteSourcePort,
                 newDestinationPort, rewriteDestinationPort, s);
  }

  /** The second half of the rewrite; `s` is the packet before the first half. */
  method RewritePorts(b: array<byte>, txChecksumOffload: bool, newSourcePort: u16, rewriteSourcePort: bool,
                      newDestinationPort: u16, rewriteDestinationPort: bool, ghost s: seq<byte>)
    requires IsTcp4(s) && Rewritten(s, b[..], txChecksumOffload)
    modifies b
    ensures Rewritten(s, b[..], txChecksumOffload)
    ensures TupleOf(b[..]) == old(TupleOf(b[..])).(
      sourcePort := if rewriteSourcePort then newSourcePort else old(TupleOf(b[..])).sourcePort,
      destinationPort := if rewriteDestinationPort then newDestinationPort else old(TupleOf(b[..])).destinationPort)
    ensures txChecksumOffload ==> Get16(b[..], HeaderLength(b[..]) + 16) == 0
  {
    hide TupleOf;
    hide Ipv4FromScratch;
    hide TcpFromScratch;
    ghost var q := b[..];
    if rewriteSourcePort {
      RewritePort(b, 0, newSourcePort, txChecksumOffload);
      RewrittenTrans(s, q, b[..], txChecksumOffload);
    }
    q := b[..];
    if rewriteDestinationPort {
      RewritePort(b, 2, newDestinationPort, txChecksumOffload);
      RewrittenTrans(s, q, b[..], txChecksumOffload);
    }
    q := b[..];
    if txChecksumOffload {
      ClearChecksum(b);
      RewrittenTrans(s, q, b[..], txChecksumOffload);
    }
  }
}
