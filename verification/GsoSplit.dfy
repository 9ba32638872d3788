/** tun_offload.go: GSOSplit, writing segments into output buffers, the first of which may be the input. */
module GsoSplit {
  import opened Wrappers
  import opened Bytes
  import opened ByteArrays
  import opened OnesComplement
  import opened GvisorChecksum
  import opened HeaderChecksum
  import opened UdpHeader
  import opened GsoSpec
  import opened GsoProperties

  datatype SplitError =
    | ChecksumPastEnd | ShorterThanHeader | OutputTooSmall | HeaderBeforeChecksum
    | VersionMismatch | ShortIPHeader | ShortTCPHeader | TooManySegments

  /** Go's `(int, error)`. */
  datatype SplitResult = SplitResult(n: int, err: Option<SplitError>)

  /** Only bytes `o` to `o + n` differ. */
  ghost predicate OnlyWindow(s: seq<byte>, r: seq<byte>, o: nat, n: nat) {
    |r| == |s| && o + n <= |s| && r[..o] == s[..o] && r[o + n..] == s[o + n..]
  }

  lemma OnlyWindowTrans(s: seq<byte>, q: seq<byte>, r: seq<byte>, o: nat, n: nat, m: nat)
    requires n <= m && OnlyWindow(s, q, o, n) && OnlyWindow(q, r, o, m)
    ensures OnlyWindow(s, r, o, m)
  {
    assert q[o + m..] == q[o + n..][m - n..];
    assert s[o + m..] == s[o + n..][m - n..];
  }

  method PutWindow16(a: array<byte>, o: nat, n: nat, k: nat, v: u16)
    requires o + n <= a.Length && k + 2 <= n
    modifies a
    ensures a[o..o + n] == Put16(old(a[o..o + n]), k, v)
    ensures OnlyWindow(old(a[..]), a[..], o, n)
  {
    a[o + k] := v / 0x100;
    a[o + k + 1] := v % 0x100;
  }

  method PutWindow32(a: array<byte>, o: nat, n: nat, k: nat, v: u32)
    requires o + n <= a.Length && k + 4 <= n
    modifies a
    ensures a[o..o + n] == Put32(old(a[o..o + n]), k, v)
    ensures OnlyWindow(old(a[..]), a[..], o, n)
  {
    ghost var s := a[..];
    PutWindow16(a, o, n, k, v / 0x1_0000);
    ghost var q := a[..];
    PutWindow16(a, o, n, k + 2, v % 0x1_0000);
    OnlyWindowTrans(s, q, a[..], o, n, n);
  }

  method PutWindowByte(a: array<byte>, o: nat, n: nat, k: nat, v: byte)
    requires o + n <= a.Length && k < n
    modifies a
    ensures a[o..o + n] == old(a[o..o + n])[k := v]
    ensures OnlyWindow(old(a[..]), a[..], o, n)
  {
    a[o + k] := v;
  }

  /** The IP fields, written in place into the header window. */
  method WriteIpFields(a: array<byte>, o: nat, opts: GsoOptions, c: Common, i: nat, totalLen: nat)
    requires o + opts.hdrLen <= a.Length && (if c.v == 4 then 20 else 40) <= opts.csumStart <= opts.hdrLen <= totalLen
    modifies a
    ensures a[o..o + opts.hdrLen] == IpFields(old(a[o..o + opts.hdrLen]), opts, c, i, totalLen)
    ensures OnlyWindow(old(a[..]), a[..], o, opts.hdrLen)
  {
    if c.v == 4 {
      WriteIpv4Fields(a, o, opts, c, i, totalLen);
    } else {
      PutWindow16(a, o, opts.hdrLen, 4, (totalLen - opts.csumStart) % 0x1_0000);
    }
  }

  /** Identification, length and checksum of an IPv4 header, the checksum over the header with its field cleared. */
  method WriteIpv4Fields(a: array<byte>, o: nat, opts: GsoOptions, c: Common, i: nat, totalLen: nat)
    requires o + opts.hdrLen <= a.Length && 20 <= opts.csumStart <= opts.hdrLen <= totalLen && c.v == 4
    modifies a
    ensures a[o..o + opts.hdrLen] == IpFields(old(a[o..o + opts.hdrLen]), opts, c, i, totalLen)
    ensures OnlyWindow(old(a[..]), a[..], o, opts.hdrLen)
  {
    hide Rfc1071;
    hide Put16;
    hide Get16;
    hide OnlyWindow;
    hide Not16;
    var n := opts.hdrLen;
    ghost var s := a[..];
    WriteIdentification(a, o, n, i);
    ghost var q := a[..];
    WriteIpv4Length(a, o, n, totalLen);
    OnlyWindowTrans(s, q, a[..], o, n, n);
    q := a[..];
    WriteIpv4Checksum(a, o, n, opts.csumStart);
    OnlyWindowTrans(s, q, a[..], o, n, n);
  }

  /** The checksum field cleared and the length written. */
  method WriteIpv4Length(a: array<byte>, o: nat, n: nat, totalLen: nat)
    requires o + n <= a.Length && 20 <= n
    modifies a
    ensures a[o..o + n] == Put16(Put16(old(a[o..o + n]), 10, 0), 2, totalLen % 0x1_0000)
    ensures OnlyWindow(old(a[..]), a[..], o, n)
  {
    hide Put16;
    hide OnlyWindow;
    ghost var s := a[..];
    PutWindow16(a, o, n, 10, 0);
    ghost var q := a[..];
    PutWindow16(a, o, n, 2, totalLen % 0x1_0000);
    OnlyWindowTrans(s, q, a[..], o, n, n);
  }

  /** The complement of the sum of the first `len` bytes goes into the checksum field. */
  method WriteIpv4Checksum(a: array<byte>, o: nat, n: nat, len: nat)
    requires o + n <= a.Length && 20 <= len <= n
    modifies a
    ensures var h := old(a[o..o + n]); a[o..o + n] == Put16(h, 10, Not16(Rfc1071(h[..len], 0)))
    ensures OnlyWindow(old(a[..]), a[..], o, n)
  {
    hide Rfc1071;
    hide Put16;
    hide OnlyWindow;
    hide Not16;
    SubSlice(a, o, o + n, 0, len);
    PutWindow16(a, o, n, 10, Not16(Rfc1071(a[o..o + len], 0)));
  }

  method WriteIdentification(a: array<byte>, o: nat, n: nat, i: nat)
    requires o + n <= a.Length && 20 <= n
    modifies a
    ensures var h := old(a[o..o + n]);
      a[o..o + n] == if i > 0 then Put16(h, 4, (Get16(h, 4) + i) % 0x1_0000) else h
    ensures OnlyWindow(old(a[..]), a[..], o, n)
  {
    if i > 0 {
      PutWindow16(a, o, n, 4, (Get16(a[o..o + n], 4) + i) % 0x1_0000);
    }
  }

  method WriteTransportFields(a: array<byte>, o: nat, opts: GsoOptions, c: Common, i: nat, dataLen: nat, last: bool)
    requires o + opts.hdrLen <= a.Length && opts.csumStart + (if IsTcp(opts) then 20 else 8) <= opts.hdrLen
    modifies a
    ensures a[o..o + opts.hdrLen] == TransportFields(old(a[o..o + opts.hdrLen]), opts, c, i, dataLen, last)
    ensures OnlyWindow(old(a[..]), a[..], o, opts.hdrLen)
  {
    var n := opts.hdrLen;
    if IsTcp(opts) {
      ghost var s := a[..];
      PutWindow32(a, o, n, opts.csumStart + 4, SeqOf(opts, c, i));
      ghost var q := a[..];
      var tcpFlags := c.flags;
      if !last {
        tcpFlags := WithoutFinPsh(tcpFlags);
      }
      PutWindowByte(a, o, n, opts.csumStart + TCP_FLAGS_OFFSET, tcpFlags);
      OnlyWindowTrans(s, q, a[..], o, n, n);
    } else {
      PutWindow16(a, o, n, opts.csumStart + 4, (dataLen + (opts.hdrLen - opts.csumStart)) % 0x1_0000);
    }
  }

  method WriteTransportChecksum(a: array<byte>, o: nat, n: nat, opts: GsoOptions, c: Common)
    requires o + n <= a.Length && opts.csumStart + opts.csumOffset + 2 <= n
    modifies a
    ensures a[o..o + n] == WithTransportChecksum(old(a[o..o + n]), opts, c)
    ensures OnlyWindow(old(a[..]), a[..], o, n)
  {
    hide Rfc1071;
    hide Put16;
    hide OnlyWindow;
    hide Not16;
    hide Combine;
    hide NormalizeUDPChecksum;
    ghost var s := a[..];
    var at := opts.csumStart + opts.csumOffset;
    PutWindow16(a, o, n, at, 0);
    ghost var q := a[..];
    assert a[o..o + n][opts.csumStart..] == a[o + opts.csumStart..o + n];
    var x := Not16(Rfc1071(a[o + opts.csumStart..o + n], Combine(c.pseudo, (n - opts.csumStart) % 0x1_0000)));
    PutWindow16(a, o, n, at, if IsTcp(opts) then x else NormalizeUDPChecksum(x));
    OnlyWindowTrans(s, q, a[..], o, n, n);
  }

  /** `copy` into a window, from a source read before the write. */
  method CopyWindow(a: array<byte>, o: nat, s: seq<byte>)
    requires o + |s| <= a.Length
    modifies a
    ensures a[o..o + |s|] == s
    ensures OnlyWindow(old(a[..]), a[..], o, |s|)
  {
    WriteBytes(a, o, s);
  }

  /**
  One iteration of the split.  The output is either another buffer than the input, or the input
  itself, in which case header and payload already lie where they are copied to.
  */
  method WriteSegment(src: array<byte>, inOff: nat, dataAt: nat, dataEnd: nat, out: array<byte>, o: nat,
                      opts: GsoOptions, c: Common, i: nat, last: bool)
    requires opts.hdrLen <= dataAt <= dataEnd && inOff + dataEnd <= src.Length
    requires o + opts.hdrLen + (dataEnd - dataAt) <= out.Length
    requires src == out ==> inOff == o && dataAt == opts.hdrLen
    requires (if c.v == 4 then 20 else 40) <= opts.csumStart
    requires opts.csumStart + (if IsTcp(opts) then 20 else 8) <= opts.hdrLen
    requires opts.csumStart + opts.csumOffset + 2 <= opts.hdrLen
    modifies out
    ensures var total := opts.hdrLen + (dataEnd - dataAt);
      && out[o..o + total] == Build(old(src[inOff..inOff + opts.hdrLen]), old(src[inOff + dataAt..inOff + dataEnd]),
                                    opts, c, i, last)
      && OnlyWindow(old(out[..]), out[..], o, total)
  {
    hide IpFields;
    hide TransportFields;
    hide WithTransportChecksum;
    hide OnlyWindow;
    var n, dataLen := opts.hdrLen, dataEnd - dataAt;
    ghost var s := out[..];
    WriteHeader(src, inOff, out, o, opts, c, i, dataLen, last);
    ghost var q := out[..];
    if src == out {
      PayloadUntouched(s, q, o, n, dataLen);
      assert s[o + n..o + n + dataLen] == old(src[inOff + dataAt..inOff + dataEnd]);
      assert q[o + n..o + n + dataLen] == src[inOff + dataAt..inOff + dataEnd];
    }
    WritePayload(out, o, n, src[inOff + dataAt..inOff + dataEnd], opts, c, s);
  }

  /** Payload behind the header, then the checksum over both; `s` is the buffer before the header was written. */
  method WritePayload(out: array<byte>, o: nat, n: nat, payload: seq<byte>, opts: GsoOptions, c: Common,
                      ghost s: seq<byte>)
    requires o + n + |payload| <= out.Length && opts.csumStart + opts.csumOffset + 2 <= n
    requires OnlyWindow(s, out[..], o, n)
    modifies out
    ensures out[o..o + n + |payload|] == WithTransportChecksum(old(out[o..o + n]) + payload, opts, c)
    ensures OnlyWindow(s, out[..], o, n + |payload|)
  {
    hide WithTransportChecksum;
    hide OnlyWindow;
    ghost var q := out[..];
    assert q[o..o + n] == out[o..o + n];
    CopyWindow(out, o + n, payload);
    ghost var r := out[..];
    WindowsJoin(s, q, r, o, n, |payload|);
    assert r[o + n..o + n + |payload|] == out[o + n..o + n + |payload|];
    assert r[o..o + n + |payload|] == out[o..o + n + |payload|];
    WriteTransportChecksum(out, o, n + |payload|, opts, c);
    OnlyWindowTrans(s, r, out[..], o, n + |payload|, n + |payload|);
  }

  /** The header of a segment, copied from the input and adjusted. */
  method WriteHeader(src: array<byte>, inOff: nat, out: array<byte>, o: nat,
                     opts: GsoOptions, c: Common, i: nat, dataLen: nat, last: bool)
    requires inOff + opts.hdrLen <= src.Length && o + opts.hdrLen <= out.Length
    requires (if c.v == 4 then 20 else 40) <= opts.csumStart
    requires opts.csumStart + (if IsTcp(opts) then 20 else 8) <= opts.hdrLen
    modifies out
    ensures out[o..o + opts.hdrLen] == TransportFields(
      IpFields(old(src[inOff..inOff + opts.hdrLen]), opts, c, i, opts.hdrLen + dataLen), opts, c, i, dataLen, last)
    ensures OnlyWindow(old(out[..]), out[..], o, opts.hdrLen)
  {
    hide IpFields;
    hide TransportFields;
    hide OnlyWindow;
    var n := opts.hdrLen;
    ghost var s := out[..];
    CopyWindow(out, o, src[inOff..inOff + n]);
    ghost var q := out[..];
    WriteIpFields(out, o, opts, c, i, n + dataLen);
    OnlyWindowTrans(s, q, out[..], o, n, n);
    q := out[..];
    WriteTransportFields(out, o, opts, c, i, dataLen, last);
    OnlyWindowTrans(s, q, out[..], o, n, n);
  }

  lemma PayloadUntouched(s: seq<byte>, r: seq<byte>, o: nat, n: nat, m: nat)
    requires OnlyWindow(s, r, o, n) && o + n + m <= |s|
    ensures r[o + n..o + n + m] == s[o + n..o + n + m]
  {
    assert r[o + n..][..m] == r[o + n..o + n + m] && s[o + n..][..m] == s[o + n..o + n + m];
  }

  lemma WindowsJoin(s: seq<byte>, q: seq<byte>, r: seq<byte>, o: nat, n: nat, m: nat)
    requires OnlyWindow(s, q, o, n) && OnlyWindow(q, r, o + n, m)
    ensures OnlyWindow(s, r, o, n + m)
    ensures r[o..o + n + m] == q[o..o + n] + r[o + n..o + n + m]
  {
    assert r[o..o + n] == r[..o + n][o..] == q[..o + n][o..] == q[o..o + n];
    assert r[..o] == r[..o + n][..o] && q[..o] == q[..o + n][..o];
    assert q[o + n + m..] == q[o + n..][m..] && s[o + n + m..] == s[o + n..][m..];
  }

  /** What the checks before the split decide. */
  datatype Decision = Fail(error: SplitError) | Single | Many

  function Decide(s: seq<byte>, o: GsoOptions, room: nat): Decision {
    if o.csumStart + o.csumOffset + 1 >= |s| then Fail(ChecksumPastEnd)
    else if |s| < o.hdrLen then Fail(ShorterThanHeader)
    else if o.gsoType == GSONone || |s| - o.hdrLen < o.gsoSize then
      if |s| > room then Fail(OutputTooSmall) else Single
    else if o.hdrLen < o.csumStart then Fail(HeaderBeforeChecksum)
    else if Version(s) == 4 then
      if o.gsoType != GSOTCPv4 && o.gsoType != GSOUDPL4 then Fail(VersionMismatch)
      else if |s| < 20 then Fail(ShortIPHeader)
      else if IsTcp(o) && |s| < o.csumStart + 20 then Fail(ShortTCPHeader)
      else Many
    else if Version(s) == 6 then
      if o.gsoType != GSOTCPv6 && o.gsoType != GSOUDPL4 then Fail(VersionMismatch)
      else if |s| < 40 then Fail(ShortIPHeader)
      else if IsTcp(o) && |s| < o.csumStart + 20 then Fail(ShortTCPHeader)
      else Many
    else Fail(VersionMismatch)
  }

  /** A packet that is passed on whole, its checksum completed when the header asks for it. */
  function Completion(s: seq<byte>, o: GsoOptions): (r: seq<byte>)
    requires o.csumStart + o.csumOffset + 1 < |s|
    ensures |r| == |s|
  {
    if o.needsCsum then
      var at := o.csumStart + o.csumOffset;
      var z := Put16(s, at, 0);
      var x := Not16(Rfc1071(z[o.csumStart..], Get16(s, at)));
      Put16(z, at, if o.csumOffset == 6 then NormalizeUDPChecksum(x) else x)
    else s
  }

  /** Which checks a packet passes, in no order: it is split, or passed on whole, exactly if all of these hold. */
  lemma DecideExact(s: seq<byte>, o: GsoOptions, room: nat)
    ensures Decide(s, o, room) == Many <==>
      && o.csumStart + o.csumOffset + 2 <= |s| && o.csumStart <= o.hdrLen && o.hdrLen + o.gsoSize <= |s|
      && (|| (s[0] / 0x10 == 4 && |s| >= 20 && (o.gsoType == GSOTCPv4 || o.gsoType == GSOUDPL4))
          || (s[0] / 0x10 == 6 && |s| >= 40 && (o.gsoType == GSOTCPv6 || o.gsoType == GSOUDPL4)))
      && (o.gsoType != GSOUDPL4 ==> o.csumStart + 20 <= |s|)
    ensures Decide(s, o, room) == Single <==>
      && o.csumStart + o.csumOffset + 2 <= |s| && o.hdrLen <= |s| <= room
      && (o.gsoType == GSONone || |s| < o.hdrLen + o.gsoSize)
    ensures Decide(s, o, room) == Fail(ChecksumPastEnd) <==> |s| < o.csumStart + o.csumOffset + 2
    ensures Decide(s, o, room) == Fail(OutputTooSmall) <==>
      && o.csumStart + o.csumOffset + 2 <= |s| && o.hdrLen <= |s| && room < |s|
      && (o.gsoType == GSONone || |s| < o.hdrLen + o.gsoSize)
    ensures Decide(s, o, room) == Fail(ShorterThanHeader) <==>
      o.csumStart + o.csumOffset + 2 <= |s| < o.hdrLen
  {
  }

  lemma CompletionIs(s: seq<byte>, o: GsoOptions)
    requires o.csumStart + o.csumOffset + 1 < |s| && o.needsCsum
    ensures var at := o.csumStart + o.csumOffset;
      var y := Not16(Rfc1071(Put16(s, at, 0)[o.csumStart..], Get16(s, at)));
      Completion(s, o) == Put16(Put16(s, at, 0), at, if o.csumOffset == 6 then NormalizeUDPChecksum(y) else y)
  {
  }

  /**
  A packet that comes with the sum of its pseudo-header in its checksum field leaves with a valid
  checksum, which is never the zero marker of UDP; nothing else is changed.  Without a request the
  packet is left alone.
  */
  lemma CompletionValid(s: seq<byte>, o: GsoOptions, proto: byte, v: int)
    requires o.csumStart + o.csumOffset + 1 < |s| && o.csumOffset % 2 == 0 && proto > 0
    requires AddrAt(v) + 2 * AddrLen(v) <= o.csumStart
    ensures var r, at := Completion(s, o), o.csumStart + o.csumOffset;
      && (forall k :: 0 <= k < |s| && k != at && k != at + 1 ==> r[k] == s[k])
      && (!o.needsCsum ==> r == s)
      && (o.needsCsum && o.csumOffset == 6 ==> Get16(r, at) != 0)
      && (o.needsCsum && Get16(s, at) == PseudoOf(s, o.csumStart, proto, v) ==>
            ChecksumValid(r, o.csumStart, proto, v))
  {
    hide Rfc1071;
    hide Put16;
    hide Not16;
    hide Get16;
    hide PseudoOf;
    hide ChecksumValid;
    if o.needsCsum {
      var at := o.csumStart + o.csumOffset;
      var z, initial := Put16(s, at, 0), Get16(s, at);
      var zs := z[o.csumStart..];
      CompletionIs(s, o);
      hide Completion;
      var y := Not16(Rfc1071(zs, initial));
      var x := if o.csumOffset == 6 then NormalizeUDPChecksum(y) else y;
      var r := Completion(s, o);
      PutBehind(s, o.csumStart, o.csumOffset, 0);
      PutBehind(z, o.csumStart, o.csumOffset, x);
      if initial == PseudoOf(s, o.csumStart, proto, v) {
        PseudoPositive(s, o.csumStart, proto, v);
        CompletedSum(zs, o.csumOffset, initial, o.csumOffset == 6, x);
        PseudoKept(s, r, o.csumStart, proto, v);
        ChecksumValidIs(r, o.csumStart, proto, v);
      }
    }
  }

  /** The pseudo-header sum of a packet whose transport part starts at `start`. */
  function PseudoOf(s: seq<byte>, start: nat, proto: byte, v: int): u16
    requires AddrAt(v) + 2 * AddrLen(v) <= start <= |s|
  {
    var a, n := AddrAt(v), AddrLen(v);
    PseudoHeaderChecksum(proto, s[a..a + n], s[a + n..a + 2 * n], (|s| - start) % 0x1_0000)
  }

  lemma PseudoPositive(s: seq<byte>, start: nat, proto: byte, v: int)
    requires AddrAt(v) + 2 * AddrLen(v) <= start <= |s| && proto > 0
    ensures PseudoOf(s, start, proto, v) > 0
  {
    hide PseudoHeaderChecksum;
    hide W;
    var a, n := AddrAt(v), AddrLen(v);
    PseudoHeaderTotal(proto, s[a..a + n], s[a + n..a + 2 * n], (|s| - start) % 0x1_0000);
  }

  lemma PseudoKept(s: seq<byte>, r: seq<byte>, start: nat, proto: byte, v: int)
    requires AddrAt(v) + 2 * AddrLen(v) <= start <= |s| == |r| && forall k :: 0 <= k < start ==> r[k] == s[k]
    ensures PseudoOf(r, start, proto, v) == PseudoOf(s, start, proto, v)
  {
    hide PseudoHeaderChecksum;
    var a, n := AddrAt(v), AddrLen(v);
    assert r[a..a + n] == s[a..a + n] && r[a + n..a + 2 * n] == s[a + n..a + 2 * n];
  }

  lemma ChecksumValidIs(r: seq<byte>, start: nat, proto: byte, v: int)
    requires AddrAt(v) + 2 * AddrLen(v) <= start <= |r|
    ensures ChecksumValid(r, start, proto, v) <==> Rfc1071(r[start..], PseudoOf(r, start, proto, v)) == 0xFFFF
  {
    hide Rfc1071;
    hide PseudoHeaderChecksum;
  }

  /** Output buffer `j` holds segment `j`. */
  ghost predicate Holds(outBufs: seq<array<byte>>, sizes: array<int>, off: nat, s: seq<byte>, o: GsoOptions, j: nat)
    requires WellFormed(s, o) && j < |outBufs| && j < sizes.Length
    reads outBufs[j], sizes
  {
    && DataAt(o, j) <= |s|
    && sizes[j] == |Segment(s, o, j)|
    && off + sizes[j] <= outBufs[j].Length
    && outBufs[j][off..off + sizes[j]] == Segment(s, o, j)
  }

  /** Output buffers are distinct, and the input is none of them unless it starts the first one. */
  ghost predicate Separate(src: array<byte>, inOff: nat, outBufs: seq<array<byte>>, off: nat) {
    && (forall j, k :: 0 <= j < k < |outBufs| ==> outBufs[j] != outBufs[k])
    && (forall j :: 0 <= j < |outBufs| && outBufs[j] == src ==> j == 0 && inOff == off)
  }

  /** The input still reads as `s` wherever later segments look. */
  ghost predicate StillReads(h: seq<byte>, rest: seq<byte>, s: seq<byte>, o: GsoOptions)
    requires WellFormed(s, o)
  {
    SameOutside(s[..o.hdrLen], h, o, Version(s)) && rest == s[o.hdrLen..]
  }

  /** Every segment is built from the original superpacket, even after the first one overwrote it. */
  lemma StillBuilds(h: seq<byte>, rest: seq<byte>, s: seq<byte>, o: GsoOptions, i: nat)
    requires WellFormed(s, o) && StillReads(h, rest, s, o) && o.hdrLen <= DataAt(o, i) <= |s|
    ensures |h| == o.hdrLen && Shape(h, o, CommonOf(s, o).v)
    ensures Build(h, Payload(s, o, i), o, CommonOf(s, o), i, DataEnd(s, o, i) == |s|) == Segment(s, o, i)
  {
    CommonVersion(s, o);
    hide CommonOf;
    hide Build;
    hide DataAt;
    hide DataEnd;
    BuildAbsorb(s[..o.hdrLen], h, Payload(s, o, i), o, CommonOf(s, o), i, DataEnd(s, o, i) == |s|);
  }

  lemma PayloadInRest(s: seq<byte>, o: GsoOptions, i: nat)
    requires o.hdrLen <= DataAt(o, i) <= |s|
    ensures s[o.hdrLen..][DataAt(o, i) - o.hdrLen..DataEnd(s, o, i) - o.hdrLen] == Payload(s, o, i)
  {
    hide DataAt;
  }

  lemma DataAtLow(o: GsoOptions, i: nat)
    ensures o.hdrLen <= DataAt(o, i)
    ensures DataAt(o, 0) == o.hdrLen
  {
  }

  lemma OverwriteFront(m: seq<byte>, m': seq<byte>, off: nat, g: seq<byte>, n: nat, s: seq<byte>)
    requires n <= |g| <= |s| && off + |s| <= |m|
    requires m[off + n..off + |s|] == s[n..] && g[n..] == s[n..|g|]
    requires OnlyWindow(m, m', off, |g|) && m'[off..off + |g|] == g
    ensures m'[off..off + n] == g[..n] && m'[off + n..off + |s|] == s[n..]
  {
    var e := |g|;
    assert m'[off..off + n] == m'[off..off + e][..n];
    assert m'[off + n..off + e] == m'[off..off + e][n..];
    assert m'[off + e..off + |s|] == m'[off + e..][..|s| - e];
    assert m[off + e..off + |s|] == m[off + e..][..|s| - e];
    assert m[off + e..off + |s|] == m[off + n..off + |s|][e - n..];
    assert s[n..][e - n..] == s[e..];
    assert m'[off + n..off + |s|] == m'[off + n..off + e] + m'[off + e..off + |s|];
    assert s[n..] == s[n..e] + s[e..];
  }

  /** The first segment, written over the input, leaves it readable. */
  lemma FirstOverwrites(m: seq<byte>, m': seq<byte>, off: nat, s: seq<byte>, o: GsoOptions)
    requires WellFormed(s, o) && off + |s| <= |m| && DataAt(o, 0) <= |s|
    requires m[off + o.hdrLen..off + |s|] == s[o.hdrLen..]
    requires OnlyWindow(m, m', off, |Segment(s, o, 0)|)
    requires m'[off..off + |Segment(s, o, 0)|] == Segment(s, o, 0)
    ensures StillReads(m'[off..off + o.hdrLen], m'[off + o.hdrLen..off + |s|], s, o)
  {
    hide Segment;
    hide OnlyWindow;
    hide DataAt;
    hide SameOutside;
    FirstSegmentShape(s, o);
    OverwriteFront(m, m', off, Segment(s, o, 0), o.hdrLen, s);
  }

  lemma FirstSegmentShape(s: seq<byte>, o: GsoOptions)
    requires WellFormed(s, o) && DataAt(o, 0) <= |s|
    ensures var g := Segment(s, o, 0);
      && o.hdrLen <= |g| <= |s| && g[o.hdrLen..] == s[o.hdrLen..|g|]
      && SameOutside(s[..o.hdrLen], g[..o.hdrLen], o, Version(s))
  {
    hide CommonOf;
    hide Build;
    hide DataAt;
    hide Overwritten;
    CommonVersion(s, o);
    DataAtLow(o, 0);
    BuildKeeps(s[..o.hdrLen], Payload(s, o, 0), o, CommonOf(s, o), 0, DataEnd(s, o, 0) == |s|);
  }

  /** The loop of the split. */
  method SplitMany(src: array<byte>, inOff: nat, inLen: nat, o: GsoOptions,
                   outBufs: seq<array<byte>>, sizes: array<int>, off: nat) returns (r: SplitResult)
    requires inOff + inLen <= src.Length && WellFormed(src[inOff..inOff + inLen], o)
    requires Separate(src, inOff, outBufs, off) && |outBufs| <= sizes.Length
    requires forall j :: 0 <= j < |outBufs| ==> off + o.hdrLen + o.gsoSize <= outBufs[j].Length
    modifies outBufs, sizes
    ensures Finished(old(src[inOff..inOff + inLen]), o, outBufs, sizes, off, r)
  {
    ghost var s := src[inOff..inOff + inLen];
    var c := CommonOf(src[inOff..inOff + inLen], o);
    var i, nextDataAt: nat := 0, o.hdrLen;
    DataAtLow(o, 0);
    while nextDataAt < inLen
      invariant 0 <= i <= |outBufs| && nextDataAt == DataAt(o, i)
      invariant i > 0 ==> DataAt(o, i - 1) < inLen
      invariant StillReads(src[inOff..inOff + o.hdrLen], src[inOff + o.hdrLen..inOff + inLen], s, o)
      invariant forall j :: 0 <= j < i ==> Holds(outBufs, sizes, off, s, o, j)
      decreases |outBufs| - i, 0
    {
      if i == |outBufs| {
        return SplitResult(i - 1, Some(TooManySegments));
      }
      SplitOne(src, inOff, inLen, o, outBufs, sizes, off, c, i, nextDataAt, s);
      DataAtStep(o, i);
      i, nextDataAt := i + 1, nextDataAt + o.gsoSize;
    }
    r := SplitResult(i, None);
  }

  /** How the loop ends: all segments written, or as many as there are buffers. */
  ghost predicate Finished(s: seq<byte>, o: GsoOptions, outBufs: seq<array<byte>>, sizes: array<int>, off: nat,
                           r: SplitResult)
    requires WellFormed(s, o) && |outBufs| <= sizes.Length
    reads outBufs, sizes
  {
    if r.err == None then
      && 0 <= r.n <= |outBufs|
      && DataAt(o, r.n) >= |s| && (r.n > 0 ==> DataAt(o, r.n - 1) < |s|)
      && (forall j :: 0 <= j < r.n ==> Holds(outBufs, sizes, off, s, o, j))
    else
      && r == SplitResult(|outBufs| - 1, Some(TooManySegments))
      && DataAt(o, |outBufs|) < |s|
      && (forall j :: 0 <= j < |outBufs| ==> Holds(outBufs, sizes, off, s, o, j))
  }

  /** One pass through the loop body. */
  method SplitOne(src: array<byte>, inOff: nat, inLen: nat, o: GsoOptions, outBufs: seq<array<byte>>,
                  sizes: array<int>, off: nat, c: Common, i: nat, dataAt: nat, ghost s: seq<byte>)
    requires inOff + inLen <= src.Length && |s| == inLen && WellFormed(s, o) && c == CommonOf(s, o)
    requires Separate(src, inOff, outBufs, off) && |outBufs| <= sizes.Length
    requires forall j :: 0 <= j < |outBufs| ==> off + o.hdrLen + o.gsoSize <= outBufs[j].Length
    requires i < |outBufs| && dataAt == DataAt(o, i) < inLen
    requires StillReads(src[inOff..inOff + o.hdrLen], src[inOff + o.hdrLen..inOff + inLen], s, o)
    requires forall j :: 0 <= j < i ==> Holds(outBufs, sizes, off, s, o, j)
    modifies outBufs[i], sizes
    ensures StillReads(src[inOff..inOff + o.hdrLen], src[inOff + o.hdrLen..inOff + inLen], s, o)
    ensures forall j :: 0 <= j <= i ==> Holds(outBufs, sizes, off, s, o, j)
  {
    hide CommonOf;
    hide Segment;
    hide DataAt;
    hide WellFormed;
    hide StillReads;
    var dataEnd := dataAt + o.gsoSize;
    if dataEnd > inLen {
      dataEnd := inLen;
    }
    sizes[i] := o.hdrLen + (dataEnd - dataAt);
    WriteOne(src, inOff, inLen, o, outBufs[i], off, c, i, dataAt, dataEnd, s);
    forall j | 0 <= j < i ensures Holds(outBufs, sizes, off, s, o, j) {
      assert outBufs[j] != outBufs[i];
      assert old(Holds(outBufs, sizes, off, s, o, j));
      assert sizes[j] == old(sizes[j]) && outBufs[j][..] == old(outBufs[j][..]);
      assert outBufs[j][off..off + sizes[j]] == outBufs[j][..][off..off + sizes[j]];
    }
  }

  /** The first segment, written over the start of the input, leaves the input readable. */
  lemma ReadsAfterFirst(m: seq<byte>, src: array<byte>, off: nat, s: seq<byte>, o: GsoOptions)
    requires WellFormed(s, o) && |m| == src.Length && off + |s| <= |m| && DataAt(o, 0) <= |s|
    requires m[off + o.hdrLen..off + |s|] == s[o.hdrLen..]
    requires off + |Segment(s, o, 0)| <= src.Length && OnlyWindow(m, src[..], off, |Segment(s, o, 0)|)
    requires src[off..off + |Segment(s, o, 0)|] == Segment(s, o, 0)
    ensures StillReads(src[off..off + o.hdrLen], src[off + o.hdrLen..off + |s|], s, o)
  {
    hide Segment;
    hide OnlyWindow;
    hide StillReads;
    hide DataAt;
    hide WellFormed;
    var now, n := src[..], |Segment(s, o, 0)|;
    assert now[off..off + n] == src[off..off + n];
    WellFormedFits(s, o);
    FirstOverwrites(m, now, off, s, o);
    assert now[off..off + o.hdrLen] == src[off..off + o.hdrLen];
    assert now[off + o.hdrLen..off + |s|] == src[off + o.hdrLen..off + |s|];
  }

  lemma WellFormedFits(s: seq<byte>, o: GsoOptions)
    requires WellFormed(s, o)
    ensures o.hdrLen <= |s|
  {
  }

  lemma SubSlice(a: array<byte>, x: nat, y: nat, p: nat, q: nat)
    requires x <= y <= a.Length && p <= q <= y - x
    ensures a[x..y][p..q] == a[x + p..x + q]
  {
    var s := a[..];
    assert a[x..y] == s[x..y] && a[x + p..x + q] == s[x + p..x + q];
    SliceSlice(s, x, y, p, q);
  }

  /** Segment `i` in its buffer; the input stays readable even when it is that buffer. */
  method WriteOne(src: array<byte>, inOff: nat, inLen: nat, o: GsoOptions, out: array<byte>, off: nat,
                  c: Common, i: nat, dataAt: nat, dataEnd: nat, ghost s: seq<byte>)
    requires inOff + inLen <= src.Length && |s| == inLen && WellFormed(s, o) && c == CommonOf(s, o)
    requires off + o.hdrLen + o.gsoSize <= out.Length && (src == out ==> i == 0 && inOff == off)
    requires dataAt == DataAt(o, i) < inLen && dataEnd == DataEnd(s, o, i)
    requires StillReads(src[inOff..inOff + o.hdrLen], src[inOff + o.hdrLen..inOff + inLen], s, o)
    modifies out
    ensures |Segment(s, o, i)| == o.hdrLen + (dataEnd - dataAt)
    ensures out[off..off + |Segment(s, o, i)|] == Segment(s, o, i)
    ensures StillReads(src[inOff..inOff + o.hdrLen], src[inOff + o.hdrLen..inOff + inLen], s, o)
  {
    hide CommonOf;
    hide Build;
    hide Segment;
    hide DataAt;
    hide DataEnd;
    hide OnlyWindow;
    hide WellFormed;
    ghost var m := src[..];
    SegmentReady(src, inOff, inLen, o, i, s);
    assert m[inOff + o.hdrLen..inOff + inLen] == src[inOff + o.hdrLen..inOff + inLen] == s[o.hdrLen..];
    hide StillReads;
    WriteSegment(src, inOff, dataAt, dataEnd, out, off, o, c, i, dataEnd == inLen);
    if out == src {
      ReadsAfterFirst(m, src, off, s, o);
    }
  }

  /** What is read for segment `i` builds it. */
  lemma SegmentReady(src: array<byte>, inOff: nat, inLen: nat, o: GsoOptions, i: nat, s: seq<byte>)
    requires inOff + inLen <= src.Length && |s| == inLen && WellFormed(s, o) && DataAt(o, i) < inLen
    requires StillReads(src[inOff..inOff + o.hdrLen], src[inOff + o.hdrLen..inOff + inLen], s, o)
    ensures var lo, hi, c := DataAt(o, i), DataEnd(s, o, i), CommonOf(s, o);
      && o.hdrLen <= lo <= hi <= inLen && hi - lo <= o.gsoSize && DataAt(o, 0) == o.hdrLen <= inLen
      && Shape(s[..o.hdrLen], o, c.v)
      && Build(src[inOff..inOff + o.hdrLen], src[inOff + lo..inOff + hi], o, c, i, hi == inLen) == Segment(s, o, i)
      && |Segment(s, o, i)| == o.hdrLen + (hi - lo)
  {
    hide CommonOf;
    hide Build;
    hide Segment;
    hide DataAt;
    DataAtLow(o, i);
    StillBuilds(src[inOff..inOff + o.hdrLen], src[inOff + o.hdrLen..inOff + inLen], s, o, i);
    PayloadInRest(s, o, i);
    SubSlice(src, inOff + o.hdrLen, inOff + inLen, DataAt(o, i) - o.hdrLen, DataEnd(s, o, i) - o.hdrLen);
  }

  /**
  Each failed check is reported with nothing written; a packet passed on whole is copied with its
  checksum completed; a superpacket is split into its segments, or into as many as there are
  buffers.  The outcome is the same whether or not the input starts the first output buffer.
  */
  method GSOSplit(src: array<byte>, inOff: nat, inLen: nat, o: GsoOptions,
                  outBufs: seq<array<byte>>, sizes: array<int>, off: nat) returns (r: SplitResult)
    requires inOff + inLen <= src.Length
    requires outBufs != [] && |outBufs| <= sizes.Length && Separate(src, inOff, outBufs, off)
    requires forall j :: 0 <= j < |outBufs| ==> off <= outBufs[j].Length
    requires Decide(src[inOff..inOff + inLen], o, outBufs[0].Length - off) == Many ==>
      && WellFormed(src[inOff..inOff + inLen], o)
      && (forall j :: 0 <= j < |outBufs| ==> off + o.hdrLen + o.gsoSize <= outBufs[j].Length)
    modifies src, outBufs, sizes
    ensures var s := old(src[inOff..inOff + inLen]);
      match Decide(s, o, outBufs[0].Length - off)
      case Fail(e) => r == SplitResult(0, Some(e)) && unchanged(src, sizes) && unchanged(outBufs)
      case Single => r == SplitResult(1, None) && sizes[0] == inLen && outBufs[0][off..off + inLen] == Completion(s, o)
      case Many => Finished(s, o, outBufs, sizes, off, r)
  {
    hide Rfc1071;
    hide WellFormed;
    hide Finished;
    ghost var s := src[inOff..inOff + inLen];
    var d := Decide(src[inOff..inOff + inLen], o, outBufs[0].Length - off);
    match d {
      case Fail(e) =>
        r := SplitResult(0, Some(e));
      case Single =>
        CompleteAndCopy(src, inOff, inLen, o, outBufs[0], off);
        sizes[0] := inLen;
        r := SplitResult(1, None);
      case Many =>
        r := SplitMany(src, inOff, inLen, o, outBufs, sizes, off);
    }
  }

  /** The single-packet path: the checksum is completed in the input, which is then copied out. */
  method CompleteAndCopy(src: array<byte>, inOff: nat, inLen: nat, o: GsoOptions, out: array<byte>, off: nat)
    requires inOff + inLen <= src.Length && off + inLen <= out.Length && o.csumStart + o.csumOffset + 1 < inLen
    modifies src, out
    ensures out[off..off + inLen] == Completion(old(src[inOff..inOff + inLen]), o)
  {
    hide Rfc1071;
    hide Put16;
    hide OnlyWindow;
    hide Not16;
    hide Get16;
    hide NormalizeUDPChecksum;
    if o.needsCsum {
      var at := o.csumStart + o.csumOffset;
      var initial := Get16(src[inOff..inOff + inLen], at);
      PutWindow16(src, inOff, inLen, at, 0);
      assert src[inOff..inOff + inLen][o.csumStart..] == src[inOff + o.csumStart..inOff + inLen];
      var csum := Not16(Rfc1071(src[inOff + o.csumStart..inOff + inLen], initial));
      if o.csumOffset == 6 {
        csum := NormalizeUDPChecksum(csum);
      }
      PutWindow16(src, inOff, inLen, at, csum);
    }
    CopyWindow(out, off, src[inOff..inOff + inLen]);
  }
}
