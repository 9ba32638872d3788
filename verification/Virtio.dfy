/** The virtio-net header (section 5.1.6 of the VIRTIO specification) and handleVirtioRead. */
module Virtio {
  import opened Wrappers
  import opened Bytes
  import opened NativeWords
  import opened GsoSpec
  import opened GsoSplit

  datatype VirtioHdr = VirtioHdr(
    flags: byte, gsoType: byte, hdrLen: u16, gsoSize: u16, csumStart: u16, csumOffset: u16)

  const HDR_LEN := 10
  const F_NEEDS_CSUM: byte := 1
  const GSO_NONE: byte := 0
  const GSO_TCPV4: byte := 1
  const GSO_TCPV6: byte := 4
  const GSO_UDP_L4: byte := 5

  const ZERO_HDR := VirtioHdr(0, GSO_NONE, 0, 0, 0, 0)

  /** Two bytes in the byte order of the processor. */
  function NativeBytes(v: u16, le: bool): (r: seq<byte>)
    ensures |r| == 2 && Load16(r, 0, le) == v
  {
    if le then [v % 0x100, v / 0x100] else [v / 0x100, v % 0x100]
  }

  function Encode(h: VirtioHdr, le: bool): (r: seq<byte>)
    ensures |r| == HDR_LEN
  {
    [h.flags, h.gsoType] + NativeBytes(h.hdrLen, le) + NativeBytes(h.gsoSize, le)
      + NativeBytes(h.csumStart, le) + NativeBytes(h.csumOffset, le)
  }

  function Decode(b: seq<byte>, le: bool): VirtioHdr
    requires |b| >= HDR_LEN
  {
    VirtioHdr(b[0], b[1], Load16(b, 2, le), Load16(b, 4, le), Load16(b, 6, le), Load16(b, 8, le))
  }

  /** What is encoded in front of a packet is what is decoded again. */
  lemma DecodeEncode(h: VirtioHdr, rest: seq<byte>, le: bool)
    ensures Decode(Encode(h, le) + rest, le) == h
  {
    var b := Encode(h, le) + rest;
    assert b[2..4] == NativeBytes(h.hdrLen, le);
    assert b[4..6] == NativeBytes(h.gsoSize, le);
    assert b[6..8] == NativeBytes(h.csumStart, le);
    assert b[8..10] == NativeBytes(h.csumOffset, le);
    assert Load16(b, 2, le) == Load16(b[2..4], 0, le);
    assert Load16(b, 4, le) == Load16(b[4..6], 0, le);
    assert Load16(b, 6, le) == Load16(b[6..8], 0, le);
    assert Load16(b, 8, le) == Load16(b[8..10], 0, le);
  }

  /** Two bytes as a word, in the byte order of the processor. */
  function Word(a: byte, b: byte, le: bool): u16 {
    if le then b as int * 0x100 + a else a as int * 0x100 + b
  }

  /** Where each field of the header lies. */
  lemma HeaderLayout(b: seq<byte>, le: bool)
    requires |b| >= HDR_LEN
    ensures var h := Decode(b, le);
      && h.flags == b[0] && h.gsoType == b[1]
      && h.hdrLen == Word(b[2], b[3], le) && h.gsoSize == Word(b[4], b[5], le)
      && h.csumStart == Word(b[6], b[7], le) && h.csumOffset == Word(b[8], b[9], le)
  {
  }

  /** The zero header encodes as ten zero bytes. */
  lemma ZeroEncodes(le: bool)
    ensures Encode(ZERO_HDR, le) == seq(HDR_LEN, _ => 0)
  {
    assert NativeBytes(0, le) == [0, 0];
  }

  datatype ReadError = ShortBuffer | UnsupportedGsoType | PacketTooShort | InvalidTCPHeaderLen
  datatype Parsed = Rejected(error: ReadError) | Accepted(options: GsoOptions)

  /** The options handleVirtioRead hands to GSOSplit; the transport header length is read off the packet. */
  function ParseOptions(h: VirtioHdr, s: seq<byte>): Parsed {
    if h.gsoType !in {GSO_NONE, GSO_TCPV4, GSO_TCPV6, GSO_UDP_L4} then Rejected(UnsupportedGsoType)
    else
      var t := if h.gsoType == GSO_NONE then GSONone else if h.gsoType == GSO_TCPV4 then GSOTCPv4
               else if h.gsoType == GSO_TCPV6 then GSOTCPv6 else GSOUDPL4;
      var o := GsoOptions(t, h.hdrLen, h.csumStart, h.csumOffset, h.gsoSize, h.flags % 2 == 1);
      if t == GSOUDPL4 then Accepted(o.(hdrLen := (h.csumStart + 8) % 0x1_0000))
      else if t == GSONone then Accepted(o)
      else
        var at: nat := (h.csumStart + 12) % 0x1_0000;
        if |s| <= at then Rejected(PacketTooShort)
        else
          var tcphLen := s[at] / 0x10 * 4;
          if tcphLen < 20 || tcphLen > 60 then Rejected(InvalidTCPHeaderLen)
          else Accepted(o.(hdrLen := (h.csumStart + tcphLen) % 0x1_0000))
  }

  /** The options, field by field, against the header and the packet. */
  lemma OptionsExact(h: VirtioHdr, s: seq<byte>)
    requires ParseOptions(h, s).Accepted?
    ensures var o := ParseOptions(h, s).options;
      && (o.gsoType == GSONone <==> h.gsoType == 0) && (o.gsoType == GSOTCPv4 <==> h.gsoType == 1)
      && (o.gsoType == GSOTCPv6 <==> h.gsoType == 4) && (o.gsoType == GSOUDPL4 <==> h.gsoType == 5)
      && (o.needsCsum <==> h.flags % 2 == 1)
      && o.csumStart == h.csumStart && o.csumOffset == h.csumOffset && o.gsoSize == h.gsoSize
      && (h.gsoType == 0 ==> o.hdrLen == h.hdrLen)
      && (h.gsoType == 5 ==> o.hdrLen == (h.csumStart + 8) % 0x1_0000)
      && (h.gsoType == 1 || h.gsoType == 4 ==>
            var at := (h.csumStart + 12) % 0x1_0000;
            at < |s| && 5 <= s[at] / 0x10 && o.hdrLen == (h.csumStart + s[at] / 0x10 * 4) % 0x1_0000)
  {
  }

  /** What is rejected, and why. */
  lemma RejectedExact(h: VirtioHdr, s: seq<byte>)
    ensures ParseOptions(h, s) == Rejected(UnsupportedGsoType) <==> h.gsoType !in {0, 1, 4, 5}
    ensures ParseOptions(h, s) == Rejected(PacketTooShort) <==>
      h.gsoType in {1, 4} && |s| <= (h.csumStart + 12) % 0x1_0000
    ensures ParseOptions(h, s) == Rejected(InvalidTCPHeaderLen) <==>
      && h.gsoType in {1, 4} && |s| > (h.csumStart + 12) % 0x1_0000
      && s[(h.csumStart + 12) % 0x1_0000] / 0x10 < 5
    ensures ParseOptions(h, s) != Rejected(ShortBuffer)
  {
  }

  datatype ReadResult = ReadFailed(error: ReadError) | ReadSplit(split: SplitResult)

  /** A superpacket behind its virtio header is parsed and split. */
  method HandleVirtioRead(src: array<byte>, inOff: nat, inLen: nat, outBufs: seq<array<byte>>, sizes: array<int>,
                          off: nat, le: bool) returns (r: ReadResult)
    requires inOff + inLen <= src.Length
    requires outBufs != [] && |outBufs| <= sizes.Length && Separate(src, inOff + HDR_LEN, outBufs, off)
    requires forall j :: 0 <= j < |outBufs| ==> off <= outBufs[j].Length
    requires inLen >= HDR_LEN ==>
      var s := src[inOff + HDR_LEN..inOff + inLen];
      var p := ParseOptions(Decode(src[inOff..inOff + inLen], le), s);
      p.Accepted? && Decide(s, p.options, outBufs[0].Length - off) == Many ==>
        && WellFormed(s, p.options)
        && (forall j :: 0 <= j < |outBufs| ==> off + p.options.hdrLen + p.options.gsoSize <= outBufs[j].Length)
    modifies src, outBufs, sizes
    ensures inLen < HDR_LEN ==> r == ReadFailed(ShortBuffer)
    ensures inLen >= HDR_LEN ==>
      var s := old(src[inOff + HDR_LEN..inOff + inLen]);
      match ParseOptions(Decode(old(src[inOff..inOff + inLen]), le), s)
      case Rejected(e) => r == ReadFailed(e)
      case Accepted(o) =>
        r.ReadSplit? &&
        match Decide(s, o, outBufs[0].Length - off)
        case Fail(e) => r.split == SplitResult(0, Some(e))
        case Single =>
          r.split == SplitResult(1, None) && sizes[0] == |s| && outBufs[0][off..off + |s|] == Completion(s, o)
        case Many => Finished(s, o, outBufs, sizes, off, r.split)
  {
    hide WellFormed;
    hide Finished;
    hide Decide;
    hide Completion;
    if inLen < HDR_LEN {
      return ReadFailed(ShortBuffer);
    }
    var hdr := Decode(src[inOff..inOff + inLen], le);
    match ParseOptions(hdr, src[inOff + HDR_LEN..inOff + inLen]) {
      case Rejected(e) =>
        r := ReadFailed(e);
      case Accepted(o) =>
        assert src[inOff + HDR_LEN..inOff + HDR_LEN + (inLen - HDR_LEN)] == src[inOff + HDR_LEN..inOff + inLen];
        var split := GSOSplit(src, inOff + HDR_LEN, inLen - HDR_LEN, o, outBufs, sizes, off);
        r := ReadSplit(split);
    }
  }
}
