/** In-place writes into byte buffers, each specified by the value-level write. */
module ByteArrays {
  import opened Bytes

  method WriteU16(a: array<byte>, at: nat, v: u16)
    requires at + 2 <= a.Length
    modifies a
    ensures a[..] == Put16(old(a[..]), at, v)
  {
    a[at] := v / 0x100;
    a[at + 1] := v % 0x100;
  }

  method WriteByte(a: array<byte>, at: nat, v: byte)
    requires at < a.Length
    modifies a
    ensures a[..] == old(a[..])[at := v]
  {
    a[at] := v;
  }

  /** `copy(a[at:], s)` for a source that does not overlap the target. */
  method WriteBytes(a: array<byte>, at: nat, s: seq<byte>)
    requires at + |s| <= a.Length
    modifies a
    ensures a[..] == Patch(old(a[..]), at, s)
  {
    forall k | 0 <= k < |s| {
      a[at + k] := s[k];
    }
  }
}
