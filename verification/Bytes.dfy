/** Fixed-width unsigned integers and big-endian field access, on values. */
module Bytes {
  type byte = b: int | 0 <= b < 0x100
  type u16 = n: int | 0 <= n < 0x1_0000
  type u32 = n: int | 0 <= n < 0x1_0000_0000
  type u64 = n: int | 0 <= n < 0x1_0000_0000_0000_0000
  type bit = n: int | 0 <= n < 2

  /** One's complement (`^x`) of a 16-bit value. */
  function Not16(x: u16): u16 {
    0xFFFF - x
  }

  function Get16(s: seq<byte>, at: nat): u16
    requires at + 2 <= |s|
  {
    s[at] as int * 0x100 + s[at + 1] as int
  }

  function Get32(s: seq<byte>, at: nat): u32
    requires at + 4 <= |s|
  {
    Get16(s, at) * 0x1_0000 + Get16(s, at + 2)
  }

  /** `s` with the bytes of `patch` written over it from index `at` on. */
  function Patch(s: seq<byte>, at: nat, patch: seq<byte>): (r: seq<byte>)
    requires at + |patch| <= |s|
    ensures |r| == |s|
    ensures forall k :: 0 <= k < |s| ==>
      r[k] == if at <= k < at + |patch| then patch[k - at] else s[k]
  {
    s[..at] + patch + s[at + |patch|..]
  }

  /** A slice of a slice. */
  lemma SliceSlice(s: seq<byte>, x: nat, y: nat, p: nat, q: nat)
    requires x <= y <= |s| && p <= q <= y - x
    ensures s[x..y][p..q] == s[x + p..x + q]
  {
    var a, b := s[x..y][p..q], s[x + p..x + q];
    forall k | 0 <= k < q - p ensures a[k] == b[k] {
      assert a[k] == s[x..y][p + k] == s[x + p + k];
    }
  }

  /** Sequences that agree between two places have the same slice there. */
  lemma SameSlice(s: seq<byte>, r: seq<byte>, x: nat, y: nat)
    requires x <= y <= |s| && y <= |r| && forall k :: x <= k < y ==> r[k] == s[k]
    ensures r[x..y] == s[x..y]
  {
  }

  function Enc16(v: u16): (r: seq<byte>)
    ensures |r| == 2
  {
    [v / 0x100, v % 0x100]
  }

  function Put16(s: seq<byte>, at: nat, v: u16): (r: seq<byte>)
    requires at + 2 <= |s|
    ensures |r| == |s| && Get16(r, at) == v
    ensures forall k :: 0 <= k < |s| && k != at && k != at + 1 ==> r[k] == s[k]
  {
    s[at := v / 0x100][at + 1 := v % 0x100]
  }

  function Put32(s: seq<byte>, at: nat, v: u32): (r: seq<byte>)
    requires at + 4 <= |s|
    ensures |r| == |s| && Get32(r, at) == v
    ensures forall k :: 0 <= k < |s| && !(at <= k < at + 4) ==> r[k] == s[k]
  {
    Put16(Put16(s, at, v / 0x1_0000), at + 2, v % 0x1_0000)
  }

  /** Writing behind `off` is writing into the part behind `off`. */
  lemma PutBehind(d: seq<byte>, off: nat, at: nat, v: u16)
    requires off + at + 2 <= |d|
    ensures Put16(d, off + at, v)[..off] == d[..off] && Put16(d, off + at, v)[off..] == Put16(d[off..], at, v)
  {
  }
}
