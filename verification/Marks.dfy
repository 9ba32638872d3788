/** route_dnat_linux.go: the packet mark that exempts a connection from the tunnel. */
module Marks {
  const FIELD_MASK: bv32 := 0xFFF
  const DEFAULT_OUTPUT_MARK: bv32 := 0x2024

  datatype MarkOptions = MarkOptions(inputMark: bv32, outputMark: bv32, markMode: bool)

  function OutputMark(o: MarkOptions): bv32 {
    if o.outputMark == 0 then DEFAULT_OUTPUT_MARK else o.outputMark
  }

  /** The low field, or the whole mark when it leaves that field empty. */
  function BaseMask(out: bv32): bv32 {
    if out & FIELD_MASK == 0 then out else FIELD_MASK
  }

  /** The lowest bit that is set. */
  function LowestBit(d: bv32): bv32 {
    d & (0 - d)
  }

  /** The mask, with one distinguishing bit more if it does not see the difference. */
  function Widened(d: bv32, mask: bv32): bv32 {
    if d & mask == 0 then mask | LowestBit(d) else mask
  }

  /** The mask of mark mode: it sees the difference of the two marks. */
  function SeparatingMask(a: bv32, b: bv32): bv32 {
    Widened(a ^ b, BaseMask(b))
  }

  /** autoRouteDNATBypassMask. */
  function BypassMask(o: MarkOptions): bv32 {
    if o.markMode then SeparatingMask(o.inputMark, OutputMark(o)) else BaseMask(OutputMark(o))
  }

  /** autoRouteDNATBypassMark. */
  function BypassMark(o: MarkOptions): bv32 {
    OutputMark(o) & BypassMask(o)
  }

  /** The marks New accepts. */
  predicate Distinct(o: MarkOptions) {
    o.markMode ==> o.inputMark != OutputMark(o)
  }

  /** Two marks agree in the bits of a mask. */
  predicate UnderMask(mark: bv32, m: bv32, mask: bv32) {
    mark & mask == m & mask
  }

  /** A packet carries the bypass mark: what the first policy rule tests. */
  predicate Bypassed(o: MarkOptions, mark: bv32) {
    UnderMask(mark, BypassMark(o), BypassMask(o))
  }

  /**
  The numbers: the mark is 0x2024 unless given; outside mark mode the mask is the low twelve bits, or
  the mark itself if it has none of them.
  */
  lemma MaskNumbers(o: MarkOptions)
    ensures OutputMark(o) == if o.outputMark == 0 then 0x2024 else o.outputMark
    ensures !o.markMode && OutputMark(o) & 0xFFF != 0 ==> BypassMask(o) == 0xFFF
    ensures !o.markMode && OutputMark(o) & 0xFFF == 0 ==> BypassMask(o) == OutputMark(o)
  {
  }

  lemma MarkIs(o: MarkOptions)
    ensures BypassMark(o) == OutputMark(o) & BypassMask(o)
  {
    hide BypassMask;
    hide OutputMark;
  }

  /** Being exempt is agreeing with the output mark under the bypass mask. */
  lemma BypassedIs(o: MarkOptions, mark: bv32)
    ensures Bypassed(o, mark) <==> UnderMask(mark, OutputMark(o), BypassMask(o))
  {
    hide BypassMask;
    hide OutputMark;
    hide UnderMask;
    hide BypassMark;
    MarkIs(o);
    UnderMasked(mark, OutputMark(o), BypassMask(o), BypassMark(o));
  }

  lemma UnderMasked(mark: bv32, v: bv32, mask: bv32, m: bv32)
    requires m == v & mask
    ensures UnderMask(mark, m, mask) <==> UnderMask(mark, v, mask)
  {
    MaskTwice(v, mask);
  }

  lemma MaskTwice(v: bv32, mask: bv32)
    ensures v & mask & mask == v & mask
  {
  }

  lemma BaseSees(out: bv32)
    requires out != 0
    ensures !UnderMask(0, out, BaseMask(out))
  {
  }

  lemma OutputNonZero(o: MarkOptions)
    ensures OutputMark(o) != 0
  {
  }

  /** The bypass mark is never zero and has no bits outside its mask, so an unmarked packet is not exempt. */
  lemma BypassMarkNonZero(o: MarkOptions)
    ensures BypassMark(o) != 0 && BypassMark(o) & BypassMask(o) == BypassMark(o)
    ensures !Bypassed(o, 0)
  {
    MarkNonZero(o);
    BypassedIs(o, 0);
    MarkIs(o);
    hide *;
    MaskedMark(OutputMark(o), BypassMask(o), BypassMark(o));
  }

  lemma MaskedMark(v: bv32, mask: bv32, mark: bv32)
    requires !UnderMask(0, v, mask) && mark == v & mask
    ensures mark != 0 && mark & mask == mark
  {
    MaskTwice(v, mask);
  }

  lemma MarkNonZero(o: MarkOptions)
    ensures !UnderMask(0, OutputMark(o), BypassMask(o))
  {
    hide UnderMask;
    hide SeparatingMask;
    hide BaseMask;
    OutputNonZero(o);
    hide OutputMark;
    if o.markMode {
      WideSees(o.inputMark, OutputMark(o));
    } else {
      BaseSees(OutputMark(o));
    }
  }

  lemma WideSees(a: bv32, out: bv32)
    requires out != 0
    ensures !UnderMask(0, out, SeparatingMask(a, out))
  {
  }

  /** Adding one bit of a difference to a mask that misses it makes the mask see it. */
  lemma MaskWidened(d: bv32, mask: bv32)
    requires d != 0
    ensures d & Widened(d, mask) != 0
  {
  }

  lemma MaskDistributes(a: bv32, b: bv32, mask: bv32)
    ensures (a ^ b) & mask == (a & mask) ^ (b & mask)
  {
  }

  lemma XorZero(a: bv32, b: bv32)
    ensures a ^ b == 0 <==> a == b
  {
  }

  /** Two different marks differ under the mask of mark mode. */
  lemma MaskSeparates(a: bv32, b: bv32)
    requires a != b
    ensures !UnderMask(a, b, SeparatingMask(a, b))
  {
    hide BaseMask;
    hide Widened;
    var wide := Widened(a ^ b, BaseMask(b));
    XorZero(a, b);
    MaskWidened(a ^ b, BaseMask(b));
    MaskDistributes(a, b, wide);
    XorZero(a & wide, b & wide);
  }

  /** In mark mode an input-marked packet is exempt exactly when the two marks are the same. */
  lemma InputNotBypassed(o: MarkOptions)
    requires o.markMode
    ensures Bypassed(o, o.inputMark) <==> o.inputMark == OutputMark(o)
  {
    hide UnderMask;
    hide SeparatingMask;
    hide BaseMask;
    hide OutputMark;
    BypassedIs(o, o.inputMark);
    hide Bypassed;
    if o.inputMark != OutputMark(o) {
      MaskSeparates(o.inputMark, OutputMark(o));
    } else {
      UnderItself(o.inputMark, BypassMask(o));
    }
  }

  lemma UnderItself(a: bv32, mask: bv32)
    ensures UnderMask(a, a, mask)
  {
  }

  /** The nftables expression of appendRouteMark: clear, then flip. */
  function RouteMark(mark: bv32, clearMask: bv32, xorMask: bv32): bv32 {
    (mark & !clearMask) ^ xorMask
  }

  /** Setting the bypass mark gives an exempt packet and keeps every bit outside the mask. */
  lemma SetBypassMark(o: MarkOptions, mark: bv32)
    ensures var m := RouteMark(mark, BypassMask(o), BypassMark(o));
      Bypassed(o, m) && m & !BypassMask(o) == mark & !BypassMask(o)
  {
    var m := RouteMark(mark, BypassMask(o), BypassMark(o));
    BypassedIs(o, m);
    hide Bypassed;
    hide BypassMask;
    SetMasked(mark, OutputMark(o), BypassMask(o));
  }

  lemma SetMasked(mark: bv32, value: bv32, mask: bv32)
    ensures ((mark & !mask) ^ (value & mask)) & mask == value & mask
    ensures ((mark & !mask) ^ (value & mask)) & !mask == mark & !mask
  {
  }

  /** Flipping the bypass mark always changes the packet's mark, so a new lookup follows, and twice restores it. */
  lemma FlipChanges(o: MarkOptions, mark: bv32)
    ensures RouteMark(mark, 0, BypassMark(o)) != mark
    ensures RouteMark(RouteMark(mark, 0, BypassMark(o)), 0, BypassMark(o)) == mark
    ensures RouteMark(mark, 0, BypassMark(o)) & !BypassMask(o) == mark & !BypassMask(o)
  {
    BypassMarkNonZero(o);
    hide BypassMask;
    hide BypassMark;
    hide RouteMark;
    FlipFacts(mark, BypassMark(o), BypassMask(o));
  }

  lemma FlipFacts(mark: bv32, x: bv32, mask: bv32)
    requires x != 0 && x & mask == x
    ensures RouteMark(mark, 0, x) != mark && RouteMark(RouteMark(mark, 0, x), 0, x) == mark
    ensures RouteMark(mark, 0, x) & !mask == mark & !mask
  {
    hide RouteMark;
    FlipDiffers(mark, x);
    FlipTwice(mark, x);
    FlipOutside(mark, x, mask);
  }

  lemma FlipDiffers(mark: bv32, x: bv32)
    requires x != 0
    ensures RouteMark(mark, 0, x) != mark
  {
  }

  lemma FlipTwice(mark: bv32, x: bv32)
    ensures RouteMark(RouteMark(mark, 0, x), 0, x) == mark
  {
  }

  lemma FlipOutside(mark: bv32, x: bv32, mask: bv32)
    requires x & mask == x
    ensures RouteMark(mark, 0, x) & !mask == mark & !mask
  {
  }
}
