/** Segment selectors. */
module Segmentation {
  import opened Common
  import opened Privilege

  /** `SegmentSelector(u16)`: bits 0-1 are the requested privilege level,
      bit 2 the table indicator, bits 3-15 the descriptor index. */
  type Selector = bv16

  /** `rpl as u16`. */
  function RplBits(rpl: PrivilegeLevel): (b: bv16)
    ensures b <= 3 && b as int == Discriminant(rpl)
  {
    match rpl
    case Ring0 => 0
    case Ring1 => 1
    case Ring2 => 2
    case Ring3 => 3
  }

  /** `SegmentSelector::new(index, rpl)`: `index << 3 | rpl`. The shift
      drops the top three bits of `index`, and the table indicator is never
      set, so the selector always refers to the GDT. */
  function SelectorNew(index: bv16, rpl: PrivilegeLevel): (s: Selector)
    ensures s & 3 == RplBits(rpl)
    ensures s & 4 == 0
    ensures s >> 3 == index & 0x1FFF
  {
    (index << 3) | RplBits(rpl)
  }

  /** The descriptor index a selector names. */
  function SelectorIndex(s: Selector): bv16 {
    s >> 3
  }

  /** An index below 8192 is recovered from the selector; a larger index
      loses its top bits. */
  lemma SelectorRoundTrip(index: bv16, rpl: PrivilegeLevel)
    ensures index < 0x2000 ==> SelectorIndex(SelectorNew(index, rpl)) == index
    ensures SelectorIndex(SelectorNew(index, rpl)) == index & 0x1FFF
  {}

  /** Two selectors built alike are equal only if they carry the same
      privilege level and agree on the low 13 bits of the index. */
  lemma SelectorInjective(i1: bv16, r1: PrivilegeLevel, i2: bv16, r2: PrivilegeLevel)
    requires SelectorNew(i1, r1) == SelectorNew(i2, r2)
    ensures r1 == r2
    ensures i1 & 0x1FFF == i2 & 0x1FFF
  {
    assert RplBits(r1) == RplBits(r2);
  }
}
