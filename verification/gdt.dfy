/** The global descriptor table: segment descriptors and the fixed
    eight-slot table they are appended to. */
module Gdt {
  import opened Common
  import opened Privilege
  import opened Segmentation

  // ----- DescriptorFlags -----

  const ACCESSED: bv64 := 1 << 40
  const WRITABLE: bv64 := 1 << 41
  const CONFORMING: bv64 := 1 << 42
  const EXECUTABLE: bv64 := 1 << 43
  const USER_SEGMENT: bv64 := 1 << 44
  const DPL_RING_3: bv64 := 3 << 45
  const PRESENT: bv64 := 1 << 47
  const AVAILABLE: bv64 := 1 << 52
  const LONG_MODE: bv64 := 1 << 53
  const DEFAULT_SIZE: bv64 := 1 << 54
  const GRANULARITY: bv64 := 1 << 55
  const LIMIT_0_15: bv64 := 0xFFFF
  const LIMIT_16_19: bv64 := 0xF << 48
  const BASE_0_23: bv64 := 0xFF_FFFF << 16
  const BASE_24_31: bv64 := 0xFF << 56

  /** Every declared descriptor flag. */
  const ALL_FLAGS: bv64 := ACCESSED | WRITABLE | CONFORMING | EXECUTABLE | USER_SEGMENT | DPL_RING_3
                           | PRESENT | AVAILABLE | LONG_MODE | DEFAULT_SIZE | GRANULARITY
                           | LIMIT_0_15 | LIMIT_16_19 | BASE_0_23 | BASE_24_31

  /** `DescriptorFlags::from_bits_truncate`. */
  function FromBitsTruncate(bits: bv64): bv64 {
    bits & ALL_FLAGS
  }

  const COMMON: bv64 := FromBitsTruncate(USER_SEGMENT | PRESENT | WRITABLE | ACCESSED
                                         | LIMIT_0_15 | LIMIT_16_19 | GRANULARITY)

  const KERNEL_CODE64: bv64 := FromBitsTruncate(COMMON | EXECUTABLE | LONG_MODE)

  // ----- Descriptor -----

  datatype Descriptor = UserSegment(value: bv64) | SystemSegment(low: bv64, high: bv64)

  function LowWord(d: Descriptor): bv64 {
    match d
    case UserSegment(v) => v
    case SystemSegment(v, _) => v
  }

  /** Number of GDT slots a descriptor takes. */
  function Slots(d: Descriptor): nat {
    if d.UserSegment? then 1 else 2
  }

  /** Bits 45-46 of the low word. */
  function DplBits(d: Descriptor): (b: bv64)
    ensures b <= 3
  {
    (LowWord(d) & DPL_RING_3) >> 45
  }

  /** `Descriptor::dpl`: `PrivilegeLevel::from` of bits 45-46, which are
      at most 3, so the conversion never panics. */
  function Dpl(d: Descriptor): (r: Outcome<PrivilegeLevel>)
    ensures r.Value?
    ensures RplBits(r.value) as bv64 == (LowWord(d) >> 45) & 3
  {
    var b := DplBits(d);
    SmallBits(b);
    var r := PrivilegeFrom(b as int);
    RplMatches(r.value, b);
    r
  }

  lemma SmallBits(b: bv64)
    requires b <= 3
    ensures b as int <= 3
  {}

  lemma RplMatches(r: PrivilegeLevel, b: bv64)
    requires b <= 3 && Discriminant(r) == b as int
    ensures RplBits(r) as bv64 == b
  {
    match r
    case Ring0 => assert b == 0;
    case Ring1 => assert b == 1;
    case Ring2 => assert b == 2;
    case Ring3 => assert b == 3;
  }

  /** `Descriptor::kernel_code_segment`. */
  function KernelCodeSegment(): Descriptor {
    UserSegment(KERNEL_CODE64)
  }

  /** The kernel code descriptor is a present, accessed, writable,
      executable 64-bit user segment with page granularity, the full limit,
      base 0 and privilege level 0. */
  lemma KernelCodeSegmentBits()
    ensures KERNEL_CODE64 == USER_SEGMENT | PRESENT | WRITABLE | ACCESSED | EXECUTABLE
                             | LONG_MODE | GRANULARITY | LIMIT_0_15 | LIMIT_16_19
    ensures KERNEL_CODE64 & (BASE_0_23 | BASE_24_31) == 0
    ensures Dpl(KernelCodeSegment()) == Value(Ring0)
  {
    assert DplBits(KernelCodeSegment()) == 0;
  }

  /** `u64::set_bits(lo..lo + len, v)`: the bits outside the range are
      kept and the range holds `v`. The bit-field crate asserts that `v`
      fits in `len` bits. */
  function SetBits(x: bv64, lo: bv7, len: bv7, v: bv64): bv64
    requires 1 <= len < 64 && lo < 64 && len <= 64 - lo
    requires v < (1 as bv64 << len)
  {
    var mask := ((1 as bv64 << len) - 1) << lo;
    (x & !mask) | (v << lo)
  }

  /** `Descriptor::tss_segment` for a TSS at address `ptr` of `size` bytes:
      an available 64-bit TSS descriptor (type 0b1001), present, with
      privilege level 0, base `ptr` split over bits 16-39 and 56-63 of the
      low word and bits 0-31 of the high word, and limit `size - 1`. */
  function TssSegment(ptr: bv64, size: bv64): (d: Descriptor)
    requires 1 <= size <= 0x1_0000
    ensures d.SystemSegment?
    ensures (d.low >> 16) & 0xFF_FFFF == ptr & 0xFF_FFFF
    ensures d.low >> 56 == (ptr >> 24) & 0xFF
    ensures d.low & 0xFFFF == size - 1
    ensures (d.low >> 40) & 0xF == 0x9
    ensures d.low & PRESENT == PRESENT
    ensures d.low & (USER_SEGMENT | DPL_RING_3 | LIMIT_16_19 | AVAILABLE | LONG_MODE | DEFAULT_SIZE | GRANULARITY) == 0
    ensures d.high & 0xFFFF_FFFF == ptr >> 32
    ensures d.high >> 32 == 0
  {
    var low := SetBits(PRESENT, 16, 24, ptr & 0xFF_FFFF);
    var low := SetBits(low, 56, 8, (ptr >> 24) & 0xFF);
    var low := SetBits(low, 0, 16, size - 1);
    var low := SetBits(low, 40, 4, 0x9);
    var high := SetBits(0, 0, 32, (ptr >> 32) & 0xFFFF_FFFF);
    SystemSegment(low, high)
  }

  /** The TSS address is recovered from the descriptor's three base
      fields, and the descriptor has privilege level 0. */
  lemma TssSegmentBase(ptr: bv64, size: bv64)
    requires 1 <= size <= 0x1_0000
    ensures var d := TssSegment(ptr, size);
            ((d.low >> 16) & 0xFF_FFFF) | ((d.low >> 56) << 24) | (d.high << 32) == ptr
    ensures Dpl(TssSegment(ptr, size)) == Value(Ring0)
  {
    var d := TssSegment(ptr, size);
    assert DplBits(d) == 0;
  }

  // ----- GlobalDescriptorTable -----

  const GDT_SLOTS: nat := 8

  datatype GdtRecord = Gdt(table: seq<bv64>, len: nat)

  /** A table of eight raw entries of which the first `len` are in use;
      slot 0 is the null descriptor, so `len` is at least 1. */
  type GlobalDescriptorTable = g: GdtRecord | |g.table| == GDT_SLOTS && 1 <= g.len <= GDT_SLOTS
    witness Gdt([0, 0, 0, 0, 0, 0, 0, 0], 1)

  /** `GlobalDescriptorTable::default`: eight zero entries, of which only
      the null descriptor counts as used. */
  function GdtDefault(): (g: GlobalDescriptorTable)
    ensures g.len == 1
    ensures forall i :: 0 <= i < GDT_SLOTS ==> g.table[i] == 0
  {
    Gdt([0, 0, 0, 0, 0, 0, 0, 0], 1)
  }

  /** `push`: store `value` at index `len` and return that index. */
  function Push(g: GlobalDescriptorTable, value: bv64): (r: (GlobalDescriptorTable, nat))
    requires g.len < GDT_SLOTS
    ensures r.1 == g.len && r.0.len == g.len + 1
    ensures r.0.table == g.table[g.len := value]
  {
    (Gdt(g.table[g.len := value], g.len + 1), g.len)
  }

  /** `append`: a user segment needs one free slot and a system segment two
      (`len > 8 - 1` and `len > 8 - 2` panic); the descriptor's words are
      pushed in order and the selector of the first one is returned, with
      the descriptor's privilege level as its RPL. */
  function Append(g: GlobalDescriptorTable, d: Descriptor): (r: Outcome<(GlobalDescriptorTable, Selector)>)
    ensures r.Panic? <==> g.len + Slots(d) > GDT_SLOTS
    ensures r.Value? ==>
              var (g', sel) := r.value;
              g'.len == g.len + Slots(d)
              && SelectorIndex(sel) as int == g.len
              && sel & 3 == RplBits(Dpl(d).value)
              && g'.table[g.len] == LowWord(d)
              && (d.SystemSegment? ==> g'.table[g.len + 1] == d.high)
              && (forall i :: 0 <= i < GDT_SLOTS && !(g.len <= i < g'.len) ==> g'.table[i] == g.table[i])
  {
    match d
    case UserSegment(value) =>
      if g.len > GDT_SLOTS - 1 then Panic("GDT is full")
      else
        var (g1, index) := Push(g, value);
        Value((g1, SelectorNew(SmallIndex(index), Dpl(d).value)))
    case SystemSegment(low, high) =>
      if g.len > GDT_SLOTS - 2 then Panic("GDT requires two free spaces to hold a SystemSegment")
      else
        var (g1, index) := Push(g, low);
        var (g2, _) := Push(g1, high);
        Value((g2, SelectorNew(SmallIndex(index), Dpl(d).value)))
  }

  /** `index as u16` for a slot index, which is below 8. */
  function SmallIndex(i: nat): (b: bv16)
    requires i < GDT_SLOTS
    ensures b as int == i && b < 8
  {
    i as bv16
  }

  /** `pointer().limit`: `len * 8 - 1`, the offset of the last byte of the
      used entries. The table base is a pointer and is not modelled. */
  function GdtLimit(g: GlobalDescriptorTable): (limit: U16)
    ensures limit + 1 == 8 * g.len
    ensures limit <= 63
  {
    g.len * 8 - 1
  }
}
