/** Page-table entries and page tables.

    A raw entry is a u64 whose bits 12..51 hold a 4 KiB-aligned physical
    address and whose bits 0..11 and 52..63 hold flags. The two bit ranges
    are disjoint and together cover the word, so an entry is kept here as
    the pair (address, flags); `Decode` gives that pair for any raw word. */
module PageTable {
  import opened Common
  import opened Addr
  import opened Paging
  import opened Frames

  // ----- PageTableFlags -----

  const PRESENT: bv64 := 1
  const WRITABLE: bv64 := 1 << 1
  const USER_ACCESSIBLE: bv64 := 1 << 2
  const WRITE_THROUGH: bv64 := 1 << 3
  const NO_CACHE: bv64 := 1 << 4
  const ACCESSED: bv64 := 1 << 5
  const DIRTY: bv64 := 1 << 6
  const HUGE_PAGE: bv64 := 1 << 7
  const GLOBAL: bv64 := 1 << 8
  const BIT_9: bv64 := 1 << 9
  const BIT_10: bv64 := 1 << 10
  const BIT_11: bv64 := 1 << 11
  const BIT_52: bv64 := 1 << 52
  const BIT_53: bv64 := 1 << 53
  const BIT_54: bv64 := 1 << 54
  const BIT_55: bv64 := 1 << 55
  const BIT_56: bv64 := 1 << 56
  const BIT_57: bv64 := 1 << 57
  const BIT_58: bv64 := 1 << 58
  const BIT_59: bv64 := 1 << 59
  const BIT_60: bv64 := 1 << 60
  const BIT_61: bv64 := 1 << 61
  const BIT_62: bv64 := 1 << 62
  const NO_EXECUTE: bv64 := 1 << 63

  /** The bits of the declared flags. */
  const FLAG_MASK: bv64 := 0xFFF0_0000_0000_0FFF
  /** The bits `addr()` keeps. */
  const ADDR_MASK: bv64 := 0x000F_FFFF_FFFF_F000

  /** A `PageTableFlags` value: only declared flag bits. */
  type Flags = f: bv64 | f & ADDR_MASK == 0

  predicate Contains(f: bv64, flag: bv64) {
    f & flag == flag
  }

  /** The declared flags are exactly the bits of the flag mask, and the
      flag mask and the address mask split the word. */
  lemma FlagMaskIsAllFlags()
    ensures FLAG_MASK == PRESENT | WRITABLE | USER_ACCESSIBLE | WRITE_THROUGH | NO_CACHE
                         | ACCESSED | DIRTY | HUGE_PAGE | GLOBAL | BIT_9 | BIT_10 | BIT_11
                         | BIT_52 | BIT_53 | BIT_54 | BIT_55 | BIT_56 | BIT_57 | BIT_58
                         | BIT_59 | BIT_60 | BIT_61 | BIT_62 | NO_EXECUTE
    ensures FLAG_MASK & ADDR_MASK == 0 && FLAG_MASK | ADDR_MASK == 0xFFFF_FFFF_FFFF_FFFF
  {}

  // ----- PageTableEntry -----

  datatype EntryRecord = Entry(addr: int, flags: bv64)

  /** A `PageTableEntry`: a 4 KiB-aligned address below 2^52 and flag bits. */
  type PageTableEntry = e: EntryRecord |
    0 <= e.addr < PHYS_LIMIT && e.addr % 4096 == 0 && e.flags & ADDR_MASK == 0
    witness Entry(0, 0)

  const UNUSED: PageTableEntry := Entry(0, 0)

  /** The entry a raw u64 stands for: `flags()` is `from_bits_truncate`,
      which keeps the declared flag bits, and `addr()` keeps bits 12..51. */
  function Decode(raw: bv64): (e: PageTableEntry)
    ensures e.flags == raw & FLAG_MASK
    ensures e.addr / 4096 == ((raw & ADDR_MASK) >> 12) as int
  {
    FlagsDisjoint(raw);
    Entry(MaskedAddr(raw), raw & FLAG_MASK)
  }

  /** `raw & ADDR_MASK` as a number: bits 12..51, so a 4 KiB-aligned
      address below 2^52. */
  function MaskedAddr(raw: bv64): (a: int)
    ensures 0 <= a < PHYS_LIMIT && a % 4096 == 0
    ensures a / 4096 == ((raw & ADDR_MASK) >> 12) as int
  {
    var frameNumber := (raw >> 12) & 0xFF_FFFF_FFFF;
    DecodeBits(raw, frameNumber, (raw & ADDR_MASK) >> 12);
    frameNumber as bv40 as int * 4096
  }

  lemma DecodeBits(raw: bv64, y: bv64, z: bv64)
    requires y == (raw >> 12) & 0xFF_FFFF_FFFF && z == (raw & ADDR_MASK) >> 12
    ensures y <= 0xFF_FFFF_FFFF
    ensures y as bv40 as int == z as int
    ensures (raw & FLAG_MASK) & ADDR_MASK == 0
  {
    ShiftMask(raw);
    assert y == z;
    NarrowKeepsValue(y);
    FlagsDisjoint(raw);
  }

  lemma ShiftMask(raw: bv64)
    ensures (raw >> 12) & 0xFF_FFFF_FFFF == (raw & ADDR_MASK) >> 12
  {}

  lemma NarrowKeepsValue(y: bv64)
    requires y <= 0xFF_FFFF_FFFF
    ensures y as bv40 as int == y as int
  {}

  lemma FlagsDisjoint(raw: bv64)
    ensures (raw & FLAG_MASK) & ADDR_MASK == 0
  {}

  /** Two raw words with the same entry are the same word. */
  lemma DecodeInjective(x: bv64, y: bv64)
    requires Decode(x) == Decode(y)
    ensures x == y
  {
    var fx, fy := (x & ADDR_MASK) >> 12, (y & ADDR_MASK) >> 12;
    assert fx as int == fy as int;
    IntOfBvInjective(fx, fy);
    Reassemble(x);
    Reassemble(y);
  }

  lemma IntOfBvInjective(x: bv64, y: bv64)
    requires x as int == y as int
    ensures x == y
  {
    assert (x as int) as bv64 == x;
  }

  /** A word is its address bits and its flag bits put together. */
  lemma Reassemble(x: bv64)
    ensures x == (((x & ADDR_MASK) >> 12) << 12) | (x & FLAG_MASK)
  {}

  /** `is_unused`: the raw word is zero. */
  predicate IsUnused(e: PageTableEntry) {
    e == UNUSED
  }

  /** An entry read from memory is unused exactly when its word is 0. */
  lemma DecodeUnused(raw: bv64)
    ensures IsUnused(Decode(raw)) <==> raw == 0
  {
    var frameNumber := (raw & ADDR_MASK) >> 12;
    assert Decode(raw).addr == 0 <==> frameNumber as int == 0;
    assert frameNumber as int == 0 <==> frameNumber == 0;
  }

  /** `addr()`: `PhysAddr::new` of the masked word, which cannot panic. */
  function EntryAddr(e: PageTableEntry): (a: PhysAddr)
    ensures PhysNew(e.addr) == Value(a)
    ensures a % 4096 == 0
  {
    PhysNew(e.addr).value
  }

  datatype FrameError = FrameNotPresent | HugeFrame

  /** `frame()`: PRESENT is checked before HUGE_PAGE, and the frame is the
      4 KiB frame containing `addr()`. */
  function EntryFrame(e: PageTableEntry): (r: Result<PhysFrame, FrameError>)
    ensures !Contains(e.flags, PRESENT) ==> r == Err(FrameNotPresent)
    ensures Contains(e.flags, PRESENT) && Contains(e.flags, HUGE_PAGE) ==> r == Err(HugeFrame)
    ensures r.Ok? <==> Contains(e.flags, PRESENT) && !Contains(e.flags, HUGE_PAGE)
    ensures r.Ok? ==> r.value == PhysFrame(Size4KiB, e.addr)
  {
    if !Contains(e.flags, PRESENT) then Err(FrameNotPresent)
    else if Contains(e.flags, HUGE_PAGE) then Err(HugeFrame)
    else
      var f := FrameContaining(Size4KiB, EntryAddr(e));
      assert f.start == e.addr;
      Ok(f)
  }

  /** `set_frame(frame, flags)`: the word becomes `start | flags`. Every
      frame starts on a 4 KiB boundary, so the two parts do not overlap. */
  function SetFrame(e: PageTableEntry, f: PhysFrame, flags: Flags): (e': PageTableEntry)
    ensures EntryAddr(e') == f.start
    ensures e'.flags == flags
  {
    AlignedIs4KiBAligned(f.size, f.start);
    Entry(f.start, flags)
  }

  /** `set_flags(flags)`: the word becomes `addr() | flags`. */
  function SetFlags(e: PageTableEntry, flags: Flags): (e': PageTableEntry)
    ensures EntryAddr(e') == EntryAddr(e)
    ensures e'.flags == flags
  {
    Entry(EntryAddr(e), flags)
  }

  /** A frame stored with PRESENT and without HUGE_PAGE is read back by
      `frame()` as the 4 KiB frame at the same start. */
  lemma SetFrameThenFrame(e: PageTableEntry, f: PhysFrame, flags: Flags)
    requires Contains(flags, PRESENT) && !Contains(flags, HUGE_PAGE)
    ensures EntryFrame(SetFrame(e, f, flags)) == Ok(PhysFrame(Size4KiB, f.start))
  {}

  /** Setting new flags and then the old ones back restores the entry, and
      setting the flags twice keeps only the second. */
  lemma SetFlagsRoundTrip(e: PageTableEntry, flags: Flags, flags': Flags)
    ensures SetFlags(SetFlags(e, flags), e.flags) == e
    ensures SetFlags(SetFlags(e, flags), flags') == SetFlags(e, flags')
  {}

  // ----- PageTable -----

  /** A page table: 512 entries. */
  type Table = t: seq<PageTableEntry> | |t| == 512
    witness seq(512, _ => UNUSED)

  /** The table every entry of which is unused. */
  function EmptyTable(): (t: Table)
    ensures forall i :: 0 <= i < 512 ==> IsUnused(t[i])
  {
    seq(512, _ => UNUSED)
  }

  /** `PageTable::zero`: every entry is set unused in turn. */
  method Zero(t: Table) returns (t': Table)
    ensures forall i :: 0 <= i < 512 ==> IsUnused(t'[i])
    ensures t' == EmptyTable()
  {
    t' := t;
    var i := 0;
    while i < 512
      invariant 0 <= i <= 512 && |t'| == 512
      invariant forall j :: 0 <= j < i ==> IsUnused(t'[j])
    {
      t' := t'[i := UNUSED];
      i := i + 1;
    }
  }
}
