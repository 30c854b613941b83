/** Decoding the CR3 register: the level-4 table's frame and the two
    cache-control flags. The register value is a parameter. */
module Control {
  import opened Common
  import opened Addr
  import opened Paging
  import opened Frames
  import opened PageTable

  const PAGE_LEVEL_WRITETHROUGH: bv16 := 1 << 3
  const PAGE_LEVEL_CACHE_DISABLE: bv16 := 1 << 4

  /** `Cr3::read_raw` on register value `value`: the frame containing
      `PhysAddr::new(value & 0x000f_ffff_ffff_f000)` and the low 12 bits.
      The masked address is below 2^52, so `PhysAddr::new` cannot panic,
      and it is 4 KiB-aligned, so the containing frame starts at it. */
  function Cr3ReadRaw(value: bv64): (r: (PhysFrame, bv16))
    ensures r.0.size == Size4KiB
    ensures r.0.start / 4096 == ((value & ADDR_MASK) >> 12) as int
    ensures r.0.start % 4096 == 0
    ensures r.1 as bv64 == value & 0xFFF
  {
    var addr := MaskedAddr(value);
    var frame := FrameContaining(Size4KiB, PhysNew(addr).value);
    assert frame.start == addr;
    (frame, ((value & 0xFFF) as bv16))
  }

  /** `Cr3::read`: the raw flags truncated to the two declared ones. */
  function Cr3Read(value: bv64): (r: (PhysFrame, bv16))
    ensures r.0 == Cr3ReadRaw(value).0
    ensures r.1 == Cr3ReadRaw(value).1 & (PAGE_LEVEL_WRITETHROUGH | PAGE_LEVEL_CACHE_DISABLE)
    ensures r.1 as bv64 == value & 0x18
  {
    var (frame, raw) := Cr3ReadRaw(value);
    (frame, raw & (PAGE_LEVEL_WRITETHROUGH | PAGE_LEVEL_CACHE_DISABLE))
  }
}
