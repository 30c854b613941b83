/** Physical frames: a physical address aligned to one of the page sizes. */
module Frames {
  import opened Common
  import opened IntBits
  import opened Addr
  import opened Paging

  /** `PhysFrame<S>`; the size parameter is carried as a value. */
  datatype FrameRecord = PhysFrame(size: PageSize, start: PhysAddr)

  /** Every frame the code builds starts on a boundary of its size. */
  type PhysFrame = f: FrameRecord | f.start % SizeBytes(f.size) == 0
    witness PhysFrame(Size4KiB, 0)

  datatype AddressNotAligned = AddressNotAligned

  /** `PhysFrame::<S>::containing_address`: the start is the address
      aligned down to `S::SIZE`. */
  function FrameContaining(size: PageSize, a: PhysAddr): (f: PhysFrame)
    ensures f.size == size
    ensures f.start % SizeBytes(size) == 0
    ensures f.start <= a < f.start + SizeBytes(size)
  {
    SizeIsPowerOfTwo(size);
    NextMultipleBelow(a, SizeBytes(size));
    PhysFrame(size, PhysAlignDown(a, SizeBytes(size)).value)
  }

  /** `PhysFrame::start_address`. */
  function FrameStart(f: PhysFrame): PhysAddr {
    f.start
  }

  /** `PhysFrame::<S>::from_start_address`: rejects an address that is not
      `S::SIZE`-aligned. The frame it returns is always the default
      4 KiB-tagged `PhysFrame`, whichever size was checked. */
  function FrameFromStart(size: PageSize, a: PhysAddr): (r: Result<PhysFrame, AddressNotAligned>)
    ensures r.Err? <==> a % SizeBytes(size) != 0
    ensures r.Ok? ==> r.value == PhysFrame(Size4KiB, a)
  {
    SizeIsPowerOfTwo(size);
    if !PhysIsAligned(a, SizeBytes(size)).value then Err(AddressNotAligned)
    else
      AlignedIs4KiBAligned(size, a);
      Ok(PhysFrame(Size4KiB, a))
  }

  /** The start of a containing frame is accepted by `from_start_address`
      for the same size, and taking the containing frame again changes
      nothing. */
  lemma ContainingRoundTrip(size: PageSize, a: PhysAddr)
    ensures FrameFromStart(size, FrameStart(FrameContaining(size, a))).Ok?
    ensures FrameContaining(size, FrameStart(FrameContaining(size, a))) == FrameContaining(size, a)
  {
    var s := FrameContaining(size, a).start;
    SizeIsPowerOfTwo(size);
    assert s % SizeBytes(size) == 0;
  }

  /** `from_start_address` followed by `start_address` gives the address
      back, and a 4 KiB-aligned start is its own containing frame. */
  lemma FromStartRoundTrip(size: PageSize, a: PhysAddr)
    requires a % SizeBytes(size) == 0
    ensures FrameStart(FrameFromStart(size, a).value) == a
    ensures FrameContaining(size, a).start == a
  {}
}
