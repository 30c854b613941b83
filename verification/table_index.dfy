/** The two small index types of the paging structures: the 9-bit index
    into a 512-entry page table and the 12-bit offset into a 4 KiB page. */
module TableIndex {
  import opened Common

  const ENTRY_COUNT: int := 512
  const PAGE_OFFSET_LIMIT: int := 4096

  /** `PageTableIndex` stores a u16; only `new_truncate` bounds it. */
  type PageTableIndex = U16

  /** `PageOffset` stores a u16 below 4096. */
  type PageOffset = x: int | 0 <= x < PAGE_OFFSET_LIMIT

  /** `PageTableIndex::new` keeps its argument as is. */
  function IndexNew(index: U16): (r: PageTableIndex)
    ensures r == index
  {
    index
  }

  /** `PageTableIndex::new_truncate` reduces modulo the entry count. */
  function IndexNewTruncate(index: U16): (r: PageTableIndex)
    ensures r < ENTRY_COUNT
    ensures index < ENTRY_COUNT ==> r == index
    ensures (index - r) % ENTRY_COUNT == 0
  {
    index % ENTRY_COUNT
  }

  /** `new` does not bound the index: it agrees with `new_truncate`
      exactly on the indices a 512-entry table has. */
  lemma IndexNewAgrees(index: U16)
    ensures IndexNew(index) == IndexNewTruncate(index) <==> index < ENTRY_COUNT
  {
    if IndexNew(index) == IndexNewTruncate(index) {
      assert IndexNew(index) < ENTRY_COUNT;
    }
  }

  /** `PageOffset::new` asserts that the offset fits in 12 bits. */
  function OffsetNew(offset: U16): (r: Outcome<PageOffset>)
    ensures r.Value? <==> offset < PAGE_OFFSET_LIMIT
    ensures r.Value? ==> r.value == offset
  {
    if offset < PAGE_OFFSET_LIMIT then Value(offset)
    else Panic("assertion failed: offset < (1 << 12)")
  }

  /** `PageOffset::new_truncate` keeps the low 12 bits. */
  function OffsetNewTruncate(offset: U16): (r: PageOffset)
    ensures offset < PAGE_OFFSET_LIMIT ==> r == offset
    ensures (offset - r) % PAGE_OFFSET_LIMIT == 0
  {
    offset % PAGE_OFFSET_LIMIT
  }
}
