# A Dafny model of the kerwanos x86-64 kernel core

This project models the pure logic of a small x86-64 kernel written in Rust
and proves properties of it. Every privileged instruction, port access and
memory-mapped device becomes a value or an event in a trace. The model
covers the following parts:

- **Addresses and paging** (`addr.dfy`, `table_index.dfy`, `page.dfy`,
  `frame.dfy`, `page_table.dfy`, `mapper.dfy`):
  - canonical virtual and 52-bit physical addresses, and the 9-bit
    table-index extraction;
  - pages and frames of 4 KiB, 2 MiB and 1 GiB, and the inclusive page
    range iterator;
  - the 64-bit page-table entry;
  - the four-level `map_to` / `translate` walk, over an abstract store
    from frame address to 512-entry table and an allocator that hands out
    a list of frames.
- **Descriptor tables** (`privilege.dfy`, `segmentation.dfy`, `gdt.dfy`,
  `idt.dfy`, `tss.dfy`, `kernel.dfy`):
  - segment selectors and descriptors, with GDT append;
  - the IDT vector classification and gate entries;
  - the task state segment and its `#[repr(C, packed(4))]` layout;
  - the kernel's boot-time GDT/TSS/IDT and its `init` ordering.
- **Interrupt plumbing** (`pic.dfy`, `interrupt_flag.dfy`, `control.dfy`,
  `kernel.dfy`):
  - the chained 8259A controllers as port-event traces;
  - `without_interrupts`, with the interrupt flag as state;
  - CR3 decoding;
  - the timer and keyboard handlers.
- **PCI configuration space** (`pci_access.dfy`, `pci_register.dfy`,
  `pci_bar.dfy`, `pci_bus.dfy`):
  - configuration mechanism #1 addresses, and the two sets of read
    helpers;
  - base address registers and BAR sizing;
  - the bus/device scan iterator and header decoding. Configuration space
    is a function from a 32-bit address to the dword read there.
- **Text output and the shell** (`vga.dfy`, `tty.dfy`, `serial.dfy`,
  `shell.dfy`, `commands.dfy`, `terminal.dfy`):
  - the VGA writer over a 25 x 80 cell screen;
  - the TTY cursor, as a sequence of cell operations;
  - the 16550 UART trace, with the status register as an input stream;
  - shell line editing and command dispatch;
  - the terminal echo.

`common.dfy` holds the shared vocabulary:

- the unsigned integer ranges;
- `Option` and `Result`;
- `Outcome`, a value or a Rust panic;
- `PortEvent`, a port read or write of a given width.

Arithmetic follows Rust debug builds: an overflowing `+`, `-` or `*` on a
fixed-width integer panics. The model follows the code, including
behaviours that look unintended:

- a PCI bridge's secondary status and bridge control are always 0, as
  the code's joins give;
- the BAR size the code returns is two less than the conventional size;
- the page range iterator panics on a range ending at the last page of
  the lower half (`Paging.NextAsWritten`); `Paging.Next` is the
  corrected step;
- the type-0 header's byte 0 of dword 0x3C goes to `max_latency`;
- the TTY's `clear_last_line` passes its cell coordinates in the opposite
  order to every other caller.

## Model

| member | source | states |
|---|---|---|
| Addr.VirtNewTruncate | crates/x86/src/addr.rs:21-23 | bits 0-47 are kept; the top 17 bits all copy bit 47; the result equals the input exactly when the input is canonical |
| Addr.VirtNew | crates/x86/src/addr.rs:13-19 | succeeds, returning the input unchanged, exactly when the input is canonical; otherwise panics |
| Addr.PageOffsetOf | crates/x86/src/addr.rs:29-31 | the page offset is the address modulo 4096 |
| Addr.P1Index | crates/x86/src/addr.rs:41-43 | the level-1 index is below 512 and is bits 12-20 of the address |
| Addr.P2Index | crates/x86/src/addr.rs:45-47 | the level-2 index is below 512 and is bits 21-29 |
| Addr.P3Index | crates/x86/src/addr.rs:49-51 | the level-3 index is below 512 and is bits 30-38 |
| Addr.P4Index | crates/x86/src/addr.rs:53-55 | the level-4 index is below 512 and is bits 39-47 |
| Addr.IndicesReassemble | crates/x86/src/addr.rs:29-55 | the four indices and the offset, weighted by their positions, sum to the address modulo 2^48, and sign-extending that sum gives back the address |
| Addr.SameLowBitsSameTruncation | crates/x86/src/addr.rs:21-23 | `new_truncate` depends only on the low 48 bits |
| Addr.VirtAlignDown | crates/x86/src/addr.rs:57-59 | panics exactly for alignment 0; otherwise the aligned raw value, truncated to a canonical address |
| Addr.VirtAdd | crates/x86/src/addr.rs:62-68 | succeeds exactly when the sum fits in u64 and is canonical, and then gives the sum |
| Addr.VirtSub | crates/x86/src/addr.rs:70-76 | succeeds exactly when the difference is non-negative and canonical, and then gives the difference |
| Addr.PhysNewTruncate | crates/x86/src/addr.rs:104-106 | congruent to the input modulo 2^52, and equal to it exactly when the input is below 2^52 |
| Addr.PhysNew | crates/x86/src/addr.rs:91-98 | succeeds, returning the input, exactly when the input is below 2^52; otherwise panics |
| Addr.PhysAlignDown | crates/x86/src/addr.rs:108-113 | panics exactly for alignment 0; otherwise the free `align_down` of the address |
| Addr.PhysIsAligned | crates/x86/src/addr.rs:115-120 | panics exactly for alignment 0; aligned exactly when `align_down` is the identity, which for a power of two means the address is a multiple of it |
| Addr.PhysAdd | crates/x86/src/addr.rs:123-129 | succeeds exactly when the sum is below 2^52, and then gives the sum |
| Addr.AlignDown | crates/x86/src/addr.rs:139-141 | panics exactly for alignment 0; never above the address; for a power of two, the address minus its remainder |
| Addr.AlignUp | crates/x86/src/addr.rs:143-153 | panics for alignment 0; for a power of two, an aligned address is returned unchanged and any other becomes the next multiple; a success is always a multiple no smaller than the address |
| Addr.AlignDownMeaning | crates/x86/src/addr.rs:139-141 | the mask `addr & !(align - 1)` never exceeds the address and, for a power of two, clears exactly the remainder |
| Addr.AlignUpMeaning | crates/x86/src/addr.rs:143-153 | for a power of two, the low-bit test means divisibility and `(addr \| (align - 1)) + 1` is the next multiple |
| TableIndex.IndexNew | crates/x86/src/structures/paging/page_table.rs:17-19 | the index is stored as is, with no bound |
| TableIndex.IndexNewAgrees | crates/x86/src/structures/paging/page_table.rs:17-23 | `new` and `new_truncate` agree exactly on indices below 512 |
| TableIndex.IndexNewTruncate | crates/x86/src/structures/paging/page_table.rs:21-23 | below 512, congruent to the input modulo 512, and the input itself when it is below 512 |
| TableIndex.OffsetNew | crates/x86/src/structures/paging/page_table.rs:166-169 | succeeds, with the input, exactly when it is below 4096; otherwise the assertion panics |
| TableIndex.OffsetNewTruncate | crates/x86/src/structures/paging/page_table.rs:171-173 | congruent to the input modulo 4096, and the input itself when it is below 4096 |
| PageTable.FlagMaskIsAllFlags | crates/x86/src/structures/paging/page_table.rs:40-68 | the declared flags are exactly bits 0-11 and 52-63, and they and the address mask split the word |
| PageTable.Decode | crates/x86/src/structures/paging/page_table.rs:79-85 | `flags()` keeps exactly the declared flag bits; `addr()` is bits 12-51 of the word |
| PageTable.DecodeInjective | crates/x86/src/structures/paging/page_table.rs:72-85 | two raw words with the same address and flags are the same word |
| PageTable.DecodeUnused | crates/x86/src/structures/paging/page_table.rs:75-77 | an entry is unused exactly when its raw word is 0 |
| PageTable.EntryAddr | crates/x86/src/structures/paging/page_table.rs:83-85 | the `PhysAddr::new` in `addr()` never panics, and the address is 4 KiB-aligned |
| PageTable.EntryFrame | crates/x86/src/structures/paging/page_table.rs:87-97 | PRESENT clear gives FrameNotPresent; PRESENT and HUGE_PAGE give HugeFrame; otherwise the 4 KiB frame at `addr()` |
| PageTable.SetFrame | crates/x86/src/structures/paging/page_table.rs:99-105 | afterwards `addr()` is the frame's start and the flags are the given ones |
| PageTable.SetFlags | crates/x86/src/structures/paging/page_table.rs:107-109 | keeps `addr()` and replaces the flags |
| PageTable.SetFrameThenFrame | crates/x86/src/structures/paging/page_table.rs:87-105 | a frame stored present and not huge is read back by `frame()` as the 4 KiB frame at the same start |
| PageTable.SetFlagsRoundTrip | crates/x86/src/structures/paging/page_table.rs:107-109 | setting the old flags back restores the entry; a second `set_flags` overrides the first |
| PageTable.Zero | crates/x86/src/structures/paging/page_table.rs:142-146 | after `zero` all 512 entries are unused |
| Paging.SizeBytes | crates/x86/src/structures/paging/page.rs:23-33 | the page sizes are 4 KiB, 2 MiB and 1 GiB |
| Paging.SizeIsPowerOfTwo | crates/x86/src/structures/paging/page.rs:23-33 | every page size is a power of two |
| Paging.PageContaining | crates/x86/src/structures/paging/page.rs:72-77 | the page starts at a multiple of its size, at or below the address, less than one size below it |
| Paging.Containing4KiBKeepsIndices | crates/x86/src/structures/paging/page.rs:87-101 | a 4 KiB page has the four table indices of every address in it |
| Paging.Containing2MiBKeepsIndices | crates/x86/src/structures/paging/page.rs:87-101 | a 2 MiB page keeps the upper three indices, and its level-1 index is 0 |
| Paging.Containing1GiBKeepsIndices | crates/x86/src/structures/paging/page.rs:87-101 | a 1 GiB page keeps the upper two indices, and its level-2 and level-1 indices are 0 |
| Paging.PageAdd | crates/x86/src/structures/paging/page.rs:104-110 | succeeds exactly when `rhs * SIZE` and the sum fit in u64 and the sum is canonical, and then is the page at `start + rhs * SIZE` |
| Paging.PageSub | crates/x86/src/structures/paging/page.rs:118-124 | the same for subtraction |
| Paging.AddThenSub | crates/x86/src/structures/paging/page.rs:104-124 | subtracting what was added gives the page back |
| Paging.StepIntoHolePanics | crates/x86/src/structures/paging/page.rs:104-110 | one step past the last lower-half page panics |
| Paging.MaxPageAddr | crates/x86/src/structures/paging/page.rs:51 | the start of the last page below 2^64 |
| Paging.Advance | crates/x86/src/structures/paging/page.rs:47-60 | an exhausted range yields None and stays as it is; otherwise it yields `start` and advances `start` or retracts `end` by one page |
| Paging.NextAsWritten | crates/x86/src/structures/paging/page.rs:47-60 | as written, a step panics exactly when the range is not exhausted and `start` is the last page of the lower half |
| Paging.Next | crates/x86/src/structures/paging/page.rs:47-60 | with the bound taken from the half holding `start`, a step panics only when `start` is the last lower-half page and `end` the first upper-half page |
| Paging.ExhaustedStaysExhausted | crates/x86/src/structures/paging/page.rs:47-60 | once `start` is past `end`, `next` returns None without changing the range |
| Paging.StepShrinks | crates/x86/src/structures/paging/page.rs:47-60 | each yielding step removes exactly one page from what remains, so the iterator terminates |
| Paging.NextWithinHalf | crates/x86/src/structures/paging/page.rs:47-60 | within one canonical half, a step never panics and yields `start` |
| Paging.Drain | crates/x86/src/structures/paging/page.rs:44-61 | a loop over the range that does not panic yields exactly as many pages as the range holds |
| Paging.DrainWithinHalf | crates/x86/src/structures/paging/page.rs:44-61 | within one canonical half, the loop yields every page from `start` to `end` once, in increasing order |
| Paging.LastLowerPagePanics | crates/x86/src/structures/paging/page.rs:47-60 | as written, a range holding only the last lower-half page panics in its first step instead of yielding that page, because `start` is advanced before `Some(page)` is returned; the corrected loop yields it |
| Paging.DrainAgrees | crates/x86/src/structures/paging/page.rs:44-61 | within one half, when `end` is not the last lower-half page, the loop as written yields the same pages as the corrected loop: every page from `start` to `end` once, in order |
| Frames.FrameContaining | crates/x86/src/structures/paging/frame.rs:14-19 | the frame starts at a multiple of its size, at or below the address, less than one size below it |
| Frames.FrameFromStart | crates/x86/src/structures/paging/frame.rs:25-34 | an error exactly when the address is not aligned to the size; otherwise the frame starts at the address and is 4 KiB-tagged, whatever size was checked |
| Frames.ContainingRoundTrip | crates/x86/src/structures/paging/frame.rs:14-34 | a containing frame's start is accepted by `from_start_address`, and `containing_address` is idempotent |
| Frames.FromStartRoundTrip | crates/x86/src/structures/paging/frame.rs:21-34 | an aligned address is its frame's start, and is its own containing frame |
| Mapper.NextTable | crates/x86/src/structures/paging/mapper/mapped_page_table.rs:189-198 | a present, non-huge entry leads to the table in its frame; a present huge entry gives MappedToHugePage; otherwise NotMapped |
| Mapper.CreateNextTable | crates/x86/src/structures/paging/mapper/mapped_page_table.rs:211-249 | on success the entry leads to the table returned, and no table other than the two touched changes |
| Mapper.Widen | crates/x86/src/structures/paging/mapper/mapped_page_table.rs:229-232 | either branch leaves the entry with the union of its flags and the inserted ones |
| Mapper.CreateWithoutFrame | crates/x86/src/structures/paging/mapper/mapped_page_table.rs:222-228 | an unused entry with no free frame gives FrameAllocationFailed and changes nothing |
| Mapper.CreateOnUnused | crates/x86/src/structures/paging/mapper/mapped_page_table.rs:222-248 | an unused entry takes the next frame. Without PRESENT this panics. With HUGE_PAGE the entry stays written but nothing is zeroed. Otherwise the new table is zeroed and returned |
| Mapper.CreateOnUsed | crates/x86/src/structures/paging/mapper/mapped_page_table.rs:229-234 | a used entry keeps its address and gains the inserted flags; nothing is allocated and no other table changes |
| Mapper.CreateOnUsedOutcome | crates/x86/src/structures/paging/mapper/mapped_page_table.rs:229-242 | a used entry panics if the widened flags lack PRESENT, reports a huge parent if they have HUGE_PAGE, and otherwise leads to the table at its address |
| Mapper.CreateOnPresent | crates/x86/src/structures/paging/mapper/mapped_page_table.rs:229-242 | an entry that already leads to a table, widened with flags other than HUGE_PAGE, still leads to that table, and no other table changes |
| Mapper.Flush | crates/x86/src/structures/paging/mapper/mod.rs:55-65 | the address invalidated is the page's start, a boundary whose containing page is the page itself |
| Mapper.MapTo4KiB | crates/x86/src/structures/paging/mapper/mapped_page_table.rs:30-63 | on success the level-1 entry is `frame \| flags` and the flush names the page. The walk reaches a level-1 table exactly on success or PageAlreadyMapped, and then PageAlreadyMapped happens exactly when the level-1 entry found is in use. It carries the requested frame. An error leaves memory as the walk left it |
| Mapper.AlreadyMappedKeepsLeaf | crates/x86/src/structures/paging/mapper/mapped_page_table.rs:58-60 | with three distinct tables on the path, PageAlreadyMapped reports the requested frame, not the one already there, and the level-1 entry is in use and is the entry that was there before the call |
| Mapper.ParentFlags | crates/x86/src/structures/paging/mapper/mod.rs:79-82 | the parent flags hold PRESENT, WRITABLE and USER_ACCESSIBLE exactly when the requested flags do, and nothing else |
| Mapper.MapTo | crates/x86/src/structures/paging/mapper/mod.rs:68-86 | `map_to` with the parent flags: on success the level-1 entry is `frame \| flags` and the flush names the page; an error changes nothing after the walk, and PageAlreadyMapped carries the requested frame |
| Mapper.MappedStart | crates/x86/src/structures/paging/mapper/mod.rs:24-30 | the wrapped frame's start for every variant, a boundary of the variant's size |
| Mapper.HugeMapping | crates/x86/src/structures/paging/mapper/mapped_page_table.rs:86-115 | a huge level-3 or level-2 entry maps the 1 GiB or 2 MiB frame holding its address, with the address bits below that size as offset and the entry's flags |
| Mapper.LeafMapping | crates/x86/src/structures/paging/mapper/mapped_page_table.rs:118-135 | a zero word is NotMapped; any other word maps the 4 KiB frame at its address, present or not, with the low 12 address bits as offset; never InvalidFrameAddress |
| Mapper.Translate | crates/x86/src/structures/paging/mapper/mapped_page_table.rs:67-136 | a mapped result has a frame of the size of its variant and an offset equal to the address modulo that size; InvalidFrameAddress never occurs |
| Mapper.ResolveAddr | crates/x86/src/structures/paging/mapper/mod.rs:46-51 | not mapped gives None; mapped gives `start + offset`, and panics when that reaches 2^52 |
| Mapper.TranslateAddr | crates/x86/src/structures/paging/mapper/mod.rs:46-51 | a panicking walk panics; otherwise the walk's result, resolved |
| Mapper.TranslateWalk | crates/x86/src/structures/paging/mapper/mapped_page_table.rs:67-136 | a walk whose upper three entries lead to tables ends in the level-1 entry's mapping |
| Mapper.MapOkWalk | crates/x86/src/structures/paging/mapper/mapped_page_table.rs:30-63 | after a successful map through three distinct tables, the walk for the page leads through those tables |
| Mapper.MapThenTranslate | crates/x86/src/structures/paging/mapper/mapped_page_table.rs:30-136 | after a successful map with PRESENT through fresh tables, translating the page's start gives the frame, offset 0 and the flags |
| Mapper.MapToThenTranslate | crates/x86/src/structures/paging/mapper/mod.rs:68-86 | the same through `map_to` and its parent flags |
| Mapper.MapTwice | crates/x86/src/structures/paging/mapper/mapped_page_table.rs:58-62 | when the first successful map wrote a word other than 0 and went through three distinct tables, mapping the page again, to any frame, gives PageAlreadyMapped with the new frame, and translating the page still gives the first frame and flags |
| Mapper.MapTwiceZeroLeaf | crates/x86/src/structures/paging/mapper/mapped_page_table.rs:58-62 | when the first successful map wrote the word 0 (frame 0, no flags), the leaf still counts as unused and mapping the page again succeeds |
| Mapper.RemapKeepsWalk | crates/x86/src/structures/paging/mapper/mapped_page_table.rs:30-63 | mapping a page whose walk already reaches a used level-1 entry through three distinct tables gives PageAlreadyMapped, keeps the walk through the same tables, and leaves the level-1 entry as it was |
| Mapper.InvalidFrameAddressUnreachable | crates/x86/src/structures/paging/mapper/mapped_page_table.rs:124-127 | `translate` never reports InvalidFrameAddress, so `translate_addr` gives None exactly for NotMapped |
| Privilege.Discriminant | crates/x86/src/lib.rs:14-20 | the discriminants are 0 to 3 |
| Privilege.PrivilegeFrom | crates/x86/src/lib.rs:22-33 | succeeds exactly for 0 to 3, with the ring of that discriminant; panics otherwise |
| Privilege.PrivilegeRoundTrip | crates/x86/src/lib.rs:14-33 | converting a ring to its discriminant and back gives the ring |
| Segmentation.SelectorNew | crates/x86/src/segmentation/mod.rs:11-13 | the low two bits are the RPL, bit 2 is 0, and the remaining bits are the index's low 13 bits |
| Segmentation.SelectorRoundTrip | crates/x86/src/segmentation/mod.rs:11-13 | an index below 8192 is recovered from the selector, and a larger one loses its high bits |
| Segmentation.SelectorInjective | crates/x86/src/segmentation/mod.rs:11-13 | equal selectors have the same RPL and the same 13-bit index |
| Gdt.Dpl | crates/x86/src/dt/gdt.rs:52-59 | never panics, and the ring's discriminant is bits 45-46 of the low word |
| Gdt.KernelCodeSegmentBits | crates/x86/src/dt/gdt.rs:31-43 | KERNEL_CODE64 is the listed flags with all limit bits, has no base bits and DPL 0 |
| Gdt.TssSegment | crates/x86/src/dt/gdt.rs:65-77 | a system descriptor with `ptr` bits in low 16-39, 56-63 and high 0-31, limit `size - 1`, type 0b1001, present, DPL 0 and no other flag |
| Gdt.TssSegmentBase | crates/x86/src/dt/gdt.rs:65-77 | the TSS address is recovered from the three base fields, and the DPL is ring 0 |
| Gdt.GdtDefault | crates/x86/src/dt/gdt.rs:90-97 | one slot in use and all eight slots zero |
| Gdt.Append | crates/x86/src/dt/gdt.rs:113-134 | panics exactly when the descriptor's one or two slots do not fit. Otherwise the words go to slots `len` and `len + 1`, and the selector names slot `len` with the descriptor's DPL. No other slot changes |
| Gdt.GdtLimit | crates/x86/src/dt/gdt.rs:106-111 | the limit is `8 * len - 1` |
| Idt.SetPresent | crates/x86/src/dt/idt.rs:18-20 | sets or clears bit 15 and keeps bits 0-14 |
| Idt.SetStackIndex | crates/x86/src/dt/idt.rs:22-25 | succeeds exactly when `index + 1 < 8`; bits 0-2 become `index + 1` and the rest is kept |
| Idt.SetHandlerAddr | crates/x86/src/dt/idt.rs:46-53 | the three address pieces reassemble to the address; the selector is the current CS; only the present bit is added to the options |
| Idt.HandlerAddr | crates/x86/src/dt/idt.rs:46-53 | splitting the assembled address into 16, 16 and 32 bits gives back the three stored pieces |
| Idt.IndexField | crates/x86/src/dt/idt.rs:144-196 | vectors 0-7, 9, 16, 19, 20, 28 and 32-255 select the entry at their own position; reserved, error-code and diverging vectors panic with their message |
| Idt.IdtDefault | crates/x86/src/dt/idt.rs:109-142 | all 256 entries are the default entry |
| Idt.PositionInjective | crates/x86/src/dt/idt.rs:60-90 | distinct fields are distinct entries of the table |
| Idt.IdtLimit | crates/x86/src/dt/idt.rs:92-100 | the limit is the table's byte size, 256 * 16, minus one |
| Tss.RoundUp | crates/x86/src/tss/mod.rs:3 | the least multiple of the alignment at or above the offset |
| Tss.TssLayout | crates/x86/src/tss/mod.rs:3-12 | under `packed(4)` the fields sit at 0, 4, 28, 36, 92, 100 and 108, end at 110, and the struct is 112 bytes |
| Tss.TssLayoutMismatch | crates/x86/src/tss/mod.rs:9-11 | as declared, `iomap_base` is not at byte 102 and the size is not 104 |
| Tss.TssLayoutFixed | crates/x86/src/tss/mod.rs:9-11 | with the second reserved word a u16, `iomap_base` is at byte 102 and the size is 104 |
| Tss.TssDefault | crates/x86/src/tss/mod.rs:14-26 | all stack slots and reserved fields are 0, and `iomap_base` is the struct's size |
| InterruptFlag.AreEnabled | crates/x86/src/instructions/interrupts.rs:21-24 | true exactly when RFLAGS bit 9 is set |
| InterruptFlag.WithoutInterrupts | crates/x86/src/instructions/interrupts.rs:26-43 | `f` runs with interrupts off and its result is returned. When they were on, `cli` and `sti` are issued and they end on. Otherwise nothing is issued |
| InterruptFlag.WithoutInterruptsRestores | crates/x86/src/instructions/interrupts.rs:26-43 | when `f` leaves the flag off, the flag on exit equals the flag on entry |
| Control.Cr3ReadRaw | crates/x86/src/registers/control.rs:23-32 | the 4 KiB frame at bits 12-51 of the register, and the low 12 bits as flags |
| Control.Cr3Read | crates/x86/src/registers/control.rs:9-21 | the same frame, keeping only bits 3 and 4 of the flags |
| Pic8259.PicHandles | crates/pic/src/pic8259/mod.rs:14-16 | `offset <= id < offset + 8`; panics when the sum overflows u8 and is evaluated |
| Pic8259.NewChainedPics | crates/pic/src/pic8259/mod.rs:36-51 | the primary controller has the first offset and ports 0x20/0x21; the secondary has the second offset and ports 0xA0/0xA1 |
| Pic8259.ChainedHandles | crates/pic/src/pic8259/mod.rs:85-87 | the primary's answer, falling back to the secondary's when the primary says no |
| Pic8259.NotifyEndOfInterrupt | crates/pic/src/pic8259/mod.rs:89-96 | nothing for an unhandled vector; for a secondary vector 0x20 to 0xA0 then 0x20 to 0x20; otherwise 0x20 to 0x20 alone |
| Pic8259.Initialize | crates/pic/src/pic8259/mod.rs:53-83 | reads both masks first, waits after every init write, and writes the saved masks back last |
| Pic8259.InitializeWrites | crates/pic/src/pic8259/mod.rs:60-81 | the non-wait writes are ICW1-ICW4 to each controller in order, then the saved masks |
| Kernel.KernelPicsHandle | crates/kernel/src/interrupts.rs:7-11 | with offsets 32 and 40 the windows are 32..39 and 40..47, and the pair handles exactly 32..47 |
| Kernel.KernelEndOfInterrupt | crates/kernel/src/interrupts.rs:7-11 | for the kernel's controllers, end of interrupt writes 0xA0 then 0x20 for 40..47, only 0x20 for 32..39, and nothing otherwise |
| Kernel.TimerHandler | crates/kernel/src/lib.rs:88-93 | the timer handler writes one end of interrupt, 0x20 to port 0x20 |
| Kernel.KeyboardHandler | crates/kernel/src/interrupts.rs:34-49 | one byte read from port 0x60, that byte queued, then one end of interrupt to port 0x20 |
| Kernel.InstallAt | crates/kernel/src/lib.rs:35-36 | installing at a vector succeeds exactly when indexing that vector does, and changes only the entry it selects |
| Kernel.InstalledOnStack | crates/kernel/src/lib.rs:32-34 | the double-fault entry holds its handler with options 0x8E01 |
| Kernel.DoubleFaultOptions | crates/kernel/src/lib.rs:32-34 | `set_stack_index(0)` on a present default entry succeeds with IST field 1 |
| Kernel.BuildIdtShape | crates/kernel/src/lib.rs:28-38 | the table is the default table with entries 0, 3, 8, 32 and 33 replaced |
| Kernel.BuildIdtResult | crates/kernel/src/lib.rs:28-38 | building the IDT never panics. The five handlers are present at 0, 3, 8, 32 and 33, the double fault uses stack 1, and every other entry is the default |
| Kernel.BuildIdt | crates/kernel/src/lib.rs:28-38 | never panics, and the timer and keyboard entries hold their handlers' addresses |
| Kernel.BuildTss | crates/kernel/src/lib.rs:39-50 | panics exactly when the stack end overflows u64; otherwise the default TSS with IST slot 0 at the start plus 20 KiB |
| Kernel.BuildGdt | crates/kernel/src/lib.rs:51-56 | never panics; four slots are used, the code selector has index 1 and the TSS selector index 2 |
| Kernel.BuildGdtResult | crates/kernel/src/lib.rs:51-56 | never panics; the code selector is 8, the TSS selector 16, four slots are used, and the TSS limit is its size minus one |
| Kernel.Init | crates/kernel/src/lib.rs:59-68 | load the GDT, set CS, load the TSS, load the IDT, then initialise the controllers, then enable interrupts |
| Kernel.InitOrder | crates/kernel/src/lib.rs:59-68 | interrupts are enabled once, last, and no port access precedes the IDT load |
| PciAccess.Address | crates/pci/src/access.rs:31-39 | panics exactly for function >= 8 or device >= 32. Otherwise the offset is in bits 0-7, function 8-10, device 11-15, bus 16-23, and bit 31 is set |
| PciAccess.AddressRoundTrip | crates/pci/src/access.rs:31-39 | bus, device, function and offset are all recovered from the address |
| PciAccess.Read | crates/pci/src/access.rs:60-67 | the address goes to 0xCF8 before the dword is read from 0xCFC |
| PciAccess.Write | crates/pci/src/access.rs:69-76 | the address goes to 0xCF8 before the dword is written to 0xCFC |
| PciAccess.BytesLowFirst | crates/pci/src/access.rs:43-52 | the bytes, least significant first, reassemble to the dword |
| PciAccess.HalvesLowFirst | crates/pci/src/access.rs:54-58 | `low \| high << 16` is the dword |
| PciAccess.Read8 | crates/pci/src/access.rs:43-52 | the dword `read` returns, split least significant byte first |
| PciAccess.Read16 | crates/pci/src/access.rs:54-58 | the dword `read` returns, split low half first |
| PciRegister.RegisterAddress | crates/pci/src/register.rs:4-8 | bit 31 set, bits 24-30 clear, the offset's low two bits cleared |
| PciRegister.RegisterMatchesAccess | crates/pci/src/register.rs:4-8 | for an in-range location, the address with the offset's low bits cleared |
| PciRegister.FieldsBleed | crates/pci/src/register.rs:4-8 | function 8 bleeds into the device field, and an oversized device into the bus field |
| PciRegister.ReadRegister | crates/pci/src/register.rs:3-15 | the address to 0xCF8, then the dword at that address read from 0xCFC |
| PciRegister.Read16bRegister | crates/pci/src/register.rs:17-20 | `(low half, high half)` of the dword read |
| PciRegister.BytesHighFirst | crates/pci/src/register.rs:22-31 | the bytes, most significant first, reassemble to the dword |
| PciRegister.ByteOrdersOpposite | crates/pci/src/register.rs:22-31 | the `register.rs` byte split is the reverse of the `access.rs` one |
| PciRegister.Read8bRegister | crates/pci/src/register.rs:22-31 | the dword read, split most significant byte first |
| PciRegister.AmountOffByTwo | crates/pci/src/register.rs:56 | the `checked_add` never overflows, and the result as written is the conventional size minus 2 |
| PciRegister.AmountOf4KiBBar | crates/pci/src/register.rs:56 | for a 4 KiB BAR the conventional size is 0x1000 and the code gives 0xFFE |
| PciRegister.AddressSpaceSize | crates/pci/src/register.rs:56 | the corrected computation, `!masked + 1`: the size added to the masked response wraps to 0 |
| PciRegister.AmountAsWritten | crates/pci/src/register.rs:56 | the code's `!(masked + 1)`: the result plus the masked response plus 2 wraps to 0 |
| PciRegister.SizeRecovered | crates/pci/src/register.rs:56 | from the response of a BAR decoding a power-of-two size, the corrected computation gives that size whatever the flag bits |
| PciRegister.ReadAddressSpaceAmount | crates/pci/src/register.rs:33-56 | the address, the original read, all ones written, the response read, and the original written back; the value is the code's `!(masked + 1)`, which is the corrected size minus 2 |
| PciBar.TypeBit | crates/pci/src/structures/register/bar.rs:25-27 | bit 0 of the register |
| PciBar.BarNew | crates/pci/src/structures/register/bar.rs:10-16 | memory exactly when bit 0 is clear, I/O exactly when it is set, so the panic arm is unreachable; the raw bits are kept |
| PciBar.BarRoundTrip | crates/pci/src/structures/register/bar.rs:10-16 | `new` of a BAR's bits gives the BAR back |
| PciBar.BarAddress | crates/pci/src/structures/register/bar.rs:18-23 | a memory BAR drops its four flag bits and an I/O BAR its two |
| PciBar.MemorySize | crates/pci/src/structures/register/bar.rs:49-56 | bits 1-2 equal to 0 give Bits32, equal to 2 give Bits64, and 1 or 3 panic |
| PciBus.FlagMasks | crates/pci/src/structures/register/command.rs:5-16 | the two declared-flag masks are the unions of the declared command and status flags |
| PciBus.Truncate | crates/pci/src/bus.rs:59-60 | `from_bits_truncate` keeps exactly the declared bits |
| PciBus.JoinAsWrittenIsZero | crates/pci/src/bus.rs:119-120 | as written, the secondary status and bridge control joins are always 0 |
| PciBus.JoinAsWritten | crates/pci/src/bus.rs:119-120 | `(s1 << 8) & s2` on u16 is 0 for every pair of bytes |
| PciBus.Join | crates/pci/src/bus.rs:119-120 | the corrected join has the high byte in bits 8-15 and the low byte in bits 0-7 |
| PciBus.JoinUpperHalf | crates/pci/src/bus.rs:117-120 | bytes 2 and 3 of a dword, joined, are its upper half |
| PciBus.ScanNew | crates/pci/src/bus.rs:19-25 | the scan starts at slot 0, bus 0 device 0 |
| PciBus.DoneIsLast | crates/pci/src/bus.rs:27-29 | `done` holds exactly at the last slot, (255, 31) |
| PciBus.Increment | crates/pci/src/bus.rs:31-39 | the next slot in bus-major order; overflows only past the last slot |
| PciBus.Probed | crates/pci/src/bus.rs:45 | only function 0 of the slot is probed, at a valid location |
| PciBus.CommonHeader | crates/pci/src/bus.rs:47-69 | vendor and device ids reassemble dword 0; command and status keep only their declared bits; the header type is byte 2 of dword 0x0C |
| PciBus.GeneralDevice | crates/pci/src/bus.rs:74-103 | six BARs from 0x10..0x24, and byte 0 of dword 0x3C in `max_latency`, byte 3 in `interrupt_line` |
| PciBus.BridgeDevice | crates/pci/src/bus.rs:105-157 | two BARs and the header fields at their offsets; the secondary status and bridge control are both 0, as the code's joins give |
| PciBus.BridgeStatusLost | crates/pci/src/bus.rs:117-120 | a bridge whose dword 0x1C has a non-zero upper half gets a secondary status different from that half |
| PciBus.ScanDevice | crates/pci/src/bus.rs:41-163 | vendor 0xFFFF gives None; header type 0 gives General, 1 gives PciToPci, and anything else None |
| PciBus.Next | crates/pci/src/bus.rs:169-183 | never moves backwards; reports None only at the end, and stays there once done |
| PciBus.NextFindsFirst | crates/pci/src/bus.rs:169-183 | one `next` returns the first device at or after the current slot, and None when there is none before the end |
| PciBus.CollectEnumerates | crates/pci/src/bus.rs:169-183 | calling `next` until None yields every device from the current slot on, in slot order, each once |
| PciBus.FullScan | crates/pci/src/bus.rs:169-183 | a full scan yields the devices of every slot but (255, 31), in order |
| Vga.ColorCode | crates/vga/src/lib.rs:32-51 | every colour code fits in four bits |
| Vga.StyleNew | crates/vga/src/lib.rs:57-61 | the background in the high nibble and the foreground in the low nibble |
| Vga.StyleInjective | crates/vga/src/lib.rs:57-61 | distinct colour pairs give distinct styles |
| Vga.CharFrom | crates/vga/src/lib.rs:70-77 | the code point truncated to u8, white on black |
| Vga.CharNew | crates/vga/src/lib.rs:79-86 | the code point truncated to u8, in the given style |
| Vga.BufferWrite | crates/vga/src/lib.rs:97-101 | in bounds exactly for `y < 25` and `x < 80`; sets cell `[y][x]` and changes no other cell |
| Vga.WriterNew | crates/vga/src/lib.rs:110-116 | column 0, white on black |
| Vga.ClearRow | crates/vga/src/lib.rs:145-154 | all 80 cells of the row become spaces in the current style, and no other row changes |
| Vga.NewLine | crates/vga/src/lib.rs:156-166 | every row moves up one, the bottom row is blanked, and the column becomes 0 |
| Vga.NewLineInPlace | crates/vga/src/lib.rs:156-166 | the cell-by-cell loop computes `NewLine` |
| Vga.ClearRowInPlace | crates/vga/src/lib.rs:145-154 | the cell-by-cell loop blanks exactly the row |
| Vga.WriteByte | crates/vga/src/lib.rs:127-143 | a newline is `new_line`. Any other byte wraps first when the column is 80 or more, then goes to the bottom row at the column, which advances. The column stays at most 80 |
| Vga.SanitizeAll | crates/vga/src/lib.rs:118-125 | one output byte per input byte, each printable, a newline or 0xFE |
| Vga.WriteStringFilters | crates/vga/src/lib.rs:118-125 | `write_string` is `write_byte` of the filtered bytes |
| Vga.WriteStringAppend | crates/vga/src/lib.rs:118-125 | writing two strings in turn is writing their concatenation |
| Vga.WriteString | crates/vga/src/lib.rs:118-125 | the style is kept, the column stays within the row width, and a string without newlines that fits moves the column by its length |
| Vga.WriteLineFromStart | crates/vga/src/lib.rs:118-143 | a short line without newlines, written from column 0, fills the bottom row from the left and leaves the other rows alone |
| Tty.TtyDefault | crates/kernel/src/tty/mod.rs:13-18 | the default cursor is at row 0, column 0 |
| Tty.SetStyle | crates/kernel/src/tty/mod.rs:21-28 | changes only the style, to the colour pair |
| Tty.NewLine | crates/kernel/src/tty/mod.rs:87-91 | the row grows by one with no screen bound, panicking only at the u64 limit, and the column becomes 0 |
| Tty.WriteByte | crates/kernel/src/tty/mod.rs:64-79 | a newline is `new_line`. Otherwise the byte goes to (row, column), or to (row + 1, 0) after a wrap when the column is 80 or more, and the column advances |
| Tty.CharByte | crates/kernel/src/tty/mod.rs:59-62 | `char as u8`, the byte a cell of the character holds |
| Tty.ClearChar | crates/kernel/src/tty/mod.rs:81-85 | panics exactly at column 0; otherwise blanks the previous cell and moves back onto it |
| Tty.ClearRow | crates/kernel/src/tty/mod.rs:105-111 | 80 blank cells of the row, in column order |
| Tty.ClearLastLine | crates/kernel/src/tty/mod.rs:48-57 | 80 white-on-black blanks passed as (x, last row) |
| Tty.ClearLastLineArgumentOrder | crates/kernel/src/tty/mod.rs:48-57 | `clear_last_line` passes (column, row) where `clear_row` passes (row, column); they agree only at column 24 |
| Tty.Scroll | crates/kernel/src/tty/mod.rs:93-103 | copies every row from the one below, blanks the last row, keeps the row and resets the column |
| Tty.WriteRow | crates/kernel/src/tty/mod.rs:113-119 | clears the row first, then writes the string from (row, 0) |
| Tty.WriteStr | crates/kernel/src/tty/mod.rs:122-129 | the empty string writes nothing; a completed write keeps the style and moves the cursor down by at most one row per character, never up |
| Tty.WriteStrAppend | crates/kernel/src/tty/mod.rs:122-129 | writing two strings in turn is writing their concatenation |
| Tty.WriteStrFits | crates/kernel/src/tty/mod.rs:122-129 | a string without newlines that fits writes its cells from the cursor and advances the column by its length |
| Tty.WriteNewline | crates/kernel/src/tty/mod.rs:87-91 | a newline moves to the next row's start and writes nothing |
| Tty.NewlineThenText | crates/kernel/src/tty/mod.rs:122-129 | a newline and then a short line without newlines put the line on the next row from column 0, with the cursor after it |
| Tty.PrintLine | crates/kernel/src/tty/mod.rs:122-129 | a newline, a short line and a newline put the line on the next row and the cursor at the start of the row after |
| Tty.WrapsPastWidth | crates/kernel/src/tty/mod.rs:64-79 | past the width, a byte goes to the start of the next row |
| Tty.ClearCharAfterWrite | crates/kernel/src/tty/mod.rs:64-85 | deleting right after writing blanks the written cell and restores the cursor |
| Tty.WriteStrTruncates | crates/kernel/src/tty/mod.rs:59-62 | strings with the same low bytes write the same cells |
| Tty.WriteRowFits | crates/kernel/src/tty/mod.rs:105-129 | a short line is written as the row cleared and then its cells from column 0 |
| Tty.DefaultWriteFits | crates/kernel/src/tty/mod.rs:122-129 | from the default cursor, a short line fills row 0 from the left |
| Serial.RegisterPort | crates/serial/src/uart16550.rs:29-55 | the register is the base plus its offset; panics when that overflows u16 |
| Serial.RegistersDistinct | crates/serial/src/uart16550.rs:29-55 | data is the base, and the six registers are distinct ports |
| Serial.LineStatus | crates/serial/src/lib.rs:6-11 | only INPUT_FULL and OUTPUT_EMPTY survive, and OUTPUT_EMPTY is bit 5 of the raw status |
| Serial.Init | crates/serial/src/uart16550.rs:61-86 | panics exactly when a register port overflows; otherwise the eight writes to base-relative ports in order |
| Serial.Serial1Init | crates/serial/src/uart16550.rs:61-86 | COM1's trace is 0x00 to 0x3F9, 0x80 to 0x3FB, 0x03 to 0x3F8, 0x00 to 0x3F9, 0x03 to 0x3FB, 0xC7 to 0x3FA, 0x0B to 0x3FC, 0x01 to 0x3F9 |
| Serial.Wait | crates/serial/src/uart16550.rs:88-91 | the wait never faults and consumes at least one status reading when it ends |
| Serial.WaitReadsUntilEmpty | crates/serial/src/uart16550.rs:88-91 | the wait reads the status port until the first reading with OUTPUT_EMPTY, and no further |
| Serial.WaitSpinsIffNeverEmpty | crates/serial/src/uart16550.rs:88-91 | the wait spins forever exactly when no reading shows OUTPUT_EMPTY |
| Serial.SendRaw | crates/serial/src/uart16550.rs:88-93 | faults exactly when the status port overflows u16 |
| Serial.SendRawWritesLast | crates/serial/src/uart16550.rs:88-93 | the data port is written once, as the last event, after the status reads |
| Serial.SendRawWritten | crates/serial/src/uart16550.rs:88-93 | the data port receives exactly the byte |
| Serial.SendAllWritten | crates/serial/src/uart16550.rs:95-106 | a completed send writes exactly its bytes, in order, to the data port |
| Serial.SendAll | crates/serial/src/uart16550.rs:88-106 | faults exactly when there are bytes and the status port overflows u16; a completed send consumes at least one status reading per byte |
| Serial.Send | crates/serial/src/uart16550.rs:95-106 | backspace and delete go out as backspace, space, backspace, any other byte as itself; faults exactly when the status port overflows; a completed send consumes at least one status reading |
| Serial.WriteStr | crates/serial/src/uart16550.rs:109-116 | faults exactly when the text is not empty and the status port overflows; a completed write consumes at least one status reading per byte |
| Serial.WriteStrWritten | crates/serial/src/uart16550.rs:109-116 | `write_str` writes each byte's expansion, in order |
| Serial.ExpandAllPlain | crates/serial/src/uart16550.rs:95-116 | a string without backspace or delete bytes is transmitted unchanged |
| Commands.Run | crates/shell/src/commands/mod.rs:3-17 | exits with success exactly for "shutdown"; "hello" replies "Hello world" and anything else "Command not found" |
| Commands.RunIsExact | crates/shell/src/commands/mod.rs:3-9 | matching is exact, with no trimming or case folding |
| Commands.RepliesFitOneRow | crates/shell/src/commands/mod.rs:3-13 | every reply is 1 to 80 characters with no newline byte |
| Shell.ShellNew | crates/shell/src/lib.rs:26-30 | the command line starts empty |
| Shell.Render | crates/shell/src/lib.rs:68-72 | the prompt and the command line are written over the current row, which is cleared first |
| Shell.Rendered | crates/shell/src/lib.rs:68-72 | the shell goes on exactly when rendering does not panic |
| Shell.Enter | crates/shell/src/lib.rs:74-79 | halts exactly when the command exits; otherwise the command line is empty again |
| Shell.Pop | crates/shell/src/lib.rs:59 | removes the last character, and leaves an empty line as it is |
| Shell.HandleKeypress | crates/shell/src/lib.rs:54-66 | classifies by `char as u8`: newline runs `enter`, byte 8 pops, anything else is appended; then renders |
| Shell.KeysByLowByte | crates/shell/src/lib.rs:55 | U+010A acts as Enter and U+0108 as backspace |
| Shell.TypeThenDelete | crates/shell/src/lib.rs:54-66 | typing a character and deleting it leaves the command line as it was |
| Shell.RenderFits | crates/shell/src/lib.rs:68-72 | a short command line is drawn as the row cleared and then the prompt and command, with the cursor after them |
| Shell.EnterReplies | crates/shell/src/lib.rs:74-79 | a reply goes on the next row and the empty prompt on the row after |
| Shell.EnterShutdown | crates/shell/src/lib.rs:74-79 | "shutdown" followed by Enter exits with success |
| Terminal.TerminalNew | crates/terminal/src/lib.rs:16-20 | the command starts empty |
| Terminal.EnterCmd | crates/terminal/src/lib.rs:51-53 | the state is left as it is: the body is empty |
| Terminal.KeyPress | crates/terminal/src/lib.rs:40-49 | Unicode newline changes nothing; other Unicode characters are appended and echoed; raw keys change nothing |
| Terminal.KeyPressesTyped | crates/terminal/src/lib.rs:40-49 | a key sequence appends and echoes exactly its non-newline Unicode characters |
| Terminal.FreshTerminalCollects | crates/terminal/src/lib.rs:40-53 | from a new terminal the command is what was typed, and a final Enter leaves it as it is |
| Terminal.TypedAppendNewline | crates/terminal/src/lib.rs:40-49 | a newline key adds nothing to what was typed |

## Left out

- Privileged instructions become events or inputs, and are otherwise not
  modelled: `lgdt`, `lidt`, `ltr`, far-reloading CS, `cli`, `sti`, `hlt`,
  `invlpg`, `mov cr3`, `pushfq`, and port `in`/`out`. The CS value is a
  parameter of `Idt.SetHandlerAddr`, RFLAGS and CR3 are parameters, and
  `Mapper.Flush` returns the address `invlpg` is given.
- `frame_to_pointer` and its dereference become a total store from frame
  address to table. The level-4 table is held outside that store, so a
  level-4 table that is also reachable through its own frame (recursive
  mapping) is not modelled. The allocator becomes a list of frames.
  `offset_page_table.rs` only delegates, and is not part of this model.
- `spin::Mutex`, `lazy_static`, the async key loops of the shell and the
  terminal, `pc_keyboard` decoding, and the `_print`/`println!` wrappers.
  These are concurrency or external crates.
- The exception handler bodies are left out: divide-by-zero and double
  fault panic, and breakpoint prints. Only the addresses of the handlers
  are modelled. The `println!` in `scan_device` is not modelled either.
- `crates/vga/src/lib.rs` defines no free `read`/`write` functions and
  keeps its `BUFFER_*` constants private, yet the TTY calls those
  functions and imports those constants. `Tty` therefore produces a
  sequence of cell operations rather than a screen.
- Tty.TtyDefault: the default style is taken as 0, because `CharStyle`
  derives no `Default` in `crates/vga/src/lib.rs`.
- `kernel::exit` and `ExitCode` are defined outside the modelled crates;
  exiting is the `Halted` result of the shell. `crates/qemu/src/lib.rs` is not part of this model.
- Serial.WriteStr: takes the UTF-8 bytes of the string as its input.
- Serial.Init: when it panics part-way, the events before the panic are
  not recorded.
- Terminal.KeyPress: the echo is returned as text and is not routed
  through the VGA writer.
- Addr.AlignDown: the result is characterised only for power-of-two
  alignments, the only ones the code passes. For other alignments only
  `r <= addr` is stated.
- Addr.AlignUp: characterised only for power-of-two alignments, like
  `AlignDown`.
- Serial.Wait: the status register is a finite sequence of readings, and
  running out of readings stands for spinning forever.
- PciBus.Next: the loop is modelled as a recursion over the remaining
  slots. Probing is a function of the slot, which the configuration space
  makes it.
- Mapper.MapTwice: assumes that the first mapping went through three
  distinct table frames, as fresh frames from the allocator give. It
  also needs the first mapping's word to be other than 0; without that,
  `Mapper.MapTwiceZeroLeaf` shows the second mapping succeeds.
- Mapper.MapThenTranslate: assumes that the three tables on the path are
  distinct frames. Fresh frames from the allocator give this.
- The `Debug` impls, `PageTable::iter`/`iter_mut` and `Index`/`IndexMut`
  on a page table are plain accessors. `pci/src/lib.rs` and `virtio` are
  not part of this model.

## Findings

| source | as written | input that shows it | evidently intended | confidence | as-written member | corrected member |
|---|---|---|---|---|---|---|
| crates/x86/src/structures/paging/page.rs:51-53 | `next` compares `start` against the last page below 2^64 and then steps `start` through `VirtAddr +`, which panics on a non-canonical sum | the range from 0x7FFF_FFFF_F000 to 0x7FFF_FFFF_F000 (4 KiB): the first call panics stepping `start` to 2^47, before the page is yielded | stop at the end of the canonical half holding `start` | high; not executed | Paging.LastLowerPagePanics | Paging.DrainWithinHalf |
| crates/x86/src/tss/mod.rs:10 | `reserved_4: u64` puts `iomap_base` at byte 108 and makes the segment 112 bytes | `TaskStateSegment::default()`: `iomap_base` is read by the processor at byte 102 of the 104-byte 64-bit TSS (section 8.7 of the Intel SDM Vol. 3A) | a u16 reserved field, which gives offset 102 and size 104 | medium; not executed | Tss.TssLayoutMismatch | Tss.TssLayoutFixed |
| crates/pci/src/register.rs:56 | `!(masked.checked_add(1).unwrap_or(0))` complements after the increment | a 4 KiB memory BAR answering 0xFFFF_F000 gives 0xFFE | `!masked + 1`, which gives 0x1000 | high; not executed | PciRegister.AmountOf4KiBBar | PciRegister.SizeRecovered |
| crates/pci/src/bus.rs:119-120 | `(s1 as u16) << 8 & (s2 as u16)`: `<<` binds tighter than `&`, and the low byte of the shifted value is 0 | a bridge whose dword 0x1C is 0x1234_0000 gets secondary status 0 instead of 0x1234 | `(s1 << 8) \| s2` | high; not executed | PciBus.BridgeStatusLost | PciBus.JoinUpperHalf |
