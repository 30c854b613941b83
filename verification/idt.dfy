/** The interrupt descriptor table: gate entries, their options word, and
    the mapping from vector numbers to the table's named fields. */
module Idt {
  import opened Common
  import opened Segmentation

  // ----- EntryOptions -----

  /** `EntryOptions(u16)`: bits 0-2 the interrupt stack index, bits 8-11
      the gate type, bit 15 present. */
  type EntryOptions = bv16

  /** `EntryOptions::default`: bits 9-11 set (a 64-bit interrupt gate),
      not present, no stack switch. */
  const DEFAULT_OPTIONS: EntryOptions := 0x0E00

  const PRESENT_BIT: EntryOptions := 0x8000

  /** `set_present`: bit 15 set or cleared, every other bit kept. */
  function SetPresent(o: EntryOptions, present: bool): (o': EntryOptions)
    ensures present ==> PresentSet(o) == o'
    ensures !present ==> PresentCleared(o) == o'
  {
    if present then PresentSet(o) else PresentCleared(o)
  }

  /** Bit 15 set, bits 0-14 kept. */
  function PresentSet(o: EntryOptions): (o': EntryOptions)
    ensures o' & PRESENT_BIT != 0 && o' & 0x7FFF == o & 0x7FFF
  {
    o | PRESENT_BIT
  }

  /** Bit 15 cleared, bits 0-14 kept. */
  function PresentCleared(o: EntryOptions): (o': EntryOptions)
    ensures o' & PRESENT_BIT == 0 && o' & 0x7FFF == o & 0x7FFF
  {
    assert (o & 0x7FFF) & 0x8000 == 0;
    o & 0x7FFF
  }

  /** `set_stack_index(index)`: bits 0-2 become `index + 1`. The addition
      panics for `index == 0xFFFF` and the bit-field crate panics when the
      sum does not fit in three bits. */
  function SetStackIndex(o: EntryOptions, index: U16): (r: Outcome<EntryOptions>)
    ensures r.Value? <==> index + 1 < 8
    ensures r.Value? ==> r.value & 7 == StackField(index) && r.value & 0xFFF8 == o & 0xFFF8
  {
    if index + 1 >= TWO_16 then Panic("attempt to add with overflow")
    else if index + 1 >= 8 then Panic("value does not fit into bit range")
    else Value((o & 0xFFF8) | StackField(index))
  }

  /** `index + 1` in the three stack-index bits. */
  function StackField(index: U16): (b: bv16)
    requires index + 1 < 8
    ensures b as int == index + 1 && 1 <= b < 8
  {
    (index + 1) as bv16
  }

  // ----- Entry -----

  datatype Entry = Entry(
    pointerLow: bv16,
    segmentSelector: Selector,
    options: EntryOptions,
    pointerMiddle: bv16,
    pointerHigh: bv32,
    reserved: bv32)

  /** `Entry::default`: every field 0 except the default options. */
  function DefaultEntry(): Entry {
    Entry(0, 0, DEFAULT_OPTIONS, 0, 0, 0)
  }

  /** The handler address an entry holds, its three pieces put together. */
  function HandlerAddr(e: Entry): (a: bv64)
    ensures (a & 0xFFFF) as bv16 == e.pointerLow
    ensures ((a >> 16) & 0xFFFF) as bv16 == e.pointerMiddle
    ensures (a >> 32) as bv32 == e.pointerHigh
  {
    (e.pointerLow as bv64) | ((e.pointerMiddle as bv64) << 16) | ((e.pointerHigh as bv64) << 32)
  }

  /** `set_handler_addr(addr)`: the address split into 16, 16 and 32 bits,
      the selector read from CS (here the parameter `cs`), and the present
      bit set. */
  function SetHandlerAddr(e: Entry, addr: bv64, cs: Selector): (e': Entry)
    ensures HandlerAddr(e') == addr
    ensures e'.segmentSelector == cs
    ensures e'.options == e.options | PRESENT_BIT
    ensures e'.reserved == e.reserved
  {
    e.(pointerLow := (addr & 0xFFFF) as bv16,
       pointerMiddle := ((addr >> 16) & 0xFFFF) as bv16,
       pointerHigh := ((addr >> 32) & 0xFFFF_FFFF) as bv32,
       segmentSelector := cs,
       options := SetPresent(e.options, true))
  }

  // ----- InterruptDescriptorTable -----

  /** The fields of `InterruptDescriptorTable`. */
  datatype Field =
    | DivideByZero | Debug | NonMaskableInterrupt | Breakpoint | Overflow
    | BoundRangeExceeded | InvalidOpcode | DeviceNotAvailable | DoubleFault
    | CoprocessorSegmentOverrun | InvalidTss | SegmentNotPresent | StackSegmentFault
    | GeneralProtectionFault | PageFault | Reserved1 | X87FloatingPoint
    | AlignmentCheck | MachineCheck | SimdFloatingPoint | Virtualization
    | CpProtectionException | Reserved2(i: nat) | HvInjectionException
    | VmmCommunicationException | SecurityException | Reserved3 | Interrupts(i: nat)

  /** A field that exists: the arrays are 6 and 224 entries long. */
  predicate ValidField(f: Field) {
    match f
    case Reserved2(i) => i < 6
    case Interrupts(i) => i < 224
    case _ => true
  }

  /** The entry number of a field in the `#[repr(C)]` layout, which lists
      the fields in vector order. */
  function Position(f: Field): nat
    requires ValidField(f)
  {
    match f
    case DivideByZero => 0
    case Debug => 1
    case NonMaskableInterrupt => 2
    case Breakpoint => 3
    case Overflow => 4
    case BoundRangeExceeded => 5
    case InvalidOpcode => 6
    case DeviceNotAvailable => 7
    case DoubleFault => 8
    case CoprocessorSegmentOverrun => 9
    case InvalidTss => 10
    case SegmentNotPresent => 11
    case StackSegmentFault => 12
    case GeneralProtectionFault => 13
    case PageFault => 14
    case Reserved1 => 15
    case X87FloatingPoint => 16
    case AlignmentCheck => 17
    case MachineCheck => 18
    case SimdFloatingPoint => 19
    case Virtualization => 20
    case CpProtectionException => 21
    case Reserved2(i) => 22 + i
    case HvInjectionException => 28
    case VmmCommunicationException => 29
    case SecurityException => 30
    case Reserved3 => 31
    case Interrupts(i) => 32 + i
  }

  /** Vectors that `Index` refuses because they are reserved. */
  predicate ReservedVector(v: U8) {
    v == 15 || v == 31 || 22 <= v <= 27
  }

  /** Vectors that `Index` refuses because the exception pushes an error
      code. */
  predicate ErrorCodeVector(v: U8) {
    v == 8 || 10 <= v <= 14 || v == 17 || v == 21 || v == 29 || v == 30
  }

  /** `Index<u8>` and `IndexMut<u8>`, whose match arms are identical: the
      field a vector selects, or the panic for the vectors whose handlers
      need another signature. */
  function IndexField(v: U8): (r: Outcome<Field>)
    ensures ReservedVector(v) ==> r == Panic("entry is reserved")
    ensures ErrorCodeVector(v) ==> r == Panic("entry is an exception with error code")
    ensures v == 18 ==> r == Panic("entry is a diverging exception (must not return)")
    ensures r.Value? <==> !ReservedVector(v) && !ErrorCodeVector(v) && v != 18
    ensures r.Value? ==> ValidField(r.value) && Position(r.value) == v
  {
    if v == 0 then Value(DivideByZero)
    else if v == 1 then Value(Debug)
    else if v == 2 then Value(NonMaskableInterrupt)
    else if v == 3 then Value(Breakpoint)
    else if v == 4 then Value(Overflow)
    else if v == 5 then Value(BoundRangeExceeded)
    else if v == 6 then Value(InvalidOpcode)
    else if v == 7 then Value(DeviceNotAvailable)
    else if v == 9 then Value(CoprocessorSegmentOverrun)
    else if v == 16 then Value(X87FloatingPoint)
    else if v == 19 then Value(SimdFloatingPoint)
    else if v == 20 then Value(Virtualization)
    else if v == 28 then Value(HvInjectionException)
    else if 32 <= v <= 255 then Value(Interrupts(v - 32))
    else if v == 15 || v == 31 || 22 <= v <= 27 then Panic("entry is reserved")
    else if v == 8 || 10 <= v <= 14 || v == 17 || v == 21 || v == 29 || v == 30 then
      Panic("entry is an exception with error code")
    else Panic("entry is a diverging exception (must not return)")
  }

  const IDT_ENTRIES: nat := 256
  /** `size_of::<Entry>()`: 2 + 2 + 2 + 2 + 4 + 4 bytes. */
  const ENTRY_SIZE: nat := 16

  /** The table as its 256 entries in layout order. */
  type InterruptDescriptorTable = t: seq<Entry> | |t| == IDT_ENTRIES
    witness seq(IDT_ENTRIES, _ => DefaultEntry())

  /** `InterruptDescriptorTable::default`: every entry the default entry. */
  function IdtDefault(): (t: InterruptDescriptorTable)
    ensures forall i :: 0 <= i < IDT_ENTRIES ==> t[i] == DefaultEntry()
  {
    seq(IDT_ENTRIES, _ => DefaultEntry())
  }

  function Get(t: InterruptDescriptorTable, f: Field): Entry
    requires ValidField(f)
  {
    PositionBound(f);
    t[Position(f)]
  }

  function Put(t: InterruptDescriptorTable, f: Field, e: Entry): (t': InterruptDescriptorTable)
    requires ValidField(f)
    ensures Get(t', f) == e
    ensures forall g :: ValidField(g) && Position(g) != Position(f) ==> Get(t', g) == Get(t, g)
  {
    PositionBound(f);
    t[Position(f) := e]
  }

  lemma PositionBound(f: Field)
    requires ValidField(f)
    ensures Position(f) < IDT_ENTRIES
  {}

  /** Distinct fields are distinct entries. */
  lemma PositionInjective(f: Field, g: Field)
    requires ValidField(f) && ValidField(g) && f != g
    ensures Position(f) != Position(g)
  {}

  /** `pointer().limit`: `size_of::<InterruptDescriptorTable>() - 1`,
      which fits in the u16 limit. The base is a pointer and is not
      modelled. */
  function IdtLimit(): (limit: U16)
    ensures limit + 1 == IDT_ENTRIES * ENTRY_SIZE
  {
    IDT_ENTRIES * ENTRY_SIZE - 1
  }
}
