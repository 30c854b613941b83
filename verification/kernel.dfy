/** The kernel's boot-time composition of the descriptor tables, its
    interrupt controller configuration, and its two hardware interrupt
    handlers. Handler and stack addresses are parameters, since they are
    addresses chosen by the linker. */
module Kernel {
  import opened Common
  import opened Privilege
  import opened Segmentation
  import opened Gdt
  import opened Idt
  import opened Tss
  import opened Pic8259

  // ----- interrupts.rs -----

  const PIC_1_OFFSET: U8 := 32
  const PIC_2_OFFSET: U8 := PIC_1_OFFSET + 8

  /** `InterruptIndex`: the timer is the first vector of the primary
      controller and the keyboard the next one. */
  datatype InterruptIndex = Timer | Keyboard

  function AsU8(i: InterruptIndex): U8 {
    match i
    case Timer => PIC_1_OFFSET
    case Keyboard => PIC_1_OFFSET + 1
  }

  /** The kernel's `PICS`. */
  function Pics(): ChainedPics {
    NewChainedPics(PIC_1_OFFSET, PIC_2_OFFSET)
  }

  /** With offsets 32 and 40 the two windows are 32..39 and 40..47:
      disjoint, above the 32 exception vectors, and the handled vectors are
      exactly 32..47. No vector makes the test panic. */
  lemma KernelPicsHandle(v: U8)
    ensures PicHandles(Pics().primary, v) == Value(32 <= v < 40)
    ensures PicHandles(Pics().secondary, v) == Value(40 <= v < 48)
    ensures ChainedHandles(Pics(), v) == Value(32 <= v < 48)
  {}

  /** End of interrupt with the kernel's offsets: a vector of the secondary
      window acknowledges the secondary (port 0xA0) and then the primary
      (port 0x20); a vector of the primary window only the primary; any
      other vector nothing. */
  lemma KernelEndOfInterrupt(v: U8)
    ensures 40 <= v < 48 ==>
              NotifyEndOfInterrupt(Pics(), v) == Value([Out(0xA0, Byte, 0x20), Out(0x20, Byte, 0x20)])
    ensures 32 <= v < 40 ==> NotifyEndOfInterrupt(Pics(), v) == Value([Out(0x20, Byte, 0x20)])
    ensures !(32 <= v < 48) ==> NotifyEndOfInterrupt(Pics(), v) == Value([])
  {
    KernelPicsHandle(v);
    var c := Pics();
    assert c.secondary.offset == 40;
    if 40 <= v < 48 {
      assert ChainedHandles(c, v) == Value(true) && PicHandles(c.secondary, v) == Value(true);
      assert EndOfInterrupt(c.secondary) + EndOfInterrupt(c.primary)
             == [Out(0xA0, Byte, 0x20), Out(0x20, Byte, 0x20)];
    }
  }

  /** What the kernel does that the model observes: port accesses, the
      scancode handed to the keyboard task, and the privileged loads. */
  datatype KernelEvent =
    | Io(event: PortEvent)
    | ScancodeQueued(code: U8)
    | LoadGdt
    | SetCs(selector: Selector)
    | LoadTss(selector: Selector)
    | LoadIdt
    | EnableInterrupts

  function IoAll(events: seq<PortEvent>): (r: seq<KernelEvent>)
    ensures |r| == |events|
    ensures forall i :: 0 <= i < |events| ==> r[i] == Io(events[i])
  {
    if |events| == 0 then [] else [Io(events[0])] + IoAll(events[1..])
  }

  /** The timer handler: end of interrupt for the timer vector. */
  function TimerHandler(): (trace: seq<KernelEvent>)
    ensures trace == [Io(Out(0x20, Byte, 0x20))]
  {
    KernelEndOfInterrupt(AsU8(Timer));
    IoAll(NotifyEndOfInterrupt(Pics(), AsU8(Timer)).value)
  }

  /** The keyboard handler: one byte read from port 0x60 (the parameter
      `scancode`), that byte queued, then end of interrupt for the keyboard
      vector. */
  function KeyboardHandler(scancode: U8): (trace: seq<KernelEvent>)
    ensures trace == [Io(In(0x60, Byte)), ScancodeQueued(scancode), Io(Out(0x20, Byte, 0x20))]
  {
    KernelEndOfInterrupt(AsU8(Keyboard));
    [Io(In(0x60, Byte)), ScancodeQueued(scancode)]
    + IoAll(NotifyEndOfInterrupt(Pics(), AsU8(Keyboard)).value)
  }

  // ----- lib.rs -----

  const DOUBLE_FAULT_IST_INDEX: U16 := 0
  const STACK_SIZE: nat := 4096 * 5

  /** The addresses of the five handlers the kernel installs. */
  datatype Handlers = Handlers(divideByZero: bv64, breakpoint: bv64, doubleFault: bv64, timer: bv64, keyboard: bv64)

  /** Install a handler in the field a vector selects. */
  function InstallAt(t: InterruptDescriptorTable, v: U8, addr: bv64, cs: Selector): (r: Outcome<InterruptDescriptorTable>)
    ensures r.Value? <==> IndexField(v).Value?
    ensures r.Value? ==> r.value == Put(t, IndexField(v).value, SetHandlerAddr(Get(t, IndexField(v).value), addr, cs))
  {
    match IndexField(v)
    case Panic(m) => Panic(m)
    case Value(f) => Value(Put(t, f, SetHandlerAddr(Get(t, f), addr, cs)))
  }

  /** The exception part of the kernel's `IDT`: divide-by-zero,
      breakpoint and double-fault handlers in their fields, the double fault
      switched to interrupt stack 1 (`set_stack_index(0)` stores index + 1).
      `cs` is the code segment selector at the time of the calls. */
  function InstallExceptions(h: Handlers, cs: Selector): (r: Outcome<InterruptDescriptorTable>)
  {
    var t := IdtDefault();
    var t := Put(t, DivideByZero, SetHandlerAddr(Get(t, DivideByZero), h.divideByZero, cs));
    var t := Put(t, Breakpoint, SetHandlerAddr(Get(t, Breakpoint), h.breakpoint, cs));
    var df := SetHandlerAddr(Get(t, DoubleFault), h.doubleFault, cs);
    match SetStackIndex(df.options, DOUBLE_FAULT_IST_INDEX)
    case Panic(m) => Panic(m)
    case Value(o) => Value(Put(t, DoubleFault, df.(options := o)))
  }

  /** The kernel's `IDT`: the exception handlers, then the timer and
      keyboard handlers installed through `Index` at vectors 32 and 33. */
  function BuildIdt(h: Handlers, cs: Selector): (r: Outcome<InterruptDescriptorTable>)
    ensures r.Value?
    ensures HandlerAddr(r.value[32]) == h.timer && HandlerAddr(r.value[33]) == h.keyboard
  {
    IndexInterrupt(32);
    IndexInterrupt(33);
    match InstallExceptions(h, cs)
    case Panic(m) => Panic(m)
    case Value(t) =>
      match InstallAt(t, AsU8(Timer), h.timer, cs)
      case Panic(m) => Panic(m)
      case Value(t) => InstallAt(t, AsU8(Keyboard), h.keyboard, cs)
  }

  /** A present default entry for handler `addr`. */
  function Installed(addr: bv64, cs: Selector): (e: Entry)
    ensures HandlerAddr(e) == addr && e.options == 0x8E00
  {
    SetHandlerAddr(DefaultEntry(), addr, cs)
  }

  /** The double-fault entry: present, interrupt stack 1. */
  function InstalledOnStack(addr: bv64, cs: Selector): (e: Entry)
    ensures HandlerAddr(e) == addr && e.options == 0x8E01
  {
    var e := Installed(addr, cs);
    assert HandlerAddr(e.(options := 0x8E01)) == HandlerAddr(e);
    e.(options := 0x8E01)
  }

  /** The table `BuildIdt` produces, entry by entry. */
  lemma BuildIdtShape(h: Handlers, cs: Selector)
    ensures BuildIdt(h, cs) == Value(IdtDefault()[0 := Installed(h.divideByZero, cs)]
                                                 [3 := Installed(h.breakpoint, cs)]
                                                 [8 := InstalledOnStack(h.doubleFault, cs)]
                                                 [32 := Installed(h.timer, cs)]
                                                 [33 := Installed(h.keyboard, cs)])
  {
    var t3 := InstallExceptionsShape(h, cs);
    assert AsU8(Timer) == 32 && AsU8(Keyboard) == 33;
    InstallInterrupt(t3, 32, h.timer, cs);
    var t4 := t3[32 := Installed(h.timer, cs)];
    InstallInterrupt(t4, 33, h.keyboard, cs);
    assert BuildIdt(h, cs) == InstallAt(t4, 33, h.keyboard, cs);
  }

  /** Installing a handler at an interrupt vector whose entry is still the
      default puts the present entry there. */
  lemma InstallInterrupt(t: InterruptDescriptorTable, v: U8, addr: bv64, cs: Selector)
    requires 32 <= v && t[v] == DefaultEntry()
    ensures InstallAt(t, v, addr, cs) == Value(t[v := Installed(addr, cs)])
  {
    IndexInterrupt(v);
    PutAt(t, Interrupts(v - 32), Installed(addr, cs));
  }

  lemma IndexInterrupt(v: U8)
    requires 32 <= v
    ensures IndexField(v) == Value(Interrupts(v - 32)) && ValidField(Interrupts(v - 32))
  {}

  lemma InstallExceptionsShape(h: Handlers, cs: Selector) returns (t: InterruptDescriptorTable)
    ensures InstallExceptions(h, cs) == Value(t)
    ensures t == IdtDefault()[0 := Installed(h.divideByZero, cs)]
                             [3 := Installed(h.breakpoint, cs)]
                             [8 := InstalledOnStack(h.doubleFault, cs)]
  {
    var t0 := IdtDefault();
    var e0 := SetHandlerAddr(Get(t0, DivideByZero), h.divideByZero, cs);
    var t1 := Put(t0, DivideByZero, e0);
    PutAt(t0, DivideByZero, e0);
    var e3 := SetHandlerAddr(Get(t1, Breakpoint), h.breakpoint, cs);
    var t2 := Put(t1, Breakpoint, e3);
    PutAt(t1, Breakpoint, e3);
    var df := SetHandlerAddr(Get(t2, DoubleFault), h.doubleFault, cs);
    var o := DoubleFaultOptions(df);
    t := Put(t2, DoubleFault, df.(options := o));
    PutAt(t2, DoubleFault, df.(options := o));
  }

  /** Building the IDT never panics; the five installed entries hold their
      handlers and are present, the double fault uses interrupt stack 1,
      and every other entry is the default entry. */
  lemma BuildIdtResult(h: Handlers, cs: Selector)
    ensures BuildIdt(h, cs).Value?
    ensures var t := BuildIdt(h, cs).value;
            HandlerAddr(t[0]) == h.divideByZero && HandlerAddr(t[3]) == h.breakpoint
            && HandlerAddr(t[8]) == h.doubleFault && HandlerAddr(t[32]) == h.timer
            && HandlerAddr(t[33]) == h.keyboard
            && t[0].options == 0x8E00 && t[3].options == 0x8E00 && t[32].options == 0x8E00
            && t[33].options == 0x8E00 && t[8].options == 0x8E01
            && (forall i :: 0 <= i < IDT_ENTRIES && i !in {0, 3, 8, 32, 33} ==> t[i] == DefaultEntry())
  {
    BuildIdtShape(h, cs);
    var e0, e3, e8 := Installed(h.divideByZero, cs), Installed(h.breakpoint, cs), InstalledOnStack(h.doubleFault, cs);
    var e32, e33 := Installed(h.timer, cs), Installed(h.keyboard, cs);
    UpdateChain(IdtDefault(), e0, e3, e8, e32, e33);
  }

  lemma UpdateChain(t: InterruptDescriptorTable, e0: Entry, e3: Entry, e8: Entry, e32: Entry, e33: Entry)
    requires forall i :: 0 <= i < IDT_ENTRIES ==> t[i] == DefaultEntry()
    ensures var u := t[0 := e0][3 := e3][8 := e8][32 := e32][33 := e33];
            u[0] == e0 && u[3] == e3 && u[8] == e8 && u[32] == e32 && u[33] == e33
            && (forall i :: 0 <= i < IDT_ENTRIES && i !in {0, 3, 8, 32, 33} ==> u[i] == DefaultEntry())
  {}

  /** `set_stack_index(0)` on a present default entry: options 0x8E01. */
  function DoubleFaultOptions(e: Entry): (o: EntryOptions)
    requires e.options == DEFAULT_OPTIONS | PRESENT_BIT
    ensures SetStackIndex(e.options, DOUBLE_FAULT_IST_INDEX) == Value(o)
    ensures o == 0x8E01
  {
    SetStackIndex(e.options, DOUBLE_FAULT_IST_INDEX).value
  }

  lemma PutAt(t: InterruptDescriptorTable, f: Idt.Field, e: Entry)
    requires ValidField(f)
    ensures Position(f) < IDT_ENTRIES && Put(t, f, e) == t[Position(f) := e]
  {}

  /** The kernel's `TSS`: the default segment with interrupt stack 1 (slot
      0) pointing at the top of a 20 KiB stack starting at `stackStart`. The
      u64 addition panics if the stack would end past 2^64. */
  function BuildTss(stackStart: U64): (r: Outcome<TaskStateSegment>)
    ensures r.Value? <==> stackStart + STACK_SIZE < TWO_64
    ensures r.Value? ==> |r.value.interruptStackTable| == 7
                         && r.value.interruptStackTable[DOUBLE_FAULT_IST_INDEX] == stackStart + STACK_SIZE
                         && r.value == TssDefault().(interruptStackTable := r.value.interruptStackTable)
  {
    var tss := TssDefault();
    if stackStart + STACK_SIZE >= TWO_64 then Panic("attempt to add with overflow")
    else Value(tss.(interruptStackTable := tss.interruptStackTable[DOUBLE_FAULT_IST_INDEX := stackStart + STACK_SIZE]))
  }

  /** `size_of::<TaskStateSegment>()` as a u64. */
  function TssSizeBits(): (b: bv64)
    ensures b as int == TssSize() && b == 112
  {
    TssLayout();
    112
  }

  /** The kernel's `GDT`: the default table, then the kernel code segment,
      then the TSS descriptor for the TSS at `tssPtr`. */
  function BuildGdt(tssPtr: bv64): (r: Outcome<(GlobalDescriptorTable, Selector, Selector)>)
    ensures r.Value? && r.value.0.len == 4
    ensures SelectorIndex(r.value.1) == 1 && SelectorIndex(r.value.2) == 2
  {
    match Append(GdtDefault(), KernelCodeSegment())
    case Panic(m) => Panic(m)
    case Value((g1, code)) =>
      match Append(g1, TssSegment(tssPtr, TssSizeBits()))
      case Panic(m) => Panic(m)
      case Value((g2, tss)) => Value((g2, code, tss))
  }

  /** Building the GDT never panics: the code selector is 8 (index 1, ring
      0), the TSS selector is 16 (index 2, ring 0), four slots are used,
      and the TSS descriptor's limit is the TSS size minus one. */
  lemma BuildGdtResult(tssPtr: bv64)
    ensures BuildGdt(tssPtr).Value?
    ensures var (g, code, tss) := BuildGdt(tssPtr).value;
            code == 8 && tss == 16 && g.len == 4
            && g.table[1] == KERNEL_CODE64
            && g.table[2] & 0xFFFF == 111
  {
    KernelCodeSegmentBits();
    var r1 := Append(GdtDefault(), KernelCodeSegment());
    var (g1, code) := r1.value;
    assert SelectorIndex(code) == 1 && code & 3 == 0;
    var d := TssSegment(tssPtr, TssSizeBits());
    TssSegmentBase(tssPtr, TssSizeBits());
    var r2 := Append(g1, d);
    var (g2, tss) := r2.value;
    assert SelectorIndex(tss) == 2 && tss & 3 == 0;
    SelectorFromParts(code, 1);
    SelectorFromParts(tss, 2);
  }

  lemma SelectorFromParts(s: Selector, index: bv16)
    requires SelectorIndex(s) == index && s & 3 == 0 && s & 4 == 0
    ensures s == index << 3
  {}

  /** `init`: load the GDT, reload CS with the code selector, load the
      task register with the TSS selector, load the IDT, then initialise
      the interrupt controllers (reading masks `mask1` and `mask2`) and
      enable interrupts. */
  function Init(code: Selector, tss: Selector, mask1: U8, mask2: U8): (trace: seq<KernelEvent>)
    ensures |trace| == 25
    ensures trace[0] == LoadGdt && trace[1] == SetCs(code) && trace[2] == LoadTss(tss)
    ensures trace[3] == LoadIdt && trace[24] == EnableInterrupts
    ensures trace[4..24] == IoAll(Initialize(Pics(), mask1, mask2))
  {
    [LoadGdt, SetCs(code), LoadTss(tss), LoadIdt] + IoAll(Initialize(Pics(), mask1, mask2)) + [EnableInterrupts]
  }

  /** Interrupts are enabled only after every table is loaded and the
      controllers are initialised: the last event is the only enable, and
      no controller access comes before the IDT load. */
  lemma InitOrder(code: Selector, tss: Selector, mask1: U8, mask2: U8)
    ensures var t := Init(code, tss, mask1, mask2);
            (forall i :: 0 <= i < |t| && t[i] == EnableInterrupts ==> i == |t| - 1)
            && (forall i :: 0 <= i < |t| && t[i].Io? ==> i > 3)
  {
    var t := Init(code, tss, mask1, mask2);
    forall i | 4 <= i < 24
      ensures t[i] == Io(Initialize(Pics(), mask1, mask2)[i - 4])
    {
      assert t[i] == t[4..24][i - 4];
    }
  }
}
