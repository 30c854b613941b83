/** Base address registers: bit 0 tells a memory BAR from an I/O BAR, and
    the remaining bits hold the address and, for memory, its width. */
module PciBar {
  import opened Common

  datatype BaseAddressRegister = Memory(bits: bv32) | IoSpace(bits: bv32)

  datatype MemoryBaseAddressSize = Bits32 | Bits64

  /** `type_bit`: bit 0 of the register. */
  function TypeBit(bits: bv32): (t: bv8)
    ensures t <= 1
    ensures t == 1 <==> bits & 1 == 1
  {
    (bits & 1) as bv8
  }

  /** `BaseAddressRegister::new`: a memory BAR when the type bit is clear,
      an I/O BAR when it is set. The type bit is 0 or 1, so the panic arm
      of the match is never reached. */
  function BarNew(bits: bv32): (b: BaseAddressRegister)
    ensures b.Memory? <==> bits & 1 == 0
    ensures b.IoSpace? <==> bits & 1 == 1
    ensures b.bits == bits
  {
    var t := TypeBit(bits);
    if t == 0 then Memory(bits)
    else if t == 1 then IoSpace(bits)
    else assert false; Memory(bits)
  }

  /** A register read back from a BAR gives back its raw bits, and a BAR of
      the kind its type bit names is rebuilt from them. */
  lemma BarRoundTrip(bits: bv32, b: BaseAddressRegister)
    ensures BarNew(bits).bits == bits
    ensures (b.Memory? <==> b.bits & 1 == 0) ==> BarNew(b.bits) == b
  {}

  /** `address`: a memory BAR drops its four flag bits, an I/O BAR its two;
      the address shifted back, with the dropped bits, is the register. */
  function BarAddress(b: BaseAddressRegister): (a: bv32)
    ensures b.Memory? ==> a < 0x1000_0000 && (a << 4) | (b.bits & 0xF) == b.bits
    ensures b.IoSpace? ==> a < 0x4000_0000 && (a << 2) | (b.bits & 0x3) == b.bits
  {
    match b
    case Memory(bits) => bits >> 4
    case IoSpace(bits) => bits >> 2
  }

  /** `MemoryBaseAddressRegister::size`: bits 1..2 select a 32-bit (0) or
      64-bit (2) BAR; the values 1 and 3 panic. */
  function MemorySize(bits: bv32): (r: Outcome<MemoryBaseAddressSize>)
    ensures r == Value(Bits32) <==> bits & 0x6 == 0
    ensures r == Value(Bits64) <==> bits & 0x6 == 0x4
    ensures r.Panic? <==> bits & 0x2 == 0x2
  {
    var field := (bits >> 1) & 0x3;
    if field == 0 then Value(Bits32)
    else if field == 2 then Value(Bits64)
    else if field == 1 then Panic("Memory BAR size 0x1 not supported")
    else Panic("Memory BAR size 0x3 not supported")
  }
}
