/** PCI configuration space access through configuration mechanism #1:
    an address written to port 0xCF8 selects a dword of some function's
    configuration space, which is then read or written through port 0xCFC.

    The devices themselves are the parameter `space`, which maps each
    configuration address to the dword the data port returns for it. */
module PciAccess {
  import opened Common

  const CONFIG_ADDRESS: U16 := 0xCF8
  const CONFIG_DATA: U16 := 0xCFC

  /** What a read of the data port returns after an address was written. */
  type ConfigSpace = bv32 -> bv32

  /** `Location`: where a function sits on the buses. */
  datatype Location = Location(bus: bv8, device: bv8, func: bv8)

  /** The locations `set_bits` accepts: a 3-bit function, a 5-bit device. */
  predicate ValidLocation(l: Location) {
    l.func < 8 && l.device < 32
  }

  /** `IoCSpaceAccessMethod::address`: offset in bits 0..7, function in
      8..10, device in 11..15, bus in 16..23, and the enable bit 31.
      `set_bits` panics when a value does not fit its range; the function
      is checked before the device. */
  function Address(l: Location, offset: bv8): (r: Outcome<bv32>)
    ensures r.Panic? <==> !ValidLocation(l)
    ensures r.Value? ==>
              r.value & 0xFF == offset as bv32
              && (r.value >> 8) & 0x7 == l.func as bv32
              && (r.value >> 11) & 0x1F == l.device as bv32
              && (r.value >> 16) & 0xFF == l.bus as bv32
              && r.value >> 24 == 0x80
  {
    if l.func >= 8 || l.device >= 32 then Panic("value does not fit into bit range")
    else Value(offset as bv32 | ((l.func as bv32) << 8) | ((l.device as bv32) << 11)
               | ((l.bus as bv32) << 16) | 0x8000_0000)
  }

  /** The location and offset an address names; the inverse of `Address`. */
  function DecodeAddress(a: bv32): (r: (Location, bv8))
    ensures ValidLocation(r.0)
  {
    (Location(((a >> 16) & 0xFF) as bv8, ((a >> 11) & 0x1F) as bv8, ((a >> 8) & 0x7) as bv8),
     (a & 0xFF) as bv8)
  }

  /** Every field of a valid location, and the offset, can be read back
      from the address, so distinct (location, offset) pairs select
      distinct addresses. */
  lemma AddressRoundTrip(l: Location, offset: bv8)
    requires ValidLocation(l)
    ensures DecodeAddress(Address(l, offset).value) == (l, offset)
  {
    DecodeFields(Address(l, offset).value, l, offset);
  }

  lemma DecodeFields(a: bv32, l: Location, offset: bv8)
    requires a & 0xFF == offset as bv32
    requires (a >> 8) & 0x7 == l.func as bv32
    requires (a >> 11) & 0x1F == l.device as bv32
    requires (a >> 16) & 0xFF == l.bus as bv32
    ensures DecodeAddress(a) == (l, offset)
  {
    NarrowField(a & 0xFF, offset);
    NarrowField((a >> 8) & 0x7, l.func);
    NarrowField((a >> 11) & 0x1F, l.device);
    NarrowField((a >> 16) & 0xFF, l.bus);
  }

  lemma NarrowField(x: bv32, v: bv8)
    requires x == v as bv32
    ensures x as bv8 == v
  {}

  /** The port accesses and result of an operation. */
  datatype Access<T> = Access(value: T, trace: seq<PortEvent>)

  /** `read`: the address to 0xCF8, then one dword read from 0xCFC. */
  function Read(space: ConfigSpace, l: Location, offset: bv8): (r: Outcome<Access<bv32>>)
    ensures r.Panic? <==> !ValidLocation(l)
    ensures r.Value? ==>
              r.value.value == space(Address(l, offset).value)
              && r.value.trace == [Out(CONFIG_ADDRESS, Dword, Address(l, offset).value as int), In(CONFIG_DATA, Dword)]
  {
    match Address(l, offset)
    case Panic(m) => Panic(m)
    case Value(a) => Value(Access(space(a), [Out(CONFIG_ADDRESS, Dword, a as int), In(CONFIG_DATA, Dword)]))
  }

  /** `write`: the address to 0xCF8, then the dword to 0xCFC. */
  function Write(l: Location, offset: bv8, value: bv32): (r: Outcome<seq<PortEvent>>)
    ensures r.Panic? <==> !ValidLocation(l)
    ensures r.Value? ==>
              r.value == [Out(CONFIG_ADDRESS, Dword, Address(l, offset).value as int), Out(CONFIG_DATA, Dword, value as int)]
  {
    match Address(l, offset)
    case Panic(m) => Panic(m)
    case Value(a) => Value([Out(CONFIG_ADDRESS, Dword, a as int), Out(CONFIG_DATA, Dword, value as int)])
  }

  /** The four bytes of a dword, least significant first (`read8`). */
  function BytesLowFirst(w: bv32): (b: (bv8, bv8, bv8, bv8))
    ensures b.0 as bv32 | ((b.1 as bv32) << 8) | ((b.2 as bv32) << 16) | ((b.3 as bv32) << 24) == w
  {
    ((w & 0xFF) as bv8, ((w >> 8) & 0xFF) as bv8, ((w >> 16) & 0xFF) as bv8, (w >> 24) as bv8)
  }

  /** The two halves of a dword, low half first (`read16`). */
  function HalvesLowFirst(w: bv32): (h: (bv16, bv16))
    ensures h.0 as bv32 | ((h.1 as bv32) << 16) == w
  {
    ((w & 0xFFFF) as bv16, (w >> 16) as bv16)
  }

  /** `read8`: the dword `read` returns, split into bytes. */
  function Read8(space: ConfigSpace, l: Location, offset: bv8): (r: Outcome<Access<(bv8, bv8, bv8, bv8)>>)
    ensures r.Panic? <==> !ValidLocation(l)
    ensures r.Value? ==> r.value.value == BytesLowFirst(Read(space, l, offset).value.value)
                         && r.value.trace == Read(space, l, offset).value.trace
  {
    match Read(space, l, offset)
    case Panic(m) => Panic(m)
    case Value(a) => Value(Access(BytesLowFirst(a.value), a.trace))
  }

  /** `read16`: the dword `read` returns, split into halves. */
  function Read16(space: ConfigSpace, l: Location, offset: bv8): (r: Outcome<Access<(bv16, bv16)>>)
    ensures r.Panic? <==> !ValidLocation(l)
    ensures r.Value? ==> r.value.value == HalvesLowFirst(Read(space, l, offset).value.value)
                         && r.value.trace == Read(space, l, offset).value.trace
  {
    match Read(space, l, offset)
    case Panic(m) => Panic(m)
    case Value(a) => Value(Access(HalvesLowFirst(a.value), a.trace))
  }

  /** The dword at `offset` of a valid location, as the scan reads it. */
  function ConfigWord(space: ConfigSpace, l: Location, offset: bv8): bv32
    requires ValidLocation(l)
  {
    space(Address(l, offset).value)
  }

  /** `ConfigWord` is the value `read` returns. */
  lemma ConfigWordIsRead(space: ConfigSpace, l: Location, offset: bv8)
    requires ValidLocation(l)
    ensures Read(space, l, offset).value.value == ConfigWord(space, l, offset)
  {}
}
