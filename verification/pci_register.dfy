/** The older, unchecked configuration space helpers: addresses are
    assembled with shifts and ors from bus, device, function and offset,
    and the BAR sizing sequence is run through the same two ports. */
module PciRegister {
  import opened Common
  import opened PciAccess

  /** `read_register`'s address: bus << 16 | device << 11 | function << 8
      | (offset & 0xFC) | 0x8000_0000, with no range checks. */
  function RegisterAddress(bus: bv8, device: bv8, func: bv8, offset: bv8): (a: bv32)
    ensures a & 3 == 0
    ensures a >> 31 == 1 && (a >> 24) & 0x7F == 0
    ensures a & 0xFC == (offset & 0xFC) as bv32
  {
    ((bus as bv32) << 16) | ((device as bv32) << 11) | ((func as bv32) << 8)
    | (offset & 0xFC) as bv32 | 0x8000_0000
  }

  /** For a location `address` accepts, the two address computations agree
      once the offset's two low bits are cleared. */
  lemma RegisterMatchesAccess(bus: bv8, device: bv8, func: bv8, offset: bv8)
    requires ValidLocation(Location(bus, device, func))
    ensures RegisterAddress(bus, device, func, offset)
            == Address(Location(bus, device, func), offset & 0xFC).value
  {}

  /** Out-of-range values bleed into the neighbouring field: function 8
      sets the device's low bit, and device 32 + d sets the bus's low bit. */
  lemma FieldsBleed(bus: bv8, device: bv8, func: bv8, offset: bv8)
    ensures RegisterAddress(bus, device, 8, offset) == RegisterAddress(bus, device | 1, 0, offset)
    ensures device < 32 ==>
              RegisterAddress(bus, device + 32, func, offset) == RegisterAddress(bus | 1, device, func, offset)
  {}

  /** `read_register`: the address to 0xCF8, one dword read from 0xCFC. */
  function ReadRegister(space: ConfigSpace, bus: bv8, device: bv8, func: bv8, offset: bv8): (r: Access<bv32>)
    ensures r.value == space(RegisterAddress(bus, device, func, offset))
    ensures r.trace == [Out(CONFIG_ADDRESS, Dword, RegisterAddress(bus, device, func, offset) as int), In(CONFIG_DATA, Dword)]
  {
    var a := RegisterAddress(bus, device, func, offset);
    Access(space(a), [Out(CONFIG_ADDRESS, Dword, a as int), In(CONFIG_DATA, Dword)])
  }

  /** `read_16b_register`'s split: low half, then high half. */
  function Halves(w: bv32): (h: (bv16, bv16))
    ensures h == HalvesLowFirst(w)
  {
    ((w & 0xFFFF) as bv16, (w >> 16) as bv16)
  }

  /** `read_8b_register`'s split: the most significant byte first. */
  function BytesHighFirst(w: bv32): (b: (bv8, bv8, bv8, bv8))
    ensures ((b.0 as bv32) << 24) | ((b.1 as bv32) << 16) | ((b.2 as bv32) << 8) | b.3 as bv32 == w
  {
    ((w >> 24) as bv8, ((w >> 16) & 0xFF) as bv8, ((w >> 8) & 0xFF) as bv8, (w & 0xFF) as bv8)
  }

  /** The two byte splits are each other's reverse. */
  lemma ByteOrdersOpposite(w: bv32)
    ensures var (a0, a1, a2, a3) := BytesHighFirst(w);
            BytesLowFirst(w) == (a3, a2, a1, a0)
  {}

  /** `read_16b_register`. */
  function Read16bRegister(space: ConfigSpace, bus: bv8, device: bv8, func: bv8, offset: bv8): (r: Access<(bv16, bv16)>)
    ensures r.value.0 as bv32 | ((r.value.1 as bv32) << 16) == ReadRegister(space, bus, device, func, offset).value
    ensures r.trace == ReadRegister(space, bus, device, func, offset).trace
  {
    var a := ReadRegister(space, bus, device, func, offset);
    Access(Halves(a.value), a.trace)
  }

  /** `read_8b_register`. */
  function Read8bRegister(space: ConfigSpace, bus: bv8, device: bv8, func: bv8, offset: bv8): (r: Access<(bv8, bv8, bv8, bv8)>)
    ensures var (b0, b1, b2, b3) := r.value;
            ((b0 as bv32) << 24) | ((b1 as bv32) << 16) | ((b2 as bv32) << 8) | b3 as bv32
            == ReadRegister(space, bus, device, func, offset).value
    ensures r.trace == ReadRegister(space, bus, device, func, offset).trace
  {
    var a := ReadRegister(space, bus, device, func, offset);
    Access(BytesHighFirst(a.value), a.trace)
  }

  // ----- BAR sizing -----

  /** The address bits of a memory BAR. */
  const BAR_ADDRESS_MASK: bv32 := 0xFFFF_FFF0

  /** `u32::checked_add(1)`. */
  function CheckedIncrement(x: bv32): (r: Option<bv32>)
    ensures r.Some? <==> x != 0xFFFF_FFFF
    ensures r.Some? ==> r.value == x + 1 && r.value > x
  {
    if x == 0xFFFF_FFFF then None else Some(x + 1)
  }

  /** The size computation as written: `!(masked.checked_add(1).unwrap_or(0))`,
      where `masked` is the register read back after all ones were written,
      with its four flag bits cleared. The complement is taken after the
      increment. */
  function AmountAsWritten(probe: bv32): (amount: bv32)
    ensures (probe & BAR_ADDRESS_MASK) + amount + 2 == 0
  {
    var sum := CheckedIncrement(probe & BAR_ADDRESS_MASK);
    !(if sum.Some? then sum.value else 0)
  }

  /** The conventional size of the decoded region: the complement of the
      address bits read back, plus one. */
  function AddressSpaceSize(probe: bv32): (size: bv32)
    ensures (probe & BAR_ADDRESS_MASK) + size == 0
  {
    !(probe & BAR_ADDRESS_MASK) + 1
  }

  /** The increment never overflows, since the masked value is at most
      0xFFFF_FFF0, and the written result is always the conventional size
      minus two. */
  lemma AmountOffByTwo(probe: bv32)
    ensures CheckedIncrement(probe & BAR_ADDRESS_MASK).Some?
    ensures AmountAsWritten(probe) == AddressSpaceSize(probe) - 2
  {}

  /** A 4 KiB memory BAR reads back 0xFFFF_F000 after all ones were
      written: the conventional size is 0x1000, the written code gives
      0xFFE. */
  lemma AmountOf4KiBBar()
    ensures AddressSpaceSize(0xFFFF_F000) == 0x1000
    ensures AmountAsWritten(0xFFFF_F000) == 0xFFE
  {
    assert CheckedIncrement(0xFFFF_F000) == Some(0xFFFF_F001);
  }

  /** A BAR decoding `size` bytes (a power of two, at least 16) keeps the
      low address bits below `size` at zero and the rest at one; from what
      it reads back the conventional computation recovers `size`, whatever
      the four flag bits hold. */
  lemma SizeRecovered(size: bv32, flags: bv32)
    requires size >= 16 && size & (size - 1) == 0
    requires flags < 16
    ensures AddressSpaceSize(!(size - 1) | flags) == size
  {}

  /** `read_address_space_amount`: the address to 0xCF8, read the
      original value, write all ones, read the sizing response (`probe`,
      what the device answers), write the original back. The register ends
      where it began. The result is the code's own computation,
      `AmountAsWritten`: two less than the conventional size. */
  function ReadAddressSpaceAmount(space: ConfigSpace, probe: bv32, bus: bv8, device: bv8, func: bv8, offset: bv8)
    : (r: Access<bv32>)
    ensures var a := RegisterAddress(bus, device, func, offset);
            r.trace == [Out(CONFIG_ADDRESS, Dword, a as int), In(CONFIG_DATA, Dword),
                        Out(CONFIG_DATA, Dword, 0xFFFF_FFFF), In(CONFIG_DATA, Dword),
                        Out(CONFIG_DATA, Dword, space(a) as int)]
    ensures (probe & BAR_ADDRESS_MASK) + r.value + 2 == 0
    ensures r.value == AddressSpaceSize(probe) - 2
  {
    var a := RegisterAddress(bus, device, func, offset);
    var original := space(a);
    AmountOffByTwo(probe);
    Access(AmountAsWritten(probe),
           [Out(CONFIG_ADDRESS, Dword, a as int), In(CONFIG_DATA, Dword),
            Out(CONFIG_DATA, Dword, 0xFFFF_FFFF), In(CONFIG_DATA, Dword),
            Out(CONFIG_DATA, Dword, original as int)])
  }
}
