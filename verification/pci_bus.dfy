/** The PCI bus scan: an iterator over (bus, device) slots that probes
    function 0 of each slot in configuration space and decodes the header
    of every present device. */
module PciBus {
  import opened Common
  import opened PciAccess
  import opened PciBar

  // ----- command and status registers -----

  const IO_SPACE: bv16 := 1
  const MEMORY_SPACE: bv16 := 1 << 1
  const BUS_MASTER: bv16 := 1 << 2
  const SPECIAL_CYCLES: bv16 := 1 << 3
  const MEMORY_WRITE_AND_INVALIDATE_ENABLE: bv16 := 1 << 4
  const VGA_PALETTE_SNOOP: bv16 := 1 << 5
  const PARITY_ERROR_RESPONSE: bv16 := 1 << 6
  const SERR_ENABLE: bv16 := 1 << 8
  const FAST_BACK_TO_BACK_ENABLE: bv16 := 1 << 9
  const INTERRUPT_DISABLE: bv16 := 1 << 10

  const INTERRUPT_STATUS: bv16 := 1 << 2
  const CAPABILITIES_LIST: bv16 := 1 << 3
  const MHZ66_CAPABLE: bv16 := 1 << 4
  const FAST_BACK_TO_BACK_CAPABLE: bv16 := 1 << 7
  const MASTER_DATA_PARITY_ERROR: bv16 := 1 << 8
  const SIGNALED_TARGET_ABORT: bv16 := 1 << 11
  const RECEIVED_TARGET_ABORT: bv16 := 1 << 12
  const RECEIVED_MASTER_ABORT: bv16 := 1 << 13
  const SIGNALED_SYSTEM_ERROR: bv16 := 1 << 14
  const DETECTED_PARITY_ERROR: bv16 := 1 << 15

  /** The declared bits of `CommandRegister` and `StatusRegister`. */
  const COMMAND_FLAGS: bv16 := 0x077F
  const STATUS_FLAGS: bv16 := 0xF99C

  lemma FlagMasks()
    ensures COMMAND_FLAGS == IO_SPACE | MEMORY_SPACE | BUS_MASTER | SPECIAL_CYCLES
                             | MEMORY_WRITE_AND_INVALIDATE_ENABLE | VGA_PALETTE_SNOOP
                             | PARITY_ERROR_RESPONSE | SERR_ENABLE | FAST_BACK_TO_BACK_ENABLE
                             | INTERRUPT_DISABLE
    ensures STATUS_FLAGS == INTERRUPT_STATUS | CAPABILITIES_LIST | MHZ66_CAPABLE
                            | FAST_BACK_TO_BACK_CAPABLE | MASTER_DATA_PARITY_ERROR
                            | SIGNALED_TARGET_ABORT | RECEIVED_TARGET_ABORT | RECEIVED_MASTER_ABORT
                            | SIGNALED_SYSTEM_ERROR | DETECTED_PARITY_ERROR
  {}

  /** `from_bits_truncate`: only the declared bits survive, and every
      declared bit that is set survives. */
  function Truncate(bits: bv16, declared: bv16): (f: bv16)
    ensures f & !declared == 0
    ensures f | (bits & !declared) == bits
  {
    bits & declared
  }

  // ----- 16-bit registers assembled from two bytes -----

  /** The code's `(b1 as u16) << 8 & (b2 as u16)`: `<<` binds tighter than
      `&`, so the high byte lands in bits 8..15 and is then and-ed with a
      value whose bits 8..15 are clear. */
  function JoinAsWritten(high: bv8, low: bv8): (r: bv16)
    ensures r == 0
  {
    ((high as bv16) << 8) & (low as bv16)
  }

  /** Whatever the two bytes, the as-written join is 0. */
  lemma JoinAsWrittenIsZero(high: bv8, low: bv8)
    ensures JoinAsWritten(high, low) == 0
  {}

  /** The join the code means: high byte in bits 8..15, low byte in bits
      0..7. Both bytes can be read back. */
  function Join(high: bv8, low: bv8): (r: bv16)
    ensures (r >> 8) as bv8 == high && (r & 0xFF) as bv8 == low
  {
    ((high as bv16) << 8) | (low as bv16)
  }

  /** Bytes 2 and 3 of a dword, joined, are its upper half. */
  lemma JoinUpperHalf(w: bv32)
    ensures var (_, _, b2, b3) := BytesLowFirst(w);
            Join(b3, b2) == HalvesLowFirst(w).1
  {}

  // ----- device records -----

  datatype CommonHeaders = CommonHeaders(
    location: Location,
    vendorId: bv16,
    deviceId: bv16,
    command: bv16,
    status: bv16,
    revisionId: bv8,
    progIf: bv8,
    subclass: bv8,
    classCode: bv8,
    cacheLineSize: bv8,
    latencyTimer: bv8,
    headerType: bv8,
    bist: bv8)

  datatype Device =
    | General(
        common: CommonHeaders,
        bars: seq<BaseAddressRegister>,
        cardbusCisPointer: bv32,
        subsystemVendorId: bv16,
        subsystemId: bv16,
        expansionRomBaseAddress: bv32,
        capabilitiesPointer: bv8,
        maxLatency: bv8,
        minGrant: bv8,
        interruptPin: bv8,
        interruptLine: bv8)
    | PciToPci(
        common: CommonHeaders,
        bars: seq<BaseAddressRegister>,
        primaryBusNumber: bv8,
        secondaryBusNumber: bv8,
        subordinateBusNumber: bv8,
        secondaryLatencyTimer: bv8,
        ioBase: bv8,
        ioLimit: bv8,
        secondaryStatus: bv16,
        memoryBase: bv16,
        memoryLimit: bv16,
        prefetchableMemoryBase: bv16,
        prefetchableMemoryLimit: bv16,
        prefetchableBaseUpper: bv32,
        prefetchableLimitUpper: bv32,
        ioBaseUpper: bv16,
        ioLimitUpper: bv16,
        capabilityPointer: bv8,
        expansionRomBaseAddress: bv32,
        interruptLine: bv8,
        interruptPin: bv8,
        bridgeControl: bv16)

  // ----- the scan state -----

  const DEVICES_PER_BUS: nat := 32
  /** The ordinal of (255, 31), where the scan stops. */
  const LAST_SLOT: nat := 255 * 32 + 31

  /** `BusScan`: the next slot to probe. Every state the scan reaches has a
      device number below 32. */
  datatype BusScan = BusScan(bus: U8, device: U8)

  predicate Reachable(s: BusScan) {
    s.device < DEVICES_PER_BUS
  }

  /** The position of a slot in bus-major order. */
  function Ordinal(s: BusScan): nat {
    s.bus * DEVICES_PER_BUS + s.device
  }

  /** The slot at a position. */
  function Slot(k: nat): (s: BusScan)
    requires k <= LAST_SLOT
    ensures Reachable(s) && Ordinal(s) == k
  {
    BusScan(k / DEVICES_PER_BUS, k % DEVICES_PER_BUS)
  }

  /** Slots are determined by their positions. */
  lemma OrdinalInjective(s: BusScan, t: BusScan)
    requires Reachable(s) && Reachable(t) && Ordinal(s) == Ordinal(t)
    ensures s == t
  {
    DivModUnique32(s);
    DivModUnique32(t);
  }

  lemma DivModUnique32(s: BusScan)
    requires Reachable(s)
    ensures Ordinal(s) / 32 == s.bus && Ordinal(s) % 32 == s.device
  {}

  /** `BusScan::new`: bus 0, device 0. */
  function ScanNew(): (s: BusScan)
    ensures Reachable(s) && Ordinal(s) == 0
  {
    BusScan(0, 0)
  }

  /** `done`: the scan has reached bus 255, device 31. */
  predicate Done(s: BusScan) {
    s.bus == 255 && s.device == 31
  }

  lemma DoneIsLast(s: BusScan)
    requires Reachable(s)
    ensures Done(s) <==> Ordinal(s) == LAST_SLOT
    ensures Ordinal(s) <= LAST_SLOT
  {}

  /** `increment`: the next device, or device 0 of the next bus after
      device 31. The u8 additions panic on overflow: at the last slot, and
      for a device number of 255 that the scan never reaches. */
  function Increment(s: BusScan): (r: Outcome<BusScan>)
    ensures Reachable(s) && !Done(s) ==> r.Value? && Reachable(r.value) && Ordinal(r.value) == Ordinal(s) + 1
    ensures Done(s) ==> r.Panic?
  {
    if s.device == 31 then
      if s.bus + 1 >= TWO_8 then Panic("attempt to add with overflow")
      else Value(BusScan(s.bus + 1, 0))
    else if s.device + 1 >= TWO_8 then Panic("attempt to add with overflow")
    else Value(BusScan(s.bus, s.device + 1))
  }

  // ----- probing one slot -----

  /** Function 0 of a slot. */
  function Probed(s: BusScan): (l: Location)
    requires Reachable(s)
    ensures ValidLocation(l) && l.func == 0
    ensures l.bus as int == s.bus && l.device as int == s.device
  {
    Location(ToBv8(s.bus), ToBv8(s.device), 0)
  }

  /** A u8 value as a bit-vector, counted up from 0. */
  function ToBv8(n: U8): (b: bv8)
    ensures b as int == n
  {
    if n == 0 then 0
    else
      var b := ToBv8(n - 1);
      SuccessorValue(b);
      b + 1
  }

  lemma SuccessorValue(b: bv8)
    requires b < 255
    ensures (b + 1) as int == b as int + 1
  {}

  /** Where the BARs of each header type sit. */
  const GENERAL_BARS: seq<bv8> := [0x10, 0x14, 0x18, 0x1C, 0x20, 0x24]
  const BRIDGE_BARS: seq<bv8> := [0x10, 0x14]

  /** The common header of the function at `l`: the ids from dword 0, the
      declared bits of command and status from dword 4, the class bytes
      from dword 8 and the header type from dword 0xC. */
  function CommonHeader(space: ConfigSpace, l: Location): (c: CommonHeaders)
    requires ValidLocation(l)
    ensures c.location == l
    ensures c.vendorId as bv32 | ((c.deviceId as bv32) << 16) == ConfigWord(space, l, 0x00)
    ensures c.command & !COMMAND_FLAGS == 0 && c.status & !STATUS_FLAGS == 0
    ensures c.headerType as bv32 == (ConfigWord(space, l, 0x0C) >> 16) & 0xFF
  {
    var (vendorId, deviceId) := HalvesLowFirst(ConfigWord(space, l, 0x00));
    var (command, status) := HalvesLowFirst(ConfigWord(space, l, 0x04));
    var (revisionId, progIf, subclass, classCode) := BytesLowFirst(ConfigWord(space, l, 0x08));
    var (cacheLineSize, latencyTimer, headerType, bist) := BytesLowFirst(ConfigWord(space, l, 0x0C));
    CommonHeaders(l, vendorId, deviceId, Truncate(command, COMMAND_FLAGS),
                  Truncate(status, STATUS_FLAGS), revisionId, progIf, subclass,
                  classCode, cacheLineSize, latencyTimer, headerType, bist)
  }

  /** The rest of a header-type-0 header. */
  function GeneralDevice(space: ConfigSpace, l: Location, common: CommonHeaders): (d: Device)
    requires ValidLocation(l)
    ensures d.General? && d.common == common && GeneralLayout(space, l, d)
  {
    var bars := [BarNew(ConfigWord(space, l, 0x10)), BarNew(ConfigWord(space, l, 0x14)),
                 BarNew(ConfigWord(space, l, 0x18)), BarNew(ConfigWord(space, l, 0x1C)),
                 BarNew(ConfigWord(space, l, 0x20)), BarNew(ConfigWord(space, l, 0x24))];
    assert forall i :: 0 <= i < 6 ==> bars[i] == BarNew(ConfigWord(space, l, GENERAL_BARS[i]));
    var (subsystemVendorId, subsystemId) := HalvesLowFirst(ConfigWord(space, l, 0x2C));
    var (capabilitiesPointer, _, _, _) := BytesLowFirst(ConfigWord(space, l, 0x34));
    var (maxLatency, minGrant, interruptPin, interruptLine) := BytesLowFirst(ConfigWord(space, l, 0x3C));
    General(common, bars, ConfigWord(space, l, 0x28), subsystemVendorId, subsystemId,
            ConfigWord(space, l, 0x30), capabilitiesPointer, maxLatency, minGrant,
            interruptPin, interruptLine)
  }

  /** The rest of a header-type-1 (PCI-to-PCI bridge) header. */
  function BridgeDevice(space: ConfigSpace, l: Location, common: CommonHeaders): (d: Device)
    requires ValidLocation(l)
    ensures d.PciToPci? && d.common == common && BridgeLayout(space, l, d)
  {
    var bars := [BarNew(ConfigWord(space, l, 0x10)), BarNew(ConfigWord(space, l, 0x14))];
    assert forall i :: 0 <= i < 2 ==> bars[i] == BarNew(ConfigWord(space, l, BRIDGE_BARS[i]));
    var (primary, secondary, subordinate, secondaryLatency) := BytesLowFirst(ConfigWord(space, l, 0x18));
    var (ioBase, ioLimit, secondaryStatus2, secondaryStatus1) := BytesLowFirst(ConfigWord(space, l, 0x1C));
    var (memoryBase, memoryLimit) := HalvesLowFirst(ConfigWord(space, l, 0x20));
    var (prefetchableBase, prefetchableLimit) := HalvesLowFirst(ConfigWord(space, l, 0x24));
    var (ioBaseUpper, ioLimitUpper) := HalvesLowFirst(ConfigWord(space, l, 0x30));
    var (capabilityPointer, _, _, _) := BytesLowFirst(ConfigWord(space, l, 0x34));
    var (interruptLine, interruptPin, bridgeControl2, bridgeControl1) := BytesLowFirst(ConfigWord(space, l, 0x3C));
    PciToPci(common, bars, primary, secondary, subordinate, secondaryLatency, ioBase, ioLimit,
             JoinAsWritten(secondaryStatus1, secondaryStatus2), memoryBase, memoryLimit,
             prefetchableBase, prefetchableLimit, ConfigWord(space, l, 0x28), ConfigWord(space, l, 0x2C),
             ioBaseUpper, ioLimitUpper, capabilityPointer, ConfigWord(space, l, 0x38),
             interruptLine, interruptPin, JoinAsWritten(bridgeControl1, bridgeControl2))
  }

  /** The bridge's secondary status is lost: whenever the upper half of
      dword 0x1C is not 0, the device records something else. */
  lemma BridgeStatusLost(space: ConfigSpace, l: Location, common: CommonHeaders)
    requires ValidLocation(l)
    requires HalvesLowFirst(ConfigWord(space, l, 0x1C)).1 != 0
    ensures BridgeDevice(space, l, common).secondaryStatus != HalvesLowFirst(ConfigWord(space, l, 0x1C)).1
  {}

  /** `scan_device`: no device when the vendor id reads 0xFFFF; otherwise
      a general device for header type 0 and a PCI-to-PCI bridge for
      header type 1; any other header type (a multi-function header type
      among them) is skipped. */
  function ScanDevice(space: ConfigSpace, s: BusScan): (r: Option<Device>)
    requires Reachable(s)
    ensures var l := Probed(s);
            var header := (ConfigWord(space, l, 0x0C) >> 16) & 0xFF;
            (r.None? <==> ConfigWord(space, l, 0x00) & 0xFFFF == 0xFFFF || (header != 0 && header != 1))
            && (r.Some? ==> r.value.common == CommonHeader(space, l))
            && (r.Some? ==> (r.value.General? <==> header == 0))
            && (r.Some? && r.value.General? ==> GeneralLayout(space, l, r.value))
            && (r.Some? && r.value.PciToPci? ==> BridgeLayout(space, l, r.value))
  {
    var l := Probed(s);
    var c := CommonHeader(space, l);
    if c.vendorId == 0xFFFF then None
    else if c.headerType == 0 then Some(GeneralDevice(space, l, c))
    else if c.headerType == 1 then Some(BridgeDevice(space, l, c))
    else None
  }

  /** A header-type-0 device: six BARs from 0x10..0x24, and dword 0x3C
      read with `max_latency` in byte 0 and `interrupt_line` in byte 3,
      the reverse of the standard header layout. */
  ghost predicate GeneralLayout(space: ConfigSpace, l: Location, d: Device)
    requires ValidLocation(l) && d.General?
  {
    |d.bars| == 6
    && (forall i :: 0 <= i < 6 ==> d.bars[i] == BarNew(ConfigWord(space, l, GENERAL_BARS[i])))
    && d.cardbusCisPointer == ConfigWord(space, l, 0x28)
    && d.expansionRomBaseAddress == ConfigWord(space, l, 0x30)
    && d.maxLatency as bv32 == ConfigWord(space, l, 0x3C) & 0xFF
    && d.interruptLine as bv32 == ConfigWord(space, l, 0x3C) >> 24
  }

  /** A header-type-1 device: two BARs, and the secondary status and
      bridge control registers both 0, since the code joins their bytes
      with `&` (`JoinAsWritten`); the bytes it reads are the upper halves
      of dwords 0x1C and 0x3C, which `Join` would give back. */
  ghost predicate BridgeLayout(space: ConfigSpace, l: Location, d: Device)
    requires ValidLocation(l) && d.PciToPci?
  {
    |d.bars| == 2
    && (forall i :: 0 <= i < 2 ==> d.bars[i] == BarNew(ConfigWord(space, l, BRIDGE_BARS[i])))
    && d.secondaryStatus == 0
    && d.bridgeControl == 0
    && d.interruptLine as bv32 == ConfigWord(space, l, 0x3C) & 0xFF
  }

  // ----- the iterator -----

  /** `scan_device` as the iterator uses it: a probe of every slot. The
      iterator only probes reachable slots, so the value elsewhere does not
      matter. */
  function Prober(space: ConfigSpace): (probe: BusScan -> Option<Device>)
    ensures forall s :: Reachable(s) ==> probe(s) == ScanDevice(space, s)
  {
    s => if Reachable(s) then ScanDevice(space, s) else None
  }

  /** `next`: probe slots from `s` on until one holds a device, stopping
      at the last slot; the slot probed is passed before the search goes
      on. Once the scan is done, every call returns nothing. The iterator
      is stated for any probe; `Prober(space)` is the kernel's. */
  function Next(probe: BusScan -> Option<Device>, s: BusScan): (r: (Option<Device>, BusScan))
    requires Reachable(s)
    ensures Reachable(r.1) && Ordinal(s) <= Ordinal(r.1) <= LAST_SLOT
    ensures r.0.None? ==> Done(r.1)
    ensures Done(s) ==> r == (None, s)
    ensures r.0.Some? ==> Ordinal(s) < Ordinal(r.1)
    decreases LAST_SLOT - Ordinal(s)
  {
    DoneIsLast(s);
    if Done(s) then (None, s)
    else
      var d := probe(s);
      var s' := Increment(s).value;
      if d.Some? then
        DoneIsLast(s');
        (d, s')
      else Next(probe, s')
  }

  /** The reference: the devices found at positions `lo` up to (not
      including) `hi`, in bus-major order. */
  ghost function DevicesIn(probe: BusScan -> Option<Device>, lo: nat, hi: nat): seq<Device>
    requires lo <= hi <= LAST_SLOT
    decreases hi - lo
  {
    if lo == hi then [] else Found(probe, lo) + DevicesIn(probe, lo + 1, hi)
  }

  /** The device at one position, if any. */
  function Found(probe: BusScan -> Option<Device>, k: nat): (r: seq<Device>)
    requires k <= LAST_SLOT
    ensures |r| <= 1
  {
    match probe(Slot(k))
    case None => []
    case Some(d) => [d]
  }

  lemma {:induction false} DevicesInSplit(probe: BusScan -> Option<Device>, lo: nat, mid: nat, hi: nat)
    requires lo <= mid <= hi <= LAST_SLOT
    ensures DevicesIn(probe, lo, hi) == DevicesIn(probe, lo, mid) + DevicesIn(probe, mid, hi)
    decreases mid - lo
  {
    if lo < mid {
      DevicesInSplit(probe, lo + 1, mid, hi);
      var f := Found(probe, lo);
      assert DevicesIn(probe, lo, hi) == f + DevicesIn(probe, lo + 1, hi);
      assert DevicesIn(probe, lo, mid) == f + DevicesIn(probe, lo + 1, mid);
      assert f + (DevicesIn(probe, lo + 1, mid) + DevicesIn(probe, mid, hi))
             == (f + DevicesIn(probe, lo + 1, mid)) + DevicesIn(probe, mid, hi);
    }
  }

  /** One call of `next` from `s`: the device it returns, if any, is the
      first one found from `s` on, at the slot just before the state it
      leaves; nothing comes back exactly when no slot from `s` up to the
      last holds a device. */
  lemma {:induction false} NextFindsFirst(probe: BusScan -> Option<Device>, s: BusScan)
    requires Reachable(s)
    ensures FindsFirst(probe, s)
    decreases LAST_SLOT - Ordinal(s)
  {
    DoneIsLast(s);
    if !Done(s) {
      if probe(s).None? {
        var s' := Increment(s).value;
        NextFindsFirst(probe, s');
        SkipSlot(probe, s, s');
      } else {
        FoundHere(probe, s);
      }
    }
  }

  /** What `NextFindsFirst` states of one state. */
  ghost predicate FindsFirst(probe: BusScan -> Option<Device>, s: BusScan)
    requires Reachable(s)
  {
    var r := Next(probe, s);
    (r.0.None? <==> DevicesIn(probe, Ordinal(s), LAST_SLOT) == [])
    && (r.0.Some? ==> probe(Slot(Ordinal(r.1) - 1)) == r.0
                      && DevicesIn(probe, Ordinal(s), Ordinal(r.1)) == [r.0.value])
  }

  /** The step of `NextFindsFirst` where the slot probed is empty: the
      search from the next slot decides. */
  lemma SkipSlot(probe: BusScan -> Option<Device>, s: BusScan, s': BusScan)
    requires Reachable(s) && !Done(s) && probe(s).None?
    requires Reachable(s') && Increment(s) == Value(s') && FindsFirst(probe, s')
    ensures FindsFirst(probe, s)
  {
    var k := Ordinal(s);
    DoneIsLast(s);
    assert Next(probe, s) == Next(probe, s');
    OrdinalInjective(s, Slot(k));
    SkipEmpty(probe, k, LAST_SLOT);
    if Next(probe, s').0.Some? {
      SkipEmpty(probe, k, Ordinal(Next(probe, s').1));
    }
  }

  /** The step of `NextFindsFirst` where the slot probed holds a device. */
  lemma FoundHere(probe: BusScan -> Option<Device>, s: BusScan)
    requires Reachable(s) && !Done(s) && probe(s).Some?
    ensures DevicesIn(probe, Ordinal(s), LAST_SLOT) != []
    ensures probe(Slot(Ordinal(Next(probe, s).1) - 1)) == Next(probe, s).0
    ensures DevicesIn(probe, Ordinal(s), Ordinal(Next(probe, s).1)) == [Next(probe, s).0.value]
  {
    DoneIsLast(s);
    var k := Ordinal(s);
    var s' := Increment(s).value;
    assert Next(probe, s) == (probe(s), s');
    assert Ordinal(s') == k + 1;
    OrdinalInjective(s, Slot(k));
    FoundOne(probe, k);
    DevicesInSplit(probe, k, k + 1, LAST_SLOT);
  }

  lemma FoundOne(probe: BusScan -> Option<Device>, k: nat)
    requires k < LAST_SLOT && probe(Slot(k)).Some?
    ensures DevicesIn(probe, k, k + 1) == [probe(Slot(k)).value]
  {
    assert DevicesIn(probe, k, k + 1) == Found(probe, k) + [];
  }

  lemma SkipEmpty(probe: BusScan -> Option<Device>, k: nat, hi: nat)
    requires k < hi <= LAST_SLOT && probe(Slot(k)).None?
    ensures DevicesIn(probe, k, hi) == DevicesIn(probe, k + 1, hi)
  {
    assert DevicesIn(probe, k, hi) == [] + DevicesIn(probe, k + 1, hi);
  }

  /** Calling `next` until it returns nothing. */
  function Collect(probe: BusScan -> Option<Device>, s: BusScan): (devices: seq<Device>)
    requires Reachable(s)
    decreases LAST_SLOT - Ordinal(s)
  {
    match Next(probe, s)
    case (None, _) => []
    case (Some(d), s') => [d] + Collect(probe, s')
  }

  /** Calling `next` from `s` until it returns nothing yields every device
      found from `s` up to the last slot, in bus-major order, each once. */
  lemma {:induction false} CollectEnumerates(probe: BusScan -> Option<Device>, s: BusScan)
    requires Reachable(s)
    ensures Collect(probe, s) == DevicesIn(probe, Ordinal(s), LAST_SLOT)
    decreases LAST_SLOT - Ordinal(s)
  {
    NextFindsFirst(probe, s);
    var (d, s') := Next(probe, s);
    if d.Some? {
      CollectEnumerates(probe, s');
      DevicesInSplit(probe, Ordinal(s), Ordinal(s'), LAST_SLOT);
    }
  }

  /** The scan from `BusScan::new` yields exactly the devices present at
      function 0 of every slot but (255, 31), in bus-major order. */
  lemma FullScan(space: ConfigSpace)
    ensures Collect(Prober(space), ScanNew()) == DevicesIn(Prober(space), 0, LAST_SLOT)
  {
    CollectEnumerates(Prober(space), ScanNew());
  }
}
