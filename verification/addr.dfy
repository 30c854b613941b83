/** Virtual and physical addresses of x86-64.

    A virtual address is a u64 whose bits 48..63 are copies of bit 47
    ("canonical", section 3.3.7.1 of volume 1 of the Intel 64 and IA-32
    Architectures Software Developer's Manual): it lies in the lower half
    [0, 2^47) or in the upper half [2^64 - 2^47, 2^64). A physical address
    is a u64 below 2^52. The index and offset functions split a virtual
    address into the four 9-bit table indices and the 12-bit page offset
    used by 4-level paging. */
module Addr {
  import opened Common
  import opened IntBits
  import opened TableIndex

  const TWO_47: int := 0x8000_0000_0000
  const TWO_48: int := 0x1_0000_0000_0000
  const TWO_63: int := 0x8000_0000_0000_0000
  /** First address of the upper canonical half. */
  const UPPER_HALF: int := 0xFFFF_8000_0000_0000
  const U64_MAX: int := TWO_64 - 1
  /** Physical addresses are below 2^52. */
  const PHYS_LIMIT: int := 0x10_0000_0000_0000

  predicate Canonical(a: int) {
    (0 <= a < TWO_47) || (UPPER_HALF <= a < TWO_64)
  }

  type VirtAddr = a: U64 | Canonical(a)
  type PhysAddr = a: int | 0 <= a < PHYS_LIMIT

  /** Bit 47 of `a`. */
  function Bit47(a: int): int {
    (a / TWO_47) % 2
  }

  // ----- VirtAddr -----

  /** `VirtAddr::new_truncate`: shift left by 16 within u64, reinterpret as
      i64, shift right arithmetically by 16, reinterpret as u64. The result
      keeps bits 0..47 and copies bit 47 into bits 48..63. */
  function VirtNewTruncate(addr: U64): (v: VirtAddr)
    ensures v % TWO_48 == addr % TWO_48
    ensures v / TWO_47 == (if Bit47(addr) == 0 then 0 else 0x1_FFFF)
    ensures v == addr <==> Canonical(addr)
  {
    NewTruncateMeaning(addr);
    var shifted := (addr * TWO_16) % TWO_64;
    var signed := if shifted < TWO_63 then shifted else shifted - TWO_64;
    var v := (signed / TWO_16) % TWO_64;
    SignExtension(addr, v);
    v
  }

  /** What the closed form of the sign extension means bit-wise. */
  lemma SignExtension(addr: U64, v: int)
    requires v == (if addr % TWO_48 < TWO_47 then addr % TWO_48 else addr % TWO_48 + TWO_64 - TWO_48)
    ensures 0 <= v < TWO_64 && Canonical(v)
    ensures v % TWO_48 == addr % TWO_48
    ensures v / TWO_47 == (if addr % TWO_48 < TWO_47 then 0 else 0x1_FFFF)
    ensures v == addr <==> Canonical(addr)
  {
    var hi, low := addr / TWO_48, addr % TWO_48;
    assert addr == hi * TWO_48 + low;
    if low < TWO_47 {
      DivModUnique(v, TWO_48, 0, low);
      DivModUnique(v, TWO_47, 0, v);
    } else {
      DivModUnique(v, TWO_48, 0xFFFF, low);
      DivModUnique(v, TWO_47, 0x1_FFFF, low - TWO_47);
    }
  }

  /** The shift-based sign extension in closed form: the low 48 bits, plus
      2^64 - 2^48 when bit 47 is set. */
  lemma NewTruncateMeaning(addr: U64)
    ensures var low := addr % TWO_48;
            var shifted := (addr * TWO_16) % TWO_64;
            var signed := if shifted < TWO_63 then shifted else shifted - TWO_64;
            (signed / TWO_16) % TWO_64 == (if low < TWO_47 then low else low + TWO_64 - TWO_48)
    ensures Bit47(addr) == 0 <==> addr % TWO_48 < TWO_47
  {
    var low := addr % TWO_48;
    DivModUnique(addr * TWO_16, TWO_64, addr / TWO_48, low * TWO_16);
    var shifted := (addr * TWO_16) % TWO_64;
    assert shifted == low * TWO_16;
    if low < TWO_47 {
      DivModUnique(shifted, TWO_16, low, 0);
    } else {
      DivModUnique(shifted - TWO_64, TWO_16, low - TWO_48, 0);
      DivModUnique(low - TWO_48, TWO_64, -1, low - TWO_48 + TWO_64);
    }
    DivModUnique(addr, TWO_47, 2 * (addr / TWO_48) + low / TWO_47, low % TWO_47);
    DivModUnique(addr / TWO_47, 2, addr / TWO_48, low / TWO_47);
  }

  /** `VirtAddr::new` returns its argument if truncation leaves it
      unchanged and panics otherwise. */
  function VirtNew(addr: U64): (r: Outcome<VirtAddr>)
    ensures r.Value? <==> Canonical(addr)
    ensures r.Value? ==> r.value == addr
  {
    var v := VirtNewTruncate(addr);
    if v == addr then Value(v)
    else Panic("virtual address must be sign extended in bits 48 to 64")
  }

  /** `VirtAddr::page_offset`: the low 12 bits. */
  function PageOffsetOf(a: VirtAddr): (r: PageOffset)
    ensures r == a % 4096
  {
    ModOfMod(a, 4096, 16);
    OffsetNewTruncate(a % TWO_16)
  }

  /** `VirtAddr::p1_index`: bits 12..20. */
  function P1Index(a: VirtAddr): (r: PageTableIndex)
    ensures r < ENTRY_COUNT
    ensures r == (a / 0x1000) % 512
  {
    ModOfMod(a / 0x1000, 512, 128);
    IndexNewTruncate((a / 0x1000) % TWO_16)
  }

  /** `VirtAddr::p2_index`: bits 21..29. */
  function P2Index(a: VirtAddr): (r: PageTableIndex)
    ensures r < ENTRY_COUNT
    ensures r == (a / 0x20_0000) % 512
  {
    DivDiv(a, 0x1000, 512);
    ModOfMod(a / 0x20_0000, 512, 128);
    IndexNewTruncate(((a / 0x1000) / 512) % TWO_16)
  }

  /** `VirtAddr::p3_index`: bits 30..38. */
  function P3Index(a: VirtAddr): (r: PageTableIndex)
    ensures r < ENTRY_COUNT
    ensures r == (a / 0x4000_0000) % 512
  {
    DivDiv(a, 0x1000, 512);
    DivDiv(a, 0x20_0000, 512);
    ModOfMod(a / 0x4000_0000, 512, 128);
    IndexNewTruncate((((a / 0x1000) / 512) / 512) % TWO_16)
  }

  /** `VirtAddr::p4_index`: bits 39..47. */
  function P4Index(a: VirtAddr): (r: PageTableIndex)
    ensures r < ENTRY_COUNT
    ensures r == (a / 0x80_0000_0000) % 512
  {
    DivDiv(a, 0x1000, 512);
    DivDiv(a, 0x20_0000, 512);
    DivDiv(a, 0x4000_0000, 512);
    ModOfMod(a / 0x80_0000_0000, 512, 128);
    IndexNewTruncate(((((a / 0x1000) / 512) / 512) / 512) % TWO_16)
  }

  /** `VirtAddr::align_down`: align the raw value, then truncate. */
  function VirtAlignDown(a: VirtAddr, align: U64): (r: Outcome<VirtAddr>)
    ensures r.Panic? <==> align == 0
    ensures r.Value? ==> r.value == VirtNewTruncate(AlignDown(a, align).value)
  {
    match AlignDown(a, align)
    case Panic(msg) => Panic(msg)
    case Value(d) => Value(VirtNewTruncate(d))
  }

  /** `VirtAddr + u64`: the u64 addition panics on overflow and the result
      goes through `VirtAddr::new`. */
  function VirtAdd(a: VirtAddr, rhs: U64): (r: Outcome<VirtAddr>)
    ensures r.Value? <==> a + rhs < TWO_64 && Canonical(a + rhs)
    ensures r.Value? ==> r.value == a + rhs
  {
    if a + rhs >= TWO_64 then Panic("attempt to add with overflow")
    else VirtNew(a + rhs)
  }

  /** `VirtAddr - u64`: the u64 subtraction panics on underflow and the
      result goes through `VirtAddr::new`. */
  function VirtSub(a: VirtAddr, rhs: U64): (r: Outcome<VirtAddr>)
    ensures r.Value? <==> a - rhs >= 0 && Canonical(a - rhs)
    ensures r.Value? ==> r.value == a - rhs
  {
    if a - rhs < 0 then Panic("attempt to subtract with overflow")
    else VirtNew(a - rhs)
  }

  /** The four table indices and the page offset are the bit fields of the
      low 48 bits, so putting them back together and sign-extending gives
      back the canonical address. */
  lemma {:induction false} IndicesReassemble(a: VirtAddr)
    ensures P4Index(a) * 0x80_0000_0000 + P3Index(a) * 0x4000_0000
            + P2Index(a) * 0x20_0000 + P1Index(a) * 0x1000 + PageOffsetOf(a) == a % TWO_48
    ensures VirtNewTruncate(P4Index(a) * 0x80_0000_0000 + P3Index(a) * 0x4000_0000
            + P2Index(a) * 0x20_0000 + P1Index(a) * 0x1000 + PageOffsetOf(a)) == a
  {
    var x := a % TWO_48;
    var q1 := a / 0x1000;
    var q2 := q1 / 512;
    var q3 := q2 / 512;
    var q4 := q3 / 512;
    assert a == q1 * 0x1000 + a % 0x1000;
    assert q1 == q2 * 512 + q1 % 512;
    assert q2 == q3 * 512 + q2 % 512;
    assert q3 == q4 * 512 + q3 % 512;
    DivModUnique(a, 0x20_0000, q2, (q1 % 512) * 0x1000 + a % 0x1000);
    DivModUnique(a, 0x4000_0000, q3, (q2 % 512) * 0x20_0000 + (q1 % 512) * 0x1000 + a % 0x1000);
    DivModUnique(a, 0x80_0000_0000, q4,
                 (q3 % 512) * 0x4000_0000 + (q2 % 512) * 0x20_0000 + (q1 % 512) * 0x1000 + a % 0x1000);
    DivModUnique(a, TWO_48, q4 / 512,
                 (q4 % 512) * 0x80_0000_0000 + (q3 % 512) * 0x4000_0000 + (q2 % 512) * 0x20_0000
                 + (q1 % 512) * 0x1000 + a % 0x1000);
    var sum := P4Index(a) * 0x80_0000_0000 + P3Index(a) * 0x4000_0000
               + P2Index(a) * 0x20_0000 + P1Index(a) * 0x1000 + PageOffsetOf(a);
    assert sum == x;
    DivModUnique(x, TWO_48, 0, x);
    SameLowBitsSameTruncation(x, a);
  }

  /** `new_truncate` depends only on the low 48 bits. */
  lemma SameLowBitsSameTruncation(x: U64, y: U64)
    requires x % TWO_48 == y % TWO_48
    ensures VirtNewTruncate(x) == VirtNewTruncate(y)
  {
    var vx, vy := VirtNewTruncate(x), VirtNewTruncate(y);
    NewTruncateMeaning(x);
    NewTruncateMeaning(y);
    assert vx / TWO_47 == vy / TWO_47;
    assert vx == (vx / TWO_48) * TWO_48 + vx % TWO_48;
    assert vy == (vy / TWO_48) * TWO_48 + vy % TWO_48;
    DivModUnique(vx / TWO_47, 2, vx / TWO_48, (vx / TWO_47) % 2);
    DivModUnique(vy / TWO_47, 2, vy / TWO_48, (vy / TWO_47) % 2);
  }

  // ----- PhysAddr -----

  /** `PhysAddr::new_truncate`: `addr % (1 << 52)`. */
  function PhysNewTruncate(addr: U64): (p: PhysAddr)
    ensures p == addr <==> addr < PHYS_LIMIT
    ensures (addr - p) % PHYS_LIMIT == 0
  {
    addr % PHYS_LIMIT
  }

  /** `PhysAddr::new` panics if any of bits 52..63 is set. */
  function PhysNew(addr: U64): (r: Outcome<PhysAddr>)
    ensures r.Value? <==> addr < PHYS_LIMIT
    ensures r.Value? ==> r.value == addr
  {
    var p := PhysNewTruncate(addr);
    if p == addr then Value(p)
    else Panic("physical addresses must not have any bits in the range 52 to 64 set")
  }

  /** `PhysAddr::align_down` builds the result directly, without `new`. */
  function PhysAlignDown(a: PhysAddr, align: U64): (r: Outcome<PhysAddr>)
    ensures r.Panic? <==> align == 0
    ensures r.Value? ==> r.value == AlignDown(a, align).value
  {
    match AlignDown(a, align)
    case Panic(msg) => Panic(msg)
    case Value(d) => Value(d)
  }

  /** `PhysAddr::is_aligned`: aligning down leaves the address unchanged. */
  function PhysIsAligned(a: PhysAddr, align: U64): (r: Outcome<bool>)
    ensures r.Panic? <==> align == 0
    ensures r.Value? ==> (r.value <==> PhysAlignDown(a, align).value == a)
    ensures r.Value? && IsPowerOfTwo(align) ==> (r.value <==> a % align == 0)
  {
    match PhysAlignDown(a, align)
    case Panic(msg) => Panic(msg)
    case Value(d) => Value(d == a)
  }

  /** `PhysAddr + u64`: the u64 addition panics on overflow and the result
      goes through `PhysAddr::new`. */
  function PhysAdd(a: PhysAddr, rhs: U64): (r: Outcome<PhysAddr>)
    ensures r.Value? <==> a + rhs < PHYS_LIMIT
    ensures r.Value? ==> r.value == a + rhs
  {
    if a + rhs >= TWO_64 then Panic("attempt to add with overflow")
    else PhysNew(a + rhs)
  }

  // ----- free functions -----

  /** `align_down(addr, align)`: `addr & !(align - 1)`. The subtraction
      panics for `align == 0`. For a power of two the result is the
      greatest multiple of `align` not above `addr`. */
  function AlignDown(addr: U64, align: U64): (r: Outcome<U64>)
    ensures r.Panic? <==> align == 0
    ensures r.Value? ==> r.value <= addr
    ensures r.Value? && IsPowerOfTwo(align) ==> r.value == addr - addr % align
  {
    if align == 0 then Panic("attempt to subtract with overflow")
    else
      Pow2Constants();
      AlignDownMeaning(addr, align);
      Value(And(addr, (U64_MAX - (align - 1))))
  }

  /** `align_up(addr, align)`: `addr` if it is aligned, otherwise
      `(addr | (align - 1)) + 1`, which panics on u64 overflow. */
  function AlignUp(addr: U64, align: U64): (r: Outcome<U64>)
    ensures align == 0 ==> r.Panic?
    ensures IsPowerOfTwo(align) && addr % align == 0 ==> r == Value(addr)
    ensures IsPowerOfTwo(align) && addr % align != 0 ==>
              (r.Panic? <==> addr - addr % align + align >= TWO_64)
    ensures IsPowerOfTwo(align) && r.Value? ==>
              r.value % align == 0 && addr <= r.value < addr + align
  {
    if align == 0 then Panic("attempt to subtract with overflow")
    else
      var mask := align - 1;
      AlignUpMeaning(addr, align);
      if And(addr, mask) == 0 then Value(addr)
      else if Or(addr, mask) + 1 >= TWO_64 then Panic("attempt to add with overflow")
      else Value(Or(addr, mask) + 1)
  }

  /** The Pow2 values behind the u64 width and the page sizes. */
  lemma Pow2Constants()
    ensures Pow2(12) == 0x1000 && Pow2(21) == 0x20_0000 && Pow2(30) == 0x4000_0000
    ensures Pow2(64) == TWO_64
  {
    Pow2Small();
    Pow2Add(8, 4);
    Pow2Add(16, 5);
    Pow2Add(16, 14);
    Pow2Add(32, 32);
  }

  lemma Pow2Small()
    ensures Pow2(4) == 16 && Pow2(5) == 32 && Pow2(8) == 256 && Pow2(14) == 0x4000
    ensures Pow2(16) == TWO_16 && Pow2(32) == TWO_32
  {
    Pow2Add(4, 4);
    Pow2Add(8, 6);
    Pow2Add(8, 8);
    Pow2Add(16, 16);
  }

  /** For a power of two, the masked value is the value minus its remainder. */
  lemma AlignDownMeaning(addr: U64, align: U64)
    requires 1 <= align
    ensures And(addr, (U64_MAX - (align - 1))) <= addr
    ensures IsPowerOfTwo(align) ==> And(addr, (U64_MAX - (align - 1))) == addr - addr % align
  {
    if IsPowerOfTwo(align) {
      var n := Log2(align);
      Log2AtMost64(align);
      Pow2Constants();
      AndHighMask(addr, 64, TWO_64, n, align);
    }
  }

  /** A u64 power of two has an exponent of at most 64. */
  lemma Log2AtMost64(k: U64)
    requires IsPowerOfTwo(k)
    ensures Log2(k) <= 64
  {
    var n := Log2(k);
    if n > 64 {
      Pow2Constants();
      Pow2Monotone(64, n - 1);
      assert false;
    }
  }

  /** For a power of two, the low-bit test and the or-plus-one have their
      arithmetic meaning, and the or-plus-one is the next multiple. */
  lemma AlignUpMeaning(addr: U64, align: U64)
    requires align >= 1
    ensures IsPowerOfTwo(align) ==> (And(addr, align - 1) == 0 <==> addr % align == 0)
    ensures IsPowerOfTwo(align) ==> Or(addr, align - 1) + 1 == addr - addr % align + align
    ensures (addr - addr % align + align) % align == 0
  {
    if IsPowerOfTwo(align) {
      var n := Log2(align);
      AndLowMask(addr, n, align);
      OrLowMask(addr, n, align);
    }
    NextMultiple(addr, align);
  }

  lemma NextMultiple(a: int, k: int)
    requires k >= 1
    ensures (a - a % k + k) % k == 0
  {
    var q := a / k;
    assert a == k * q + a % k;
    assert a - a % k + k == k * (q + 1);
    DivModUnique(a - a % k + k, k, q + 1, 0);
  }
}
