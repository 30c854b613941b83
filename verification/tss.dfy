/** The 64-bit task state segment and its in-memory size. */
module Tss {
  import opened Common
  import opened IntBits

  /** `TaskStateSegment`, field by field in declaration order. */
  datatype TaskStateSegment = TaskStateSegment(
    reserved1: U32,
    privilegeStackTable: seq<U64>,
    reserved2: U64,
    interruptStackTable: seq<U64>,
    reserved3: U64,
    reserved4: U64,
    ioMapBase: U16)

  /** One field of a `#[repr(C)]` struct: its size and natural alignment
      in bytes. */
  datatype Field = Field(size: nat, align: nat)

  /** The fields of `TaskStateSegment`: a u32, three u64, a u64, seven
      u64, two u64 and a u16. */
  function TssFields(): seq<Field> {
    [Field(4, 4), Field(24, 8), Field(8, 8), Field(56, 8), Field(8, 8), Field(8, 8), Field(2, 2)]
  }

  function Min(a: nat, b: nat): nat {
    if a < b then a else b
  }

  /** The least multiple of `a` that is at least `x`. */
  function RoundUp(x: nat, a: nat): (r: nat)
    requires a >= 1
    ensures r % a == 0 && x <= r < x + a
  {
    if x % a == 0 then x
    else
      assert x == a * (x / a) + x % a;
      DivModUnique(x + (a - x % a), a, x / a + 1, 0);
      x + (a - x % a)
  }

  /** The offset of each field under `#[repr(C, packed(pack))]`: a field
      starts at the first multiple of `min(align, pack)` after the end of
      the previous field. */
  function Offsets(fields: seq<Field>, pack: nat, start: nat): (offs: seq<nat>)
    requires pack >= 1
    ensures |offs| == |fields|
  {
    if |fields| == 0 then []
    else
      var at := RoundUp(start, Min(Max1(fields[0].align), pack));
      [at] + Offsets(fields[1..], pack, at + fields[0].size)
  }

  function Max1(a: nat): nat {
    if a == 0 then 1 else a
  }

  /** The end of the last field. */
  function EndOf(fields: seq<Field>, pack: nat, start: nat): nat
    requires pack >= 1
  {
    if |fields| == 0 then start
    else EndOf(fields[1..], pack, RoundUp(start, Min(Max1(fields[0].align), pack)) + fields[0].size)
  }

  /** The struct's alignment: the largest field alignment, capped by
      `pack`. */
  function StructAlign(fields: seq<Field>, pack: nat): (a: nat)
    requires pack >= 1
    ensures 1 <= a <= pack
  {
    if |fields| == 0 then 1
    else
      var rest := StructAlign(fields[1..], pack);
      var here := Min(Max1(fields[0].align), pack);
      if here > rest then here else rest
  }

  /** `size_of`: the end of the last field rounded up to the struct's
      alignment. */
  function SizeOf(fields: seq<Field>, pack: nat): nat
    requires pack >= 1
  {
    RoundUp(EndOf(fields, pack, 0), StructAlign(fields, pack))
  }

  /** `size_of::<TaskStateSegment>()` under `packed(4)`. */
  function TssSize(): nat {
    SizeOf(TssFields(), 4)
  }

  /** The declared fields end at byte 110, the struct is 4-aligned, so its
      size is 112, and `iomap_base` sits at offset 108. */
  lemma TssLayout()
    ensures EndOf(TssFields(), 4, 0) == 110
    ensures TssSize() == 112
    ensures Offsets(TssFields(), 4, 0) == [0, 4, 28, 36, 92, 100, 108]
  {
    EndOfTss();
    AlignOfTss();
    OffsetsOfTss();
  }

  lemma EndOfTss()
    ensures EndOf(TssFields(), 4, 0) == 110
  {
    var f := TssFields();
    assert EndOf(f, 4, 0) == EndOf(f[1..], 4, 4);
    assert EndOf(f[1..], 4, 4) == EndOf(f[2..], 4, 28) by { assert f[1..][1..] == f[2..]; }
    assert EndOf(f[2..], 4, 28) == EndOf(f[3..], 4, 36) by { assert f[2..][1..] == f[3..]; }
    assert EndOf(f[3..], 4, 36) == EndOf(f[4..], 4, 92) by { assert f[3..][1..] == f[4..]; }
    assert EndOf(f[4..], 4, 92) == EndOf(f[5..], 4, 100) by { assert f[4..][1..] == f[5..]; }
    assert EndOf(f[5..], 4, 100) == EndOf(f[6..], 4, 108) by { assert f[5..][1..] == f[6..]; }
    assert EndOf(f[6..], 4, 108) == EndOf(f[7..], 4, 110) by { assert f[6..][1..] == f[7..]; }
  }

  lemma AlignOfTss()
    ensures StructAlign(TssFields(), 4) == 4
  {
    var f := TssFields();
    assert StructAlign(f[6..], 4) == 2 by { assert f[6..][1..] == []; }
    assert StructAlign(f[5..], 4) == 4 by { assert f[5..][1..] == f[6..]; }
    assert StructAlign(f[4..], 4) == 4 by { assert f[4..][1..] == f[5..]; }
    assert StructAlign(f[3..], 4) == 4 by { assert f[3..][1..] == f[4..]; }
    assert StructAlign(f[2..], 4) == 4 by { assert f[2..][1..] == f[3..]; }
    assert StructAlign(f[1..], 4) == 4 by { assert f[1..][1..] == f[2..]; }
  }

  lemma OffsetsOfTss()
    ensures Offsets(TssFields(), 4, 0) == [0, 4, 28, 36, 92, 100, 108]
  {
    var f := TssFields();
    OffsetsOfTssHead();
    assert f[1..][1..] == f[2..];
  }

  lemma OffsetsOfTssHead()
    ensures Offsets(TssFields()[1..], 4, 4) == [4, 28, 36, 92, 100, 108]
  {
    var f := TssFields();
    OffsetsOfTssTail();
    assert Offsets(f[2..], 4, 28) == [28, 36, 92, 100, 108] by { assert f[2..][1..] == f[3..]; }
  }

  lemma OffsetsOfTssTail()
    ensures Offsets(TssFields()[3..], 4, 36) == [36, 92, 100, 108]
  {
    var f := TssFields();
    assert Offsets(f[6..], 4, 108) == [108] by { assert f[6..][1..] == []; }
    assert Offsets(f[5..], 4, 100) == [100, 108] by { assert f[5..][1..] == f[6..]; }
    assert Offsets(f[4..], 4, 92) == [92, 100, 108] by { assert f[4..][1..] == f[5..]; }
    assert Offsets(f[3..], 4, 36) == [36, 92, 100, 108] by { assert f[3..][1..] == f[4..]; }
  }

  /** Offset of the I/O map base in the 64-bit TSS of section 8.7 of the
      Intel SDM Volume 3A, and the size of that TSS. */
  const HW_IO_MAP_BASE_OFFSET: nat := 102
  const HW_TSS_SIZE: nat := 104

  /** The fields with the second reserved word after the interrupt stack
      table declared as a u16, as in the architectural layout. */
  function TssFieldsFixed(): seq<Field> {
    [Field(4, 4), Field(24, 8), Field(8, 8), Field(56, 8), Field(8, 8), Field(2, 2), Field(2, 2)]
  }

  /** As declared, `iomap_base` is not where the processor reads the I/O
      map base, and the struct is 8 bytes longer than a TSS. */
  lemma TssLayoutMismatch()
    ensures Offsets(TssFields(), 4, 0)[6] != HW_IO_MAP_BASE_OFFSET
    ensures TssSize() != HW_TSS_SIZE
  {
    TssLayout();
  }

  /** With the u16 reserved field, `iomap_base` sits at the architectural
      offset and the struct has the architectural size. */
  lemma TssLayoutFixed()
    ensures Offsets(TssFieldsFixed(), 4, 0)[6] == HW_IO_MAP_BASE_OFFSET
    ensures SizeOf(TssFieldsFixed(), 4) == HW_TSS_SIZE
  {
    EndOfFixed();
    AlignOfFixed();
    OffsetsOfFixed();
  }

  lemma EndOfFixed()
    ensures EndOf(TssFieldsFixed(), 4, 0) == 104
  {
    var f := TssFieldsFixed();
    assert EndOf(f, 4, 0) == EndOf(f[1..], 4, 4);
    assert EndOf(f[1..], 4, 4) == EndOf(f[2..], 4, 28) by { assert f[1..][1..] == f[2..]; }
    assert EndOf(f[2..], 4, 28) == EndOf(f[3..], 4, 36) by { assert f[2..][1..] == f[3..]; }
    assert EndOf(f[3..], 4, 36) == EndOf(f[4..], 4, 92) by { assert f[3..][1..] == f[4..]; }
    assert EndOf(f[4..], 4, 92) == EndOf(f[5..], 4, 100) by { assert f[4..][1..] == f[5..]; }
    assert EndOf(f[5..], 4, 100) == EndOf(f[6..], 4, 102) by { assert f[5..][1..] == f[6..]; }
    assert EndOf(f[6..], 4, 102) == EndOf(f[7..], 4, 104) by { assert f[6..][1..] == f[7..]; }
  }

  lemma AlignOfFixed()
    ensures StructAlign(TssFieldsFixed(), 4) == 4
  {
    var f := TssFieldsFixed();
    assert StructAlign(f[6..], 4) == 2 by { assert f[6..][1..] == []; }
    assert StructAlign(f[5..], 4) == 2 by { assert f[5..][1..] == f[6..]; }
    assert StructAlign(f[4..], 4) == 4 by { assert f[4..][1..] == f[5..]; }
    assert StructAlign(f[3..], 4) == 4 by { assert f[3..][1..] == f[4..]; }
    assert StructAlign(f[2..], 4) == 4 by { assert f[2..][1..] == f[3..]; }
    assert StructAlign(f[1..], 4) == 4 by { assert f[1..][1..] == f[2..]; }
  }

  lemma OffsetsOfFixed()
    ensures Offsets(TssFieldsFixed(), 4, 0) == [0, 4, 28, 36, 92, 100, 102]
  {
    var f := TssFieldsFixed();
    OffsetsOfFixedHead();
    assert f[1..][1..] == f[2..];
  }

  lemma OffsetsOfFixedHead()
    ensures Offsets(TssFieldsFixed()[1..], 4, 4) == [4, 28, 36, 92, 100, 102]
  {
    var f := TssFieldsFixed();
    OffsetsOfFixedTail();
    assert Offsets(f[2..], 4, 28) == [28, 36, 92, 100, 102] by { assert f[2..][1..] == f[3..]; }
  }

  lemma OffsetsOfFixedTail()
    ensures Offsets(TssFieldsFixed()[3..], 4, 36) == [36, 92, 100, 102]
  {
    var f := TssFieldsFixed();
    assert Offsets(f[6..], 4, 102) == [102] by { assert f[6..][1..] == []; }
    assert Offsets(f[5..], 4, 100) == [100, 102] by { assert f[5..][1..] == f[6..]; }
    assert Offsets(f[4..], 4, 92) == [92, 100, 102] by { assert f[4..][1..] == f[5..]; }
    assert Offsets(f[3..], 4, 36) == [36, 92, 100, 102] by { assert f[3..][1..] == f[4..]; }
  }

  /** `TaskStateSegment::default`: every stack pointer and reserved field
      0, and `iomap_base` the struct's own size. */
  function TssDefault(): (t: TaskStateSegment)
    ensures |t.privilegeStackTable| == 3 && |t.interruptStackTable| == 7
    ensures forall i :: 0 <= i < 3 ==> t.privilegeStackTable[i] == 0
    ensures forall i :: 0 <= i < 7 ==> t.interruptStackTable[i] == 0
    ensures t.reserved1 == 0 && t.reserved2 == 0 && t.reserved3 == 0 && t.reserved4 == 0
    ensures t.ioMapBase == TssSize() == 112
  {
    TssLayout();
    TaskStateSegment(0, [0, 0, 0], 0, [0, 0, 0, 0, 0, 0, 0], 0, 0, TssSize())
  }
}
