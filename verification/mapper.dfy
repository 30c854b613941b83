/** The four-level page-table walk: mapping a 4 KiB page to a frame and
    translating a virtual address.

    The level-4 table is held directly; every other table lives in a
    physical frame, and memory is a total function from a frame's start
    address to the table stored there (the pointer conversion of the kernel
    followed by a dereference). The frame allocator hands out the frames of
    a list in order and reports exhaustion when the list is empty. */
module Mapper {
  import opened Common
  import opened IntBits
  import opened TableIndex
  import opened Addr
  import opened Paging
  import opened Frames
  import opened PageTable

  type Store = PhysAddr -> Table

  datatype MapperState = MapperState(level4: Table, store: Store, free: seq<PhysFrame>)

  /** Where a table is: the level-4 table or the table in a frame. */
  datatype TableLoc = Level4 | AtFrame(start: PhysAddr)

  function TableAt(s: MapperState, loc: TableLoc): Table {
    match loc
    case Level4 => s.level4
    case AtFrame(a) => s.store(a)
  }

  /** Replacing one table leaves every other table and the allocator as
      they were. */
  function WithTable(s: MapperState, loc: TableLoc, t: Table): (s': MapperState)
    ensures TableAt(s', loc) == t
    ensures forall l :: l != loc ==> TableAt(s', l) == TableAt(s, l)
    ensures s'.free == s.free
  {
    match loc
    case Level4 => s.(level4 := t)
    case AtFrame(a) =>
      var old_store := s.store;
      s.(store := (x: PhysAddr) => if x == a then t else old_store(x))
  }

  function SetEntry(s: MapperState, loc: TableLoc, i: int, e: PageTableEntry): (s': MapperState)
    requires 0 <= i < 512
    ensures TableAt(s', loc) == TableAt(s, loc)[i := e]
    ensures forall l :: l != loc ==> TableAt(s', l) == TableAt(s, l)
    ensures s'.free == s.free
  {
    WithTable(s, loc, TableAt(s, loc)[i := e])
  }

  // ----- PageTableWalker -----

  /** `PageTableWalkError`. */
  datatype WalkError = WalkMappedToHugePage | WalkNotMapped

  /** `next_table`: the table in the frame of a present, non-huge entry;
      `FrameNotPresent` becomes `NotMapped` and `HugeFrame` becomes
      `MappedToHugePage`. */
  function NextTable(e: PageTableEntry): (r: Result<TableLoc, WalkError>)
    ensures r.Ok? <==> Contains(e.flags, PRESENT) && !Contains(e.flags, HUGE_PAGE)
    ensures r.Ok? ==> r.value == AtFrame(e.addr)
    ensures r == Err(WalkMappedToHugePage) <==> Contains(e.flags, PRESENT) && Contains(e.flags, HUGE_PAGE)
  {
    match EntryFrame(e)
    case Err(HugeFrame) => Err(WalkMappedToHugePage)
    case Err(FrameNotPresent) => Err(WalkNotMapped)
    case Ok(f) => Ok(AtFrame(f.start))
  }

  datatype CreateError = CreateFrameAllocationFailed | CreateMappedToHugePage

  /** `create_next_table` on entry `i` of the table at `loc`. An unused
      entry gets the next free frame with `insert` as its flags, and the new
      table is zeroed once it is known to be reachable. A used entry gets
      `insert` added to its flags. An entry that is still not present
      afterwards panics. Changes made before an error are kept. */
  function CreateNextTable(s: MapperState, loc: TableLoc, i: int, insert: Flags)
    : (r: Outcome<(MapperState, Result<TableLoc, CreateError>)>)
    requires 0 <= i < 512
    ensures r.Value? && r.value.1.Ok? ==>
              var s', l := r.value.0, r.value.1.value;
              l.AtFrame?
              && (l != loc ==> NextTable(TableAt(s', loc)[i]) == Ok(l))
              && (forall x :: x != loc && x != l ==> TableAt(s', x) == TableAt(s, x))
  {
    var e := TableAt(s, loc)[i];
    if IsUnused(e) then
      if |s.free| == 0 then Value((s, Err(CreateFrameAllocationFailed)))
      else
        var f := s.free[0];
        var e' := SetFrame(e, f, insert);
        var s1 := SetEntry(s.(free := s.free[1..]), loc, i, e');
        match NextTable(e')
        case Err(WalkMappedToHugePage) => Value((s1, Err(CreateMappedToHugePage)))
        case Err(WalkNotMapped) => Panic("entry should be mapped at this point")
        case Ok(l) => Value((WithTable(s1, l, EmptyTable()), Ok(l)))
    else
      var e' := Widen(e, insert);
      var s1 := SetEntry(s, loc, i, e');
      match NextTable(e')
      case Err(WalkMappedToHugePage) => Value((s1, Err(CreateMappedToHugePage)))
      case Err(WalkNotMapped) => Panic("entry should be mapped at this point")
      case Ok(l) => Value((s1, Ok(l)))
  }

  /** The used-entry branch of `create_next_table`: `set_flags(flags |
      insert)` unless `insert` is empty or already contained. Either way the
      entry ends up with the union of the flags. */
  function Widen(e: PageTableEntry, insert: Flags): (e': PageTableEntry)
    ensures e' == SetFlags(e, e.flags | insert)
  {
    if insert != 0 && !Contains(e.flags, insert) then SetFlags(e, e.flags | insert)
    else
      MergeFlags(e.flags, insert);
      e
  }

  /** Adding flags that are already there changes nothing. */
  lemma MergeFlags(f: bv64, insert: bv64)
    requires insert == 0 || Contains(f, insert)
    ensures f | insert == f
  {}

  // ----- Mapper -----

  /** `MapperFlush`: the page whose TLB entry must be invalidated. */
  datatype MapperFlush = MapperFlush(page: Page)

  /** `MapperFlush::flush`: `invlpg` of the page's start address. */
  function Flush(m: MapperFlush): (invalidated: VirtAddr)
    ensures invalidated % SizeBytes(m.page.size) == 0
    ensures PageContaining(m.page.size, invalidated) == m.page
  {
    m.page.start
  }

  datatype MapToError = FrameAllocationFailed | ParentEntryHugePage | PageAlreadyMapped(frame: PhysFrame)

  function FromCreateError(e: CreateError): MapToError {
    match e
    case CreateFrameAllocationFailed => FrameAllocationFailed
    case CreateMappedToHugePage => ParentEntryHugePage
  }

  /** What `map_to_4kib` leaves behind: the memory, the result, the
      level-3, level-2 and level-1 tables it obtained along the way, and the
      memory as it was once the last of those steps had run (before the
      level-1 entry is looked at). */
  datatype MapResult = MapResult(state: MapperState, result: Result<MapperFlush, MapToError>,
                                 tables: seq<TableLoc>, walked: MapperState)

  /** `map_to_4kib`: create or widen the level-4, level-3 and level-2
      entries on the page's path, then write `frame | flags` into the
      unused level-1 entry. */
  function MapTo4KiB(s: MapperState, page: Page, frame: PhysFrame, flags: Flags, parent: Flags): (r: Outcome<MapResult>)
    requires page.size == Size4KiB && frame.size == Size4KiB
    ensures r.Value? && r.value.result.Ok? ==>
              r.value.result.value == MapperFlush(page)
              && |r.value.tables| == 3
              && TableAt(r.value.state, r.value.tables[2])[P1Index(page.start)] == SetFrame(UNUSED, frame, flags)
    ensures r.Value? && r.value.result.Err? && r.value.result.error.PageAlreadyMapped? ==>
              r.value.result.error.frame == frame
    ensures r.Value? ==>
              (|r.value.tables| == 3 <==> r.value.result.Ok? || r.value.result.error.PageAlreadyMapped?)
    ensures r.Value? && |r.value.tables| == 3 ==>
              (r.value.result == Err(PageAlreadyMapped(frame)) <==>
                 !IsUnused(TableAt(r.value.walked, r.value.tables[2])[P1Index(page.start)]))
    ensures r.Value? && r.value.result.Err? ==> r.value.state == r.value.walked
  {
    var a := page.start;
    match CreateNextTable(s, Level4, P4Index(a), parent)
    case Panic(m) => Panic(m)
    case Value((s3, Err(e))) => Value(MapResult(s3, Err(FromCreateError(e)), [], s3))
    case Value((s3, Ok(l3))) =>
      match CreateNextTable(s3, l3, P3Index(a), parent)
      case Panic(m) => Panic(m)
      case Value((s2, Err(e))) => Value(MapResult(s2, Err(FromCreateError(e)), [l3], s2))
      case Value((s2, Ok(l2))) =>
        match CreateNextTable(s2, l2, P2Index(a), parent)
        case Panic(m) => Panic(m)
        case Value((s1, Err(e))) => Value(MapResult(s1, Err(FromCreateError(e)), [l3, l2], s1))
        case Value((s1, Ok(l1))) =>
          var leaf := TableAt(s1, l1)[P1Index(a)];
          if !IsUnused(leaf) then
            Value(MapResult(s1, Err(PageAlreadyMapped(frame)), [l3, l2, l1], s1))
          else
            Value(MapResult(SetEntry(s1, l1, P1Index(a), SetFrame(leaf, frame, flags)),
                            Ok(MapperFlush(page)), [l3, l2, l1], s1))
  }

  /** The flags `map_to` gives the intermediate entries. */
  function ParentFlags(flags: Flags): (parent: Flags)
    ensures parent & !(PRESENT | WRITABLE | USER_ACCESSIBLE) == 0
    ensures Contains(parent, PRESENT) <==> Contains(flags, PRESENT)
    ensures Contains(parent, WRITABLE) <==> Contains(flags, WRITABLE)
    ensures Contains(parent, USER_ACCESSIBLE) <==> Contains(flags, USER_ACCESSIBLE)
  {
    flags & (PRESENT | WRITABLE | USER_ACCESSIBLE)
  }

  /** `Mapper::map_to`: `map_to_with_table_flags` with the parent flags
      above, which for this mapper is `map_to_4kib`. */
  function MapTo(s: MapperState, page: Page, frame: PhysFrame, flags: Flags): (r: Outcome<MapResult>)
    requires page.size == Size4KiB && frame.size == Size4KiB
    ensures r.Value? && r.value.result.Ok? ==>
              r.value.result.value == MapperFlush(page) && |r.value.tables| == 3
              && TableAt(r.value.state, r.value.tables[2])[P1Index(page.start)] == SetFrame(UNUSED, frame, flags)
    ensures r.Value? && r.value.result.Err? ==>
              r.value.state == r.value.walked
              && (r.value.result.error.PageAlreadyMapped? ==> r.value.result.error == PageAlreadyMapped(frame))
  {
    MapTo4KiB(s, page, frame, flags, ParentFlags(flags))
  }

  // ----- Translate -----

  datatype MappedFrame = Mapped4KiB(frame: PhysFrame) | Mapped2MiB(frame: PhysFrame) | Mapped1GiB(frame: PhysFrame)

  function MappedSize(m: MappedFrame): PageSize {
    match m
    case Mapped4KiB(_) => Size4KiB
    case Mapped2MiB(_) => Size2MiB
    case Mapped1GiB(_) => Size1GiB
  }

  /** The variant agrees with the size of the wrapped frame. */
  predicate WellSized(m: MappedFrame) {
    m.frame.size == MappedSize(m)
  }

  /** `MappedFrame::start_address`: the wrapped frame's start, whatever
      the variant, so a boundary of the variant's size. */
  function MappedStart(m: MappedFrame): (a: PhysAddr)
    ensures a == m.frame.start
    ensures WellSized(m) ==> a % SizeBytes(MappedSize(m)) == 0
  {
    match m
    case Mapped4KiB(f) => FrameStart(f)
    case Mapped2MiB(f) => FrameStart(f)
    case Mapped1GiB(f) => FrameStart(f)
  }

  datatype TranslateResult =
    | Mapped(frame: MappedFrame, offset: U64, flags: bv64)
    | NotMapped
    | InvalidFrameAddress(addr: PhysAddr)

  /** The mapping of a huge level-3 (1 GiB) or level-2 (2 MiB) entry: the
      frame containing the entry's address, and the address bits below the
      frame size (`addr & 0o777_777_7777` and `addr & 0o777_7777`). */
  function HugeMapping(size: PageSize, e: PageTableEntry, addr: VirtAddr): (r: TranslateResult)
    requires size != Size4KiB
    ensures r.Mapped? && WellSized(r.frame) && MappedSize(r.frame) == size
    ensures r.offset == addr % SizeBytes(size) && r.flags == e.flags
    ensures r.frame.frame.start <= e.addr < r.frame.frame.start + SizeBytes(size)
  {
    if size == Size1GiB then
      HugeOffsetMask(addr, 30, 0x4000_0000);
      Mapped(Mapped1GiB(FrameContaining(Size1GiB, EntryAddr(e))), And(addr, 0x3FFF_FFFF), e.flags)
    else
      HugeOffsetMask(addr, 21, 0x20_0000);
      Mapped(Mapped2MiB(FrameContaining(Size2MiB, EntryAddr(e))), And(addr, 0x1F_FFFF), e.flags)
  }

  lemma HugeOffsetMask(addr: nat, n: nat, p: nat)
    requires n == 21 || n == 30
    requires p == (if n == 21 then 0x20_0000 else 0x4000_0000)
    ensures And(addr, p - 1) == addr % p
  {
    Pow2Constants();
    AndLowMask(addr, n, p);
  }

  /** The level-1 step of `translate`: a zero word is not mapped; any other
      word maps the 4 KiB frame at its address, with the low 12 bits of the
      virtual address as offset. Its address is always 4 KiB-aligned, so
      `InvalidFrameAddress` does not arise. */
  function LeafMapping(e: PageTableEntry, addr: VirtAddr): (r: TranslateResult)
    ensures IsUnused(e) <==> r.NotMapped?
    ensures !r.InvalidFrameAddress?
    ensures r.Mapped? ==> r.frame == Mapped4KiB(PhysFrame(Size4KiB, e.addr))
                          && r.offset == addr % 4096 && r.flags == e.flags
  {
    if IsUnused(e) then NotMapped
    else
      match FrameFromStart(Size4KiB, EntryAddr(e))
      case Err(_) => InvalidFrameAddress(EntryAddr(e))
      case Ok(f) => Mapped(Mapped4KiB(f), PageOffsetOf(addr), e.flags)
  }

  /** `translate`: walk the four levels for `addr`. A huge level-3 or
      level-2 entry maps a 1 GiB or 2 MiB frame; a huge level-4 entry
      panics; the level-1 entry counts as mapped whenever its word is not
      zero, present or not. */
  function Translate(s: MapperState, addr: VirtAddr): (r: Outcome<TranslateResult>)
    ensures r.Value? && r.value.Mapped? ==>
              WellSized(r.value.frame)
              && r.value.offset == addr % SizeBytes(MappedSize(r.value.frame))
    ensures r.Value? ==> !r.value.InvalidFrameAddress?
  {
    match NextTable(s.level4[P4Index(addr)])
    case Err(WalkNotMapped) => Value(NotMapped)
    case Err(WalkMappedToHugePage) => Panic("level 4 entry has huge page bit set")
    case Ok(l3) =>
      var e3 := TableAt(s, l3)[P3Index(addr)];
      match NextTable(e3)
      case Err(WalkNotMapped) => Value(NotMapped)
      case Err(WalkMappedToHugePage) => Value(HugeMapping(Size1GiB, e3, addr))
      case Ok(l2) =>
        var e2 := TableAt(s, l2)[P2Index(addr)];
        match NextTable(e2)
        case Err(WalkNotMapped) => Value(NotMapped)
        case Err(WalkMappedToHugePage) => Value(HugeMapping(Size2MiB, e2, addr))
        case Ok(l1) => Value(LeafMapping(TableAt(s, l1)[P1Index(addr)], addr))
  }

  /** The physical address `translate_addr` makes of one `translate`
      result: the frame start plus the offset for a mapped address,
      through `PhysAddr::new`, which panics at 2^52 or above. */
  function ResolveAddr(t: TranslateResult): (r: Outcome<Option<PhysAddr>>)
    ensures !t.Mapped? ==> r == Value(None)
    ensures t.Mapped? ==>
              (r.Value? <==> MappedStart(t.frame) + t.offset < PHYS_LIMIT)
              && (r.Value? ==> r.value == Some(MappedStart(t.frame) + t.offset))
  {
    match t
    case NotMapped => Value(None)
    case InvalidFrameAddress(_) => Value(None)
    case Mapped(frame, offset, _) =>
      match PhysAdd(MappedStart(frame), offset)
      case Panic(m) => Panic(m)
      case Value(p) => Value(Some(p))
  }

  /** `translate_addr`: a panic of `translate` propagates; otherwise the
      result is resolved to a physical address. */
  function TranslateAddr(s: MapperState, addr: VirtAddr): (r: Outcome<Option<PhysAddr>>)
    ensures Translate(s, addr).Panic? ==> r.Panic?
    ensures Translate(s, addr).Value? ==> r == ResolveAddr(Translate(s, addr).value)
  {
    match Translate(s, addr)
    case Panic(m) => Panic(m)
    case Value(t) => ResolveAddr(t)
  }


  // ----- properties -----

  /** `create_next_table` on an unused entry with no frame left reports
      the failure and changes nothing. */
  lemma CreateWithoutFrame(s: MapperState, loc: TableLoc, i: int, insert: Flags)
    requires 0 <= i < 512 && IsUnused(TableAt(s, loc)[i]) && |s.free| == 0
    ensures var r := CreateNextTable(s, loc, i, insert);
            r.Value? && r.value.1 == Err(CreateFrameAllocationFailed)
            && r.value.0.free == s.free
            && forall l :: TableAt(r.value.0, l) == TableAt(s, l)
  {}

  /** `create_next_table` on an unused entry takes the next free frame and
      stores it with `insert` as flags. Without PRESENT the code panics;
      with HUGE_PAGE the entry stays written but the new table is neither
      returned nor zeroed; otherwise the new table is zeroed and returned. */
  lemma CreateOnUnused(s: MapperState, loc: TableLoc, i: int, insert: Flags)
    requires 0 <= i < 512 && IsUnused(TableAt(s, loc)[i]) && |s.free| > 0
    ensures var r, f := CreateNextTable(s, loc, i, insert), s.free[0];
            (r.Panic? <==> !Contains(insert, PRESENT))
            && (r.Value? ==>
                  r.value.0.free == s.free[1..]
                  && (Contains(insert, HUGE_PAGE) ==>
                        r.value.1 == Err(CreateMappedToHugePage)
                        && TableAt(r.value.0, loc) == TableAt(s, loc)[i := SetFrame(UNUSED, f, insert)]
                        && forall l :: l != loc ==> TableAt(r.value.0, l) == TableAt(s, l))
                  && (!Contains(insert, HUGE_PAGE) ==>
                        r.value.1 == Ok(AtFrame(f.start))
                        && TableAt(r.value.0, AtFrame(f.start)) == EmptyTable()
                        && (loc != AtFrame(f.start) ==>
                              TableAt(r.value.0, loc) == TableAt(s, loc)[i := SetFrame(UNUSED, f, insert)])))
  {}

  /** `create_next_table` on a used entry allocates nothing and zeroes
      nothing: it keeps the address and widens the flags by `insert`. */
  lemma CreateOnUsed(s: MapperState, loc: TableLoc, i: int, insert: Flags)
    requires 0 <= i < 512 && !IsUnused(TableAt(s, loc)[i])
    requires CreateNextTable(s, loc, i, insert).Value?
    ensures var s', e := CreateNextTable(s, loc, i, insert).value.0, TableAt(s, loc)[i];
            var e' := TableAt(s', loc)[i];
            s'.free == s.free
            && e'.addr == e.addr && e'.flags == e.flags | insert
            && TableAt(s', loc) == TableAt(s, loc)[i := e']
            && (forall l :: l != loc ==> TableAt(s', l) == TableAt(s, l))
  {}

  /** On a used entry, `create_next_table` panics if the widened flags
      lack PRESENT, reports a huge page if they have HUGE_PAGE, and
      otherwise returns the table at the entry's address. */
  lemma CreateOnUsedOutcome(s: MapperState, loc: TableLoc, i: int, insert: Flags)
    requires 0 <= i < 512 && !IsUnused(TableAt(s, loc)[i])
    ensures var r, f := CreateNextTable(s, loc, i, insert), TableAt(s, loc)[i].flags | insert;
            (r.Panic? <==> !Contains(f, PRESENT))
            && (r.Value? ==> (r.value.1.Ok? <==> !Contains(f, HUGE_PAGE)))
            && (r.Value? && r.value.1.Ok? ==> r.value.1.value == AtFrame(TableAt(s, loc)[i].addr))
  {}

  /** When the level-1 entry is already in use, `map_to_4kib` reports the
      frame it was asked to map, not the one already there, and leaves the
      entry as it was before the call: with three distinct tables on the
      path, a level-1 table that was just allocated is zeroed, so an entry
      in use can only be in a table that was there already. */
  lemma AlreadyMappedKeepsLeaf(s: MapperState, page: Page, frame: PhysFrame, flags: Flags, parent: Flags)
    requires page.size == Size4KiB && frame.size == Size4KiB
    requires var r := MapTo4KiB(s, page, frame, flags, parent);
             r.Value? && r.value.result.Err? && r.value.result.error.PageAlreadyMapped?
             && r.value.tables[0] != r.value.tables[1]
             && r.value.tables[1] != r.value.tables[2]
             && r.value.tables[0] != r.value.tables[2]
    ensures var r := MapTo4KiB(s, page, frame, flags, parent).value;
            r.result == Err(PageAlreadyMapped(frame))
            && r.state == r.walked
            && !IsUnused(TableAt(r.state, r.tables[2])[P1Index(page.start)])
            && TableAt(r.state, r.tables[2])[P1Index(page.start)] == TableAt(s, r.tables[2])[P1Index(page.start)]
  {
    var a := page.start;
    var c1 := CreateNextTable(s, Level4, P4Index(a), parent);
    var (s3, l3) := (c1.value.0, c1.value.1.value);
    var c2 := CreateNextTable(s3, l3, P3Index(a), parent);
    var (s2, l2) := (c2.value.0, c2.value.1.value);
    var c3 := CreateNextTable(s2, l2, P2Index(a), parent);
    var (s1, l1) := (c3.value.0, c3.value.1.value);
    assert MapTo4KiB(s, page, frame, flags, parent).value.tables == [l3, l2, l1];
    assert !IsUnused(TableAt(s1, l1)[P1Index(a)]);
    if IsUnused(TableAt(s2, l2)[P2Index(a)]) {
      CreateOnUnused(s2, l2, P2Index(a), parent);
      assert false;
    }
    CreateOnUsed(s2, l2, P2Index(a), parent);
    assert TableAt(s1, l1) == TableAt(s2, l1) == TableAt(s3, l1) == TableAt(s, l1);
  }

  /** With an entry that already leads to a table and flags to add that
      do not include HUGE_PAGE, `create_next_table` only widens the entry:
      it still leads to the same table, and no other table changes. */
  lemma CreateOnPresent(s: MapperState, loc: TableLoc, i: int, insert: Flags)
    requires 0 <= i < 512 && NextTable(TableAt(s, loc)[i]).Ok?
    requires !Contains(insert, HUGE_PAGE)
    ensures var r := CreateNextTable(s, loc, i, insert);
            r.Value? && r.value.1 == Ok(NextTable(TableAt(s, loc)[i]).value)
            && NextTable(TableAt(r.value.0, loc)[i]) == NextTable(TableAt(s, loc)[i])
            && (forall x :: x != loc ==> TableAt(r.value.0, x) == TableAt(s, x))
  {
    var e := TableAt(s, loc)[i];
    assert e.flags != 0;
    CreateOnUsed(s, loc, i, insert);
    WidenKeepsKind(e.flags, insert);
  }

  lemma WidenKeepsKind(f: bv64, insert: bv64)
    requires Contains(f, PRESENT) && !Contains(f, HUGE_PAGE) && !Contains(insert, HUGE_PAGE)
    ensures Contains(f | insert, PRESENT) && !Contains(f | insert, HUGE_PAGE)
  {}

  /** Mapping a page a second time, to any frame, reports
      `PageAlreadyMapped` with the new frame and leaves the first mapping
      in place, provided the first mapping wrote a word other than 0
      (`map_to_4kib` only tests the leaf for being unused, so a first
      mapping of frame 0 with no flags leaves the page free to map again)
      and went through three distinct tables. */
  lemma MapTwice(s: MapperState, page: Page, frame: PhysFrame, frame2: PhysFrame, flags: Flags, flags2: Flags)
    requires page.size == Size4KiB && frame.size == Size4KiB && frame2.size == Size4KiB
    requires !IsUnused(SetFrame(UNUSED, frame, flags))
    requires var r := MapTo(s, page, frame, flags);
             r.Value? && r.value.result.Ok?
             && r.value.tables[0] != r.value.tables[1]
             && r.value.tables[1] != r.value.tables[2]
             && r.value.tables[0] != r.value.tables[2]
    ensures var s' := MapTo(s, page, frame, flags).value.state;
            var r2 := MapTo(s', page, frame2, flags2);
            r2.Value? && r2.value.result == Err(PageAlreadyMapped(frame2))
            && Translate(r2.value.state, page.start) == Value(Mapped(Mapped4KiB(frame), 0, flags))
  {
    var r := MapTo(s, page, frame, flags).value;
    var a := page.start;
    MapOkWalk(s, page, frame, flags, ParentFlags(flags));
    var (l3, l2, l1) := (r.tables[0], r.tables[1], r.tables[2]);
    var leaf := SetFrame(UNUSED, frame, flags);
    assert TableAt(r.state, l1)[P1Index(a)] == leaf;
    ParentFlagsNotHuge(flags2);
    RemapKeepsWalk(r.state, page, frame2, flags2, ParentFlags(flags2), l3, l2, l1);
    var r2 := MapTo(r.state, page, frame2, flags2).value;
    TranslateWalk(r2.state, a, l3, l2, l1);
    assert a % 4096 == 0;
  }

  /** The other side of `MapTwice`: a successful first mapping that wrote
      the word 0 (frame 0, no flags) leaves the level-1 entry unused, so
      mapping the same page again succeeds instead of reporting
      `PageAlreadyMapped`. */
  lemma MapTwiceZeroLeaf(s: MapperState, page: Page, frame: PhysFrame, frame2: PhysFrame, flags: Flags, flags2: Flags)
    requires page.size == Size4KiB && frame.size == Size4KiB && frame2.size == Size4KiB
    requires IsUnused(SetFrame(UNUSED, frame, flags))
    requires var r := MapTo(s, page, frame, flags);
             r.Value? && r.value.result.Ok?
             && r.value.tables[0] != r.value.tables[1]
             && r.value.tables[1] != r.value.tables[2]
             && r.value.tables[0] != r.value.tables[2]
    ensures var s' := MapTo(s, page, frame, flags).value.state;
            var r2 := MapTo(s', page, frame2, flags2);
            r2.Value? && r2.value.result == Ok(MapperFlush(page))
  {
    var r := MapTo(s, page, frame, flags).value;
    var a := page.start;
    MapOkWalk(s, page, frame, flags, ParentFlags(flags));
    var (l3, l2, l1) := (r.tables[0], r.tables[1], r.tables[2]);
    var parent := ParentFlags(flags2);
    ParentFlagsNotHuge(flags2);
    CreateOnPresent(r.state, Level4, P4Index(a), parent);
    var s3 := CreateNextTable(r.state, Level4, P4Index(a), parent).value.0;
    CreateOnPresent(s3, l3, P3Index(a), parent);
    var s2 := CreateNextTable(s3, l3, P3Index(a), parent).value.0;
    CreateOnPresent(s2, l2, P2Index(a), parent);
    var s1 := CreateNextTable(s2, l2, P2Index(a), parent).value.0;
    assert TableAt(s1, l1) == TableAt(r.state, l1);
    assert IsUnused(TableAt(s1, l1)[P1Index(a)]);
  }

  lemma ParentFlagsNotHuge(flags: Flags)
    ensures !Contains(ParentFlags(flags), HUGE_PAGE)
  {}

  /** Mapping again a page whose walk already reaches a used level-1 entry
      through three distinct tables only widens the upper entries: the walk
      still goes through the same tables, the level-1 entry is untouched,
      and the result is `PageAlreadyMapped`. */
  lemma RemapKeepsWalk(s: MapperState, page: Page, frame: PhysFrame, flags: Flags, parent: Flags,
                       l3: TableLoc, l2: TableLoc, l1: TableLoc)
    requires page.size == Size4KiB && frame.size == Size4KiB
    requires !Contains(parent, HUGE_PAGE)
    requires NextTable(s.level4[P4Index(page.start)]) == Ok(l3)
    requires NextTable(TableAt(s, l3)[P3Index(page.start)]) == Ok(l2)
    requires NextTable(TableAt(s, l2)[P2Index(page.start)]) == Ok(l1)
    requires l3 != l2 && l2 != l1 && l3 != l1
    requires !IsUnused(TableAt(s, l1)[P1Index(page.start)])
    ensures var r := MapTo4KiB(s, page, frame, flags, parent);
            r.Value? && r.value.result == Err(PageAlreadyMapped(frame))
            && NextTable(r.value.state.level4[P4Index(page.start)]) == Ok(l3)
            && NextTable(TableAt(r.value.state, l3)[P3Index(page.start)]) == Ok(l2)
            && NextTable(TableAt(r.value.state, l2)[P2Index(page.start)]) == Ok(l1)
            && TableAt(r.value.state, l1)[P1Index(page.start)] == TableAt(s, l1)[P1Index(page.start)]
  {
    var a := page.start;
    CreateOnPresent(s, Level4, P4Index(a), parent);
    var s3 := CreateNextTable(s, Level4, P4Index(a), parent).value.0;
    CreateOnPresent(s3, l3, P3Index(a), parent);
    var s2 := CreateNextTable(s3, l3, P3Index(a), parent).value.0;
    CreateOnPresent(s2, l2, P2Index(a), parent);
    var s1 := CreateNextTable(s2, l2, P2Index(a), parent).value.0;
    assert TableAt(s1, l1) == TableAt(s, l1);
    assert NextTable(TableAt(s1, l3)[P3Index(a)]) == Ok(l2);
    assert NextTable(s1.level4[P4Index(a)]) == Ok(l3);
  }

  /** After a successful `map_to_4kib` whose three tables are distinct,
      the walk for the page's start leads through those tables. */
  lemma MapOkWalk(s: MapperState, page: Page, frame: PhysFrame, flags: Flags, parent: Flags)
    requires page.size == Size4KiB && frame.size == Size4KiB
    requires var r := MapTo4KiB(s, page, frame, flags, parent);
             r.Value? && r.value.result.Ok?
             && r.value.tables[0] != r.value.tables[1]
             && r.value.tables[1] != r.value.tables[2]
             && r.value.tables[0] != r.value.tables[2]
    ensures var r, a := MapTo4KiB(s, page, frame, flags, parent).value, page.start;
            NextTable(r.state.level4[P4Index(a)]) == Ok(r.tables[0])
            && NextTable(TableAt(r.state, r.tables[0])[P3Index(a)]) == Ok(r.tables[1])
            && NextTable(TableAt(r.state, r.tables[1])[P2Index(a)]) == Ok(r.tables[2])
  {
    var a := page.start;
    var c1 := CreateNextTable(s, Level4, P4Index(a), parent);
    assert c1.Value? && c1.value.1.Ok?;
    var (s3, l3) := (c1.value.0, c1.value.1.value);
    var c2 := CreateNextTable(s3, l3, P3Index(a), parent);
    assert c2.Value? && c2.value.1.Ok?;
    var (s2, l2) := (c2.value.0, c2.value.1.value);
    var c3 := CreateNextTable(s2, l2, P2Index(a), parent);
    assert c3.Value? && c3.value.1.Ok?;
    var (s1, l1) := (c3.value.0, c3.value.1.value);
    var leaf := TableAt(s1, l1)[P1Index(a)];
    var sF := SetEntry(s1, l1, P1Index(a), SetFrame(leaf, frame, flags));
    assert MapTo4KiB(s, page, frame, flags, parent).value.state == sF;
    assert MapTo4KiB(s, page, frame, flags, parent).value.tables == [l3, l2, l1];
    assert TableAt(sF, Level4) == TableAt(s3, Level4);
    assert TableAt(sF, l3) == TableAt(s2, l3);
    assert TableAt(sF, l2) == TableAt(s1, l2);
  }

  /** After a successful `map_to_4kib`, translating the page's start gives
      the frame, offset 0 and the requested flags, provided the flags
      include PRESENT and the three tables on the path are distinct frames
      (the allocator's frames are fresh). */
  lemma MapThenTranslate(s: MapperState, page: Page, frame: PhysFrame, flags: Flags, parent: Flags)
    requires page.size == Size4KiB && frame.size == Size4KiB
    requires Contains(flags, PRESENT)
    requires var r := MapTo4KiB(s, page, frame, flags, parent);
             r.Value? && r.value.result.Ok?
             && r.value.tables[0] != r.value.tables[1]
             && r.value.tables[1] != r.value.tables[2]
             && r.value.tables[0] != r.value.tables[2]
    ensures Translate(MapTo4KiB(s, page, frame, flags, parent).value.state, page.start)
            == Value(Mapped(Mapped4KiB(frame), 0, flags))
  {
    var r := MapTo4KiB(s, page, frame, flags, parent).value;
    MapOkWalk(s, page, frame, flags, parent);
    TranslateWalk(r.state, page.start, r.tables[0], r.tables[1], r.tables[2]);
    assert page.start % 4096 == 0;
  }

  /** A walk whose level-4, level-3 and level-2 entries all lead to
      further tables ends in the level-1 entry. */
  lemma TranslateWalk(s: MapperState, addr: VirtAddr, l3: TableLoc, l2: TableLoc, l1: TableLoc)
    requires NextTable(s.level4[P4Index(addr)]) == Ok(l3)
    requires NextTable(TableAt(s, l3)[P3Index(addr)]) == Ok(l2)
    requires NextTable(TableAt(s, l2)[P2Index(addr)]) == Ok(l1)
    ensures Translate(s, addr) == Value(LeafMapping(TableAt(s, l1)[P1Index(addr)], addr))
  {}

  /** `map_to` gives the intermediate tables only PRESENT, WRITABLE and
      USER_ACCESSIBLE of the requested flags, and otherwise does what
      `map_to_4kib` does; so with PRESENT requested, a successful mapping
      translates back as above. */
  lemma MapToThenTranslate(s: MapperState, page: Page, frame: PhysFrame, flags: Flags)
    requires page.size == Size4KiB && frame.size == Size4KiB
    requires Contains(flags, PRESENT)
    requires var r := MapTo(s, page, frame, flags);
             r.Value? && r.value.result.Ok?
             && r.value.tables[0] != r.value.tables[1]
             && r.value.tables[1] != r.value.tables[2]
             && r.value.tables[0] != r.value.tables[2]
    ensures Translate(MapTo(s, page, frame, flags).value.state, page.start)
            == Value(Mapped(Mapped4KiB(frame), 0, flags))
  {
    MapThenTranslate(s, page, frame, flags, ParentFlags(flags));
  }

  /** `translate` never reports `InvalidFrameAddress`, so `translate_addr`
      gives `None` exactly for unmapped addresses. */
  lemma InvalidFrameAddressUnreachable(s: MapperState, addr: VirtAddr)
    ensures Translate(s, addr).Value? ==> !Translate(s, addr).value.InvalidFrameAddress?
    ensures TranslateAddr(s, addr) == Value(None) <==>
              Translate(s, addr) == Value(NotMapped)
  {}
}
