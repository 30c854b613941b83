/** Virtual pages of the three x86-64 page sizes, page arithmetic, and the
    inclusive page-range iterator. */
module Paging {
  import opened Common
  import opened IntBits
  import opened TableIndex
  import opened Addr

  datatype PageSize = Size4KiB | Size2MiB | Size1GiB

  /** `S::SIZE`: 4 KiB, 512 of those, and 512 of those. */
  function SizeBytes(s: PageSize): (n: int)
    ensures n == 0x1000 || n == 0x20_0000 || n == 0x4000_0000
  {
    match s
    case Size4KiB => 4096
    case Size2MiB => 4096 * 512
    case Size1GiB => 4096 * 512 * 512
  }

  datatype PageRecord = PageRecord(size: PageSize, start: VirtAddr)

  /** A `Page<S>`: its start address is always a multiple of its size,
      because the only constructor is `new_containing_address`. */
  type Page = p: PageRecord | p.start % SizeBytes(p.size) == 0
    witness PageRecord(Size4KiB, 0)

  lemma SizeIsPowerOfTwo(s: PageSize)
    ensures IsPowerOfTwo(SizeBytes(s))
  {
    Pow2Constants();
    match s
    case Size4KiB => Pow2IsPowerOfTwo(12);
    case Size2MiB => Pow2IsPowerOfTwo(21);
    case Size1GiB => Pow2IsPowerOfTwo(30);
  }

  /** Rounding a canonical address down to a page boundary stays in the
      same canonical half. */
  lemma AlignDownStaysCanonical(a: VirtAddr, s: PageSize)
    ensures Canonical(a - a % SizeBytes(s))
  {
    var k := SizeBytes(s);
    assert Canonical(a);
    if a >= UPPER_HALF {
      var m := UPPER_HALF / k;
      DivModUnique(UPPER_HALF, k, m, 0);
      var q := a / k;
      assert a == k * q + a % k;
      if q < m {
        MulAtLeast(k, m - q);
        Distribute(k, m, q);
        assert false;
      }
      Distribute(k, q, m);
      assert k * q >= UPPER_HALF;
    } else {
      var q := a / k;
      assert a == k * q + a % k;
      assert q >= 0;
      if q > 0 {
        MulAtLeast(k, q);
      }
      assert 0 <= k * q <= a;
    }
  }

  /** `Page::new_containing_address`: the page whose start is the address
      rounded down to the page size. */
  function PageContaining(size: PageSize, a: VirtAddr): (p: Page)
    ensures p.size == size
    ensures p.start <= a && a - p.start < SizeBytes(size)
    ensures p.start == a - a % SizeBytes(size)
  {
    SizeIsPowerOfTwo(size);
    AlignDownStaysCanonical(a, size);
    var d := VirtAlignDown(a, SizeBytes(size)).value;
    NextMultipleBelow(a, SizeBytes(size));
    PageRecord(size, d)
  }

  lemma NextMultipleBelow(a: int, k: int)
    requires k >= 1
    ensures (a - a % k) % k == 0
  {
    assert a - a % k == k * (a / k);
    DivModUnique(a - a % k, k, a / k, 0);
  }

  /** Adding a multiple of `k` to a multiple of `k`. */
  lemma MultipleAdd(a: int, n: int, k: int)
    requires k >= 1 && a % k == 0
    ensures (a + n * k) % k == 0 && (a - n * k) % k == 0
  {
    assert a == k * (a / k);
    assert a + n * k == k * (a / k + n);
    assert a - n * k == k * (a / k - n);
    DivModUnique(a + n * k, k, a / k + n, 0);
    DivModUnique(a - n * k, k, a / k - n, 0);
  }

  /** `Page + u64`: the page containing `start + rhs * SIZE`. The
      multiplication and the addition panic on u64 overflow, and the sum
      must be canonical. */
  function PageAdd(p: Page, rhs: U64): (r: Outcome<Page>)
    ensures r.Value? <==> rhs * SizeBytes(p.size) < TWO_64
                          && p.start + rhs * SizeBytes(p.size) < TWO_64
                          && Canonical(p.start + rhs * SizeBytes(p.size))
    ensures r.Value? ==> r.value.size == p.size && r.value.start == p.start + rhs * SizeBytes(p.size)
  {
    var k := SizeBytes(p.size);
    if rhs * k >= TWO_64 then Panic("attempt to multiply with overflow")
    else
      match VirtAdd(p.start, rhs * k)
      case Panic(msg) => Panic(msg)
      case Value(v) =>
        MultipleAdd(p.start, rhs, k);
        DivModUnique(v, k, v / k, 0);
        Value(PageContaining(p.size, v))
  }

  /** `Page - u64`: the page containing `start - rhs * SIZE`, with the same
      panics as the addition. */
  function PageSub(p: Page, rhs: U64): (r: Outcome<Page>)
    ensures r.Value? <==> rhs * SizeBytes(p.size) < TWO_64
                          && p.start - rhs * SizeBytes(p.size) >= 0
                          && Canonical(p.start - rhs * SizeBytes(p.size))
    ensures r.Value? ==> r.value.size == p.size && r.value.start == p.start - rhs * SizeBytes(p.size)
  {
    var k := SizeBytes(p.size);
    if rhs * k >= TWO_64 then Panic("attempt to multiply with overflow")
    else
      match VirtSub(p.start, rhs * k)
      case Panic(msg) => Panic(msg)
      case Value(v) =>
        MultipleAdd(p.start, rhs, k);
        DivModUnique(v, k, v / k, 0);
        Value(PageContaining(p.size, v))
  }

  /** Subtracting what was added gives the page back. */
  lemma AddThenSub(p: Page, n: U64)
    requires PageAdd(p, n).Value?
    ensures PageSub(PageAdd(p, n).value, n) == Value(p)
  {}

  /** Stepping from the last page of the lower half into the
      non-canonical hole panics. */
  lemma StepIntoHolePanics()
    ensures PageAdd(PageRecord(Size4KiB, TWO_47 - 0x1000), 1).Panic?
  {
    assert !Canonical(TWO_47);
  }

  /** A boundary of any page size is a 4 KiB boundary. */
  lemma AlignedIs4KiBAligned(size: PageSize, a: int)
    requires a % SizeBytes(size) == 0
    ensures a % 4096 == 0
  {
    var m := SizeBytes(size) / 4096;
    assert SizeBytes(size) == 4096 * m;
    var q := a / SizeBytes(size);
    assert a == SizeBytes(size) * q;
    Associate(4096, m, q);
    DivModUnique(a, 4096, m * q, 0);
  }

  /** Rounding down to a multiple of `k` does not change the quotient by
      a multiple `m` of `k`. */
  lemma FloorDivSame(a: nat, k: nat, m: nat, c: nat)
    requires k >= 1 && c >= 1 && m == k * c
    ensures (a - a % k) / m == a / m
  {
    var q, r := a / m, a % m;
    assert a == m * q + r;
    assert m * q == k * (c * q);
    DivModUnique(a, k, c * q + r / k, r % k);
    DivModUnique(a - a % k, m, q, r - r % k);
  }

  /** Rounding down to a multiple of `m * 512 * c` clears the 9-bit index
      at the level of `m`. */
  lemma ClearedIndex(a: nat, k: nat, m: nat, c: nat)
    requires m >= 1 && c >= 1 && k == m * 512 * c
    ensures ((a - a % k) / m) % 512 == 0
  {
    var q := a / k;
    assert a - a % k == k * q;
    assert k * q == m * (512 * (c * q));
    DivModUnique(a - a % k, m, 512 * (c * q), 0);
    DivModUnique(512 * (c * q), 512, c * q, 0);
  }

  /** Rounding down to a 4 KiB boundary keeps all four table indices. */
  lemma Containing4KiBKeepsIndices(a: VirtAddr)
    ensures var s := PageContaining(Size4KiB, a).start;
            P4Index(s) == P4Index(a) && P3Index(s) == P3Index(a)
            && P2Index(s) == P2Index(a) && P1Index(s) == P1Index(a)
            && PageOffsetOf(s) == 0
  {
    FloorDivSame(a, 0x1000, 0x1000, 1);
    FloorDivSame(a, 0x1000, 0x20_0000, 512);
    FloorDivSame(a, 0x1000, 0x4000_0000, 0x4_0000);
    FloorDivSame(a, 0x1000, 0x80_0000_0000, 0x800_0000);
  }

  /** Rounding down to a 2 MiB boundary keeps the upper three indices and
      clears the level-1 index. */
  lemma Containing2MiBKeepsIndices(a: VirtAddr)
    ensures var s := PageContaining(Size2MiB, a).start;
            P4Index(s) == P4Index(a) && P3Index(s) == P3Index(a)
            && P2Index(s) == P2Index(a) && P1Index(s) == 0 && PageOffsetOf(s) == 0
  {
    AlignedIs4KiBAligned(Size2MiB, PageContaining(Size2MiB, a).start);
    ClearedIndex(a, 0x20_0000, 0x1000, 1);
    FloorDivSame(a, 0x20_0000, 0x20_0000, 1);
    FloorDivSame(a, 0x20_0000, 0x4000_0000, 512);
    FloorDivSame(a, 0x20_0000, 0x80_0000_0000, 0x4_0000);
  }

  /** Rounding down to a 1 GiB boundary keeps the upper two indices and
      clears the lower two. */
  lemma Containing1GiBKeepsIndices(a: VirtAddr)
    ensures var s := PageContaining(Size1GiB, a).start;
            P4Index(s) == P4Index(a) && P3Index(s) == P3Index(a)
            && P2Index(s) == 0 && P1Index(s) == 0 && PageOffsetOf(s) == 0
  {
    AlignedIs4KiBAligned(Size1GiB, PageContaining(Size1GiB, a).start);
    ClearedIndex(a, 0x4000_0000, 0x20_0000, 1);
    ClearedIndex(a, 0x4000_0000, 0x1000, 512);
    FloorDivSame(a, 0x4000_0000, 0x4000_0000, 1);
    FloorDivSame(a, 0x4000_0000, 0x80_0000_0000, 512);
  }

  // ----- PageRangeInclusive -----

  /** `Page::range_inclusive(start, end)`; both pages have the same size. */
  datatype PageRangeInclusive = PageRangeInclusive(start: Page, end: Page)

  predicate SameSize(r: PageRangeInclusive) {
    r.start.size == r.end.size
  }

  /** `VirtAddr::new(u64::MAX) - (S::SIZE - 1)`: the start of the last page
      of the address space. */
  function MaxPageAddr(size: PageSize): (m: int)
    ensures m == TWO_64 - SizeBytes(size)
  {
    assert Canonical(TWO_64 - 1);
    VirtSub(VirtNew(TWO_64 - 1).value, SizeBytes(size) - 1).value
  }

  /** The start of the last page of the canonical half containing `a`. */
  function HalfMaxPageAddr(size: PageSize, a: VirtAddr): int {
    if a < TWO_47 then TWO_47 - SizeBytes(size) else TWO_64 - SizeBytes(size)
  }

  /** Number of pages still to be yielded. */
  function Remaining(r: PageRangeInclusive): nat
    requires SameSize(r)
  {
    if r.start.start > r.end.start then 0
    else (r.end.start - r.start.start) / SizeBytes(r.start.size) + 1
  }

  /** One call of `next` with the given bound: yield `start`, then advance
      `start` by one page while it is below `max`, otherwise pull `end`
      back by one page. The page arithmetic may panic. */
  function Advance(r: PageRangeInclusive, max: int): (res: Outcome<(Option<Page>, PageRangeInclusive)>)
    requires SameSize(r)
    ensures res.Value? ==> SameSize(res.value.1)
    ensures r.start.start > r.end.start ==> res == Value((None, r))
    ensures res.Value? && r.start.start <= r.end.start ==>
              res.value.0 == Some(r.start)
              && ((res.value.1.start.start == r.start.start + SizeBytes(r.start.size)
                   && res.value.1.end == r.end)
                  || (res.value.1.start == r.start
                      && res.value.1.end.start == r.end.start - SizeBytes(r.start.size)))
  {
    if r.start.start <= r.end.start then
      var page := r.start;
      if r.start.start < max then
        match PageAdd(r.start, 1)
        case Panic(msg) => Panic(msg)
        case Value(next) => Value((Some(page), r.(start := next)))
      else
        match PageSub(r.end, 1)
        case Panic(msg) => Panic(msg)
        case Value(prev) => Value((Some(page), r.(end := prev)))
    else Value((None, r))
  }

  /** `PageRangeInclusive::next` as written: the bound is the last page of
      the whole address space. */
  function NextAsWritten(r: PageRangeInclusive): (res: Outcome<(Option<Page>, PageRangeInclusive)>)
    requires SameSize(r)
    ensures res.Panic? <==>
              r.start.start <= r.end.start && r.start.start == TWO_47 - SizeBytes(r.start.size)
  {
    var k := SizeBytes(r.start.size);
    if r.start.start < TWO_47 && r.start.start != TWO_47 - k then
      AlignedGap(r.start.start, TWO_47, k);
      Advance(r, MaxPageAddr(r.start.size))
    else
      Advance(r, MaxPageAddr(r.start.size))
  }

  /** `next` with the bound taken from the canonical half of `start`, so
      that the last page of the lower half is yielded without stepping into
      the non-canonical hole. */
  function Next(r: PageRangeInclusive): (res: Outcome<(Option<Page>, PageRangeInclusive)>)
    requires SameSize(r)
    ensures res.Panic? <==>
              r.start.start <= r.end.start && r.start.start == TWO_47 - SizeBytes(r.start.size)
              && r.end.start == UPPER_HALF
  {
    var k := SizeBytes(r.start.size);
    if r.start.start < TWO_47 && r.start.start != TWO_47 - k then
      AlignedGap(r.start.start, TWO_47, k);
      Advance(r, HalfMaxPageAddr(r.start.size, r.start.start))
    else if r.end.start > UPPER_HALF then
      AlignedGap(UPPER_HALF, r.end.start, k);
      Advance(r, HalfMaxPageAddr(r.start.size, r.start.start))
    else
      Advance(r, HalfMaxPageAddr(r.start.size, r.start.start))
  }

  /** Two distinct multiples of a page size are at least a page apart. */
  lemma AlignedGap(a: int, b: int, k: int)
    requires k == 0x1000 || k == 0x20_0000 || k == 0x4000_0000
    requires a % k == 0 && b % k == 0 && a < b
    ensures a + k <= b
  {
    assert a == (a / k) * k && b == (b / k) * k;
    assert a / k < b / k;
  }

  /** A yielding step removes exactly one page from what remains. */
  lemma StepShrinks(r: PageRangeInclusive, r': PageRangeInclusive)
    requires SameSize(r) && SameSize(r') && r.start.start <= r.end.start
    requires r'.start.size == r.start.size
    requires (r'.start.start == r.start.start + SizeBytes(r.start.size) && r'.end == r.end)
             || (r'.start == r.start && r'.end.start == r.end.start - SizeBytes(r.start.size))
    ensures Remaining(r') == Remaining(r) - 1
  {
    CountStep(r.start.start, r.end.start, SizeBytes(r.start.size));
  }

  /** Counting multiples of `k` in `[s, e]` when one end moves by `k`. */
  lemma CountStep(s: int, e: int, k: int)
    requires k >= 1 && s % k == 0 && e % k == 0 && s <= e
    ensures s + k > e ==> s == e
    ensures s + k <= e ==> (e - (s + k)) / k + 1 == (e - s) / k
    ensures s <= e - k ==> (e - k - s) / k + 1 == (e - s) / k
  {
    var qs, qe := s / k, e / k;
    assert s == k * qs && e == k * qe;
    Distribute(k, qe, qs);
    if qe > qs {
      MulAtLeast(k, qe - qs);
      DivModUnique(e - s, k, qe - qs, 0);
      DivModUnique(e - s - k, k, qe - qs - 1, 0);
    } else {
      assert qe == qs;
    }
  }

  /** Collecting the pages of a `for` loop over the range, with the bound
      chosen per step as in `Next` (`fixed`) or as in `NextAsWritten`. */
  function Drain(r: PageRangeInclusive, fixed: bool): (res: Outcome<seq<Page>>)
    requires SameSize(r)
    ensures res.Value? ==> |res.value| == Remaining(r)
    decreases Remaining(r)
  {
    var step := if fixed then Next(r) else NextAsWritten(r);
    match step
    case Panic(msg) => Panic(msg)
    case Value((None, _)) => Value([])
    case Value((Some(p), r')) =>
      StepShrinks(r, r');
      match Drain(r', fixed)
      case Panic(msg) => Panic(msg)
      case Value(rest) => Value([p] + rest)
  }

  /** Once `start` has passed `end`, `next` returns `None` and changes
      nothing, so it returns `None` forever. */
  lemma ExhaustedStaysExhausted(r: PageRangeInclusive)
    requires SameSize(r) && r.start.start > r.end.start
    ensures NextAsWritten(r) == Value((None, r))
    ensures Next(r) == Value((None, r))
  {}

  /** Within one canonical half, a step of `Next` does not panic: either
      `start` moves up by one page and stays in the half, or `start` was the
      half's last page, which is then also `end`, and the range becomes
      empty. */
  lemma NextWithinHalf(r: PageRangeInclusive)
    requires SameSize(r) && r.start.start <= r.end.start
    requires (r.start.start < TWO_47) == (r.end.start < TWO_47)
    ensures Next(r).Value?
    ensures var r' := Next(r).value.1;
            (r'.start.start == r.start.start + SizeBytes(r.start.size) && r'.end == r.end
             && (r'.start.start < TWO_47) == (r'.end.start < TWO_47))
            || (r.start == r.end && r'.start.start > r'.end.start)
  {
    var max := HalfMaxPageAddr(r.start.size, r.start.start);
    assert Canonical(r.start.start) && Canonical(r.end.start);
    CountStep(r.start.start, r.end.start, SizeBytes(r.start.size));
    if r.start.start < max {
      assert PageAdd(r.start, 1).Value?;
    } else {
      assert PageSub(r.end, 1).Value?;
    }
  }

  /** A step that yields a page puts it in front of the pages yielded by
      the rest of the loop. */
  lemma DrainCons(r: PageRangeInclusive, fixed: bool)
    requires SameSize(r)
    requires var step := if fixed then Next(r) else NextAsWritten(r);
             step.Value? && step.value.0.Some?
    ensures var step := if fixed then Next(r) else NextAsWritten(r);
            SameSize(step.value.1)
            && (Drain(step.value.1, fixed).Value? ==>
                  Drain(r, fixed) == Value([step.value.0.value] + Drain(step.value.1, fixed).value))
  {}

  /** `pages` is `first, first + SIZE, first + 2 * SIZE, ...`, all of the
      size of `first`. */
  predicate Consecutive(pages: seq<Page>, first: Page) {
    forall i :: 0 <= i < |pages| ==>
      pages[i].size == first.size && pages[i].start == first.start + i * SizeBytes(first.size)
  }

  lemma ConsecutiveCons(p: Page, rest: seq<Page>, next: Page)
    requires next.size == p.size && next.start == p.start + SizeBytes(p.size)
    requires Consecutive(rest, next)
    ensures Consecutive([p] + rest, p)
  {
    var k := SizeBytes(p.size);
    forall i | 0 <= i < |rest| + 1
      ensures ([p] + rest)[i].size == p.size && ([p] + rest)[i].start == p.start + i * k
    {
      if i > 0 {
        assert ([p] + rest)[i] == rest[i - 1];
        assert p.start + k + (i - 1) * k == p.start + i * k;
      }
    }
  }

  /** Within one canonical half, the loop over `Next` never panics and
      yields the pages `start, start + SIZE, ..., end`, each once, in
      increasing order. */
  lemma {:induction false} DrainWithinHalf(r: PageRangeInclusive)
    requires SameSize(r)
    requires (r.start.start < TWO_47) == (r.end.start < TWO_47)
    ensures Drain(r, true).Value?
    ensures Consecutive(Drain(r, true).value, r.start)
    decreases Remaining(r), 1
  {
    if r.start.start <= r.end.start {
      NextWithinHalf(r);
      var r' := Next(r).value.1;
      if r'.start.start <= r'.end.start {
        DrainWithinHalfStep(r);
      } else {
        DrainLastPage(r);
      }
    } else {
      ExhaustedStaysExhausted(r);
    }
  }

  /** The inductive step of `DrainWithinHalf`: the first page, then the
      pages of the rest, which start one page further up. */
  lemma {:induction false} DrainWithinHalfStep(r: PageRangeInclusive)
    requires SameSize(r) && r.start.start <= r.end.start
    requires (r.start.start < TWO_47) == (r.end.start < TWO_47)
    requires Next(r).Value? && Next(r).value.1.start.start <= Next(r).value.1.end.start
    ensures Drain(r, true).Value?
    ensures Consecutive(Drain(r, true).value, r.start)
    decreases Remaining(r), 0
  {
    NextWithinHalf(r);
    var r' := Next(r).value.1;
    StepShrinks(r, r');
    DrainWithinHalf(r');
    DrainCons(r, true);
    ConsecutiveCons(r.start, Drain(r', true).value, r'.start);
  }

  /** An exhausted range yields nothing. */
  lemma DrainExhausted(r: PageRangeInclusive, fixed: bool)
    requires SameSize(r) && r.start.start > r.end.start
    ensures Drain(r, fixed) == Value([])
  {
    ExhaustedStaysExhausted(r);
  }

  /** The last page of a range within one half is yielded alone. */
  lemma DrainLastPage(r: PageRangeInclusive)
    requires SameSize(r) && r.start.start <= r.end.start
    requires Next(r).Value? && Next(r).value.1.start.start > Next(r).value.1.end.start
    ensures Drain(r, true) == Value([r.start])
    ensures Consecutive(Drain(r, true).value, r.start)
  {
    var r' := Next(r).value.1;
    assert Next(r).value.0 == Some(r.start);
    DrainExhausted(r', true);
    DrainCons(r, true);
    assert Drain(r, true) == Value([r.start] + []);
    assert [r.start] + [] == [r.start];
    ConsecutiveSingle(r.start);
  }

  lemma ConsecutiveSingle(p: Page)
    ensures Consecutive([p], p)
  {}

  /** Away from the last page of the lower half, the loop as written and
      the loop over `Next` are the same loop: within one canonical half,
      whenever `end` is not that page, the code yields `start, start +
      SIZE, ..., end` without panicking, each page once, in order. */
  lemma {:induction false} DrainAgrees(r: PageRangeInclusive)
    requires SameSize(r)
    requires (r.start.start < TWO_47) == (r.end.start < TWO_47)
    requires r.end.start != TWO_47 - SizeBytes(r.start.size)
    ensures Drain(r, false) == Drain(r, true)
    ensures Drain(r, false).Value? && Consecutive(Drain(r, false).value, r.start)
    decreases Remaining(r)
  {
    DrainWithinHalf(r);
    if r.start.start <= r.end.start {
      NextWithinHalf(r);
      var k := SizeBytes(r.start.size);
      if r.start.start < TWO_47 {
        BelowLastLowerPage(r.end.start, k);
      }
      assert NextAsWritten(r) == Next(r);
      var r' := Next(r).value.1;
      StepShrinks(r, r');
      if r'.start.start <= r'.end.start {
        DrainAgrees(r');
      } else {
        DrainExhausted(r', false);
        DrainExhausted(r', true);
      }
      DrainCons(r, false);
      DrainCons(r, true);
    } else {
      DrainExhausted(r, false);
      DrainExhausted(r, true);
    }
  }

  /** A page start in the lower half other than its last page lies at
      least one more page below the hole. */
  lemma BelowLastLowerPage(e: int, k: int)
    requires k == 0x1000 || k == 0x20_0000 || k == 0x4000_0000
    requires 0 <= e < TWO_47 && e % k == 0 && e != TWO_47 - k
    ensures e < TWO_47 - k
  {
    assert TWO_47 % k == 0;
    var q := e / k;
    assert e == q * k;
    assert TWO_47 == (TWO_47 / k) * k;
    assert q < TWO_47 / k - 1;
  }

  /** As written, a range that ends on the last page of the lower half
      panics instead of yielding that page: `start + 1` lands in the
      non-canonical hole. */
  lemma LastLowerPagePanics()
    ensures var p := PageRecord(Size4KiB, TWO_47 - 0x1000);
            NextAsWritten(PageRangeInclusive(p, p)).Panic?
            && Drain(PageRangeInclusive(p, p), false).Panic?
            && Drain(PageRangeInclusive(p, p), true) == Value([p])
  {
    var p := PageRecord(Size4KiB, TWO_47 - 0x1000);
    assert !Canonical(TWO_47);
    var r := PageRangeInclusive(p, p);
    NextWithinHalf(r);
    var r' := Next(r).value.1;
    assert Drain(r', true) == Value([]);
    assert Next(r).value.0 == Some(p);
    assert Drain(r, true) == Value([p] + []);
    assert [p] + [] == [p];
  }
}
