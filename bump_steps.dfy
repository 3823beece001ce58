/**
 * The operations of `EarlyAllocator` as functions on a value that holds its
 * whole state: the units in use, the counters, and the ghost record of each
 * unit's original start, the pages granted from each unit and the page
 * blocks granted so far. The class in module BumpAllocator is proved to
 * follow these functions step by step; the lemmas here are what the
 * allocator promises of them.
 */
module BumpSteps {
  import opened Wrappers
  import opened Usize
  import opened BumpUnits
  import opened BumpTable

  /** The state of an allocator: the table, its ghost companions and the four counters. */
  datatype Ledger = Ledger(
    units: seq<MemUnit>, starts: seq<nat>, taken: seq<nat>, grants: seq<PageGrant>,
    totalBytes: nat, usedBytes: nat, totalPages: nat, usedPages: nat)

  /** The allocator's invariant: a valid table, and each counter equal to the sum it stands for. */
  ghost predicate Inv(l: Ledger, pageSize: nat) {
    && TableValid(l.units, l.starts, l.taken, l.grants, pageSize)
    && l.totalBytes == Sum(SizesOf(l.units))
    && l.totalPages == Sum(PagesOf(l.units, pageSize))
    && l.usedBytes == Sum(BytesTaken(l.units, l.starts))
    && l.usedPages == Sum(l.taken)
    && Shaped(l, pageSize)
  }

  /** A state with no units and zero counters, as `EarlyAllocator::new` leaves it. */
  function Empty(): Ledger {
    Ledger([], [], [], [], 0, 0, 0, 0)
  }

  /**
   * What the page path needs of a state: one page count per unit, and no
   * byte cursor below one page. `Inv` implies it (`ByteCursorsAbovePage`);
   * it is kept as a separate, non-ghost predicate because the step functions
   * require it, and it can be checked of a concrete state without evaluating
   * the sums and quantifiers of `Inv`.
   */
  predicate Shaped(l: Ledger, pageSize: nat) {
    |l.taken| == |l.units| && CursorsAbovePage(l.units, pageSize)
  }

  // ---------------------------------------------------------------------
  // Region table
  // ---------------------------------------------------------------------

  /** `init`: the first unit is written and the totals are SET to its size and pages. */
  function InitStep(l: Ledger, start: nat, size: nat, pageSize: nat): Ledger
    requires 0 < pageSize <= size
  {
    l.(units := l.units + [NewUnit(start, size, pageSize)],
       starts := l.starts + [start], taken := l.taken + [0],
       totalBytes := size, totalPages := size / pageSize)
  }

  /** The append of `add_memory`: a new unit, its size and pages ADDED to the totals. */
  function AppendUnit(l: Ledger, start: nat, size: nat, pageSize: nat): Ledger
    requires 0 < pageSize <= size
  {
    l.(units := l.units + [NewUnit(start, size, pageSize)],
       starts := l.starts + [start], taken := l.taken + [0],
       totalBytes := l.totalBytes + size, totalPages := l.totalPages + size / pageSize)
  }

  /** `add_memory`: rejected when the overlap test hits some unit, otherwise appended. */
  function AddMemoryStep(l: Ledger, start: nat, size: nat, pageSize: nat): (AllocResult<()>, Ledger)
    requires 0 < pageSize <= size
  {
    if HitsAny(l.units, start, size) then (Err(MemoryOverlap), l)
    else (Ok(()), AppendUnit(l, start, size, pageSize))
  }

  /** Appending a unit keeps the invariant, whatever the overlap test would say. */
  lemma AppendUnitKeepsInv(l: Ledger, start: nat, size: nat, pageSize: nat)
    requires Inv(l, pageSize) && |l.units| < MAX_UNITS
    requires pageSize <= start && pageSize <= size && start + size <= POW64
    ensures Inv(AppendUnit(l, start, size, pageSize), pageSize)
  {
    AppendUnitKeepsTable(l.units, l.starts, l.taken, l.grants, pageSize, start, size);
  }

  lemma InitKeepsInv(l: Ledger, start: nat, size: nat, pageSize: nat)
    requires Inv(l, pageSize) && l.units == []
    requires pageSize <= start && pageSize <= size && start + size <= POW64
    ensures Inv(InitStep(l, start, size, pageSize), pageSize)
    ensures InitStep(l, start, size, pageSize).units == [MemUnit(start, start + size - pageSize, size)]
  {
    AppendUnitKeepsTable(l.units, l.starts, l.taken, l.grants, pageSize, start, size);
  }

  /**
   * A successful `add_memory` keeps the invariant and adds the region's size
   * and whole pages to the totals; a rejected one changes nothing.
   */
  lemma AddMemoryKeepsInv(l: Ledger, start: nat, size: nat, pageSize: nat)
    requires Inv(l, pageSize) && (|l.units| < MAX_UNITS || HitsAny(l.units, start, size))
    requires pageSize <= start && pageSize <= size && start + size <= POW64
    ensures var (r, l') := AddMemoryStep(l, start, size, pageSize);
      && Inv(l', pageSize)
      && (r.Err? ==> l' == l)
      && (r.Ok? ==> Sum(SizesOf(l'.units)) == Sum(SizesOf(l.units)) + size)
      && (r.Ok? ==> Sum(PagesOf(l'.units, pageSize)) == Sum(PagesOf(l.units, pageSize)) + size / pageSize)
  {
    if !HitsAny(l.units, start, size) {
      AppendUnitKeepsInv(l, start, size, pageSize);
    }
  }

  // ---------------------------------------------------------------------
  // Byte path
  // ---------------------------------------------------------------------

  /** `alloc`: first fit in table order; the cursor moves by `size` and `size` is charged. */
  function AllocStep(l: Ledger, size: nat, align: nat): (AllocResult<nat>, Ledger)
    requires align > 0
  {
    match FirstByteFit(l.units, size, align)
    case None => (Err(NoMemory), l)
    case Some(i) =>
      (Ok(AlignUp(l.units[i].ptrByte, align)),
       l.(units := l.units[i := BumpBytes(l.units[i], size)], usedBytes := l.usedBytes + size))
  }

  lemma AllocKeepsInv(l: Ledger, size: nat, align: nat, pageSize: nat)
    requires Inv(l, pageSize) && align > 0
    ensures var (r, l') := AllocStep(l, size, align);
      && Inv(l', pageSize)
      && l'.totalBytes == l.totalBytes && l'.totalPages == l.totalPages
      && l'.grants == l.grants && l'.usedPages == l.usedPages
      && l'.usedBytes == l.usedBytes + (if r.Ok? then size else 0)
      && (r.Err? ==> l' == l)
      && (r.Err? <==> forall k | 0 <= k < |l.units| :: !FitsBytes(l.units[k], size, align))
  {
    match FirstByteFit(l.units, size, align)
    case None =>
    case Some(i) =>
      BumpBytesKeepsTable(l.units, l.starts, l.taken, l.grants, pageSize, i, size, align);
  }

  /**
   * What `alloc` hands out from the unit `i` it picks: an address that is a
   * multiple of `align` inside the region the unit came from, a block that
   * ends below that unit's page cursor and so below every page block ever
   * granted from that unit.
   */
  lemma AllocGrantsBlockBelowPages(l: Ledger, size: nat, align: nat, pageSize: nat, i: nat)
    requires Inv(l, pageSize) && align > 0 && FirstByteFit(l.units, size, align) == Some(i)
    ensures var a := AlignUp(l.units[i].ptrByte, align);
      && AllocStep(l, size, align).0 == Ok(a)
      && a % align == 0
      && l.starts[i] <= l.units[i].ptrByte <= a
      && a + size <= l.units[i].ptrPage < l.starts[i] + l.units[i].size
      && forall j | 0 <= j < |l.grants| && l.grants[j].unit == i :: a + size <= l.grants[j].addr
  {
    var a := AlignUp(l.units[i].ptrByte, align);
    ByteBlockInUnit(l.units[i], size, align);
    assert UnitOk(l.units, l.starts, l.taken, pageSize, i);
    MulMono(0, l.taken[i], pageSize);
    forall j | 0 <= j < |l.grants| && l.grants[j].unit == i
      ensures a + size <= l.grants[j].addr
    {
      assert GrantOk(l.units, l.starts, l.grants, pageSize, j);
    }
  }

  // ---------------------------------------------------------------------
  // Page path
  // ---------------------------------------------------------------------

  /**
   * `alloc_pages`: the two parameter checks, then first fit in table order
   * with the alignment `1 << align_pow2`; the page cursor drops below the
   * block and `num_pages` is charged.
   */
  function AllocPagesStep(l: Ledger, n: nat, alignPow2: nat, pageSize: nat): (AllocResult<nat>, Ledger)
    requires pageSize > 0 && Shaped(l, pageSize)
  {
    if !PageAlignValid(alignPow2, pageSize) then (Err(InvalidParam), l)
    else AllocAlignedPagesStep(l, n, Shl1(alignPow2), pageSize)
  }

  /** `alloc_pages` once the alignment has been checked and computed. */
  function AllocAlignedPagesStep(l: Ledger, n: nat, align: nat, pageSize: nat): (AllocResult<nat>, Ledger)
    requires align > 0 && pageSize > 0 && Shaped(l, pageSize)
  {
    match FirstPageFit(l.units, n, align, pageSize)
    case None => (Err(NoMemory), l)
    case Some(i) => (Ok(PageBlockAddr(l.units[i], n, align, pageSize)), TakeFrom(l, i, n, align, pageSize))
  }

  /** The state after `n` pages are granted from unit `i`: its page cursor drops and the grant is recorded. */
  function TakeFrom(l: Ledger, i: nat, n: nat, align: nat, pageSize: nat): Ledger
    requires align > 0 && pageSize > 0 && Shaped(l, pageSize) && i < |l.units|
    requires FitsPages(l.units[i], n, align, pageSize)
  {
    l.(units := l.units[i := TakePages(l.units[i], n, align, pageSize)],
       taken := l.taken[i := l.taken[i] + n],
       grants := l.grants + [PageGrant(i, PageBlockAddr(l.units[i], n, align, pageSize), n)],
       usedPages := l.usedPages + n)
  }

  /** Granting pages from a unit that admits them keeps the invariant. */
  lemma TakeFromKeepsInv(l: Ledger, i: nat, n: nat, align: nat, pageSize: nat)
    requires Inv(l, pageSize) && align > 0 && i < |l.units|
    requires FitsPages(l.units[i], n, align, pageSize)
    ensures Inv(TakeFrom(l, i, n, align, pageSize), pageSize)
  {
    var l' := TakeFrom(l, i, n, align, pageSize);
    TakePagesKeepsTable(l.units, l.starts, l.taken, l.grants, pageSize, i, n, align);
    ByteCursorsAbovePage(l'.units, l'.starts, l'.taken, l'.grants, pageSize);
  }

  /** `alloc_pages` past its parameter checks keeps the invariant and charges the pages it grants. */
  lemma AllocAlignedPagesKeepsInv(l: Ledger, n: nat, align: nat, pageSize: nat)
    requires Inv(l, pageSize) && align > 0
    ensures var (r, l') := AllocAlignedPagesStep(l, n, align, pageSize);
      && Inv(l', pageSize)
      && l'.totalBytes == l.totalBytes && l'.totalPages == l.totalPages && l'.usedBytes == l.usedBytes
      && l'.usedPages == l.usedPages + (if r.Ok? then n else 0)
  {
    match FirstPageFit(l.units, n, align, pageSize)
    case None =>
    case Some(i) =>
      TakeFromKeepsInv(l, i, n, align, pageSize);
  }

  /**
   * `alloc_pages` keeps the invariant, in particular that the page blocks
   * granted from one unit never overlap; `used_pages` grows by exactly the
   * pages granted and never decreases.
   */
  lemma AllocPagesKeepsInv(l: Ledger, n: nat, alignPow2: nat, pageSize: nat)
    requires Inv(l, pageSize)
    ensures var (r, l') := AllocPagesStep(l, n, alignPow2, pageSize);
      && Inv(l', pageSize)
      && l'.totalBytes == l.totalBytes && l'.totalPages == l.totalPages && l'.usedBytes == l.usedBytes
      && l'.usedPages == l.usedPages + (if r.Ok? then n else 0)
      && (r.Err? ==> l' == l)
      && (r == Err(InvalidParam) <==> !PageAlignValid(alignPow2, pageSize))
      && (r == Err(NoMemory) <==>
            PageAlignValid(alignPow2, pageSize) &&
            forall k | 0 <= k < |l.units| :: !FitsPages(l.units[k], n, Shl1(alignPow2), pageSize))
  {
    if PageAlignValid(alignPow2, pageSize) {
      AllocAlignedPagesKeepsInv(l, n, Shl1(alignPow2), pageSize);
    }
  }

  /**
   * What `alloc_pages` hands out from the unit `i` it picks: at least one
   * page, a block that starts above the unit's byte cursor, lies within the
   * region, and ends at or below the start of every block granted earlier
   * from the same unit.
   */
  lemma AllocPagesGrantsFreshBlock(l: Ledger, n: nat, alignPow2: nat, pageSize: nat, i: nat)
    requires Inv(l, pageSize) && PageAlignValid(alignPow2, pageSize)
    requires FirstPageFit(l.units, n, Shl1(alignPow2), pageSize) == Some(i)
    ensures var a := PageBlockAddr(l.units[i], n, Shl1(alignPow2), pageSize);
      && AllocPagesStep(l, n, alignPow2, pageSize).0 == Ok(a)
      && n >= 1
      && l.units[i].ptrByte < a
      && a + n * pageSize <= l.starts[i] + l.units[i].size
      && forall j | 0 <= j < |l.grants| && l.grants[j].unit == i :: a + n * pageSize <= l.grants[j].addr
  {
    var align := Shl1(alignPow2);
    var u := l.units[i];
    var a := PageBlockAddr(u, n, align, pageSize);
    assert UnitOk(l.units, l.starts, l.taken, pageSize, i);
    PageBlockInUnit(u, n, align, pageSize);
    MulMono(0, l.taken[i], pageSize);
    forall j | 0 <= j < |l.grants| && l.grants[j].unit == i
      ensures a + n * pageSize <= l.grants[j].addr
    {
      assert GrantOk(l.units, l.starts, l.grants, pageSize, j);
    }
  }

  /**
   * With 4 KiB pages, `alloc_pages(4, 8192)` passes both parameter checks;
   * the shift `1 << 8192` is masked to `1 << 0`.
   */
  lemma PageAlignExample()
    ensures PageAlignValid(8192, 4096) && Shl1(8192) == 1
    ensures !PageAlignValid(4096 * 3, 4096) && !PageAlignValid(100, 4096)
  {
    assert IsPowerOfTwo(2) by { assert IsPowerOfTwo(1); }
    assert !IsPowerOfTwo(3);
  }

  /**
   * Uncharged padding lets the page path reuse bytes already handed out:
   * in a region `[4097, 4097 + 15999)` with 4 KiB pages, `alloc` of 4096
   * bytes aligned to 4096 returns 8192 but moves the byte cursor only to
   * 8193, so a following `alloc_pages(2, 4096)` returns 11904, inside the
   * byte block `[8192, 12288)`.
   */
  lemma PaddingLetsPagesOverlapBytes()
    ensures var l := InitStep(Empty(), 4097, 15999, 4096);
      var (r1, l1) := AllocStep(l, 4096, 4096);
      Shaped(l1, 4096) &&
      var (r2, _) := AllocPagesStep(l1, 2, 4096, 4096);
      && r1 == Ok(8192) && r2 == Ok(11904)
      && r1.value <= r2.value < r1.value + 4096
  {
    var l := InitStep(Empty(), 4097, 15999, 4096);
    assert l.units == [MemUnit(4097, 16000, 15999)];
    assert AlignUp(4097, 4096) == 8192;
    assert FitsBytes(l.units[0], 4096, 4096);
    var l1 := AllocStep(l, 4096, 4096).1;
    assert l1.units == [MemUnit(8193, 16000, 15999)];
    assert Shl1(4096) == 1;
    assert AlignDown(16000, 1) == 16000;
    assert PageAlignValid(4096, 4096) by { assert IsPowerOfTwo(1); }
    assert FitsPages(l1.units[0], 2, 1, 4096);
  }

  /**
   * The overlap test can reject a range disjoint from every region: after
   * `init(0x1000, 0x2000)` and a 16-byte `alloc`, the unit's window runs to
   * 0x300f, so `add_memory(0x3000, 0x1000)`, which starts where the region
   * ends, is refused.
   */
  lemma DisjointRangeRejected()
    ensures var l := AllocStep(InitStep(Empty(), 0x1000, 0x2000, 4096), 16, 1).1;
      && l.starts[0] + l.units[0].size <= 0x3000
      && AddMemoryStep(l, 0x3000, 0x1000, 4096).0 == Err(MemoryOverlap)
  {
    var u := MemUnit(0x1000, 0x2000, 0x2000);
    assert InitStep(Empty(), 0x1000, 0x2000, 4096) == Ledger([u], [0x1000], [0], [], 0x2000, 0, 2, 0);
    assert FirstByteFit([u], 16, 1) == Some(0) by {
      assert AlignUp(0x1000, 1) == 0x1000;
    }
    var l := AllocStep(Ledger([u], [0x1000], [0], [], 0x2000, 0, 2, 0), 16, 1).1;
    assert l.units == [MemUnit(0x1010, 0x2000, 0x2000)];
    AdjacentRangeRejected(l.units[0], 0x1000, 0x1000);
    assert HitsAny(l.units, 0x3000, 0x1000);
  }

  /** Boot-time use: with 4 KiB pages, after `init(0x1000, 0x10000)` a 64-byte request aligned to 8 gets 0x1000. */
  lemma BootAllocExample()
    ensures AllocStep(InitStep(Empty(), 0x1000, 0x10000, 4096), 64, 8).0 == Ok(0x1000)
  {
    var u := MemUnit(0x1000, 0x10000, 0x10000);
    assert InitStep(Empty(), 0x1000, 0x10000, 4096) == Ledger([u], [0x1000], [0], [], 0x10000, 0, 16, 0);
    assert FirstByteFit([u], 64, 8) == Some(0) by {
      assert AlignUp(0x1000, 8) == 0x1000;
    }
  }

}
