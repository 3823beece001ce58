/**
 * `EarlyAllocator<PAGE_SIZE>`: a dual-end bump allocator over a fixed table
 * of donated regions. Bytes are handed out upward from each region's byte
 * cursor, pages downward from its page cursor, scanning the table in
 * insertion order; nothing is ever given back.
 *
 * The class keeps the Rust struct's fields. Three ghost fields record what
 * the Rust code does not store but its behaviour depends on: each unit's
 * original start, the pages granted from each unit, and the history of page
 * grants.
 */
module BumpAllocator {
  import opened Wrappers
  import opened Usize
  import opened BumpUnits
  import opened BumpTable
  import opened BumpSteps

  class EarlyAllocator {
    /** The const generic `PAGE_SIZE`. */
    const PageSize: nat
    var totalBytes: nat
    var usedBytes: nat
    var totalPages: nat
    var usedPages: nat
    /** The region table `mem: [MemUnit; 8192]`; only `mem[..memSz]` is in use. */
    const mem: array<MemUnit>
    var memSz: nat

    /** The units in use, in table order: always `mem[..memSz]`. */
    ghost var units: seq<MemUnit>
    /** The original start of each unit in use. */
    ghost var starts: seq<nat>
    /** The pages granted so far from each unit in use. */
    ghost var pagesTaken: seq<nat>
    /** Every page block granted so far, in order. */
    ghost var grants: seq<PageGrant>

    /** The whole state as a value, ghost companions included. */
    ghost function State(): Ledger
      reads this
    {
      Ledger(units, starts, pagesTaken, grants, totalBytes, usedBytes, totalPages, usedPages)
    }

    ghost predicate Valid()
      reads this, mem
    {
      && mem.Length == MAX_UNITS
      && memSz <= MAX_UNITS
      && units == mem[..memSz]
      && Inv(State(), PageSize)
    }

    /** `EarlyAllocator::new`: an empty table and zero counters. */
    constructor (pageSize: nat)
      requires pageSize > 0
      ensures Valid() && fresh(mem)
      ensures PageSize == pageSize && State() == Empty()
    {
      PageSize := pageSize;
      totalBytes, usedBytes, totalPages, usedPages := 0, 0, 0, 0;
      mem := new MemUnit[MAX_UNITS](_ => MemUnit(0, 0, 0));
      memSz := 0;
      units, starts, pagesTaken, grants := [], [], [], [];
    }

    /** `init`: the first region `[start, start + size)`. */
    method Init(start: nat, size: nat)
      requires Valid() && memSz == 0
      requires PageSize <= start && PageSize <= size && start + size <= POW64
      modifies this, mem
      ensures Valid()
      ensures State() == InitStep(old(State()), start, size, PageSize)
    {
      ghost var prev := State();
      ghost var next := InitStep(prev, start, size, PageSize);
      mem[memSz] := NewUnit(start, size, PageSize);
      memSz := memSz + 1;
      totalBytes := size;
      totalPages := size / PageSize;
      units, starts, pagesTaken := next.units, next.starts, next.taken;
      assert mem[..memSz] == units;
      assert State() == next;
      InitKeepsInv(prev, start, size, PageSize);
    }

    /**
     * `add_memory`: rejects the range when one of its endpoints falls in the
     * window of some unit, and otherwise appends it as a new unit.
     */
    method AddMemory(start: nat, size: nat) returns (r: AllocResult<()>)
      requires Valid() && (memSz < MAX_UNITS || HitsAny(units, start, size))
      requires WindowsInRange(units, start, size)
      requires PageSize <= start && PageSize <= size && start + size <= POW64
      modifies this, mem
      ensures Valid()
      ensures (r, State()) == AddMemoryStep(old(State()), start, size, PageSize)
    {
      var hit := FindOverlap(start, size);
      if hit {
        return Err(MemoryOverlap);
      }
      PushUnit(start, size);
      r := Ok(());
    }

    /** The scan of `add_memory` over the table: whether some unit is hit by the new range. */
    method FindOverlap(start: nat, size: nat) returns (hit: bool)
      requires memSz <= mem.Length && units == mem[..memSz]
      ensures hit == HitsAny(units, start, size)
    {
      for i := 0 to memSz
        invariant forall k | 0 <= k < i :: !Hits(units[k], start, size)
      {
        if Hits(mem[i], start, size) {
          return true;
        }
      }
      return false;
    }

    /** The append step of `add_memory`: a new unit at the end of the table, its size and pages added to the totals. */
    method PushUnit(start: nat, size: nat)
      requires Valid() && memSz < MAX_UNITS
      requires PageSize <= start && PageSize <= size && start + size <= POW64
      modifies this, mem
      ensures Valid()
      ensures State() == AppendUnit(old(State()), start, size, PageSize)
    {
      ghost var prev := State();
      ghost var next := AppendUnit(prev, start, size, PageSize);
      mem[memSz] := NewUnit(start, size, PageSize);
      memSz := memSz + 1;
      totalBytes := totalBytes + size;
      totalPages := totalPages + size / PageSize;
      units, starts, pagesTaken := next.units, next.starts, next.taken;
      assert mem[..memSz] == units;
      assert State() == next;
      AppendUnitKeepsInv(prev, start, size, PageSize);
    }

    /**
     * `alloc`: the first unit, in table order, whose aligned byte cursor
     * leaves room below its page cursor serves the request; its byte cursor
     * moves by `size` and the aligned address is returned.
     */
    method Alloc(layout: Layout) returns (r: AllocResult<nat>)
      requires Valid() && layout.align > 0
      requires ByteRequestInRange(units, layout.size, layout.align)
      modifies this, mem
      ensures Valid()
      ensures (r, State()) == AllocStep(old(State()), layout.size, layout.align)
    {
      var align, size := layout.align, layout.size;
      var found, frontAddr := FindBytes(size, align);
      if found.None? {
        return Err(NoMemory);
      }
      BumpUnit(found.value, size, align);
      return Ok(frontAddr);
    }

    /**
     * The scan of `alloc`: the first unit whose byte cursor, stepped up one
     * address at a time to a multiple of `align`, leaves the request's last
     * byte below the page cursor, with that stepped-up address.
     */
    method FindBytes(size: nat, align: nat) returns (found: Option<nat>, frontAddr: nat)
      requires memSz <= mem.Length && units == mem[..memSz] && align > 0
      ensures found == FirstByteFit(units, size, align)
      ensures found.Some? ==> frontAddr == AlignUp(units[found.value].ptrByte, align)
    {
      for i := 0 to memSz
        invariant forall k | 0 <= k < i :: !FitsBytes(units[k], size, align)
      {
        var fits;
        fits, frontAddr := ScanBytes(mem[i], size, align);
        if fits {
          return Some(i), frontAddr;
        }
      }
      return None, 0;
    }

    /** The commit of a successful `alloc` from unit `i`: its byte cursor moves by `size`, which is charged. */
    method BumpUnit(i: nat, size: nat, align: nat)
      requires Valid() && align > 0 && FirstByteFit(units, size, align) == Some(i)
      modifies this, mem
      ensures Valid()
      ensures State() == AllocStep(old(State()), size, align).1
    {
      ghost var prev := State();
      ghost var next := AllocStep(prev, size, align).1;
      mem[i] := BumpBytes(mem[i], size);
      usedBytes := usedBytes + size;
      units := next.units;
      assert mem[..memSz] == units;
      assert State() == next;
      AllocKeepsInv(prev, size, align, PageSize);
    }

    /** `dealloc`: bytes are never given back. */
    method Dealloc(pos: nat, layout: Layout)
      requires Valid()
      ensures Valid() && State() == old(State())
    {
    }

    /** `total_bytes`: the sum of the sizes of all donated regions. */
    function TotalBytes(): (r: nat)
      reads this, mem
      requires Valid()
      ensures r == Sum(SizesOf(units))
    {
      totalBytes
    }

    /** `used_bytes`: the sum of the distances the byte cursors have moved, at most the total. */
    function UsedBytes(): (r: nat)
      reads this, mem
      requires Valid()
      ensures r == Sum(BytesTaken(units, starts))
      ensures r <= TotalBytes()
    {
      BytesTakenBounded(units, starts, pagesTaken, grants, PageSize);
      usedBytes
    }

    /**
     * `available_bytes`: `total_bytes - used_bytes` never underflows, and is
     * the sum over the units of the bytes their byte cursors have not passed
     * (page allocations are not subtracted).
     */
    function AvailableBytes(): (r: nat)
      reads this, mem
      requires Valid()
      ensures r + UsedBytes() == TotalBytes()
      ensures r == Sum(BytesLeft(units, starts))
    {
      BytesTakenBounded(units, starts, pagesTaken, grants, PageSize);
      totalBytes - usedBytes
    }

    /**
     * `alloc_pages`: checks the alignment, then serves the request from the
     * first unit, in table order, where `num_pages` pages counted down from
     * the rounded-down page cursor all start above the byte cursor. The
     * alignment is `1 << align_pow2` with the shift amount masked to six bits.
     */
    method AllocPages(numPages: nat, alignPow2: nat) returns (r: AllocResult<nat>)
      requires Valid()
      modifies this, mem
      ensures Valid()
      ensures (r, State()) == AllocPagesStep(old(State()), numPages, alignPow2, PageSize)
    {
      if alignPow2 % PageSize != 0 {
        return Err(InvalidParam);
      }
      var align := Shl1(alignPow2);
      if !IsPowerOfTwo(alignPow2 / PageSize) {
        return Err(InvalidParam);
      }
      r := AllocAlignedPages(numPages, align);
    }

    /** `alloc_pages` once the alignment has been checked and computed. */
    method AllocAlignedPages(numPages: nat, align: nat) returns (r: AllocResult<nat>)
      requires Valid() && align > 0
      modifies this, mem
      ensures Valid()
      ensures (r, State()) == AllocAlignedPagesStep(old(State()), numPages, align, PageSize)
    {
      var found, frontAddr := FindPages(numPages, align);
      if found.None? {
        return Err(NoMemory);
      }
      TakeUnitPages(found.value, numPages, align);
      return Ok(frontAddr);
    }

    /**
     * The scan of `alloc_pages`: the first unit where, after the page cursor
     * is stepped down one address at a time to a multiple of `align`,
     * `num_pages` pages counted down from there all start above the byte
     * cursor, with the lowest of those page addresses.
     */
    method FindPages(numPages: nat, align: nat) returns (found: Option<nat>, frontAddr: nat)
      requires memSz <= mem.Length && units == mem[..memSz] && align > 0 && PageSize > 0
      requires CursorsAbovePage(units, PageSize)
      ensures found == FirstPageFit(units, numPages, align, PageSize)
      ensures found.Some? ==> frontAddr == PageBlockAddr(units[found.value], numPages, align, PageSize)
    {
      for i := 0 to memSz
        invariant forall k | 0 <= k < i :: !FitsPages(units[k], numPages, align, PageSize)
      {
        var fits;
        fits, frontAddr := ScanPages(mem[i], numPages, align, PageSize);
        if fits {
          return Some(i), frontAddr;
        }
      }
      return None, 0;
    }

    /** The commit of a successful `alloc_pages` from unit `i`: its page cursor drops and the pages are charged. */
    method TakeUnitPages(i: nat, n: nat, align: nat)
      requires Valid() && align > 0 && FirstPageFit(units, n, align, PageSize) == Some(i)
      modifies this, mem
      ensures Valid()
      ensures State() == TakeFrom(old(State()), i, n, align, PageSize)
    {
      ghost var prev := State();
      ghost var next := TakeFrom(prev, i, n, align, PageSize);
      mem[i] := TakePages(mem[i], n, align, PageSize);
      usedPages := usedPages + n;
      units, pagesTaken, grants := next.units, next.taken, next.grants;
      assert mem[..memSz] == units;
      assert State() == next;
      TakeFromKeepsInv(prev, i, n, align, PageSize);
    }

    /** `dealloc_pages`: pages are never given back. */
    method DeallocPages(pos: nat, numPages: nat)
      requires Valid()
      ensures Valid() && State() == old(State())
    {
    }

    /** `total_pages`: the sum of the whole pages of all donated regions. */
    function TotalPages(): (r: nat)
      reads this, mem
      requires Valid()
      ensures r == Sum(PagesOf(units, PageSize))
    {
      totalPages
    }

    /** `used_pages`: the sum of the pages granted from each unit, at most the total. */
    function UsedPages(): (r: nat)
      reads this, mem
      requires Valid()
      ensures r == Sum(pagesTaken)
      ensures r <= TotalPages()
    {
      PagesTakenBounded(units, starts, pagesTaken, grants, PageSize);
      usedPages
    }

    /**
     * `available_pages`: `total_pages - used_pages` never underflows, and is
     * the sum over the units of their whole pages not yet granted.
     */
    function AvailablePages(): (r: nat)
      reads this, mem
      requires Valid()
      ensures r + UsedPages() == TotalPages()
      ensures r == Sum(PagesLeft(units, pagesTaken, PageSize))
    {
      PagesTakenBounded(units, starts, pagesTaken, grants, PageSize);
      totalPages - usedPages
    }
  }
}
