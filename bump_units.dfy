/**
 * One region ("memory unit") of the early allocator as a value, and the pure
 * arithmetic behind each of the allocator's operations: the endpoint overlap
 * test of `add_memory`, the first-fit choice and alignment of `alloc`, the
 * page-block arithmetic of `alloc_pages`, and sums over the region table
 * for the four counters.
 *
 * Addresses are unbounded naturals; the class in module BumpAllocator keeps
 * every region below 2^64.
 */
module BumpUnits {
  import opened Wrappers
  import opened Usize

  /** Number of slots of the region table (`mem: [MemUnit; 8192]`). */
  const MAX_UNITS: nat := 8192

  /**
   * A region with its two cursors. `ptrByte` is the next candidate address
   * for byte allocations and moves up; `ptrPage` is the start of the highest
   * page not yet handed out and moves down; `size` is the donated length.
   */
  datatype MemUnit = MemUnit(ptrByte: nat, ptrPage: nat, size: nat)

  /** The three variants of the allocator crate's error type that this allocator returns. */
  datatype AllocError = InvalidParam | MemoryOverlap | NoMemory

  datatype AllocResult<T> = Ok(value: T) | Err(error: AllocError)

  /** A `core::alloc::Layout`, reduced to its size and (non-zero) alignment. */
  datatype Layout = Layout(size: nat, align: nat)

  /** A block of pages granted from unit `unit`: `[addr, addr + count * PAGE_SIZE)`. */
  datatype PageGrant = PageGrant(unit: nat, addr: nat, count: nat)

  /** The unit written by `init` and `add_memory` for the range `[start, start + size)`. */
  function NewUnit(start: nat, size: nat, pageSize: nat): MemUnit
    requires pageSize <= size
  {
    MemUnit(start, start + size - pageSize, size)
  }

  // ---------------------------------------------------------------------
  // Overlap guard of add_memory
  // ---------------------------------------------------------------------

  /**
   * The test of `add_memory` against one existing unit: the first or the
   * last byte of the new range lies in the inclusive window
   * `[ptrByte, ptrByte + size - 1]`, measured from the unit's CURRENT byte
   * cursor rather than from its original start.
   */
  predicate Hits(u: MemUnit, start: nat, size: nat) {
    || (start >= u.ptrByte && start <= u.ptrByte + u.size - 1)
    || (start + size - 1 >= u.ptrByte && start + size - 1 <= u.ptrByte + u.size - 1)
  }

  /** Some unit of the table is hit by the new range. */
  predicate HitsAny(units: seq<MemUnit>, start: nat, size: nat) {
    exists k | 0 <= k < |units| :: Hits(units[k], start, size)
  }

  /** A new range that strictly encloses a unit's window passes the test. */
  lemma EnclosingRangeAccepted(u: MemUnit, start: nat, size: nat)
    requires start < u.ptrByte && u.ptrByte + u.size < start + size
    ensures !Hits(u, start, size)
  {
  }

  /**
   * A new range lying wholly inside the bytes a unit has already handed out
   * (below its current byte cursor) passes the test, since the window starts
   * at the cursor.
   */
  lemma HandedOutBytesNotGuarded(u: MemUnit, start: nat, size: nat)
    requires 0 < size && start + size <= u.ptrByte
    ensures !Hits(u, start, size)
  {
  }

  /**
   * Once a unit has handed out bytes its window runs past the end of its
   * region, so a range that starts right after the region, and so shares no
   * address with it, is hit.
   */
  lemma AdjacentRangeRejected(u: MemUnit, origin: nat, size: nat)
    requires origin < u.ptrByte <= origin + u.size
    ensures Hits(u, origin + u.size, size)
  {
  }

  /**
   * The window end `ptrByte + size - 1` of every unit for which
   * `add_memory`'s test computes it lies below 2^64, so the test does not
   * overflow `usize`. The scan reaches unit `k` when no earlier unit is hit
   * by the new range; the `&&` of both comparisons then computes the window
   * end only when the range's last byte is at or above `ptrByte`.
   */
  predicate WindowsInRange(units: seq<MemUnit>, start: nat, size: nat) {
    forall k | 0 <= k < |units| && (forall j | 0 <= j < k :: !Hits(units[j], start, size))
                                && units[k].ptrByte <= start + size - 1 ::
      units[k].ptrByte + units[k].size <= POW64
  }

  // ---------------------------------------------------------------------
  // Alignment
  // ---------------------------------------------------------------------

  /** The least multiple of `a` at or above `p`: where `alloc`'s upward step loop stops. */
  function AlignUp(p: nat, a: nat): (r: nat)
    requires a > 0
    ensures r % a == 0
    ensures p <= r < p + a
  {
    AlignUpCorrect(p, a);
    p + (a - p % a) % a
  }

  /** No multiple of `a` lies between `p` and `AlignUp(p, a)`. */
  lemma AlignUpIsLeast(p: nat, a: nat)
    requires a > 0
    ensures forall k | p <= k < AlignUp(p, a) :: k % a != 0
  {
    AlignUpCorrect(p, a);
  }

  lemma AlignUpCorrect(p: nat, a: nat)
    requires a > 0
    ensures var r := p + (a - p % a) % a;
      && r % a == 0
      && p <= r < p + a
      && forall k | p <= k < r :: k % a != 0
  {
    var q, m := p / a, p % a;
    assert p == q * a + m;
    if m == 0 {
      assert (a - m) % a == 0;
    } else {
      ModUnique(a - m, a, 0, a - m);
      var r := p + (a - m);
      assert r == (q + 1) * a;
      ModUnique(r, a, q + 1, 0);
      forall k | p <= k < r
        ensures k % a != 0
      {
        ModUnique(k, a, q, m + (k - p));
      }
    }
  }

  /** The greatest multiple of `a` at or below `p`: where `alloc_pages`'s downward step loop stops. */
  function AlignDown(p: nat, a: nat): (r: nat)
    requires a > 0
    ensures r % a == 0
    ensures r <= p < r + a
  {
    AlignDownCorrect(p, a);
    p - p % a
  }

  /** No multiple of `a` lies above `AlignDown(p, a)` and at or below `p`. */
  lemma AlignDownIsGreatest(p: nat, a: nat)
    requires a > 0
    ensures forall k | AlignDown(p, a) < k <= p :: k % a != 0
  {
    AlignDownCorrect(p, a);
  }

  lemma AlignDownCorrect(p: nat, a: nat)
    requires a > 0
    ensures var r := p - p % a;
      && r % a == 0
      && r <= p < r + a
      && forall k | r < k <= p :: k % a != 0
  {
    var q, m := p / a, p % a;
    assert p == q * a + m;
    ModUnique(p - m, a, q, 0);
    forall k | p - m < k <= p
      ensures k % a != 0
    {
      ModUnique(k, a, q, k - (p - m));
    }
  }

  // ---------------------------------------------------------------------
  // Byte path of alloc
  // ---------------------------------------------------------------------

  /**
   * `alloc`'s test for one unit: after the cursor is stepped up to the
   * alignment, the request's last byte lies below the page cursor.
   */
  predicate FitsBytes(u: MemUnit, size: nat, align: nat)
    requires align > 0
  {
    AlignUp(u.ptrByte, align) + size - 1 < u.ptrPage
  }

  /**
   * The body of `alloc`'s scan for one unit: the byte cursor is stepped up
   * one address at a time until it is a multiple of `align`, then the
   * request's last byte is compared with the page cursor.
   */
  method ScanBytes(u: MemUnit, size: nat, align: nat) returns (fits: bool, frontAddr: nat)
    requires align > 0
    ensures fits == FitsBytes(u, size, align)
    ensures frontAddr == AlignUp(u.ptrByte, align)
  {
    AlignUpIsLeast(u.ptrByte, align);
    frontAddr := u.ptrByte;
    while frontAddr % align != 0
      invariant u.ptrByte <= frontAddr <= AlignUp(u.ptrByte, align)
      decreases AlignUp(u.ptrByte, align) - frontAddr
    {
      frontAddr := frontAddr + 1;
    }
    var backAddr := frontAddr + size - 1;
    fits := backAddr < u.ptrPage;
  }

  /** The index of the first unit, in table order, that admits the request. */
  function FirstByteFit(units: seq<MemUnit>, size: nat, align: nat): (r: Option<nat>)
    requires align > 0
    ensures r.Some? ==> r.value < |units| && FitsBytes(units[r.value], size, align)
    ensures r.Some? ==> forall k | 0 <= k < r.value :: !FitsBytes(units[k], size, align)
    ensures r.None? <==> forall k | 0 <= k < |units| :: !FitsBytes(units[k], size, align)
  {
    if units == [] then None
    else if FitsBytes(units[0], size, align) then Some(0)
    else
      match FirstByteFit(units[1..], size, align)
      case None => None
      case Some(i) => Some(i + 1)
  }

  /**
   * For every unit that `alloc`'s scan reaches, the aligned address and the
   * request's last byte lie below 2^64, so the scan computes `front_addr`
   * and `front_addr + size - 1` without overflowing `usize`. The scan
   * reaches unit `k` when no earlier unit fits.
   */
  predicate ByteRequestInRange(units: seq<MemUnit>, size: nat, align: nat)
    requires align > 0
  {
    forall k | 0 <= k < |units| && (forall j | 0 <= j < k :: !FitsBytes(units[j], size, align)) ::
      AlignUp(units[k].ptrByte, align) < POW64 && AlignUp(units[k].ptrByte, align) + size <= POW64
  }

  /** The unit after a successful byte allocation: the cursor moves by `size`, padding not counted. */
  function BumpBytes(u: MemUnit, size: nat): MemUnit {
    u.(ptrByte := u.ptrByte + size)
  }

  /**
   * What a successful `alloc` from unit `u` grants: an address that is a
   * multiple of `align`, at or above the byte cursor, whose last byte lies
   * below the page cursor; afterwards the byte cursor is still at or below
   * the page cursor and only it has moved.
   */
  lemma ByteBlockInUnit(u: MemUnit, size: nat, align: nat)
    requires align > 0 && FitsBytes(u, size, align)
    ensures var a := AlignUp(u.ptrByte, align);
      && a % align == 0
      && u.ptrByte <= a
      && a + size - 1 < u.ptrPage
      && u.ptrByte <= BumpBytes(u, size).ptrByte <= u.ptrPage
      && BumpBytes(u, size).ptrPage == u.ptrPage
  {
  }

  /**
   * Alignment padding is not charged: when the cursor was not aligned and the
   * padding is shorter than the block, the next byte allocation with
   * alignment 1 starts inside the block just granted.
   */
  lemma PaddingNotCharged(u: MemUnit, size: nat, align: nat)
    requires align > 0 && FitsBytes(u, size, align)
    requires u.ptrByte % align != 0 && AlignUp(u.ptrByte, align) - u.ptrByte < size
    ensures var a := AlignUp(u.ptrByte, align);
      var next := AlignUp(BumpBytes(u, size).ptrByte, 1);
      a <= next < a + size
  {
  }

  // ---------------------------------------------------------------------
  // Page path of alloc_pages
  // ---------------------------------------------------------------------

  /** `alloc_pages`'s parameter checks: a multiple of `PAGE_SIZE` whose page count is a power of two. */
  predicate PageAlignValid(alignPow2: nat, pageSize: nat)
    requires pageSize > 0
  {
    alignPow2 % pageSize == 0 && IsPowerOfTwo(alignPow2 / pageSize)
  }

  /**
   * The address `alloc_pages` returns from unit `u`: the page cursor rounded
   * down to `align`, then `n - 1` further pages down.
   */
  function PageBlockAddr(u: MemUnit, n: nat, align: nat, pageSize: nat): int
    requires align > 0
  {
    AlignDown(u.ptrPage, align) - (n - 1) * pageSize
  }

  /**
   * `alloc_pages`'s test for one unit: its page counter reaches `n` while the
   * walked address is still above the byte cursor. The counter is
   * incremented before it is compared, so `n == 0` never fits.
   */
  predicate FitsPages(u: MemUnit, n: nat, align: nat, pageSize: nat)
    requires align > 0
  {
    n >= 1 && PageBlockAddr(u, n, align, pageSize) > u.ptrByte
  }

  /**
   * The body of `alloc_pages`'s scan for one unit: the page cursor is stepped
   * down one address at a time until it is a multiple of `align`, then pages
   * are counted downward while the walked address stays above the byte
   * cursor, stopping as soon as the count reaches `n`.
   */
  method ScanPages(u: MemUnit, n: nat, align: nat, pageSize: nat) returns (fits: bool, frontAddr: nat)
    requires align > 0 && pageSize > 0 && pageSize <= u.ptrByte
    ensures fits == FitsPages(u, n, align, pageSize)
    ensures fits ==> frontAddr == PageBlockAddr(u, n, align, pageSize)
  {
    AlignDownIsGreatest(u.ptrPage, align);
    frontAddr := u.ptrPage;
    while frontAddr % align != 0
      invariant AlignDown(u.ptrPage, align) <= frontAddr <= u.ptrPage
      decreases frontAddr
    {
      frontAddr := frontAddr - 1;
    }
    var pageSz: nat := 0;
    while frontAddr > u.ptrByte
      invariant frontAddr == AlignDown(u.ptrPage, align) - pageSz * pageSize
      invariant n == 0 || pageSz < n
      decreases frontAddr
    {
      pageSz := pageSz + 1;
      if pageSz == n {
        return true, frontAddr;
      }
      frontAddr := frontAddr - pageSize;
    }
    if n > 0 {
      MulMono(pageSz, n - 1, pageSize);
    }
    fits := false;
  }

  /** Every byte cursor lies at or above one page, so the page walk's `front_addr - PAGE_SIZE` never goes below zero. */
  predicate CursorsAbovePage(us: seq<MemUnit>, pageSize: nat) {
    forall k | 0 <= k < |us| :: pageSize <= us[k].ptrByte
  }

  lemma ZeroPagesNeverFit(u: MemUnit, align: nat, pageSize: nat)
    requires align > 0
    ensures !FitsPages(u, 0, align, pageSize)
  {
  }

  /** The index of the first unit, in table order, that admits the page request. */
  function FirstPageFit(units: seq<MemUnit>, n: nat, align: nat, pageSize: nat): (r: Option<nat>)
    requires align > 0
    ensures r.Some? ==> r.value < |units| && FitsPages(units[r.value], n, align, pageSize)
    ensures r.Some? ==> forall k | 0 <= k < r.value :: !FitsPages(units[k], n, align, pageSize)
    ensures r.None? <==> forall k | 0 <= k < |units| :: !FitsPages(units[k], n, align, pageSize)
  {
    if units == [] then None
    else if FitsPages(units[0], n, align, pageSize) then Some(0)
    else
      match FirstPageFit(units[1..], n, align, pageSize)
      case None => None
      case Some(i) => Some(i + 1)
  }

  /** The unit after a successful page allocation: the page cursor drops to the page below the block. */
  function TakePages(u: MemUnit, n: nat, align: nat, pageSize: nat): MemUnit
    requires align > 0 && FitsPages(u, n, align, pageSize) && pageSize <= u.ptrByte
  {
    u.(ptrPage := PageBlockAddr(u, n, align, pageSize) - pageSize)
  }

  lemma MulPred(n: nat, p: nat)
    requires n >= 1
    ensures (n - 1) * p + p == n * p
  {
  }

  /**
   * What a successful `alloc_pages` from unit `u` grants: the block
   * `[a, a + n * PAGE_SIZE)` starts above the byte cursor, its top page starts
   * at a multiple of `align`, it ends at or below the end of the cursor's
   * page, and the page cursor moves strictly down to the page just below it.
   */
  lemma PageBlockInUnit(u: MemUnit, n: nat, align: nat, pageSize: nat)
    requires align > 0 && pageSize > 0 && pageSize <= u.ptrByte
    requires FitsPages(u, n, align, pageSize)
    ensures var a := PageBlockAddr(u, n, align, pageSize);
      && u.ptrByte < a
      && (a + (n - 1) * pageSize) % align == 0
      && a + n * pageSize <= u.ptrPage + pageSize
      && TakePages(u, n, align, pageSize).ptrPage + pageSize == a
      && TakePages(u, n, align, pageSize).ptrPage < u.ptrPage
      && TakePages(u, n, align, pageSize).ptrByte == u.ptrByte
  {
    MulPred(n, pageSize);
  }

  /**
   * Two successive page allocations from one unit give disjoint blocks: the
   * second ends at or below the start of the first.
   */
  lemma {:induction false} SuccessivePageBlocksDisjoint(u: MemUnit, n: nat, m: nat, align: nat, pageSize: nat)
    requires align > 0 && pageSize > 0 && pageSize <= u.ptrByte
    requires FitsPages(u, n, align, pageSize)
    requires FitsPages(TakePages(u, n, align, pageSize), m, align, pageSize)
    ensures PageBlockAddr(TakePages(u, n, align, pageSize), m, align, pageSize) + m * pageSize
            <= PageBlockAddr(u, n, align, pageSize)
  {
    PageBlockInUnit(u, n, align, pageSize);
    PageBlockInUnit(TakePages(u, n, align, pageSize), m, align, pageSize);
  }

  /**
   * A byte allocation admitted after a page allocation from the same unit
   * ends below the page block: `alloc` tests against the lowered page cursor.
   */
  lemma LaterBytesBelowPages(u: MemUnit, n: nat, align: nat, pageSize: nat, size: nat, byteAlign: nat)
    requires align > 0 && pageSize > 0 && pageSize <= u.ptrByte && byteAlign > 0
    requires FitsPages(u, n, align, pageSize)
    requires FitsBytes(TakePages(u, n, align, pageSize), size, byteAlign)
    ensures AlignUp(u.ptrByte, byteAlign) + size < PageBlockAddr(u, n, align, pageSize)
  {
    PageBlockInUnit(u, n, align, pageSize);
  }

  /**
   * With a `PAGE_SIZE` that is a multiple of 64 (4096 on the kernel's
   * targets), every alignment that passes `alloc_pages`'s checks makes
   * `1 << align_pow2` equal to 1, so the rounding-down loop never moves.
   */
  lemma ShiftedAlignIsOne(alignPow2: nat, pageSize: nat)
    requires pageSize > 0 && pageSize % 64 == 0 && PageAlignValid(alignPow2, pageSize)
    ensures Shl1(alignPow2) == 1
  {
    var q := alignPow2 / pageSize;
    var t := pageSize / 64;
    assert alignPow2 == q * pageSize;
    assert pageSize == 64 * t;
    assert alignPow2 == 64 * (q * t);
  }

  // ---------------------------------------------------------------------
  // Sums over the region table, for the counters
  // ---------------------------------------------------------------------

  function Sum(s: seq<int>): int {
    if s == [] then 0 else Sum(s[..|s| - 1]) + s[|s| - 1]
  }

  lemma {:induction false} SumAppend(s: seq<int>, x: int)
    ensures Sum(s + [x]) == Sum(s) + x
  {
    assert (s + [x])[..|s|] == s;
  }

  lemma {:induction false} SumUpdate(s: seq<int>, i: nat, x: int)
    requires i < |s|
    ensures Sum(s[i := x]) == Sum(s) - s[i] + x
    decreases |s|
  {
    if i < |s| - 1 {
      assert s[i := x][..|s| - 1] == s[..|s| - 1][i := x];
      SumUpdate(s[..|s| - 1], i, x);
    } else {
      assert s[i := x][..|s| - 1] == s[..|s| - 1];
    }
  }

  lemma {:induction false} SumNonNegative(s: seq<int>)
    requires forall k | 0 <= k < |s| :: s[k] >= 0
    ensures Sum(s) >= 0
    decreases |s|
  {
    if s != [] {
      SumNonNegative(s[..|s| - 1]);
    }
  }

  /** The sum of pointwise differences is the difference of the sums. */
  lemma {:induction false} SumDiff(s: seq<int>, t: seq<int>, d: seq<int>)
    requires |s| == |t| == |d|
    requires forall k | 0 <= k < |d| :: d[k] == s[k] - t[k]
    ensures Sum(d) == Sum(s) - Sum(t)
    decreases |s|
  {
    if s != [] {
      var n := |s| - 1;
      SumDiff(s[..n], t[..n], d[..n]);
    }
  }

  /** The donated sizes, per unit. */
  function SizesOf(us: seq<MemUnit>): (r: seq<int>)
    ensures |r| == |us| && forall k | 0 <= k < |us| :: r[k] == us[k].size
  {
    seq(|us|, k requires 0 <= k < |us| => us[k].size)
  }

  /** The whole pages of each unit, as counted by `size / PAGE_SIZE`. */
  function PagesOf(us: seq<MemUnit>, pageSize: nat): (r: seq<int>)
    requires pageSize > 0
    ensures |r| == |us| && forall k | 0 <= k < |us| :: r[k] == us[k].size / pageSize
  {
    seq(|us|, k requires 0 <= k < |us| => us[k].size / pageSize)
  }

  /** The distance each byte cursor has moved from its unit's original start. */
  function BytesTaken(us: seq<MemUnit>, starts: seq<nat>): (r: seq<int>)
    requires |starts| == |us|
    ensures |r| == |us| && forall k | 0 <= k < |us| :: r[k] == us[k].ptrByte - starts[k]
  {
    seq(|us|, k requires 0 <= k < |us| => us[k].ptrByte - starts[k])
  }

  /** The bytes of each unit its byte cursor has not passed. */
  function BytesLeft(us: seq<MemUnit>, starts: seq<nat>): (r: seq<int>)
    requires |starts| == |us|
    ensures |r| == |us| && forall k | 0 <= k < |us| :: r[k] == us[k].size - (us[k].ptrByte - starts[k])
  {
    seq(|us|, k requires 0 <= k < |us| => us[k].size - (us[k].ptrByte - starts[k]))
  }

  /** The whole pages of each unit not yet granted. */
  function PagesLeft(us: seq<MemUnit>, taken: seq<nat>, pageSize: nat): (r: seq<int>)
    requires pageSize > 0 && |taken| == |us|
    ensures |r| == |us| && forall k | 0 <= k < |us| :: r[k] == us[k].size / pageSize - taken[k]
  {
    seq(|us|, k requires 0 <= k < |us| => us[k].size / pageSize - taken[k])
  }

  /** `a * p < s` bounds `a` by the whole pages of `s`. */
  lemma PagesBound(a: nat, p: nat, s: nat)
    requires p > 0 && a * p < s
    ensures a <= s / p
  {
    var q := s / p;
    assert s == q * p + s % p;
    if a >= q + 1 {
      MulMono(q + 1, a, p);
    }
  }
}
