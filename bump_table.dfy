/**
 * The invariant of the allocator's region table, stated on values: what
 * each unit, its original start and its page grants satisfy, the counters
 * as sums over the units, and the lemmas that each committing step of the
 * allocator keeps it.
 *
 * The per-unit and per-grant facts are wrapped in predicates of their own
 * (UnitOk, GrantOk, GrantsApart), so that a proof instantiates the
 * invariant only at the units and grants it names.
 */
module BumpTable {
  import opened Usize
  import opened BumpUnits

  /** What the allocator keeps true of unit `u` with original start `start` and `pages` pages granted. */
  ghost predicate UnitValid(u: MemUnit, start: nat, pages: nat, pageSize: nat) {
    && pageSize <= start <= u.ptrByte
    && pageSize <= u.size && start + u.size <= POW64
    && u.ptrByte < u.ptrPage + pageSize
    && u.ptrPage + pageSize + pages * pageSize <= start + u.size
  }

  /** Unit `k` of the table is valid with its start and its page count. */
  ghost predicate UnitOk(us: seq<MemUnit>, starts: seq<nat>, taken: seq<nat>, pageSize: nat, k: int) {
    0 <= k < |us| && k < |starts| && k < |taken| && UnitValid(us[k], starts[k], taken[k], pageSize)
  }

  /** Grant `j` names a unit of the table and lies above that unit's page cursor and within its range. */
  ghost predicate GrantOk(us: seq<MemUnit>, starts: seq<nat>, grants: seq<PageGrant>, pageSize: nat, j: int) {
    && 0 <= j < |grants|
    && grants[j].unit < |us| && grants[j].unit < |starts|
    && us[grants[j].unit].ptrPage + pageSize <= grants[j].addr
    && grants[j].addr + grants[j].count * pageSize <= starts[grants[j].unit] + us[grants[j].unit].size
  }

  /** Of grants `i` and `j` (`i` earlier) from one unit, the later one ends at or below the start of the earlier one. */
  ghost predicate GrantsApart(grants: seq<PageGrant>, pageSize: nat, i: int, j: int) {
    0 <= i < j < |grants| && grants[i].unit == grants[j].unit ==>
      grants[j].addr + grants[j].count * pageSize <= grants[i].addr
  }

  /** The invariant of the region table and its ghost companions. */
  ghost predicate TableValid(us: seq<MemUnit>, starts: seq<nat>, taken: seq<nat>, grants: seq<PageGrant>, pageSize: nat) {
    && pageSize > 0
    && |us| <= MAX_UNITS && |starts| == |us| && |taken| == |us|
    && (forall k | 0 <= k < |us| :: UnitOk(us, starts, taken, pageSize, k))
    && (forall j | 0 <= j < |grants| :: GrantOk(us, starts, grants, pageSize, j))
    && (forall i, j :: GrantsApart(grants, pageSize, i, j))
  }

  /** Every byte cursor of a valid table lies at or above one page, so the page walk never goes below zero. */
  lemma ByteCursorsAbovePage(us: seq<MemUnit>, starts: seq<nat>, taken: seq<nat>, grants: seq<PageGrant>, pageSize: nat)
    requires TableValid(us, starts, taken, grants, pageSize)
    ensures pageSize > 0 && CursorsAbovePage(us, pageSize)
  {
    forall k | 0 <= k < |us|
      ensures pageSize <= us[k].ptrByte
    {
      assert UnitOk(us, starts, taken, pageSize, k);
    }
  }

  /** The units' byte cursors have together moved at most the donated total; the rest is what they have not passed. */
  lemma BytesTakenBounded(us: seq<MemUnit>, starts: seq<nat>, taken: seq<nat>, grants: seq<PageGrant>, pageSize: nat)
    requires TableValid(us, starts, taken, grants, pageSize)
    ensures Sum(BytesTaken(us, starts)) <= Sum(SizesOf(us))
    ensures Sum(SizesOf(us)) - Sum(BytesTaken(us, starts)) == Sum(BytesLeft(us, starts))
  {
    forall k | 0 <= k < |us|
      ensures BytesLeft(us, starts)[k] >= 0
    {
      assert UnitOk(us, starts, taken, pageSize, k);
    }
    SumDiff(SizesOf(us), BytesTaken(us, starts), BytesLeft(us, starts));
    SumNonNegative(BytesLeft(us, starts));
  }

  /** The pages granted from the units are together at most their whole pages; the rest is what is left. */
  lemma PagesTakenBounded(us: seq<MemUnit>, starts: seq<nat>, taken: seq<nat>, grants: seq<PageGrant>, pageSize: nat)
    requires TableValid(us, starts, taken, grants, pageSize)
    ensures Sum(taken) <= Sum(PagesOf(us, pageSize))
    ensures Sum(PagesOf(us, pageSize)) - Sum(taken) == Sum(PagesLeft(us, taken, pageSize))
  {
    forall k | 0 <= k < |us|
      ensures taken[k] <= us[k].size / pageSize
    {
      assert UnitOk(us, starts, taken, pageSize, k);
      PagesBound(taken[k], pageSize, us[k].size);
    }
    SumDiff(PagesOf(us, pageSize), taken, PagesLeft(us, taken, pageSize));
    SumNonNegative(PagesLeft(us, taken, pageSize));
  }

  /** A unit appended by `init` or `add_memory` keeps the table invariant and adds to the sums. */
  lemma AppendUnitKeepsTable(us: seq<MemUnit>, starts: seq<nat>, taken: seq<nat>, grants: seq<PageGrant>,
                             pageSize: nat, start: nat, size: nat)
    requires TableValid(us, starts, taken, grants, pageSize) && |us| < MAX_UNITS
    requires pageSize <= start && pageSize <= size && start + size <= POW64
    ensures var us' := us + [NewUnit(start, size, pageSize)];
      && TableValid(us', starts + [start], taken + [0], grants, pageSize)
      && Sum(SizesOf(us')) == Sum(SizesOf(us)) + size
      && Sum(PagesOf(us', pageSize)) == Sum(PagesOf(us, pageSize)) + size / pageSize
      && Sum(BytesTaken(us', starts + [start])) == Sum(BytesTaken(us, starts))
      && Sum(taken + [0]) == Sum(taken)
  {
    AppendUnitKeepsUnits(us, starts, taken, grants, pageSize, start, size);
    AppendUnitSums(us, starts, taken, pageSize, start, size);
  }

  /** The table part of appending a unit: the old units, their grants and the new unit are all well formed. */
  lemma AppendUnitKeepsUnits(us: seq<MemUnit>, starts: seq<nat>, taken: seq<nat>, grants: seq<PageGrant>,
                             pageSize: nat, start: nat, size: nat)
    requires TableValid(us, starts, taken, grants, pageSize) && |us| < MAX_UNITS
    requires pageSize <= start && pageSize <= size && start + size <= POW64
    ensures TableValid(us + [NewUnit(start, size, pageSize)], starts + [start], taken + [0], grants, pageSize)
  {
    var us', starts', taken' := us + [NewUnit(start, size, pageSize)], starts + [start], taken + [0];
    forall k | 0 <= k < |us'|
      ensures UnitOk(us', starts', taken', pageSize, k)
    {
      if k < |us| {
        assert UnitOk(us, starts, taken, pageSize, k);
        assert us'[k] == us[k] && starts'[k] == starts[k] && taken'[k] == taken[k];
      }
    }
    forall j | 0 <= j < |grants|
      ensures GrantOk(us', starts', grants, pageSize, j)
    {
      assert GrantOk(us, starts, grants, pageSize, j);
      assert us'[grants[j].unit] == us[grants[j].unit] && starts'[grants[j].unit] == starts[grants[j].unit];
    }
  }

  /** The counter part of appending a unit: its size and pages are added, nothing is yet taken from it. */
  lemma AppendUnitSums(us: seq<MemUnit>, starts: seq<nat>, taken: seq<nat>,
                       pageSize: nat, start: nat, size: nat)
    requires |us| == |starts| && pageSize > 0 && pageSize <= size
    ensures var us' := us + [NewUnit(start, size, pageSize)];
      && Sum(SizesOf(us')) == Sum(SizesOf(us)) + size
      && Sum(PagesOf(us', pageSize)) == Sum(PagesOf(us, pageSize)) + size / pageSize
      && Sum(BytesTaken(us', starts + [start])) == Sum(BytesTaken(us, starts))
      && Sum(taken + [0]) == Sum(taken)
  {
    var us' := us + [NewUnit(start, size, pageSize)];
    assert SizesOf(us') == SizesOf(us) + [size];
    SumAppend(SizesOf(us), size);
    assert PagesOf(us', pageSize) == PagesOf(us, pageSize) + [size / pageSize];
    SumAppend(PagesOf(us, pageSize), size / pageSize);
    assert BytesTaken(us', starts + [start]) == BytesTaken(us, starts) + [0];
    SumAppend(BytesTaken(us, starts), 0);
    SumAppend(taken, 0);
  }

  /** A successful byte allocation from unit `i` keeps the table invariant and adds `size` to the bytes taken. */
  lemma BumpBytesKeepsTable(us: seq<MemUnit>, starts: seq<nat>, taken: seq<nat>, grants: seq<PageGrant>,
                            pageSize: nat, i: nat, size: nat, align: nat)
    requires TableValid(us, starts, taken, grants, pageSize) && i < |us|
    requires align > 0 && FitsBytes(us[i], size, align)
    ensures var us' := us[i := BumpBytes(us[i], size)];
      && TableValid(us', starts, taken, grants, pageSize)
      && SizesOf(us') == SizesOf(us)
      && PagesOf(us', pageSize) == PagesOf(us, pageSize)
      && Sum(BytesTaken(us', starts)) == Sum(BytesTaken(us, starts)) + size
  {
    var us' := us[i := BumpBytes(us[i], size)];
    ByteBlockInUnit(us[i], size, align);
    assert UnitOk(us, starts, taken, pageSize, i);
    forall k | 0 <= k < |us'|
      ensures UnitOk(us', starts, taken, pageSize, k)
    {
      if k != i {
        assert UnitOk(us, starts, taken, pageSize, k);
      }
    }
    forall j | 0 <= j < |grants|
      ensures GrantOk(us', starts, grants, pageSize, j)
    {
      assert GrantOk(us, starts, grants, pageSize, j);
    }
    assert SizesOf(us') == SizesOf(us);
    assert PagesOf(us', pageSize) == PagesOf(us, pageSize);
    var x := us[i].ptrByte + size - starts[i];
    assert BytesTaken(us', starts) == BytesTaken(us, starts)[i := x];
    SumUpdate(BytesTaken(us, starts), i, x);
  }

  /**
   * A successful page allocation of `n` pages from unit `i` keeps the table
   * invariant, including the disjointness of the recorded grants.
   */
  lemma TakePagesKeepsTable(us: seq<MemUnit>, starts: seq<nat>, taken: seq<nat>, grants: seq<PageGrant>,
                            pageSize: nat, i: nat, n: nat, align: nat)
    requires TableValid(us, starts, taken, grants, pageSize) && i < |us|
    requires align > 0 && FitsPages(us[i], n, align, pageSize)
    ensures pageSize <= us[i].ptrByte
    ensures var us' := us[i := TakePages(us[i], n, align, pageSize)];
      var g := PageGrant(i, PageBlockAddr(us[i], n, align, pageSize), n);
      && TableValid(us', starts, taken[i := taken[i] + n], grants + [g], pageSize)
      && SizesOf(us') == SizesOf(us)
      && PagesOf(us', pageSize) == PagesOf(us, pageSize)
      && BytesTaken(us', starts) == BytesTaken(us, starts)
      && Sum(taken[i := taken[i] + n]) == Sum(taken) + n
  {
    assert UnitOk(us, starts, taken, pageSize, i);
    var us' := us[i := TakePages(us[i], n, align, pageSize)];
    TakePagesKeepsUnits(us, starts, taken, grants, pageSize, i, n, align, us', taken[i := taken[i] + n]);
    TakePagesKeepsGrants(us, starts, taken, grants, pageSize, i, n, align,
                         us', grants + [PageGrant(i, PageBlockAddr(us[i], n, align, pageSize), n)]);
    assert SizesOf(us') == SizesOf(us);
    assert PagesOf(us', pageSize) == PagesOf(us, pageSize);
    assert BytesTaken(us', starts) == BytesTaken(us, starts);
    SumUpdate(taken, i, taken[i] + n);
  }

  /** The unit part of a page allocation: every unit, the lowered one included, stays valid. */
  lemma TakePagesKeepsUnits(us: seq<MemUnit>, starts: seq<nat>, taken: seq<nat>, grants: seq<PageGrant>,
                            pageSize: nat, i: nat, n: nat, align: nat, us': seq<MemUnit>, taken': seq<nat>)
    requires TableValid(us, starts, taken, grants, pageSize) && i < |us|
    requires align > 0 && FitsPages(us[i], n, align, pageSize)
    requires pageSize <= us[i].ptrByte
    requires us' == us[i := TakePages(us[i], n, align, pageSize)] && taken' == taken[i := taken[i] + n]
    ensures forall k | 0 <= k < |us'| :: UnitOk(us', starts, taken', pageSize, k)
  {
    var u := us[i];
    assert UnitOk(us, starts, taken, pageSize, i);
    PageBlockInUnit(u, n, align, pageSize);
    var u' := us'[i];
    assert UnitValid(u', starts[i], taken'[i], pageSize) by {
      assert (taken[i] + n) * pageSize == taken[i] * pageSize + n * pageSize;
    }
    forall k | 0 <= k < |us'|
      ensures UnitOk(us', starts, taken', pageSize, k)
    {
      if k != i {
        assert UnitOk(us, starts, taken, pageSize, k);
      }
    }
  }

  /** The grant part of a page allocation: old and new grants stay well formed and apart. */
  lemma TakePagesKeepsGrants(us: seq<MemUnit>, starts: seq<nat>, taken: seq<nat>, grants: seq<PageGrant>,
                             pageSize: nat, i: nat, n: nat, align: nat, us': seq<MemUnit>, grants': seq<PageGrant>)
    requires TableValid(us, starts, taken, grants, pageSize) && i < |us|
    requires align > 0 && FitsPages(us[i], n, align, pageSize)
    requires pageSize <= us[i].ptrByte
    requires us' == us[i := TakePages(us[i], n, align, pageSize)]
    requires grants' == grants + [PageGrant(i, PageBlockAddr(us[i], n, align, pageSize), n)]
    ensures forall j | 0 <= j < |grants'| :: GrantOk(us', starts, grants', pageSize, j)
    ensures forall j, k :: GrantsApart(grants', pageSize, j, k)
  {
    var u := us[i];
    assert UnitOk(us, starts, taken, pageSize, i);
    PageBlockInUnit(u, n, align, pageSize);
    var g := grants'[|grants|];
    forall j | 0 <= j < |grants'|
      ensures GrantOk(us', starts, grants', pageSize, j)
    {
      if j < |grants| {
        assert grants'[j] == grants[j];
        assert GrantOk(us, starts, grants, pageSize, j);
      }
    }
    forall j, k
      ensures GrantsApart(grants', pageSize, j, k)
    {
      if 0 <= j < k < |grants'| && grants'[j].unit == grants'[k].unit {
        if k == |grants| {
          assert grants'[j] == grants[j];
          assert grants'[k] == g;
          assert GrantOk(us, starts, grants, pageSize, j);
        } else {
          assert grants'[j] == grants[j] && grants'[k] == grants[k];
          assert GrantsApart(grants, pageSize, j, k);
        }
      }
    }
  }

}
