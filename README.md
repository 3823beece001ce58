# Early allocator and `MyHashMap`, modelled in Dafny

This project models two components of the ArceOS teaching kernel and proves
properties of the models.

**`EarlyAllocator<PAGE_SIZE>`** (`bump_allocator` module of the kernel) is the
boot-time allocator. It serves memory before the real byte and page allocators
are up.
- It keeps a fixed table of 8192 memory units, each a donated range with two
  cursors.
- Bytes are taken upward from a unit's byte cursor; pages are taken downward
  from its page cursor.
- Requests scan the table in insertion order and go to the first unit that
  admits them.
- `add_memory` appends a unit after an endpoint overlap test.
- Nothing is ever given back: both `dealloc` and `dealloc_pages` do nothing.
- Four counters track total and used bytes and total and used pages.

**`MyHashMap<K, V>`** (`axstd`'s `my_collections`) is a separate-chaining hash
map.
- A key's bucket is a base-31 Horner sum over the bytes of its string form,
  taken modulo the capacity.
- `insert` overwrites the value of a key already in its bucket. Otherwise it
  appends the pair, and once the map holds more than three quarters of its
  capacity it appends as many empty buckets as there already are.
- `iter` returns an iterator over a snapshot of all entries.

Files, each one module:

- `wrappers.dfy`: `Option`.
- `usize.dfy`: the 64-bit `usize` range, powers of two, `is_power_of_two`,
  and `1 << s`.
- `bump_units.dfy`: one memory unit as a value, and the arithmetic of every
  allocator operation. This covers the overlap test, the alignment loops, the
  first-fit choices (as recursive functions), the per-unit scan bodies
  `ScanBytes` and `ScanPages` (as methods with loops) and the page-block
  arithmetic.
- `bump_table.dfy`: the invariant of the region table, stated on values, and
  the lemmas that each committing step keeps it.
- `bump_steps.dfy`: each allocator operation as a function on the whole state (a
  `Ledger`), with lemmas for what each operation promises.
- `bump_allocator.dfy`: the class `EarlyAllocator`.
  - It keeps the Rust struct's fields, with the table as an `array`.
  - The table-wide scans `FindOverlap`, `FindBytes` and `FindPages` are
    methods with loops, proved equal to `HitsAny` and to the first-fit
    functions.
  - Every method is proved to follow the matching step function.
  - Ghost fields record each unit's original start, the pages granted from
    each unit, and the list of page grants.
- `my_collections.dfy`: the map as a value (`Table`) with its step function and
  lemmas, and the classes `MyHashMap` and `MyHashMapIterator`.

**Modelling choices:**
- Addresses and counters are unbounded naturals. The preconditions keep every
  region below 2^64.
- `PAGE_SIZE` is a positive constant, passed to the constructor.
- `1_usize << align_pow2` is `2^(align_pow2 % 64)`, the release-build masking of
  the shift amount. With any `PAGE_SIZE` that is a multiple of 64, every
  alignment that passes the checks therefore makes the page alignment 1
  (`ShiftedAlignIsOne`).
- The hash sum wraps modulo 2^64 at every step, as release-build `usize`
  arithmetic does.
- A key's string form is a function `keyBytes: K -> seq<bv8>`, fixed when the map
  is created.
- The map's field `map` is called `buckets`, because `map` is a Dafny keyword.

Behaviours of the code that the model keeps as they are:

- **Overlap test.** It checks only whether the new range's first or last byte
  lies in an existing unit's window `[ptr_byte, ptr_byte + size - 1]`. That
  window starts at the unit's current byte cursor, not at the region's start.
  - A range that encloses an old one, or that lies in bytes already handed
    out, is accepted (`EnclosingRangeAccepted`, `HandedOutBytesNotGuarded`).
    So donated regions need not be disjoint, and the invariant does not claim
    they are.
  - Once a unit has handed out bytes, its window runs past the end of its
    region. A range that starts right where the region ends, and so shares no
    address with it, is then rejected (`AdjacentRangeRejected`, and the
    concrete case `DisjointRangeRejected`).
- **Alignment padding is not charged.** `alloc` moves the byte cursor by
  `size`, not by the padding plus `size`.
  - An aligned byte block may overlap a later one (`PaddingNotCharged`).
  - A byte block may also be reused by a later page block
    (`PaddingLetsPagesOverlapBytes`, a concrete case).
  - So disjointness is proved only for page blocks granted from one unit, not
    for byte blocks.
- **Address returned by `alloc`.** It is the aligned address, at or above the
  byte cursor.
- **Address returned by `alloc_pages`.** It is the start of the lowest page of the
  block: the page cursor is rounded down to the alignment, then taken down by
  `num_pages - 1` further pages.
- **Freeing.** The doc comment says the byte area is freed when an allocation
  count reaches zero. No such count exists, and `dealloc` is empty.
- **Hashcode comment.** The comment in `hashcode` gives byte `i` the weight
  `31^i`, but the loop gives the first byte the highest power
  (`HornerIsPolynomial`, `FirstByteWeighsMost`).
- **Growth does not rehash.**
  - Old entries stay in the bucket they were in. So the invariant is only
    that an entry sits in a bucket its key was sent to under the current
    capacity or under one of the earlier ones.
  - Keys are distinct within a bucket, but not across the table: after a
    growth, inserting a stored key again can add a second pair for it
    (`ReinsertAfterGrowthDuplicates`).

## Model

| member | source | states |
|---|---|---|
| `Usize.Shl1` | arceos/modules/bump_allocator/src/lib.rs:159 | `1 << s` is a positive power of two, namely `2^s` whenever `s < 64` |
| `Usize.PowerOfTwoIff` | arceos/modules/bump_allocator/src/lib.rs:162 | `is_power_of_two(n)` holds exactly when `n == 2^k` for some `k`; 0 is not a power of two |
| `BumpUnits.EnclosingRangeAccepted` | arceos/modules/bump_allocator/src/lib.rs:85-89 | a new range that strictly encloses a unit's window passes the overlap test |
| `BumpUnits.HandedOutBytesNotGuarded` | arceos/modules/bump_allocator/src/lib.rs:86-87 | a new range lying wholly below a unit's byte cursor passes the overlap test |
| `BumpUnits.AdjacentRangeRejected` | arceos/modules/bump_allocator/src/lib.rs:86-87 | once a unit's byte cursor has moved, a range starting right where its region ends is hit by the overlap test |
| `BumpUnits.AlignUp` | arceos/modules/bump_allocator/src/lib.rs:112-115 | where `alloc`'s upward step loop stops: a multiple of `align` that is at least the cursor and less than `align` above it |
| `BumpUnits.AlignUpIsLeast` | arceos/modules/bump_allocator/src/lib.rs:113-115 | no multiple of `align` lies between the cursor and where the loop stops |
| `BumpUnits.AlignDown` | arceos/modules/bump_allocator/src/lib.rs:167-170 | where `alloc_pages`'s downward step loop stops: a multiple of `align` at most the cursor and less than `align` below it |
| `BumpUnits.AlignDownIsGreatest` | arceos/modules/bump_allocator/src/lib.rs:168-170 | no multiple of `align` lies above where the loop stops and at or below the cursor |
| `BumpUnits.ScanBytes` | arceos/modules/bump_allocator/src/lib.rs:112-117 | the step loop yields the aligned address, and the unit fits exactly when the request's last byte lies below the page cursor |
| `BumpUnits.FirstByteFit` | arceos/modules/bump_allocator/src/lib.rs:111-124 | the unit picked fits and no earlier unit does; none is picked exactly when no unit fits |
| `BumpUnits.ByteBlockInUnit` | arceos/modules/bump_allocator/src/lib.rs:112-118 | a granted byte block is aligned, starts at or above the byte cursor and ends below the page cursor; only the byte cursor moves, and it stays at or below the page cursor |
| `BumpUnits.PaddingNotCharged` | arceos/modules/bump_allocator/src/lib.rs:118 | when padding was skipped and is shorter than the block, the next byte cursor lies inside the block just granted |
| `BumpUnits.ScanPages` | arceos/modules/bump_allocator/src/lib.rs:167-180 | the two step loops decide fit exactly as the page-fit test does, and on a fit yield the block's lowest page address |
| `BumpUnits.ZeroPagesNeverFit` | arceos/modules/bump_allocator/src/lib.rs:171-174 | a request for 0 pages never fits any unit, because the count is incremented before it is compared |
| `BumpUnits.FirstPageFit` | arceos/modules/bump_allocator/src/lib.rs:166-181 | the unit picked admits the pages and no earlier unit does; none is picked exactly when no unit admits them |
| `BumpUnits.PageBlockInUnit` | arceos/modules/bump_allocator/src/lib.rs:172-178 | a page block starts above the byte cursor, its top page is aligned, and it ends at or below the end of the cursor's page; the page cursor drops strictly, to the page just below the block, and the byte cursor is unchanged |
| `BumpUnits.SuccessivePageBlocksDisjoint` | arceos/modules/bump_allocator/src/lib.rs:166-178 | two successive page allocations from one unit give disjoint blocks, the second below the first |
| `BumpUnits.LaterBytesBelowPages` | arceos/modules/bump_allocator/src/lib.rs:111-178 | a byte block admitted after a page allocation from the same unit ends below that page block |
| `BumpUnits.ShiftedAlignIsOne` | arceos/modules/bump_allocator/src/lib.rs:156-162 | with `PAGE_SIZE` a multiple of 64, every accepted `align_pow2` makes `1 << align_pow2` equal to 1 |
| `BumpTable.ByteCursorsAbovePage` | arceos/modules/bump_allocator/src/lib.rs:172-179 | in a valid table every byte cursor is at least one page, so the downward page walk never goes below zero |
| `BumpTable.BytesTakenBounded` | arceos/modules/bump_allocator/src/lib.rs:145-147 | the bytes the cursors have moved are at most the donated total, and the difference is the sum of the bytes the cursors have not passed |
| `BumpTable.PagesTakenBounded` | arceos/modules/bump_allocator/src/lib.rs:202-204 | the pages granted are at most the whole pages donated, and the difference is the sum of the whole pages not yet granted |
| `BumpTable.AppendUnitKeepsTable` | arceos/modules/bump_allocator/src/lib.rs:92-99 | appending a unit keeps the table invariant, adds its size and its whole pages to the sums, and leaves the bytes and pages taken unchanged |
| `BumpTable.AppendUnitKeepsUnits` | arceos/modules/bump_allocator/src/lib.rs:92-96 | the old units, their grants and the new unit all satisfy the table invariant |
| `BumpTable.AppendUnitSums` | arceos/modules/bump_allocator/src/lib.rs:98-99 | the new unit adds its size and its whole pages to the sums and nothing to what is taken |
| `BumpTable.BumpBytesKeepsTable` | arceos/modules/bump_allocator/src/lib.rs:118-119 | a byte allocation keeps the table invariant and the size and page sums, and adds exactly `size` to the bytes taken |
| `BumpTable.TakePagesKeepsTable` | arceos/modules/bump_allocator/src/lib.rs:175-176 | a page allocation keeps the table invariant, including the disjointness of the recorded grants, and adds exactly `n` to the pages taken |
| `BumpTable.TakePagesKeepsUnits` | arceos/modules/bump_allocator/src/lib.rs:175-176 | after a page allocation every unit stays valid; the lowered unit's page cursor plus its granted pages still fit in its region |
| `BumpTable.TakePagesKeepsGrants` | arceos/modules/bump_allocator/src/lib.rs:175-177 | after a page allocation every grant, old and new, lies above its unit's page cursor and within its region, and grants from one unit stay apart |
| `BumpSteps.InitKeepsInv` | arceos/modules/bump_allocator/src/lib.rs:68-79 | `init` on an empty table writes the single unit `(start, start + size - PAGE_SIZE, size)` and keeps the invariant, including the totals, which it sets |
| `BumpSteps.AppendUnitKeepsInv` | arceos/modules/bump_allocator/src/lib.rs:92-101 | appending a unit keeps the invariant, whatever the overlap test says |
| `BumpSteps.AddMemoryKeepsInv` | arceos/modules/bump_allocator/src/lib.rs:82-102 | `add_memory` keeps the invariant, also on a full table when the range is rejected; a rejection changes nothing; a success adds the size to the byte total and the whole pages to the page total |
| `BumpSteps.AllocKeepsInv` | arceos/modules/bump_allocator/src/lib.rs:107-127 | `alloc` keeps the invariant; `used_bytes` grows by `size` on success; a failure changes nothing; both totals, the page grants and `used_pages` are unchanged; it fails exactly when no unit fits |
| `BumpSteps.AllocGrantsBlockBelowPages` | arceos/modules/bump_allocator/src/lib.rs:111-122 | the address `alloc` returns from the unit it picks is aligned and lies inside the region that unit came from; the block ends at or below the page cursor and below every page block granted from that unit |
| `BumpSteps.TakeFromKeepsInv` | arceos/modules/bump_allocator/src/lib.rs:175-177 | granting pages from a unit that admits them keeps the invariant |
| `BumpSteps.AllocAlignedPagesKeepsInv` | arceos/modules/bump_allocator/src/lib.rs:166-183 | the page scan and commit keep the invariant, both totals and `used_bytes`, and charge exactly the pages granted |
| `BumpSteps.AllocPagesKeepsInv` | arceos/modules/bump_allocator/src/lib.rs:155-184 | `alloc_pages` keeps the invariant, both totals and `used_bytes`, and never lowers `used_pages`; a failure changes nothing; it returns `InvalidParam` exactly when the alignment checks fail and `NoMemory` exactly when they pass but no unit admits the pages |
| `BumpSteps.AllocPagesGrantsFreshBlock` | arceos/modules/bump_allocator/src/lib.rs:166-178 | the block `alloc_pages` returns holds at least one page, starts above the unit's byte cursor, ends within the region, and ends at or below every block granted earlier from that unit |
| `BumpSteps.PageAlignExample` | arceos/modules/bump_allocator/src/lib.rs:156-164 | with 4 KiB pages an `align_pow2` of 8192 is accepted, and its shift is masked to 1; 12288 and 100 are rejected |
| `BumpSteps.PaddingLetsPagesOverlapBytes` | arceos/modules/bump_allocator/src/lib.rs:107-184 | a concrete run in which a page block returned by `alloc_pages` starts inside a byte block returned earlier by `alloc` |
| `BumpSteps.DisjointRangeRejected` | arceos/modules/bump_allocator/src/lib.rs:82-102 | after `init(0x1000, 0x2000)` and `alloc(16, 1)`, `add_memory(0x3000, 0x1000)`, which shares no address with the region, returns `MemoryOverlap` |
| `BumpSteps.BootAllocExample` | arceos/modules/bump_allocator/src/lib.rs:68-127 | after `init(0x1000, 0x10000)` with 4 KiB pages, a 64-byte request aligned to 8 gets 0x1000 |
| `BumpAllocator.EarlyAllocator.constructor` | arceos/modules/bump_allocator/src/lib.rs:52-63 | `new` yields an empty table and zero counters, and the invariant holds |
| `BumpAllocator.EarlyAllocator.Init` | arceos/modules/bump_allocator/src/lib.rs:68-79 | the new state is `InitStep` of the old one, and the invariant holds |
| `BumpAllocator.EarlyAllocator.AddMemory` | arceos/modules/bump_allocator/src/lib.rs:82-102 | result and new state are `AddMemoryStep` of the old state: `MemoryOverlap` with nothing changed exactly when some unit is hit, else one unit appended; the invariant holds |
| `BumpAllocator.EarlyAllocator.FindOverlap` | arceos/modules/bump_allocator/src/lib.rs:85-90 | the loop reports a hit exactly when some unit in the table is hit by the new range |
| `BumpAllocator.EarlyAllocator.PushUnit` | arceos/modules/bump_allocator/src/lib.rs:92-101 | one unit is written at index `mem_sz` and the totals grow by its size and whole pages; the earlier units are unchanged and the invariant holds |
| `BumpAllocator.EarlyAllocator.Alloc` | arceos/modules/bump_allocator/src/lib.rs:107-127 | result and new state are `AllocStep` of the old state, and the invariant holds |
| `BumpAllocator.EarlyAllocator.FindBytes` | arceos/modules/bump_allocator/src/lib.rs:111-124 | the scan finds the first unit that fits, with its aligned address, or none exactly when no unit fits |
| `BumpAllocator.EarlyAllocator.BumpUnit` | arceos/modules/bump_allocator/src/lib.rs:118-119 | only the picked unit's byte cursor moves, by `size`, and `size` is charged; the invariant holds |
| `BumpAllocator.EarlyAllocator.Dealloc` | arceos/modules/bump_allocator/src/lib.rs:130-132 | the state is unchanged |
| `BumpAllocator.EarlyAllocator.TotalBytes` | arceos/modules/bump_allocator/src/lib.rs:135-137 | the sum of the sizes of the donated regions |
| `BumpAllocator.EarlyAllocator.UsedBytes` | arceos/modules/bump_allocator/src/lib.rs:140-142 | the sum of the distances the byte cursors have moved, at most the total |
| `BumpAllocator.EarlyAllocator.AvailableBytes` | arceos/modules/bump_allocator/src/lib.rs:145-147 | total minus used, without underflow; it equals the sum of the bytes the cursors have not passed |
| `BumpAllocator.EarlyAllocator.AllocPages` | arceos/modules/bump_allocator/src/lib.rs:155-184 | result and new state are `AllocPagesStep` of the old state, and the invariant holds |
| `BumpAllocator.EarlyAllocator.AllocAlignedPages` | arceos/modules/bump_allocator/src/lib.rs:166-183 | result and new state are `AllocAlignedPagesStep` of the old state, and the invariant holds |
| `BumpAllocator.EarlyAllocator.FindPages` | arceos/modules/bump_allocator/src/lib.rs:166-181 | the scan finds the first unit that admits the pages, with the block's lowest page address, or none exactly when no unit admits them |
| `BumpAllocator.EarlyAllocator.TakeUnitPages` | arceos/modules/bump_allocator/src/lib.rs:175-176 | the picked unit's page cursor drops below the block, the pages are charged and the grant is recorded; the invariant holds |
| `BumpAllocator.EarlyAllocator.DeallocPages` | arceos/modules/bump_allocator/src/lib.rs:187-189 | the state is unchanged |
| `BumpAllocator.EarlyAllocator.TotalPages` | arceos/modules/bump_allocator/src/lib.rs:192-194 | the sum of the whole pages of the donated regions |
| `BumpAllocator.EarlyAllocator.UsedPages` | arceos/modules/bump_allocator/src/lib.rs:197-199 | the sum of the pages granted from each unit, at most the total |
| `BumpAllocator.EarlyAllocator.AvailablePages` | arceos/modules/bump_allocator/src/lib.rs:202-204 | total minus used, without underflow; it equals the sum of the whole pages not yet granted |
| `MyCollections.HornerSum` | arceos/ulib/axstd/src/my_collections/mod.rs:27-31 | the wrapped sum is always a `usize`, below 2^64 |
| `MyCollections.HornerIsPolynomial` | arceos/ulib/axstd/src/my_collections/mod.rs:28-31 | the wrapping Horner sum equals the base-31 polynomial with the first byte weighted highest, reduced modulo 2^64 |
| `MyCollections.FirstByteWeighsMost` | arceos/ulib/axstd/src/my_collections/mod.rs:28-30 | the bytes `[1, 0]` sum to 31, not to the 1 that the comment's weighting would give |
| `MyCollections.Bucket` | arceos/ulib/axstd/src/my_collections/mod.rs:32 | the bucket index is below the capacity |
| `MyCollections.FindKey` | arceos/ulib/axstd/src/my_collections/mod.rs:38-40 | `find` returns the first position holding the key; none exactly when no entry of the bucket holds it |
| `MyCollections.EmptyTableInv` | arceos/ulib/axstd/src/my_collections/mod.rs:19-25 | a new map with 128 empty buckets satisfies the invariant |
| `MyCollections.PutInBucketFacts` | arceos/ulib/axstd/src/my_collections/mod.rs:38-43 | after a put the bucket's keys stay distinct and the key holds the new value; every other entry is unchanged; a present key's entry is replaced in place, and an absent key's pair is appended at the end |
| `MyCollections.PutPresent` | arceos/ulib/axstd/src/my_collections/mod.rs:38-41 | overwriting keeps the length, the keys' distinctness and the key's position, and replaces exactly the old pair |
| `MyCollections.PutAbsent` | arceos/ulib/axstd/src/my_collections/mod.rs:43 | appending a pair for an absent key keeps the keys distinct and puts the key at the end |
| `MyCollections.PutKeepsPlacement` | arceos/ulib/axstd/src/my_collections/mod.rs:36-43 | putting a pair into its key's bucket keeps every entry in a bucket its key was sent to |
| `MyCollections.GrowKeepsEntries` | arceos/ulib/axstd/src/my_collections/mod.rs:46-48 | appending empty buckets changes neither the entries nor their count |
| `MyCollections.GrowKeepsPlacement` | arceos/ulib/axstd/src/my_collections/mod.rs:45-50 | doubling without rehash keeps every entry in a bucket its key was sent to under the new or an earlier capacity |
| `MyCollections.DoubleCapacity` | arceos/ulib/axstd/src/my_collections/mod.rs:49 | doubling keeps the capacity 128 times a power of two |
| `MyCollections.InsertKeepsInv` | arceos/ulib/axstd/src/my_collections/mod.rs:34-53 | `insert` keeps the invariant: the number of buckets is the capacity, `size` is the number of entries, keys are distinct within each bucket, and each entry is placed |
| `MyCollections.InsertShape` | arceos/ulib/axstd/src/my_collections/mod.rs:34-53 | `insert` changes only the key's old bucket, which then maps the key to `value`. `size` grows by one exactly when the key was absent there, and the capacity doubles exactly when that made `size` exceed three quarters of it. Added buckets are empty; a present key keeps the bucket's length, and an absent key is appended |
| `MyCollections.InsertEntries` | arceos/ulib/axstd/src/my_collections/mod.rs:34-53 | as a multiset, the entries gain `(key, value)` and lose the replaced pair when the key was present |
| `MyCollections.ReinsertAfterGrowthDuplicates` | arceos/ulib/axstd/src/my_collections/mod.rs:36-50 | a stored key that now hashes to another bucket, where it is absent, gets a second pair on re-insertion, and its old pair stays |
| `MyCollections.MyHashMap.constructor` | arceos/ulib/axstd/src/my_collections/mod.rs:19-25 | `new` gives `size` 0, capacity 128 and 128 empty buckets, and the invariant holds |
| `MyCollections.MyHashMap.Hashcode` | arceos/ulib/axstd/src/my_collections/mod.rs:26-33 | the loop computes the wrapping Horner sum of the bytes, reduced modulo the capacity |
| `MyCollections.MyHashMap.Insert` | arceos/ulib/axstd/src/my_collections/mod.rs:34-53 | the new state is `InsertStep` of the old one, and the invariant holds |
| `MyCollections.MyHashMap.Iter` | arceos/ulib/axstd/src/my_collections/mod.rs:54-66 | the iterator is fresh and holds all entries, buckets in index order and each in insertion order, with `current` 0 and `len` equal to `size` |
| `MyCollections.MyHashMapIterator.constructor` | arceos/ulib/axstd/src/my_collections/mod.rs:61-65 | the iterator holds the given position, length and snapshot |
| `MyCollections.MyHashMapIterator.Next` | arceos/ulib/axstd/src/my_collections/mod.rs:75-82 | `None` with nothing changed once `current == len`, else the entry at `current` with `current` advanced; `None` exactly when nothing remains, and otherwise the entry is the head of what remained |
| `MyCollections.FlattenLength` | arceos/ulib/axstd/src/my_collections/mod.rs:56-63 | the snapshot has as many entries as the buckets hold together |

## Left out

- Address arithmetic past 2^64 is excluded by preconditions. The model does
  not describe the debug-build panics or release-build wrap-around that the
  Rust code has there. Two of these preconditions speak of the current state,
  and each covers only the units where the scan computes the sum:
  - `BumpAllocator.EarlyAllocator.AddMemory` requires `WindowsInRange`: the
    `ptr_byte + size - 1` of a unit must be below 2^64 when the scan reaches
    it (no earlier unit is hit) and the new range's last byte is at or above
    its `ptr_byte`. Only then do the short-circuiting `&&` tests at
    lib.rs:86-87 compute that sum. Without the precondition, a unit near the
    top of the address space whose byte cursor has moved makes the sum
    overflow there. A release build then wraps the window end to a
    low value and can accept a range that the model rejects with
    `MemoryOverlap`.
  - `BumpAllocator.EarlyAllocator.Alloc` requires `ByteRequestInRange`: for
    every unit up to and including the first one that fits, the aligned
    address and `front_addr + size - 1` must be below 2^64. Without it, a
    huge request overflows at lib.rs:116. A release build
    then wraps `back_addr` below the page cursor, reports success and wraps
    `ptr_byte`, where the model answers `NoMemory`.
- An intermediate sum of exactly 2^64 is admitted: `start + size` in `init`
  and `add_memory`, `ptr_byte + size` in the overlap test and
  `front_addr + size` in `alloc`, each before its `- PAGE_SIZE` or `- 1`. A
  debug build panics there. The model follows the release build, where the
  final result is still exact.
- The counters `total_bytes`, `used_bytes`, `total_pages` and `used_pages` are
  unbounded. Regions may overlap, so `total_bytes` could pass 2^64 in the
  Rust code; that wrap-around is not modelled.
- In the map, `size += 1` and `capacity *= 2` are unbounded as well.
- Only the shift `1 << align_pow2` and the hash sum are modelled with the
  release-build wrap-around, as the code computes them.
- `BumpAllocator.EarlyAllocator.Init` requires an empty table (`mem_sz == 0`):
  `init` is called once, first.
  - It SETS the totals rather than adding to them.
  - A later call would break the relation between the totals and the table.
  - That case is not modelled.
- `BumpAllocator.EarlyAllocator.AddMemory` also requires:
  - `PAGE_SIZE <= start`, so neither `start + size - PAGE_SIZE` nor the page
    walk can underflow;
  - `PAGE_SIZE <= size`. Sub-page regions are not modelled: the Rust code
    accepts them (its page cursor then lies below its byte cursor), adds
    their size to `total_bytes` and 0 to `total_pages`, but can never
    allocate from them. `BumpAllocator.EarlyAllocator.Init` carries the same
    two preconditions;
  - `start + size <= 2^64`;
  - a free slot in the 8192-entry table, unless the range is rejected.
    The overlap scan runs before the write to `mem[mem_sz]` at lib.rs:92, so
    a full table still rejects an overlapping range cleanly. Only a full
    table offered a non-overlapping range is excluded: there the Rust code
    indexes out of bounds.
- `BumpAllocator.EarlyAllocator.PushUnit` and `BumpSteps.AddMemoryKeepsInv`
  carry the same preconditions on `start` and `size`. `PushUnit` always
  requires a free slot.
- `MyCollections.MyHashMap.Insert` and `MyCollections.FindKey` take key
  equality to be Dafny's `==`: an equivalence, under which equal keys also
  have equal string forms and so equal hashes. Rust's `K: PartialEq` promises
  neither. A lawless `PartialEq` breaks both: an `f64` NaN key never finds
  itself, so each `insert` of it appends a new pair, and `0.0 == -0.0`
  although their string forms "0" and "-0" hash to different buckets. For
  such keys `InsertShape` and `InsertEntries` do not describe the Rust code.
- Built into the model:
  - Logging (`warn!`) is left out.
  - Pointers are plain address numbers, so `NonNull` and the `unsafe` pointer
    construction do not appear.
  - `Layout` is reduced to a size and a non-zero alignment.
- The external `allocator` crate's traits and error type are replaced by plain
  methods and a local `AllocError`.
- The `f64` load-factor test `size > capacity * 0.75` is the equivalent integer
  test `4 * size > 3 * capacity`.
- `to_string().as_bytes()` is heap string formatting and is abstracted as the
  function `keyBytes`.
- The iterator holds copies of the pairs rather than references; lifetimes
  and borrowing are not modelled.
- `MyHashMapIterator` implements only `next`; the other methods of Rust's
  `Iterator` trait are not modelled.
- There is no concurrency: the allocator runs single-threaded at boot, and
  the map has no shared state.
- Two files are not part of this model:
  - `arceos/labs/lab_allocator/src/lib.rs` forwards every call to an external
    buddy allocator whose code is not available.
  - `arceos/exercises/print_with_color/src/main.rs` is a single print statement.
- Disjointness is proved only between page blocks of the same unit. Donated
  regions may overlap, as the overlap test allows, so blocks from different
  units may overlap too.
