# A verified model of the `std` memory substrate and its utilities

This project models, in Dafny, the core of a small C/C++ standard library. The
core is a bump-pointer arena allocator with saved-state restore. Around it sit
the per-thread scratch-arena rule, a free-list object pool, and an
address-stable segmented array. The library's pure utilities are modelled too:
slices and their helpers, path splitting, lazy ranges, a fixed ring buffer,
radix sort and merge sort, FNV-1a hashing, a 4-ary hash trie, UUID layout, a
delta command encoder, the Khronos two-call helper, and `Optional`/`Result`.

Modelling choices that hold throughout:

- Addresses are naturals. An arena is the pair `{beg, end}` with
  `beg <= end < 2^64`. Memory is a total map from address to byte, so
  zero-filling can be stated.
- Allocation failure is an outcome (`OutOfMemory`, `NoMemory`, `Oom`), not a
  call into the out-of-memory handler. The handler's retry loop is not
  modelled.
- `CHECK`/`DCHECK` assertions become preconditions.
- Fixed-width integers are `nat` subset types (`u8`, `u32`, `u64`). Each
  wrap-around is written out with `%`.
- Bitwise operators on naturals (`Bits.And`, `Bits.Or`, `Bits.Xor`,
  `Bits.Shr`) are defined recursively. Lemmas connect them to arithmetic.
- A `Slice<T>` is a data pointer plus the sequence of elements it views.
  Writes through a slice return the slice with new contents. Aliasing between
  overlapping views is not modelled.
- Callbacks the library calls (the Khronos API function, range predicates and
  mappers) are Dafny function values, so they act as oracles.

Module per source file: `Arenas` (Arena.c, Arena.h), `ArenaTls` (ArenaTls.c),
`Pools` (Pool.hpp), `SegmentArrays` (SegmentArray.hpp), `Utils` (Utils.cpp),
`Slices` (Slice.hpp), `SliceUtils` (SliceUtils.hpp), `Arrays` (Array.hpp),
`Ranges` (Ranges.hpp), `Paths` (Path.cpp), `RingBuffers`
(FixedRingBuffer.hpp), `RadixSorts` (RadixSort.hpp), `MergeSorts` (Sort.hpp),
`Hash` (Hash.c), `Tries` (Trie.hpp), `TrieStrKeys` (TrieStrKey.hpp), `Uuids`
(Uuid.hpp), `CommandEncoders` (CommandEncoder.hpp), `KhrTwoCall`
(KhrTwoCall.hpp), `Optionals` (Optional.hpp), `Results` (Result.hpp).
`RadixSortExamples`, `MergeSortExamples` and `UuidExamples` restate the unit
tests' concrete cases. `Types`, `Bits`, `Seqs` and `Orders` hold shared
definitions and arithmetic facts.

## Where the code and its tests disagree

`allocImpl` tests capacity with `numObjects < (end - beg - pad) / sizObj`
(src/std/Arena.c:28). The comparison is strict and the quotient is floored.
So a request that exactly fills the arena takes the out-of-memory path. The
unit test `Arena.exactSizeAllocSucceeds` (src/std/tests/Arena.cpp:53-61)
expects that request to succeed. The model follows the code. The lemmas
`Arenas.ExactFitTakesOomPath` and `Arenas.ExactSizeByteRequestFails` state the
disagreement. `Arenas.OneByteShortSucceeds` shows that one byte less fits.

`FixedRingBuffer` maps its free-running `u32` counters to slots with
`counter % Size` (src/std/FixedRingBuffer.hpp:28-40). When `Size` does not
divide `2^32`, the slot sequence jumps where the counters wrap. A push can
then land on the slot of an element still queued.
`RingBuffers.WrapOverwritesWithThreeSlots` shows this with three slots:
`read` is `2^32 - 1` and one element is queued, and a push overwrites it.
`RingBuffers.PushAppends` proves FIFO order when `Size` divides `2^32`, or
while `write` has not wrapped past `read`. The source states no such
requirement on `Size`. Its own counter-wrap tests use one and two slots
only.

## Model

| member | source | states |
|---|---|---|
| Arenas.Pad | src/std/Arena.c:27 | The pad is `(u64)end & (align - 1)`, with `align - 1` taken in 32 bits. It always fits in a `u32`. |
| Arenas.PadIsRemainder | src/std/Arena.c:27 | For a power-of-two alignment the pad is `end mod align`. So it is below the alignment and `end - pad` is aligned. |
| Arenas.HasRoomIff | src/std/Arena.c:28 | The signed, truncating capacity test `count < (end - beg - pad) / objSize` passes exactly when `(count + 1) * objSize + pad <= end - beg`. |
| Arenas.AllocImpl | src/std/Arena.c:15-47 | Allocation succeeds iff `(count + 1) * objSize + pad` fits; otherwise it takes the out-of-memory path. On success `beg` is unchanged and `end` drops by exactly `count * objSize + pad`, so `beg <= end` is kept. The block starts at the new `end`, is `count * objSize` long, and lies within the old `[beg, end)`. |
| Arenas.ExactFitTakesOomPath | src/std/Arena.c:28-30 | A request whose size plus pad equals the remaining capacity takes the out-of-memory path. |
| Arenas.ExactSizeByteRequestFails | src/std/tests/Arena.cpp:53-61 | `alloc<u8>` of the arena's whole capacity takes the out-of-memory path, contrary to what this test expects. |
| Arenas.OneByteShortSucceeds | src/std/Arena.c:28-36 | `alloc<u8>` of one byte less than the capacity succeeds. |
| Arenas.AllocImplAligned | src/std/Arena.c:27-36 | With a power-of-two alignment, the block starts on an alignment boundary whenever `count * objSize` is a multiple of the alignment. |
| Arenas.Alloc | src/std/Arena.c:54-58 | `alloc` carves as `allocImpl` does. It zeroes exactly the carved bytes and leaves every other byte as it was; on the out-of-memory path memory is unchanged. |
| Arenas.AllocNZ | src/std/Arena.c:49-52 | `allocNZ` carves as `allocImpl` does and writes no byte of memory. |
| Arenas.AllocZeroFills | src/std/tests/Arena.cpp:38-45 | Every byte of a block returned by `alloc` reads as zero. |
| Arenas.AllocOf | src/std/Arena.h:147-151 | `alloc<T>` is `alloc(a, sizeof T, alignof T, count)`. Its block is aligned for `T`, is `count * sizeof T` bytes, and is zero-filled. |
| Arenas.AllocNZOf | src/std/Arena.h:153-157 | `allocNZ<T>` carves the same aligned block as `alloc<T>` and leaves memory untouched. |
| Arenas.AllocMany | src/std/Arena.c:32-36 | A run of allocations keeps `beg` and only lowers `end`. It yields at most one block per request. |
| Arenas.AllocManyStacked | src/std/Arena.c:34-36 | The blocks of a run are stacked downward between the final and the original `end`. |
| Arenas.StackedOrdered | src/std/Arena.c:34-36 | Stacked blocks lie inside the window, and each one lies entirely below the one handed out before it. |
| Arenas.AllocManyDisjoint | src/std/Arena.c:34-36 | Every block handed out since a saved state lies in `[final end, old end)` within `[beg, old end)`, and no two blocks overlap. |
| Arenas.SaveArena | src/std/Arena.h:119-123 | `saveArena(p)` is `{p, *p}` and changes nothing. |
| Arenas.RestoreArena | src/std/Arena.c:60-66 | `restoreArena` sets `*dst` to the saved state exactly, and every other arena is unchanged. |
| Arenas.OpenScope | src/std/Arena.h:53 | `Scope(Arena*)` records the pointer and the arena's current `{beg, end}`, which is the same snapshot `saveArena` takes. |
| Arenas.ScopeFromSaved | src/std/Arena.h:54 | `Scope(ArenaSaved)` adopts the given pointer and snapshot unchanged. |
| Arenas.ResetScope | src/std/Arena.h:55-62 | `reset`, which the destructor also calls, restores the snapshot into the guarded arena only. |
| Arenas.ResetScopeIdempotent | src/std/Arena.h:62 | Resetting twice leaves the same heap as resetting once. |
| Arenas.AllocManyAt | src/std/Arena.c:32-36 | Allocating through `*p` moves only `*p`. Its `beg` is kept and its `end` does not rise. |
| Arenas.ScopeRoundTrip | src/std/Testing.hpp:107-109 | Opening a scope, allocating anything, and resetting gives back exactly the original heap. So the arena's full capacity returns, which the test runner checks after every test. |
| Arenas.NestedScopes | src/std/tests/Arena.cpp:18-29 | An inner scope opened after some allocations returns the arena to the point where it opened. The outer scope then returns it to its original state. |
| ArenaTls.FreshContext | src/std/ArenaTls.c:94 | A thread's context starts with both slots null. |
| ArenaTls.SetAllocatorsForThread | src/std/ArenaTls.c:120-124 | `setAllocatorsForThread` overwrites both slots with the given arenas. |
| ArenaTls.GetScratch | src/std/ArenaTls.c:103-118 | With no conflict, `getScratch` returns a snapshot of slot 0. With one conflict equal to slot 0 it returns slot 1, and with any other conflict it returns slot 0. The snapshot is the chosen arena's current state. When the slots differ, the result is never the conflicting arena. More than one conflict is refused by the precondition. |
| ArenaTls.ScratchAvoidsConflict | src/std/ArenaTls.c:112-117 | With two distinct slots, the arena handed out is one of them and never the conflict. |
| ArenaTls.FreshContextHasNoScratch | src/std/ArenaTls.c:94 | A fresh context's slots hold no arena. `getScratch` can only be served after `setAllocatorsForThread`. |
| ArenaTls.ScratchAfterSetup | src/std/tests/Arena.cpp:10-16 | After two distinct arenas are installed, an unconflicted request gives arena 0. A request conflicting with that result gives arena 1, which differs from it. |
| ArenaTls.ScratchReleaseRestores | src/std/ArenaTls.c:103-118 | Taking scratch, allocating, and releasing gives back the original heap. So a second `getScratch` returns the same arena in the same state. |
| Pools.NewPool | src/std/Pool.hpp:47-51 | A new pool over an arena has empty used and free lists and satisfies the pool invariant: every node on exactly one list, once, marked, placed above the arena's window without overlap. |
| Pools.Values | src/std/Pool.hpp:35-54 | Iterating from `head` through `next` yields one value per used node, in used-list order. |
| Pools.Alloc | src/std/Pool.hpp:80-112 | With a non-empty free list the head of the free list is popped, keeps its address, and the arena is untouched. With an empty free list exactly one node is carved, and allocation fails iff that carve fails. Either way the node is value-initialised, marked, pushed at the head of the used list, no other node changes, and the invariant is kept. |
| Pools.Dealloc | src/std/Pool.hpp:131-161 | Unlinking a used node removes exactly that node from the used list, keeping the others in order, and pushes it at the head of the free list. Nodes and arena are unchanged and the invariant is kept. |
| Pools.DeallocValue | src/std/Pool.hpp:117-126 | Freeing a null value changes nothing; freeing a value frees its node. |
| Pools.FreedNodeKeepsSentinel | src/std/Pool.hpp:131-157 | A freed node is on the free list, off the used list, and still carries the marker, so the debug check would not catch a second free. |
| Pools.AllocAfterDeallocReuses | src/std/Pool.hpp:80-157 | Allocating, freeing and allocating again hands back the same node at the same address, with the arena unchanged. |
| Pools.Preallocate | src/std/Pool.hpp:61-74 | Preallocation succeeds iff carving `count` nodes succeeds. The used list is unchanged, the existing nodes are kept, and the new nodes sit on the free list last-carved first, ahead of the old free list, with the invariant kept. |
| Pools.Clear | src/std/Pool.hpp:166-170 | Clearing empties the used list and moves every used node onto the free list, in reverse used-list order, ahead of the old free list; nodes and arena are unchanged. |
| Pools.AllocNFromEmpty | src/std/tests/Pool.cpp:60-88 | From an empty pool, `n` successful allocations give nodes `n-1 .. 0` on the used list, so iteration sees each of the `n` values exactly once. |
| Pools.PreallocateThree | src/std/tests/Pool.cpp:90-104 | Preallocating three nodes in an empty pool leaves nothing used and a free list of exactly three nodes. |
| Pools.PreallocatedServeFirst | src/std/Pool.hpp:61-91 | After preallocating three nodes, the next three allocations take them from the free list without moving the arena, and a fourth one carves a new node. |
| SegmentArrays.SizeOfSegment | src/std/SegmentArray.hpp:69-72 | `64 << k` in 32-bit arithmetic is the segment size `2^(6+k)` for every index that can be allocated, and wraps to 0 at index 26. |
| SegmentArrays.CapacityForSegmentCount | src/std/SegmentArray.hpp:74-76 | The wrapped difference `sizeOfSegment(n) - sizeOfSegment(0)` is `2^(6+n) - 64` for every `n` up to 26, including the wrapped case `n = 26`. |
| SegmentArrays.CapacityIsSumOfSizes | src/std/SegmentArray.hpp:69-76 | The capacity of `n` segments equals the sum of the sizes of segments `0 .. n-1`. |
| SegmentArrays.CapacityMonotone | src/std/SegmentArray.hpp:74-76 | More segments give strictly more capacity. |
| SegmentArrays.Log2i | src/std/SegmentArray.hpp:8-10 | For non-zero `x` the result `r` satisfies `2^r <= x < 2^(r+1)`; for zero it is the wrapped `2^32 - 1`. |
| SegmentArrays.GetSegmentForItem | src/std/SegmentArray.hpp:78-80 | The segment of item `i` is at most 26, and `i` lies in that segment's index window `[capacity(s), capacity(s+1))`. The upper bound is dropped only for index 26, whose window holds the last 64 `u32` indices. |
| SegmentArrays.SegmentForItemUnique | src/std/SegmentArray.hpp:78-80 | Any segment whose index window contains `i` is the one `getSegmentForItem` returns, so windows do not overlap. |
| SegmentArrays.FirstSegmentWindows | src/std/tests/SegmentArray.cpp:13-19 | Items 0..63 are in segment 0, 64..191 in segment 1 and 192..447 in segment 2, which covers the unit test's cases. |
| SegmentArrays.NewSegmentArray | src/std/SegmentArray.hpp:30-32 | A new array is valid, empty and has no segment. |
| SegmentArrays.GetSlotForItem | src/std/SegmentArray.hpp:82-88 | For an item whose segment is allocated, the slot offset `i - capacity(segment)` is below the segment's size. |
| SegmentArrays.SlotForItemInverse | src/std/SegmentArray.hpp:78-88 | Every slot `off` of segment `s` is the slot of item `capacity(s) + off`, so the item-to-slot map is a bijection onto the allocated slots. |
| SegmentArrays.AtIsElement | src/std/SegmentArray.hpp:34-35 | `sa[i]` for `i < length` reads the `i`-th pushed element, as the segments laid end to end give it. |
| SegmentArrays.Grow | src/std/SegmentArray.hpp:93-97 | Growing succeeds iff carving segment `numSegments` succeeds. It appends one zero-filled segment of that index's size, keeps every existing segment and its address, and keeps the elements. |
| SegmentArrays.GrowIfNeededPrePush | src/std/SegmentArray.hpp:103-107 | It grows exactly when `length` has reached the capacity. On success there is a free slot for the next element, and the elements and existing segments are kept. |
| SegmentArrays.WriteNext | src/std/SegmentArray.hpp:40-42 | Writing the slot of item `length` and counting it appends exactly that value to the elements, leaving the arena and every segment address unchanged. |
| SegmentArrays.Push | src/std/SegmentArray.hpp:46-53 | A successful push appends exactly `value` and keeps every existing segment's address. Out of memory can only happen when the array was full. |
| SegmentArrays.PushDefault | src/std/SegmentArray.hpp:37-44 | `push()` appends the value-initialised element and behaves as `push(value)` with that value. |
| SegmentArrays.PushEach | src/std/SegmentArray.hpp:46-53 | Pushing a sequence one element at a time appends exactly that sequence, keeping existing segments in place. |
| SegmentArrays.PushEachOom | src/std/SegmentArray.hpp:103-107 | If the first grow runs out of memory, pushing the whole sequence does too. |
| SegmentArrays.SliceOfSegmentFreeHalf | src/std/SegmentArray.hpp:112-136 | For a segment that is full the result is the null slice. Otherwise the segment is the last one, and the result views exactly its unfilled slots, `capacity(idx + 1) - length` of them. |
| SegmentArrays.FreeSlotsAreInLastSegment | src/std/SegmentArray.hpp:124-136 | In an array that never grows ahead of need, only the last segment can have free slots. |
| SegmentArrays.FillLastSegment | src/std/SegmentArray.hpp:59-65 | One bulk round copies `min(free slots, remaining)` elements into the free half and drops exactly those from the front of the input. |
| SegmentArrays.PushSlice | src/std/SegmentArray.hpp:55-67 | Pushing a slice gives the same result as pushing its elements one at a time. It appends exactly the slice on success and changes nothing for an empty slice. |
| SegmentArrays.CopySegments | src/std/SegmentArray.hpp:154-169 | The nested copy loops produce exactly the pushed elements, in index order. |
| SegmentArrays.CopyToSlice | src/std/SegmentArray.hpp:144-172 | An empty array gives the null slice and leaves the arena alone. Otherwise the copy succeeds iff carving `length` elements succeeds, and then holds exactly the elements. |
| Utils.LeadingZerosBounds | src/std/Utils.cpp:37-75 | For non-zero `x` the leading-zero count `r` of a `w`-bit value locates the top set bit: `2^(w-1-r) <= x < 2^(w-r)`. |
| Utils.LeadingZerosUnique | src/std/Utils.cpp:37-75 | Any `k` with `2^k <= x < 2^(k+1)` gives the count `w - 1 - k`, so the bit-scan form `32 - index - 1` and the `clz` form agree. |
| Utils.CountLeadingZeros | src/std/Utils.cpp:37-55 | The count is 32 exactly for zero. Otherwise it lies in `0..31` and locates the top set bit of the 32-bit value. |
| Utils.CountLeadingZeros64 | src/std/Utils.cpp:57-75 | The count is 64 exactly for zero. Otherwise it lies in `0..63` and locates the top set bit of the 64-bit value. |
| Utils.CountLeadingZerosOfPow2 | src/std/tests/Utils.cpp:9-15 | `countLeadingZeros(1 << i) == 32 - i - 1` for every `i < 32`. |
| Utils.CountLeadingZeros64OfPow2 | src/std/tests/Utils.cpp:21-27 | `countLeadingZeros64(1 << i) == 64 - i - 1` for every `i < 64`. |
| Utils.CompareAsString | src/std/Utils.cpp:15-25 | If either side is null, the result is whether both are null, whatever the lengths. Otherwise it is true iff the contents are equal. |
| Utils.Strlen | src/std/Utils.cpp:28 | The length is the index of the first NUL. |
| Utils.FromCStr | src/std/Utils.cpp:27-30 | The view starts at the string, holds no NUL, and is a prefix of the memory. Its length is the index of the first NUL modulo `2^32`, so when the terminator lies below `2^32` the view ends exactly at it. |
| Utils.FromCStrWithZero | src/std/Utils.cpp:32-35 | The view is a prefix of the memory whose length is `(k mod 2^32 + 1) mod 2^32` for the first NUL at `k`, so a string of exactly `2^32 - 1` characters gives an empty view. When the terminator lies below `2^32 - 1`, the view is the string followed by its terminator and contains no earlier NUL. |
| Slices.SpanFrom | src/std/Slice.hpp:45-50 | The span keeps the start, and `start + count` wraps back to the range's end. The count is `end - start` when the range is not reversed. |
| Slices.RangeFrom | src/std/Slice.hpp:52-57 | The range keeps the start, and `end - start` wraps back to the span's count. The end is `start + count` when that does not overflow. |
| Slices.RangeSpanRoundTrip | src/std/Slice.hpp:45-57 | Range to span to range is the identity, even across the 32-bit wrap. |
| Slices.SpanRangeRoundTrip | src/std/Slice.hpp:45-57 | Span to range to span is the identity. |
| Slices.Subarray | src/std/Slice.hpp:241-254 | The result is empty iff `end <= start` or `start` is past the slice, and then it is the null slice. Otherwise it points `start` elements in and views exactly elements `[start, min(end, length))`. |
| Slices.SubarrayRange | src/std/Slice.hpp:256-258 | `subarray(range)` views `[start, min(end, length))`, or is null when the range is empty or starts past the slice. |
| Slices.SubarraySpan | src/std/Slice.hpp:260-262 | A non-wrapping span views `[start, min(start + count, length))`, and a zero-count span gives the null slice. |
| Slices.SubarrayFrom | src/std/Slice.hpp:273 | `subarray(start)` views everything from `start` on, or is null when `start` is past the slice. |
| Slices.SubarrayWhole | src/std/Slice.hpp:241-254 | The whole of a non-empty slice is the slice itself. |
| Slices.SubarrayOfSubarray | src/std/Slice.hpp:241-254 | A sub-view of a sub-view is the sub-view of the original at the summed offset, clamped to the outer end. |
| Slices.ShrinkFromLeftByCount | src/std/Slice.hpp:279-284 | The pointer advances by `n` and the view is what remains after the first `n` elements. |
| Slices.ShrinkTwice | src/std/Slice.hpp:279-290 | Shrinking by `n` and then by `m` equals shrinking by `n + m`. |
| Slices.IndexOf | src/std/Slice.hpp:184-197 | It succeeds iff the needle occurs, and then returns the first position holding it. On failure the out-parameter is untouched. |
| Slices.LastIndexOf | src/std/Slice.hpp:203-217 | It succeeds iff the needle occurs, and then returns the last position holding it. The downward `u32` loop ends when the counter wraps. On failure the out-parameter is untouched. |
| Slices.Contains | src/std/Slice.hpp:223-226 | True iff the needle occurs in the slice. |
| Slices.Equals | src/std/Slice.hpp:124-136 | True iff the lengths agree and every element agrees, that is, iff the contents are equal. The pointers are not compared. |
| Slices.NotEquals | src/std/Slice.hpp:143-155 | The separate loop of `operator!=` answers exactly the negation of content equality. |
| Slices.Reverse | src/std/Slice.hpp:355-365 | After the in-place swaps up to the middle, element `i` holds what was at `length - 1 - i`. The pointer is unchanged. |
| Slices.ReversedTwice | src/std/Slice.hpp:355-365 | Reversing twice gives the original sequence. |
| Slices.ReverseTwice | src/std/tests/Slice.cpp:215-236 | Reversing a slice twice in place restores it exactly. |
| Slices.StartsWith | src/std/Slice.hpp:370-380 | True iff the prefix is no longer than the slice and equals its leading window. An empty prefix always matches. |
| Slices.EndsWith | src/std/Slice.hpp:385-395 | True iff the suffix is no longer than the slice and equals its trailing window. |
| Slices.Copy | src/std/Slice.hpp:295-304 | The first `|source|` elements become the source, and the rest of the destination is untouched. An empty source changes nothing. |
| Slices.Fill | src/std/Slice.hpp:400-404 | Every element becomes the value, and the length and pointer are kept. |
| Slices.CopyWithConversionTo | src/std/Slice.hpp:410-420 | Element `i` of the destination becomes `D(src[i])`, for every `i`. |
| Slices.All | src/std/Slice.hpp:311-320 | True iff every element satisfies the condition. |
| Slices.Any | src/std/Slice.hpp:329-339 | True iff some element satisfies the condition. The index is the first such element; on failure it is untouched. |
| SliceUtils.WriteThrough | src/std/SliceUtils.hpp:117-118 | Writing a sub-view that starts at element `at` changes exactly the covered elements of the viewed slice, to the sub-view's contents. An empty sub-view changes nothing. |
| SliceUtils.CarveFor | src/std/SliceUtils.hpp:74-78 | `allocNZ(arena, length, dst)` hands out a block of `length` elements inside the arena's old window, with `beg` unchanged. |
| SliceUtils.Concat | src/std/SliceUtils.hpp:110-121 | `concat` succeeds iff the carve of `|left| + |right|` elements succeeds. The new slice sits at the carved block and holds exactly `left` followed by `right`, whatever the block held before. |
| SliceUtils.ConcatZeroTerminate | src/std/SliceUtils.hpp:127-141 | As `concat`, with one more element, which is value-initialised. |
| SliceUtils.Duplicate | src/std/SliceUtils.hpp:40-60 | An empty input gives the null slice and leaves the arena alone. Otherwise the copy succeeds iff the carve succeeds, and holds exactly the input in a block inside the old window. |
| SliceUtils.Append | src/std/SliceUtils.hpp:168-182 | The source is written at the front of `dst`, and the rest of `dst` is unchanged. The returned cursor starts right after what was written and views the rest. |
| SliceUtils.AppendElement | src/std/SliceUtils.hpp:184-190 | The element is written at the front, and the cursor advances by one. |
| SliceUtils.AppendTwice | src/std/SliceUtils.hpp:168-182 | Two appends in a row leave the cursor where one append of both sources would: `|a| + |b|` elements in. |
| SliceUtils.EndsWith | src/std/SliceUtils.hpp:158-166 | True iff the suffix is no longer than the slice and equals its trailing window. |
| SliceUtils.BytesAppend | src/std/SliceUtils.hpp:22-33 | The object representation of a concatenation is the concatenation of the representations. |
| SliceUtils.StartsWithBytes | src/std/SliceUtils.hpp:22-33 | False if either pointer is null, even for an empty prefix, and false if the prefix is longer. Otherwise it is true iff the first `prefix.length` BYTES of the two representations agree. |
| SliceUtils.StartsWithBytesSound | src/std/SliceUtils.hpp:22-33 | Whenever the prefix really is a prefix and both pointers are non-null, the byte test passes. |
| SliceUtils.StartsWithBytesOfBytes | src/std/SliceUtils.hpp:22-33 | For one-byte elements with distinct representations (`char`, `u8`), the byte test is exactly the element-wise prefix test. |
| SliceUtils.StartsWithBytesWiderElements | src/std/SliceUtils.hpp:32 | For `u32` elements only `prefix.length` bytes are compared, so `[0x100]` starts with `[0x200]` on a little-endian target. |
| Arrays.New | src/std/Array.hpp:21 | The default constructor value-initialises all `N` elements. |
| Arrays.FromList | src/std/Array.hpp:22-33 | More than `N` items throws. Otherwise the items fill the front in order and the remaining elements stay value-initialised. |
| Arrays.CopyOf | src/std/Array.hpp:35-39 | The copy holds exactly the other array's elements. |
| Arrays.Set | src/std/Array.hpp:41 | Writing through `operator[]` changes only element `i`. |
| Arrays.At | src/std/Array.hpp:41-42 | `operator[]` reads an element of the array: the one the slice view shows at the same index. |
| Arrays.AsSlice | src/std/Array.hpp:44-62 | The view starts at the array, has length `N` (which must fit `u32`), and its elements are exactly the array's, in order. |
| Arrays.Subarray | src/std/Array.hpp:64-67 | With the `size_t` indices narrowed to `u32`, the result is empty iff the range is empty or starts past the array. Otherwise it views elements `[start, min(end, N))` at the matching address. |
| Arrays.Begin | src/std/Array.hpp:69 | `begin()` is the array's address, where the slice view starts. |
| Arrays.End | src/std/Array.hpp:69-70 | `end()` is exactly `N` elements past `begin()`. |
| Arrays.SliceSeesWrites | src/std/Array.hpp:41-56 | A write through `operator[]` is visible through the slice view at the same index, and the view's pointer is unchanged. |
| Arrays.FullListIsView | src/std/Array.hpp:22-56 | An array built from exactly `N` items views exactly those items. |
| Ranges.Keys | src/std/Ranges.hpp:28-53 | The key iterator yields `0, 1, .., length - 1`. |
| Ranges.Values | src/std/Ranges.hpp:55-80 | The value iterator yields the container's elements in order. |
| Ranges.Entries | src/std/Ranges.hpp:82-112 | The entry iterator yields each index paired with its element. |
| Ranges.FilteredMembers | src/std/Ranges.hpp:206-253 | An element occurs in the filtered sequence iff it occurs in the base and passes the condition. |
| Ranges.FilteredLength | src/std/Ranges.hpp:206-253 | Filtering never lengthens, and it keeps the full length iff every element passes. |
| Ranges.SkipFailing | src/std/Ranges.hpp:229-249 | The skip loop stops at the next passing element or at the end, and what it skips adds nothing to the filtered output. |
| Ranges.Filter | src/std/Ranges.hpp:206-253 | Iterating the filter view yields exactly the passing elements, in order. |
| Ranges.TakeWhile | src/std/Ranges.hpp:153-192 | The take-while view yields the longest prefix of passing elements, and the element right after it, if any, fails. |
| Ranges.Map | src/std/Ranges.hpp:267-307 | The map view yields `f` of each element, same length and order. |
| Ranges.Take | src/std/Ranges.hpp:321-360 | The take view yields the first `min(n, length)` elements. |
| Ranges.Count | src/std/Ranges.hpp:372-384 | `count` is the number of elements the range yields. |
| Ranges.TryGetFirst | src/std/Ranges.hpp:391-401 | The optional holds a value iff the range is non-empty, and then holds its first element. |
| Ranges.GetFirstOr | src/std/Ranges.hpp:403-412 | The first element, or the default for an empty range. |
| Ranges.FirstAgrees | src/std/Ranges.hpp:391-412 | `getFirstOr(def)` equals `tryGetFirst` followed by `valueOr(def)`. |
| Ranges.CountFiltered | src/std/Ranges.hpp:206-384 | Counting a filtered range gives the full length iff every element passes. Its first element exists iff some element passes, and it is a passing element of the base. |
| Paths.Stripped | src/std/Path.cpp:20-24 | The path with trailing separators removed is a prefix of the path and does not end in a separator. |
| Paths.StrippedDropsSeparators | src/std/Path.cpp:20-24 | Everything removed by stripping is a separator. |
| Paths.LastSeparatorIsLast | src/std/Path.cpp:30-48 | The separator found is the last `/` or `\`. None is found iff the text has no separator. |
| Paths.BasenameHasNoSeparator | src/std/Path.cpp:57-87 | A basename never contains a separator. |
| Paths.BasenameEmpty | src/std/Path.cpp:57-66 | The basename is empty iff the path is empty or consists of separators only. |
| Paths.DirnameBasenameSplit | src/std/Path.cpp:19-87 | When the last separator is not the first character, directory, separator and basename put back together give the stripped path. |
| Paths.StripTrailing | src/std/Path.cpp:20-24 | The strip loop leaves the pointer alone and views exactly the stripped path. |
| Paths.FindLastSeparator | src/std/Path.cpp:30-48 | Running the `/` search and the `\` search and taking the later hit finds exactly the last separator, and fails iff there is none. |
| Paths.Dirname | src/std/Path.cpp:19-55 | `dirname` returns "." for an empty, all-separator or separator-free path, "/" when the last separator is the first character, and otherwise the text before the last separator, as a view of the path's own data. |
| Paths.Basename | src/std/Path.cpp:57-87 | `basename` returns the stripped path after its last separator. The result is the null slice when nothing but separators remain. |
| Paths.JoinSimple | src/std/Path.cpp:89-121 | Two empty segments give the null slice. Otherwise the join succeeds iff the carve succeeds and holds `seg0`, a `/` exactly when `seg0` is non-empty and does not already end in a separator, then `seg1`. |
| Paths.JoinSplits | src/std/Path.cpp:89-121 | Joining a directory that does not end in a separator with a plain file name is undone by `dirname` and `basename`. |
| Paths.PlainName | src/std/tests/Path.cpp:23-27 | A name without separators has directory "." and is its own basename. |
| Paths.SplitAt | src/std/Path.cpp:50-54 | For a path not ending in a separator whose last separator is at `k`, the directory is the text before `k` ("/" when `k` is 0) and the basename is the text after `k`. |
| Paths.TrailingSeparator | src/std/Path.cpp:20-24 | A trailing separator changes neither the directory nor the basename. |
| Paths.UnitTestsWithSeparator | src/std/tests/Path.cpp:8-22 | `dir/file`, `/file`, `./file` and `/dir/asd/file` split as the tests expect. |
| Paths.UnitTestsEdgeCases | src/std/tests/Path.cpp:23-42 | `file`, the empty path and `/dir/asd/` split as the tests expect. |
| RingBuffers.Size | src/std/FixedRingBuffer.hpp:72-81 | Both branches of `size()` compute `write - read` modulo `2^32`, the distance from `read` to `write` across the wrap. |
| RingBuffers.Empty | src/std/FixedRingBuffer.hpp:70 | `empty()` holds exactly when `size()` is 0. |
| RingBuffers.Full | src/std/FixedRingBuffer.hpp:71 | `full()` holds exactly when `size()` equals `Size` modulo `2^32`. |
| RingBuffers.Contents | src/std/FixedRingBuffer.hpp:16-21 | The queued elements are `size()` many: the slots of counters `read, read + 1, ..`, oldest first. |
| RingBuffers.New | src/std/FixedRingBuffer.hpp:18-19 | A new buffer is empty, not full, and holds nothing. |
| RingBuffers.Push | src/std/FixedRingBuffer.hpp:32-36 | `push` requires a non-full buffer. It writes slot `write % Size`, leaves every other slot alone, and advances `write` modulo `2^32`. |
| RingBuffers.TryPush | src/std/FixedRingBuffer.hpp:23-30 | `tryPush` succeeds iff the buffer is not full. On failure nothing changes; on success it acts as `push`. |
| RingBuffers.Pop | src/std/FixedRingBuffer.hpp:38-41 | `pop` requires `read != write`. It advances `read` modulo `2^32` and leaves the slots alone. |
| RingBuffers.IsValidPhyIndex | src/std/FixedRingBuffer.hpp:50-68 | The index check fails on an empty buffer and bounds the index by `write` when `read < write`; in every other case it accepts any index. |
| RingBuffers.Peek | src/std/FixedRingBuffer.hpp:43-48 | `peek(off)` returns an element of the slots; for `off` below the size it is the queued element `off` places after the oldest. |
| RingBuffers.FullIffAtCapacity | src/std/FixedRingBuffer.hpp:71-81 | `full()` holds iff `size()` equals `Size`. |
| RingBuffers.EmptyIffNoElements | src/std/FixedRingBuffer.hpp:70-81 | `empty()` holds iff `size()` is 0. |
| RingBuffers.PushGrows | src/std/FixedRingBuffer.hpp:32-36 | `push` raises the size by one and keeps at most `Size` elements queued. |
| RingBuffers.PopShrinks | src/std/FixedRingBuffer.hpp:38-41 | `pop` lowers the size by one. |
| RingBuffers.PopTakesOldest | src/std/FixedRingBuffer.hpp:38-41 | `pop` returns the oldest queued element and leaves the others queued in order. |
| RingBuffers.PushAppends | src/std/FixedRingBuffer.hpp:32-36 | `push` appends its element to the queue when `Size` divides `2^32` or the write counter has not wrapped past the read counter. |
| RingBuffers.QueuedSlotIsNotWriteSlot | src/std/FixedRingBuffer.hpp:28-40 | Under that condition, the slot `push` writes is not the slot of any queued element. |
| RingBuffers.WrapOverwritesWithThreeSlots | src/std/FixedRingBuffer.hpp:28-35 | Without that condition FIFO order breaks: with three slots and `read = 2^32 - 1`, a push overwrites the one queued element. |
| RingBuffers.PeekIsNextPop | src/std/FixedRingBuffer.hpp:43-48 | `peek(0)` on a non-empty buffer passes the index check and shows what the next `pop` returns. |
| RingBuffers.PhyIndexCheckVacuous | src/std/FixedRingBuffer.hpp:59-67 | When `read >= write` the test `idx <= 0xFFFFFFFF` accepts every counter value, so `peek` checks nothing in that case. |
| RingBuffers.CounterWrapTests | src/std/tests/FixedRingBuffer.cpp:62-98 | With both counters at `2^32 - 1`, one slot fills and empties correctly, and two slots return two elements in order across the wrap. |
| RadixSorts.BucketMembers | src/std/RadixSort.hpp:23-28 | An index is in bucket `b` iff it is in the input and its digit is `b`. |
| RadixSorts.ByDigitPermutes | src/std/RadixSort.hpp:16-54 | The reference result of a pass, the buckets `0..255` concatenated, is a permutation of the input. |
| RadixSorts.StartSplits | src/std/RadixSort.hpp:30-39 | The exclusive prefix sum of the counts for digit `b` is where bucket `b` begins in the reference result. |
| RadixSorts.OneBucketIsIdentity | src/std/RadixSort.hpp:41-44 | With at most one non-empty bucket the reference result is the input itself, so the verbatim copy is correct. |
| RadixSorts.PassExtendsOrder | src/std/RadixSort.hpp:46-53 | A pass turns input ordered by `lo` into output ordered by any `hi` that the digit refines from `lo`. This is where stability is needed. |
| RadixSorts.PassOrdersDigits | src/std/RadixSort.hpp:46-53 | A pass orders its output by digit. |
| RadixSorts.PassIsStable | src/std/RadixSort.hpp:46-53 | A pass is stable: for every digit `b`, the indices with digit `b` appear in the output in their input order. |
| RadixSorts.CountDigits | src/std/RadixSort.hpp:21-28 | After the first loop, `counts[b]` is the number of indices whose digit is `b`. |
| RadixSorts.BucketStarts | src/std/RadixSort.hpp:30-39 | After the second loop, `counts[b]` holds the start of bucket `b`, and `numNonZero` is the number of non-empty buckets. |
| RadixSorts.Scatter | src/std/RadixSort.hpp:46-53 | The third loop, which writes each index at its bucket's next free position, produces exactly the reference result. |
| RadixSorts.Digit | src/std/RadixSort.hpp:26 | `(keys[index] >> Shift) & 0xFF` is below 256. |
| RadixSorts.LowSplit | src/std/RadixSort.hpp:26 | The low `shift + 8` bits of a key are its byte at `shift` above its low `shift` bits. |
| RadixSorts.LowRefines | src/std/RadixSort.hpp:56-61 | Ordering by the low `shift + 8` bits means ordering by the byte at `shift` first, then by the low `shift` bits. |
| RadixSorts.CountingSort | src/std/RadixSort.hpp:16-54 | `countingSort<Shift>` outputs the stable sort of its input by the byte at `Shift`. When at most one byte value occurs, the output is the input. |
| RadixSorts.Pass | src/std/RadixSort.hpp:16-54 | One pass keeps the indices as a permutation and extends an order by the low `shift` bits to one by the low `shift + 8` bits. |
| RadixSorts.FourPasses | src/std/RadixSort.hpp:56-61 | Four passes starting at `shift` take an order by the low `shift` bits to one by the low `shift + 32` bits. The other buffer holds the order by the low `shift + 24` bits. |
| RadixSorts.NothingIsOrdered | src/std/RadixSort.hpp:57 | Every sequence is ordered by the low 0 bits, so the first pass needs no precondition. |
| RadixSorts.AllBitsIsKey | src/std/RadixSort.hpp:56-61 | When every key fits in `bits` bits, ordering by the low `bits` bits is ordering by key. |
| RadixSorts.RadixSort32 | src/std/RadixSort.hpp:56-61 | For `u32` keys, `indices` ends up a permutation of its input, ordered by key. `temp` holds the order by the low 24 bits. |
| RadixSorts.RadixSort64 | src/std/RadixSort.hpp:67-76 | For `u64` keys, eight passes leave `indices` a permutation of its input, ordered by key. |
| RadixSorts.PatternOrder | src/std/RadixSort.hpp:63-65 | Comparing the `u32` bit patterns of two `i32` values puts non-negative values before negative ones, and orders each sign group by value. |
| RadixSorts.RadixSortI32 | src/std/RadixSort.hpp:63-65 | For `i32` keys, reinterpreted as `u32`, the indices end up ordered by bit pattern, so negative keys sort after all non-negative ones. |
| RadixSortExamples.Pinned | src/std/tests/Sort.cpp:11-58 | With distinct keys, any permutation of `0..3` ordered by key is the expected one, so the test outcomes are determined. |
| RadixSortExamples.SortEmpty | src/std/tests/Sort.cpp:7-9 | Sorting no indices gives no indices. |
| RadixSortExamples.AlreadySorted | src/std/tests/Sort.cpp:11-21 | Keys already in order leave the indices `0, 1, 2, 3`. |
| RadixSortExamples.SortU32 | src/std/tests/Sort.cpp:23-33 | The `u32` test's keys sort the indices to `2, 1, 0, 3`. |
| RadixSortExamples.SortI32 | src/std/tests/Sort.cpp:35-45 | The `i32` test's keys, all non-negative, sort the indices to `2, 3, 0, 1`. |
| RadixSortExamples.SortU64 | src/std/tests/Sort.cpp:47-58 | The `u64` test's keys sort the indices to `3, 0, 1, 2`. |
| MergeSorts.MergeOf | src/std/Sort.hpp:23-36 | The merged sequence has as many elements as both inputs together. |
| MergeSorts.Group | src/std/Sort.hpp:16-21 | The elements of one key class are no more than the whole input. |
| MergeSorts.GroupConcat | src/std/Sort.hpp:23-36 | Taking one key class distributes over concatenation. |
| MergeSorts.GroupAbove | src/std/Sort.hpp:29-30 | A sorted input whose first key is above `k` holds nothing of key `k`. |
| MergeSorts.MergePermutes | src/std/Sort.hpp:23-36 | Merging loses and invents nothing: the result is a permutation of both inputs together. |
| MergeSorts.MergeSorted | src/std/Sort.hpp:23-36 | Merging two sorted inputs gives a sorted output. |
| MergeSorts.HeadBelow | src/std/Sort.hpp:29-33 | Putting in front an element no greater than anything that remains keeps the output sorted. |
| MergeSorts.MergeGroups | src/std/Sort.hpp:29-33 | Among equal keys the merge emits the right input's elements before the left input's, because it takes from the left only on a strict `cmp`; so the merge is not stable. |
| MergeSorts.Merge | src/std/Sort.hpp:23-36 | The loop over `dst` with two cursors fills the first `n` slots exactly as the reference merge does. |
| MergeSorts.TakeLeft | src/std/Sort.hpp:29-31 | When the left head is strictly below the right head, or the right is used up, the next output is the left head. |
| MergeSorts.TakeRight | src/std/Sort.hpp:32-33 | Otherwise the next output is the right head. |
| MergeSorts.ImplMergeSort | src/std/Sort.hpp:38-63 | The recursion with swapped buffers keeps both buffers at the input's length. |
| MergeSorts.ImplSorts | src/std/Sort.hpp:38-63 | Started with `dst` equal to `s`, the swapped-role recursion leaves `dst` a sorted permutation of `s` and `s` a permutation of itself. |
| MergeSorts.ImplStep | src/std/Sort.hpp:44-62 | One level is the merge of the two halves sorted with the buffers' roles swapped, and leaves the source holding those two halves. |
| MergeSorts.FromHalves | src/std/Sort.hpp:59-62 | Merging sorted permutations of the two halves gives a sorted permutation of the whole. |
| MergeSorts.ImplClobbers | src/std/Sort.hpp:38-63 | On two or more elements the source buffer ends up holding each half sorted on its own. |
| MergeSorts.MergeSortTo | src/std/Sort.hpp:89-97 | The destination ends sorted and a permutation of the source; an empty input leaves both buffers untouched. |
| MergeSorts.MergeSortInPlace | src/std/Sort.hpp:99-107 | Sorting through a scratch copy leaves the slice a sorted permutation of itself. |
| MergeSortExamples.AscendingIsSorted | src/std/Sort.hpp:16-21 | A strictly ascending sequence is sorted under `Less<T>`, and every earlier element is below every later one. |
| MergeSortExamples.SortsTo | src/std/tests/Sort.cpp:65-94 | A sorted permutation of a strictly ascending sequence is that sequence, which is what the tests compare against. |
| MergeSortExamples.SortEmpty | src/std/tests/Sort.cpp:60-63 | Sorting an empty slice succeeds and changes nothing. |
| MergeSortExamples.SortOne | src/std/tests/Sort.cpp:108-114 | A one-element slice sorts to itself. |
| MergeSortExamples.SortsInto | src/std/tests/Sort.cpp:65-94 | Sorting any permutation of a strictly ascending sequence yields that sequence. |
| MergeSortExamples.SortOdd | src/std/tests/Sort.cpp:96-106 | `[5, 4, 3, 2, 1]` sorts to `[1, 2, 3, 4, 5]`. |
| MergeSortExamples.SortU32 | src/std/tests/Sort.cpp:65-73 | The test's four `u32` keys come out ascending. |
| MergeSortExamples.SortI32 | src/std/tests/Sort.cpp:75-83 | The test's four `i32` keys come out ascending. |
| MergeSortExamples.SortU64 | src/std/tests/Sort.cpp:85-94 | The test's four `u64` keys come out ascending. |
| MergeSortExamples.ClobbersInto | src/std/Sort.hpp:89-97 | After `mergeSort(dst, s)` the source holds the ascending arrangement of each of its halves, side by side. |
| MergeSortExamples.SourceIsClobbered | src/std/Sort.hpp:89-97 | Sorting `[4, 3, 2, 1]` into `dst` leaves the source as `[3, 4, 1, 2]`. |
| MergeSortExamples.NotStable | src/std/Sort.hpp:23-36 | Two elements with equal keys come out swapped. |
| Hash.Fnv64 | src/std/Hash.c:11-21 | Only the first `len` bytes are hashed; the loop computes both the back-folded and the front-threaded hash; zero bytes give the offset basis `0xcbf29ce484222325`. |
| Hash.Fnv64Snoc | src/std/Hash.c:16-18 | Hashing one more byte xors it into the previous hash and multiplies by `0x100000001B3` modulo 2^64. |
| Hash.Fnv64Of | src/std/Hash.c:11-21 | The hash defined by peeling off the last byte equals the rounds threaded from the front of the bytes, starting at the offset basis, as the loop runs them. |
| Hash.InverseCancels | src/std/Hash.c:17 | Multiplication modulo m by a number with a modular inverse is undone by that inverse. |
| Hash.RoundInjective | src/std/Hash.c:17 | Because the FNV prime is odd, a round is injective in its byte. |
| Hash.XorUndone | src/std/Hash.c:17 | Multiplying a round's result by the prime's inverse modulo 2^64 gives back `h ^ b`. |
| Hash.LastByteDetermined | src/std/Hash.c:11-21 | Two byte strings that differ only in their last byte always hash differently, in both directions of the iff. |
| Tries.ChildIndex | src/std/Trie.hpp:41 | `(u64)h >> 62` names one of the four children, the one whose quarter of the `u64` range holds the cursor. |
| Tries.At | src/std/Trie.hpp:13-20 | Following child indices through a trie whose nodes all have four children reaches such a trie again. |
| Tries.ReplaceAt | src/std/Trie.hpp:41-53 | Writing a node through the child pointer the walk reached keeps every node at four children. |
| Tries.Upsert | src/std/Trie.hpp:22-54 | `upsert` behaves as the path description says: it stops at an equal key or an empty child and acts on that one node. |
| Tries.UpsertMatchesSpec | src/std/Trie.hpp:24-53 | The loop with its cursor and the path description agree from every node and every cursor. |
| Tries.UpsertValue | src/std/Trie.hpp:74-78 | The two-argument `upsert` has the same effect as the four-argument form, whatever the discarded flag held. |
| Tries.Remove | src/std/Trie.hpp:56-72 | `remove` changes at most the node the walk stops at, and only its tombstone; it returns whether it changed it. |
| Tries.RemoveMatchesPath | src/std/Trie.hpp:58-71 | The removal loop agrees with the path description from every node and every cursor. |
| Tries.LookupAtPath | src/std/Trie.hpp:24-42 | The walk stays inside the trie and stops at an empty child or at a node with an equal key; the live value is that node's unless it is a tombstone. |
| Tries.Lookup | src/std/Trie.hpp:22-47 | `upsert` with a null arena reads the node the walk for the key stops at, which is an empty child or a node with an equal key. It yields that node's value unless the walk ended at an empty child or the node is a tombstone. |
| Tries.PathThroughReplace | src/std/Trie.hpp:41-53 | Putting a node with the same key (or a new leaf) where the walk stopped leaves the walk's path unchanged. |
| Tries.LookupReplace | src/std/Trie.hpp:24-42 | Replacing a subtrie does not disturb a lookup that reads the old and the new subtrie alike. |
| Tries.SizeReplace | src/std/Trie.hpp:49-53 | Replacing a subtrie changes the node count by exactly the difference. |
| Tries.UpsertLive | src/std/Trie.hpp:25-39 | On a live key `upsert` sets `wasPresent`, returns that node's value slot, and changes neither the trie nor the arena, arena or not. |
| Tries.UpsertWithoutArena | src/std/Trie.hpp:27-47 | With a null arena the trie is unchanged, the slot is non-null exactly when the key is live, and `wasPresent` is cleared only for an absent key (a tombstone leaves it as it was). |
| Tries.UpsertWithArena | src/std/Trie.hpp:22-54 | With an arena the key is live afterwards: an absent key costs one allocation (out of memory exactly when that fails) and one node with a zeroed value, a tombstone is revived zeroed, a live key keeps its value. |
| Tries.UpsertKeepsOthers | src/std/Trie.hpp:22-54 | `upsert` never changes the lookup of any key not equal to the one inserted. |
| Tries.RemoveLookup | src/std/Trie.hpp:56-72 | `remove` returns whether the key was live, leaves it not live, and neither adds nor unlinks nodes. |
| Tries.RemoveKeepsOthers | src/std/Trie.hpp:56-72 | `remove` never changes the lookup of any other key. |
| Tries.UpsertThenRemove | src/std/Trie.hpp:22-72 | After a successful insert, `remove` finds the key live and leaves it deleted. |
| Tries.PathStep | src/std/Trie.hpp:24-41 | Step `d` of the walk takes the child named by the top two bits of the cursor after `d` shifts. |
| Tries.U64Cursor | src/std/Trie.hpp:24 | For `u64` keys, `h <<= 2` repeated `d` times leaves `key * 4^d` modulo 2^64. |
| Tries.U64PathStep | src/std/Trie.hpp:24-41 | For `u64` keys, step `d` consumes the next two bits of the key from the top. |
| Tries.StrCursor | src/std/TrieStrKey.hpp:32 | For string keys the loop's `h <<= 2` returns a new key and leaves the cursor as it was, at every step. |
| Tries.StrPathIsConstant | src/std/TrieStrKey.hpp:32-33 | For string keys every step takes the child named by the top two bits of the second hash, so keys agreeing on those bits form one chain. |
| Tries.U64Equivalence | src/std/Trie.hpp:25 | `==` on `u64` keys is an equivalence. |
| Tries.StrEquivalence | src/std/TrieStrKey.hpp:35-37 | `==` on string keys is an equivalence. |
| TrieStrKeys.WithHash | src/std/TrieStrKey.hpp:26 | The two-argument constructor stores the key and uses the hash for both hashes. |
| TrieStrKeys.Default | src/std/TrieStrKey.hpp:22 | The default key is the empty string with both hashes zero. |
| TrieStrKeys.FromKey | src/std/TrieStrKey.hpp:24-25 | A key built from a string carries its FNV-1a hash in both hashes. |
| TrieStrKeys.ShiftLeft | src/std/TrieStrKey.hpp:32 | `<<=` returns a key with the same string and full hash and the full hash shifted left in 64 bits as its second hash. |
| TrieStrKeys.ToU64 | src/std/TrieStrKey.hpp:24-33 | The value the trie walks by is, for a key built from a string, that string's FNV-1a hash, and for a key made by `<<= sh`, the original key's full hash shifted left by `sh` in 64 bits. |
| TrieStrKeys.Equal | src/std/TrieStrKey.hpp:35-37 | Two keys are equal exactly when their full hashes and their strings agree; the second hash plays no part. |
| TrieStrKeys.EqualIsEquivalence | src/std/TrieStrKey.hpp:35-37 | Key equality is reflexive, symmetric and transitive. |
| TrieStrKeys.FromKeyEqual | src/std/TrieStrKey.hpp:24-37 | Keys built from strings are equal exactly when the strings are. |
| TrieStrKeys.ShiftKeepsEquality | src/std/TrieStrKey.hpp:32-37 | A shifted key is equal to the key it came from. |
| TrieStrKeys.ShiftsDoNotAccumulate | src/std/TrieStrKey.hpp:32 | Shifting a shifted key forgets the first shift, because the second hash is recomputed from the full hash. |
| Uuids.OctetIsShiftMask | src/std/Uuid.hpp:44-63 | The octet the constructor stores, `(x >> 8k) & 0xFF`, is the `k`-th base-256 digit of `x`. |
| Uuids.StoredOctets | src/std/Uuid.hpp:44-49 | The six shift amounts 0 to 40 pick the six low octets of a field, least significant first. |
| Uuids.FromParts | src/std/Uuid.hpp:42-64 | Display octet 6 is the high octet of `time_hi_and_version` and display octet 8 the high octet of the clock sequence: the octets `version()` and `variant()` read. |
| Uuids.Default | src/std/Uuid.hpp:32 | The default UUID is the nil UUID: all sixteen octets zero. |
| Uuids.Display | src/std/Uuid.hpp:97-104 | The display order is `operator[]` read from 0 to 15, i.e. the stored octets reversed. |
| Uuids.DisplayIsReversed | src/std/Uuid.hpp:97-104 | The display order, `operator[]` read from 0 to 15, is the independently defined reversal of the storage order. |
| Uuids.Equal | src/std/Uuid.hpp:93-95 | `==` compares all sixteen stored octets, which makes it equality of UUIDs. |
| Uuids.EqualIff | src/std/Uuid.hpp:93-104 | `==` holds, and two UUIDs are the same value, exactly when they display alike. |
| Uuids.BigEndianOfOctets | src/std/Uuid.hpp:42-64 | Reading back the `n` big-endian octets of `x` gives `x` modulo `2^8n`. |
| Uuids.OctetsOfBigEndian | src/std/Uuid.hpp:42-64 | Any octet string is the big-endian octets of the number it spells, and that number fits its width. |
| Uuids.DisplayOfParts | src/std/Uuid.hpp:34-64 | The five-part constructor displays `time_low`, `time_mid`, `time_hi_and_version`, the clock sequence and `node`, each big-endian, in that order, as section 4 of RFC 9562 lays them out. |
| Uuids.FieldsOfParts | src/std/Uuid.hpp:42-64 | The fields read from a constructed UUID are the numbers spelled by each argument's octets. |
| Uuids.ReadBackParts | src/std/Uuid.hpp:40-64 | Each argument's octets spell the argument back, except that `node` loses its top 16 bits. |
| Uuids.PartsRoundTrip | src/std/Uuid.hpp:34-64 | Constructing from five parts and reading the fields gives the parts back, `node` cut to 48 bits. |
| Uuids.FieldsFit | src/std/Uuid.hpp:34-41 | Every field read from a UUID fits its width and its octets are the display octets it came from. |
| Uuids.FieldsRoundTrip | src/std/Uuid.hpp:42-64 | Every UUID is the five-part construction of its own fields, so the constructor is onto. |
| Uuids.RawVariant | src/std/Uuid.hpp:106 | `rawVariant()` is the top nibble of display octet 8. |
| Uuids.MaskNcs | src/std/Uuid.hpp:109 | `(rv & 0b1000) == 0` holds exactly when the nibble starts with `0`. |
| Uuids.MaskDce | src/std/Uuid.hpp:113 | Past the first test, `(rv & 0b1100) == 0b1000` holds exactly when it starts with `10`. |
| Uuids.MaskMs | src/std/Uuid.hpp:117 | Past the second, `(rv & 0b1110) == 0b1100` holds exactly when it starts with `110`. |
| Uuids.VariantOf | src/std/Uuid.hpp:106-122 | `variant()` with the source's three masks classifies display octet 8 as the variant table of section 4.1 of RFC 9562 does: `0xxx` NCS, `10xx` DCE, `110x` Microsoft, `111x` unknown. |
| Uuids.Version | src/std/Uuid.hpp:124-127 | For the DCE variant, `version()` is the top nibble of display octet 6. |
| Uuids.VersionField | src/std/Uuid.hpp:70 | `(v << 12) \| (b & 0x0FFF)` puts the version nibble over the low twelve bits of the input. |
| Uuids.ClockSeqField | src/std/Uuid.hpp:71 | `0x8000 \| ((c >> 48) & 0x3FFF)` puts the variant bits `10` over fourteen bits of the input. |
| Uuids.BigEndianConcat | src/std/Uuid.hpp:42-64 | The number two octet strings spell one after the other is the first shifted past the second, plus the second. |
| Uuids.VersionedFields | src/std/Uuid.hpp:66-88 | A versioned UUID's fields come from the inputs except for the version nibble and the variant bits. |
| Uuids.VersionedVariant | src/std/Uuid.hpp:66-88 | Every versioned constructor yields the DCE variant. |
| Uuids.VersionedVersion | src/std/Uuid.hpp:66-88 | Every versioned constructor's `version()` is its own version number. |
| Uuids.VersionedTime | src/std/Uuid.hpp:66-88 | The first six display octets spell the low 48 bits of the first input. |
| Uuids.VersionedLayout | src/std/Uuid.hpp:66-88 | Variant, version and the leading 48 bits together, for every versioned constructor. |
| Uuids.VersionedInjective | src/std/Uuid.hpp:66-88 | A versioned UUID keeps exactly 122 input bits: two of them are equal iff the low 48, 12 and 62 bits of their inputs agree. |
| Uuids.Version4Layout | src/std/Uuid.hpp:66-72 | Version 4 of section 5.4 of RFC 9562: version 4, DCE variant, and the fields taken from the random inputs. |
| Uuids.Version7Layout | src/std/Uuid.hpp:74-80 | Version 7 of section 5.7 of RFC 9562: version 7, DCE variant, and the millisecond timestamp big-endian in the first six octets. |
| Uuids.Version8Layout | src/std/Uuid.hpp:82-88 | Version 8 of section 5.8 of RFC 9562: version 8, DCE variant, and custom data elsewhere. |
| Uuids.Version4 | src/std/Uuid.hpp:66-72 | The version 4 constructor yields the DCE variant and version 4. |
| Uuids.Version7 | src/std/Uuid.hpp:74-80 | The version 7 constructor yields the DCE variant and version 7. |
| Uuids.Version8 | src/std/Uuid.hpp:82-88 | The version 8 constructor yields the DCE variant and version 8. |
| UuidExamples.DceVariantExample | src/std/tests/Uuid.cpp:4-9 | The RFC example UUID has raw variant `0xA` and the DCE variant. |
| UuidExamples.Version4Fields | src/std/tests/Uuid.cpp:11-12 | The test's version 4 inputs give the fields `919108f7-52d1-4320-9bac-f847db4148a8`. |
| UuidExamples.Version4Example | src/std/tests/Uuid.cpp:11-15 | The version 4 test UUID has the DCE variant, version 4, and those fields. |
| UuidExamples.Parts4Front | src/std/tests/Uuid.cpp:17-26 | Display octets 0 to 7 of the version 4 test are as it expects. |
| UuidExamples.Parts4Clock | src/std/tests/Uuid.cpp:28-29 | Display octets 8 and 9 of the version 4 test are as it expects. |
| UuidExamples.Parts4Node | src/std/tests/Uuid.cpp:31-36 | Display octets 10 to 15 of the version 4 test are as it expects. |
| UuidExamples.Version4Octets | src/std/tests/Uuid.cpp:11-37 | All sixteen octets the version 4 test checks. |
| UuidExamples.Version7Fields | src/std/tests/Uuid.cpp:39-40 | The test's version 7 inputs give the fields `017f22e2-79b0-7cc3-98c4-dc0c0c07398f`. |
| UuidExamples.Version7Example | src/std/tests/Uuid.cpp:39-43 | The version 7 test UUID has the DCE variant, version 7, and those fields. |
| UuidExamples.Parts7Front | src/std/tests/Uuid.cpp:46-55 | Display octets 0 to 7 of the version 7 test are as it expects. |
| UuidExamples.Parts7Clock | src/std/tests/Uuid.cpp:57-58 | Display octets 8 and 9 of the version 7 test are as it expects. |
| UuidExamples.Parts7Node | src/std/tests/Uuid.cpp:60-65 | Display octets 10 to 15 of the version 7 test are as it expects. |
| UuidExamples.Version7Octets | src/std/tests/Uuid.cpp:39-66 | All sixteen octets the version 7 test checks. |
| UuidExamples.Version8Fields | src/std/tests/Uuid.cpp:68-69 | The test's version 8 inputs give the fields `2489e9ad-2ee2-8e00-8ec9-32d5f69181c0`. |
| UuidExamples.Version8Example | src/std/tests/Uuid.cpp:68-72 | The version 8 test UUID has the DCE variant, version 8, and those fields. |
| UuidExamples.Parts8Front | src/std/tests/Uuid.cpp:74-83 | Display octets 0 to 7 of the version 8 test are as it expects. |
| UuidExamples.Parts8Clock | src/std/tests/Uuid.cpp:85-86 | Display octets 8 and 9 of the version 8 test are as it expects. |
| UuidExamples.Parts8Node | src/std/tests/Uuid.cpp:88-93 | Display octets 10 to 15 of the version 8 test are as it expects. |
| UuidExamples.Version8Octets | src/std/tests/Uuid.cpp:68-94 | All sixteen octets the version 8 test checks. |
| CommandEncoders.NewEncoder | src/std/CommandEncoder.hpp:25-37 | A new encoder has pushed nothing and has no flag set. |
| CommandEncoders.MarkDirty | src/std/CommandEncoder.hpp:48-51 | `_dirtyMask \|= 1u << DF` adds flag `DF` and keeps every other flag. |
| CommandEncoders.Set | src/std/CommandEncoder.hpp:46-69 | A different value overwrites the field and sets its flag; an equal value changes nothing; the stream is never touched. |
| CommandEncoders.SetElement | src/std/CommandEncoder.hpp:103-111 | Only element `idx` of an array field and only flag `DF + idx` can change, and they change exactly when the value differs. |
| CommandEncoders.RoomInSegments | src/std/SegmentArray.hpp:69-76 | Room for `k` more bytes in the encoder means the output segment array can hold them. |
| CommandEncoders.PushBytes | src/std/CommandEncoder.hpp:170-174 | `pushBytesOf` appends the value's bytes to the stream, grows the length by their count, and leaves the mask alone. |
| CommandEncoders.U32BytesRoundTrip | src/std/CommandEncoder.hpp:125 | The four octets the mask is pushed as read back to the mask. |
| CommandEncoders.PushDirtyMask | src/std/CommandEncoder.hpp:125 | `pushDirtyMask` appends the mask's four octets and keeps the mask. |
| CommandEncoders.PushIfFlag | src/std/CommandEncoder.hpp:131-137 | The value's bytes are appended exactly when flag 0 is set, and the mask moves down one flag; running out of memory needs something to push. |
| CommandEncoders.FlaggedSnoc | src/std/CommandEncoder.hpp:145-150 | One more field at the end adds its image exactly when its flag is set. |
| CommandEncoders.LowFlagOfShr | src/std/CommandEncoder.hpp:133-136 | After `i` right shifts the low flag is flag `i` of the original mask. |
| CommandEncoders.EachStep | src/std/CommandEncoder.hpp:147-149 | One iteration of the array `pushIfFlag` extends the stream by element `i`'s image when flag `i` is set. |
| CommandEncoders.PushIfFlagEach | src/std/CommandEncoder.hpp:145-150 | The array `pushIfFlag` appends, in order, exactly the elements whose flags are set, and moves the mask down `N` flags. |
| CommandEncoders.WholeStep | src/std/CommandEncoder.hpp:160-162 | One iteration of `pushIfFlagWhole` appends element `i`'s image. |
| CommandEncoders.PushIfFlagWhole | src/std/CommandEncoder.hpp:157-165 | `pushIfFlagWhole` appends all elements in order when flag 0 is set, nothing otherwise, and moves the mask down one flag. |
| CommandEncoders.ClearDirtyMask | src/std/CommandEncoder.hpp:176 | No flag is left set and the stream is kept. |
| CommandEncoders.ExtractBuffer | src/std/CommandEncoder.hpp:32-34 | The extracted slice holds every pushed byte in push order; an empty stream gives the null slice, otherwise it fails exactly when the arena cannot hold the bytes. |
| CommandEncoders.EndCommand | src/std/tests/CommandCodec.cpp:39-46 | One command is the mask's octets followed by the flagged fields in flag order; afterwards the mask has moved down one flag per field, so it is zero when every flag was consumed, and at least four bytes were pushed. |
| CommandEncoders.ReadFlagged | src/std/CommandEncoder.hpp:127-150 | Reading field sizes back from the flagged images yields exactly the flagged fields and the untouched remainder. |
| CommandEncoders.EncodeDecode | src/std/CommandEncoder.hpp:121-150 | Decoding one encoded command gives back the mask, exactly the flagged fields' images, and whatever follows. |
| CommandEncoders.ChangesByFlag | src/std/CommandEncoder.hpp:139-144 | Field `i` is reported changed exactly when bit `i` of the mask, counted from the least significant, is set. |
| KhrTwoCall.FillDefault | src/std/KhrTwoCall.hpp:47-50 | The initialisation loop leaves exactly `numElems` copies of the default value. |
| KhrTwoCall.TwoCall | src/std/KhrTwoCall.hpp:28-62 | The first call always asks with count 0 and no buffer; a negative first code returns at once; the second call gets the first call's count and a buffer of defaults; any negative code leaves the arena as it was and `dst` null; success leaves `dst` at the allocation, as long as the count the second call wrote back. |
| KhrTwoCall.TwoCallV | src/std/KhrTwoCall.hpp:73-94 | Exactly two calls with no early return and no rollback: the first asks for the count, the second fills a buffer of that many defaults, and `dst` is the allocation with the count written back. |
| Optionals.Make | src/std/Optional.hpp:120 | A default-constructed optional holds no value. |
| Optionals.HasValue | src/std/Optional.hpp:151-152 | `hasValue` is false exactly for the empty optional. |
| Optionals.Of | src/std/Optional.hpp:121-123 | Constructing from a value holds exactly that value. |
| Optionals.Reset | src/std/Optional.hpp:154 | After `reset` no value is held. |
| Optionals.CopyAssign | src/std/Optional.hpp:125-132 | For a distinct target and source, the target afterwards holds a value exactly when the source does, and the same one, whatever the target held. |
| Optionals.MoveAssign | src/std/Optional.hpp:134-149 | For a distinct target and source, the target afterwards has the source's presence and value, and the source is empty in every case. |
| Optionals.SelfCopyAssign | src/std/Optional.hpp:125-132 | `o = o` resets `o` before it reads the source, which is `o` itself, so the optional ends up empty. |
| Optionals.SelfMoveAssign | src/std/Optional.hpp:134-149 | `o = std::move(o)` resets the source after the move, and the source is `o`, so the optional ends up empty. |
| Optionals.SelfAssignEmpties | src/std/Optional.hpp:125-149 | Assigning a present optional to itself empties it, unlike assigning an equal but distinct optional; an empty optional stays empty either way. |
| Optionals.Value | src/std/Optional.hpp:156-174 | `value()` is only called on a present optional and returns what it was constructed with. |
| Optionals.ValueOr | src/std/Optional.hpp:176-182 | `valueOr` returns the held value when present and the fallback otherwise. |
| Optionals.AsSlice | src/std/Optional.hpp:193-199 | The slice conversion is the null slice exactly when empty, and otherwise a one-element view of the stored value. |
| Optionals.ConstructAndRead | src/std/tests/Optional.cpp:5-53 | A constructed value reads back through `value()` and `valueOr`; an empty one yields the fallback. |
| Optionals.CopyAssignIdempotent | src/std/tests/Optional.cpp:19-46 | Copy assignment from a distinct optional makes the target equal to the source, so repeating it changes nothing. |
| Optionals.MoveIsCopyThenReset | src/std/Optional.hpp:125-154 | Move assignment leaves the target as copy assignment would and resets the source. |
| Optionals.SliceReadsValue | src/std/Optional.hpp:193-199 | The slice has at most one element, exactly one when a value is present, and that element is the value. |
| Results.FromValue | src/std/Result.hpp:104-107 | Constructing from a value gives an ok result, not an error, holding the value. |
| Results.FromError | src/std/Result.hpp:105-108 | Constructing from an error gives an error result, not ok, holding the error. |
| Results.IsOk | src/std/Result.hpp:128 | `isOk` holds exactly when the result does not hold an error. |
| Results.IsErr | src/std/Result.hpp:129 | `isErr` is the complement of `isOk`. |
| Results.Unwrap | src/std/Result.hpp:137-140 | `unwrap` on an ok result returns the value it was built from. |
| Results.UnwrapErr | src/std/Result.hpp:150-153 | `unwrapErr` on an error result returns the error it was built from. |
| Results.UnwrapOrDefault | src/std/Result.hpp:142-148 | `unwrapOrDefault` is the value when ok and `T()` otherwise. |
| Results.Assign | src/std/Result.hpp:53-87 | Copy and move assignment give the target the source's tag and payload, whatever the target held. |
| Results.Flatten | src/std/Result.hpp:156-168 | `flatten` passes on the outer error, else the inner error, else the inner value. |
| Results.FlattenOfWrapped | src/std/Result.hpp:156-168 | `flatten` undoes wrapping a result in an ok result. |
| Results.FlattenCases | src/std/tests/Result.cpp:76-99 | The three flatten cases of the tests: inner value, inner error, outer error. |
| Results.AssignCopies | src/std/tests/Result.cpp:41-74 | Assignment makes the target equal to the source, so repeating it is idempotent. |
| Results.UnwrapOrDefaultOfConstructors | src/std/Result.hpp:142-148 | `unwrapOrDefault` reads back the stored value, or the default for an error. |

## Left out

- Logging (src/std/log/log.c), clocks (Chronometry) and threads (src/std/os): formatted I/O, OS clocks and concurrency are outside a pure model.
- The thread-local storage behind `getScratch` (src/std/ArenaTls.c:13-101) and the weak `checkFail` (src/std/ArenaTls.c:126-132): OS and linker plumbing. The scratch context is an explicit value.
- AddressSanitizer poisoning, and the sanitizer-only alignment rounding in `allocImpl` (src/std/Arena.c:22-25): these are no-ops in a normal build.
- The `handleOOM` retry loop and the `setjmp`/`longjmp` test harness: non-local control flow. Out of memory is a failure outcome instead.
- `CHECK`/`DCHECK` reporting, the build headers and `Defer.hpp`: assertions become preconditions, and the typedefs become the `Types` module.
- The STL adapters (SliceStlVector.hpp, SliceStlString.hpp): thin wrappers over `std::vector` and `std::string`.
- VectorUtils.hpp and its tests: `Vector.hpp` is not part of this model.
- `CommandDecoder` is not part of this model. Its header is not available, so `CommandEncoders.DecodeCommand` is a reference decoder written for the round trip, not a model of it.
- Raw memory reinterpretation: `Slice::cast`, `byteLength`, the `memcopy` specialisations, `copyElements`, `zeroMemory`, the `offsetof` recovery of a pool node from its value (src/std/Pool.hpp:122-123), and the placement-new and destructor mechanics of `Optional` and `Result`. Values are typed, and a value's byte image is passed in where the source reads it. `pushBytesOf` copies the dirty mask in host byte order, and the model fixes that order as little-endian (`CommandEncoders.U32Bytes`).
- Floating-point test data (`f32` fields in the Slice, Optional, Result and CommandCodec tests): integers stand in for the element types.
- The free-function wrappers that repeat member operations (src/std/Slice.hpp:455-644), and the free `copy`, `fill`, `convert`, `findFirst` and slice `operator==` of SliceUtils.hpp. The member forms are modelled, and the free forms only forward to the same loops.
- `ArenaTempScoped`, the one-argument `releaseScratch`/`resetScratch` macros, and `makeSlice`, whose return type does not match what it builds: these are deprecated or unusable wrappers.
- `sliceOfSegment`, the slice iterator protocol, `asConst`, `shrinkFromLeft` and the `i32` `operator[]`: accessors with no logic beyond what the modelled members state.
- `Ranges.Pipe` (`operator|`, src/std/Ranges.hpp:386-389): it applies the adaptor to the range and does nothing more, so it has no row.
- The `i32` reinterpretation in `radixSort`: an `i32` key is its unsigned bit pattern, which is the order the source produces.
- Arrays.Subarray: models the evidently intended call of the free `subarray` on the whole-array view. As written (src/std/Array.hpp:64-67), the unqualified call inside the member finds the two-argument member itself, so the member does not compile once it is used.
- SegmentArrays.Push: requires room below the cap of 26 segments, `2^32 - 64` elements. `SegmentArrays.Grow`, `SegmentArrays.GrowIfNeededPrePush`, `SegmentArrays.PushDefault`, `SegmentArrays.PushEach`, `SegmentArrays.PushSlice`, `CommandEncoders.PushBytes` and the encoder pushes built on it carry the same requirement. The source does not check the cap. Once 26 segments are full, `grow()` (src/std/SegmentArray.hpp:93-97) writes `arrSegments[26]`, one past the end of the 26-entry array whose `operator[]` has no bounds check. It also carves a segment of `sizeOfSegment(26)`, which wraps to 0. That out-of-bounds write is not modelled.
- Pools.Preallocate: requires `count >= 1`. For `count = 0` the source sets the free-list head to `&nodes[count - 1]`, that is `&nodes[0xFFFFFFFF]` (src/std/Pool.hpp:73). The head is then wild and the old free list is lost. That case is not modelled.
- Pools.Dealloc: requires the node to be on the used list. The source checks only the node's sentinel, and `Pools.FreedNodeKeepsSentinel` shows that a freed node passes that check too, so a double free is not modelled.
- KhrTwoCall.TwoCall: requires an API function that keeps the buffer's size and reports at most as many elements as it was given. The source trusts the API for this, and a function that breaks it writes out of bounds.
- KhrTwoCall.TwoCallV: the same requirement on the API function. The returned code is 0, because the source function returns nothing.
- RingBuffers.PushAppends: states FIFO order only when `Size` divides `2^32` or the counters have not wrapped, because the source loses an element otherwise (see `RingBuffers.WrapOverwritesWithThreeSlots`).
- Utils.FromCStr: a string longer than `2^32 - 1` characters gives a view cut to its length modulo `2^32`, as the source does. The contract states that length, but states the terminator only for strings that fit.
- Utils.FromCStrWithZero: the `u32(len) + 1` wraps, so a string of `2^32 - 1` or more characters gives a view of `(len mod 2^32 + 1) mod 2^32` elements, and for exactly `2^32 - 1` characters an empty one. The contract states that length, but states the terminator only for strings shorter than `2^32 - 1`.
- Optionals.CopyAssign: states the result for a target and a source that are distinct objects. Assigning an optional to itself empties it, because the target is reset before the source is read (src/std/Optional.hpp:126-127); `Optionals.SelfCopyAssign` models that case.
- Optionals.MoveAssign: states the result for a target and a source that are distinct objects. Moving an optional onto itself empties it, because the source is reset after the move (src/std/Optional.hpp:137-138); `Optionals.SelfMoveAssign` models that case.
- Optionals.CopyAssignIdempotent: holds for a distinct target and source only; `Optionals.SelfAssignEmpties` shows how self-assignment differs.
- Uuids.FromParts: its contract states only the two octets that `variant()` and `version()` read. The full layout is stated by `Uuids.DisplayOfParts` and `Uuids.PartsRoundTrip`. As a contract of the constructor, it would be re-proved in every proof about test vectors with literal inputs, which is more than those proofs can afford.
