# In-place data structures of c-base, verified

A Dafny model of the foundation library's containers and allocators: the open-addressing hash map, the growable
array, the stack, pool and arena allocators, the `cmalloc` and buffer memory sources, and the mask arithmetic they
share. `dafny verify dfyconfig.toml` checks everything.

Each component has the same two layers.

- A **class** keeps the fields of the C struct and updates them in place with the loops of the C code. Its
  contracts say exactly what the new state is, usually by naming a function of the old state.
- **Functions and lemmas** about that state prove what the component is for: over every input and every run.

| component | files | main results |
|---|---|---|
| hash map | `HashTable.dfy`, `HashRuns.dfy`, `HashMap.dfy` | probe invariant over every run; refinement of `map<K, V>` for any lawful `equals`; rehash preserves meaning; exact condition for falling out of a probe loop |
| dynamic array | `DynArray.dfy`, `Growth.dfy` | refinement of `seq<T>`, element-lifetime discipline and amortised growth over every run of calls |
| stack | `Stack.dfy`, `HeaderMemory.dfy` | header chain recovered from user pointers; LIFO over every run; exact conditions for alignment and overlap, with runs that fail them |
| pool | `Pool.dfy`, `Ranges.dfy` | free list partitions the blocks over every run, and outstanding ones are disjoint, aligned and in bounds; LIFO reissue; exactly when a free keeps the list finite |
| buffer source | `BufferSource.dfy` | first-fit split and merge in a doubly linked list; ranges handed out are disjoint over every run of clean releases; exact condition for a clean release |
| arena, cmalloc | `Arena.dfy`, `Cmalloc.dfy` | layout over every run; release recovers the raw address |
| masks | `Align.dfy` | mask arithmetic is rounding to multiples, exactly when the sum does not wrap around |

## Modelling choices

- Allocation failure is a `mem: bool` (or `Option`) parameter: the theorems hold whichever way each call goes.
- A zeroed hash map, left behind by a failed creation, a destroy or a move, has no slots and no key policy (`keyed` is
  false), so no operation may be called on it but destroy and move.
- An UNREACHABLE marker behind a probe loop is an outcome, `Unreachable` or `FellOut`, not a precondition. That is how
  the exact completion conditions can be stated. Other failing asserts of the C code are preconditions, except
  those of `stack_free` and `stack_realloc` on the offset, which are results.
- The sentinel `INVALID_INDEX` is `None`. Sizes and indices are mathematical integers; addresses are naturals with
  explicit no-wrap-around preconditions, and the masks and `stack_realloc`'s capacity check are taken modulo 2^64.
- Constants are those of a 64-bit target: pointers of 8 bytes, `sizeof(StackHeader)` 16, `sizeof(BufferBlock)` 32,
  `alignof(max_align_t)` 16.
- Headers inside buffers are maps from address to header, and every write, updates of a header in place included,
  removes the headers and back pointers it overlaps. A proof that a header can still be read is therefore a proof that
  nothing has overwritten it.
- A slot of a dynamic array is `Raw` or `Live(v)`. The callbacks `ctor`, `dtor`, `move`, and freeing a buffer, demand
  the right state whenever the policy provides ctor, dtor and move, so each call in each loop is a proof obligation.
- Keys of a hash map are compared by the policy's `equals`, any equivalence under which equal keys hash alike. Inserting
  `k` is `Without(m, k)[k := v]`: with `==` for `equals`, that is `m[k := v]`.

## Where the code does not do what it looks like

- **Probe loops can run out.** A probe for an absent key falls out of its loop exactly when entries and tombstones
  together fill the table (`HashRuns.FallsThroughIffFilled`, `HashRuns.BlockedIffFilled`). No removal is needed for that:
  on a full table every lookup and removal of an absent key does it (`HashRuns.FullTableSticks`). Insertion grows a full
  table first, but tombstones can fill a table that is not full, and then insertion falls out too
  (`HashRuns.RemovalCanStick`). Without removals a run completes exactly when each lookup finds its key or a table that
  is not full (`HashRuns.NoRemovalCompletesIff`); runs of insert, clear and grow alone always do. Clearing an empty map
  keeps its tombstones (`HashRuns.ClearRefines`).
- **Stack alignment.** DOCS.md:102-106 says user data has the requested alignment. The padding omits the rounding of the
  offset, so this holds exactly when that rounding is a multiple of the alignment (`Stack.AlignedExactly`), and the new
  header keeps clear of older bytes under the condition of `Stack.HeaderClearExactly`. A first block of 1 to 7 bytes fails
  both for the next one (`Stack.OddSizesOverlap`). Over a run, headers survive whatever owners write exactly when every
  allocation meets that condition or follows a block of size 0 (`Stack.RunGuardedIff`). Sizes that are multiples of 8
  are enough for that and for alignment (`Stack.RunKeepsLayout`).
- **Stack realloc bound.** The capacity assertion subtracts first, so it wraps around for requests above capacity plus
  old size (`Stack.ReallocBoundExact`). Capacity plus old size plus 1 passes at every chain (`Stack.ReallocBoundFails`),
  and after the very first allocation (`Stack.OversizedReallocPasses`).
- **Buffer release.** `buffer_release` merges forward by enlarging the free block behind where it stands. The list stays
  sound exactly when that block is in use, or has room to grow and there is a block before the released one
  (`BufferSource.CleanRelease`). Releasing the first reservation of a buffer is never clean
  (`BufferSource.FirstReleaseBreaks`), and a later reservation can then end past the buffer
  (`BufferSource.ReservedPastTheEnd`).
- **Buffer merge.** The block split off by a reservation counts its size without its header, so it ends 32 bytes before
  the next block. Releasing that next block joins the two, but 32 bytes short (`BufferSource.RemainderFallsShort`); the
  joined extent is exact when there was no gap (`BufferSource.JoinedExtentIff`).
- **Buffer headers.** A header behind a request is aligned exactly when the size is a multiple of 8
  (`BufferSource.NextHeaderAlignedIff`); the first reservation of any other size misaligns one
  (`BufferSource.OddSizeMisaligns`).
- **Pool double free.** A block that is free already passes the asserts, and the list then never ends
  (`Pool.DoubleFreeCloses`).
- **Pool free list.** DOCS.md describes an intrusive list inside the blocks; the code threads it through a separate index
  array, and so does the model.

## Model

| member | source | states |
|---|---|---|
| `HashTable.WithoutIsMapRemoval` | src/foundation/containers/hashmap.c:843-884 | with `==` for `equals`, the abstract remove and insert are map removal and map update |
| `HashTable.WithoutUndoesInsert` | src/foundation/containers/hashmap.c:628-684 | removing an inserted key restores the map if the key was absent |
| `HashTable.ContentsDenotes` | src/foundation/containers/hashmap.c:31-46 | under key uniqueness the slots denote one map, with exactly the occupied entries |
| `HashTable.ProbePath` | src/foundation/containers/hashmap.c:597-622 | the `d`th probe looks at slot `(hash + d) % capacity` |
| `HashTable.Scan` | src/foundation/containers/hashmap.c:597-622 | a hit stops at the first equal key, a miss at the first Empty slot, with neither before; otherwise all slots were passed over |
| `HashTable.LastTombstoneIsLast` | src/foundation/containers/hashmap.c:657-658 | the tombstone remembered is the last one on the probe path |
| `HashTable.HitIffPresent` | src/foundation/containers/hashmap.c:597-622 | under the probe invariant, a probe hits exactly when an equal key is stored |
| `HashTable.FallsThroughIff` | src/foundation/containers/hashmap.c:556-581 | `capacity` wrap-around probes run out exactly when the key is absent and no slot is Empty |
| `HashTable.FillSlot` | src/foundation/containers/hashmap.c:770-795 | occupying a slot reached without an Empty slot keeps the probe invariant and is a map update |
| `HashTable.BurySlot` | src/foundation/containers/hashmap.c:797-832 | turning an entry into a tombstone keeps the probe invariant and removes exactly that key |
| `HashRuns.EmptySlotExists` | src/foundation/containers/hashmap.c:636-640 | pigeonhole: without tombstones, fewer entries than slots leave an Empty slot |
| `HashRuns.EmptySlotIff` | src/foundation/containers/hashmap.c:608-622 | some slot is Empty exactly when entries and tombstones together are fewer than the slots |
| `HashRuns.CountIsMapSize` | src/foundation/containers/hashmap.c:770-832 | `elem_count` is the size of the map and at most the capacity |
| `HashRuns.PlaceSucceeds` | src/foundation/containers/hashmap.c:336-385 | every rehashed entry finds an Empty slot within the probes; fall-through and TOMBSTONE branches are not taken |
| `HashRuns.RehashPreservesMeaning` | src/foundation/containers/hashmap.c:310-403 | for any capacity at least as large: same map, probe invariant for the new modulus, no tombstones, same count |
| `HashRuns.RehashKeepsOrder` | src/foundation/containers/hashmap.c:327-385 | of two entries with the same new home, the one from the lower slot ends up nearer to it |
| `HashRuns.OverwriteRefines` | src/foundation/containers/hashmap.c:664-674 | remove-then-insert at an equal key is a map update and keeps the count |
| `HashRuns.NewKeyRefines` | src/foundation/containers/hashmap.c:649-662 | inserting an absent key, into the last tombstone or the Empty slot, is a map update |
| `HashRuns.NewKeySlot` | src/foundation/containers/hashmap.c:649-658 | an absent key reuses the last tombstone before the first Empty slot, one tombstone fewer; without any it fills that Empty slot; no other slot changes |
| `HashRuns.OverwriteSlot` | src/foundation/containers/hashmap.c:664-674 | a key that is there is overwritten in its slot, and no other slot changes |
| `HashRuns.InsertRefines` | src/foundation/containers/hashmap.c:628-684 | insert is `m[k := v]`; fails only when full without memory; the capacity doubles, or becomes 1 from 0, exactly when full; runs out of probes exactly when not full, absent, and no Empty slot |
| `HashRuns.RemoveRefines` | src/foundation/containers/hashmap.c:843-884 | remove is `m - {k}`, turns exactly that entry's slot into a tombstone, and reports membership; exact fall-through condition |
| `HashRuns.GrowRefines` | src/foundation/containers/hashmap.c:487-542 | growing never changes the map; exact success condition; the new capacity is the one asked for, or twice the old, or 1; a failed grow changes nothing |
| `HashRuns.ClearRefines` | src/foundation/containers/hashmap.c:886-907 | clear gives the empty map; all slots become Empty exactly when the map was nonempty or had no tombstones, and an empty map is left as it was |
| `HashRuns.LookupRefines` | src/foundation/containers/hashmap.c:547-623 | a completed lookup is membership and its slot holds the map's value; exact fall-through condition |
| `HashRuns.FallsThroughIffFilled` | src/foundation/containers/hashmap.c:597-622 | a probe runs out exactly when the key is absent and `elem_count` plus the number of tombstones is the capacity |
| `HashRuns.BlockedIffFilled` | src/foundation/containers/hashmap.c:628-884 | the exact condition for getting stuck, for every operation, in terms of sizes; without tombstones only lookups and removals on a full table |
| `HashRuns.StepRefines` | src/foundation/containers/hashmap.c:587-907 | every operation keeps the invariant, performs its map operation, reports membership, and is stuck exactly under its guard |
| `HashRuns.RunRefines` | src/foundation/containers/hashmap.c:587-907 | every run that completes keeps the probe invariant, computes the run on maps, and its lookups and removals report membership |
| `HashRuns.NoRemovalCompletesIff` | src/foundation/containers/hashmap.c:587-684 | a run without removals completes exactly when each lookup finds its key or a table that is not full |
| `HashRuns.NoRemovalNeverStuck` | src/foundation/containers/hashmap.c:636-683 | runs of insert, clear and grow alone never reach a fall-through |
| `HashRuns.FullTableSticks` | src/foundation/containers/hashmap.c:597-622 | on a full table of one slot, without any removal before, looking up and removing an absent key do |
| `HashRuns.RemovalCanStick` | src/foundation/containers/hashmap.c:646-683 | a run with one removal whose last insertion does |
| `HashMaps.HashMap.constructor` | src/foundation/containers/hashmap.c:166-234 | a created map is the fresh table; when its buffers cannot be allocated, the zeroed map |
| `HashMaps.HashMap.Has` | src/foundation/containers/hashmap.c:587-623 | the loop returns what the probe function says, including falling out |
| `HashMaps.HashMap.At` | src/foundation/containers/hashmap.c:547-582 | the slot of the key, null, or falling out, as the probe function says |
| `HashMaps.HashMap.InsertProbe` | src/foundation/containers/hashmap.c:642-683 | the insert loop, with its last-tombstone reuse, equals `InsertInto` on the whole state |
| `HashMaps.HashMap.Insert` | src/foundation/containers/hashmap.c:628-684 | in place: a map update with the new capacity stated, failure exactly when full without memory; equals the insert function and keeps the invariant |
| `HashMaps.HashMap.Remove` | src/foundation/containers/hashmap.c:843-884 | in place: a map removal that leaves a tombstone and reports membership; equals the remove function and keeps the invariant |
| `HashMaps.HashMap.PlaceEntry` | src/foundation/containers/hashmap.c:336-385 | the inner rehash loop fills the first Empty slot on the path; its TOMBSTONE branch is dead |
| `HashMaps.HashMap.RehashInto` | src/foundation/containers/hashmap.c:310-403 | the rehash loops fill the destination buffers with the rehashed table |
| `HashMaps.HashMap.Grow` | src/foundation/containers/hashmap.c:487-542 | in place: the map is kept and the new capacity stated; equals the grow function and keeps the invariant |
| `HashMaps.HashMap.Clear` | src/foundation/containers/hashmap.c:886-907 | the in-place clear equals the clear function and keeps the invariant |
| `HashMaps.HashMap.CopyFrom` | src/foundation/containers/hashmap.c:416-472 | a copy has fresh buffers, the same slots and count, and the probe invariant |
| `HashMaps.HashMap.Destroy` | src/foundation/containers/hashmap.c:236-244 | the map ends up zeroed, with no buffer and no key policy |
| `HashMaps.HashMap.MoveFrom` | src/foundation/containers/hashmap.c:475-482 | the old map is destroyed, the buffers and the policy change owner, and the source is zeroed |
| `HashMaps.HashMap.Apply` | src/foundation/containers/hashmap.c:487-907 | each in-place call equals its step function and keeps the invariant |
| `HashMaps.HashMap.ApplyAll` | src/foundation/containers/hashmap.c:487-907 | a run of in-place calls equals the run function |
| `HashMaps.RunBoth` | src/foundation/containers/hashmap.c:487-907 | maps that share no buffer follow their own runs |
| `HashMaps.CopyIsIndependent` | src/foundation/containers/hashmap.c:416-472 | whatever runs of calls follow on a copy and its source, neither affects the other |
| `GrowthPolicy.LeastDoublingThatFits` | src/foundation/containers/dynarray.c:188-197 | the loop ends at the least `c * 2^k` that fits, or from 0 at the least `2^k`, below twice the request whenever it grows |
| `GrowthPolicy.AddMeans` | src/foundation/containers/dynarray.c:188-256 | an addition takes effect exactly when it fits or there is memory, and grows the array, relocating what it holds, exactly when it does not fit |
| `GrowthPolicy.AddKeepsAmortised` | src/foundation/containers/dynarray.c:199-256 | each addition or removal keeps the amortisation invariant |
| `GrowthPolicy.RelocationsBelowTwiceAdded` | src/foundation/containers/dynarray.c:188-256 | over any run from a fresh array, growth relocates fewer than twice the elements added |
| `DynArrays.DynArray.Relocate` | src/foundation/containers/dynarray.c:227-251 | all three relocation paths carry the elements over; with a managed policy the old buffer ends up raw |
| `DynArrays.DynArray.Reserve` | src/foundation/containers/dynarray.c:199-256 | contents kept, capacity exact, old buffer freed only when raw |
| `DynArrays.DynArray.EnsureCapacity` | src/foundation/containers/dynarray.c:188-197 | the loop reaches the least doubling that fits, stated through powers of two |
| `DynArrays.DynArray.ShrinkToFit` | src/foundation/containers/dynarray.c:300-351 | contents kept, capacity becomes the size |
| `DynArrays.DynArray.Resize` | src/foundation/containers/dynarray.c:257-299 | keeps the common prefix; new slots are constructed, dropped ones destroyed |
| `DynArrays.DynArray.PushUnchecked` | src/foundation/containers/dynarray.c:356-389 | appends one element by block copy, move or copy; a move invalidates the caller's element |
| `DynArrays.DynArray.Push` | src/foundation/containers/dynarray.c:392-402 | appends one element, exact success condition on policy, room and memory; the capacity doubles exactly when full; a move invalidates the caller's element |
| `DynArrays.DynArray.Append` | src/foundation/containers/dynarray.c:404-439 | concatenation, by block copy or element loop alike |
| `DynArrays.DynArray.Pop` | src/foundation/containers/dynarray.c:441-456 | drops and destroys the last element |
| `DynArrays.DynArray.ShiftUp` | src/foundation/containers/dynarray.c:491-507 | the insert shift moves the tail up one slot and leaves exactly the gap raw |
| `DynArrays.DynArray.Insert` | src/foundation/containers/dynarray.c:459-532 | `s[..i] + [x] + s[i..]` on every path, with the live prefix kept |
| `DynArrays.DynArray.ShiftDown` | src/foundation/containers/dynarray.c:564-579 | the remove shift moves the tail down one slot and leaves the end raw |
| `DynArrays.DynArray.Remove` | src/foundation/containers/dynarray.c:534-591 | `s[..i] + s[i+1..]` on every path, with the live prefix kept |
| `DynArrays.DynArray.Clear` | src/foundation/containers/dynarray.c:593-607 | destroys every live element |
| `DynArrays.DynArray.MoveFrom` | src/foundation/containers/dynarray.c:176-183 | old elements destroyed, buffer freed when raw, ownership passed, source emptied |
| `DynArrays.RunStaysAmortised` | src/foundation/containers/dynarray.c:188-256 | over every run of adding and dropping on an array, failures included, the amortisation invariant holds |
| `DynArrays.DynArray.Apply` | src/foundation/containers/dynarray.c:199-607 | each in-place call performs its step on a plain sequence and on the account, succeeds exactly when the step does, and changes nothing when it fails |
| `DynArrays.DynArray.ApplyAll` | src/foundation/containers/dynarray.c:199-607 | so does every run of calls; the live prefix is kept, and a fresh array relocates fewer than twice the elements added |
| `Stack.HeaderPtr` | src/foundation/memory/stack.c:24-26 | the header address is the greatest multiple of 8 that leaves room for a header |
| `Stack.AllocMeans` | src/foundation/memory/stack.c:36-61 | from any offset: the address, null exactly when the bytes from there would end past the buffer, the header written, and nothing changed on null |
| `Stack.NullIffNoRoom` | src/foundation/memory/stack.c:41-48 | from an 8-aligned offset, null exactly when no aligned address with header room leaves room for the request |
| `Stack.StepMeans` | src/foundation/memory/stack.c:36-99 | what each step of a run changes, failed allocations included |
| `Stack.AllocKeepsChain` | src/foundation/memory/stack.c:36-61 | for any sizes, the new header overlaps no live header and extends the chain |
| `Stack.FreeOnlyTop` | src/foundation/memory/stack.c:63-71 | the assertion passes among live pointers exactly for the latest, and freeing it restores the earlier offset |
| `Stack.FreeUndoesAlloc` | src/foundation/memory/stack.c:36-71 | freeing the block just allocated gives back its bytes and keeps the chain |
| `Stack.UnwindsToZero` | src/foundation/memory/stack.c:63-71 | freeing in reverse order walks the offset through all earlier values to 0 |
| `Stack.ReallocKeepsChain` | src/foundation/memory/stack.c:73-95 | a truthful top realloc that fits keeps the chain |
| `Stack.ReallocIs` | src/foundation/memory/stack.c:73-95 | for any old size, without wrap-around: the offset moves by the difference and only the block's header is rewritten |
| `Stack.ReallocBoundExact` | src/foundation/memory/stack.c:89 | exactly when the capacity assertion passes, wrap-around included |
| `Stack.ReallocBoundFails` | src/foundation/memory/stack.c:89 | at every chain, a request of capacity plus old size plus 1 passes and moves the offset beyond the capacity |
| `Stack.OversizedReallocPasses` | src/foundation/memory/stack.c:36-95 | from any empty stack, one allocation and that request |
| `Stack.AlignedExactly` | src/foundation/memory/stack.c:42-53 | the result has the requested alignment exactly when the rounding of the offset is a multiple of it |
| `Stack.HeaderClearExactly` | src/foundation/memory/stack.c:42-58 | the new header keeps clear of the bytes below the old offset exactly when the offset is a multiple of 8 or the buffer plus the rounded offset plus 16 is not a multiple of the alignment |
| `Stack.GuardMeans` | src/foundation/memory/stack.c:24-61 | along a header chain, the guard predicate says exactly that no owner can write a byte of any header |
| `Stack.AllocKeepsGuardIff` | src/foundation/memory/stack.c:36-61 | an allocation keeps all headers out of owners' reach exactly under that condition, or above a block of size 0 |
| `Stack.RunGuardedIff` | src/foundation/memory/stack.c:36-99 | over every run with blocks of any sizes, whatever owners write, headers stay intact and out of reach exactly when every successful allocation meets the condition; then what is live unwinds to 0 |
| `Stack.OddSizesOverlap` | src/foundation/memory/stack.c:36-61 | from any empty stack, 1 to 7 bytes and then a block aligned to 8: it is misaligned, its header lies on the first block, and the first owner's write destroys it |
| `Stack.LeastAddress` | src/foundation/memory/stack.c:41-53 | from an 8-aligned offset the result is the least aligned address that leaves room for a header |
| `Stack.LayoutMeans` | src/foundation/memory/stack.c:36-61 | under the layout invariant all live headers and user ranges are disjoint, aligned and in bounds |
| `Stack.WriteKeepsLayout` | src/foundation/memory/stack.c:36-61 | a block's owner cannot reach any header |
| `Stack.RunKeepsChain` | src/foundation/memory/stack.c:36-99 | every run of alloc, free, top realloc and reset keeps the chain, and what is live unwinds to 0 |
| `Stack.RunKeepsLayout` | src/foundation/memory/stack.c:36-99 | every run with sizes that are multiples of 8 keeps the layout, whatever owners write |
| `Stack.StackAllocator.AllocBytes` | src/foundation/memory/stack.c:36-61 | the method equals the alloc function, keeps the chain, and changes nothing on null |
| `Stack.StackAllocator.FreePtr` | src/foundation/memory/stack.c:63-71 | for null and any pointer with a readable header: passes exactly when the header's end is the offset, which then becomes the earlier one; among live pointers it frees exactly the latest and keeps the chain |
| `Stack.StackAllocator.ReallocPtr` | src/foundation/memory/stack.c:73-95 | equals the realloc function for null and any pointer with a readable header, wrap-around included; among live pointers only the latest changes size; truthful requests that fit keep the chain |
| `Pool.StepKeepsPartition` | src/foundation/memory/pool.c:79-121 | alloc, free and reset keep the free list duplicate-free and complementary to the outstanding blocks |
| `Pool.RunKeepsPartition` | src/foundation/memory/pool.c:79-121 | so does every run |
| `Pool.NullIffExhausted` | src/foundation/memory/pool.c:85-88 | null exactly when all blocks are outstanding, and then nothing changes; otherwise a block that is not outstanding |
| `Pool.FreeUndoesAlloc` | src/foundation/memory/pool.c:79-107 | freeing the block just allocated restores the pool |
| `Pool.FreesReissuedInReverse` | src/foundation/memory/pool.c:79-107 | frees are reissued last in, first out |
| `Pool.ResetReissuesAll` | src/foundation/memory/pool.c:118-121 | after a reset nothing is outstanding, and all blocks are issued in order of their indices |
| `Pool.IndexRoundTrip` | src/foundation/memory/pool.c:91-102 | index to pointer to index is the identity, and the pointer passes the asserts of free |
| `Pool.PtrRoundTrip` | src/foundation/memory/pool.c:98-104 | pointer to index to pointer is the identity on all pointers the asserts accept |
| `Pool.BlocksDisjoint` | src/foundation/memory/pool.c:91-92 | distinct blocks are disjoint and in bounds |
| `Pool.BlocksAligned` | src/foundation/memory/pool.c:132-165 | the rounded-up stride keeps every block aligned |
| `Pool.RunKeepsBlocksApart` | src/foundation/memory/pool.c:79-165 | over every run all outstanding blocks are in bounds, aligned and pairwise disjoint |
| `Pool.PopThreads` | src/foundation/memory/pool.c:85-89 | taking the head leaves a list that threads the rest |
| `Pool.PushThreads` | src/foundation/memory/pool.c:104-106 | freeing a block that is not in the list threads it in at the front |
| `Pool.DoubleFreeCloses` | src/foundation/memory/pool.c:104-106 | freeing one that is leaves links that thread no finite list |
| `Pool.PoolAllocator.BuildFreeList` | src/foundation/memory/pool.c:38-58 | the linking loop threads 0, 1, .., n - 1 in order, with nothing outstanding |
| `Pool.PoolAllocator.AllocBlock` | src/foundation/memory/pool.c:79-93 | the method follows the pool step and keeps the list threaded |
| `Pool.PoolAllocator.FreeBlock` | src/foundation/memory/pool.c:95-107 | for every pointer the asserts accept: an outstanding block follows the pool step; a free one leaves no finite list |
| `Pool.PoolAllocator.Reset` | src/foundation/memory/pool.c:118-121 | the list is 0, 1, .., n - 1 again, with nothing outstanding |
| `BufferSource.WellFormedMeans` | src/foundation/memory/memory.c:196-269 | in a well-formed list, what each block owns ends before every later header, inside the buffer |
| `BufferSource.FitsIff` | src/foundation/memory/memory.c:180-194 | a block fits exactly when it is free and some aligned address in it leaves room for back pointer and request; it offers the least one |
| `BufferSource.ReserveMeans` | src/foundation/memory/memory.c:196-269 | from any well-formed list: well-formed again, first fit, aligned, in bounds, the rest split off as a free block, all other blocks unchanged; null exactly when nothing fits |
| `BufferSource.ReleaseMeans` | src/foundation/memory/memory.c:271-296 | the whole list after a release, for each combination of free neighbours |
| `BufferSource.JoinedExtentIff` | src/foundation/memory/memory.c:279-286 | the block before grows by exactly the released extent, and ends where it ended exactly when there was no gap between the two |
| `BufferSource.RemainderFallsShort` | src/foundation/memory/memory.c:251-296 | a block split off leaves such a gap: released memory behind it joins it 32 bytes short |
| `BufferSource.JoinedRangeIsGranted` | src/foundation/memory/memory.c:180-296 | a request that fits the joined extent is granted there when no earlier block fits |
| `BufferSource.ReleaseKeepsWellFormedIff` | src/foundation/memory/memory.c:271-296 | a release keeps the list well-formed exactly when the block behind is in use or has room to grow |
| `BufferSource.ReleaseKeepsHeld` | src/foundation/memory/memory.c:271-296 | all other blocks in use survive a release unchanged |
| `BufferSource.FirstReleaseBreaks` | src/foundation/memory/memory.c:196-296 | releasing the first reservation of a buffer at once always leaves a free block that ends past the buffer |
| `BufferSource.ReservedPastTheEnd` | src/foundation/memory/memory.c:180-296 | for every buffer whose first reservation leaves more than a header free, after its release a request for all but 72 bytes succeeds and ends past the buffer |
| `BufferSource.RunKeepsSpans` | src/foundation/memory/memory.c:196-296 | over every run of reservations and clean releases all ranges outstanding stay held, aligned and pairwise disjoint |
| `BufferSource.StepMeans` | src/foundation/memory/memory.c:196-296 | a granted reservation adds its range, a release drops exactly the one released |
| `BufferSource.NextHeaderAlignedIff` | src/foundation/memory/memory.c:180-255 | the header behind a request is aligned exactly when the size is a multiple of 8 |
| `BufferSource.ReserveKeepsAlignedIff` | src/foundation/memory/memory.c:196-269 | a reservation keeps all headers aligned exactly when its size is a multiple of 8 or nothing is split off |
| `BufferSource.RunKeepsAligned` | src/foundation/memory/memory.c:196-296 | over every run with sizes that are multiples of 8 all headers stay aligned |
| `BufferSource.OddSizeMisaligns` | src/foundation/memory/memory.c:251-255 | the first reservation of a size that is not puts a header at a misaligned address |
| `BufferSource.FreshIsWellFormed` | src/foundation/memory/memory.c:363-373 | the initial block is a well-formed list |
| `BufferSource.BufferAllocator.FindFit` | src/foundation/memory/memory.c:210-218 | following `next` finds the first block that fits |
| `BufferSource.BufferAllocator.MarkTaken` | src/foundation/memory/memory.c:222-252 | writing the back pointer destroys no header, and the block is marked used |
| `BufferSource.BufferAllocator.InsertRest` | src/foundation/memory/memory.c:254-266 | the new header destroys nothing and is linked with matching `next` and `prev` |
| `BufferSource.BufferAllocator.ReserveBytes` | src/foundation/memory/memory.c:196-269 | the linked list in memory follows the reserve function and keeps matching links and back pointers |
| `BufferSource.BufferAllocator.ReleaseBytes` | src/foundation/memory/memory.c:271-296 | the linked list in memory follows the release function; links and extents stay sound exactly when the release is clean |
| `BufferSource.BufferAllocator.WriteByte` | src/foundation/memory/memory.c:196-208 | a block's owner reaches no header and no back pointer |
| `Cmalloc.UserPtr` | src/foundation/memory/memory.c:117-131 | header and user range fit the over-sized malloc block, and the user range is aligned |
| `Cmalloc.UserPtrIsLeast` | src/foundation/memory/memory.c:113-127 | the user's bytes start at the least suitable address that leaves room for the header |
| `Cmalloc.MaxSizeIsTight` | src/foundation/memory/memory.c:117-121 | the bytes asked of malloc are the fewest that suffice for every raw address |
| `Cmalloc.SmallPowersDivide16` | src/foundation/memory/memory.c:113-116 | raising the alignment to 16 still honours smaller requests |
| `Cmalloc.StepKeepsInvariant` | src/foundation/memory/memory.c:104-144 | reserve, release and writes by owners keep every outstanding header intact |
| `Cmalloc.ReleaseRecoversRaw` | src/foundation/memory/memory.c:104-144 | over every run, releasing a block finds the address malloc returned for it |
| `Cmalloc.CmallocSource.Reserve` | src/foundation/memory/memory.c:104-134 | the method follows the reserve step and keeps the invariant |
| `Cmalloc.CmallocSource.Release` | src/foundation/memory/memory.c:135-144 | the address freed is the block's raw address |
| `Arena.NullIffNoRoom` | src/foundation/memory/arena.c:29-49 | null exactly when no aligned start at or after the offset leaves room, and then nothing changes |
| `Arena.AllocIsTight` | src/foundation/memory/arena.c:34-46 | a successful allocation takes the least aligned start and exactly the bytes asked for |
| `Arena.FailedCallIsSkipped` | src/foundation/memory/arena.c:40-42 | a run with a failed call ends as the run without it |
| `Arena.StepKeepsLayout` | src/foundation/memory/arena.c:29-67 | alloc and reset keep all spans ordered, aligned, disjoint and in bounds |
| `Arena.RunKeepsLayout` | src/foundation/memory/arena.c:29-67 | so does every run |
| `Arena.ArenaAllocator.AllocBytes` | src/foundation/memory/arena.c:29-49 | equals the alloc function, keeps the layout, ends the used part exactly behind the request, and changes nothing on null |
| `Align.PowerOfTwoTest` | src/foundation/memory/arena.c:30-31 | the mask test passes exactly on the powers of two |
| `Align.MaskClears` | include/base/foundation/memory/memory.h:96-110 | masking with the complement of `2^k - 1` subtracts the remainder modulo `2^k` |
| `Align.AlignDown` | include/base/foundation/memory/memory.h:104-110 | the result is a multiple, at most `p` and above `p - a` |
| `Align.AlignDownIsGreatest` | include/base/foundation/memory/memory.h:104-110 | it is the greatest multiple not above `p` |
| `Align.AlignUp` | include/base/foundation/memory/memory.h:96-102 | without wrap-around the result is a multiple, at least `p` and below `p + a` |
| `Align.AlignUpIsLeast` | include/base/foundation/memory/memory.h:96-102 | it is the least multiple not below `p`, exactly when the sum does not wrap around; otherwise 0 |

## Left out

- Lifetimes under copy-only array policies: insert and remove overwrite live slots and destroy raw ones there (src/foundation/containers/dynarray.c:502-521, 575-586). Only the sequence results are claimed for them.
- Lifetimes and buffer release in hash map growth (src/foundation/containers/hashmap.c:351-370, 388-402, 532-535): keys and values are plain values.
- `HashMaps.HashMap.PlaceEntry`: does not model the move and destructor callbacks on the entry it places.
- `HashMaps.HashMap.RehashInto`: does not model the constructor and destructor callbacks on slots.
- `HashMaps.HashMap.Has`: requires a positive capacity, because the C code takes a remainder by the capacity.
- `HashMaps.HashMap.CopyFrom`: models plain-data keys and values, because the element callbacks of a copy may move out of the source.
- `Stack.Realloc`: does not model a new size of 0, because that branch passes the handler where the allocator is expected.
- `Stack.StackAllocator.ReallocPtr`: requires a new size other than 0 unless it is the old size, for the same reason, and a pointer whose header can be read.
- `BufferSource.BufferAllocator.ReleaseBytes`: requires a pointer handed out and not released, because the word below any other is not a back pointer.
- `DynArrays.DynArray.Resize` in runs: growing without a constructor exposes slots whose contents nothing determines, so it is proved call by call.
- `DynArrays.DynArray.ShrinkToFit`: requires a policy that can move or copy once it relocates, because the C code calls a null callback otherwise.
- `dynarray_copy`: a loop of copies into a fresh buffer, which would add only an easy member.
- Arrays moved into themselves, and elements inserted from an array's own buffer: the parameters must not alias.
- Byte widths of elements, and wrap-around of sizes in the containers: indices count elements and are unbounded.
- Releasing the null pointer to a memory source, which returns at once.
- Allocator statistics; `malloc`, `mmap` and the vtables; creation and destruction of allocators and sources; the unimplemented container policies; logging; iterators.
