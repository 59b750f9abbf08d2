# my_STL core in Dafny

This project models the core of `my_STL`, a small C++ reimplementation of
the SGI standard template library, and proves properties of it. It covers
four parts:

- **The second-level allocator `alloc`** (`__Alloc.h`, `__Alloc.cpp`).
  - Requests of at most 128 bytes are rounded up to a multiple of 8.
  - They are served from sixteen LIFO free lists, one per size class.
  - An empty list is refilled with up to 20 blocks carved from one
    contiguous pool `[start_free, end_free)`.
  - The pool is regrown from `malloc` by `2 * total + ROUND_UP(heap_size >> 4)`
    bytes. When `malloc` fails, a free block of a larger class becomes the pool.
- **`vector`** (`__Vector.h`): one buffer with `start`, `finish` and `cap`.
  - `push_back`, `pop_back`, both `erase` overloads, `resize`, `clear`,
    `insert_aux` and `insert(pos, n, x)`, with their three shifting strategies.
  - The doubling growth policy.
  - The move constructor and move assignment, and `operator==`.
- **`list`** (`__List.h`): a circular doubly-linked ring through a sentinel
  node, rewired in place.
  - `insert`, `erase`, `push_*`, `pop_*`, `clear` and the `list(n, val)`
    constructor.
  - `transfer`, the three `splice` overloads and `reverse`.
- **The range algorithms** (`__Algorithm.h`): `fill`, `fill_n`, and `copy`
  with its dispatch. The dispatch goes down to the element loop `__copy_d`
  and to `memmove`. `copy_backward` is included because the vector uses it.

Modules, one per file:

| file | module | what it holds |
|---|---|---|
| `size_class.dfy` | `SizeClass` | `ROUND_UP`, `FREELISTS_INDEX` and the constants `__ALIGN`, `__MAX_BYTES`, `__NFREELISTS` |
| `alloc_spec.dfy` | `AllocSpec` | the allocator as functions on its state (`Pool`), and what they guarantee |
| `alloc.dfy` | `Alloc` | class `Allocator` with the state as fields; every method is proved equal to its `AllocSpec` function |
| `extents.dfy` | `Extents` | byte ranges (`Extent`), ownership multisets, and disjointness lemmas for carving, splitting and donating |
| `algorithm.dfy` | `Algorithm` | `fill`, `fill_n`, `copy` and its paths, `copy_backward`, and the `wchar_t` overload |
| `vector.dfy` | `Vectors` | the sequence operations `Inserted`/`Erased`/`Resized`, the growth policy, and class `Vector` |
| `list_nodes.dfy` | `ListNodes` | class `Node`, ring and distinctness predicates, `Moved`, `Reversed`, and the pointer-rewiring lemmas |
| `list.dfy` | `Lists` | class `List`: a sentinel, a ghost sequence of nodes and a ghost sequence of values |
| `wrappers.dfy` | `Wrappers` | `Option` |

How the model represents the system:

- **Memory** is an address space of naturals.
  - A free list is the sequence of its block addresses, head first. The
    `union obj` link a free block keeps in its own bytes is that
    sequence's order.
  - `malloc` is an oracle. Every operation that may call it takes its
    answer as the parameter `grant` (`None` for a null return).
- **Ownership.** The safety lemmas account for every byte the allocator
  manages as a multiset of extents: the free blocks, the pool and the blocks
  clients hold (`live`). They prove that no two of these extents overlap and
  that all of them lie below a bound `top` that `malloc`'s fresh memory
  exceeds. This is what "the allocator never hands out a byte twice" means
  here.
- **The vector's storage** is one `array<T>`. Its length is the allocated
  capacity, and `finish` counts the constructed elements.
- **The list** keeps its real `prev`/`next` pointers. It also carries two
  ghost sequences: the nodes from `begin()` to the sentinel, and their
  values. `Valid()` ties the pointers to those sequences.

## Model

| member | source | states |
|---|---|---|
| SizeClass.RoundUp | my_STL/__Alloc.h:44-47 | the rounded size is a multiple of 8, at least the request, and less than the request plus 8 |
| SizeClass.FreeListIndex | my_STL/__Alloc.h:50-53 | for a positive size, the index k satisfies `8k < b <= 8(k+1)`, that is `ceil(b/8) - 1`; every size up to 128 gets one of the 16 lists |
| SizeClass.IndexOfRoundUp | my_STL/__Alloc.h:44-53 | rounding a size up does not change its free list, so `allocate` and `deallocate` agree on the class |
| SizeClass.RoundUpIdempotent | my_STL/__Alloc.h:44-47 | rounding up twice is rounding up once |
| SizeClass.RoundUpIsClassSize | my_STL/__Alloc.h:44-53 | the rounded size is exactly the block size of the size's class |
| SizeClass.ClassOfAligned | my_STL/__Alloc.h:50-53 | a positive multiple of 8 is the block size of its own class |
| SizeClass.ClassOfClassSize | my_STL/__Alloc.h:44-53 | class k's block size maps back to class k and is already rounded |
| SizeClass.IndexWordAgrees | my_STL/__Alloc.h:50-53 | the word version agrees with the exact index for every positive size; for size 0 it wraps to `2^64 - 1`, far past the 16 lists |
| AllocSpec.Initial | my_STL/__Alloc.cpp:5-8 | the initial state (all lists empty, empty pool at address 0, heap size 0) is well formed |
| AllocSpec.BytesToGet | my_STL/__Alloc.cpp:112 | the pool regrowth is at least twice the request, and a multiple of 8 when the request is |
| AllocSpec.RegrowBytes | my_STL/__Alloc.cpp:112 | the regrowth for `nobjs` blocks is a multiple of 8 and at least twice the full request |
| AllocSpec.FirstNonEmpty | my_STL/__Alloc.cpp:116-126 | the scan finds the first non-empty free list at or after the start class, every list before it is empty, and `None` means all scanned lists are empty |
| AllocSpec.FirstNonEmptyIs | my_STL/__Alloc.cpp:116-126 | the scan stops at exactly the first non-empty list |
| AllocSpec.FirstNonEmptyNone | my_STL/__Alloc.cpp:116-128 | the scan fails exactly when every scanned list is empty |
| AllocSpec.TakeChunk | my_STL/__Alloc.cpp:85-101 | carving returns `start_free` and advances it by exactly the blocks handed out, between 1 and the request; the full request is granted if and only if the pool holds it, and a partial grant leaves less than one block in the pool (it takes as many whole blocks as fit); the pool length stays a multiple of 8 |
| AllocSpec.WholeBlocks | my_STL/__Alloc.cpp:94-97 | the partial carve takes `bytes_left / size` blocks: at least one, fewer than requested, and fitting in the pool |
| AllocSpec.Replenish | my_STL/__Alloc.cpp:102-132 | after donating the leftover (where it goes: `AllocSpec.ReplenishKeepsBlocks`) and regrowing, the pool holds at least one block or is `[0, 0)`; with `malloc` succeeding, the new pool starts at `malloc`'s block, is `bytes_to_get` long, holds the full request, and `heap_size` grows by that length |
| AllocSpec.Scavenge | my_STL/__Alloc.cpp:114-128 | with `malloc` failing, the scan finds the first non-empty list at or above `size`'s class: its head block becomes the pool `[head, head + class size)` and is popped, every other list unchanged; the pool is `[0, 0)` if and only if no such list exists, and then the lists are unchanged; `heap_size` is unchanged |
| AllocSpec.ChunkAlloc | my_STL/__Alloc.cpp:82-134 | the state stays well formed, the heap never shrinks, between 1 and `nobjs` blocks are granted, and an empty list of the requested class stays empty |
| AllocSpec.Refill | my_STL/__Alloc.cpp:51-80 | refilling keeps the state well formed; what it returns and threads is stated by `AllocSpec.RefillThreads` |
| AllocSpec.ThreadChunk | my_STL/__Alloc.cpp:55-79 | `refill` returns the chunk's first block; for one block nothing changes; otherwise the class's list becomes exactly the `nobjs - 1` following blocks, block `m` at `chunk + (m + 1) * n`, and no other list or pool field changes; the state stays well formed |
| AllocSpec.Allocate | my_STL/__Alloc.cpp:10-27 | allocation keeps the state well formed |
| AllocSpec.Deallocate | my_STL/__Alloc.cpp:29-42 | deallocation keeps the state well formed |
| AllocSpec.Reallocate | my_STL/__Alloc.cpp:44-49 | reallocation keeps the state well formed |
| AllocSpec.BlockSize | my_STL/__Alloc.cpp:12-25 | a client receives at least the bytes it asked for; a small request receives exactly its class's block size |
| AllocSpec.TakeFromPool | my_STL/__Alloc.cpp:90-99 | cutting a piece off the front of the pool keeps every owned extent apart |
| AllocSpec.DonateExtents | my_STL/__Alloc.cpp:104-109 | donating the leftover moves exactly the pool's bytes into the free lists |
| AllocSpec.CutPool | my_STL/__Alloc.cpp:90-99 | the carved run and the remaining pool are disjoint from each other and from everything else owned |
| AllocSpec.TakeChunkSafe | my_STL/__Alloc.cpp:88-101 | the run `chunk_alloc` carves is disjoint from the free lists, the pool and the client blocks |
| AllocSpec.ScavengeSafe | my_STL/__Alloc.cpp:114-128 | turning a free block into the pool keeps all ownership disjoint |
| AllocSpec.ReplenishKeepsBlocks | my_STL/__Alloc.cpp:102-132 | no free block is lost on the growth path: with `malloc` succeeding the free lists gain exactly the old pool's leftover, as one block of its own length; with `malloc` failing the free lists and the pool together hold exactly the old free lists plus the leftover |
| AllocSpec.ScavengeKeepsBlocks | my_STL/__Alloc.cpp:114-128 | the block scavenged from a free list is exactly the block added to the pool; with none found, nothing moves |
| AllocSpec.ChunkAllocRegrows | my_STL/__Alloc.cpp:102-132 | a pool short of one block with `malloc` granting `a`: the retry carves the full request, so `chunk_alloc` returns `a` with all `nobjs` blocks and the new pool starts right after them |
| AllocSpec.ReplenishSafe | my_STL/__Alloc.cpp:102-132 | donating and regrowing from fresh `malloc` memory keeps all ownership disjoint below the raised bound |
| AllocSpec.ChunkAllocSafe | my_STL/__Alloc.cpp:82-134 | whatever path `chunk_alloc` takes, the granted run is disjoint from all other owned bytes |
| AllocSpec.ThreadSafe | my_STL/__Alloc.cpp:60-79 | splitting a run into a returned block and a free list of the others keeps ownership disjoint |
| AllocSpec.ThreadChunkSafe | my_STL/__Alloc.cpp:55-79 | the block `refill` returns is disjoint from the new free list and everything else |
| AllocSpec.RefillSafe | my_STL/__Alloc.cpp:51-80 | the block `refill` returns is disjoint from every free block, the pool and every client block |
| AllocSpec.AllocateSafe | my_STL/__Alloc.cpp:10-27 | the block `allocate` returns, of at least the requested size, is disjoint from all free blocks, the pool and all client blocks |
| AllocSpec.PopSafe | my_STL/__Alloc.cpp:16-22 | popping a free list's head hands out a block disjoint from everything still owned |
| AllocSpec.AllocateFresh | my_STL/__Alloc.cpp:10-27 | the returned block overlaps nothing the allocator or its clients still own, so no byte is handed out twice |
| AllocSpec.DeallocateSafe | my_STL/__Alloc.cpp:29-42 | giving back a block a client holds keeps ownership disjoint |
| AllocSpec.PushSafe | my_STL/__Alloc.cpp:37-41 | pushing a returned block onto its list keeps ownership disjoint |
| AllocSpec.DeallocateThenAllocate | my_STL/__Alloc.cpp:16-49 | the free lists are LIFO: a block given back is the next one handed out for any size of its class, the state returns to what it was, and `reallocate` within one class returns the same block |
| AllocSpec.AllocateThenDeallocate | my_STL/__Alloc.cpp:16-41 | allocating from a non-empty list returns its head, and giving it back restores the state exactly |
| AllocSpec.LargeBypassesPool | my_STL/__Alloc.cpp:12-34 | requests above 128 bytes return `malloc`'s answer and leave every list and the pool unchanged, and so does their release |
| AllocSpec.ChunkAllocNull | my_STL/__Alloc.cpp:82-134 | `chunk_alloc` returns null if and only if the pool holds less than one block, `malloc` fails, and no free list of the class or larger holds a block |
| AllocSpec.RefillFullBatch | my_STL/__Alloc.cpp:51-80 | when the pool holds at least 20 blocks, `refill` returns the pool's start, advances it by 20 blocks, and the class's free list becomes exactly the 19 following blocks in address order |
| AllocSpec.RefillThreads | my_STL/__Alloc.cpp:51-80 | whatever `chunk_alloc` grants, `refill` returns its block and threads the remaining blocks, in address order, as the class's whole list, leaving the rest of `chunk_alloc`'s state |
| AllocSpec.RefillPartialBatch | my_STL/__Alloc.cpp:51-80 | when the pool holds between one and 19 blocks, `refill` takes all `bytes_left / n` of them, returns the first, and the class's list becomes the others (unchanged for a single block) |
| AllocSpec.RefillCarves | my_STL/__Alloc.cpp:51-80 | when `chunk_alloc` carves `got > 1` blocks from the pool, `refill` returns the pool's start, advances it by `got` blocks and makes the class's list the `got - 1` following blocks in address order |
| AllocSpec.RefillFromPool | my_STL/__Alloc.cpp:51-80 | with at least one block in the pool, `refill` threads exactly the chunk that carving the pool yields |
| AllocSpec.ThreadRun | my_STL/__Alloc.cpp:55-79 | threading a chunk of several blocks returns its first block and replaces only the class's list, by the blocks after the first |
| AllocSpec.WholeQuotient | my_STL/__Alloc.cpp:94-97 | `nobjs = bytes_left / size` is the one count whose run fits the pool while one more block would not |
| Alloc.Allocator.constructor | my_STL/__Alloc.cpp:5-8 | the allocator starts in the initial state |
| Alloc.Allocator.Allocate | my_STL/__Alloc.cpp:10-27 | the new state and result are those of `AllocSpec.Allocate` |
| Alloc.Allocator.Deallocate | my_STL/__Alloc.cpp:29-42 | the new state is that of `AllocSpec.Deallocate` |
| Alloc.Allocator.Reallocate | my_STL/__Alloc.cpp:44-49 | the new state and result are those of `AllocSpec.Reallocate` |
| Alloc.Allocator.Refill | my_STL/__Alloc.cpp:51-80 | the carve-and-link loop leaves the state and result of `AllocSpec.Refill` |
| Alloc.Allocator.ChunkAlloc | my_STL/__Alloc.cpp:82-134 | the new state, result and block count are those of `AllocSpec.ChunkAlloc` |
| Alloc.Allocator.TakeChunk | my_STL/__Alloc.cpp:85-101 | the state, result and count are those of `AllocSpec.TakeChunk` |
| Alloc.Allocator.Replenish | my_STL/__Alloc.cpp:102-132 | the state is that of `AllocSpec.Replenish` |
| Alloc.Allocator.Scavenge | my_STL/__Alloc.cpp:114-128 | the scan loop leaves the state of `AllocSpec.Scavenge` and keeps `heap_size` |
| Algorithm.Filled | my_STL/__Algorithm.h:12-19 | exactly the positions in `[first, last)` hold the value; all others keep theirs |
| Algorithm.Overwrite | my_STL/__Algorithm.h:110-127 | exactly the destination range holds the source elements in order; all others keep theirs |
| Algorithm.FillIdempotent | my_STL/__Algorithm.h:12-19 | filling a range twice is filling it once |
| Algorithm.OverwriteReadBack | my_STL/__Algorithm.h:110-127 | after a copy the destination range reads back as the source, and the parts before and after are unchanged |
| Algorithm.FillIsOverwrite | my_STL/__Algorithm.h:12-32 | filling is copying a run of equal values |
| Algorithm.Fill | my_STL/__Algorithm.h:12-19 | the loop sets every element of `[first, last)` to the value and nothing else |
| Algorithm.FillN | my_STL/__Algorithm.h:24-32 | writes the value to `n` consecutive positions, none when `n <= 0`, and returns `first + max(n, 0)` |
| Algorithm.CopyD | my_STL/__Algorithm.h:110-119 | exactly `last - first` assignments put the old source range at `result`, and the result is `result + (last - first)`; an empty range writes nothing |
| Algorithm.CopyInput | my_STL/__Algorithm.h:91-100 | the input-iterator loop has the same effect and result as `CopyD` |
| Algorithm.Memmove | my_STL/__Algorithm.h:122-127 | `memmove` copies the old source range whatever the overlap |
| Algorithm.Copy | my_STL/__Algorithm.h:38-134 | every dispatch path leaves the old source range at `result`, changes nothing else, and returns `result + (last - first)`; only the `memmove` path allows overlap |
| Algorithm.CopyBackward | my_STL/__Vector.h:388-394 | the range is copied to end just before `resultEnd`, last element first, nothing else changes, and the start of the destination is returned |
| Algorithm.CopyWideAsWritten | my_STL/__Algorithm.h:52-56 | the `wchar_t` overload as written changes only the memory's bytes, not its size, and returns `result + (last - first)` |
| Algorithm.CopyWide | my_STL/__Algorithm.h:52-56 | the intended `wchar_t` copy changes only the memory's bytes, not its size, and returns `result + (last - first)` |
| Algorithm.CopyWideCopies | my_STL/__Algorithm.h:52-56 | the intended `wchar_t` copy puts every element of the old range at its destination |
| Algorithm.CopyWideAsWrittenLosesBytes | my_STL/__Algorithm.h:52-56 | the overload as written copies one byte of a two-byte character, so the element at the destination differs from the source |
| Vectors.Inserted | my_STL/__Vector.h:378-435 | `n` copies of `x` appear before `pos`; the elements before keep their places and those after move up by `n` |
| Vectors.Erased | my_STL/__Vector.h:160-177 | the range is removed; the elements before keep their places and those after move down |
| Vectors.Resized | my_STL/__Vector.h:180-190 | the new sequence has length `k`, keeps the old prefix, and pads with `x` |
| Vectors.EraseInserted | my_STL/__Vector.h:378-435 | erasing the inserted range restores the sequence |
| Vectors.ErasedSplits | my_STL/__Vector.h:160-166 | after erasing `[first, last)` the sequence is `old[..first] + old[last..]` |
| Vectors.ResizedLaws | my_STL/__Vector.h:180-190 | resizing to the current size changes nothing; shrinking then growing back keeps the prefix and pads with `x` |
| Vectors.AuxLength | my_STL/__Vector.h:347-348 | `insert_aux`'s new length (double, or 1 when empty) exceeds the size |
| Vectors.InsertLength | my_STL/__Vector.h:407-408 | `insert`'s new length `old_size + max(old_size, n)` fits the grown contents and at least doubles the size |
| Vectors.Realloc | my_STL/__Vector.h:429-432 | after reallocation the size, capacity and allocation are ordered, and the spare room is the allocation minus the size |
| Vectors.ReallocAsWrittenOverruns | my_STL/__Vector.h:373 | as written, a `push_back` on an empty vector records capacity 2 for a 1-element allocation |
| Vectors.ReallocAsWrittenNeverSound | my_STL/__Vector.h:429-432 | as written, every reallocation of a non-empty vector records a capacity beyond the allocation; the corrected one never does |
| Vectors.ShiftInsertContents | my_STL/__Vector.h:388-394 | the in-capacity branch with more than `n` elements after `pos` yields the inserted sequence |
| Vectors.SpillInsertContents | my_STL/__Vector.h:395-402 | the in-capacity branch with at most `n` elements after `pos` yields the inserted sequence |
| Vectors.ReallocInsertContents | my_STL/__Vector.h:411-420 | the reallocating branch of `insert` yields the inserted sequence in the new buffer |
| Vectors.AuxShiftContents | my_STL/__Vector.h:335-343 | `insert_aux` with room yields `x` inserted before `pos` |
| Vectors.AuxReallocContents | my_STL/__Vector.h:347-360 | `insert_aux` without room yields `x` inserted before `pos` in the new buffer |
| Vectors.Vector.Size | my_STL/__Vector.h:113-116 | `size()` is the number of elements |
| Vectors.Vector.Capacity | my_STL/__Vector.h:118-121 | the capacity is the recorded `end_of_storage - start`, the length of the allocated buffer, and is at least the size |
| Vectors.Vector.Empty | my_STL/__Vector.h:123-126 | `empty()` holds if and only if there are no elements |
| Vectors.Vector.constructor | my_STL/__Vector.h:77 | a default vector is empty with capacity 0 |
| Vectors.Vector.Fill | my_STL/__Vector.h:208-211 | `vector(n, value)` holds exactly `n` copies of `value` with capacity `n` |
| Vectors.Vector.Move | my_STL/__Vector.h:253-256 | the new vector takes over the old one's buffer and elements; the old one is left empty with capacity 0 |
| Vectors.Vector.MoveAssign | my_STL/__Vector.h:278-290 | the target takes over the source's buffer and elements, and the source is left empty; self-assignment changes nothing |
| Vectors.Vector.PushBack | my_STL/__Vector.h:139-150 | `x` is appended; with room the buffer is kept, and when full a fresh buffer of twice the size (1 when empty) is used |
| Vectors.Vector.PopBack | my_STL/__Vector.h:153-157 | the last element is removed and the others are unchanged |
| Vectors.Vector.EraseRange | my_STL/__Vector.h:160-166 | the range is removed in place and `first` is returned |
| Vectors.Vector.Erase | my_STL/__Vector.h:168-177 | exactly that element is removed, later ones shift left, and `position` is returned |
| Vectors.Vector.Resize | my_STL/__Vector.h:180-190 | the size becomes `k`, keeping the prefix and padding with `x` |
| Vectors.Vector.Clear | my_STL/__Vector.h:198-201 | the vector becomes empty and keeps its buffer |
| Vectors.Vector.InsertAux | my_STL/__Vector.h:333-375 | `x` is inserted before `position`; with room in place, otherwise into a fresh buffer of the doubled length |
| Vectors.Vector.AuxShift | my_STL/__Vector.h:335-343 | the in-place branch inserts `x` and keeps the buffer |
| Vectors.Vector.AuxRealloc | my_STL/__Vector.h:344-374 | the reallocating branch inserts `x` into a fresh buffer of the doubled length |
| Vectors.Vector.Insert | my_STL/__Vector.h:378-435 | `n` copies of `x` are inserted before `position` (nothing for `n == 0`); with room in place, otherwise into a fresh buffer of `old_size + max(old_size, n)` |
| Vectors.Vector.ShiftInsert | my_STL/__Vector.h:388-394 | the branch with more than `n` elements after `position` inserts in place |
| Vectors.Vector.SpillInsert | my_STL/__Vector.h:395-402 | the branch with at most `n` elements after `position` inserts in place |
| Vectors.Vector.ReallocInsert | my_STL/__Vector.h:404-433 | the reallocating branch inserts into a fresh buffer of the grown length |
| Vectors.Equal | my_STL/__Vector.h:305-324 | `operator==` is true if and only if the two vectors hold equal sequences |
| ListNodes.Moved | my_STL/__List.h:400-413 | moving `[i, j)` to before `k` is a rearrangement whose every element comes from the old sequence |
| ListNodes.MovedIsReinsertion | my_STL/__List.h:400-413 | a transfer within one list removes the range and reinserts it unchanged, in order, before `pos` |
| ListNodes.MovedPermutes | my_STL/__List.h:400-413 | a transfer within one list is a permutation of its elements |
| ListNodes.Reversed | my_STL/__List.h:495-507 | the reversed sequence has the same length and element `m` is old element `n - 1 - m` |
| ListNodes.ReversedInvolutive | my_STL/__List.h:495-507 | reversing twice restores the list |
| ListNodes.ReverseStep | my_STL/__List.h:501-506 | moving the next element to the front extends the reversed prefix by one |
| ListNodes.Repeat | my_STL/__List.h:262-270 | `n` copies of one value |
| Lists.List.constructor | my_STL/__List.h:233-239 | a new list is empty and its sentinel links to itself both ways |
| Lists.List.Empty | my_STL/__List.h:114-117 | `empty()` holds if and only if the list has no elements |
| Lists.List.Size | my_STL/__List.h:119-122 | counting the nodes from `begin()` to `end()` gives the number of elements |
| Lists.List.Insert | my_STL/__List.h:336-345 | a fresh node holding `value` is placed immediately before `pos` and returned; all other nodes and values keep their order |
| Lists.List.Erase | my_STL/__List.h:367-375 | exactly the node at `pos` leaves the list, the others keep their order, and the node after it is returned |
| Lists.List.EraseRange | my_STL/__List.h:377-386 | the nodes of `[first, last)` leave the list and the rest keep their order; the result is `last`, or a null iterator for an empty range |
| Lists.List.PushFront | my_STL/__List.h:388-392 | `value` is prepended |
| Lists.List.PushBack | my_STL/__List.h:394-398 | `value` is appended |
| Lists.List.PopFront | my_STL/__List.h:146-149 | the first element is removed |
| Lists.List.PopBack | my_STL/__List.h:151-154 | the last element is removed |
| Lists.List.Clear | my_STL/__List.h:322-334 | the list becomes empty with only the sentinel left |
| Lists.List.InsertCount | my_STL/__List.h:347-354 | `count` copies of `value` are inserted before `pos` |
| Lists.List.Fill | my_STL/__List.h:262-270 | `list(n, val)` holds exactly `n` copies of `val` |
| Lists.List.Transfer | my_STL/__List.h:400-413 | between two lists, the nodes of `[first, last)` move in order to just before `pos` and leave the source; within one list they move to before `pos` with all else in order, and with `pos == last` the range is cut out of the list into a ring of its own |
| Lists.List.SpliceAll | my_STL/__List.h:415-422 | all of `other` moves in order to before `pos`, and `other` is left empty |
| Lists.List.SpliceOne | my_STL/__List.h:424-431 | the element at `i` moves to before `pos`; nothing changes when `pos` is `i` or the node after it |
| Lists.List.SpliceRangeAsWritten | my_STL/__List.h:433-440 | as written, splicing a range of the same list to `pos == last` drops the range from the list |
| Lists.List.SpliceRange | my_STL/__List.h:433-440 | the range moves in order to before `pos`; within one list the result is a permutation, and `pos == last` or an empty range changes nothing |
| Lists.List.Reverse | my_STL/__List.h:495-507 | the list holds its old elements in reverse order, and its nodes are the old nodes reversed |

## Left out

- `malloc` and `free` are foreign. `malloc` is an oracle parameter whose fresh memory lies above the bound `top`. Releasing a block above 128 bytes has no effect on the allocator's state. Because `top` never decreases, the model never lets `malloc` hand back memory that `free` released, although the real `malloc` may reuse it.
- The `union obj` link word: a free block's bytes are not reinterpreted; a free list is a sequence of addresses.
- `refill` on a null chunk: the source does not check the null `chunk_alloc` result and would write through it. `AllocSpec.Refill` returns `None` there, and no property is claimed for that path.
- Thread safety: the allocator's statics are unsynchronised; the model is one single-threaded object.
- Integer width in the allocator: sizes and addresses are unbounded naturals. `size * nobjs` and `bytes_to_get` cannot overflow `size_t`, and addresses never wrap.
- `AllocSpec.Allocate`, `AllocSpec.Deallocate`, `AllocSpec.Reallocate` require sizes of at least 1. `FREELISTS_INDEX(0)` wraps to `2^64 - 1` and indexes far outside `free_list`; `SizeClass.IndexWordAgrees` shows the wrap.
- `Alloc.Allocator.Refill`: the chunk's blocks are threaded as a sequence of addresses; the `next` word written into each block is not modelled.
- `my_STL/__Allocator.h` is not part of this model: a typed wrapper that only multiplies by `sizeof(T)`. Vector buffers and list nodes come from `new`.
- `my_STL/__Construct.h`, `my_STL/__Type_traits.h`, `my_STL/__Iterator.h` and `my_STL/__Uninitialized.h` are not part of this model. Their construction, destruction and uninitialized copies are plain writes, and type traits choose a `Copy` path explicitly.
- `list::merge` performs one comparison and then appends the rest, so it is not a sorted merge; it is not modelled.
- `list` `operator==` compares node pointers for at most one step; it is not modelled.
- `list::swap` exchanges the sentinels; it is not modelled, so each list's sentinel is fixed.
- The range `insert`, `front`/`back`, the initializer-list, count and copy constructors, copy assignment, the destructor and `operator[]` of vector and list are outside the modelled operations.
- Vector's exception rollback (`try`/`catch` around the element copies): element copies never throw.
- Vector elements are copied by the element-by-element path; the `memmove` path for trivial types has the same effect (`Algorithm.Overwrite`), which `Algorithm.Copy` shows for every path.
- `copy_backward` and `max` are used by `__Vector.h` but defined outside the modelled files; `Algorithm.CopyBackward` and `Vectors.InsertLength` give them their standard meaning.
- The parameter typo `fitst` in `fill_n`: the body refers to `first`, which is undeclared. `Algorithm.FillN` models the evident intent.
- Lists.List.Clear: the element nodes leave the ring, but their destruction and their return to the node allocator (`destroy_node`) are not modelled, so the source's walk over the nodes has no counterpart.
- Lists.List.SpliceOne: the postcondition states the new contents of both lists, not the new node sequences.
- Lists.List.SpliceRange: the postcondition states the new contents of both lists, not the new node sequences.
- Lists.List.SpliceAll: the postcondition states the new contents and that `other` keeps only its sentinel, not the new node sequence of this list.
- Lists.List.SpliceRangeAsWritten: the postcondition states only the lost-range case that differs from `SpliceRange`.
- Lists.List.InsertCount: states the new contents, not the node sequence.

## Findings

| source | as written | input that shows it | evidently intended | confidence | as-written member | corrected member |
|---|---|---|---|---|---|---|
| my_STL/__Vector.h:373 | after reallocating to `len` elements, `cap = new_finish + len` (also at line 432) | `push_back` on an empty vector: `len = 1`, `new_finish = new_start + 1`, so `cap = new_start + 2` over a 1-element allocation; the next `push_back` writes past it | `cap = new_start + len` | not executed | Vectors.ReallocAsWrittenOverruns | Vectors.Realloc |
| my_STL/__Algorithm.h:52-56 | the `wchar_t*` overload of `copy` calls `memmove(result, first, last - first)` | copying one 2-byte character `0x263A` moves only its first byte | `memmove(result, first, sizeof(wchar_t) * (last - first))` | not executed | Algorithm.CopyWideAsWrittenLosesBytes | Algorithm.CopyWideCopies |
| my_STL/__List.h:400-440 | `splice(pos, *this, first, last)` calls `transfer` whenever `first != last`, and `transfer` has no `pos == last` guard | a list `[a, b]` spliced with `pos = last = end()`, `first = begin()`: `a, b` are cut out into a detached ring and the list becomes empty | splicing a range to its own end changes nothing (`transfer` returns when `pos == last`) | not executed | Lists.List.SpliceRangeAsWritten | Lists.List.SpliceRange |
