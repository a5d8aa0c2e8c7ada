# Pooled CUDA allocator bookkeeping

This project models the bookkeeping of `pooled_cuda_allocator` from the
ndarray library (namespace `cuv`), as `src/tests/allocators_test.cpp`
exercises it. The allocator keeps one pool of blocks per memory space, host and
device. Each block has a raw address, an exact byte size and a state:
InUse (handed to a caller) or Free (kept for reuse).

- `alloc(&ptr, count, elemSize, m)` reuses a Free block of exactly
  `count * elemSize` bytes in space `m`. When there is none, it registers a
  block at a new address from the raw allocator. Either way it writes the
  address into the caller's pointer. Exact-size reuse, for requests of every
  size, is the allocator's design. The tests' checks do not tell it apart
  from other reuse policies.
- `dealloc(&ptr, m)` marks the caller's block Free. The block stays in the
  pool and its memory is kept. The caller's pointer becomes null.
- `garbage_collection()` hands every Free block of every space back to the
  raw allocator and drops it. InUse blocks stay.
- `pool_count`, `pool_free_count` and `pool_size` report the blocks, the
  Free blocks and the bytes of one space. Without a space argument they sum
  over both spaces.

The project has three modules:

- `Registry` (`registry.dfy`) describes one pool as a sequence of blocks.
  It defines what the queries count and the map of blocks callers hold. It
  gives alloc, dealloc and garbage collection as specification functions
  (`Acquire`, `Release`, `Collect`), proves their accounting, and has the
  model's loops for the lookups, the sweep and the counts, each proved
  against its function.
- `PooledAllocators` (`pooled_allocator.dfy`) holds the class
  `PooledAllocator`. Its fields are the map from space to pool and the raw
  allocator's next unused address, and its methods change them in place.
  Each method is proved against the `Registry` functions and keeps the
  class invariant `Valid`: no aliased, null or never-issued address in any
  pool.
- `AllocatorsTest` (`allocators_test.dfy`) replays the three test
  procedures and the bodies of the `allocate` and `deallocate` functors as
  verified methods. Each `BOOST_CHECK`/`BOOST_REQUIRE` is an `assert` at the
  same point. The final comparison of each test is its postcondition. The
  two `tbb::parallel_for_each` passes of the multi-threaded test are loops
  that run the functor on each entry of the pointer vector, in order.

Null is address 0. The raw allocator is a counter shared by both spaces:
it hands out a positive address it has never handed out before.

## Model

| member | source | states |
|---|---|---|
| Registry.FirstFit | src/tests/allocators_test.cpp:99-101 | the block alloc reuses: a Free block of exactly the requested size, with none before it; -1 only when no block fits |
| Registry.Find | src/tests/allocators_test.cpp:64 | the block dealloc releases: the position holding the address, with none before it; -1 only when no block has it |
| Registry.LiveMapAt | src/tests/allocators_test.cpp:64-65 | in a pool without aliases, an address is held exactly when the block found at it is InUse, and it is held with that block's size |
| Registry.CountSplit | src/tests/allocators_test.cpp:77-79 | pool_count equals pool_free_count plus the number of blocks callers hold |
| Registry.FirstFitFreeOf | src/tests/allocators_test.cpp:99-101 | alloc finds a block to reuse exactly when a Free block of the requested size is tracked |
| Registry.AcquireAddress | src/tests/allocators_test.cpp:49-53 | alloc hands out a non-null address no caller holds, and the caller then holds it with the requested size; the pool stays alias-free and within the raw allocator's range |
| Registry.AcquireAccounting | src/tests/allocators_test.cpp:49-56 | alloc with a Free block of the size available keeps pool_count and pool_size, hands out one Free block and asks no raw address; otherwise it adds one block of the size at the raw allocator's next address; Free blocks of other sizes are untouched |
| Registry.AcquireFrame | src/tests/allocators_test.cpp:99-101 | alloc keeps every other block as it was and adds no block but the one it hands out |
| Registry.ReleaseAccounting | src/tests/allocators_test.cpp:64-69 | dealloc keeps pool_count and pool_size, adds exactly one Free block, of the released block's size, and the caller no longer holds the address |
| Registry.ReleaseWellFormed | src/tests/allocators_test.cpp:116-117 | dealloc keeps the pool alias-free and within the raw allocator's range |
| Registry.ReleaseFrame | src/tests/allocators_test.cpp:64 | dealloc keeps every other block as it was and keeps the released block tracked, now Free |
| Registry.ReuseAfterRelease | src/tests/allocators_test.cpp:116-121 | releasing a block and asking again for its size leaves pool_count, pool_size and pool_free_count as they were and takes no raw address |
| Registry.CollectAccounting | src/tests/allocators_test.cpp:193-196 | garbage collection leaves no Free block, takes no block from a caller, keeps exactly the InUse blocks and does not grow pool_size |
| Registry.CollectWellFormed | src/tests/allocators_test.cpp:193-196 | after garbage collection, pool_count equals the number of held blocks, and the pool stays alias-free |
| Registry.FindFree | src/tests/allocators_test.cpp:99-101 | the free-list scan loop returns FirstFit's answer |
| Registry.FindAddr | src/tests/allocators_test.cpp:64 | the address lookup loop returns Find's answer |
| Registry.Sweep | src/tests/allocators_test.cpp:193 | the collection loop keeps exactly Collect's blocks, in order |
| Registry.CountFree | src/tests/allocators_test.cpp:55 | the counting loop of pool_free_count returns FreeCount |
| Registry.SumSizes | src/tests/allocators_test.cpp:56 | the summing loop of pool_size returns Size |
| PooledAllocators.PooledAllocator.constructor | src/tests/allocators_test.cpp:43 | a new allocator tracks no block in either space |
| PooledAllocators.PooledAllocator.Alloc | src/tests/allocators_test.cpp:49-56 | alloc changes space `m`'s pool as Acquire does and no other pool; the address is non-null and new to the caller, the caller now holds it with count * elemSize bytes, and the counters move as AcquireAccounting states |
| PooledAllocators.PooledAllocator.Dealloc | src/tests/allocators_test.cpp:64-69 | dealloc changes space `m`'s pool as Release does and no other pool; the caller's pointer is set to null, the address is no longer held, and the counters move as ReleaseAccounting states |
| PooledAllocators.PooledAllocator.GarbageCollection | src/tests/allocators_test.cpp:193-206 | every pool becomes Collect of its old self: no Free block is left, every held block stays, pool_count drops to the number of held blocks, and pool_size does not grow |
| PooledAllocators.PooledAllocator.PoolCount | src/tests/allocators_test.cpp:54 | pool_count(m) is the number of blocks of space `m`, which equals its Free blocks plus its held blocks |
| PooledAllocators.PooledAllocator.PoolFreeCount | src/tests/allocators_test.cpp:55 | pool_free_count(m) is the number of Free blocks of space `m` |
| PooledAllocators.PooledAllocator.PoolSize | src/tests/allocators_test.cpp:56 | pool_size(m) is the bytes of all blocks of space `m`, InUse and Free |
| PooledAllocators.PooledAllocator.PoolCountAll | src/tests/allocators_test.cpp:79 | pool_count() is the blocks of both spaces together, which equals the Free blocks of both spaces plus the blocks callers hold in them |
| PooledAllocators.PooledAllocator.PoolFreeCountAll | src/tests/allocators_test.cpp:79 | pool_free_count() is the Free blocks of both spaces together |
| PooledAllocators.PooledAllocator.PoolSizeAll | src/tests/allocators_test.cpp:56 | pool_size() is the bytes of both spaces together; the tests call only the per-space form (line 56), and the no-argument form completes the query family of lines 54-56 and 79 |
| AllocatorsTest.TestPooledAllocator | src/tests/allocators_test.cpp:40-80 | test_pooled_allocator: every check holds for any sizeof(int) and in either space, and at the end pool_free_count() == pool_count() |
| AllocatorsTest.AllocPair | src/tests/allocators_test.cpp:49-56 | two allocations on a fresh allocator give two distinct non-null held addresses, pool_count 2, pool_free_count 0 and pool_size twice the request, and leave the other space alone |
| AllocatorsTest.TwoBlocks | src/tests/allocators_test.cpp:54-56 | two requests of the same size on an empty pool give two blocks, none Free, of twice the size in all |
| AllocatorsTest.AllFree | src/tests/allocators_test.cpp:77-79 | once no caller holds a block in any space, pool_free_count() == pool_count() |
| AllocatorsTest.RoundCounts | src/tests/allocators_test.cpp:94-122 | over one allocate-functor round, pool_size does not decrease, the kept bytes grow by allocSize, and after round k+1 there are k+1 held blocks and exactly two Free blocks: one of allocSize bytes and one of 1 byte, or two of 1 byte when allocSize is 1 |
| AllocatorsTest.RoundLive | src/tests/allocators_test.cpp:99-117 | the three addresses of one round are pairwise distinct, and after the two deallocs only the third is added to what callers held before |
| AllocatorsTest.Allocate | src/tests/allocators_test.cpp:94-124 | allocate::operator() with its by-reference `ptr` as the result: all its REQUIRE checks hold; `ptr` is non-null and was not held before; callers now hold what they held before plus `ptr`, with allocSize bytes; pool_size does not decrease, the kept bytes grow by allocSize, and Ledger moves from round k to k+1 |
| AllocatorsTest.Deallocate | src/tests/allocators_test.cpp:137-144 | deallocate::operator() on entry k: the entry becomes null, its address is no longer held, and no other entry or space changes |
| AllocatorsTest.AllocateEach | src/tests/allocators_test.cpp:157-159 | the allocate pass stores each functor's `ptr` in its own entry and leaves every entry holding its own distinct block of allocSize bytes; for a non-empty vector the two Free blocks of the last round stay beside them, and an empty vector leaves the pool empty |
| AllocatorsTest.AllocatedBounds | src/tests/allocators_test.cpp:165-169 | after n rounds, pool_size >= n * allocSize and n <= pool_count <= 10 * n |
| AllocatorsTest.KeptHeld | src/tests/allocators_test.cpp:157-172 | after the allocate pass, the entries are exactly the held addresses, distinct |
| AllocatorsTest.DropOne | src/tests/allocators_test.cpp:138-142 | releasing and nulling entry k extends the released prefix of the vector by one |
| AllocatorsTest.DeallocateEach | src/tests/allocators_test.cpp:171-172 | the deallocate pass nulls every entry and leaves no block of space `m` held |
| AllocatorsTest.TestPooledAllocatorMultiThreaded | src/tests/allocators_test.cpp:147-175 | test_pooled_allocator_multi_threaded, replayed in order: every check holds for any MIN_SIZE_HOST and in either space, and at the end pool_free_count() == pool_count() |
| AllocatorsTest.TestGarbageCollection | src/tests/allocators_test.cpp:177-207 | test_pooled_allocator_garbage_collection: every check holds, and the second collection leaves pool_count(m) == 0 and pool_free_count(m) == 0 |

## Left out

- Concurrency: `tbb::parallel_for_each` and the `boost::mutex` locks. The two parallel passes run the functor on each entry in vector order, one interleaving of the many the original allows.
- The element reads and writes through `reference<int, memory_space>` (lines 58-62 and 71-75). Block contents are outside the bookkeeping.
- The raw `cudaMalloc`/`malloc` calls behind the two memory spaces. Raw allocation is a counter of never-used positive addresses, shared by both spaces. Raw release happens when garbage collection drops a block, and has no other effect.
- The value of `pooled_cuda_allocator::MIN_SIZE_HOST` and of `sizeof(int)` are not visible. Both are parameters of the test methods, and the tests verify for every value.
- The allocator's diagnostic name (line 150), the Boost.Test macros themselves and the test-case registration (lines 209-223).
- Out-of-memory failures and overflow of `count * elemSize`. Integers are unbounded, and no test reaches either case.
- PooledAllocators.PooledAllocator.Dealloc: requires the address to be held by a caller in that space. The behaviour of dealloc on an untracked, null or already Free address is not visible, and no test calls it that way.
- Which of several equal-sized Free blocks alloc reuses is a model choice: the first in registration order. The tests depend only on some such block being reused.
- `BOOST_REQUIRE_GE(allocator.pool_free_count(m), 0lu)` (line 122) holds for any count and is asserted as stated.
- Requests of every size are pooled, and no size threshold is modelled. The name `MIN_SIZE_HOST` (line 152) suggests that the allocator may treat smaller host requests differently, for instance by rounding them up or bypassing the pool. If so, the exact counts the multi-threaded replay proves would differ.
- `cuv/allocators.hpp`, where `pooled_cuda_allocator` is defined, is not part of this model. The exact-size reuse policy is the allocator's design. The tests do not check it: their counts at lines 54-56, 113, 166 and 169 also hold under other reuse policies.
