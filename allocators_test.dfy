/// The allocator's test procedures replayed as verified methods: each
/// BOOST_CHECK and BOOST_REQUIRE is an `assert` at the same point, and the
/// comparison each test ends with is the method's postcondition. The
/// multi-threaded test runs its functor calls one after the other, in the
/// order of the vector.
module AllocatorsTest {
  import opened Registry
  import opened PooledAllocators

  /** The size of the pointer vector of the multi-threaded test. */
  const NumPointers: nat := 1000

  /** test_pooled_allocator: two blocks of NUM_ELEMENTS (10000) ints of
      `intSize` bytes each, both released; then every tracked block is Free. */
  method TestPooledAllocator(m: Space, intSize: nat) returns (freeCount: nat, count: nat)
    ensures freeCount == count
  {
    var allocator := new PooledAllocator();
    var bytes := 10000 * intSize;
    var ptr1 := Null;
    var ptr2 := Null;

    ptr1, ptr2 := AllocPair(allocator, 10000, intSize, m);
    assert ptr1 != Null;
    assert ptr2 != Null;
    assert ptr1 != ptr2;
    var n := allocator.PoolCount(m);
    assert n == 2;
    n := allocator.PoolFreeCount(m);
    assert n == 0;
    n := allocator.PoolSize(m);
    assert n == 2 * bytes;

    ghost var p2, a := allocator.Pool(m), ptr1;
    ptr1 := allocator.Dealloc(ptr1, m);
    assert ptr1 == Null;
    OneReleased(p2, allocator.Pool(m), LiveMap(p2)[a]);

    n := allocator.PoolCount(m);
    assert n == 2;
    n := allocator.PoolFreeCount(m);
    assert n == 1;
    n := allocator.PoolSize(m);
    assert n == 2 * bytes;

    ptr2 := allocator.Dealloc(ptr2, m);

    NoneHeld(allocator, m);
    freeCount := allocator.PoolFreeCountAll();
    count := allocator.PoolCountAll();
  }

  /** The two alloc calls both tests open with, on a fresh allocator: two
      requests of count * elemSize bytes in space `m`, which has no Free
      block to reuse, so both addresses come from the raw allocator. */
  method AllocPair(allocator: PooledAllocator, count: nat, elemSize: nat, m: Space)
    returns (ptr1: nat, ptr2: nat)
    requires allocator.Valid() && allocator.Pool(m) == []
    modifies allocator
    ensures allocator.Valid() && allocator.Pool(Other(m)) == old(allocator.Pool(Other(m)))
    ensures ptr1 != Null && ptr2 != Null && ptr1 != ptr2
    ensures LiveMap(allocator.Pool(m)) == map[ptr1 := count * elemSize, ptr2 := count * elemSize]
    ensures |allocator.Pool(m)| == 2 && FreeCount(allocator.Pool(m)) == 0
    ensures Size(allocator.Pool(m)) == 2 * (count * elemSize)
  {
    ghost var p0 := allocator.Pool(m);
    ptr1 := allocator.Alloc(count, elemSize, m);
    ghost var p1 := allocator.Pool(m);
    ptr2 := allocator.Alloc(count, elemSize, m);
    TwoBlocks(p0, p1, allocator.Pool(m), count * elemSize);
  }

  /** Two requests of `bytes` bytes on an empty pool: no Free block to
      reuse, so both blocks come from the raw allocator and both are held. */
  lemma TwoBlocks(p0: seq<Block>, p1: seq<Block>, p2: seq<Block>, bytes: nat)
    requires p0 == [] && Charged(p0, p1, bytes) && Charged(p1, p2, bytes)
    ensures |p2| == 2 && FreeCount(p2) == 0 && Size(p2) == 2 * bytes
  {
    assert FreeOf(p0, bytes) == 0;
  }

  /** Releasing a block keeps every block tracked, one more of them Free,
      and pool_size as it was. */
  lemma OneReleased(p: seq<Block>, q: seq<Block>, bytes: nat)
    requires Credited(p, q, bytes)
    ensures |q| == |p| && FreeCount(q) == FreeCount(p) + 1 && Size(q) == Size(p)
  {
  }

  /** When no caller holds a block in any space, every tracked block is
      Free: pool_free_count() == pool_count(). */
  lemma AllFree(allocator: PooledAllocator)
    requires allocator.Valid() && forall s :: |LiveMap(allocator.Pool(s))| == 0
    ensures FreeCount(allocator.Pool(Host)) + FreeCount(allocator.Pool(Device))
         == |allocator.Pool(Host)| + |allocator.Pool(Device)|
  {
    CountSplit(allocator.Pool(Host));
    CountSplit(allocator.Pool(Device));
  }

  /** The end state of the tests: nothing held in space `m`, nothing
      tracked in the other space. */
  lemma NoneHeld(allocator: PooledAllocator, m: Space)
    requires allocator.Valid() && allocator.Pool(Other(m)) == [] && |LiveMap(allocator.Pool(m))| == 0
    ensures FreeCount(allocator.Pool(Host)) + FreeCount(allocator.Pool(Device))
         == |allocator.Pool(Host)| + |allocator.Pool(Device)|
  {
    forall s
      ensures |LiveMap(allocator.Pool(s))| == 0
    {
      if s != m {
        assert s == Other(m);
      }
    }
    AllFree(allocator);
  }

  /** The Free blocks of `allocSize` bytes, and of 1 byte, that the allocate
      functor leaves behind: one of each, or two of 1 byte when the two sizes
      coincide. */
  function Leftover(allocSize: nat): nat {
    if allocSize == 1 then 2 else 1
  }

  /** The pool of space `m` after the allocate functor has run for the first
      `k` entries of `pointers`: each of them holds its kept block of
      `allocSize` bytes, `keptBytes` in all, the two short-lived blocks are
      back in the pool as Free blocks, and nothing else is tracked. */
  ghost predicate AfterAllocate(allocator: PooledAllocator, m: Space, allocSize: nat, pointers: array<nat>, k: nat, keptBytes: nat)
    reads allocator, pointers
  {
    && k <= pointers.Length
    && allocator.Pool(Other(m)) == []
    && Ledger(allocator.Pool(m), allocSize, k, keptBytes)
    && Kept(pointers[..], LiveMap(allocator.Pool(m)), allocSize, k)
  }

  /** The counters of a pool after `k` rounds of the allocate functor: `k`
      blocks held, and from the first round on one Free block of each
      requested size (two when the sizes coincide). */
  ghost predicate Ledger(p: seq<Block>, allocSize: nat, k: nat, keptBytes: nat) {
    && |LiveMap(p)| == k
    && (k == 0 ==> p == [] && keptBytes == 0)
    && (k > 0 ==>
          && FreeCount(p) == 2
          && FreeOf(p, allocSize) == Leftover(allocSize)
          && FreeOf(p, 1) == Leftover(allocSize)
          && Size(p) == keptBytes + allocSize + 1)
  }

  /** The first `k` of `ptrs` are distinct addresses the caller holds, each
      with a block of `allocSize` bytes; the rest are still null. */
  ghost predicate Kept(ptrs: seq<nat>, live: map<nat, nat>, allocSize: nat, k: nat) {
    && k <= |ptrs|
    && (forall i :: 0 <= i < k ==> ptrs[i] != Null && ptrs[i] in live && live[ptrs[i]] == allocSize)
    && (forall i, j :: 0 <= i < j < k ==> ptrs[i] != ptrs[j])
    && (forall i :: k <= i < |ptrs| ==> ptrs[i] == Null)
  }

  /** Storing one more held address, new to the caller, extends Kept. */
  lemma KeepOne(ptrs: seq<nat>, live: map<nat, nat>, allocSize: nat, k: nat, c: nat)
    requires Kept(ptrs, live, allocSize, k) && k < |ptrs| && c != Null && c !in live
    ensures Kept(ptrs[k := c], live[c := allocSize], allocSize, k + 1)
  {
  }

  /** The counters over one round of the allocate functor, from pool `p0`
      to pool `p5`: alloc of `allocSize`, of 1 and of `allocSize` bytes,
      then dealloc of the first two blocks. The first round leaves the two
      released blocks behind Free; every later round is served from them
      and puts them back, so pool_size grows by the kept block alone. */
  lemma RoundCounts(p0: seq<Block>, p1: seq<Block>, p2: seq<Block>, p3: seq<Block>, p4: seq<Block>, p5: seq<Block>,
                    allocSize: nat, k: nat, keptBytes: nat)
    requires Ledger(p0, allocSize, k, keptBytes)
    requires Charged(p0, p1, allocSize) && Charged(p1, p2, 1) && Charged(p2, p3, allocSize)
    requires Credited(p3, p4, allocSize) && Credited(p4, p5, 1)
    requires |LiveMap(p5)| == k + 1
    ensures Ledger(p5, allocSize, k + 1, keptBytes + allocSize)
    ensures Size(p5) >= Size(p0)
  {
    if k == 0 {
      assert FreeOf(p0, allocSize) == 0 && FreeOf(p0, 1) == 0;
    }
  }

  /** allocate::operator() in round `k`: `ptr` is the functor's by-reference
      argument, returned here for the caller to store in its vector entry.
      Of its three blocks only that one stays held, and it is new. */
  method Allocate(allocator: PooledAllocator, allocSize: nat, m: Space, ghost k: nat, ghost keptBytes: nat)
    returns (ptr: nat)
    requires allocator.Valid() && allocator.Pool(Other(m)) == []
    requires Ledger(allocator.Pool(m), allocSize, k, keptBytes)
    modifies allocator
    ensures allocator.Valid() && allocator.Pool(Other(m)) == []
    ensures Ledger(allocator.Pool(m), allocSize, k + 1, keptBytes + allocSize)
    ensures ptr != Null && ptr !in old(LiveMap(allocator.Pool(m)))
    ensures LiveMap(allocator.Pool(m)) == old(LiveMap(allocator.Pool(m)))[ptr := allocSize]
  {
    ghost var p0 := allocator.Pool(m);
    ghost var live0: map<nat, nat> := LiveMap(p0);
    var poolSize := allocator.PoolSize(m);
    var ptr1 := Null;
    var ptr2 := Null;
    ptr1 := allocator.Alloc(allocSize, 1, m);
    ghost var p1 := allocator.Pool(m);
    ptr2 := allocator.Alloc(1, 1, m);
    ghost var p2 := allocator.Pool(m);
    ptr := allocator.Alloc(allocSize, 1, m);
    ghost var p3 := allocator.Pool(m);
    ghost var a: nat, b: nat := ptr1, ptr2;

    assert ptr1 != Null;
    assert ptr2 != Null;
    assert ptr != Null;
    assert ptr1 != ptr2;
    assert ptr2 != ptr;
    assert ptr1 != ptr;
    var count := allocator.PoolCount(m);
    assert count >= 2;

    RoundLive(live0, LiveMap(p1), LiveMap(p2), LiveMap(p3), a, b, ptr, allocSize);
    ptr1 := allocator.Dealloc(ptr1, m);
    ghost var p4 := allocator.Pool(m);
    ptr2 := allocator.Dealloc(ptr2, m);
    RoundCounts(p0, p1, p2, p3, p4, allocator.Pool(m), allocSize, k, keptBytes);

    var size := allocator.PoolSize(m);
    assert size >= poolSize;
    var free := allocator.PoolFreeCount(m);
    assert free >= 0;
  }

  /** The held blocks over one round of the allocate functor: the three
      addresses are handed out one after the other, the first two of them
      are released, and only the third stays held. */
  lemma RoundLive(live0: map<nat, nat>, live1: map<nat, nat>, live2: map<nat, nat>, live3: map<nat, nat>,
                  a: nat, b: nat, c: nat, allocSize: nat)
    requires a !in live0 && live1 == live0[a := allocSize]
    requires b !in live1 && live2 == live1[b := 1]
    requires c !in live2 && live3 == live2[c := allocSize]
    ensures a != b && b != c && a != c && c !in live0
    ensures a in live3 && live3[a] == allocSize
    ensures b in live3 - {a} && (live3 - {a})[b] == 1
    ensures live3 - {a} - {b} == live0[c := allocSize]
  {
  }

  /** deallocate::operator() applied to pointers[k]. */
  method Deallocate(allocator: PooledAllocator, m: Space, pointers: array<nat>, k: nat)
    requires allocator.Valid() && k < pointers.Length
    requires pointers[k] in LiveMap(allocator.Pool(m))
    modifies allocator, pointers
    ensures allocator.Valid()
    ensures allocator.Pool(Other(m)) == old(allocator.Pool(Other(m)))
    ensures LiveMap(allocator.Pool(m)) == old(LiveMap(allocator.Pool(m))) - {old(pointers[k])}
    ensures |LiveMap(allocator.Pool(m))| == old(|LiveMap(allocator.Pool(m))|) - 1
    ensures pointers[k] == Null
    ensures forall i :: 0 <= i < pointers.Length && i != k ==> pointers[i] == old(pointers[i])
  {
    pointers[k] := allocator.Dealloc(pointers[k], m);
    assert pointers[k] == Null;
  }

  /** tbb::parallel_for_each(pointers, allocate): the allocate functor on
      every entry of `pointers`, one after the other. */
  method AllocateEach(allocator: PooledAllocator, allocSize: nat, m: Space, pointers: array<nat>)
    requires allocator.Valid() && AfterAllocate(allocator, m, allocSize, pointers, 0, 0)
    modifies allocator, pointers
    ensures allocator.Valid()
    ensures AfterAllocate(allocator, m, allocSize, pointers, pointers.Length, KeptBytes(pointers.Length, allocSize))
  {
    var k := 0;
    while k < pointers.Length
      invariant 0 <= k <= pointers.Length
      invariant allocator.Valid() && AfterAllocate(allocator, m, allocSize, pointers, k, KeptBytes(k, allocSize))
    {
      ghost var before, live := pointers[..], LiveMap(allocator.Pool(m));
      var ptr := Allocate(allocator, allocSize, m, k, KeptBytes(k, allocSize));
      pointers[k] := ptr;
      KeepOne(before, live, allocSize, k, ptr);
      assert pointers[..] == before[k := ptr];
      k := k + 1;
    }
  }

  /** The bytes of the blocks `n` rounds of the allocate functor keep. */
  ghost function KeptBytes(n: nat, allocSize: nat): (r: nat)
  {
    if n == 0 then 0 else KeptBytes(n - 1, allocSize) + allocSize
  }

  /** The kept bytes are `n` times the size of one block. */
  lemma {:induction false} KeptBytesProduct(n: nat, allocSize: nat)
    ensures KeptBytes(n, allocSize) == n * allocSize
  {
    if n > 0 {
      KeptBytesProduct(n - 1, allocSize);
    }
  }

  /** After `n` rounds of the allocate functor, pool_size covers the `n`
      kept blocks, and pool_count lies between `n` and 10·`n`: the freed
      blocks are reused, so at most two Free blocks stay behind. */
  lemma AllocatedBounds(p: seq<Block>, allocSize: nat, n: nat)
    requires Distinct(p) && Ledger(p, allocSize, n, KeptBytes(n, allocSize)) && n > 0
    ensures Size(p) >= n * allocSize
    ensures n <= |p| <= 10 * n
  {
    CountSplit(p);
    KeptBytesProduct(n, allocSize);
  }

  /** The entries of `ptrs` from `k` on are distinct addresses the caller
      holds, and nothing else is held; those before `k` are null again. */
  ghost predicate Held(ptrs: seq<nat>, live: map<nat, nat>, k: nat) {
    && k <= |ptrs|
    && |live| == |ptrs| - k
    && (forall i :: 0 <= i < k ==> ptrs[i] == Null)
    && (forall i :: k <= i < |ptrs| ==> ptrs[i] in live)
    && (forall i, j :: k <= i < j < |ptrs| ==> ptrs[i] != ptrs[j])
  }

  /** Once the allocate pass is over, every entry is held. */
  lemma KeptHeld(ptrs: seq<nat>, live: map<nat, nat>, allocSize: nat)
    requires Kept(ptrs, live, allocSize, |ptrs|) && |live| == |ptrs|
    ensures Held(ptrs, live, 0)
  {
  }

  /** Releasing entry `k` and nulling it extends the released prefix. */
  lemma DropOne(ptrs: seq<nat>, live: map<nat, nat>, live': map<nat, nat>, k: nat)
    requires Held(ptrs, live, k) && k < |ptrs|
    requires live' == live - {ptrs[k]} && |live'| == |live| - 1
    ensures Held(ptrs[k := Null], live', k + 1)
  {
  }

  /** tbb::parallel_for_each(pointers, deallocate): the deallocate functor
      on every entry of `pointers`, one after the other. */
  method DeallocateEach(allocator: PooledAllocator, m: Space, pointers: array<nat>)
    requires allocator.Valid() && allocator.Pool(Other(m)) == []
    requires Held(pointers[..], LiveMap(allocator.Pool(m)), 0)
    modifies allocator, pointers
    ensures allocator.Valid() && allocator.Pool(Other(m)) == []
    ensures LiveMap(allocator.Pool(m)) == map[]
    ensures forall i :: 0 <= i < pointers.Length ==> pointers[i] == Null
  {
    var k := 0;
    while k < pointers.Length
      invariant 0 <= k <= pointers.Length
      invariant allocator.Valid() && allocator.Pool(Other(m)) == []
      invariant Held(pointers[..], LiveMap(allocator.Pool(m)), k)
    {
      ghost var before := pointers[..];
      ghost var live := LiveMap(allocator.Pool(m));
      assert pointers[k] == before[k];
      Deallocate(allocator, m, pointers, k);
      DropOne(before, live, LiveMap(allocator.Pool(m)), k);
      k := k + 1;
    }
    assert pointers[..] == pointers[..pointers.Length];
  }

  /** test_pooled_allocator_multi_threaded: NumPointers kept blocks of
      MIN_SIZE_HOST bytes with short-lived blocks in between, then every kept
      block released; then every tracked block is Free. */
  method TestPooledAllocatorMultiThreaded(m: Space, minSizeHost: nat) returns (freeCount: nat, count: nat)
    ensures freeCount == count
  {
    var allocator := new PooledAllocator();
    var allocSize := minSizeHost;
    var pointers := new nat[NumPointers](_ => Null);

    AllocateEach(allocator, allocSize, m, pointers);

    for i := 0 to pointers.Length {
      assert pointers[i] != Null;
    }

    AllocatedBounds(allocator.Pool(m), allocSize, pointers.Length);
    var n := allocator.PoolSize(m);
    assert n >= pointers.Length * allocSize;
    n := allocator.PoolCount(m);
    assert n <= 10 * pointers.Length;
    count := allocator.PoolCount(m);
    assert count >= pointers.Length;

    KeptHeld(pointers[..], LiveMap(allocator.Pool(m)), allocSize);
    DeallocateEach(allocator, m, pointers);

    NoneHeld(allocator, m);
    freeCount := allocator.PoolFreeCountAll();
    count := allocator.PoolCountAll();
  }

  /** test_pooled_allocator_garbage_collection: garbage_collection drops
      the Free blocks of space `m` and keeps the held ones. */
  method TestGarbageCollection(m: Space, intSize: nat) returns (count: nat, freeCount: nat)
    ensures count == 0 && freeCount == 0
  {
    var allocator := new PooledAllocator();
    var ptr1 := Null;
    var ptr2 := Null;
    ptr1, ptr2 := AllocPair(allocator, 10000, intSize, m);

    var n := allocator.PoolCount(m);
    assert n == 2;

    ghost var p2, a := allocator.Pool(m), ptr1;
    ptr1 := allocator.Dealloc(ptr1, m);
    OneReleased(p2, allocator.Pool(m), LiveMap(p2)[a]);

    n := allocator.PoolCount(m);
    assert n == 2;
    n := allocator.PoolFreeCount(m);
    assert n == 1;

    allocator.GarbageCollection();

    n := allocator.PoolCount(m);
    assert n == 1;
    n := allocator.PoolFreeCount(m);
    assert n == 0;

    ptr2 := allocator.Dealloc(ptr2, m);

    n := allocator.PoolCount(m);
    assert n == 1;
    n := allocator.PoolFreeCount(m);
    assert n == 1;

    allocator.GarbageCollection();

    count := allocator.PoolCount(m);
    freeCount := allocator.PoolFreeCount(m);
  }
}
