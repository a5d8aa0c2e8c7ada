/// The pooled allocator: one pool of blocks per memory space, changed in place
/// by alloc, dealloc and garbage_collection, and read by the pool_* queries.
/// The raw allocator behind both spaces is a counter of never-used addresses.
module PooledAllocators {
  import opened Registry

  /** The memory space that is not `m`. */
  function Other(m: Space): (o: Space)
    ensures o != m
  {
    match m
    case Host => Device
    case Device => Host
  }

  class PooledAllocator {
    /** One pool per memory space. */
    var pools: map<Space, seq<Block>>
    /** The next address the raw allocator hands out; never handed out before. */
    var next: nat

    /** The pool of memory space `m`. */
    function Pool(m: Space): seq<Block>
      reads this
    {
      if m in pools then pools[m] else []
    }

    /** A pool for every space, and in each: no aliased addresses, none null,
        none not yet handed out by the raw allocator. */
    ghost predicate Valid()
      reads this
    {
      forall s: Space :: s in pools && WellFormed(pools[s], next)
    }

    /** A new allocator tracks no block. */
    constructor ()
      ensures Valid() && forall s :: Pool(s) == []
    {
      pools, next := map[Host := [], Device := []], 1;
      new;
      forall s: Space
        ensures s in pools && WellFormed(pools[s], next)
      {
        match s
        case Host =>
        case Device =>
      }
    }

    /** Installs `p` as the pool of space `m`. */
    method SetPool(m: Space, p: seq<Block>)
      requires (forall s :: s in pools) && WellFormed(p, next) && WellFormed(Pool(Other(m)), next)
      modifies this
      ensures Valid()
      ensures Pool(m) == p && Pool(Other(m)) == old(Pool(Other(m))) && next == old(next)
    {
      pools := pools[m := p];
      forall s: Space
        ensures s in pools && WellFormed(pools[s], next)
      {
        if s != m {
          assert s == Other(m);
        }
      }
    }

    /** alloc(&ptr, count, elemSize, m): reuse a Free block of exactly
        count * elemSize bytes in space `m`, or register a block fresh from
        the raw allocator; return its address. */
    method Alloc(count: nat, elemSize: nat, m: Space) returns (ptr: nat)
      requires Valid()
      modifies this
      ensures Valid()
      ensures Grant(Pool(m), ptr, next) == Acquire(old(Pool(m)), count * elemSize, old(next))
      ensures Pool(Other(m)) == old(Pool(Other(m)))
      ensures ptr != Null && ptr !in old(LiveMap(Pool(m)))
      ensures LiveMap(Pool(m)) == old(LiveMap(Pool(m)))[ptr := count * elemSize]
      ensures |LiveMap(Pool(m))| == old(|LiveMap(Pool(m))|) + 1
      ensures Charged(old(Pool(m)), Pool(m), count * elemSize)
    {
      ghost var p0, next0 := Pool(m), next;
      var bytes := count * elemSize;
      ghost var g := Acquire(p0, bytes, next0);
      AcquireAddress(p0, bytes, next0);
      AcquireAccounting(p0, bytes, next0);
      var p := Pool(m);
      var i := FindFree(p, bytes);
      if i >= 0 {
        ptr := p[i].addr;
        p := p[i := p[i].(state := InUse)];
      } else {
        ptr := next;
        next := next + 1;
        p := p + [Block(ptr, bytes, InUse)];
      }
      assert Grant(p, ptr, next) == g;
      assert WellFormed(Pool(Other(m)), next) by {
        WellFormedGrows(Pool(Other(m)), next0, next);
      }
      SetPool(m, p);
    }

    /** dealloc(&ptr, m): the block at `ptr` becomes Free but stays in the
        pool; the caller's pointer is overwritten with the returned null. */
    method Dealloc(ptr: nat, m: Space) returns (nulled: nat)
      requires Valid() && ptr in LiveMap(Pool(m))
      modifies this
      ensures Valid() && next == old(next)
      ensures nulled == Null
      ensures Find(old(Pool(m)), ptr) >= 0 && Pool(m) == Release(old(Pool(m)), ptr)
      ensures Pool(Other(m)) == old(Pool(Other(m)))
      ensures LiveMap(Pool(m)) == old(LiveMap(Pool(m))) - {ptr}
      ensures |LiveMap(Pool(m))| == old(|LiveMap(Pool(m))|) - 1
      ensures Credited(old(Pool(m)), Pool(m), old(LiveMap(Pool(m)))[ptr])
    {
      ghost var p0 := Pool(m);
      ReleaseAccounting(p0, ptr);
      ReleaseWellFormed(p0, ptr, next);
      var p := Pool(m);
      var i := FindAddr(p, ptr);
      SetPool(m, p[i := p[i].(state := Free)]);
      nulled := Null;
    }

    /** garbage_collection(): in every space, hand every Free block back to
        the raw allocator and drop it; InUse blocks stay. */
    method GarbageCollection()
      requires Valid()
      modifies this
      ensures Valid() && next == old(next)
      ensures forall s :: Pool(s) == Collect(old(Pool(s)))
      ensures forall s :: FreeCount(Pool(s)) == 0 && LiveMap(Pool(s)) == old(LiveMap(Pool(s)))
      ensures forall s :: |Pool(s)| == |LiveMap(Pool(s))| && Size(Pool(s)) <= old(Size(Pool(s)))
    {
      ghost var old_pools := pools;
      var h := Sweep(pools[Host]);
      var d := Sweep(pools[Device]);
      pools := map[Host := h, Device := d];
      forall s: Space
        ensures s in pools && pools[s] == Collect(old_pools[s])
      {
        match s
        case Host =>
        case Device =>
      }
      forall s: Space
        ensures WellFormed(Pool(s), next) && FreeCount(Pool(s)) == 0
        ensures LiveMap(Pool(s)) == LiveMap(old_pools[s])
        ensures |Pool(s)| == |LiveMap(Pool(s))| && Size(Pool(s)) <= Size(old_pools[s])
      {
        CollectWellFormed(old_pools[s], next);
        CollectAccounting(old_pools[s]);
      }
    }

    /** pool_count(m): the blocks of space `m`, InUse and Free. */
    method PoolCount(m: Space) returns (n: nat)
      requires Valid()
      ensures n == |Pool(m)|
      ensures n == FreeCount(Pool(m)) + |LiveMap(Pool(m))|
    {
      n := |Pool(m)|;
      CountSplit(Pool(m));
    }

    /** pool_free_count(m): the Free blocks of space `m`. */
    method PoolFreeCount(m: Space) returns (n: nat)
      ensures n == FreeCount(Pool(m))
    {
      n := CountFree(Pool(m));
    }

    /** pool_size(m): the bytes of all blocks of space `m`. */
    method PoolSize(m: Space) returns (n: nat)
      ensures n == Size(Pool(m))
    {
      n := SumSizes(Pool(m));
    }

    /** pool_count(): the blocks of all spaces, which are the Free blocks of
        all spaces plus the blocks callers hold in them. */
    method PoolCountAll() returns (n: nat)
      requires Valid()
      ensures n == |Pool(Host)| + |Pool(Device)|
      ensures n == FreeCount(Pool(Host)) + FreeCount(Pool(Device))
                 + |LiveMap(Pool(Host))| + |LiveMap(Pool(Device))|
    {
      var h := PoolCount(Host);
      var d := PoolCount(Device);
      n := h + d;
    }

    /** pool_free_count(): the Free blocks of all spaces. */
    method PoolFreeCountAll() returns (n: nat)
      ensures n == FreeCount(Pool(Host)) + FreeCount(Pool(Device))
    {
      var h := PoolFreeCount(Host);
      var d := PoolFreeCount(Device);
      n := h + d;
    }

    /** pool_size(): the bytes of all blocks of all spaces. */
    method PoolSizeAll() returns (n: nat)
      ensures n == Size(Pool(Host)) + Size(Pool(Device))
    {
      var h := PoolSize(Host);
      var d := PoolSize(Device);
      n := h + d;
    }
  }
}
