/// The block bookkeeping of one memory space of the pooled allocator: every block
/// the pool tracks, with its raw address, its exact byte size and whether it is
/// handed out (InUse) or kept for reuse (Free). A pool is a sequence of blocks
/// with pairwise distinct addresses; its order is the order the blocks were
/// registered in and only decides which of several equal-sized Free blocks is
/// reused first.
module Registry {

  /** The memory spaces the allocator keeps a separate pool for. */
  datatype Space = Host | Device

  datatype State = InUse | Free

  /** One tracked allocation unit. */
  datatype Block = Block(addr: nat, size: nat, state: State)

  /** The null pointer; the raw allocator never returns it. */
  const Null: nat := 0

  /** What alloc leaves behind: the new pool, the address handed to the
      caller and the raw allocator's next unused address. */
  datatype Grant = Grant(pool: seq<Block>, addr: nat, next: nat)

  // ---------------------------------------------------------------------------
  // Invariants of a pool

  /** No two tracked blocks alias the same address. */
  ghost predicate Distinct(p: seq<Block>) {
    forall i, j :: 0 <= i < j < |p| ==> p[i].addr != p[j].addr
  }

  /** Distinct, non-null addresses, all handed out by the raw allocator
      before it reached `bound`. */
  ghost predicate WellFormed(p: seq<Block>, bound: nat) {
    Null < bound && Distinct(p) && forall i :: 0 <= i < |p| ==> Null < p[i].addr < bound
  }

  /** A pool stays well-formed while the raw allocator moves on. */
  lemma WellFormedGrows(p: seq<Block>, bound: nat, bound': nat)
    requires WellFormed(p, bound) && bound <= bound'
    ensures WellFormed(p, bound')
  {
  }

  /** `b` can serve a request for exactly `bytes` bytes. */
  predicate Fits(b: Block, bytes: nat) {
    b.state == Free && b.size == bytes
  }

  // ---------------------------------------------------------------------------
  // What the pool_* queries report, and what the callers hold

  /** 1 for a Free block, 0 for one handed out. */
  function FreeBit(b: Block): nat {
    if b.state == Free then 1 else 0
  }

  /** 1 when `b` can serve a request for exactly `bytes` bytes, else 0. */
  function FitBit(b: Block, bytes: nat): nat {
    if Fits(b, bytes) then 1 else 0
  }

  /** pool_free_count: the Free blocks. */
  ghost function FreeCount(p: seq<Block>): nat {
    if p == [] then 0 else FreeCount(p[..|p| - 1]) + FreeBit(p[|p| - 1])
  }

  /** The Free blocks of exactly `bytes` bytes: those alloc may reuse for a
      request of that size. */
  ghost function FreeOf(p: seq<Block>, bytes: nat): nat {
    if p == [] then 0 else FreeOf(p[..|p| - 1], bytes) + FitBit(p[|p| - 1], bytes)
  }

  /** pool_size: the bytes of all tracked blocks, InUse and Free alike. */
  ghost function Size(p: seq<Block>): nat {
    if p == [] then 0 else Size(p[..|p| - 1]) + p[|p| - 1].size
  }

  /** The blocks handed out to callers: address to byte size of every InUse
      block. */
  ghost function LiveMap(p: seq<Block>): map<nat, nat> {
    if p == [] then map[]
    else
      var last := p[|p| - 1];
      var m := LiveMap(p[..|p| - 1]);
      if last.state == InUse then m[last.addr := last.size] else m
  }

  // ---------------------------------------------------------------------------
  // Lookups

  /** The first Free block of exactly `bytes` bytes, or -1 when there is none. */
  function FirstFit(p: seq<Block>, bytes: nat): (r: int)
    ensures -1 <= r < |p|
    ensures r >= 0 ==> Fits(p[r], bytes)
    ensures forall j :: 0 <= j < |p| && (r < 0 || j < r) ==> !Fits(p[j], bytes)
  {
    if p == [] then -1
    else if Fits(p[0], bytes) then 0
    else
      var r := FirstFit(p[1..], bytes);
      assert forall j :: 1 <= j < |p| ==> p[j] == p[1..][j - 1];
      if r < 0 then -1 else r + 1
  }

  /** The position of the block at address `a`, or -1 when `a` is not tracked. */
  function Find(p: seq<Block>, a: nat): (r: int)
    ensures -1 <= r < |p|
    ensures r >= 0 ==> p[r].addr == a
    ensures forall j :: 0 <= j < |p| && (r < 0 || j < r) ==> p[j].addr != a
  {
    if p == [] then -1
    else if p[0].addr == a then 0
    else
      var r := Find(p[1..], a);
      assert forall j :: 1 <= j < |p| ==> p[j] == p[1..][j - 1];
      if r < 0 then -1 else r + 1
  }

  // ---------------------------------------------------------------------------
  // The three state changes

  /** alloc in one space: reuse the first Free block of exactly `bytes` bytes,
      or register a block the raw allocator hands out at `nextAddr`. */
  ghost function Acquire(p: seq<Block>, bytes: nat, nextAddr: nat): Grant {
    var i := FirstFit(p, bytes);
    if i >= 0 then Grant(p[i := p[i].(state := InUse)], p[i].addr, nextAddr)
    else Grant(p + [Block(nextAddr, bytes, InUse)], nextAddr, nextAddr + 1)
  }

  /** dealloc in one space: the block at `a` becomes Free and stays tracked. */
  ghost function Release(p: seq<Block>, a: nat): seq<Block>
    requires Find(p, a) >= 0
  {
    var i := Find(p, a);
    p[i := p[i].(state := Free)]
  }

  /** garbage_collection in one space: keep exactly the InUse blocks. */
  ghost function Collect(p: seq<Block>): seq<Block> {
    if p == [] then []
    else Collect(p[..|p| - 1]) + (if p[|p| - 1].state == InUse then [p[|p| - 1]] else [])
  }

  // ---------------------------------------------------------------------------
  // Lemmas about lookups

  /** Find only looks at addresses. */
  lemma FindSameAddrs(p: seq<Block>, q: seq<Block>, a: nat)
    requires |p| == |q| && forall j :: 0 <= j < |p| ==> p[j].addr == q[j].addr
    ensures Find(p, a) == Find(q, a)
  {
    var r, s := Find(p, a), Find(q, a);
    if r >= 0 && s >= 0 {
      assert !(r < s) && !(s < r);
    }
  }

  /** In a pool without aliases, every block is found at its own position. */
  lemma FindDistinct(p: seq<Block>, i: nat)
    requires Distinct(p) && i < |p|
    ensures Find(p, p[i].addr) == i
  {
  }

  /** The live map holds exactly the InUse blocks, with their sizes. */
  lemma {:induction false} LiveMapAt(p: seq<Block>, a: nat)
    requires Distinct(p)
    ensures a in LiveMap(p) <==> Find(p, a) >= 0 && p[Find(p, a)].state == InUse
    ensures a in LiveMap(p) ==> LiveMap(p)[a] == p[Find(p, a)].size
  {
    if p != [] {
      var n := |p| - 1;
      var q := p[..n];
      assert forall j :: 0 <= j < n ==> q[j] == p[j];
      LiveMapAt(q, a);
      var r := Find(q, a);
      if r >= 0 {
        assert Find(p, a) == r;
      } else if p[n].addr == a {
        assert Find(p, a) == n;
      } else {
        assert Find(p, a) == -1;
      }
    }
  }

  // ---------------------------------------------------------------------------
  // Accounting lemmas

  /** pool_count == pool_free_count + the number of blocks handed out. */
  lemma {:induction false} CountSplit(p: seq<Block>)
    requires Distinct(p)
    ensures |p| == FreeCount(p) + |LiveMap(p)|
  {
    if p != [] {
      var n := |p| - 1;
      var q := p[..n];
      CountSplit(q);
      LiveMapAt(q, p[n].addr);
    }
  }

  /** Replacing one block changes pool_free_count, the Free blocks of each
      size and pool_size by exactly that block's share. */
  lemma {:induction false} UpdateAccounting(p: seq<Block>, i: nat, b: Block, bytes: nat)
    requires i < |p|
    ensures FreeCount(p[i := b]) + FreeBit(p[i]) == FreeCount(p) + FreeBit(b)
    ensures FreeOf(p[i := b], bytes) + FitBit(p[i], bytes) == FreeOf(p, bytes) + FitBit(b, bytes)
    ensures Size(p[i := b]) + p[i].size == Size(p) + b.size
  {
    var q := p[i := b];
    var n := |p| - 1;
    if i == n {
      assert q[..n] == p[..n];
    } else {
      UpdateAccounting(p[..n], i, b, bytes);
      assert q[..n] == p[..n][i := b];
      assert p[..n][i] == p[i] && q[n] == p[n];
    }
  }

  /** Replacing one block by one at the same address changes the live map at
      that address only. */
  lemma LiveMapUpdate(p: seq<Block>, i: nat, b: Block)
    requires Distinct(p) && i < |p| && b.addr == p[i].addr
    ensures Distinct(p[i := b])
    ensures LiveMap(p[i := b]) ==
      if b.state == InUse then LiveMap(p)[b.addr := b.size] else LiveMap(p) - {b.addr}
  {
    var q := p[i := b];
    assert forall j :: 0 <= j < |p| ==> p[j].addr == q[j].addr;
    var want := if b.state == InUse then LiveMap(p)[b.addr := b.size] else LiveMap(p) - {b.addr};
    forall a
      ensures a in LiveMap(q) <==> a in want
      ensures a in want ==> LiveMap(q)[a] == want[a]
    {
      LiveMapAt(p, a);
      LiveMapAt(q, a);
      FindSameAddrs(p, q, a);
      FindDistinct(p, i);
    }
    assert LiveMap(q).Keys == want.Keys;
  }

  /** Registering one more block adds exactly its share. */
  lemma AppendAccounting(p: seq<Block>, b: Block)
    ensures FreeCount(p + [b]) == FreeCount(p) + FreeBit(b)
    ensures forall bytes :: FreeOf(p + [b], bytes) == FreeOf(p, bytes) + FitBit(b, bytes)
    ensures Size(p + [b]) == Size(p) + b.size
    ensures LiveMap(p + [b]) == if b.state == InUse then LiveMap(p)[b.addr := b.size] else LiveMap(p)
  {
    assert (p + [b])[..|p|] == p;
  }

  /** Some Free block has exactly `bytes` bytes when some block fits. */
  lemma {:induction false} FreeOfHas(p: seq<Block>, bytes: nat)
    ensures FreeOf(p, bytes) > 0 <==> exists j :: 0 <= j < |p| && Fits(p[j], bytes)
  {
    if p != [] {
      var n := |p| - 1;
      FreeOfHas(p[..n], bytes);
      assert forall j :: 0 <= j < n ==> p[..n][j] == p[j];
    }
  }

  /** alloc finds a block to reuse exactly when a Free block of the requested
      size is tracked. */
  lemma FirstFitFreeOf(p: seq<Block>, bytes: nat)
    ensures FirstFit(p, bytes) >= 0 <==> FreeOf(p, bytes) > 0
  {
    FreeOfHas(p, bytes);
  }

  // ---------------------------------------------------------------------------
  // alloc

  /** alloc hands out a non-null address that no caller holds, and from then
      on the caller holds it with the requested size. */
  lemma AcquireAddress(p: seq<Block>, bytes: nat, nextAddr: nat)
    requires WellFormed(p, nextAddr)
    ensures var g := Acquire(p, bytes, nextAddr);
      && g.addr != Null
      && g.addr !in LiveMap(p)
      && LiveMap(g.pool) == LiveMap(p)[g.addr := bytes]
      && WellFormed(g.pool, g.next)
      && nextAddr <= g.next
  {
    var g := Acquire(p, bytes, nextAddr);
    var i := FirstFit(p, bytes);
    if i >= 0 {
      FindDistinct(p, i);
      LiveMapAt(p, g.addr);
      LiveMapUpdate(p, i, p[i].(state := InUse));
      assert forall j :: 0 <= j < |p| ==> p[j].addr == g.pool[j].addr;
    } else {
      LiveMapAt(p, nextAddr);
      AppendAccounting(p, Block(nextAddr, bytes, InUse));
      assert g.pool[|p|] == Block(nextAddr, bytes, InUse);
    }
  }

  /** The counters alloc of `bytes` bytes moves from `p` to `q`: when a Free
      block of exactly that size exists, pool_count and pool_size stay and one
      such Free block is handed out; otherwise one block of `bytes` bytes is
      added, handed out at once. Free blocks of other sizes are untouched. */
  ghost predicate Charged(p: seq<Block>, q: seq<Block>, bytes: nat) {
    && (FreeOf(p, bytes) > 0 ==>
          && |q| == |p|
          && Size(q) == Size(p)
          && FreeCount(q) == FreeCount(p) - 1
          && FreeOf(q, bytes) == FreeOf(p, bytes) - 1)
    && (FreeOf(p, bytes) == 0 ==>
          && |q| == |p| + 1
          && Size(q) == Size(p) + bytes
          && FreeCount(q) == FreeCount(p)
          && FreeOf(q, bytes) == 0)
    && (forall x :: x != bytes ==> FreeOf(q, x) == FreeOf(p, x))
  }

  /** alloc reuses a block exactly when a Free block of the requested size
      exists, and only otherwise asks the raw allocator for a new address. */
  lemma AcquireAccounting(p: seq<Block>, bytes: nat, nextAddr: nat)
    ensures var g := Acquire(p, bytes, nextAddr);
      && Charged(p, g.pool, bytes)
      && (FreeOf(p, bytes) > 0 ==> g.next == nextAddr)
      && (FreeOf(p, bytes) == 0 ==> g.addr == nextAddr && g.next == nextAddr + 1)
  {
    var g := Acquire(p, bytes, nextAddr);
    var i := FirstFit(p, bytes);
    FirstFitFreeOf(p, bytes);
    if i >= 0 {
      var b := p[i].(state := InUse);
      assert g.pool == p[i := b];
      UpdateAccounting(p, i, b, bytes);
      forall x | x != bytes
        ensures FreeOf(g.pool, x) == FreeOf(p, x)
      {
        UpdateAccounting(p, i, b, x);
      }
    } else {
      var b := Block(nextAddr, bytes, InUse);
      assert g.pool == p + [b];
      AppendAccounting(p, b);
    }
  }

  /** alloc leaves every other block as it was and adds no block but the one
      it hands out. */
  lemma AcquireFrame(p: seq<Block>, bytes: nat, nextAddr: nat)
    requires WellFormed(p, nextAddr)
    ensures var g := Acquire(p, bytes, nextAddr);
      && (forall b :: b in p && b.addr != g.addr ==> b in g.pool)
      && (forall b :: b in g.pool ==> b in p || b == Block(g.addr, bytes, InUse))
  {
    var g := Acquire(p, bytes, nextAddr);
    var i := FirstFit(p, bytes);
    if i >= 0 {
      forall b | b in p && b.addr != g.addr
        ensures b in g.pool
      {
        var j :| 0 <= j < |p| && p[j] == b;
        assert g.pool[j] == b;
      }
    }
  }

  // ---------------------------------------------------------------------------
  // dealloc

  /** The counters dealloc of a block of `bytes` bytes moves from `p` to
      `q`: pool_count and pool_size stay, and there is one more Free block,
      of that size. */
  ghost predicate Credited(p: seq<Block>, q: seq<Block>, bytes: nat) {
    && |q| == |p|
    && Size(q) == Size(p)
    && FreeCount(q) == FreeCount(p) + 1
    && (forall x :: FreeOf(q, x) == FreeOf(p, x) + (if x == bytes then 1 else 0))
  }

  /** dealloc adds one Free block of the released block's size, and the
      caller no longer holds the address. */
  lemma ReleaseAccounting(p: seq<Block>, a: nat)
    requires Distinct(p) && a in LiveMap(p)
    ensures Find(p, a) >= 0
    ensures Credited(p, Release(p, a), LiveMap(p)[a])
    ensures LiveMap(Release(p, a)) == LiveMap(p) - {a}
  {
    LiveMapAt(p, a);
    var k := Find(p, a);
    var b := p[k].(state := Free);
    UpdateAccounting(p, k, b, 0);
    forall x
      ensures FreeOf(Release(p, a), x) == FreeOf(p, x) + (if x == LiveMap(p)[a] then 1 else 0)
    {
      UpdateAccounting(p, k, b, x);
    }
    LiveMapUpdate(p, k, b);
  }

  /** dealloc keeps the pool free of aliases and within the raw allocator's
      range. */
  lemma ReleaseWellFormed(p: seq<Block>, a: nat, bound: nat)
    requires WellFormed(p, bound) && Find(p, a) >= 0
    ensures WellFormed(Release(p, a), bound)
  {
    var q := Release(p, a);
    assert forall j :: 0 <= j < |q| ==> q[j].addr == p[j].addr;
  }

  /** dealloc leaves every other block as it was and keeps the released block
      tracked, now Free. */
  lemma ReleaseFrame(p: seq<Block>, a: nat)
    requires Distinct(p) && Find(p, a) >= 0
    ensures var q := Release(p, a);
      && (forall b :: b in p && b.addr != a ==> b in q)
      && (forall b :: b in q ==> b in p || b == Block(a, p[Find(p, a)].size, Free))
      && Block(a, p[Find(p, a)].size, Free) in q
  {
    var q := Release(p, a);
    var k := Find(p, a);
    assert q[k] == Block(a, p[k].size, Free);
    forall b | b in p && b.addr != a
      ensures b in q
    {
      var j :| 0 <= j < |p| && p[j] == b;
      assert q[j] == b;
    }
  }

  /** Exact-size reuse: releasing a block and asking again for its size gives
      back the same pool_count and pool_size, without a raw allocation. */
  lemma ReuseAfterRelease(p: seq<Block>, a: nat, nextAddr: nat)
    requires WellFormed(p, nextAddr) && a in LiveMap(p)
    ensures Find(p, a) >= 0
    ensures var g := Acquire(Release(p, a), LiveMap(p)[a], nextAddr);
      |g.pool| == |p| && Size(g.pool) == Size(p) && FreeCount(g.pool) == FreeCount(p) && g.next == nextAddr
  {
    ReleaseAccounting(p, a);
    AcquireAccounting(Release(p, a), LiveMap(p)[a], nextAddr);
  }

  // ---------------------------------------------------------------------------
  // garbage_collection

  /** Collecting keeps exactly the InUse blocks: nothing Free is left, no
      caller loses a block, and pool_size does not grow. */
  lemma {:induction false} CollectAccounting(p: seq<Block>)
    ensures FreeCount(Collect(p)) == 0
    ensures LiveMap(Collect(p)) == LiveMap(p)
    ensures Size(Collect(p)) <= Size(p)
    ensures forall b :: b in Collect(p) <==> b in p && b.state == InUse
  {
    if p != [] {
      var n := |p| - 1;
      CollectAccounting(p[..n]);
      var last := p[n];
      assert p == p[..n] + [last];
      if last.state == InUse {
        AppendAccounting(Collect(p[..n]), last);
      } else {
        assert Collect(p) == Collect(p[..n]);
      }
    }
  }

  /** Collecting keeps the pool free of aliases and within the raw
      allocator's range, and leaves one block per caller-held address. */
  lemma CollectWellFormed(p: seq<Block>, bound: nat)
    requires WellFormed(p, bound)
    ensures WellFormed(Collect(p), bound)
    ensures |Collect(p)| == |LiveMap(p)|
  {
    CollectAccounting(p);
    CollectDistinct(p);
    CountSplit(Collect(p));
  }

  lemma {:induction false} CollectDistinct(p: seq<Block>)
    requires Distinct(p)
    ensures Distinct(Collect(p))
  {
    if p != [] {
      var n := |p| - 1;
      CollectDistinct(p[..n]);
      CollectAccounting(p[..n]);
      var c := Collect(p[..n]);
      forall i | 0 <= i < |c|
        ensures c[i].addr != p[n].addr
      {
        assert c[i] in p[..n];
      }
    }
  }

  // ---------------------------------------------------------------------------
  // The model's loops for the lookups, the sweep and the counts

  /** The free-list lookup of alloc. */
  method FindFree(p: seq<Block>, bytes: nat) returns (i: int)
    ensures i == FirstFit(p, bytes)
    ensures i >= 0 ==> Fits(p[i], bytes)
    ensures i < 0 ==> forall j :: 0 <= j < |p| ==> !Fits(p[j], bytes)
  {
    i := 0;
    while i < |p|
      invariant 0 <= i <= |p|
      invariant forall j :: 0 <= j < i ==> !Fits(p[j], bytes)
    {
      if Fits(p[i], bytes) {
        return;
      }
      i := i + 1;
    }
    i := -1;
  }

  /** The lookup of dealloc: the position of address `a` in the pool. */
  method FindAddr(p: seq<Block>, a: nat) returns (i: int)
    ensures i == Find(p, a)
    ensures i >= 0 ==> p[i].addr == a
    ensures i < 0 ==> forall j :: 0 <= j < |p| ==> p[j].addr != a
  {
    i := 0;
    while i < |p|
      invariant 0 <= i <= |p|
      invariant forall j :: 0 <= j < i ==> p[j].addr != a
    {
      if p[i].addr == a {
        return;
      }
      i := i + 1;
    }
    i := -1;
  }

  /** The sweep of garbage_collection over one pool: every Free block is
      released to the raw allocator and dropped, every InUse block kept. */
  method Sweep(p: seq<Block>) returns (kept: seq<Block>)
    ensures kept == Collect(p)
  {
    kept := [];
    var i := 0;
    while i < |p|
      invariant 0 <= i <= |p|
      invariant kept == Collect(p[..i])
    {
      assert p[..i + 1][..i] == p[..i];
      if p[i].state == InUse {
        kept := kept + [p[i]];
      }
      i := i + 1;
    }
    assert p[..|p|] == p;
  }

  /** pool_free_count of one space. */
  method CountFree(p: seq<Block>) returns (n: nat)
    ensures n == FreeCount(p)
  {
    n := 0;
    var i := 0;
    while i < |p|
      invariant 0 <= i <= |p|
      invariant n == FreeCount(p[..i])
    {
      assert p[..i + 1][..i] == p[..i];
      if p[i].state == Free {
        n := n + 1;
      }
      i := i + 1;
    }
    assert p[..|p|] == p;
  }

  /** pool_size of one space. */
  method SumSizes(p: seq<Block>) returns (n: nat)
    ensures n == Size(p)
  {
    n := 0;
    var i := 0;
    while i < |p|
      invariant 0 <= i <= |p|
      invariant n == Size(p[..i])
    {
      assert p[..i + 1][..i] == p[..i];
      n := n + p[i].size;
      i := i + 1;
    }
    assert p[..|p|] == p;
  }
}
