/**
 * The second-level memory pool `alloc` (my_STL/__Alloc.h, my_STL/__Alloc.cpp)
 * as functions on its state, and what they guarantee.
 *
 * Requests above 128 bytes go straight to `malloc`. Smaller requests are
 * rounded up to a multiple of 8 and served from one of 16 singly linked free
 * lists; an empty list is refilled with up to 20 blocks carved from a
 * contiguous pool, and the pool is regrown from `malloc` (or, when `malloc`
 * fails, from a free block of a larger class).
 *
 * A free list is the sequence of its block addresses, head first; the link a
 * free block stores in its own first bytes is that sequence's order.
 * `malloc` is an oracle: each operation that may call it takes its answer as
 * the parameter `grant` (`None` for a null return). The safety lemmas take
 * the blocks clients hold (`live`) and an address bound `top` above
 * everything `malloc` has handed out, and show that free blocks, the pool and
 * the clients' blocks never share a byte.
 */
module AllocSpec {
  import opened Wrappers
  import opened SizeClass
  import opened Extents

  /** The allocator's static state: `free_list`, `start_free`, `end_free` and `heap_size`. */
  datatype Pool = Pool(freeLists: seq<seq<nat>>, startFree: nat, endFree: nat, heapSize: nat)

  /** The number of blocks `refill` asks `chunk_alloc` for. */
  const RefillCount: nat := 20

  /** Sixteen free lists, and a pool whose length is a multiple of `Align`. */
  predicate WellFormed(p: Pool)
  {
    && |p.freeLists| == NFreeLists
    && p.startFree <= p.endFree
    && (p.endFree - p.startFree) % Align == 0
  }

  /** The state before the first request: empty free lists and an empty pool. */
  function Initial(): (p: Pool)
    ensures WellFormed(p)
  {
    Pool(seq(NFreeLists, _ => []), 0, 0, 0)
  }

  /** Bytes asked of `malloc` when the pool is regrown for a request of `total` bytes. */
  function BytesToGet(total: nat, heapSize: nat): (r: nat)
    ensures 2 * total <= r
    ensures total % Align == 0 ==> r % Align == 0
  {
    var extra := RoundUp(heapSize / 16);
    if total % Align == 0 then
      AlignedSum(total, total);
      AlignedSum(2 * total, extra);
      2 * total + extra
    else
      2 * total + extra
  }

  /** The free lists after the pool's leftover `[start, end)` has been pushed onto the list of its size. */
  function Donate(lists: seq<seq<nat>>, start: nat, end: nat): (r: seq<seq<nat>>)
    requires |lists| == NFreeLists && start <= end <= start + MaxBytes
    ensures |r| == NFreeLists
  {
    if start < end then
      var k := FreeListIndex(end - start);
      lists[k := [start] + lists[k]]
    else lists
  }

  /** The first non-empty free list at or after index `from`, if any. */
  function FirstNonEmpty(lists: seq<seq<nat>>, from: nat): (r: Option<nat>)
    ensures r.Some? ==> from <= r.value < |lists| && lists[r.value] != []
    ensures r.Some? ==> forall j | from <= j < r.value :: lists[j] == []
    ensures r.None? ==> forall j | from <= j < |lists| :: lists[j] == []
    decreases |lists| - from
  {
    if from >= |lists| then None
    else if lists[from] != [] then Some(from)
    else FirstNonEmpty(lists, from + 1)
  }

  /** The first non-empty list at or after `from` is `k` when `k` is non-empty and every list between is empty. */
  lemma {:induction false} FirstNonEmptyIs(lists: seq<seq<nat>>, from: nat, k: nat)
    requires from <= k < |lists| && lists[k] != []
    requires forall j | from <= j < k :: lists[j] == []
    ensures FirstNonEmpty(lists, from) == Some(k)
    decreases k - from
  {
    if from < k {
      FirstNonEmptyIs(lists, from + 1, k);
    }
  }

  /** With every list at or after `from` empty there is no non-empty list to find. */
  lemma {:induction false} FirstNonEmptyNone(lists: seq<seq<nat>>, from: nat)
    requires forall j | from <= j < |lists| :: lists[j] == []
    ensures FirstNonEmpty(lists, from) == None
    decreases |lists| - from
  {
    if from < |lists| {
      FirstNonEmptyNone(lists, from + 1);
    }
  }

  /** A chunk of `k` blocks of `size` bytes is at least one block long and a multiple of `Align` when `size` is. */
  lemma ChunkBytes(size: nat, k: nat)
    requires size % Align == 0 && 1 <= k
    ensures (size * k) % Align == 0 && size <= size * k && RunLength(size, k) == size * k
  {
    RunLengthIsProduct(size, k);
    AlignedProduct(size / Align, k);
    assert size == Align * (size / Align);
  }

  lemma AlignedProduct(q: nat, k: nat)
    ensures (Align * q * k) % Align == 0
  {
    assert Align * q * k == Align * (q * k);
  }

  /** How many whole blocks of `size` bytes a pool of `left` bytes holds, when that is at least one and fewer than `nobjs`. */
  lemma PartialChunk(left: nat, size: nat, nobjs: nat)
    requires 0 < size <= left < size * nobjs
    ensures 1 <= left / size < nobjs && size * (left / size) <= left
  {
    var q := left / size;
    assert left == size * q + left % size;
    if nobjs <= q {
      MulMonotone(size, nobjs, q);
    }
  }

  lemma MulMonotone(a: nat, b: nat, c: nat)
    requires b <= c
    ensures a * b <= a * c
  {
  }

  /** The blocks of the lists at or after the class of `size` are at least `size` bytes long. */
  lemma LargerClass(size: nat, k: nat)
    requires Align <= size && size % Align == 0 && FreeListIndex(size) <= k
    ensures size <= ClassSize(k)
  {
    ClassOfAligned(size);
  }

  /** A leftover smaller than `size` goes onto a list below the class of `size`. */
  lemma SmallerClass(left: nat, size: nat)
    requires 0 < left < size && left % Align == 0 && size % Align == 0
    ensures FreeListIndex(left) < FreeListIndex(size)
  {
    ClassOfAligned(left);
    ClassOfAligned(size);
  }

  /** `bytes_left / size`: how many whole blocks of `size` bytes fit in `left` bytes, when at least one and fewer than `nobjs` do. */
  function WholeBlocks(left: nat, size: nat, nobjs: nat): (got: nat)
    requires size % Align == 0 && 0 < size <= left < RunLength(size, nobjs) && left % Align == 0
    ensures 1 <= got < nobjs && RunLength(size, got) <= left && (left - RunLength(size, got)) % Align == 0
    ensures left - RunLength(size, got) < size
  {
    var got := left / size;
    WholeBlocksFacts(left, size, nobjs, got);
    got
  }

  lemma WholeBlocksFacts(left: nat, size: nat, nobjs: nat, got: nat)
    requires size % Align == 0 && 0 < size <= left < RunLength(size, nobjs) && left % Align == 0
    requires got == left / size
    ensures 1 <= got < nobjs && RunLength(size, got) <= left && (left - RunLength(size, got)) % Align == 0
    ensures left - RunLength(size, got) < size
  {
    RunLengthIsProduct(size, nobjs);
    PartialChunk(left, size, nobjs);
    ChunkBytes(size, got);
    DifferenceAligned(left, size * got);
    assert left == size * got + left % size;
  }

  /** A run of blocks whose size is a multiple of `Align` is itself a multiple of `Align`, and no shorter than one block. */
  lemma {:induction false} RunAligned(size: nat, k: nat)
    requires size % Align == 0
    ensures RunLength(size, k) % Align == 0
    ensures 1 <= k ==> size <= RunLength(size, k)
    decreases k
  {
    if k > 0 {
      RunAligned(size, k - 1);
    }
  }

  lemma DifferenceAligned(x: nat, y: nat)
    requires x % Align == 0 && y % Align == 0 && y <= x
    ensures (x - y) % Align == 0
  {
  }

  /**
   * The pool holds at least one block of `size` bytes: `chunk_alloc` hands
   * out the first `nobjs` blocks, or as many whole blocks as the pool holds.
   */
  function TakeChunk(p: Pool, size: nat, nobjs: nat): (res: (Pool, Option<nat>, nat))
    requires WellFormed(p) && size % Align == 0 && 0 < size <= p.endFree - p.startFree && 1 <= nobjs
    ensures WellFormed(res.0) && res.1 == Some(p.startFree) && 1 <= res.2 <= nobjs
    ensures res.0 == p.(startFree := p.startFree + RunLength(size, res.2))
    ensures res.2 == nobjs <==> RunLength(size, nobjs) <= p.endFree - p.startFree
    ensures res.2 < nobjs ==> p.endFree - p.startFree - RunLength(size, res.2) < size
  {
    RunAligned(size, nobjs);
    var total := RunLength(size, nobjs);
    var left := p.endFree - p.startFree;
    if left >= total then
      DifferenceAligned(left, total);
      (p.(startFree := p.startFree + total), Some(p.startFree), nobjs)
    else
      var got := WholeBlocks(left, size, nobjs);
      (p.(startFree := p.startFree + RunLength(size, got)), Some(p.startFree), got)
  }

  /**
   * The pool holds fewer than `size` bytes: its leftover goes onto the free
   * list of its size, and the pool is regrown from `malloc`, or, when
   * `malloc` fails, from the first free block of class `size` or larger. On
   * failure of both the pool is left empty at address 0.
   */
  function Replenish(p: Pool, size: nat, nobjs: nat, grant: Option<nat>): (q: Pool)
    requires WellFormed(p) && size % Align == 0 && Align <= size <= MaxBytes && 1 <= nobjs
    requires p.endFree - p.startFree < size
    ensures WellFormed(q) && q.heapSize >= p.heapSize
    ensures size <= q.endFree - q.startFree || (q.startFree == 0 && q.endFree == 0)
    ensures p.freeLists[FreeListIndex(size)] == [] ==> q.freeLists[FreeListIndex(size)] == []
    ensures grant.Some? ==>
      && q.startFree == grant.value
      && q.heapSize == p.heapSize + (q.endFree - q.startFree)
      && q.endFree - q.startFree == RegrowBytes(size, nobjs, p.heapSize)
      && RunLength(size, nobjs) <= q.endFree - q.startFree
  {
    var left := p.endFree - p.startFree;
    var lists := Donate(p.freeLists, p.startFree, p.endFree);
    assert left > 0 ==> FreeListIndex(left) < FreeListIndex(size) by {
      if left > 0 {
        SmallerClass(left, size);
      }
    }
    match grant
    case Some(a) =>
      var bytes := RegrowBytes(size, nobjs, p.heapSize);
      Pool(lists, a, a + bytes, p.heapSize + bytes)
    case None => Scavenge(lists, size, p.heapSize)
  }

  /** `bytes_to_get` for a request of `nobjs` blocks of `size` bytes: a multiple of `Align` and at least one block. */
  function RegrowBytes(size: nat, nobjs: nat, heapSize: nat): (bytes: nat)
    requires size % Align == 0 && 1 <= nobjs
    ensures bytes % Align == 0 && size <= bytes && 2 * RunLength(size, nobjs) <= bytes
  {
    RunAligned(size, nobjs);
    BytesToGet(RunLength(size, nobjs), heapSize)
  }

  /**
   * The failure path of `chunk_alloc`: the first free block of class `size`
   * or larger becomes the pool; with none, the pool is `[0, 0)`.
   */
  function Scavenge(lists: seq<seq<nat>>, size: nat, heapSize: nat): (q: Pool)
    requires |lists| == NFreeLists && size % Align == 0 && Align <= size <= MaxBytes
    ensures WellFormed(q) && q.heapSize == heapSize
    ensures size <= q.endFree - q.startFree || (q.startFree == 0 && q.endFree == 0)
    ensures lists[FreeListIndex(size)] == [] ==> q.freeLists[FreeListIndex(size)] == []
    ensures FirstNonEmpty(lists, FreeListIndex(size)).None? <==> q.startFree == 0 && q.endFree == 0
    ensures FirstNonEmpty(lists, FreeListIndex(size)).None? ==> q.freeLists == lists
    ensures FirstNonEmpty(lists, FreeListIndex(size)).Some? ==>
      var k := FirstNonEmpty(lists, FreeListIndex(size)).value;
      && q.startFree == lists[k][0]
      && q.endFree == q.startFree + ClassSize(k)
      && q.freeLists == lists[k := lists[k][1..]]
  {
    match FirstNonEmpty(lists, FreeListIndex(size))
    case None => Pool(lists, 0, 0, heapSize)
    case Some(k) =>
      LargerClass(size, k);
      Pool(lists[k := lists[k][1..]], lists[k][0], lists[k][0] + ClassSize(k), heapSize)
  }

  /**
   * `chunk_alloc(size, nobjs)`: up to `nobjs` contiguous blocks of `size`
   * bytes, as the new state, the first block (`None` for the null pointer)
   * and the number of blocks given. After a successful replenishment the
   * recursive call finds at least one block in the pool.
   */
  function ChunkAlloc(p: Pool, size: nat, nobjs: nat, grant: Option<nat>): (res: (Pool, Option<nat>, nat))
    requires WellFormed(p) && size % Align == 0 && Align <= size <= MaxBytes && 1 <= nobjs
    ensures WellFormed(res.0) && res.0.heapSize >= p.heapSize
    ensures 1 <= res.2 <= nobjs
    ensures res.1.None? ==> res.2 == nobjs
    ensures p.freeLists[FreeListIndex(size)] == [] ==> res.0.freeLists[FreeListIndex(size)] == []
    decreases if p.endFree - p.startFree >= size then 0 else 1
  {
    if p.endFree - p.startFree >= size then TakeChunk(p, size, nobjs)
    else
      var q := Replenish(p, size, nobjs, grant);
      if q.endFree - q.startFree >= size then ChunkAlloc(q, size, nobjs, None)
      else (q, None, nobjs)
  }

  /**
   * `refill(n)`: take up to 20 blocks of `n` bytes from the pool; return the
   * first and make the others free list `n`.
   */
  function Refill(p: Pool, n: nat, grant: Option<nat>): (res: (Pool, Option<nat>))
    requires WellFormed(p) && n % Align == 0 && Align <= n <= MaxBytes
    ensures WellFormed(res.0)
  {
    var chunk := ChunkAlloc(p, n, RefillCount, grant);
    ThreadChunk(chunk.0, chunk.1, chunk.2, n)
  }

  /**
   * The second half of `refill`: of the `nobjs` blocks starting at `chunk`,
   * the first is returned and the others become free list `n`. A null chunk
   * is passed on as failure.
   */
  function ThreadChunk(q: Pool, chunk: Option<nat>, nobjs: nat, n: nat): (res: (Pool, Option<nat>))
    requires WellFormed(q) && n % Align == 0 && Align <= n <= MaxBytes && 1 <= nobjs
    ensures WellFormed(res.0) && res.1 == chunk
    ensures chunk.None? || nobjs == 1 ==> res.0 == q
    ensures chunk.Some? && 1 < nobjs ==>
      var l := res.0.freeLists[FreeListIndex(n)];
      && res.0 == q.(freeLists := q.freeLists[FreeListIndex(n) := l])
      && |l| == nobjs - 1
      && forall m | 0 <= m < nobjs - 1 :: l[m] == chunk.value + RunLength(n, m + 1)
  {
    match chunk
    case None => (q, None)
    case Some(c) =>
      if nobjs == 1 then (q, chunk)
      else
        CarveAll(c, n, nobjs - 1, Carve(c + n, n, nobjs - 1));
        (q.(freeLists := q.freeLists[FreeListIndex(n) := Carve(c + n, n, nobjs - 1)]), chunk)
  }

  /** `allocate(n)`: the new state and a block of at least `n` bytes, or `None` when memory is exhausted. */
  function Allocate(p: Pool, n: nat, grant: Option<nat>): (res: (Pool, Option<nat>))
    requires WellFormed(p) && 1 <= n
    ensures WellFormed(res.0)
  {
    if n > MaxBytes then (p, grant)
    else
      var k := FreeListIndex(n);
      if p.freeLists[k] != [] then
        (p.(freeLists := p.freeLists[k := p.freeLists[k][1..]]), Some(p.freeLists[k][0]))
      else
        Refill(p, RoundUp(n), grant)
  }

  /** `deallocate(ptr, n)`: a small block goes onto the head of its free list; a large one to `free`. */
  function Deallocate(p: Pool, ptr: nat, n: nat): (q: Pool)
    requires WellFormed(p) && 1 <= n
    ensures WellFormed(q)
  {
    if n > MaxBytes then p
    else
      var k := FreeListIndex(n);
      p.(freeLists := p.freeLists[k := [ptr] + p.freeLists[k]])
  }

  /** `reallocate(ptr, old_size, new_size)`: release the block, then allocate anew. */
  function Reallocate(p: Pool, ptr: nat, oldSize: nat, newSize: nat, grant: Option<nat>): (res: (Pool, Option<nat>))
    requires WellFormed(p) && 1 <= oldSize && 1 <= newSize
    ensures WellFormed(res.0)
  {
    Allocate(Deallocate(p, ptr, oldSize), newSize, grant)
  }

  // ---------------------------------------------------------------------
  // Ownership

  /** Every range of memory the allocator and its clients account for. */
  function Owned(p: Pool, live: multiset<Extent>): multiset<Extent>
  {
    FreeExtents(p.freeLists) + live + PoolExtent(p.startFree, p.endFree)
  }

  /** What `malloc` returns lies at or above `top`. */
  predicate Fresh(grant: Option<nat>, top: nat)
  {
    grant.Some? ==> top <= grant.value
  }

  /** The address bound after `malloc` may have granted `bytes` bytes. */
  function Raise(top: nat, grant: Option<nat>, bytes: nat): nat
  {
    if grant.Some? then grant.value + bytes else top
  }

  /** The block handed out, as a multiset of at most one range. */
  function Block(r: Option<nat>, len: nat): multiset<Extent>
  {
    if r.Some? then multiset{Extent(r.value, len)} else multiset{}
  }

  /** Cutting `t` bytes off the front of the pool keeps ownership separated. */
  lemma TakeFromPool(held: multiset<Extent>, s: nat, e: nat, t: nat, top: nat)
    requires s <= e && 0 < t <= e - s
    requires Separated(held + PoolExtent(s, e), top)
    ensures Separated(held + PoolExtent(s + t, e) + multiset{Extent(s, t)}, top)
  {
    var after := held + PoolExtent(s + t, e) + multiset{Extent(s, t)};
    if t == e - s {
      assert PoolExtent(s + t, e) == multiset{} && PoolExtent(s, e) == multiset{Extent(s, t)};
      SameSeparated(held + PoolExtent(s, e), after, top);
    } else {
      var split := held + multiset{Extent(s, t)} + multiset{Extent(s + t, e - s - t)};
      assert PoolExtent(s, e) == multiset{Extent(s, t + (e - s - t))};
      SplitExtent(held, s, t, e - s - t, top);
      assert PoolExtent(s + t, e) == multiset{Extent(s + t, e - s - t)};
      assert split == after;
      SameSeparated(split, after, top);
    }
  }

  /** Donating the pool's leftover moves it, as one block, onto the free list of its size. */
  lemma DonateExtents(lists: seq<seq<nat>>, s: nat, e: nat)
    requires |lists| == NFreeLists && s <= e < s + MaxBytes && (e - s) % Align == 0
    ensures FreeExtents(Donate(lists, s, e)) == FreeExtents(lists) + PoolExtent(s, e)
  {
    if s < e {
      var k := FreeListIndex(e - s);
      ClassOfAligned(e - s);
      PushBlock(lists, k, s);
      assert Donate(lists, s, e) == lists[k := [s] + lists[k]];
      assert PoolExtent(s, e) == multiset{Extent(s, ClassSize(k))};
    }
  }

  /** Handing out the first `t` bytes of the pool keeps ownership separated. */
  lemma CutPool(p: Pool, live: multiset<Extent>, top: nat, t: nat)
    requires p.startFree <= p.endFree && 0 < t <= p.endFree - p.startFree
    requires Separated(Owned(p, live), top)
    ensures Separated(Owned(p.(startFree := p.startFree + t), live) + multiset{Extent(p.startFree, t)}, top)
  {
    var held := FreeExtents(p.freeLists) + live;
    TakeFromPool(held, p.startFree, p.endFree, t, top);
    var q := p.(startFree := p.startFree + t);
    var rest := PoolExtent(p.startFree + t, p.endFree);
    var handed := multiset{Extent(p.startFree, t)};
    assert q.freeLists == p.freeLists && q.startFree == p.startFree + t && q.endFree == p.endFree;
    assert Owned(q, live) == FreeExtents(p.freeLists) + live + rest;
    assert held + rest + handed == Owned(q, live) + handed;
    SameSeparated(held + rest + handed, Owned(q, live) + handed, top);
  }

  /** Taking a chunk off the front of the pool hands out bytes that nothing else owns. */
  lemma TakeChunkSafe(p: Pool, live: multiset<Extent>, top: nat, size: nat, nobjs: nat)
    requires WellFormed(p) && size % Align == 0 && 0 < size <= p.endFree - p.startFree && 1 <= nobjs
    requires Separated(Owned(p, live), top)
    ensures
      var res := TakeChunk(p, size, nobjs);
      Separated(Owned(res.0, live) + Block(res.1, RunLength(size, res.2)), top)
  {
    var res := TakeChunk(p, size, nobjs);
    var t := RunLength(size, res.2);
    RunAligned(size, res.2);
    CutPool(p, live, top, t);
    var handed := multiset{Extent(p.startFree, t)};
    var q := p.(startFree := p.startFree + t);
    assert res.0 == q;
    assert Owned(res.0, live) == Owned(q, live);
    assert Block(res.1, t) == handed;
    SameSeparated(Owned(q, live) + handed, Owned(res.0, live) + Block(res.1, t), top);
  }

  /** Scavenging moves a free block into the pool, or leaves the pool empty. */
  lemma ScavengeSafe(lists: seq<seq<nat>>, live: multiset<Extent>, top: nat, size: nat, heapSize: nat)
    requires |lists| == NFreeLists && size % Align == 0 && Align <= size <= MaxBytes
    requires Separated(FreeExtents(lists) + live, top)
    ensures Separated(Owned(Scavenge(lists, size, heapSize), live), top)
  {
    var found := FirstNonEmpty(lists, FreeListIndex(size));
    if found.Some? {
      var k := found.value;
      PopBlock(lists, k);
      var q := Pool(lists[k := lists[k][1..]], lists[k][0], lists[k][0] + ClassSize(k), heapSize);
      assert Scavenge(lists, size, heapSize) == q;
      assert PoolExtent(q.startFree, q.endFree) == multiset{Extent(lists[k][0], ClassSize(k))};
      SameSeparated(FreeExtents(lists) + live, Owned(q, live), top);
    } else {
      var q := Pool(lists, 0, 0, heapSize);
      assert Scavenge(lists, size, heapSize) == q;
      SameSeparated(FreeExtents(lists) + live, Owned(q, live), top);
    }
  }

  /** Replenishing the pool keeps ownership separated, below the bound raised by what `malloc` granted. */
  lemma ReplenishSafe(p: Pool, live: multiset<Extent>, top: nat, size: nat, nobjs: nat, grant: Option<nat>)
    requires WellFormed(p) && size % Align == 0 && Align <= size <= MaxBytes && 1 <= nobjs
    requires p.endFree - p.startFree < size
    requires Separated(Owned(p, live), top) && Fresh(grant, top)
    ensures Separated(Owned(Replenish(p, size, nobjs, grant), live), Raise(top, grant, RegrowBytes(size, nobjs, p.heapSize)))
  {
    var lists := Donate(p.freeLists, p.startFree, p.endFree);
    DonateExtents(p.freeLists, p.startFree, p.endFree);
    SameSeparated(Owned(p, live), FreeExtents(lists) + live, top);
    if grant.Some? {
      var a := grant.value;
      var bytes := RegrowBytes(size, nobjs, p.heapSize);
      var q := Pool(lists, a, a + bytes, p.heapSize + bytes);
      assert Replenish(p, size, nobjs, grant) == q;
      AddFresh(FreeExtents(lists) + live, Extent(a, bytes), top);
      SameSeparated(FreeExtents(lists) + live + multiset{Extent(a, bytes)}, Owned(q, live), a + bytes);
    } else {
      assert Replenish(p, size, nobjs, grant) == Scavenge(lists, size, p.heapSize);
      ScavengeSafe(lists, live, top, size, p.heapSize);
    }
  }

  /**
   * The growth path of `chunk_alloc` loses no free block: with `malloc`
   * succeeding, the free lists gain exactly the old pool's leftover; with
   * `malloc` failing, the free lists and the pool together hold what they
   * held before, the scavenged block having moved from a list to the pool.
   */
  lemma ReplenishKeepsBlocks(p: Pool, size: nat, nobjs: nat, grant: Option<nat>)
    requires WellFormed(p) && size % Align == 0 && Align <= size <= MaxBytes && 1 <= nobjs
    requires p.endFree - p.startFree < size
    ensures var q := Replenish(p, size, nobjs, grant);
      grant.Some? ==> FreeExtents(q.freeLists) == FreeExtents(p.freeLists) + PoolExtent(p.startFree, p.endFree)
    ensures var q := Replenish(p, size, nobjs, grant);
      grant.None? ==>
        FreeExtents(q.freeLists) + PoolExtent(q.startFree, q.endFree) == FreeExtents(p.freeLists) + PoolExtent(p.startFree, p.endFree)
  {
    var lists := Donate(p.freeLists, p.startFree, p.endFree);
    DonateExtents(p.freeLists, p.startFree, p.endFree);
    if grant.Some? {
      assert Replenish(p, size, nobjs, grant).freeLists == lists;
    } else {
      assert Replenish(p, size, nobjs, grant) == Scavenge(lists, size, p.heapSize);
      ScavengeKeepsBlocks(lists, size, p.heapSize);
    }
  }

  /** Scavenging moves a block from the free lists to the pool, or changes nothing. */
  lemma ScavengeKeepsBlocks(lists: seq<seq<nat>>, size: nat, heapSize: nat)
    requires |lists| == NFreeLists && size % Align == 0 && Align <= size <= MaxBytes
    ensures var q := Scavenge(lists, size, heapSize);
      FreeExtents(q.freeLists) + PoolExtent(q.startFree, q.endFree) == FreeExtents(lists)
  {
    var q := Scavenge(lists, size, heapSize);
    match FirstNonEmpty(lists, FreeListIndex(size))
    case None =>
      assert PoolExtent(q.startFree, q.endFree) == multiset{};
    case Some(k) =>
      PopBlock(lists, k);
      assert PoolExtent(q.startFree, q.endFree) == multiset{Extent(lists[k][0], ClassSize(k))};
  }

  /**
   * A pool short of one block and `malloc` granting `a`: the retry of
   * `chunk_alloc` carves the whole request from the new pool, so the result
   * is `a` with all `nobjs` blocks, and the new pool starts right after them.
   */
  lemma ChunkAllocRegrows(p: Pool, size: nat, nobjs: nat, a: nat)
    requires WellFormed(p) && size % Align == 0 && Align <= size <= MaxBytes && 1 <= nobjs
    requires p.endFree - p.startFree < size
    ensures var q := Replenish(p, size, nobjs, Some(a));
      ChunkAlloc(p, size, nobjs, Some(a)) == (q.(startFree := a + RunLength(size, nobjs)), Some(a), nobjs)
  {
    var q := Replenish(p, size, nobjs, Some(a));
    assert ChunkAlloc(p, size, nobjs, Some(a)) == ChunkAlloc(q, size, nobjs, None);
    assert ChunkAlloc(q, size, nobjs, None) == TakeChunk(q, size, nobjs);
  }

  /**
   * `chunk_alloc` never hands out a byte twice: the state it leaves, the
   * clients' blocks and the run it returns are separated, below the bound
   * raised by what `malloc` may have granted.
   */
  lemma {:induction false} ChunkAllocSafe(p: Pool, live: multiset<Extent>, top: nat, size: nat, nobjs: nat, grant: Option<nat>)
    requires WellFormed(p) && size % Align == 0 && Align <= size <= MaxBytes && 1 <= nobjs
    requires Separated(Owned(p, live), top) && Fresh(grant, top)
    ensures
      var res := ChunkAlloc(p, size, nobjs, grant);
      Separated(Owned(res.0, live) + Block(res.1, RunLength(size, res.2)), Raise(top, grant, RegrowBytes(size, nobjs, p.heapSize)))
    decreases if p.endFree - p.startFree >= size then 0 else 1
  {
    var top' := Raise(top, grant, RegrowBytes(size, nobjs, p.heapSize));
    var res := ChunkAlloc(p, size, nobjs, grant);
    if p.endFree - p.startFree >= size {
      assert res == TakeChunk(p, size, nobjs);
      TakeChunkSafe(p, live, top, size, nobjs);
      RaiseTop(Owned(res.0, live) + Block(res.1, RunLength(size, res.2)), top, top');
    } else {
      var q := Replenish(p, size, nobjs, grant);
      ReplenishSafe(p, live, top, size, nobjs, grant);
      if q.endFree - q.startFree >= size {
        assert res == ChunkAlloc(q, size, nobjs, None);
        ChunkAllocSafe(q, live, top', size, nobjs, None);
        assert Raise(top', None, RegrowBytes(size, nobjs, q.heapSize)) == top';
      } else {
        assert res == (q, None, nobjs);
        assert Block(None, RunLength(size, nobjs)) == multiset{};
        assert Owned(q, live) + multiset{} == Owned(q, live);
      }
    }
  }

  /** Threading the rest of a carved chunk as an empty free list keeps ownership separated. */
  lemma ThreadSafe(q: Pool, live: multiset<Extent>, top: nat, c: nat, n: nat, got: nat)
    requires |q.freeLists| == NFreeLists && n % Align == 0 && Align <= n <= MaxBytes && 1 < got
    requires q.freeLists[FreeListIndex(n)] == []
    requires Separated(Owned(q, live) + multiset{Extent(c, RunLength(n, got))}, top)
    ensures Separated(Owned(q.(freeLists := q.freeLists[FreeListIndex(n) := Carve(c + n, n, got - 1)]), live) + multiset{Extent(c, n)}, top)
  {
    var k := FreeListIndex(n);
    var rest := Carve(c + n, n, got - 1);
    var q' := q.(freeLists := q.freeLists[k := rest]);
    var m := Owned(q, live);
    CarveSeparated(m, c, n, got, top);
    CarveExtents(c, n, got);
    ClassOfAligned(n);
    FillList(q.freeLists, k, rest);
    var free, pool, first, others := FreeExtents(q.freeLists), PoolExtent(q.startFree, q.endFree), multiset{Extent(c, n)}, ListExtents(rest, n);
    assert Owned(q', live) == free + others + live + pool;
    assert m + (first + others) == Owned(q', live) + first;
    SameSeparated(m + ListExtents(Carve(c, n, got), n), Owned(q', live) + first, top);
  }

  /** Threading a separated chunk hands out its first block and frees the others, without sharing a byte. */
  lemma ThreadChunkSafe(q: Pool, live: multiset<Extent>, top: nat, chunk: Option<nat>, nobjs: nat, n: nat)
    requires WellFormed(q) && n % Align == 0 && Align <= n <= MaxBytes && 1 <= nobjs
    requires q.freeLists[FreeListIndex(n)] == []
    requires Separated(Owned(q, live) + Block(chunk, RunLength(n, nobjs)), top)
    ensures
      var res := ThreadChunk(q, chunk, nobjs, n);
      Separated(Owned(res.0, live) + Block(res.1, n), top)
  {
    var res := ThreadChunk(q, chunk, nobjs, n);
    if chunk.None? {
      assert res == (q, None);
      SameSeparated(Owned(q, live) + Block(chunk, RunLength(n, nobjs)), Owned(res.0, live) + Block(res.1, n), top);
    } else if nobjs == 1 {
      assert res == (q, chunk);
      assert RunLength(n, nobjs) == n;
      SameSeparated(Owned(q, live) + Block(chunk, RunLength(n, nobjs)), Owned(res.0, live) + Block(res.1, n), top);
    } else {
      var c := chunk.value;
      var q' := q.(freeLists := q.freeLists[FreeListIndex(n) := Carve(c + n, n, nobjs - 1)]);
      assert res == (q', chunk);
      assert Block(chunk, RunLength(n, nobjs)) == multiset{Extent(c, RunLength(n, nobjs))};
      ThreadSafe(q, live, top, c, n, nobjs);
      assert Block(res.1, n) == multiset{Extent(c, n)};
      SameSeparated(Owned(q', live) + multiset{Extent(c, n)}, Owned(res.0, live) + Block(res.1, n), top);
    }
  }

  /**
   * `refill` never hands out a byte twice: the block it returns, the blocks
   * it threads onto the free list and everything else are separated.
   */
  lemma RefillSafe(p: Pool, live: multiset<Extent>, top: nat, n: nat, grant: Option<nat>)
    requires WellFormed(p) && n % Align == 0 && Align <= n <= MaxBytes
    requires p.freeLists[FreeListIndex(n)] == []
    requires Separated(Owned(p, live), top) && Fresh(grant, top)
    ensures
      var res := Refill(p, n, grant);
      Separated(Owned(res.0, live) + Block(res.1, n), Raise(top, grant, RegrowBytes(n, RefillCount, p.heapSize)))
  {
    var chunk := ChunkAlloc(p, n, RefillCount, grant);
    ChunkAllocSafe(p, live, top, n, RefillCount, grant);
    ThreadChunkSafe(chunk.0, live, Raise(top, grant, RegrowBytes(n, RefillCount, p.heapSize)), chunk.1, chunk.2, n);
  }

  /** The bytes a block handed out for a request of `n` bytes spans: `n` itself above 128, else the rounded size. */
  function BlockSize(n: nat): (r: nat)
    ensures n <= r
    ensures 1 <= n <= MaxBytes ==> r == ClassSize(FreeListIndex(n))
  {
    if n > MaxBytes then n else RoundUp(n)
  }

  /** The address bound after `allocate(n)`: raised by the run `malloc` may have granted. */
  function AllocBound(top: nat, grant: Option<nat>, n: nat, heapSize: nat): nat
  {
    if n > MaxBytes then Raise(top, grant, n)
    else if n == 0 then top
    else Raise(top, grant, RegrowBytes(RoundUp(n), RefillCount, heapSize))
  }

  /**
   * `allocate` never hands out a byte twice: the block it returns, the
   * clients' blocks and the allocator's free blocks and pool are separated.
   */
  lemma AllocateSafe(p: Pool, live: multiset<Extent>, top: nat, n: nat, grant: Option<nat>)
    requires WellFormed(p) && 1 <= n
    requires Separated(Owned(p, live), top) && Fresh(grant, top)
    ensures
      var res := Allocate(p, n, grant);
      Separated(Owned(res.0, live) + Block(res.1, BlockSize(n)), AllocBound(top, grant, n, p.heapSize))
  {
    var res := Allocate(p, n, grant);
    var top' := AllocBound(top, grant, n, p.heapSize);
    if n > MaxBytes {
      assert res == (p, grant);
      if grant.Some? {
        AddFresh(Owned(p, live), Extent(grant.value, n), top);
      } else {
        SameSeparated(Owned(p, live), Owned(p, live) + Block(grant, n), top);
      }
    } else {
      var k := FreeListIndex(n);
      if p.freeLists[k] != [] {
        PopSafe(p, live, top, k);
        var q := p.(freeLists := p.freeLists[k := p.freeLists[k][1..]]);
        assert res == (q, Some(p.freeLists[k][0]));
        RaiseTop(Owned(q, live) + multiset{Extent(p.freeLists[k][0], ClassSize(k))}, top, top');
      } else {
        IndexOfRoundUp(n);
        assert res == Refill(p, RoundUp(n), grant);
        RefillSafe(p, live, top, RoundUp(n), grant);
      }
    }
  }

  /** Taking the head of a free list moves its block from the allocator to the client. */
  lemma PopSafe(p: Pool, live: multiset<Extent>, top: nat, k: nat)
    requires k < |p.freeLists| && p.freeLists[k] != []
    requires Separated(Owned(p, live), top)
    ensures Separated(Owned(p.(freeLists := p.freeLists[k := p.freeLists[k][1..]]), live) + multiset{Extent(p.freeLists[k][0], ClassSize(k))}, top)
  {
    var q := p.(freeLists := p.freeLists[k := p.freeLists[k][1..]]);
    var head := multiset{Extent(p.freeLists[k][0], ClassSize(k))};
    var rest, pool := FreeExtents(q.freeLists), PoolExtent(p.startFree, p.endFree);
    PopBlock(p.freeLists, k);
    assert Owned(q, live) + head == rest + head + live + pool;
    SameSeparated(Owned(p, live), Owned(q, live) + head, top);
  }

  /** The block `allocate` returns overlaps none of the clients' blocks, no free block and not the pool. */
  lemma AllocateFresh(p: Pool, live: multiset<Extent>, top: nat, n: nat, grant: Option<nat>)
    requires WellFormed(p) && 1 <= n
    requires Separated(Owned(p, live), top) && Fresh(grant, top)
    ensures
      var res := Allocate(p, n, grant);
      res.1.Some? ==> forall x | x in Owned(res.0, live) :: Apart(x, Extent(res.1.value, BlockSize(n)))
  {
    var res := Allocate(p, n, grant);
    AllocateSafe(p, live, top, n, grant);
    if res.1.Some? {
      assert Block(res.1, BlockSize(n)) == multiset{Extent(res.1.value, BlockSize(n))};
      ApartFromOthers(Owned(res.0, live), Extent(res.1.value, BlockSize(n)), AllocBound(top, grant, n, p.heapSize));
    }
  }

  /**
   * `deallocate` keeps ownership separated: the block a client gives back
   * becomes a free block (or goes back to the system above 128 bytes).
   */
  lemma DeallocateSafe(p: Pool, live: multiset<Extent>, top: nat, ptr: nat, n: nat)
    requires WellFormed(p) && 1 <= n
    requires Extent(ptr, BlockSize(n)) in live
    requires Separated(Owned(p, live), top)
    ensures Separated(Owned(Deallocate(p, ptr, n), live - multiset{Extent(ptr, BlockSize(n))}), top)
  {
    var e := multiset{Extent(ptr, BlockSize(n))};
    var kept := live - e;
    assert live == kept + e;
    if n > MaxBytes {
      SubSeparated(Owned(p, live), Owned(p, kept), top);
    } else {
      var k := FreeListIndex(n);
      assert Deallocate(p, ptr, n) == p.(freeLists := p.freeLists[k := [ptr] + p.freeLists[k]]);
      PushSafe(p, kept, top, k, ptr);
    }
  }

  /** Pushing a client's block onto a free list moves it from the client to the allocator. */
  lemma PushSafe(p: Pool, kept: multiset<Extent>, top: nat, k: nat, ptr: nat)
    requires k < |p.freeLists|
    requires Separated(Owned(p, kept + multiset{Extent(ptr, ClassSize(k))}), top)
    ensures Separated(Owned(p.(freeLists := p.freeLists[k := [ptr] + p.freeLists[k]]), kept), top)
  {
    var q := p.(freeLists := p.freeLists[k := [ptr] + p.freeLists[k]]);
    var e := multiset{Extent(ptr, ClassSize(k))};
    var free, pool := FreeExtents(p.freeLists), PoolExtent(p.startFree, p.endFree);
    PushBlock(p.freeLists, k, ptr);
    assert Owned(q, kept) == free + e + kept + pool;
    SameSeparated(Owned(p, kept + e), Owned(q, kept), top);
  }

  // ---------------------------------------------------------------------
  // Behaviour

  /**
   * The free lists are last-in first-out: a block given back is the block
   * the next request of the same class receives, and the state is as
   * before the pair of calls.
   */
  lemma DeallocateThenAllocate(p: Pool, ptr: nat, n: nat, m: nat, grant: Option<nat>)
    requires WellFormed(p) && 1 <= n <= MaxBytes && 1 <= m <= MaxBytes
    requires FreeListIndex(m) == FreeListIndex(n)
    ensures Allocate(Deallocate(p, ptr, n), m, grant) == (p, Some(ptr))
    ensures Reallocate(p, ptr, n, m, grant) == (p, Some(ptr))
  {
    var k := FreeListIndex(n);
    var q := Deallocate(p, ptr, n);
    assert q.freeLists[k] == [ptr] + p.freeLists[k];
    assert q.freeLists[k := q.freeLists[k][1..]] == p.freeLists;
  }

  /** Giving back the block just taken from a non-empty free list restores the state. */
  lemma AllocateThenDeallocate(p: Pool, n: nat, grant: Option<nat>)
    requires WellFormed(p) && 1 <= n <= MaxBytes
    requires p.freeLists[FreeListIndex(n)] != []
    ensures
      var res := Allocate(p, n, grant);
      res.1 == Some(p.freeLists[FreeListIndex(n)][0]) && Deallocate(res.0, res.1.value, n) == p
  {
    var k := FreeListIndex(n);
    var res := Allocate(p, n, grant);
    assert res.0.freeLists == p.freeLists[k := p.freeLists[k][1..]];
    assert [p.freeLists[k][0]] + p.freeLists[k][1..] == p.freeLists[k];
    assert res.0.freeLists[k := [p.freeLists[k][0]] + res.0.freeLists[k]] == p.freeLists;
  }

  /** Requests above 128 bytes bypass the free lists and the pool: `malloc` answers them and `free` takes them back. */
  lemma LargeBypassesPool(p: Pool, ptr: nat, n: nat, grant: Option<nat>)
    requires WellFormed(p) && MaxBytes < n
    ensures Allocate(p, n, grant) == (p, grant) && Deallocate(p, ptr, n) == p
  {
  }

  /**
   * `chunk_alloc` returns the null pointer exactly when the pool holds less
   * than one block, `malloc` fails, and no free list of class `size` or
   * larger holds a block.
   */
  lemma ChunkAllocNull(p: Pool, size: nat, nobjs: nat, grant: Option<nat>)
    requires WellFormed(p) && size % Align == 0 && Align <= size <= MaxBytes && 1 <= nobjs
    ensures ChunkAlloc(p, size, nobjs, grant).1.None? <==>
      && p.endFree - p.startFree < size
      && grant.None?
      && forall j | FreeListIndex(size) <= j < NFreeLists :: p.freeLists[j] == []
  {
    var left := p.endFree - p.startFree;
    if left < size {
      var lists := Donate(p.freeLists, p.startFree, p.endFree);
      assert forall j | FreeListIndex(size) <= j < NFreeLists :: lists[j] == p.freeLists[j] by {
        if left > 0 {
          SmallerClass(left, size);
        }
      }
      var q := Replenish(p, size, nobjs, grant);
      if q.endFree - q.startFree >= size {
        assert ChunkAlloc(p, size, nobjs, grant) == TakeChunk(q, size, nobjs);
        if grant.None? {
          assert q == Scavenge(lists, size, p.heapSize);
          var found := FirstNonEmpty(lists, FreeListIndex(size));
          assert found.Some?;
        }
      } else {
        assert grant.None?;
        assert q == Scavenge(lists, size, p.heapSize);
        assert FirstNonEmpty(lists, FreeListIndex(size)).None?;
      }
    }
  }

  /**
   * A pool of at least 20 blocks of `n` bytes: `refill` returns the first
   * block, makes the next 19 free list `n` in address order, and advances
   * the pool by 20 blocks.
   */
  lemma RefillFullBatch(p: Pool, n: nat, grant: Option<nat>)
    requires WellFormed(p) && n % Align == 0 && Align <= n <= MaxBytes
    requires RunLength(n, RefillCount) <= p.endFree - p.startFree
    ensures Refill(p, n, grant).1 == Some(p.startFree)
    ensures Refill(p, n, grant).0 ==
      p.(startFree := p.startFree + RunLength(n, RefillCount),
         freeLists := p.freeLists[FreeListIndex(n) := Carve(p.startFree + n, n, RefillCount - 1)])
  {
    RunLengthIsProduct(n, RefillCount);
    RefillCarves(p, n, grant, RefillCount);
  }

  /**
   * `refill` returns the block `chunk_alloc` returned. With one block the
   * free lists are as `chunk_alloc` left them; with more, the class's list
   * becomes the remaining blocks in address order and nothing else changes.
   */
  lemma RefillThreads(p: Pool, n: nat, grant: Option<nat>)
    requires WellFormed(p) && n % Align == 0 && Align <= n <= MaxBytes
    ensures
      var ch := ChunkAlloc(p, n, RefillCount, grant);
      var res := Refill(p, n, grant);
      && res.1 == ch.1
      && (ch.1.None? || ch.2 == 1 ==> res.0 == ch.0)
      && (ch.1.Some? && 1 < ch.2 ==>
            res.0 == ch.0.(freeLists := ch.0.freeLists[FreeListIndex(n) := Carve(ch.1.value + n, n, ch.2 - 1)]))
  {
  }

  /**
   * A pool holding at least one but fewer than 20 blocks: `refill` takes
   * all `bytes_left / n` whole blocks, returns the first, and threads the
   * others into the class's list (which stays as it was for a single block).
   */
  lemma RefillPartialBatch(p: Pool, n: nat, grant: Option<nat>)
    requires WellFormed(p) && n % Align == 0 && Align <= n <= MaxBytes
    requires n <= p.endFree - p.startFree < RunLength(n, RefillCount)
    ensures
      var got := (p.endFree - p.startFree) / n;
      var lists := if got == 1 then p.freeLists else p.freeLists[FreeListIndex(n) := Carve(p.startFree + n, n, got - 1)];
      && 1 <= got < RefillCount
      && Refill(p, n, grant).1 == Some(p.startFree)
      && Refill(p, n, grant).0 == p.(startFree := p.startFree + RunLength(n, got), freeLists := lists)
  {
    var ch := TakeChunk(p, n, RefillCount);
    RunLengthIsProduct(n, ch.2);
    WholeQuotient(p.endFree - p.startFree, n, ch.2);
    if ch.2 == 1 {
      RefillFromPool(p, n, grant);
      assert ThreadChunk(ch.0, Some(p.startFree), ch.2, n) == (ch.0, Some(p.startFree));
    } else {
      RefillCarves(p, n, grant, ch.2);
    }
  }

  /** `refill` of a pool from which `chunk_alloc` carves `got > 1` blocks. */
  lemma RefillCarves(p: Pool, n: nat, grant: Option<nat>, got: nat)
    requires WellFormed(p) && n % Align == 0 && Align <= n <= MaxBytes
    requires n <= p.endFree - p.startFree && got == TakeChunk(p, n, RefillCount).2 && 1 < got
    ensures Refill(p, n, grant).1 == Some(p.startFree)
    ensures Refill(p, n, grant).0 ==
      p.(startFree := p.startFree + RunLength(n, got),
         freeLists := p.freeLists[FreeListIndex(n) := Carve(p.startFree + n, n, got - 1)])
  {
    RefillFromPool(p, n, grant);
    ThreadRun(TakeChunk(p, n, RefillCount).0, p.startFree, got, n);
  }

  /** With a block in the pool, `refill` threads what `chunk_alloc` carves from it. */
  lemma RefillFromPool(p: Pool, n: nat, grant: Option<nat>)
    requires WellFormed(p) && n % Align == 0 && Align <= n <= MaxBytes
    requires n <= p.endFree - p.startFree
    ensures Refill(p, n, grant) == ThreadChunk(TakeChunk(p, n, RefillCount).0, Some(p.startFree), TakeChunk(p, n, RefillCount).2, n)
  {
    assert ChunkAlloc(p, n, RefillCount, grant) == TakeChunk(p, n, RefillCount);
  }

  /** Threading a chunk of several blocks makes the blocks after the first the class's list. */
  lemma ThreadRun(q: Pool, c: nat, nobjs: nat, n: nat)
    requires WellFormed(q) && n % Align == 0 && Align <= n <= MaxBytes && 1 < nobjs
    ensures ThreadChunk(q, Some(c), nobjs, n) == (q.(freeLists := q.freeLists[FreeListIndex(n) := Carve(c + n, n, nobjs - 1)]), Some(c))
  {
  }

  /** A count whose run fits in `left` bytes while one more block would not is `left / n`. */
  lemma WholeQuotient(left: nat, n: nat, got: nat)
    requires 0 < n && n * got <= left < n * got + n
    ensures left / n == got
  {
    var q, r := left / n, left % n;
    assert left == n * q + r && r < n;
    if q < got {
      MulMonotone(n, q + 1, got);
    } else if got < q {
      MulMonotone(n, got + 1, q);
    }
  }
}
