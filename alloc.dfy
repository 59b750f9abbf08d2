/**
 * The allocator `alloc` (my_STL/__Alloc.h, my_STL/__Alloc.cpp) as an object
 * whose methods update its state in place. The C++ class keeps its state in
 * static members; here it is one `Allocator` object. Each free list is the
 * sequence of its block addresses, head first, kept in a 16-slot array as
 * `free_list` is. `malloc` is an oracle: a method that may call it takes
 * its answer as the parameter `grant` (`None` for a null return).
 *
 * Every method is proved to leave the state, and to return the result, that
 * the function of the same name in `AllocSpec` computes from the state
 * before the call; the properties of those functions are proved there.
 */
module Alloc {
  import opened Wrappers
  import opened SizeClass
  import opened Extents
  import AllocSpec

  class Allocator {
    /** `free_list`: the sixteen free lists, one per size class. */
    const freeList: array<seq<nat>>
    /** `start_free`, `end_free`: the pool `[startFree, endFree)`. */
    var startFree: nat
    var endFree: nat
    /** `heap_size`: bytes obtained from `malloc` for the pool so far. */
    var heapSize: nat

    /** The state as a value. */
    function State(): AllocSpec.Pool
      reads this, freeList
    {
      AllocSpec.Pool(freeList[..], startFree, endFree, heapSize)
    }

    predicate Valid()
      reads this, freeList
    {
      freeList.Length == NFreeLists && AllocSpec.WellFormed(State())
    }

    /** The static initialisers: empty lists, an empty pool at address 0. */
    constructor ()
      ensures State() == AllocSpec.Initial()
      ensures Valid()
    {
      freeList := new seq<nat>[NFreeLists](_ => []);
      startFree, endFree, heapSize := 0, 0, 0;
      new;
      assert freeList[..] == seq(NFreeLists, _ => []);
    }

    /** `allocate(n)`. */
    method Allocate(n: nat, grant: Option<nat>) returns (r: Option<nat>)
      requires Valid() && 1 <= n
      modifies this, freeList
      ensures (State(), r) == AllocSpec.Allocate(old(State()), n, grant)
      ensures Valid()
    {
      if n > MaxBytes {
        return grant;
      }
      var index := FreeListIndex(n);
      if freeList[index] != [] {
        r := Some(freeList[index][0]);
        freeList[index] := freeList[index][1..];
      } else {
        r := Refill(RoundUp(n), grant);
      }
    }

    /** `deallocate(ptr, n)`: `free` above 128 bytes is outside the model. */
    method Deallocate(ptr: nat, n: nat)
      requires Valid() && 1 <= n
      modifies freeList
      ensures State() == AllocSpec.Deallocate(old(State()), ptr, n)
      ensures Valid()
    {
      if n <= MaxBytes {
        var index := FreeListIndex(n);
        freeList[index] := [ptr] + freeList[index];
      }
    }

    /** `reallocate(ptr, oldSize, newSize)`. */
    method Reallocate(ptr: nat, oldSize: nat, newSize: nat, grant: Option<nat>) returns (r: Option<nat>)
      requires Valid() && 1 <= oldSize && 1 <= newSize
      modifies this, freeList
      ensures (State(), r) == AllocSpec.Reallocate(old(State()), ptr, oldSize, newSize, grant)
      ensures Valid()
    {
      Deallocate(ptr, oldSize);
      r := Allocate(newSize, grant);
    }

    /** `refill(n)`: the first block of a fresh chunk, the others threaded onto list `n`. */
    method Refill(n: nat, grant: Option<nat>) returns (r: Option<nat>)
      requires Valid() && n % Align == 0 && Align <= n <= MaxBytes
      modifies this, freeList
      ensures (State(), r) == AllocSpec.Refill(old(State()), n, grant)
      ensures Valid()
    {
      var chunk, nobjs := ChunkAlloc(n, AllocSpec.RefillCount, grant);
      ghost var q := State();
      assert AllocSpec.Refill(old(State()), n, grant) == AllocSpec.ThreadChunk(q, chunk, nobjs, n);
      if chunk.None? || nobjs == 1 {
        return chunk;
      }
      var index := FreeListIndex(n);
      var c := chunk.value;
      var blocks := Thread(c + n, n, nobjs - 1);
      freeList[index] := blocks;
      r := chunk;
      AllocSpec.ThreadRun(q, c, nobjs, n);
      assert State() == q.(freeLists := q.freeLists[index := blocks]);
    }

    /**
     * The loop of `refill`: `count` blocks of `n` bytes from `first` on,
     * each linked to the next.
     */
    static method Thread(first: nat, n: nat, count: nat) returns (blocks: seq<nat>)
      requires 1 <= count
      ensures blocks == Carve(first, n, count)
    {
      var next: nat := first;
      blocks := [];
      var i := 0;
      while i < count
        invariant i <= count
        invariant blocks + Carve(next, n, count - i) == Carve(first, n, count)
      {
        var current := next;
        next := next + n;
        assert Carve(current, n, count - i) == [current] + Carve(next, n, count - i - 1);
        blocks := blocks + [current];
        i := i + 1;
      }
    }

    /**
     * `chunk_alloc(size, nobjs)`: the first block of the chunk and the
     * number of blocks in it (the reference parameter `nobjs`).
     */
    method ChunkAlloc(size: nat, nobjs: nat, grant: Option<nat>) returns (r: Option<nat>, got: nat)
      requires Valid() && size % Align == 0 && Align <= size <= MaxBytes && 1 <= nobjs
      modifies this, freeList
      ensures (State(), r, got) == AllocSpec.ChunkAlloc(old(State()), size, nobjs, grant)
      ensures Valid()
      decreases if endFree - startFree >= size then 0 else 1
    {
      if endFree - startFree >= size {
        r, got := TakeChunk(size, nobjs);
        return;
      }
      Replenish(size, nobjs, grant);
      if endFree - startFree >= size {
        r, got := ChunkAlloc(size, nobjs, None);
      } else {
        r, got := None, nobjs;
      }
    }

    /** The two branches of `chunk_alloc` that serve the request from the pool. */
    method TakeChunk(size: nat, nobjs: nat) returns (r: Option<nat>, got: nat)
      requires Valid() && size % Align == 0 && 0 < size <= endFree - startFree && 1 <= nobjs
      modifies this
      ensures (State(), r, got) == AllocSpec.TakeChunk(old(State()), size, nobjs)
      ensures Valid()
    {
      var total := size * nobjs;
      var left := endFree - startFree;
      RunLengthIsProduct(size, nobjs);
      AllocSpec.RunAligned(size, nobjs);
      if left >= total {
        r := Some(startFree);
        startFree := startFree + total;
        got := nobjs;
      } else {
        got := left / size;
        total := size * got;
        RunLengthIsProduct(size, got);
        r := Some(startFree);
        startFree := startFree + total;
      }
    }

    /**
     * The branch of `chunk_alloc` that finds less than one block in the
     * pool: donate the leftover, then regrow the pool from `malloc` or, when
     * `malloc` fails, from the first free block of class `size` or larger.
     */
    method Replenish(size: nat, nobjs: nat, grant: Option<nat>)
      requires Valid() && size % Align == 0 && Align <= size <= MaxBytes && 1 <= nobjs
      requires endFree - startFree < size
      modifies this, freeList
      ensures State() == AllocSpec.Replenish(old(State()), size, nobjs, grant)
      ensures Valid()
    {
      var left := endFree - startFree;
      if left > 0 {
        AllocSpec.SmallerClass(left, size);
        var index := FreeListIndex(left);
        freeList[index] := [startFree] + freeList[index];
      }
      ghost var lists := freeList[..];
      assert lists == AllocSpec.Donate(old(freeList[..]), old(startFree), old(endFree));
      var total := size * nobjs;
      RunLengthIsProduct(size, nobjs);
      var bytesToGet := 2 * total + RoundUp(heapSize / 16);
      assert bytesToGet == AllocSpec.RegrowBytes(size, nobjs, heapSize);
      match grant {
        case Some(a) =>
          startFree := a;
          heapSize := heapSize + bytesToGet;
          endFree := startFree + bytesToGet;
        case None =>
          Scavenge(size);
      }
    }

    /** The loop of `chunk_alloc` over the free lists of class `size` and larger, after `malloc` failed. */
    method Scavenge(size: nat)
      requires freeList.Length == NFreeLists && size % Align == 0 && Align <= size <= MaxBytes
      modifies this, freeList
      ensures State() == AllocSpec.Scavenge(old(freeList[..]), size, old(heapSize))
      ensures Valid()
      ensures heapSize == old(heapSize)
    {
      var i := size;
      while i <= MaxBytes
        invariant size <= i <= MaxBytes + Align && i % Align == 0
        invariant forall j | FreeListIndex(size) <= j < FreeListIndex(i) :: freeList[j] == []
        invariant unchanged(this) && unchanged(freeList)
        decreases MaxBytes + Align - i
      {
        var index := FreeListIndex(i);
        if freeList[index] != [] {
          ClassOfAligned(i);
          AllocSpec.FirstNonEmptyIs(freeList[..], FreeListIndex(size), index);
          ghost var lists := freeList[..];
          startFree := freeList[index][0];
          freeList[index] := freeList[index][1..];
          endFree := startFree + i;
          assert State() == AllocSpec.Pool(lists[index := lists[index][1..]], lists[index][0], lists[index][0] + ClassSize(index), heapSize);
          return;
        }
        i := i + Align;
      }
      AllocSpec.FirstNonEmptyNone(freeList[..], FreeListIndex(size));
      startFree := 0;
      endFree := 0;
    }
  }
}
