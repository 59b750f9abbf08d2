/**
 * Size-class arithmetic of the small-object allocator `alloc`
 * (my_STL/__Alloc.h): requests are rounded up to a multiple of 8 bytes,
 * and a request of at most 128 bytes is served from one of 16 free lists.
 */
module SizeClass {

  /** `__ALIGN`: block sizes are multiples of this many bytes. */
  const Align: nat := 8
  /** `__MAX_BYTES`: larger requests bypass the free lists. */
  const MaxBytes: nat := 128
  /** `__NFREELISTS`: one free list per size class. */
  const NFreeLists: nat := MaxBytes / Align

  /** Word size of `size_t`: 2^64. */
  const WordModulus: nat := 0x1_0000_0000_0000_0000

  /**
   * `ROUND_UP`: `(bytes + 7) & ~7`, i.e. `bytes + 7` with its three low
   * bits cleared. The result is the least multiple of 8 that is not
   * below `b`.
   */
  function RoundUp(b: nat): (r: nat)
    ensures r % Align == 0
    ensures b <= r < b + Align
  {
    (b + Align - 1) - (b + Align - 1) % Align
  }

  /** A sum of multiples of 8 is a multiple of 8. */
  lemma AlignedSum(a: nat, b: nat)
    requires a % Align == 0 && b % Align == 0
    ensures (a + b) % Align == 0
  {
    assert a + b == Align * (a / Align + b / Align);
  }

  /**
   * `FREELISTS_INDEX`: `(bytes + 7) / 8 - 1`, the zero-based class of a
   * request, that is `ceil(b / 8) - 1`. For `b == 0` the subtraction leaves
   * the range of `size_t` (see `FreeListIndexWord`), so `b >= 1` is needed.
   */
  function FreeListIndex(b: nat): (r: nat)
    requires 1 <= b
    ensures r * Align < b <= (r + 1) * Align
    ensures b <= MaxBytes ==> r < NFreeLists
  {
    (b + Align - 1) / Align - 1
  }

  /** Byte size of the blocks on free list `k`. */
  function ClassSize(k: nat): nat
  {
    (k + 1) * Align
  }

  /**
   * The class of a request is the class of its rounded size, so
   * `allocate(n)` (which indexes with `n`) and `refill(ROUND_UP(n))` (which
   * indexes with the rounded size) pick the same list.
   */
  lemma IndexOfRoundUp(b: nat)
    requires 1 <= b
    ensures FreeListIndex(RoundUp(b)) == FreeListIndex(b)
  {
  }

  /** Rounding an already rounded size changes nothing. */
  lemma RoundUpIdempotent(b: nat)
    ensures RoundUp(RoundUp(b)) == RoundUp(b)
  {
  }

  /** Every block on the list a request is served from has exactly the request's rounded size. */
  lemma RoundUpIsClassSize(b: nat)
    requires 1 <= b
    ensures RoundUp(b) == ClassSize(FreeListIndex(b))
  {
  }

  /** A size that is already a multiple of `Align` is the block size of its own class. */
  lemma ClassOfAligned(b: nat)
    requires 1 <= b && b % Align == 0
    ensures ClassSize(FreeListIndex(b)) == b
  {
  }

  /** Free list `k` is the list of the requests of `ClassSize(k)` bytes. */
  lemma ClassOfClassSize(k: nat)
    ensures FreeListIndex(ClassSize(k)) == k
    ensures RoundUp(ClassSize(k)) == ClassSize(k)
  {
  }

  /**
   * `FREELISTS_INDEX` as the machine computes it: unsigned arithmetic
   * modulo 2^64.
   */
  function FreeListIndexWord(b: nat): (r: nat)
    requires b + Align - 1 < WordModulus
  {
    ((b + Align - 1) / Align + WordModulus - 1) % WordModulus
  }

  /**
   * On every positive size the machine result is the mathematical one; on
   * size 0 it wraps to `SIZE_MAX`, far outside the 16 lists, which is why
   * the allocator's entry points need `n >= 1`.
   */
  lemma IndexWordAgrees(b: nat)
    requires b + Align - 1 < WordModulus
    ensures 1 <= b ==> FreeListIndexWord(b) == FreeListIndex(b)
    ensures b == 0 ==> FreeListIndexWord(b) == WordModulus - 1 && FreeListIndexWord(b) >= NFreeLists
  {
  }
}
