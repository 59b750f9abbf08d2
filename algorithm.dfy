/**
 * The range algorithms of my_STL/__Algorithm.h: `fill`, `fill_n` and
 * `copy` with its dispatch down to the element loop `__copy_d` and to
 * `memmove`, plus `copy_backward`, which the vector uses. An iterator range
 * `[first, last)` is a pair of indices into one array; a destination is an
 * array and a starting index, and may be the source array itself.
 */
module Algorithm {

  /** `s` with the positions `[first, last)` set to `v`. */
  function Filled<T>(s: seq<T>, first: nat, last: nat, v: T): (r: seq<T>)
    requires first <= last <= |s|
    ensures |r| == |s|
    ensures forall i | 0 <= i < |r| :: r[i] == if first <= i < last then v else s[i]
  {
    s[..first] + seq(last - first, _ => v) + s[last..]
  }

  /** `s` with the positions from `at` on replaced by `src`. */
  function Overwrite<T>(s: seq<T>, at: nat, src: seq<T>): (r: seq<T>)
    requires at + |src| <= |s|
    ensures |r| == |s|
    ensures forall i | 0 <= i < |r| :: r[i] == if at <= i < at + |src| then src[i - at] else s[i]
  {
    s[..at] + src + s[at + |src|..]
  }

  /** Filling a range twice with the same value is filling it once. */
  lemma FillIdempotent<T>(s: seq<T>, first: nat, last: nat, v: T)
    requires first <= last <= |s|
    ensures Filled(Filled(s, first, last, v), first, last, v) == Filled(s, first, last, v)
  {
  }

  /** What was copied can be read back from the destination, and nothing outside it changed. */
  lemma OverwriteReadBack<T>(s: seq<T>, at: nat, src: seq<T>)
    requires at + |src| <= |s|
    ensures Overwrite(s, at, src)[at..at + |src|] == src
    ensures Overwrite(s, at, src)[..at] == s[..at]
    ensures Overwrite(s, at, src)[at + |src|..] == s[at + |src|..]
  {
  }

  /** A fill is a copy of a run of equal values. */
  lemma FillIsOverwrite<T>(s: seq<T>, first: nat, last: nat, v: T)
    requires first <= last <= |s|
    ensures Filled(s, first, last, v) == Overwrite(s, first, seq(last - first, _ => v))
  {
  }

  /** Writing one more element after a copied prefix extends the copy. */
  lemma OverwriteStep<T>(s: seq<T>, at: nat, src: seq<T>, v: T)
    requires at + |src| < |s|
    ensures Overwrite(s, at, src)[at + |src| := v] == Overwrite(s, at, src + [v])
  {
  }

  /** `fill(first, last, value)`. */
  method Fill<T>(a: array<T>, first: nat, last: nat, value: T)
    requires first <= last <= a.Length
    modifies a
    ensures a[..] == Filled(old(a[..]), first, last, value)
  {
    var i := first;
    while i != last
      invariant first <= i <= last
      invariant a[..] == Filled(old(a[..]), first, i, value)
    {
      a[i] := value;
      i := i + 1;
    }
  }

  /**
   * `fill_n(first, n, value)`: `n` positions from `first` on; a count of
   * zero or less writes nothing. Returns the position after the last one
   * written.
   */
  method FillN<T>(a: array<T>, first: nat, n: int, value: T) returns (end: nat)
    requires first + (if n > 0 then n else 0) <= a.Length
    ensures end == first + (if n > 0 then n else 0)
    modifies a
    ensures a[..] == Filled(old(a[..]), first, end, value)
  {
    var count := n;
    end := first;
    while count > 0
      invariant end - first == (if n > 0 then n else 0) - (if count > 0 then count else 0)
      invariant first <= end <= a.Length
      invariant count > 0 ==> end + count <= a.Length
      invariant a[..] == Filled(old(a[..]), first, end, value)
    {
      a[end] := value;
      count := count - 1;
      end := end + 1;
    }
  }

  /**
   * A forward element-by-element copy inside one array is safe when the
   * destination does not start inside the source range after its first
   * element.
   */
  predicate ForwardSafe<T>(src: array<T>, first: nat, last: nat, dst: array<T>, result: nat)
  {
    src == dst ==> result <= first || last <= result
  }

  /**
   * `__copy_d`: `last - first` assignments `*result = *first`, counted
   * down. Returns the position after the last one written.
   */
  method CopyD<T>(src: array<T>, first: nat, last: nat, dst: array<T>, result: nat) returns (end: nat)
    requires first <= last <= src.Length && result + (last - first) <= dst.Length
    requires ForwardSafe(src, first, last, dst, result)
    modifies dst
    ensures end == result + (last - first)
    ensures dst[..] == Overwrite(old(dst[..]), result, old(src[first..last]))
  {
    ghost var from := src[first..last];
    var n := last - first;
    var i := first;
    end := result;
    while n > 0
      invariant 0 <= n && i + n == last && end == result + (i - first)
      invariant first <= i <= last
      invariant dst[..] == Overwrite(old(dst[..]), result, from[..i - first])
      invariant forall j | i <= j < last :: src[j] == from[j - first]
    {
      assert from[..i - first + 1] == from[..i - first] + [src[i]];
      OverwriteStep(old(dst[..]), result, from[..i - first], src[i]);
      dst[end] := src[i];
      n := n - 1;
      end := end + 1;
      i := i + 1;
    }
  }

  /**
   * `__copy` for input iterators: assignments until the source iterator
   * reaches `last`.
   */
  method CopyInput<T>(src: array<T>, first: nat, last: nat, dst: array<T>, result: nat) returns (end: nat)
    requires first <= last <= src.Length && result + (last - first) <= dst.Length
    requires ForwardSafe(src, first, last, dst, result)
    modifies dst
    ensures end == result + (last - first)
    ensures dst[..] == Overwrite(old(dst[..]), result, old(src[first..last]))
  {
    ghost var from := src[first..last];
    var i := first;
    end := result;
    while i != last
      invariant first <= i <= last && end == result + (i - first)
      invariant dst[..] == Overwrite(old(dst[..]), result, from[..i - first])
      invariant forall j | i <= j < last :: src[j] == from[j - first]
    {
      assert from[..i - first + 1] == from[..i - first] + [src[i]];
      OverwriteStep(old(dst[..]), result, from[..i - first], src[i]);
      dst[end] := src[i];
      end := end + 1;
      i := i + 1;
    }
  }

  /**
   * `memmove(result, first, n)`: behaves as if the `n` source elements
   * were first copied to a temporary buffer, so any overlap is allowed.
   */
  method Memmove<T>(dst: array<T>, result: nat, src: array<T>, first: nat, n: nat)
    requires first + n <= src.Length && result + n <= dst.Length
    modifies dst
    ensures dst[..] == Overwrite(old(dst[..]), result, old(src[first..first + n]))
  {
    var buffer := src[first..first + n];
    var i := 0;
    while i < n
      invariant i <= n
      invariant dst[..] == Overwrite(old(dst[..]), result, buffer[..i])
    {
      dst[result + i] := buffer[i];
      i := i + 1;
    }
  }

  /** How `copy` is dispatched on the iterator types and the element type. */
  datatype CopyPath =
    | InputIterators        // `__copy` for input iterators
    | RandomAccessIterators // `__copy` for random-access iterators, to `__copy_d`
    | TrivialPointers       // `T*` with trivial assignment, `__copy_t` to `memmove`; also the `char*` overload
    | NonTrivialPointers    // `T*` with non-trivial assignment, `__copy_t` to `__copy_d`

  /** Only the `memmove` path copies correctly whatever the overlap. */
  predicate OverlapSafe(path: CopyPath)
  {
    path == TrivialPointers
  }

  /**
   * `copy(first, last, result)`: `result[i]` becomes the old `first[i]`
   * for every `i < last - first`, nothing else changes, and the result is
   * `result + (last - first)`.
   */
  method Copy<T>(src: array<T>, first: nat, last: nat, dst: array<T>, result: nat, path: CopyPath) returns (end: nat)
    requires first <= last <= src.Length && result + (last - first) <= dst.Length
    requires !OverlapSafe(path) ==> ForwardSafe(src, first, last, dst, result)
    modifies dst
    ensures end == result + (last - first)
    ensures dst[..] == Overwrite(old(dst[..]), result, old(src[first..last]))
  {
    match path {
      case InputIterators =>
        end := CopyInput(src, first, last, dst, result);
      case RandomAccessIterators =>
        end := CopyD(src, first, last, dst, result);
      case TrivialPointers =>
        Memmove(dst, result, src, first, last - first);
        end := result + (last - first);
      case NonTrivialPointers =>
        end := CopyD(src, first, last, dst, result);
    }
  }

  /** A backward copy inside one array is safe when the destination does not end inside the source range. */
  predicate BackwardSafe<T>(src: array<T>, first: nat, last: nat, dst: array<T>, resultEnd: nat)
  {
    src == dst ==> resultEnd <= first || last <= resultEnd
  }

  /**
   * `copy_backward(first, last, resultEnd)`, used by the vector: the range
   * is copied so that it ends just before `resultEnd`, last element first.
   * Returns the start of the destination range.
   */
  method CopyBackward<T>(src: array<T>, first: nat, last: nat, dst: array<T>, resultEnd: nat) returns (begin: nat)
    requires first <= last <= src.Length && last - first <= resultEnd <= dst.Length
    requires BackwardSafe(src, first, last, dst, resultEnd)
    modifies dst
    ensures begin == resultEnd - (last - first)
    ensures dst[..] == Overwrite(old(dst[..]), begin, old(src[first..last]))
  {
    ghost var from := src[first..last];
    ghost var start := resultEnd - (last - first);
    var i := last;
    begin := resultEnd;
    while i != first
      invariant first <= i <= last && begin == start + (i - first)
      invariant forall k | begin <= k < resultEnd :: dst[k] == from[k - start]
      invariant forall k | 0 <= k < dst.Length && !(begin <= k < resultEnd) :: dst[k] == old(dst[k])
      invariant forall j | first <= j < i :: src[j] == from[j - first]
    {
      i := i - 1;
      begin := begin - 1;
      dst[begin] := src[i];
    }
    assert dst[..] == Overwrite(old(dst[..]), begin, from);
  }

  // ---------------------------------------------------------------------
  // The `wchar_t*` overload of `copy`

  newtype byte = x: int | 0 <= x < 256

  /** Bytes in one `wchar_t` (2 with the Microsoft compiler; any width above 1 behaves alike). */
  const WCharBytes: nat := 2

  /** Element `i` of a `wchar_t` array laid out in the bytes `mem`. */
  function WideAt(mem: seq<byte>, i: nat): seq<byte>
    requires WCharBytes * i + WCharBytes <= |mem|
  {
    mem[WCharBytes * i..WCharBytes * i + WCharBytes]
  }

  /**
   * The `wchar_t*` overload as written: `memmove(result, first, last -
   * first)` moves `last - first` bytes, not `last - first` elements. The
   * result is the new memory and the returned pointer, one element past the
   * last element written.
   */
  function CopyWideAsWritten(mem: seq<byte>, first: nat, last: nat, result: nat): (r: (seq<byte>, nat))
    requires first <= last && WCharBytes * last <= |mem| && WCharBytes * (result + (last - first)) <= |mem|
    ensures |r.0| == |mem| && r.1 == result + (last - first)
  {
    (Overwrite(mem, WCharBytes * result, mem[WCharBytes * first..WCharBytes * first + (last - first)]), result + (last - first))
  }

  /** The evidently intended overload: `memmove` of `sizeof(wchar_t) * (last - first)` bytes. */
  function CopyWide(mem: seq<byte>, first: nat, last: nat, result: nat): (r: (seq<byte>, nat))
    requires first <= last && WCharBytes * last <= |mem| && WCharBytes * (result + (last - first)) <= |mem|
    ensures |r.0| == |mem| && r.1 == result + (last - first)
  {
    (Overwrite(mem, WCharBytes * result, mem[WCharBytes * first..WCharBytes * last]), result + (last - first))
  }

  /** The corrected overload copies every element of the range, whatever the overlap. */
  lemma CopyWideCopies(mem: seq<byte>, first: nat, last: nat, result: nat, i: nat)
    requires first <= last && WCharBytes * last <= |mem| && WCharBytes * (result + (last - first)) <= |mem|
    requires i < last - first
    ensures WideAt(CopyWide(mem, first, last, result).0, result + i) == WideAt(mem, first + i)
  {
    var r := CopyWide(mem, first, last, result).0;
    var at, src := WCharBytes * result, mem[WCharBytes * first..WCharBytes * last];
    OverwriteReadBack(mem, at, src);
    assert WideAt(r, result + i) == r[at..at + |src|][WCharBytes * i..WCharBytes * i + WCharBytes];
    assert src[WCharBytes * i..WCharBytes * i + WCharBytes] == WideAt(mem, first + i);
  }

  /**
   * As written, copying the one wide character `U+263A` (bytes `3A 26`)
   * to the next slot moves only its low byte.
   */
  lemma CopyWideAsWrittenLosesBytes()
    ensures var mem: seq<byte> := [0x3A, 0x26, 0, 0];
      && WideAt(CopyWideAsWritten(mem, 0, 1, 1).0, 1) == [0x3A, 0]
      && WideAt(CopyWideAsWritten(mem, 0, 1, 1).0, 1) != WideAt(mem, 0)
      && WideAt(CopyWide(mem, 0, 1, 1).0, 1) == WideAt(mem, 0)
  {
    var mem: seq<byte> := [0x3A, 0x26, 0, 0];
    assert CopyWideAsWritten(mem, 0, 1, 1).0 == [0x3A, 0x26, 0x3A, 0];
    assert CopyWide(mem, 0, 1, 1).0 == [0x3A, 0x26, 0x3A, 0x26];
    assert WideAt(mem, 0) == [0x3A, 0x26];
    assert WideAt(CopyWideAsWritten(mem, 0, 1, 1).0, 1)[1] != WideAt(mem, 0)[1];
  }
}
