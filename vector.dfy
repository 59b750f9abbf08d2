/**
 * The sequence container `vector` (my_STL/__Vector.h). The storage the C++
 * class addresses with `start` and `cap` is one array; `finish` is the
 * number of constructed elements at its front. Element construction,
 * destruction and assignment are plain writes, and copies never throw.
 * Element copies go through the element-by-element `copy` path; the
 * `memmove` path has the same effect (both meet `Algorithm.Overwrite`).
 */
module Vectors {
  import Algorithm

  // ---------------------------------------------------------------------
  // The sequence operations the vector implements

  /** `s` with `n` copies of `x` inserted before position `pos`. */
  function Inserted<T>(s: seq<T>, pos: nat, n: nat, x: T): (r: seq<T>)
    requires pos <= |s|
    ensures |r| == |s| + n
    ensures forall i | 0 <= i < |r| :: r[i] == if i < pos then s[i] else if i < pos + n then x else s[i - n]
  {
    s[..pos] + seq(n, _ => x) + s[pos..]
  }

  /** `s` without the elements at positions `[first, last)`. */
  function Erased<T>(s: seq<T>, first: nat, last: nat): (r: seq<T>)
    requires first <= last <= |s|
    ensures |r| == |s| - (last - first)
    ensures forall i | 0 <= i < |r| :: r[i] == if i < first then s[i] else s[i + (last - first)]
  {
    s[..first] + s[last..]
  }

  /** `s` cut to its first `k` elements, or padded with `x` up to length `k`. */
  function Resized<T>(s: seq<T>, k: nat, x: T): (r: seq<T>)
    ensures |r| == k
    ensures forall i | 0 <= i < k :: r[i] == if i < |s| then s[i] else x
  {
    if k < |s| then Erased(s, k, |s|) else Inserted(s, |s|, k - |s|, x)
  }

  /** Erasing what was just inserted restores the sequence. */
  lemma EraseInserted<T>(s: seq<T>, pos: nat, n: nat, x: T)
    requires pos <= |s|
    ensures Erased(Inserted(s, pos, n, x), pos, pos + n) == s
  {
    var r := Erased(Inserted(s, pos, n, x), pos, pos + n);
    assert forall i | 0 <= i < |s| :: r[i] == s[i];
  }

  /** Erasing a range keeps every element before it and shifts every element after it left. */
  lemma ErasedSplits<T>(s: seq<T>, first: nat, last: nat)
    requires first <= last <= |s|
    ensures Erased(s, first, last)[..first] == s[..first]
    ensures Erased(s, first, last)[first..] == s[last..]
  {
  }

  /** Resizing to the current length changes nothing; resizing down and back up pads with the new value. */
  lemma ResizedLaws<T>(s: seq<T>, k: nat, x: T)
    ensures Resized(s, |s|, x) == s
    ensures k <= |s| ==> Resized(Resized(s, k, x), |s|, x) == s[..k] + seq(|s| - k, _ => x)
  {
    var r := Resized(s, |s|, x);
    assert forall i | 0 <= i < |s| :: r[i] == s[i];
  }

  // ---------------------------------------------------------------------
  // Growth

  /** `insert_aux`'s new length: double the size, or 1 for an empty vector. */
  function AuxLength(size: nat): (len: nat)
    ensures size < len
  {
    if size != 0 then 2 * size else 1
  }

  /** `insert`'s new length: the size plus the larger of the size and the count. */
  function InsertLength(size: nat, n: nat): (len: nat)
    ensures size + n <= len && 2 * size <= len
  {
    size + if size > n then size else n
  }

  /** The three pointers as offsets from `start`, and the length actually allocated. */
  datatype Layout = Layout(size: nat, cap: nat, storage: nat)

  /** Constructed elements fit in the capacity, and the capacity in the allocation. */
  predicate Sound(l: Layout)
  {
    l.size <= l.cap <= l.storage
  }

  /** After a reallocation to `len` elements holding `size` elements, as written: `cap = new_finish + len`. */
  function ReallocAsWritten(size: nat, len: nat): Layout
  {
    Layout(size, size + len, len)
  }

  /** After a reallocation to `len` elements, as intended: `cap = new_start + len`. */
  function Realloc(size: nat, len: nat): (l: Layout)
    requires size <= len
    ensures Sound(l) && l.storage - l.size == len - size
  {
    Layout(size, len, len)
  }

  /**
   * As written, a `push_back` on an empty vector allocates one element but
   * records a capacity of two; the next `push_back` sees `finish != cap`
   * and constructs its element one past the allocation.
   */
  lemma ReallocAsWrittenOverruns()
    ensures var l := ReallocAsWritten(1, AuxLength(0));
      && l == Layout(1, 2, 1)
      && !Sound(l)
      && l.size != l.cap && l.storage <= l.size
  {
  }

  /** With any positive number of elements the recorded capacity exceeds the allocation. */
  lemma ReallocAsWrittenNeverSound(size: nat, len: nat)
    requires 0 < size <= len
    ensures !Sound(ReallocAsWritten(size, len))
    ensures Sound(Realloc(size, len))
  {
  }

  // ---------------------------------------------------------------------
  // The moves of the insertions, on the storage as a sequence. `f` is the
  // old `finish`; `a0` is the storage before and each later `a` the
  // storage after one step of the algorithm.

  /**
   * `insert` with room when more than `n` elements follow `pos`: the last
   * `n` elements are copied to just past the end, the rest of the tail is
   * shifted right from the back, and the gap is filled with `x`.
   */
  lemma ShiftInsertContents<T>(a0: seq<T>, m1: seq<T>, a1: seq<T>, m2: seq<T>, a2: seq<T>, a3: seq<T>, f: nat, pos: nat, n: nat, x: T)
    requires pos + n < f && f + n <= |a0|
    requires m1 == a0[f - n..f] && a1 == Algorithm.Overwrite(a0, f, m1)
    requires m2 == a1[pos..f - n] && a2 == Algorithm.Overwrite(a1, pos + n, m2)
    requires a3 == Algorithm.Filled(a2, pos, pos + n, x)
    ensures a3[..f + n] == Inserted(a0[..f], pos, n, x)
  {
    forall k | 0 <= k < f + n
      ensures a3[k] == Inserted(a0[..f], pos, n, x)[k]
    {
      ShiftInsertAt(a0, a1, a2, a3, f, pos, n, x, k);
    }
  }

  lemma ShiftInsertAt<T>(a0: seq<T>, a1: seq<T>, a2: seq<T>, a3: seq<T>, f: nat, pos: nat, n: nat, x: T, k: nat)
    requires pos + n < f && f + n <= |a0|
    requires a1 == Algorithm.Overwrite(a0, f, a0[f - n..f])
    requires a2 == Algorithm.Overwrite(a1, pos + n, a1[pos..f - n])
    requires a3 == Algorithm.Filled(a2, pos, pos + n, x)
    requires k < f + n
    ensures a3[k] == if k < pos then a0[k] else if k < pos + n then x else a0[k - n]
  {
    if pos + n <= k < f {
      assert a3[k] == a2[k] == a1[k - n] == a0[k - n];
    } else if f <= k {
      assert a3[k] == a2[k] == a1[k] == a0[k - n];
    }
  }

  /**
   * `insert` with room when at most `n` elements follow `pos`: the copies
   * of `x` that land past the old end are constructed first, the tail is
   * copied after them, and the rest of the gap is filled.
   */
  lemma SpillInsertContents<T>(a0: seq<T>, a1: seq<T>, m2: seq<T>, a2: seq<T>, a3: seq<T>, f: nat, pos: nat, n: nat, x: T)
    requires pos <= f <= pos + n && f + n <= |a0|
    requires a1 == Algorithm.Filled(a0, f, f + (n - (f - pos)), x)
    requires m2 == a1[pos..f] && a2 == Algorithm.Overwrite(a1, f + (n - (f - pos)), m2)
    requires a3 == Algorithm.Filled(a2, pos, f, x)
    ensures a3[..f + n] == Inserted(a0[..f], pos, n, x)
  {
    forall k | 0 <= k < f + n
      ensures a3[k] == Inserted(a0[..f], pos, n, x)[k]
    {
      SpillInsertAt(a0, a1, a2, a3, f, pos, n, x, k);
    }
  }

  lemma SpillInsertAt<T>(a0: seq<T>, a1: seq<T>, a2: seq<T>, a3: seq<T>, f: nat, pos: nat, n: nat, x: T, k: nat)
    requires pos <= f <= pos + n && f + n <= |a0|
    requires a1 == Algorithm.Filled(a0, f, f + (n - (f - pos)), x)
    requires a2 == Algorithm.Overwrite(a1, f + (n - (f - pos)), a1[pos..f])
    requires a3 == Algorithm.Filled(a2, pos, f, x)
    requires k < f + n
    ensures a3[k] == if k < pos then a0[k] else if k < pos + n then x else a0[k - n]
  {
    if pos + n <= k {
      assert a3[k] == a2[k] == a1[k - n] == a0[k - n];
    }
  }

  /**
   * `insert` into new storage `b0`: the elements before `pos` are copied,
   * `n` copies of `x` constructed after them, then the rest copied.
   */
  lemma ReallocInsertContents<T>(s: seq<T>, b0: seq<T>, m1: seq<T>, b1: seq<T>, b2: seq<T>, m3: seq<T>, b3: seq<T>, pos: nat, n: nat, x: T)
    requires pos <= |s| && |s| + n <= |b0|
    requires m1 == s[..pos] && b1 == Algorithm.Overwrite(b0, 0, m1)
    requires b2 == Algorithm.Filled(b1, pos, pos + n, x)
    requires m3 == s[pos..] && b3 == Algorithm.Overwrite(b2, pos + n, m3)
    ensures b3[..|s| + n] == Inserted(s, pos, n, x)
  {
    forall k | 0 <= k < |s| + n
      ensures b3[k] == Inserted(s, pos, n, x)[k]
    {
      ReallocInsertAt(s, b0, b1, b2, b3, pos, n, x, k);
    }
  }

  lemma ReallocInsertAt<T>(s: seq<T>, b0: seq<T>, b1: seq<T>, b2: seq<T>, b3: seq<T>, pos: nat, n: nat, x: T, k: nat)
    requires pos <= |s| && |s| + n <= |b0|
    requires b1 == Algorithm.Overwrite(b0, 0, s[..pos])
    requires b2 == Algorithm.Filled(b1, pos, pos + n, x)
    requires b3 == Algorithm.Overwrite(b2, pos + n, s[pos..])
    requires k < |s| + n
    ensures b3[k] == if k < pos then s[k] else if k < pos + n then x else s[k - n]
  {
    if k < pos {
      assert b3[k] == b2[k] == b1[k] == s[..pos][k];
    } else if pos + n <= k {
      assert b3[k] == s[pos..][k - pos - n];
    }
  }

  /**
   * `insert_aux` with room: the last element is duplicated one place on,
   * the elements from `pos` shifted right from the back, and `x` written.
   */
  lemma AuxShiftContents<T>(a0: seq<T>, a1: seq<T>, m2: seq<T>, a2: seq<T>, a3: seq<T>, f: nat, pos: nat, x: T)
    requires pos < f < |a0|
    requires a1 == a0[f := a0[f - 1]]
    requires m2 == a1[pos..f - 1] && a2 == Algorithm.Overwrite(a1, pos + 1, m2)
    requires a3 == a2[pos := x]
    ensures a3[..f + 1] == Inserted(a0[..f], pos, 1, x)
  {
    forall k | 0 <= k < f + 1
      ensures a3[k] == Inserted(a0[..f], pos, 1, x)[k]
    {
      AuxShiftAt(a0, a1, a2, a3, f, pos, x, k);
    }
  }

  lemma AuxShiftAt<T>(a0: seq<T>, a1: seq<T>, a2: seq<T>, a3: seq<T>, f: nat, pos: nat, x: T, k: nat)
    requires pos < f < |a0|
    requires a1 == a0[f := a0[f - 1]]
    requires a2 == Algorithm.Overwrite(a1, pos + 1, a1[pos..f - 1])
    requires a3 == a2[pos := x]
    requires k < f + 1
    ensures a3[k] == if k < pos then a0[k] else if k == pos then x else a0[k - 1]
  {
    if pos < k < f {
      assert a3[k] == a2[k] == a1[k - 1] == a0[k - 1];
    } else if k == f {
      assert a3[k] == a2[k] == a1[k] == a0[k - 1];
    }
  }

  /**
   * `insert_aux` into new storage `b0`: the elements before `pos` are
   * copied, `x` constructed after them, then the rest copied.
   */
  lemma AuxReallocContents<T>(s: seq<T>, b0: seq<T>, m1: seq<T>, b1: seq<T>, b2: seq<T>, m3: seq<T>, b3: seq<T>, pos: nat, x: T)
    requires pos <= |s| && |s| + 1 <= |b0|
    requires m1 == s[..pos] && b1 == Algorithm.Overwrite(b0, 0, m1)
    requires b2 == b1[pos := x]
    requires m3 == s[pos..] && b3 == Algorithm.Overwrite(b2, pos + 1, m3)
    ensures b3[..|s| + 1] == Inserted(s, pos, 1, x)
  {
    forall k | 0 <= k < |s| + 1
      ensures b3[k] == Inserted(s, pos, 1, x)[k]
    {
      AuxReallocAt(s, b0, b1, b2, b3, pos, x, k);
    }
  }

  lemma AuxReallocAt<T>(s: seq<T>, b0: seq<T>, b1: seq<T>, b2: seq<T>, b3: seq<T>, pos: nat, x: T, k: nat)
    requires pos <= |s| && |s| + 1 <= |b0|
    requires b1 == Algorithm.Overwrite(b0, 0, s[..pos])
    requires b2 == b1[pos := x]
    requires b3 == Algorithm.Overwrite(b2, pos + 1, s[pos..])
    requires k < |s| + 1
    ensures b3[k] == if k < pos then s[k] else if k == pos then x else s[k - 1]
  {
    if k < pos {
      assert b3[k] == b2[k] == b1[k] == s[..pos][k];
    } else if pos < k {
      assert b3[k] == s[pos..][k - pos - 1];
    }
  }

  // ---------------------------------------------------------------------
  // The container

  class Vector<T> {
    /** The storage `[start, cap)`; its length is the capacity. */
    var buf: array<T>
    /** `finish - start`: the number of elements. */
    var finish: nat

    predicate Valid()
      reads this
    {
      finish <= buf.Length
    }

    /** The elements `[start, finish)`. */
    function Contents(): seq<T>
      reads this, buf
      requires Valid()
    {
      buf[..finish]
    }

    /** The vector's pointers as offsets, with the capacity it records. */
    function Shape(): Layout
      reads this
    {
      Layout(finish, buf.Length, buf.Length)
    }

    /** `size()`. */
    function Size(): (r: nat)
      reads this, buf
      requires Valid()
      ensures r == |Contents()|
    {
      finish
    }

    /** `capacity()`. */
    function Capacity(): (r: nat)
      reads this, buf
      requires Valid()
      ensures r == Shape().cap && |Contents()| <= r && Sound(Shape())
    {
      buf.Length
    }

    /** `empty()`. */
    function Empty(): (b: bool)
      reads this, buf
      requires Valid()
      ensures b <==> Contents() == []
    {
      finish == 0
    }

    /** `vector()`: no storage. */
    constructor ()
      ensures Valid() && Contents() == [] && Capacity() == 0
    {
      buf := new T[0];
      finish := 0;
    }

    /** `vector(n, value)`: `n` copies of `value`, with capacity `n`. */
    constructor Fill(n: nat, value: T)
      ensures Valid() && Contents() == seq(n, _ => value) && Capacity() == n
    {
      buf := new T[n](_ => value);
      finish := n;
    }

    /** `vector(vector&&)`: takes `v`'s storage and leaves `v` with none. */
    constructor Move(v: Vector<T>)
      requires v.Valid()
      modifies v
      ensures Valid() && v.Valid()
      ensures Contents() == old(v.Contents()) && buf == old(v.buf)
      ensures v.Contents() == [] && v.Capacity() == 0
    {
      buf := v.buf;
      finish := v.finish;
      new;
      v.buf := new T[0];
      v.finish := 0;
    }

    /** `operator=(vector&&)`: a no-op on itself; otherwise takes `rhs`'s storage and leaves `rhs` with none. */
    method MoveAssign(rhs: Vector<T>)
      requires Valid() && rhs.Valid()
      modifies this, rhs
      ensures Valid() && rhs.Valid()
      ensures rhs == this ==> Contents() == old(Contents()) && buf == old(buf)
      ensures rhs != this ==> Contents() == old(rhs.Contents()) && buf == old(rhs.buf)
      ensures rhs != this ==> rhs.Contents() == [] && rhs.Capacity() == 0
    {
      if this != rhs {
        buf := rhs.buf;
        finish := rhs.finish;
        rhs.buf := new T[0];
        rhs.finish := 0;
      }
    }

    /** `push_back(x)`: in place when there is room, else through `insert_aux`. */
    method PushBack(x: T)
      requires Valid()
      modifies this, buf
      ensures Valid() && Contents() == old(Contents()) + [x]
      ensures old(finish < buf.Length) ==> buf == old(buf)
      ensures old(finish == buf.Length) ==> fresh(buf) && Shape() == Realloc(old(finish) + 1, AuxLength(old(finish)))
    {
      if finish != buf.Length {
        buf[finish] := x;
        finish := finish + 1;
      } else {
        InsertAux(finish, x);
      }
    }

    /** `pop_back()`: the vector must not be empty. */
    method PopBack()
      requires Valid() && 0 < finish
      modifies this
      ensures Valid() && Contents() == old(Contents())[..old(finish) - 1] && buf == old(buf)
    {
      finish := finish - 1;
    }

    /** `erase(first, last)`: the tail moves left over the range; returns `first`. */
    method EraseRange(first: nat, last: nat) returns (r: nat)
      requires Valid() && first <= last <= finish
      modifies this, buf
      ensures Valid() && Contents() == Erased(old(Contents()), first, last) && buf == old(buf)
      ensures r == first
    {
      ghost var s := Contents();
      var i := Algorithm.CopyD(buf, last, finish, buf, first);
      finish := finish - (last - first);
      assert Contents() == Erased(s, first, last);
      r := first;
    }

    /** `erase(position)`: the elements after `position` move left by one; returns `position`. */
    method Erase(position: nat) returns (r: nat)
      requires Valid() && position < finish
      modifies this, buf
      ensures Valid() && Contents() == Erased(old(Contents()), position, position + 1) && buf == old(buf)
      ensures r == position
    {
      ghost var s := Contents();
      if position + 1 != finish {
        var _ := Algorithm.CopyD(buf, position + 1, finish, buf, position);
      }
      finish := finish - 1;
      assert Contents() == Erased(s, position, position + 1);
      r := position;
    }

    /** `resize(newSize, x)`. */
    method Resize(newSize: nat, x: T)
      requires Valid()
      modifies this, buf
      ensures Valid() && Contents() == Resized(old(Contents()), newSize, x)
    {
      if newSize < finish {
        var _ := EraseRange(newSize, finish);
      } else {
        Insert(finish, newSize - finish, x);
      }
    }

    /** `clear()`: erases every element and keeps the storage. */
    method Clear()
      requires Valid()
      modifies this, buf
      ensures Valid() && Contents() == [] && buf == old(buf)
    {
      var _ := EraseRange(0, finish);
    }

    /**
     * `insert_aux(position, x)`: with room, the last element is duplicated
     * one place on, the rest shifted right and `x` written at `position`
     * (which must then be an element); without room, the elements are
     * copied around `x` into new storage of `AuxLength` elements.
     */
    method InsertAux(position: nat, x: T)
      requires Valid() && position <= finish
      requires finish < buf.Length ==> position < finish
      modifies this, buf
      ensures Valid() && Contents() == Inserted(old(Contents()), position, 1, x)
      ensures old(finish < buf.Length) ==> buf == old(buf)
      ensures old(finish == buf.Length) ==> fresh(buf) && Shape() == Realloc(old(finish) + 1, AuxLength(old(finish)))
    {
      if finish != buf.Length {
        AuxShift(position, x);
      } else {
        AuxRealloc(position, x);
      }
    }

    /** `insert_aux` with room: `position` must then be an element. */
    method AuxShift(position: nat, x: T)
      requires Valid() && position < finish < buf.Length
      modifies this, buf
      ensures Valid() && Contents() == Inserted(old(Contents()), position, 1, x) && buf == old(buf)
    {
      var b, f := buf, finish;
      ghost var a0 := b[..];
      b[f] := b[f - 1];
      ghost var a1 := b[..];
      var xCopy := x;
      ghost var m2 := b[position..f - 1];
      var _ := Algorithm.CopyBackward(b, position, f - 1, b, f);
      ghost var a2 := b[..];
      b[position] := xCopy;
      AuxShiftContents(a0, a1, m2, a2, b[..], f, position, x);
      finish := f + 1;
    }

    /** `insert_aux` without room: the elements are copied around `x` into new storage. */
    method AuxRealloc(position: nat, x: T)
      requires Valid() && position <= finish
      modifies this
      ensures Valid() && Contents() == Inserted(old(Contents()), position, 1, x)
      ensures fresh(buf) && Shape() == Realloc(old(finish) + 1, AuxLength(old(finish)))
    {
      var b, f := buf, finish;
      ghost var s := b[..f];
      var len := AuxLength(f);
      var newStart := new T[len](_ => x);
      ghost var b0 := newStart[..];
      ghost var m1 := b[0..position];
      var newFinish := Algorithm.CopyD(b, 0, position, newStart, 0);
      ghost var b1 := newStart[..];
      newStart[newFinish] := x;
      ghost var b2 := newStart[..];
      newFinish := newFinish + 1;
      ghost var m3 := b[position..f];
      newFinish := Algorithm.CopyD(b, position, f, newStart, newFinish);
      AuxReallocContents(s, b0, m1, b1, b2, m3, newStart[..], position, x);
      assert newFinish == |s| + 1 && newStart[..newFinish] == newStart[..][..|s| + 1];
      buf := newStart;
      finish := newFinish;
    }

    /**
     * `insert(position, n, x)`: `n` copies of `x` before `position`. With
     * room for them the elements after `position` are shifted in place (two
     * cases, by whether more or fewer than `n` elements follow `position`);
     * otherwise the vector moves to new storage of `InsertLength` elements.
     */
    method Insert(position: nat, n: nat, x: T)
      requires Valid() && position <= finish
      modifies this, buf
      ensures Valid() && Contents() == Inserted(old(Contents()), position, n, x)
      ensures n == 0 || old(n <= buf.Length - finish) ==> buf == old(buf)
      ensures n != 0 && old(buf.Length - finish < n) ==> fresh(buf) && Shape() == Realloc(old(finish) + n, InsertLength(old(finish), n))
    {
      if n != 0 {
        if buf.Length - finish >= n {
          var xCopy := x;
          var elemsAfter := finish - position;
          if elemsAfter > n {
            ShiftInsert(position, n, xCopy);
          } else {
            SpillInsert(position, n, xCopy);
          }
        } else {
          ReallocInsert(position, n, x);
        }
      } else {
        assert Inserted(Contents(), position, 0, x) == Contents();
      }
    }

    /** `insert` with room, when more than `n` elements follow `position`. */
    method ShiftInsert(position: nat, n: nat, x: T)
      requires Valid() && position + n < finish && n <= buf.Length - finish
      modifies this, buf
      ensures Valid() && Contents() == Inserted(old(Contents()), position, n, x) && buf == old(buf)
    {
      var b, f := buf, finish;
      ghost var a0 := b[..];
      ghost var m1 := b[f - n..f];
      var _ := Algorithm.CopyD(b, f - n, f, b, f);
      ghost var a1 := b[..];
      ghost var m2 := b[position..f - n];
      var _ := Algorithm.CopyBackward(b, position, f - n, b, f);
      ghost var a2 := b[..];
      Algorithm.Fill(b, position, position + n, x);
      ShiftInsertContents(a0, m1, a1, m2, a2, b[..], f, position, n, x);
      finish := f + n;
    }

    /** `insert` with room, when at most `n` elements follow `position`. */
    method SpillInsert(position: nat, n: nat, x: T)
      requires Valid() && position <= finish <= position + n && n <= buf.Length - finish
      modifies this, buf
      ensures Valid() && Contents() == Inserted(old(Contents()), position, n, x) && buf == old(buf)
    {
      var b, f := buf, finish;
      var elemsAfter := f - position;
      ghost var a0 := b[..];
      var mid := Algorithm.FillN(b, f, n - elemsAfter, x);
      ghost var a1 := b[..];
      ghost var m2 := b[position..f];
      var _ := Algorithm.CopyD(b, position, f, b, mid);
      ghost var a2 := b[..];
      Algorithm.Fill(b, position, f, x);
      SpillInsertContents(a0, a1, m2, a2, b[..], f, position, n, x);
      finish := f + n;
    }

    /** `insert` without room: the elements are copied around the `n` copies of `x` into new storage. */
    method ReallocInsert(position: nat, n: nat, x: T)
      requires Valid() && position <= finish && buf.Length - finish < n
      modifies this
      ensures Valid() && Contents() == Inserted(old(Contents()), position, n, x)
      ensures fresh(buf) && Shape() == Realloc(old(finish) + n, InsertLength(old(finish), n))
    {
      var b, f := buf, finish;
      ghost var s := b[..f];
      var len := InsertLength(f, n);
      var newStart := new T[len](_ => x);
      ghost var b0 := newStart[..];
      ghost var m1 := b[0..position];
      var newFinish := Algorithm.CopyD(b, 0, position, newStart, 0);
      ghost var b1 := newStart[..];
      newFinish := Algorithm.FillN(newStart, newFinish, n, x);
      ghost var b2 := newStart[..];
      ghost var m3 := b[position..f];
      newFinish := Algorithm.CopyD(b, position, f, newStart, newFinish);
      ReallocInsertContents(s, b0, m1, b1, b2, m3, newStart[..], position, n, x);
      assert newFinish == |s| + n && newStart[..newFinish] == newStart[..][..|s| + n];
      buf := newStart;
      finish := newFinish;
    }
  }

  /**
   * `operator==`: equal sizes, then a pairwise comparison. The loop
   * condition is a comma expression, so only the right vector's end is
   * tested; with equal sizes that is the same test.
   */
  method Equal<T(==)>(a: Vector<T>, b: Vector<T>) returns (eq: bool)
    requires a.Valid() && b.Valid()
    ensures eq <==> a.Contents() == b.Contents()
  {
    if a.finish != b.finish {
      return false;
    }
    var i := 0;
    while i != b.finish
      invariant i <= b.finish
      invariant a.buf[..i] == b.buf[..i]
    {
      if a.buf[i] != b.buf[i] {
        assert a.Contents()[i] != b.Contents()[i];
        return false;
      }
      i := i + 1;
    }
    assert a.Contents() == a.buf[..i];
    return true;
  }
}
