/**
 * Ownership of the allocator's memory, for stating that no byte is ever
 * handed out twice. Memory is an abstract address space of naturals; an
 * `Extent` is the byte range `[base, base + len)`. Every range the
 * allocator knows of (each free block, the pool, each block a client holds)
 * is one element of a multiset, and the invariant is that the elements of
 * that multiset are non-empty, occur once and do not overlap.
 */
module Extents {
  import opened SizeClass

  datatype Extent = Extent(base: nat, len: nat)

  /** The two ranges share no byte. */
  predicate Apart(x: Extent, y: Extent)
  {
    x.base + x.len <= y.base || y.base + y.len <= x.base
  }

  /** No range occurs twice, none is empty, and no two of them overlap. */
  ghost predicate Disjoint(m: multiset<Extent>)
  {
    && (forall x | x in m :: m[x] == 1 && 0 < x.len)
    && (forall x, y | x in m && y in m && x != y :: Apart(x, y))
  }

  /** Every range lies below address `top`. */
  ghost predicate Below(m: multiset<Extent>, top: nat)
  {
    forall x | x in m :: x.base + x.len <= top
  }

  /** The invariant of the allocator's memory: disjoint ranges, all below `top`. */
  ghost predicate Separated(m: multiset<Extent>, top: nat)
  {
    Disjoint(m) && Below(m, top)
  }

  /** The blocks of one free list, each `size` bytes long. */
  function ListExtents(l: seq<nat>, size: nat): multiset<Extent>
  {
    if l == [] then multiset{} else multiset{Extent(l[0], size)} + ListExtents(l[1..], size)
  }

  /** The blocks of all free lists; list `k` holds blocks of `ClassSize(k)` bytes. */
  function FreeExtents(lists: seq<seq<nat>>): multiset<Extent>
  {
    FreeExtentsBelow(lists, |lists|)
  }

  /** The blocks of the free lists `0 .. k - 1`. */
  function FreeExtentsBelow(lists: seq<seq<nat>>, k: nat): multiset<Extent>
    requires k <= |lists|
    decreases k
  {
    if k == 0 then multiset{}
    else FreeExtentsBelow(lists, k - 1) + ListExtents(lists[k - 1], ClassSize(k - 1))
  }

  /** The pool `[start, end)` as a range, when it is not empty. */
  function PoolExtent(start: nat, end: nat): multiset<Extent>
  {
    if start < end then multiset{Extent(start, end - start)} else multiset{}
  }

  /** `k` consecutive blocks of `n` bytes starting at `c`: `c, c + n, ..., c + (k - 1) * n`. */
  function Carve(c: nat, n: nat, k: nat): (r: seq<nat>)
    ensures |r| == k
    ensures forall i | 0 <= i < k :: r[i] >= c
    decreases k
  {
    if k == 0 then [] else [c] + Carve(c + n, n, k - 1)
  }

  /** Block `i` of a carved run lies `i * n` bytes after the first. */
  lemma {:induction false} CarveAt(c: nat, n: nat, k: nat, i: nat)
    requires i < k
    ensures Carve(c, n, k)[i] == c + i * n
    decreases k
  {
    if i > 0 {
      CarveAt(c + n, n, k - 1, i - 1);
      assert i * n == n + (i - 1) * n;
    }
  }

  /** The run that starts one block after `base`: block `i` lies `i + 1` blocks after `base`. */
  lemma CarveAll(base: nat, n: nat, k: nat, run: seq<nat>)
    requires run == Carve(base + n, n, k)
    ensures |run| == k && forall i | 0 <= i < k :: run[i] == base + RunLength(n, i + 1)
  {
    forall i | 0 <= i < k
      ensures run[i] == base + RunLength(n, i + 1)
    {
      CarveAt(base + n, n, k, i);
      RunLengthIsProduct(n, i + 1);
      assert n * (i + 1) == i * n + n;
    }
  }

  /** Replacing a free list at or above `k` leaves the blocks of the lists below `k` alone. */
  lemma {:induction false} BelowUnchanged(lists: seq<seq<nat>>, j: nat, l: seq<nat>, k: nat)
    requires k <= j < |lists|
    ensures FreeExtentsBelow(lists[j := l], k) == FreeExtentsBelow(lists, k)
    decreases k
  {
    if k > 0 {
      BelowUnchanged(lists, j, l, k - 1);
    }
  }

  /** Replacing free list `j` (below `k`) by `l` trades that list's blocks for the blocks of `l`. */
  lemma {:induction false} BelowUpdate(lists: seq<seq<nat>>, j: nat, l: seq<nat>, k: nat)
    requires j < k <= |lists|
    ensures FreeExtentsBelow(lists[j := l], k) + ListExtents(lists[j], ClassSize(j))
         == FreeExtentsBelow(lists, k) + ListExtents(l, ClassSize(j))
    decreases k
  {
    var updated := lists[j := l];
    if k == j + 1 {
      BelowUnchanged(lists, j, l, j);
      assert updated[j] == l;
      assert FreeExtentsBelow(updated, k) == FreeExtentsBelow(lists, j) + ListExtents(l, ClassSize(j));
    } else {
      BelowUpdate(lists, j, l, k - 1);
      assert updated[k - 1] == lists[k - 1];
      var last := ListExtents(lists[k - 1], ClassSize(k - 1));
      AddBoth(FreeExtentsBelow(updated, k - 1), ListExtents(lists[j], ClassSize(j)),
              FreeExtentsBelow(lists, k - 1), ListExtents(l, ClassSize(j)), last);
    }
  }

  /** Adding the same multiset to both sides of an equation between sums. */
  lemma AddBoth<T>(a: multiset<T>, x: multiset<T>, b: multiset<T>, y: multiset<T>, c: multiset<T>)
    requires a + x == b + y
    ensures a + c + x == b + c + y
  {
    assert forall e :: (a + c + x)[e] == (a + x)[e] + c[e];
    assert forall e :: (b + c + y)[e] == (b + y)[e] + c[e];
  }

  /** Replacing free list `k` by `l` trades that list's blocks for the blocks of `l`. */
  lemma FreeExtentsUpdate(lists: seq<seq<nat>>, k: nat, l: seq<nat>)
    requires k < |lists|
    ensures FreeExtents(lists[k := l]) + ListExtents(lists[k], ClassSize(k))
         == FreeExtents(lists) + ListExtents(l, ClassSize(k))
  {
    BelowUpdate(lists, k, l, |lists|);
  }

  /** Splitting one range of a separated multiset into two adjacent non-empty ranges keeps it separated. */
  lemma SplitExtent(m: multiset<Extent>, b: nat, l1: nat, l2: nat, top: nat)
    requires 0 < l1 && 0 < l2
    requires Separated(m + multiset{Extent(b, l1 + l2)}, top)
    ensures Separated(m + multiset{Extent(b, l1)} + multiset{Extent(b + l1, l2)}, top)
  {
    var big, x, y := Extent(b, l1 + l2), Extent(b, l1), Extent(b + l1, l2);
    var m0 := m + multiset{big};
    var m1 := m + multiset{x} + multiset{y};
    assert big in m0;
    forall e | e in m
      ensures e != big && Apart(e, big) && m[e] == 1
    {
      assert e in m0;
      assert m0[e] == m[e] + (if e == big then 1 else 0);
    }
    assert x != big && !Apart(x, big);
    assert x !in m;
    assert y != big && !Apart(y, big);
    assert y !in m;
    forall e | e in m1
      ensures m1[e] == 1 && 0 < e.len && e.base + e.len <= top
    {
      if e != x && e != y {
        assert e in m;
      }
    }
    forall e, f | e in m1 && f in m1 && e != f
      ensures Apart(e, f)
    {
      if e in m && f in m {
        assert e in m0 && f in m0;
      }
    }
  }

  /** The first block of a carved run, and the run after it. */
  lemma CarveExtents(c: nat, n: nat, k: nat)
    requires 0 < k
    ensures ListExtents(Carve(c, n, k), n) == multiset{Extent(c, n)} + ListExtents(Carve(c + n, n, k - 1), n)
  {
    var rest := Carve(c + n, n, k - 1);
    assert Carve(c, n, k) == [c] + rest;
    assert ([c] + rest)[1..] == rest;
  }

  /** Bytes in `k` blocks of `n` bytes, kept free of multiplication for the solver. */
  function RunLength(n: nat, k: nat): (r: nat)
    decreases k
  {
    if k == 0 then 0 else n + RunLength(n, k - 1)
  }

  lemma {:induction false} RunLengthIsProduct(n: nat, k: nat)
    ensures RunLength(n, k) == n * k
    decreases k
  {
    if k > 0 {
      RunLengthIsProduct(n, k - 1);
      assert n * k == n + n * (k - 1);
    }
  }

  /** Carving a separated range into `k` blocks of `n` bytes keeps the multiset separated. */
  lemma {:induction false} CarveSeparated(m: multiset<Extent>, c: nat, n: nat, k: nat, top: nat)
    requires 0 < n && 0 < k
    requires Separated(m + multiset{Extent(c, RunLength(n, k))}, top)
    ensures Separated(m + ListExtents(Carve(c, n, k), n), top)
    decreases k
  {
    var first := multiset{Extent(c, n)};
    if k == 1 {
      assert Carve(c + n, n, 0) == [] && RunLength(n, 1) == n;
      SameSeparated(m + multiset{Extent(c, RunLength(n, k))}, (m + first) + ListExtents(Carve(c + n, n, 0), n), top);
    } else {
      CarveSplit(m, c, n, k, top);
      CarveSeparated(m + first, c + n, n, k - 1, top);
    }
    CarveRegroup(m, c, n, k, top);
  }

  /** The first `n` bytes of a run of `k > 1` blocks split off as a range of their own. */
  lemma CarveSplit(m: multiset<Extent>, c: nat, n: nat, k: nat, top: nat)
    requires 0 < n && 1 < k
    requires Separated(m + multiset{Extent(c, RunLength(n, k))}, top)
    ensures Separated(m + multiset{Extent(c, n)} + multiset{Extent(c + n, RunLength(n, k - 1))}, top)
  {
    SplitExtent(m, c, n, RunLength(n, k - 1), top);
  }

  /** The first block and the rest of a carved run make up the whole run's blocks. */
  lemma CarveRegroup(m: multiset<Extent>, c: nat, n: nat, k: nat, top: nat)
    requires 0 < k
    requires Separated(m + multiset{Extent(c, n)} + ListExtents(Carve(c + n, n, k - 1), n), top)
    ensures Separated(m + ListExtents(Carve(c, n, k), n), top)
  {
    CarveExtents(c, n, k);
    SameSeparated(m + multiset{Extent(c, n)} + ListExtents(Carve(c + n, n, k - 1), n), m + ListExtents(Carve(c, n, k), n), top);
  }

  /** Separation is a property of the multiset's value. */
  lemma SameSeparated(m: multiset<Extent>, m': multiset<Extent>, top: nat)
    requires m == m' && Separated(m, top)
    ensures Separated(m', top)
  {
  }

  /** A separated multiset stays separated when ranges are removed from it. */
  lemma SubSeparated(m: multiset<Extent>, sub: multiset<Extent>, top: nat)
    requires sub <= m && Separated(m, top)
    ensures Separated(sub, top)
  {
    forall x | x in sub ensures sub[x] == 1 {
      assert x in m;
    }
  }

  /** Adding a non-empty range that starts at or above `top` keeps the multiset separated, below the range's end. */
  lemma AddFresh(m: multiset<Extent>, e: Extent, top: nat)
    requires Separated(m, top) && top <= e.base && 0 < e.len
    ensures Separated(m + multiset{e}, e.base + e.len)
  {
    assert e !in m;
  }

  /** Raising the address bound keeps a separated multiset separated. */
  lemma RaiseTop(m: multiset<Extent>, top: nat, top': nat)
    requires Separated(m, top) && top <= top'
    ensures Separated(m, top')
  {
  }

  /** A range that sits in a separated multiset beside `rest` overlaps none of the ranges of `rest`. */
  lemma ApartFromOthers(rest: multiset<Extent>, e: Extent, top: nat)
    requires Separated(rest + multiset{e}, top)
    ensures forall x | x in rest :: Apart(x, e)
  {
    var m := rest + multiset{e};
    forall x | x in rest
      ensures Apart(x, e)
    {
      assert m[x] == rest[x] + (if x == e then 1 else 0);
    }
  }

  /** Free lists that are all empty hold no block. */
  lemma {:induction false} FreeExtentsEmpty(lists: seq<seq<nat>>, k: nat)
    requires k <= |lists|
    requires forall j | 0 <= j < |lists| :: lists[j] == []
    ensures FreeExtentsBelow(lists, k) == multiset{}
    decreases k
  {
    if k > 0 {
      FreeExtentsEmpty(lists, k - 1);
    }
  }

  /** Taking the head block off free list `k` removes exactly that block. */
  lemma PopBlock(lists: seq<seq<nat>>, k: nat)
    requires k < |lists| && lists[k] != []
    ensures FreeExtents(lists[k := lists[k][1..]]) + multiset{Extent(lists[k][0], ClassSize(k))} == FreeExtents(lists)
  {
    var rest, head := lists[k][1..], multiset{Extent(lists[k][0], ClassSize(k))};
    var after, before := FreeExtents(lists[k := rest]), FreeExtents(lists);
    var tail := ListExtents(rest, ClassSize(k));
    FreeExtentsUpdate(lists, k, rest);
    assert ListExtents(lists[k], ClassSize(k)) == head + tail;
    assert after + (head + tail) == before + tail;
    assert forall x :: (after + head)[x] == (after + (head + tail))[x] - tail[x];
    assert forall x :: before[x] == (before + tail)[x] - tail[x];
  }

  /** Pushing block `p` onto free list `k` adds exactly that block. */
  lemma PushBlock(lists: seq<seq<nat>>, k: nat, p: nat)
    requires k < |lists|
    ensures FreeExtents(lists[k := [p] + lists[k]]) == FreeExtents(lists) + multiset{Extent(p, ClassSize(k))}
  {
    var head, tail := multiset{Extent(p, ClassSize(k))}, ListExtents(lists[k], ClassSize(k));
    var after, before := FreeExtents(lists[k := [p] + lists[k]]), FreeExtents(lists);
    FreeExtentsUpdate(lists, k, [p] + lists[k]);
    assert ([p] + lists[k])[1..] == lists[k];
    assert ListExtents([p] + lists[k], ClassSize(k)) == head + tail;
    assert after + tail == before + (head + tail);
    assert forall x :: after[x] == (after + tail)[x] - tail[x];
    assert forall x :: (before + head)[x] == (before + (head + tail))[x] - tail[x];
  }

  /** Filling an empty free list `k` with `l` adds exactly the blocks of `l`. */
  lemma FillList(lists: seq<seq<nat>>, k: nat, l: seq<nat>)
    requires k < |lists| && lists[k] == []
    ensures FreeExtents(lists[k := l]) == FreeExtents(lists) + ListExtents(l, ClassSize(k))
  {
    FreeExtentsUpdate(lists, k, l);
  }
}
