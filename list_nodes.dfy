/**
 * The nodes of `list` (my_STL/__List.h) and what their links mean.
 *
 * A sequence of nodes is a `Ring` when each node's `next` is the following
 * node and its `prev` the preceding one, the last wrapping round to the
 * first. Every rewiring the list does (`insert`, `erase`, `transfer`) is
 * described here by a two-state lemma: from the ring before, and the few
 * links the operation assigns, the ring (or rings) after.
 */
module ListNodes {

  class Node<T(0)> {
    var prev: Node?<T>
    var next: Node?<T>
    /** Constructed with the node and never reassigned. */
    const data: T

    /** `__list_node()`, for the sentinel: unlinked, with a default value. */
    constructor ()
      ensures prev == null && next == null
    {
      prev := null;
      next := null;
    }

    /** `create_node(value)`: `get_node` followed by constructing `value` in place. */
    constructor Create(value: T)
      ensures prev == null && next == null && data == value
    {
      prev := null;
      next := null;
      data := value;
    }
  }

  // ----- Sequences of values: what the list operations do to the contents

  /** Where element `m` of `Moved(s, k, i, j)` comes from in `s`. */
  function MovedFrom(m: nat, k: nat, i: nat, j: nat): nat
    requires i <= j
  {
    if k < i then
      if m < k then m else if m < k + (j - i) then m - k + i else if m < j then m - (j - i) else m
    else
      if m < i then m else if m < i + (k - j) then m - i + j else if m < k then m - (k - j) else m
  }

  /**
   * `s` with its slice `[i, j)` moved to just before position `k`, which
   * lies outside the slice: `transfer(pos, first, last)` within one list.
   */
  function Moved<X>(s: seq<X>, k: nat, i: nat, j: nat): (r: seq<X>)
    requires i < j <= |s| && k <= |s| && (k < i || j < k)
    ensures |r| == |s|
    ensures forall m | 0 <= m < |r| :: MovedFrom(m, k, i, j) < |s| && r[m] == s[MovedFrom(m, k, i, j)]
  {
    if k < i then s[..k] + s[i..j] + s[k..i] + s[j..] else s[..i] + s[j..k] + s[i..j] + s[k..]
  }

  /** Moving a slice is taking it out and putting it back where `k` ends up among the rest. */
  lemma MovedIsReinsertion<X>(s: seq<X>, k: nat, i: nat, j: nat)
    requires i < j <= |s| && k <= |s| && (k < i || j < k)
    ensures var rest := s[..i] + s[j..];
      var at := if k < i then k else k - (j - i);
      at <= |rest| && Moved(s, k, i, j) == rest[..at] + s[i..j] + rest[at..]
  {
    var rest := s[..i] + s[j..];
    if k < i {
      assert rest[..k] == s[..k] && rest[k..] == s[k..i] + s[j..];
    } else {
      var at := k - (j - i);
      assert rest[..at] == s[..i] + s[j..k] && rest[at..] == s[k..];
    }
  }

  /** Moving a slice loses and duplicates nothing. */
  lemma MovedPermutes<X>(s: seq<X>, k: nat, i: nat, j: nat)
    requires i < j <= |s| && k <= |s| && (k < i || j < k)
    ensures multiset(Moved(s, k, i, j)) == multiset(s)
  {
    if k < i {
      SwapMiddle(s[..k], s[k..i], s[i..j], s[j..]);
      assert s == s[..k] + s[k..i] + s[i..j] + s[j..];
    } else {
      SwapMiddle(s[..i], s[i..j], s[j..k], s[k..]);
      assert s == s[..i] + s[i..j] + s[j..k] + s[k..];
    }
  }

  lemma SwapMiddle<X>(a: seq<X>, b: seq<X>, c: seq<X>, d: seq<X>)
    ensures multiset(a + c + b + d) == multiset(a + b + c + d)
  {
    calc {
      multiset(a + c + b + d);
      multiset(a) + multiset(c) + multiset(b) + multiset(d);
      multiset(a + b + c + d);
    }
  }

  /** `s` back to front: the contents after `reverse`. */
  function Reversed<X>(s: seq<X>): (r: seq<X>)
    ensures |r| == |s| && forall m | 0 <= m < |s| :: r[m] == s[|s| - 1 - m]
  {
    if s == [] then [] else [s[|s| - 1]] + Reversed(s[..|s| - 1])
  }

  lemma ReversedInvolutive<X>(s: seq<X>)
    ensures Reversed(Reversed(s)) == s
  {
  }

  /**
   * One round of `reverse`'s loop: with the first `i` elements already
   * reversed, moving element `i` to the front reverses the first `i + 1`.
   */
  lemma ReverseStep<X>(s: seq<X>, c: seq<X>, i: nat)
    requires 0 < i < |s| && c == Reversed(s[..i]) + s[i..]
    ensures Moved(c, 0, i, i + 1) == Reversed(s[..i + 1]) + s[i + 1..]
  {
    assert s[..i + 1][..i] == s[..i];
    assert c[i..i + 1] == [s[i]] && c[..i] == Reversed(s[..i]) && c[i + 1..] == s[i + 1..];
  }

  /** The rounds of `reverse` only rearrange: every node is one of the original ones. */
  lemma ReversedPrefixIn<X>(s: seq<X>, i: nat)
    requires i <= |s|
    ensures forall x | x in Reversed(s[..i]) + s[i..] :: x in s
  {
    var c := Reversed(s[..i]) + s[i..];
    forall x | x in c
      ensures x in s
    {
      var m :| 0 <= m < |c| && c[m] == x;
      if m < i {
        assert c[m] == s[i - 1 - m];
      } else {
        assert c[m] == s[m];
      }
    }
  }

  /** One round of `erase(first, last)`: the element at `i` of `c` is `s[t]`, and dropping it drops `s[t]`. */
  lemma DropAt<X>(s: seq<X>, i: nat, t: nat, c: seq<X>)
    requires i <= t < |s| && c == s[..i] + s[t..]
    ensures i < |c| && c[i] == s[t] && c[..i] + c[i + 1..] == s[..i] + s[t + 1..]
  {
    assert c[..i] == s[..i] && c[i + 1..] == s[t + 1..];
  }

  lemma InSlices<X>(s: seq<X>, i: nat, t: nat)
    requires i <= t <= |s|
    ensures forall x | x in s[..i] + s[t..] :: x in s
  {
    forall x | x in s[..i] + s[t..]
      ensures x in s
    {
      if x in s[..i] {
        var m :| 0 <= m < i && s[..i][m] == x;
        assert s[m] == x;
      } else {
        var m :| 0 <= m < |s| - t && s[t..][m] == x;
        assert s[t + m] == x;
      }
    }
  }

  lemma InInserted<X>(s: seq<X>, k: nat, y: X)
    requires k <= |s|
    ensures forall x | x in s[..k] + [y] + s[k..] :: x in s || x == y
  {
    forall x | x in s[..k] + [y] + s[k..] && x != y
      ensures x in s
    {
      InSlices(s, k, k);
      assert x in s[..k] + s[k..];
    }
  }

  /** `n` copies of `x`. */
  function Repeat<X>(x: X, n: nat): (r: seq<X>)
    ensures |r| == n && forall m | 0 <= m < n :: r[m] == x
  {
    if n == 0 then [] else Repeat(x, n - 1) + [x]
  }

  /** One round of `insert(pos, count, value)`: a further `value` after the `t` already inserted at `k`. */
  lemma InsertRepeat<X>(cs: seq<X>, k: nat, t: nat, c: seq<X>, value: X)
    requires k <= |cs| && c == cs[..k] + Repeat(value, t) + cs[k..]
    ensures k + t <= |c| && c[..k + t] + [value] + c[k + t..] == cs[..k] + Repeat(value, t + 1) + cs[k..]
  {
    assert c[..k + t] == cs[..k] + Repeat(value, t) && c[k + t..] == cs[k..];
  }

  // ----- Sequences of nodes

  /** The position of `p` in `ns`. */
  ghost function IndexOf<T(0)>(ns: seq<Node<T>>, p: Node<T>): (k: nat)
    requires p in ns
    ensures k < |ns| && ns[k] == p
  {
    if ns[0] == p then 0 else 1 + IndexOf(ns[1..], p)
  }

  /** No node occurs twice in `ns`. */
  ghost predicate Distinct<T(0)>(ns: seq<Node<T>>)
  {
    forall i, j | 0 <= i < j < |ns| :: ns[i] != ns[j]
  }

  /** No node is in both `a` and `b`. */
  ghost predicate Disjoint<T(0)>(a: seq<Node<T>>, b: seq<Node<T>>)
  {
    forall m, n | 0 <= m < |a| && 0 <= n < |b| :: a[m] != b[n]
  }

  lemma IndexOfDistinct<T(0)>(ns: seq<Node<T>>, m: nat)
    requires Distinct(ns) && m < |ns|
    ensures IndexOf(ns, ns[m]) == m
  {
  }

  lemma {:induction false} DistinctOnce<T(0)>(ns: seq<Node<T>>, x: Node<T>)
    requires Distinct(ns)
    ensures multiset(ns)[x] <= 1
  {
    if ns != [] {
      assert ns == [ns[0]] + ns[1..];
      DistinctOnce(ns[1..], x);
    }
  }

  lemma OnceDistinct<T(0)>(ns: seq<Node<T>>)
    requires forall x :: multiset(ns)[x] <= 1
    ensures Distinct(ns)
  {
    forall i, j | 0 <= i < j < |ns|
      ensures ns[i] != ns[j]
    {
      assert ns == ns[..i] + [ns[i]] + ns[i + 1..j] + [ns[j]] + ns[j + 1..];
      assert multiset(ns)[ns[i]] >= 1 + multiset([ns[j]])[ns[i]];
    }
  }

  /** A sequence holding no more of each node than a distinct one is distinct. */
  lemma DistinctSub<T(0)>(r: seq<Node<T>>, s: seq<Node<T>>)
    requires multiset(r) <= multiset(s) && Distinct(s)
    ensures Distinct(r)
  {
    forall x: Node<T>
      ensures multiset(r)[x] <= 1
    {
      DistinctOnce(s, x);
    }
    OnceDistinct(r);
  }

  lemma DistinctConcat<T(0)>(a: seq<Node<T>>, b: seq<Node<T>>)
    ensures Distinct(a + b) <==> Distinct(a) && Distinct(b) && Disjoint(a, b)
  {
    if Distinct(a + b) {
      forall i, j | 0 <= i < j < |a|
        ensures a[i] != a[j]
      {
        assert a[i] == (a + b)[i] && a[j] == (a + b)[j];
      }
      forall i, j | 0 <= i < j < |b|
        ensures b[i] != b[j]
      {
        assert b[i] == (a + b)[|a| + i] && b[j] == (a + b)[|a| + j];
      }
      forall m, n | 0 <= m < |a| && 0 <= n < |b|
        ensures a[m] != b[n]
      {
        assert a[m] == (a + b)[m] && b[n] == (a + b)[|a| + n];
      }
    }
    if Distinct(a) && Distinct(b) && Disjoint(a, b) {
      var c := a + b;
      forall i, j | 0 <= i < j < |c|
        ensures c[i] != c[j]
      {
        if j < |a| {
          assert c[i] == a[i] && c[j] == a[j];
        } else if i < |a| {
          assert c[i] == a[i] && c[j] == b[j - |a|];
        } else {
          assert c[i] == b[i - |a|] && c[j] == b[j - |a|];
        }
      }
    }
  }

  lemma DistinctRemoved<T(0)>(ns: seq<Node<T>>, i: nat, j: nat)
    requires Distinct(ns) && i <= j <= |ns|
    ensures Distinct(ns[..i] + ns[j..])
  {
    assert ns == ns[..i] + ns[i..j] + ns[j..];
    DistinctSub(ns[..i] + ns[j..], ns);
  }

  lemma DistinctMoved<T(0)>(ns: seq<Node<T>>, k: nat, i: nat, j: nat)
    requires Distinct(ns) && i < j <= |ns| && k <= |ns| && (k < i || j < k)
    ensures Distinct(Moved(ns, k, i, j))
  {
    MovedPermutes(ns, k, i, j);
    DistinctSub(Moved(ns, k, i, j), ns);
  }

  lemma DistinctInsert<T(0)>(ns: seq<Node<T>>, k: nat, t: Node<T>)
    requires Distinct(ns) && k <= |ns| && t !in ns
    ensures Distinct(ns[..k] + [t] + ns[k..])
  {
    var r := ns[..k] + [t] + ns[k..];
    forall i, j | 0 <= i < j < |r|
      ensures r[i] != r[j]
    {
      if j < k || k < i {
      } else if i == k || j == k {
      } else {
        assert r[i] == ns[i] && r[j] == ns[j - 1];
      }
    }
  }

  /**
   * After moving `ss[i..j]` from one list to another, the two lists are
   * still each distinct and share no node.
   */
  lemma DisjointSpliced<T(0)>(ts: seq<Node<T>>, k: nat, ss: seq<Node<T>>, i: nat, j: nat)
    requires Distinct(ts) && Distinct(ss) && Disjoint(ts, ss) && k <= |ts| && i <= j <= |ss|
    ensures var t', s' := ts[..k] + ss[i..j] + ts[k..], ss[..i] + ss[j..];
      Distinct(t') && Distinct(s') && Disjoint(t', s')
  {
    var t', s' := ts[..k] + ss[i..j] + ts[k..], ss[..i] + ss[j..];
    DistinctConcat(ts, ss);
    assert ts + ss == ts[..k] + ts[k..] + ss[..i] + ss[i..j] + ss[j..];
    assert t' + s' == ts[..k] + ss[i..j] + ts[k..] + ss[..i] + ss[j..];
    DistinctSub(t' + s', ts + ss);
    DistinctConcat(t', s');
  }

  // ----- Rings

  /** Consecutive nodes of `ns` point to each other, and so do its last and first. */
  ghost predicate Ring<T(0)>(ns: seq<Node<T>>)
    reads ns
  {
    && 1 <= |ns|
    && (forall i | 0 <= i < |ns| - 1 :: ns[i].next == ns[i + 1] && ns[i + 1].prev == ns[i])
    && ns[|ns| - 1].next == ns[0] && ns[0].prev == ns[|ns| - 1]
  }

  /** The node before a node of a ring is in the ring. */
  lemma PrevIn<T(0)>(ns: seq<Node<T>>, x: Node<T>)
    requires Ring(ns) && x in ns
    ensures x.prev in ns
  {
    var m :| 0 <= m < |ns| && ns[m] == x;
    assert x.prev == ns[Before(m, |ns|)];
  }

  /** The index before `k` round a ring of `n`. */
  function Before(k: nat, n: nat): nat
    requires k < n
  {
    if k == 0 then n - 1 else k - 1
  }

  /**
   * The links after `insert`'s four assignments: `temp` between the node
   * before position `k` (the sentinel when `k` is 0) and the node at `k`.
   */
  twostate lemma InsertRing<T(0)>(new ns: seq<Node<T>>, new k: nat, new before: Node<T>, new temp: Node<T>)
    requires old(allocated(ns)) && old(Ring(ns)) && Distinct(ns) && k < |ns| && temp !in ns
    requires before == ns[Before(k, |ns|)]
    requires
      && (forall m | 0 <= m < |ns| && ns[m] != before :: ns[m].next == old(ns[m].next))
      && (forall m | 0 <= m < |ns| && m != k :: ns[m].prev == old(ns[m].prev))
      && temp.next == ns[k] && temp.prev == before && before.next == temp && ns[k].prev == temp
    ensures Ring(ns[..k] + [temp] + ns[k..])
  {
    var r := ns[..k] + [temp] + ns[k..];
    forall i | 0 <= i < |r| - 1
      ensures r[i].next == r[i + 1] && r[i + 1].prev == r[i]
    {
      if i < k - 1 {
        assert r[i] == ns[i] && r[i + 1] == ns[i + 1];
      } else if i == k - 1 {
      } else if i == k {
      } else {
        assert r[i] == ns[i - 1] && r[i + 1] == ns[i];
      }
    }
  }

  /**
   * Unlinking the slice `[i, j)` of a ring (`erase`, and the source side of
   * `transfer`): the node before it and the node `ns[j]` now point to each
   * other, and what remains is a ring.
   */
  twostate lemma RemoveRing<T(0)>(new ns: seq<Node<T>>, new i: nat, new j: nat, new a: Node<T>, new l: Node<T>)
    requires old(allocated(ns)) && old(Ring(ns)) && Distinct(ns) && i < j < |ns|
    requires a == ns[Before(i, |ns|)] && l == ns[j]
    requires
      && (forall m | 0 <= m < |ns| && (m < i || j <= m) && ns[m] != a :: ns[m].next == old(ns[m].next))
      && (forall m | 0 <= m < |ns| && (m < i || j <= m) && ns[m] != l :: ns[m].prev == old(ns[m].prev))
      && a.next == l && l.prev == a
    ensures Ring(ns[..i] + ns[j..])
  {
    var r := ns[..i] + ns[j..];
    forall m | 0 <= m < |r| - 1
      ensures r[m].next == r[m + 1] && r[m + 1].prev == r[m]
    {
      if m < i - 1 {
        assert r[m] == ns[m] && r[m + 1] == ns[m + 1];
      } else if m == i - 1 {
        assert r[m] == ns[i - 1] && r[m + 1] == ns[j];
      } else {
        assert r[m] == ns[m + j - i] && r[m + 1] == ns[m + 1 + j - i];
      }
    }
    if i == 0 {
      assert r[|r| - 1] == ns[|ns| - 1] && r[0] == ns[j];
    } else {
      assert r[|r| - 1] == ns[|ns| - 1] && r[0] == ns[0];
    }
  }

  /**
   * `transfer` with `pos == last` in one list: the slice `[i, j)` is closed
   * on itself, its last node pointing back to its first.
   */
  twostate lemma LostRing<T(0)>(new ns: seq<Node<T>>, new i: nat, new j: nat, new f: Node<T>, new z: Node<T>)
    requires old(allocated(ns)) && old(Ring(ns)) && Distinct(ns) && i < j <= |ns|
    requires f == ns[i] && z == ns[j - 1]
    requires
      && (forall m | i <= m < j && ns[m] != z :: ns[m].next == old(ns[m].next))
      && (forall m | i <= m < j && ns[m] != f :: ns[m].prev == old(ns[m].prev))
      && z.next == f && f.prev == z
    ensures Ring(ns[i..j])
  {
    var r := ns[i..j];
    forall m | 0 <= m < |r| - 1
      ensures r[m].next == r[m + 1] && r[m + 1].prev == r[m]
    {
      assert r[m] == ns[i + m] && r[m + 1] == ns[i + m + 1];
    }
  }

  /**
   * `transfer` within one list, `pos` (position `k`) before the slice
   * `[i, j)`: the slice now sits between the node before `k` and `pos`.
   */
  twostate lemma BeforeRing<T(0)>(new ns: seq<Node<T>>, new k: nat, new i: nat, new j: nat, new q: Node<T>, new a: Node<T>, new z: Node<T>, new p: Node<T>, new f: Node<T>, new l: Node<T>)
    requires old(allocated(ns)) && old(Ring(ns)) && Distinct(ns) && k < i < j < |ns|
    requires q == ns[Before(k, |ns|)] && a == ns[i - 1] && z == ns[j - 1] && p == ns[k] && f == ns[i] && l == ns[j]
    requires
      && (forall m | 0 <= m < |ns| && ns[m] != q && ns[m] != a && ns[m] != z :: ns[m].next == old(ns[m].next))
      && (forall m | 0 <= m < |ns| && ns[m] != p && ns[m] != f && ns[m] != l :: ns[m].prev == old(ns[m].prev))
      && q.next == f && a.next == l && z.next == p
      && f.prev == q && l.prev == a && p.prev == z
    ensures Ring(Moved(ns, k, i, j))
  {
    var r := Moved(ns, k, i, j);
    var w := j - i;
    forall m | 0 <= m < |r| - 1
      ensures r[m].next == r[m + 1] && r[m + 1].prev == r[m]
    {
      if m < k - 1 {
        assert r[m] == ns[m] && r[m + 1] == ns[m + 1];
      } else if m == k - 1 {
        assert r[m] == ns[m] && r[m + 1] == ns[i];
      } else if m < k + w - 1 {
        assert r[m] == ns[m - k + i] && r[m + 1] == ns[m + 1 - k + i];
      } else if m == k + w - 1 {
        assert r[m] == ns[j - 1] && r[m + 1] == ns[k];
      } else if m < i + w - 1 {
        assert r[m] == ns[m - w] && r[m + 1] == ns[m + 1 - w];
      } else if m == i + w - 1 {
        assert r[m] == ns[i - 1] && r[m + 1] == ns[j];
      } else {
        assert r[m] == ns[m] && r[m + 1] == ns[m + 1];
      }
    }
    if k == 0 {
      assert r[|r| - 1] == ns[|ns| - 1] && r[0] == ns[i];
    } else {
      assert r[|r| - 1] == ns[|ns| - 1] && r[0] == ns[0];
    }
  }

  /**
   * `transfer` within one list, `pos` (position `k`) after the slice
   * `[i, j)`: the node before the slice now points to `ns[j]`, and the
   * slice sits just before `pos`.
   */
  twostate lemma AfterRing<T(0)>(new ns: seq<Node<T>>, new k: nat, new i: nat, new j: nat, new q: Node<T>, new a: Node<T>, new z: Node<T>, new p: Node<T>, new f: Node<T>, new l: Node<T>)
    requires old(allocated(ns)) && old(Ring(ns)) && Distinct(ns) && i < j < k < |ns|
    requires q == ns[k - 1] && a == ns[Before(i, |ns|)] && z == ns[j - 1] && p == ns[k] && f == ns[i] && l == ns[j]
    requires
      && (forall m | 0 <= m < |ns| && ns[m] != q && ns[m] != a && ns[m] != z :: ns[m].next == old(ns[m].next))
      && (forall m | 0 <= m < |ns| && ns[m] != p && ns[m] != f && ns[m] != l :: ns[m].prev == old(ns[m].prev))
      && q.next == f && a.next == l && z.next == p
      && f.prev == q && l.prev == a && p.prev == z
    ensures Ring(Moved(ns, k, i, j))
  {
    var r := Moved(ns, k, i, j);
    var w := k - j;
    forall m | 0 <= m < |r| - 1
      ensures r[m].next == r[m + 1] && r[m + 1].prev == r[m]
    {
      if m < i - 1 {
        assert r[m] == ns[m] && r[m + 1] == ns[m + 1];
      } else if m == i - 1 {
        assert r[m] == ns[m] && r[m + 1] == ns[j];
      } else if m < i + w - 1 {
        assert r[m] == ns[m - i + j] && r[m + 1] == ns[m + 1 - i + j];
      } else if m == i + w - 1 {
        assert r[m] == ns[k - 1] && r[m + 1] == ns[i];
      } else if m < k - 1 {
        assert r[m] == ns[m - w] && r[m + 1] == ns[m + 1 - w];
      } else if m == k - 1 {
        assert r[m] == ns[j - 1] && r[m + 1] == ns[k];
      } else {
        assert r[m] == ns[m] && r[m + 1] == ns[m + 1];
      }
    }
    if i == 0 {
      assert r[|r| - 1] == ns[|ns| - 1] && r[0] == ns[j];
    } else {
      assert r[|r| - 1] == ns[|ns| - 1] && r[0] == ns[0];
    }
  }

  /**
   * The target side of `transfer` between two lists: the slice `ss[i..j]`
   * now sits between the node before `ts[k]` and `ts[k]`.
   */
  twostate lemma SpliceInRing<T(0)>(new ts: seq<Node<T>>, new k: nat, new ss: seq<Node<T>>, new i: nat, new j: nat, new q: Node<T>, new z: Node<T>, new p: Node<T>, new f: Node<T>)
    requires old(allocated(ts)) && old(allocated(ss)) && old(Ring(ts)) && old(Ring(ss)) && Distinct(ts) && Distinct(ss)
    requires k < |ts| && i < j < |ss|
    requires q == ts[Before(k, |ts|)] && z == ss[j - 1] && p == ts[k] && f == ss[i]
    requires
      && (forall m | 0 <= m < |ts| && ts[m] != q :: ts[m].next == old(ts[m].next))
      && (forall m | 0 <= m < |ts| && ts[m] != p :: ts[m].prev == old(ts[m].prev))
      && (forall m | i <= m < j && ss[m] != z :: ss[m].next == old(ss[m].next))
      && (forall m | i <= m < j && ss[m] != f :: ss[m].prev == old(ss[m].prev))
      && q.next == f && z.next == p && f.prev == q && p.prev == z
    ensures Ring(ts[..k] + ss[i..j] + ts[k..])
  {
    var r := ts[..k] + ss[i..j] + ts[k..];
    var w := j - i;
    forall m | 0 <= m < |r| - 1
      ensures r[m].next == r[m + 1] && r[m + 1].prev == r[m]
    {
      if m < k - 1 {
        assert r[m] == ts[m] && r[m + 1] == ts[m + 1];
      } else if m == k - 1 {
        assert r[m] == ts[m] && r[m + 1] == ss[i];
      } else if m < k + w - 1 {
        assert r[m] == ss[m - k + i] && r[m + 1] == ss[m + 1 - k + i];
      } else if m == k + w - 1 {
        assert r[m] == ss[j - 1] && r[m + 1] == ts[k];
      } else {
        assert r[m] == ts[m - w] && r[m + 1] == ts[m + 1 - w];
      }
    }
    if k == 0 {
      assert r[|r| - 1] == ts[|ts| - 1] && r[0] == ss[i];
    } else {
      assert r[|r| - 1] == ts[|ts| - 1] && r[0] == ts[0];
    }
  }

  /**
   * The links of `ns` after `transfer`'s six writes, where `q`, `a` and `z`
   * are the nodes before `pos`, `first` and `last` and `p`, `f` and `l` are
   * `pos`, `first` and `last`: `q`, `a`, `z` point forward to `f`, `l`, `p`
   * and `f`, `l`, `p` point back to `q`, `a`, `z`, a later write winning
   * where two of them are the same node; every other link is as before.
   */
  twostate predicate Relinked<T(0)>(new ns: seq<Node<T>>, new q: Node<T>, new a: Node<T>, new z: Node<T>, new p: Node<T>, new f: Node<T>, new l: Node<T>)
    requires old(allocated(ns))
    reads ns
  {
    forall m | 0 <= m < |ns| ::
      && ns[m].next == (if ns[m] == q then f else if ns[m] == a then l else if ns[m] == z then p else old(ns[m].next))
      && ns[m].prev == (if ns[m] == f then q else if ns[m] == l then a else if ns[m] == p then z else old(ns[m].prev))
  }

  /** `transfer` between two lists leaves both of them rings. */
  twostate lemma AcrossRelinked<T(0)>(new ts: seq<Node<T>>, new k: nat, new ss: seq<Node<T>>, new i: nat, new j: nat,
                                     new q: Node<T>, new a: Node<T>, new z: Node<T>, new p: Node<T>, new f: Node<T>, new l: Node<T>)
    requires old(allocated(ts)) && old(allocated(ss)) && old(Ring(ts)) && old(Ring(ss))
    requires Distinct(ts) && Distinct(ss) && Disjoint(ts, ss) && k < |ts| && i < j < |ss|
    requires q == ts[Before(k, |ts|)] && a == ss[Before(i, |ss|)] && z == ss[j - 1]
    requires p == ts[k] && f == ss[i] && l == ss[j]
    requires Relinked(ts, q, a, z, p, f, l) && Relinked(ss, q, a, z, p, f, l)
    ensures Ring(ts[..k] + ss[i..j] + ts[k..]) && Ring(ss[..i] + ss[j..])
  {
    forall m | 0 <= m < |ts|
      ensures ts[m] != a && ts[m] != z && ts[m] != f && ts[m] != l
    {
      assert a == ss[Before(i, |ss|)] && z == ss[j - 1] && f == ss[i] && l == ss[j];
    }
    forall m | 0 <= m < |ss|
      ensures ss[m] != q && ss[m] != p
    {
      assert q == ts[Before(k, |ts|)] && p == ts[k];
    }
    assert z != a && l != f;
    SpliceInRing(ts, k, ss, i, j, q, z, p, f);
    RemoveRing(ss, i, j, a, l);
  }

  /** `transfer` within one list, `pos` before `first`: the slice moves back. */
  twostate lemma BeforeRelinked<T(0)>(new ns: seq<Node<T>>, new k: nat, new i: nat, new j: nat,
                                     new q: Node<T>, new a: Node<T>, new z: Node<T>, new p: Node<T>, new f: Node<T>, new l: Node<T>)
    requires old(allocated(ns)) && old(Ring(ns)) && Distinct(ns) && k < i < j < |ns|
    requires q == ns[Before(k, |ns|)] && a == ns[i - 1] && z == ns[j - 1] && p == ns[k] && f == ns[i] && l == ns[j]
    requires Relinked(ns, q, a, z, p, f, l)
    ensures Ring(Moved(ns, k, i, j))
  {
    assert a != q && z != q && z != a && l != f && p != f && p != l;
    BeforeRing(ns, k, i, j, q, a, z, p, f, l);
  }

  /** `transfer` within one list, `pos` after `last`: the slice moves on. */
  twostate lemma AfterRelinked<T(0)>(new ns: seq<Node<T>>, new k: nat, new i: nat, new j: nat,
                                    new q: Node<T>, new a: Node<T>, new z: Node<T>, new p: Node<T>, new f: Node<T>, new l: Node<T>)
    requires old(allocated(ns)) && old(Ring(ns)) && Distinct(ns) && i < j < k < |ns|
    requires q == ns[k - 1] && a == ns[Before(i, |ns|)] && z == ns[j - 1] && p == ns[k] && f == ns[i] && l == ns[j]
    requires Relinked(ns, q, a, z, p, f, l)
    ensures Ring(Moved(ns, k, i, j))
  {
    assert a != q && z != q && z != a && l != f && p != f && p != l;
    AfterRing(ns, k, i, j, q, a, z, p, f, l);
  }

  /**
   * `transfer` within one list with `pos == last`: the list closes over
   * the gap and the slice `[i, j)` becomes a ring of its own.
   */
  twostate lemma LostRelinked<T(0)>(new ns: seq<Node<T>>, new i: nat, new j: nat,
                                   new q: Node<T>, new a: Node<T>, new z: Node<T>, new p: Node<T>, new f: Node<T>, new l: Node<T>)
    requires old(allocated(ns)) && old(Ring(ns)) && Distinct(ns) && i < j < |ns|
    requires q == ns[j - 1] && a == ns[Before(i, |ns|)] && z == ns[j - 1] && p == ns[j] && f == ns[i] && l == ns[j]
    requires Relinked(ns, q, a, z, p, f, l)
    ensures Ring(ns[..i] + ns[j..]) && Ring(ns[i..j])
  {
    assert a != q && l != f;
    RemoveRing(ns, i, j, a, l);
    LostRing(ns, i, j, f, z);
  }

  // ----- Values held by a ring

  /** The element nodes of `ns` (all but the last) carry the values `cs`. */
  ghost predicate Holds<T(0)>(ns: seq<Node<T>>, cs: seq<T>)
  {
    |cs| == |ns| - 1 && forall i | 0 <= i < |cs| :: ns[i].data == cs[i]
  }

  lemma HoldsInsert<T(0)>(ns: seq<Node<T>>, cs: seq<T>, k: nat, t: Node<T>)
    requires Holds(ns, cs) && k < |ns|
    ensures Holds(ns[..k] + [t] + ns[k..], cs[..k] + [t.data] + cs[k..])
  {
    var r := ns[..k] + [t] + ns[k..];
    var c := cs[..k] + [t.data] + cs[k..];
    forall i | 0 <= i < |c|
      ensures r[i].data == c[i]
    {
      if k < i {
        assert r[i] == ns[i - 1] && c[i] == cs[i - 1];
      }
    }
  }

  /** The nodes fix the values: `data` never changes. */
  lemma HoldsUnique<T(0)>(ns: seq<Node<T>>, cs: seq<T>, ds: seq<T>)
    requires Holds(ns, cs) && Holds(ns, ds)
    ensures cs == ds
  {
  }

  lemma HoldsRemoved<T(0)>(ns: seq<Node<T>>, cs: seq<T>, i: nat, j: nat)
    requires Holds(ns, cs) && i <= j < |ns|
    ensures Holds(ns[..i] + ns[j..], cs[..i] + cs[j..])
  {
    var r, c := ns[..i] + ns[j..], cs[..i] + cs[j..];
    forall m | 0 <= m < |c|
      ensures r[m].data == c[m]
    {
      if i <= m {
        assert r[m] == ns[m + j - i] && c[m] == cs[m + j - i];
      }
    }
  }

  lemma HoldsMoved<T(0)>(ns: seq<Node<T>>, cs: seq<T>, k: nat, i: nat, j: nat)
    requires Holds(ns, cs) && i < j < |ns| && k < |ns| && (k < i || j < k)
    ensures Holds(Moved(ns, k, i, j), Moved(cs, k, i, j))
  {
    var r, c := Moved(ns, k, i, j), Moved(cs, k, i, j);
    forall m | 0 <= m < |c|
      ensures r[m].data == c[m]
    {
      assert MovedFrom(m, k, i, j) < |cs|;
    }
  }

  lemma HoldsSpliced<T(0)>(ts: seq<Node<T>>, tc: seq<T>, k: nat, ss: seq<Node<T>>, sc: seq<T>, i: nat, j: nat)
    requires Holds(ts, tc) && Holds(ss, sc) && k < |ts| && i <= j < |ss|
    ensures Holds(ts[..k] + ss[i..j] + ts[k..], tc[..k] + sc[i..j] + tc[k..])
  {
    var r, c := ts[..k] + ss[i..j] + ts[k..], tc[..k] + sc[i..j] + tc[k..];
    var w := j - i;
    forall m | 0 <= m < |c|
      ensures r[m].data == c[m]
    {
      if m < k {
        assert r[m] == ts[m] && c[m] == tc[m];
      } else if m < k + w {
        assert r[m] == ss[m - k + i] && c[m] == sc[m - k + i];
      } else {
        assert r[m] == ts[m - w] && c[m] == tc[m - w];
      }
    }
  }
}
