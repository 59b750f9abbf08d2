/**
 * The doubly-linked `list` (my_STL/__List.h): a ring of nodes through a
 * sentinel node `node`, rewired in place through `prev` and `next`.
 *
 * The ghost sequence `nodes` lists the element nodes from `begin()` on and
 * ends with the sentinel, so an iterator is a node of `nodes` and a range
 * `[first, last)` is a slice of it; `contents` is the elements' values.
 * Nodes come from `new` (the node allocator) and a destroyed node simply
 * leaves the list.
 */
module Lists {

  import opened ListNodes

  class List<T(0)> {
    /** The sentinel: `end()`. */
    const node: Node<T>
    /** The element nodes in order, then the sentinel. */
    ghost var nodes: seq<Node<T>>
    /** The elements' values in order. */
    ghost var contents: seq<T>

    ghost predicate Valid()
      reads this, nodes
    {
      && Ring(nodes)
      && nodes[|nodes| - 1] == node
      && Distinct(nodes)
      && Holds(nodes, contents)
    }

    /** The position of iterator `p`: `end()` is at `|contents|`. */
    ghost function Index(p: Node<T>): (k: nat)
      reads this
      requires p in nodes
      ensures k < |nodes| && nodes[k] == p
    {
      IndexOf(nodes, p)
    }

    /** `list()`, through `empty_initialize`: the sentinel linked to itself. */
    constructor ()
      ensures Valid() && fresh(nodes)
      ensures contents == [] && node.next == node && node.prev == node
    {
      var sentinel := new Node<T>();
      sentinel.next := sentinel;
      sentinel.prev := sentinel;
      node := sentinel;
      nodes := [sentinel];
      contents := [];
    }

    /** `empty()`: the sentinel links to itself. */
    function Empty(): (b: bool)
      reads this, nodes
      requires Valid()
      ensures b <==> contents == []
    {
      node.next == node
    }

    /** `insert(pos, value)`: a new node just before `pos`; returns it. */
    method Insert(pos: Node<T>, value: T) returns (r: Node<T>)
      requires Valid() && pos in nodes
      modifies this, nodes
      ensures Valid() && fresh(r) && r.data == value
      ensures var k := old(Index(pos));
        && nodes == old(nodes)[..k] + [r] + old(nodes)[k..]
        && contents == old(contents)[..k] + [value] + old(contents)[k..]
    {
      ghost var k := Index(pos);
      ghost var ns := nodes;
      ghost var before := nodes[Before(k, |nodes|)];
      var temp := new Node<T>.Create(value);
      temp.next := pos;
      temp.prev := pos.prev;
      pos.prev.next := temp;
      pos.prev := temp;
      InsertRing(ns, k, before, temp);
      nodes := nodes[..k] + [temp] + nodes[k..];
      contents := contents[..k] + [value] + contents[k..];
      r := temp;
      DistinctInsert(ns, k, temp);
      HoldsInsert(ns, old(contents), k, temp);
    }

    /** `erase(pos)`: unlinks `pos` and returns the node after it. */
    method Erase(pos: Node<T>) returns (r: Node<T>)
      requires Valid() && pos in nodes && pos != node
      modifies this, nodes
      ensures Valid()
      ensures var k := old(Index(pos));
        && k < old(|contents|) && r == old(nodes[k + 1])
        && nodes == old(nodes[..k] + nodes[k + 1..])
        && contents == old(contents[..k] + contents[k + 1..])
    {
      ghost var k := Index(pos);
      ghost var ns := nodes;
      ghost var a := nodes[Before(k, |nodes|)];
      assert k < |nodes| - 1;
      assert pos.prev == a && pos.next == nodes[k + 1];
      var temp := pos.next;
      pos.prev.next := pos.next;
      pos.next.prev := pos.prev;
      RemoveRing(ns, k, k + 1, a, nodes[k + 1]);
      DistinctRemoved(ns, k, k + 1);
      HoldsRemoved(ns, contents, k, k + 1);
      nodes := ns[..k] + ns[k + 1..];
      contents := contents[..k] + contents[k + 1..];
      r := temp;
    }

    /**
     * `erase(first, last)`: erases node by node, advancing `first` before
     * each erase, and returns what the last erase returned, that is `last`.
     * On an empty range no erase runs and the result is the default
     * iterator, whose node is null.
     */
    method EraseRange(first: Node<T>, last: Node<T>) returns (r: Node?<T>)
      requires Valid() && first in nodes && last in nodes && Index(first) <= Index(last)
      modifies this, nodes
      ensures Valid()
      ensures var i, j := old(Index(first)), old(Index(last));
        && nodes == old(nodes[..i] + nodes[j..])
        && contents == old(contents[..i] + contents[j..])
        && r == (if i == j then null else last)
    {
      ghost var ns, cs := nodes, contents;
      ghost var i, j := Index(first), Index(last);
      r := EraseLoop(ns, i, j, first, last);
      HoldsRemoved(ns, cs, i, j);
      HoldsUnique(nodes, contents, cs[..i] + cs[j..]);
    }

    /** The loop of `erase(first, last)`, over the positions `i` to `j` of `ns`. */
    method EraseLoop(ghost ns: seq<Node<T>>, ghost i: nat, ghost j: nat, first: Node<T>, last: Node<T>)
      returns (r: Node?<T>)
      requires i <= j < |ns| && ns[i] == first && ns[j] == last
      requires Valid() && nodes == ns
      modifies this, ns
      ensures Valid() && nodes == ns[..i] + ns[j..] && r == (if i == j then null else last)
    {
      ghost var t := i;
      var cur := first;
      r := null;
      while cur != last
        invariant Valid() && Distinct(ns) && ns[|ns| - 1] == node
        invariant i <= t <= j && cur == ns[t] && nodes == ns[..i] + ns[t..]
        invariant r == if t == i then null else cur
        decreases j - t
      {
        r := EraseNext(ns, i, t, cur);
        cur := r;
        t := t + 1;
      }
      assert t == j by {
        assert ns[t] == ns[j];
      }
    }

    /** One step of `erase(first, last)`: the `t`-th node of `ns` goes. */
    method EraseNext(ghost ns: seq<Node<T>>, ghost i: nat, ghost t: nat, cur: Node<T>)
      returns (r: Node<T>)
      requires i <= t < |ns| - 1 && cur == ns[t]
      requires Valid() && Distinct(ns) && nodes == ns[..i] + ns[t..]
      modifies this, ns
      ensures Valid() && r == ns[t + 1] && nodes == ns[..i] + ns[t + 1..]
    {
      ghost var n0 := nodes;
      DropAt(ns, i, t, n0);
      InSlices(ns, i, t);
      IndexOfDistinct(n0, i);
      r := Erase(cur);
    }

    /** `push_front(value)`: `insert(begin(), value)`. */
    method PushFront(value: T)
      requires Valid()
      modifies this, nodes
      ensures Valid() && contents == [value] + old(contents)
    {
      assert node.next == nodes[0];
      var _ := Insert(node.next, value);
    }

    /** `push_back(value)`: `insert(end(), value)`. */
    method PushBack(value: T)
      requires Valid()
      modifies this, nodes
      ensures Valid() && contents == old(contents) + [value]
      ensures fresh((set x | x in nodes) - (set x | x in old(nodes)))
    {
      IndexOfDistinct(nodes, |nodes| - 1);
      ghost var ns := nodes;
      var r := Insert(node, value);
      InInserted(ns, |ns| - 1, r);
    }

    /** `pop_front()`: `erase(begin())`; the list must not be empty. */
    method PopFront()
      requires Valid() && contents != []
      modifies this, nodes
      ensures Valid() && contents == old(contents[1..])
    {
      assert node.next == nodes[0];
      var _ := Erase(node.next);
    }

    /** `pop_back()`: `erase(--end())`; the list must not be empty. */
    method PopBack()
      requires Valid() && contents != []
      modifies this, nodes
      ensures Valid() && contents == old(contents[..|contents| - 1])
    {
      assert node.prev == nodes[|nodes| - 2];
      IndexOfDistinct(nodes, |nodes| - 2);
      var _ := Erase(node.prev);
    }

    /**
     * `clear()`: the element nodes leave the ring (their destruction is not
     * modelled) and the sentinel is linked to itself.
     */
    method Clear()
      requires Valid()
      modifies this, node
      ensures Valid() && nodes == [node] && contents == []
    {
      node.next := node;
      node.prev := node;
      nodes := [node];
      contents := [];
    }

    /** `size()`: `distance(begin(), end())`, the steps from the first node to the sentinel. */
    method Size() returns (n: nat)
      requires Valid()
      ensures n == |contents|
    {
      var cur := node.next;
      n := 0;
      while cur != node
        invariant n < |nodes| && cur == nodes[n]
        decreases |nodes| - n
      {
        cur := cur.next;
        n := n + 1;
      }
    }

    /** `insert(pos, count, value)`: `count` times `insert(pos, value)`. */
    method InsertCount(pos: Node<T>, count: nat, value: T)
      requires Valid() && pos in nodes
      modifies this, nodes
      ensures Valid()
      ensures var k := old(Index(pos));
        contents == old(contents[..k]) + Repeat(value, count) + old(contents[k..])
    {
      InsertLoop(contents, Index(pos), pos, count, value);
    }

    /** The loop of `insert(pos, count, value)`, with `pos` at position `k`. */
    method InsertLoop(ghost cs: seq<T>, ghost k: nat, pos: Node<T>, count: nat, value: T)
      requires Valid() && k < |nodes| && nodes[k] == pos && contents == cs
      modifies this, nodes
      ensures Valid() && contents == cs[..k] + Repeat(value, count) + cs[k..]
    {
      ghost var t := 0;
      var n: nat := count;
      while n > 0
        invariant Valid() && t + n == count
        invariant k + t < |nodes| && nodes[k + t] == pos
        invariant contents == cs[..k] + Repeat(value, t) + cs[k..]
        invariant fresh((set x | x in nodes) - (set x | x in old(nodes)))
        decreases n
      {
        InsertNext(cs, k, t, pos, value);
        n := n - 1;
        t := t + 1;
      }
    }

    /** One step of `insert(pos, count, value)`: the `t + 1`-th copy goes in. */
    method InsertNext(ghost cs: seq<T>, ghost k: nat, ghost t: nat, pos: Node<T>, value: T)
      requires Valid() && k + t < |nodes| && nodes[k + t] == pos
      requires k <= |cs| && contents == cs[..k] + Repeat(value, t) + cs[k..]
      modifies this, nodes
      ensures Valid() && k + t + 1 < |nodes| && nodes[k + t + 1] == pos
      ensures contents == cs[..k] + Repeat(value, t + 1) + cs[k..]
      ensures fresh((set x | x in nodes) - (set x | x in old(nodes)))
    {
      ghost var n0, c0 := nodes, contents;
      IndexOfDistinct(n0, k + t);
      InsertRepeat(cs, k, t, c0, value);
      var r := Insert(pos, value);
      InInserted(n0, k + t, r);
    }

    /** `list(n, value)`: an empty list, then `n` times `push_back(value)`. */
    constructor Fill(n: nat, value: T)
      ensures Valid() && contents == Repeat(value, n)
    {
      var sentinel := new Node<T>();
      sentinel.next := sentinel;
      sentinel.prev := sentinel;
      node := sentinel;
      nodes := [sentinel];
      contents := [];
      new;
      var count: nat := n;
      while count > 0
        invariant Valid() && count <= n && contents == Repeat(value, n - count)
        invariant fresh(set x | x in nodes)
        decreases count
      {
        PushBack(value);
        count := count - 1;
      }
    }

    /**
     * `transfer(pos, first, last)`: relinks the nodes `[first, last)` of
     * `src` (this list or another) in front of `pos`, with six pointer
     * writes and no allocation. Within one list, `pos == last` unhooks the
     * range from the ring and leaves its nodes linked only to each other.
     */
    method Transfer(pos: Node<T>, ghost src: List<T>, first: Node<T>, last: Node<T>)
      requires Valid() && src.Valid() && pos in nodes && first in src.nodes && last in src.nodes
      requires src.Index(first) < src.Index(last)
      requires src != this ==> Disjoint(nodes, src.nodes)
      requires src == this ==> Index(pos) < Index(first) || Index(last) <= Index(pos)
      modifies this, src, pos, pos.prev, first, first.prev, last, last.prev
      ensures Valid() && src.Valid()
      ensures src != this ==>
        var k, i, j := old(Index(pos)), old(src.Index(first)), old(src.Index(last));
        && Disjoint(nodes, src.nodes)
        && nodes == old(nodes[..k] + src.nodes[i..j] + nodes[k..])
        && contents == old(contents[..k] + src.contents[i..j] + contents[k..])
        && src.nodes == old(src.nodes[..i] + src.nodes[j..])
        && src.contents == old(src.contents[..i] + src.contents[j..])
      ensures src == this ==>
        var k, i, j := old(Index(pos)), old(Index(first)), old(Index(last));
        if k == j then
          && nodes == old(nodes[..i] + nodes[j..])
          && contents == old(contents[..i] + contents[j..])
          && Ring(old(nodes[i..j]))
        else
          && nodes == Moved(old(nodes), k, i, j)
          && contents == Moved(old(contents), k, i, j)
    {
      TransferAt(pos, src, first, last, nodes, src.nodes, contents, src.contents, Index(pos), src.Index(first), src.Index(last));
    }

    /** `transfer` with the positions of `pos`, `first` and `last` at hand. */
    method TransferAt(pos: Node<T>, ghost src: List<T>, first: Node<T>, last: Node<T>,
                      ghost ts: seq<Node<T>>, ghost ss: seq<Node<T>>, ghost tc: seq<T>, ghost sc: seq<T>,
                      ghost k: nat, ghost i: nat, ghost j: nat)
      requires nodes == ts && src.nodes == ss && contents == tc && src.contents == sc
      requires Valid() && src.Valid()
      requires k < |ts| && ts[k] == pos && i < j < |ss| && ss[i] == first && ss[j] == last
      requires src != this ==> Disjoint(ts, ss)
      requires src == this ==> k < i || j <= k
      modifies this, src, pos, pos.prev, first, first.prev, last, last.prev
      ensures Valid() && src.Valid() && AfterTransfer(this, src, ts, ss, tc, sc, k, i, j)
      ensures src != this ==> Disjoint(nodes, src.nodes)
      ensures src == this && k == j ==> Ring(ts[i..j])
    {
      ghost var q, a, z := ts[Before(k, |ts|)], ss[Before(i, |ss|)], ss[j - 1];
      assert pos.prev == q && first.prev == a && last.prev == z;
      assert pos != first;
      Relink(src, ts, ss, tc, sc, k, i, j, q, a, z, pos, first, last);
      Transferred(this, src, ts, ss, tc, sc, k, i, j, q, a, z, pos, first, last);
    }

    /**
     * The six pointer writes of `transfer`, with `q`, `a`, `z` the nodes
     * before `pos`, `first`, `last`, and the ghost state of this list (and
     * of `src` when it is another list) updated to match.
     */
    method Relink(ghost src: List<T>, ghost ts: seq<Node<T>>, ghost ss: seq<Node<T>>, ghost tc: seq<T>, ghost sc: seq<T>,
                  ghost k: nat, ghost i: nat, ghost j: nat, ghost q: Node<T>, ghost a: Node<T>, ghost z: Node<T>,
                  pos: Node<T>, first: Node<T>, last: Node<T>)
      requires k < |ts| && i < j < |ss| && |tc| == |ts| - 1 && |sc| == |ss| - 1
      requires src == this ==> ts == ss && tc == sc && (k < i || j <= k)
      requires pos.prev == q && first.prev == a && last.prev == z && pos != first
      modifies this, src, pos, q, first, a, last, z
      ensures Relinked(ts, q, a, z, pos, first, last) && Relinked(ss, q, a, z, pos, first, last)
      ensures AfterTransfer(this, src, ts, ss, tc, sc, k, i, j)
    {
      var temp := pos.prev;
      last.prev.next := pos;
      first.prev.next := last;
      temp.next := first;
      pos.prev := last.prev;
      last.prev := first.prev;
      first.prev := temp;
      if src != this {
        src.nodes, src.contents := ss[..i] + ss[j..], sc[..i] + sc[j..];
        nodes, contents := ts[..k] + ss[i..j] + ts[k..], tc[..k] + sc[i..j] + tc[k..];
      } else if k == j {
        nodes, contents := ts[..i] + ts[j..], tc[..i] + tc[j..];
      } else {
        nodes, contents := Moved(ts, k, i, j), Moved(tc, k, i, j);
      }
    }

    /** `splice(pos, other)`: moves all of `other`, a different list, in front of `pos`. */
    method SpliceAll(pos: Node<T>, other: List<T>)
      requires Valid() && other.Valid() && pos in nodes && other != this && Disjoint(nodes, other.nodes)
      modifies this, nodes, other, other.nodes
      ensures Valid() && other.Valid() && Disjoint(nodes, other.nodes)
      ensures var k := old(Index(pos));
        && contents == old(contents[..k] + other.contents + contents[k..])
        && other.contents == [] && other.nodes == [other.node]
    {
      if !other.Empty() {
        IndexOfDistinct(other.nodes, 0);
        IndexOfDistinct(other.nodes, |other.nodes| - 1);
        assert other.contents[0..|other.nodes| - 1] == other.contents;
        PrevIn(nodes, pos);
        PrevIn(other.nodes, other.node);
        Transfer(pos, other, other.node.next, other.node);
      }
    }

    /**
     * `splice(pos, other, i)`: moves the element at `i` of `other` (this
     * list or another) in front of `pos`; nothing moves when `pos` is `i`
     * or the node after it.
     */
    method SpliceOne(pos: Node<T>, other: List<T>, i: Node<T>)
      requires Valid() && other.Valid() && pos in nodes && i in other.nodes && i != other.node
      requires other != this ==> Disjoint(nodes, other.nodes)
      modifies this, nodes, other, other.nodes
      ensures Valid() && other.Valid()
      ensures other != this ==>
        var k, m := old(Index(pos)), old(other.Index(i));
        && contents == old(contents[..k] + [other.contents[m]] + contents[k..])
        && other.contents == old(other.contents[..m] + other.contents[m + 1..])
      ensures other == this ==>
        var k, m := old(Index(pos)), old(Index(i));
        contents == if k == m || k == m + 1 then old(contents) else Moved(old(contents), k, m, m + 1)
    {
      ghost var k, m := Index(pos), other.Index(i);
      var j := i.next;
      assert j == other.nodes[m + 1];
      IndexOfDistinct(other.nodes, m + 1);
      assert other != this ==> nodes[k] != other.nodes[m] && nodes[k] != other.nodes[m + 1];
      if pos == i || pos == j {
        assert k == m || k == m + 1;
        return;
      }
      assert other.contents[m..m + 1] == [other.contents[m]];
      PrevIn(nodes, pos);
      PrevIn(other.nodes, i);
      assert j.prev == i;
      TransferAt(pos, other, i, j, nodes, other.nodes, contents, other.contents, k, m, m + 1);
    }

    /**
     * `splice(pos, other, first, last)` as written: transfers `[first, last)`
     * whenever it is not empty, including when `pos` is `last` in the same
     * list, where `transfer` takes the range out of the ring.
     */
    method SpliceRangeAsWritten(pos: Node<T>, other: List<T>, first: Node<T>, last: Node<T>)
      requires Valid() && other.Valid() && pos in nodes && first in other.nodes && last in other.nodes
      requires other.Index(first) <= other.Index(last)
      requires other != this ==> Disjoint(nodes, other.nodes)
      requires other == this ==> !(Index(first) <= Index(pos) < Index(last))
      modifies this, nodes, other, other.nodes
      ensures Valid() && other.Valid()
      ensures other == this ==>
        var k, i, j := old(Index(pos)), old(Index(first)), old(Index(last));
        && (i < j && k == j ==> contents == old(contents[..i] + contents[j..]) && |contents| == old(|contents|) - (j - i))
    {
      if first != last {
        PrevIn(nodes, pos);
        PrevIn(other.nodes, first);
        PrevIn(other.nodes, last);
        Transfer(pos, other, first, last);
      }
    }

    /**
     * `splice(pos, other, first, last)`: moves `[first, last)` of `other`
     * (this list or another) in front of `pos`; nothing moves when the
     * range is empty or `pos` is `last`.
     */
    method SpliceRange(pos: Node<T>, other: List<T>, first: Node<T>, last: Node<T>)
      requires Valid() && other.Valid() && pos in nodes && first in other.nodes && last in other.nodes
      requires other.Index(first) <= other.Index(last)
      requires other != this ==> Disjoint(nodes, other.nodes)
      requires other == this ==> !(Index(first) <= Index(pos) < Index(last))
      modifies this, nodes, other, other.nodes
      ensures Valid() && other.Valid()
      ensures other != this ==>
        var k, i, j := old(Index(pos)), old(other.Index(first)), old(other.Index(last));
        && contents == old(contents[..k] + other.contents[i..j] + contents[k..])
        && other.contents == old(other.contents[..i] + other.contents[j..])
      ensures other == this ==>
        var k, i, j := old(Index(pos)), old(Index(first)), old(Index(last));
        && contents == (if i == j || k == j then old(contents) else Moved(old(contents), k, i, j))
        && multiset(contents) == old(multiset(contents))
    {
      if first != last && pos != last {
        ghost var k, i, j := Index(pos), other.Index(first), other.Index(last);
        ghost var cs := contents;
        PrevIn(nodes, pos);
        PrevIn(other.nodes, first);
        PrevIn(other.nodes, last);
        Transfer(pos, other, first, last);
        if other == this {
          MovedPermutes(cs, k, i, j);
        }
      }
    }

    /**
     * `reverse()`: from the second node on, moves each node to the front;
     * lists of fewer than two elements are left alone.
     */
    method Reverse()
      requires Valid()
      modifies this, nodes
      ensures Valid() && contents == Reversed(old(contents))
      ensures nodes == Reversed(old(nodes[..|nodes| - 1])) + [node]
    {
      assert node.next == nodes[0];
      assert 2 < |nodes| ==> node.next.next == nodes[1] && nodes[1] != node;
      if node.next == node || node.next.next == node {
        assert Reversed(contents) == contents && Reversed(nodes[..|nodes| - 1]) == nodes[..|nodes| - 1];
        assert nodes == nodes[..|nodes| - 1] + [node];
        return;
      }
      ReverseLoop(nodes, contents, node.next.next);
    }

    /** The loop of `reverse()`, from the second node `first` of `ns` on. */
    method ReverseLoop(ghost ns: seq<Node<T>>, ghost cs: seq<T>, first: Node<T>)
      requires Valid() && nodes == ns && contents == cs && 2 < |ns| && first == ns[1]
      modifies this, ns
      ensures Valid() && contents == Reversed(cs) && nodes == Reversed(ns[..|ns| - 1]) + [node]
    {
      var cur := first;
      ghost var i := 1;
      while cur != node
        invariant Valid() && 1 <= i < |ns| && cur == ns[i] && Distinct(ns) && ns[|ns| - 1] == node
        invariant nodes == Reversed(ns[..i]) + ns[i..] && contents == Reversed(cs[..i]) + cs[i..]
        decreases |ns| - i
      {
        cur := ReverseNext(ns, cs, i, cur);
        i := i + 1;
      }
      assert i == |ns| - 1;
      assert cs[..i] == cs && ns[i..] == [node];
    }

    /** One round of `reverse()`'s loop: the node at `i` moves to the front. */
    method ReverseNext(ghost ns: seq<Node<T>>, ghost cs: seq<T>, ghost i: nat, moved: Node<T>) returns (first: Node<T>)
      requires Valid() && 1 <= i < |ns| - 1 && moved == ns[i] && Distinct(ns) && |cs| == |ns| - 1
      requires nodes == Reversed(ns[..i]) + ns[i..] && contents == Reversed(cs[..i]) + cs[i..]
      modifies this, ns
      ensures Valid() && first == ns[i + 1]
      ensures nodes == Reversed(ns[..i + 1]) + ns[i + 1..] && contents == Reversed(cs[..i + 1]) + cs[i + 1..]
    {
      assert Moved(nodes, 0, i, i + 1) == Reversed(ns[..i + 1]) + ns[i + 1..] by {
        ReverseStep(ns, nodes, i);
      }
      assert Moved(contents, 0, i, i + 1) == Reversed(cs[..i + 1]) + cs[i + 1..] by {
        ReverseStep(cs, contents, i);
      }
      assert nodes[i] == moved && nodes[i + 1] == moved.next && nodes[0] == node.next;
      assert node.next == ns[i - 1] && moved.prev == ns[0] && node == ns[|ns| - 1] by {
        assert nodes[0] == Reversed(ns[..i])[0] && nodes[i - 1] == Reversed(ns[..i])[i - 1];
      }
      first := moved.next;
      TransferAt(node.next, this, moved, first, nodes, nodes, contents, contents, 0, i, i + 1);
    }
  }

  /**
   * The ghost state of `t`, and of `s` when it is another list, after
   * `transfer` of `[i, j)` of `ss` in front of position `k` of `ts`.
   */
  ghost predicate AfterTransfer<T(0)>(t: List<T>, s: List<T>, ts: seq<Node<T>>, ss: seq<Node<T>>,
                                      tc: seq<T>, sc: seq<T>, k: nat, i: nat, j: nat)
    reads t, s
  {
    && k < |ts| && i < j < |ss| && |tc| == |ts| - 1 && |sc| == |ss| - 1
    && if s != t then
      && t.nodes == ts[..k] + ss[i..j] + ts[k..] && t.contents == tc[..k] + sc[i..j] + tc[k..]
      && s.nodes == ss[..i] + ss[j..] && s.contents == sc[..i] + sc[j..]
    else
      && ts == ss && tc == sc
      && if k == j then t.nodes == ts[..i] + ts[j..] && t.contents == tc[..i] + tc[j..]
      else (k < i || j < k) && t.nodes == Moved(ts, k, i, j) && t.contents == Moved(tc, k, i, j)
  }

  /**
   * After the six writes of `transfer`, with the ghost state of `t` (and of
   * `s` when it is another list) updated for the case at hand, both lists
   * are whole again.
   */
  twostate lemma Transferred<T(0)>(new t: List<T>, new s: List<T>, new ts: seq<Node<T>>, new ss: seq<Node<T>>,
                                  new tc: seq<T>, new sc: seq<T>, new k: nat, new i: nat, new j: nat,
                                  new q: Node<T>, new a: Node<T>, new z: Node<T>, new p: Node<T>, new f: Node<T>, new l: Node<T>)
    requires old(allocated(t)) && old(allocated(s)) && old(allocated(ts)) && old(allocated(ss))
    requires old(t.nodes) == ts && old(s.nodes) == ss && old(t.contents) == tc && old(s.contents) == sc
    requires old(t.Valid()) && old(s.Valid())
    requires k < |ts| && i < j < |ss|
    requires s != t ==> Disjoint(ts, ss)
    requires s == t ==> k < i || j <= k
    requires q == ts[Before(k, |ts|)] && a == ss[Before(i, |ss|)] && z == ss[j - 1]
    requires p == ts[k] && f == ss[i] && l == ss[j]
    requires Relinked(ts, q, a, z, p, f, l) && Relinked(ss, q, a, z, p, f, l)
    requires AfterTransfer(t, s, ts, ss, tc, sc, k, i, j)
    ensures t.Valid() && s.Valid()
    ensures s != t ==> Disjoint(t.nodes, s.nodes)
    ensures s == t && k == j ==> Ring(ts[i..j])
  {
    if s != t {
      AcrossTransferred(t, s, ts, ss, tc, sc, k, i, j, q, a, z, p, f, l);
    } else if k == j {
      LostTransferred(t, ts, tc, i, j, q, a, z, p, f, l);
    } else {
      MovedTransferred(t, ts, tc, k, i, j, q, a, z, p, f, l);
    }
  }

  /** Both lists are whole again after `transfer` from one to the other. */
  twostate lemma AcrossTransferred<T(0)>(new t: List<T>, new s: List<T>, new ts: seq<Node<T>>, new ss: seq<Node<T>>,
                                        new tc: seq<T>, new sc: seq<T>, new k: nat, new i: nat, new j: nat,
                                        new q: Node<T>, new a: Node<T>, new z: Node<T>, new p: Node<T>, new f: Node<T>, new l: Node<T>)
    requires old(allocated(t)) && old(allocated(s)) && old(allocated(ts)) && old(allocated(ss)) && t != s
    requires old(t.nodes) == ts && old(s.nodes) == ss && old(t.contents) == tc && old(s.contents) == sc
    requires old(t.Valid()) && old(s.Valid()) && Disjoint(ts, ss) && k < |ts| && i < j < |ss|
    requires q == ts[Before(k, |ts|)] && a == ss[Before(i, |ss|)] && z == ss[j - 1]
    requires p == ts[k] && f == ss[i] && l == ss[j]
    requires Relinked(ts, q, a, z, p, f, l) && Relinked(ss, q, a, z, p, f, l)
    requires t.nodes == ts[..k] + ss[i..j] + ts[k..] && t.contents == tc[..k] + sc[i..j] + tc[k..]
    requires s.nodes == ss[..i] + ss[j..] && s.contents == sc[..i] + sc[j..]
    ensures t.Valid() && s.Valid() && Disjoint(t.nodes, s.nodes)
  {
    AcrossRelinked(ts, k, ss, i, j, q, a, z, p, f, l);
    DisjointSpliced(ts, k, ss, i, j);
    HoldsSpliced(ts, tc, k, ss, sc, i, j);
    HoldsRemoved(ss, sc, i, j);
  }

  /** The list is whole again after `transfer` within it, `pos` outside `[first, last]`. */
  twostate lemma MovedTransferred<T(0)>(new t: List<T>, new ts: seq<Node<T>>, new tc: seq<T>, new k: nat, new i: nat, new j: nat,
                                       new q: Node<T>, new a: Node<T>, new z: Node<T>, new p: Node<T>, new f: Node<T>, new l: Node<T>)
    requires old(allocated(t)) && old(allocated(ts)) && old(t.nodes) == ts && old(t.contents) == tc && old(t.Valid())
    requires i < j < |ts| && k < |ts| && (k < i || j < k)
    requires q == ts[Before(k, |ts|)] && a == ts[Before(i, |ts|)] && z == ts[j - 1]
    requires p == ts[k] && f == ts[i] && l == ts[j]
    requires Relinked(ts, q, a, z, p, f, l)
    requires t.nodes == Moved(ts, k, i, j) && t.contents == Moved(tc, k, i, j)
    ensures t.Valid()
  {
    if k < i {
      BeforeRelinked(ts, k, i, j, q, a, z, p, f, l);
    } else {
      AfterRelinked(ts, k, i, j, q, a, z, p, f, l);
    }
    DistinctMoved(ts, k, i, j);
    HoldsMoved(ts, tc, k, i, j);
  }

  /**
   * After `transfer` within one list with `pos == last`, the list is whole
   * without `[first, last)`, whose nodes form a ring of their own.
   */
  twostate lemma LostTransferred<T(0)>(new t: List<T>, new ts: seq<Node<T>>, new tc: seq<T>, new i: nat, new j: nat,
                                      new q: Node<T>, new a: Node<T>, new z: Node<T>, new p: Node<T>, new f: Node<T>, new l: Node<T>)
    requires old(allocated(t)) && old(allocated(ts)) && old(t.nodes) == ts && old(t.contents) == tc && old(t.Valid())
    requires i < j < |ts|
    requires q == ts[Before(j, |ts|)] && a == ts[Before(i, |ts|)] && z == ts[j - 1]
    requires p == ts[j] && f == ts[i] && l == ts[j]
    requires Relinked(ts, q, a, z, p, f, l)
    requires t.nodes == ts[..i] + ts[j..] && t.contents == tc[..i] + tc[j..]
    ensures t.Valid() && Ring(ts[i..j])
  {
    LostRelinked(ts, i, j, q, a, z, p, f, l);
    DistinctRemoved(ts, i, j);
    HoldsRemoved(ts, tc, i, j);
  }
}
