/** The doubly linked list with two sentinels that holds every other structure of the loader. */
module List {
  import opened Seqs
  import opened ListModel

  type Pointer = nat  // void *; 0 is null

  class Item {
    var data: Pointer
    var next: Item?
    var prev: Item?

    constructor (data: Pointer, next: Item?, prev: Item?)
      ensures this.data == data && this.next == next && this.prev == prev
    {
      this.data, this.next, this.prev := data, next, prev;
    }
  }

  // ----- chains of items

  /** From position lo to position hi the links run both ways between neighbours. */
  ghost predicate Linked(ns: seq<Item>, lo: nat, hi: nat)
    requires hi < |ns|
    reads ns
  {
    && (forall k {:trigger ns[k].next} :: lo <= k < hi ==> ns[k].next == ns[k + 1])
    && (forall k {:trigger ns[k].prev} :: lo < k <= hi ==> ns[k].prev == ns[k - 1])
  }

  /** The items between the sentinels store c. */
  ghost predicate Stores(ns: seq<Item>, c: seq<Pointer>)
    reads ns
  {
    && |ns| == |c| + 2
    && (forall k {:trigger ns[k].data} :: 1 <= k < |ns| - 1 ==> ns[k].data == c[k - 1])
  }

  /** Links that skip positions p up to q make a chain without them. */
  lemma ChainCut(ns: seq<Item>, p: nat, q: nat)
    requires 0 < p <= q < |ns| && Linked(ns, 0, p - 1) && Linked(ns, q, |ns| - 1)
    requires ns[p - 1].next == ns[q] && ns[q].prev == ns[p - 1]
    ensures Linked(ns[..p] + ns[q..], 0, |ns| - 1 - (q - p))
  {
  }

  /** An item linked in between positions p - 1 and p. */
  lemma ChainSpliced(ns: seq<Item>, p: nat, item: Item)
    requires 0 < p < |ns| && Linked(ns, 0, p - 1) && Linked(ns, p, |ns| - 1)
    requires ns[p - 1].next == item && item.prev == ns[p - 1] && item.next == ns[p] && ns[p].prev == item
    ensures Linked(ns[..p] + [item] + ns[p..], 0, |ns|)
  {
  }

  /** The items between the sentinels in the opposite order. */
  ghost function Mirrored<T>(ns: seq<T>): (r: seq<T>)
    requires |ns| >= 2
    ensures |r| == |ns| && r[0] == ns[0] && r[|ns| - 1] == ns[|ns| - 1]
    ensures forall k {:trigger r[k]} :: 1 <= k < |ns| - 1 ==> r[k] == ns[|ns| - 1 - k]
  {
    [ns[0]] + Reversed(ns[1..|ns| - 1]) + [ns[|ns| - 1]]
  }

  /** The links of every item between the sentinels have been exchanged. */
  ghost predicate Swapped(ns: seq<Item>)
    reads ns
  {
    && (forall k {:trigger ns[k].next} :: 1 <= k < |ns| - 1 ==> ns[k].next == ns[k - 1])
    && (forall k {:trigger ns[k].prev} :: 1 <= k < |ns| - 1 ==> ns[k].prev == ns[k + 1])
  }

  /** And the ends lead to the sentinels again, crosswise. */
  ghost predicate Turned(ns: seq<Item>)
    requires |ns| > 2
    reads ns
  {
    && ns[0].next == ns[|ns| - 2] && ns[|ns| - 1].prev == ns[1]
    && ns[1].next == ns[|ns| - 1] && ns[|ns| - 2].prev == ns[0]
    && (forall k {:trigger ns[k].next} :: 2 <= k < |ns| - 1 ==> ns[k].next == ns[k - 1])
    && (forall k {:trigger ns[k].prev} :: 1 <= k < |ns| - 2 ==> ns[k].prev == ns[k + 1])
  }

  lemma ChainMirrored(ns: seq<Item>, c: seq<Pointer>)
    requires |ns| > 2 && Distinct<Item>(ns) && Stores(ns, c) && Turned(ns)
    ensures Linked(Mirrored<Item>(ns), 0, |ns| - 1) && Stores(Mirrored<Item>(ns), Reversed(c))
    ensures Distinct<Item>(Mirrored<Item>(ns))
  {
    var r := Mirrored<Item>(ns);
    forall i, j | 0 <= i < j < |r| ensures r[i] != r[j] {}
  }

  lemma StoresCut(ns: seq<Item>, c: seq<Pointer>, p: nat, q: nat)
    requires 0 < p <= q < |ns| && |ns| == |c| + 2
    requires forall k {:trigger ns[k].data} :: (1 <= k < p || q <= k < |ns| - 1) ==> ns[k].data == c[k - 1]
    ensures Stores(ns[..p] + ns[q..], c[..p - 1] + c[q - 1..])
  {
  }

  lemma StoresSpliced(ns: seq<Item>, c: seq<Pointer>, p: nat, item: Item)
    requires 0 < p < |ns| && Stores(ns, c)
    ensures Stores(ns[..p] + [item] + ns[p..], c[..p - 1] + [item.data] + c[p - 1..])
  {
  }

  lemma SplicedAfter<T>(before: seq<T>, middle: seq<T>, after: seq<T>, x: T)
    ensures var s, n := before + middle + after, |before| + |middle|;
            s[..n] + [x] + s[n..] == before + (middle + [x]) + after
  {
  }

  lemma DistinctSpliced<T>(s: seq<T>, p: nat, x: T)
    requires Distinct(s) && p <= |s| && x !in s
    ensures Distinct(s[..p] + [x] + s[p..])
  {
  }

  class LinkedList {
    const head: Item
    const tail: Item
    var size: nat
    ghost var nodes: seq<Item>        // head, the items in order, tail
    ghost var contents: seq<Pointer>  // what the items store: contents[p - 1] at position p

    ghost predicate Valid()
      reads this, nodes
    {
      && |nodes| >= 2 && nodes[0] == head && nodes[|nodes| - 1] == tail && Distinct<Item>(nodes)
      && head.prev == null && tail.next == null && Linked(nodes, 0, |nodes| - 1)
      && size == |contents| && Stores(nodes, contents)
    }

    /** The item at position p; end is at |nodes| - 1. */
    ghost predicate At(item: Item, p: nat)
      reads this`nodes
    {
      p < |nodes| && nodes[p] == item
    }

    constructor ()
      ensures Valid() && contents == [] && fresh(nodes)
    {
      var h := new Item(0, null, null);
      var t := new Item(0, null, null);
      head, tail, size, nodes, contents := h, t, 0, [h, t], [];
      new;
      head.next := tail;
      tail.prev := head;
    }

    method Insert(at: Item, value: Pointer, ghost p: nat) returns (item: Item)
      requires Valid() && At(at, p) && p > 0
      modifies this, Elements<Item>(nodes)
      ensures Valid() && fresh(item) && nodes == old(nodes[..p] + [item] + nodes[p..])
      ensures contents == old(contents[..p - 1]) + [value] + old(contents[p - 1..])
    {
      item := LinkIn(at, value, p);
      ChainSpliced(nodes, p, item);
      StoresSpliced(nodes, contents, p, item);
      DistinctSpliced<Item>(nodes, p, item);
      size := size + 1;
      nodes, contents := nodes[..p] + [item] + nodes[p..], contents[..p - 1] + [value] + contents[p - 1..];
    }

    /** The pointer updates of vdl_list_insert. */
    method LinkIn(at: Item, value: Pointer, ghost p: nat) returns (item: Item)
      requires At(at, p) && p > 0 && Distinct<Item>(nodes) && Linked(nodes, 0, |nodes| - 1) && Stores(nodes, contents)
      modifies Elements<Item>(nodes)
      ensures fresh(item) && item.data == value && Linked(nodes, 0, p - 1) && Linked(nodes, p, |nodes| - 1)
      ensures nodes[p - 1].next == item && item.prev == nodes[p - 1] && item.next == nodes[p] && nodes[p].prev == item
      ensures Stores(nodes, contents)
      ensures nodes[0].prev == old(nodes[0].prev) && nodes[|nodes| - 1].next == old(nodes[|nodes| - 1].next)
    {
      var before := at.prev;
      assert before == nodes[p - 1];
      item := new Item(value, at, before);
      at.prev := item;
      before.next := item;
    }

    method Erase(item: Item, ghost p: nat) returns (next: Item)
      requires Valid() && At(item, p) && 0 < p < |nodes| - 1
      modifies this, Elements<Item>(nodes)
      ensures Valid() && nodes == old(nodes[..p] + nodes[p + 1..]) && At(next, p)
      ensures contents == old(contents[..p - 1] + contents[p..])
    {
      size := size - 1;
      next := Unlink(item, p);
      DropNodes(p, p + 1);
    }

    /** Positions p up to q have been bypassed and are no longer part of the list. */
    ghost method DropNodes(p: nat, q: nat)
      requires 0 < p <= q < |nodes| && |nodes| == |contents| + 2 && size == |contents| - (q - p)
      requires nodes[0] == head && nodes[|nodes| - 1] == tail && Distinct<Item>(nodes)
      requires head.prev == null && tail.next == null
      requires Linked(nodes, 0, p - 1) && Linked(nodes, q, |nodes| - 1)
      requires nodes[p - 1].next == nodes[q] && nodes[q].prev == nodes[p - 1]
      requires forall k {:trigger nodes[k].data} ::
                 (1 <= k < p || q <= k < |nodes| - 1) ==> nodes[k].data == contents[k - 1]
      modifies this`nodes, this`contents
      ensures Valid() && nodes == old(nodes[..p] + nodes[q..])
      ensures contents == old(contents[..p - 1] + contents[q - 1..])
    {
      ChainCut(nodes, p, q);
      StoresCut(nodes, contents, p, q);
      DistinctCut<Item>(nodes, p, q);
      nodes, contents := nodes[..p] + nodes[q..], contents[..p - 1] + contents[q - 1..];
    }

    /** The pointer updates of vdl_list_erase. */
    method Unlink(item: Item, ghost p: nat) returns (next: Item)
      requires At(item, p) && 0 < p < |nodes| - 1 && Distinct<Item>(nodes)
      requires Linked(nodes, 0, |nodes| - 1) && Stores(nodes, contents)
      modifies Elements<Item>(nodes)
      ensures At(next, p + 1) && Linked(nodes, 0, p - 1) && Linked(nodes, p + 1, |nodes| - 1)
      ensures nodes[p - 1].next == nodes[p + 1] && nodes[p + 1].prev == nodes[p - 1]
      ensures forall k {:trigger nodes[k].data} :: 1 <= k < |nodes| - 1 && k != p ==> nodes[k].data == contents[k - 1]
      ensures nodes[0].prev == old(nodes[0].prev) && nodes[|nodes| - 1].next == old(nodes[|nodes| - 1].next)
    {
      var before := item.prev;
      next := item.next;
      assert before == nodes[p - 1] && next == nodes[p + 1];
      before.next := next;
      next.prev := before;
      item.next, item.prev, item.data := null, null, 0;
    }

    method EraseRange(start: Item, end: Item, ghost p: nat, ghost q: nat)
      requires Valid() && At(start, p) && At(end, q) && 0 < p <= q
      modifies this, Elements<Item>(nodes)
      ensures Valid() && nodes == old(nodes[..p] + nodes[q..])
      ensures contents == old(contents[..p - 1] + contents[q - 1..])
    {
      var before := start.prev;
      assert before == nodes[p - 1];
      before.next := end;
      end.prev := before;
      var deleted := CountRange(start, end, p, q);
      size := size - deleted;
      DropNodes(p, q);
    }

    /** The loop of vdl_list_erase_range over the items it frees. */
    method CountRange(start: Item, end: Item, ghost p: nat, ghost q: nat) returns (deleted: nat)
      requires At(start, p) && At(end, q) && p <= q && Distinct<Item>(nodes)
      requires forall k {:trigger nodes[k].next} :: p <= k < q ==> nodes[k].next == nodes[k + 1]
      ensures deleted == q - p
    {
      deleted := 0;
      var item := start;
      while item != end
        invariant p + deleted <= q && item == nodes[p + deleted]
        decreases q - p - deleted
      {
        item := item.next;
        deleted := deleted + 1;
      }
    }

    method Clear()
      requires Valid()
      modifies this, Elements<Item>(nodes)
      ensures Valid() && contents == [] && nodes == [head, tail]
    {
      assert nodes[0].next == nodes[1];
      EraseRange(head.next, tail, 1, |nodes| - 1);
    }

    /** The first occurrence of `data` from `from` on, or end. */
    method FindFrom(from: Item, data: Pointer, ghost p: nat) returns (found: Item, ghost q: nat)
      requires Valid() && At(from, p) && p > 0
      ensures p <= q && At(found, q) && (q < |nodes| - 1 ==> contents[q - 1] == data)
      ensures data !in contents[p - 1..q - 1]
      ensures found == tail <==> data !in contents[p - 1..]
      ensures found != tail ==> found in nodes && found.data == data
    {
      found, q := from, p;
      while found != tail
        invariant p <= q && At(found, q)
        invariant data !in contents[p - 1..q - 1]
        decreases |nodes| - q
      {
        assert nodes[q].data == contents[q - 1] && nodes[q].next == nodes[q + 1];
        if found.data == data {
          assert contents[p - 1..][q - p] == data;
          return;
        }
        assert contents[p - 1..q] == contents[p - 1..q - 1] + [contents[q - 1]];
        found := found.next;
        q := q + 1;
      }
      DistinctPosition<Item>(nodes, q, |nodes| - 1);
      assert q - 1 == |contents| && contents[..|contents|] == contents;
    }

    /** vdl_list_remove: every occurrence goes. */
    method Remove(data: Pointer)
      requires Valid()
      modifies this, Elements<Item>(nodes)
      ensures Valid() && contents == Without(old(contents), data)
      ensures Elements<Item>(nodes) <= Elements<Item>(old(nodes))
    {
      assert nodes[0].next == nodes[1];
      var i, q := FindFrom(head.next, data, 1);
      while i != tail
        invariant Valid() && At(i, q) && 0 < q && (q < |nodes| - 1 ==> contents[q - 1] == data)
        invariant Elements<Item>(nodes) <= Elements<Item>(old(nodes))
        invariant data !in contents[..q - 1]
        invariant Without(contents, data) == Without(old(contents), data)
        decreases |nodes| - q
      {
        i, q := EraseAndFind(i, data, q);
      }
      assert contents == contents[..q - 1];
      WithoutAbsent(contents, data);
    }

    /** One round of the loops that remove duplicates: erase the item and find the next one that stores `data`. */
    method EraseAndFind(item: Item, data: Pointer, ghost p: nat) returns (found: Item, ghost q: nat)
      requires Valid() && At(item, p) && 0 < p < |nodes| - 1
      modifies this, Elements<Item>(nodes)
      ensures Valid() && nodes == old(nodes[..p] + nodes[p + 1..])
      ensures contents == old(contents[..p - 1] + contents[p..])
      ensures p <= q && At(found, q) && (q < |nodes| - 1 ==> contents[q - 1] == data)
      ensures contents[..q - 1] == old(contents[..p - 1]) + contents[p - 1..q - 1]
      ensures data !in contents[p - 1..q - 1]
      ensures old(contents[p - 1]) == data ==> Without(contents, data) == Without(old(contents), data)
    {
      ghost var was := contents;
      found := Erase(item, p);
      found, q := FindFrom(found, data, p);
      if was[p - 1] == data {
        WithoutErased(was, p - 1, data);
      }
    }

    /** vdl_list_reverse */
    method Reverse()
      requires Valid()
      modifies this, Elements<Item>(nodes)
      ensures Valid() && contents == Reversed(old(contents)) && nodes == Mirrored<Item>(old(nodes))
    {
      if size == 0 {
        return;
      }
      assert nodes[0].next == nodes[1] && nodes[|nodes| - 1].prev == nodes[|nodes| - 2];
      var begin: Item, last: Item := head.next, tail.prev;
      SwapLinks();
      RelinkEnds(begin, last);
      ChainMirrored(nodes, contents);
      nodes, contents := Mirrored<Item>(nodes), Reversed(contents);
    }

    /** The four assignments that end vdl_list_reverse. */
    method RelinkEnds(begin: Item, last: Item)
      requires |nodes| > 2 && Distinct<Item>(nodes) && nodes[0] == head && nodes[|nodes| - 1] == tail
      requires At(begin, 1) && At(last, |nodes| - 2) && Swapped(nodes) && Stores(nodes, contents)
      modifies head, tail, begin, last
      ensures Turned(nodes) && Stores(nodes, contents)
      ensures head.prev == old(head.prev) && tail.next == old(tail.next)
    {
      begin.next := tail;
      tail.prev := begin;
      last.prev := head;
      head.next := last;
    }

    /** The loop of vdl_list_reverse: every item's links are exchanged. */
    method SwapLinks()
      requires Valid()
      modifies Elements<Item>(nodes)
      ensures Stores(nodes, contents) && Swapped(nodes) && head.prev == null && tail.next == null
    {
      assert nodes[0].next == nodes[1];
      var cur: Item := head.next;
      ghost var c := 1;
      while cur != tail
        invariant 1 <= c && At(cur, c) && Stores(nodes, contents)
        invariant forall k {:trigger nodes[k].next} :: 1 <= k < c ==> nodes[k].next == nodes[k - 1]
        invariant forall k {:trigger nodes[k].prev} :: 1 <= k < c ==> nodes[k].prev == nodes[k + 1]
        invariant Linked(nodes, c, |nodes| - 1) && cur.prev == nodes[c - 1]
        invariant head.prev == null && tail.next == null
        decreases |nodes| - c
      {
        assert nodes[c].next == nodes[c + 1] && nodes[c + 1].prev == nodes[c];
        var next, prev := cur.next, cur.prev;
        cur.next := prev;
        cur.prev := next;
        cur := next;
        c := c + 1;
      }
    }

    method PushBack(data: Pointer)
      requires Valid()
      modifies this, Elements<Item>(nodes)
      ensures Valid() && contents == old(contents) + [data]
      ensures fresh(Elements<Item>(nodes) - Elements<Item>(old(nodes)))
    {
      var item := Insert(tail, data, |nodes| - 1);
    }

    method PushFront(data: Pointer)
      requires Valid()
      modifies this, Elements<Item>(nodes)
      ensures Valid() && contents == [data] + old(contents)
      ensures fresh(Elements<Item>(nodes) - Elements<Item>(old(nodes)))
    {
      assert nodes[0].next == nodes[1];
      var item := Insert(head.next, data, 1);
    }

    /** vdl_list_insert_range, from another list. */
    method InsertRange(at: Item, ghost p: nat, other: LinkedList, start: Item, end: Item, ghost a: nat, ghost b: nat)
      requires Valid() && At(at, p) && p > 0
      requires other.Valid() && other.At(start, a) && other.At(end, b) && 0 < a <= b
      requires other != this && Elements<Item>(nodes) !! Elements<Item>(other.nodes)
      modifies this, Elements<Item>(nodes)
      ensures Valid() && contents == old(contents[..p - 1]) + other.contents[a - 1..b - 1] + old(contents[p - 1..])
      ensures fresh(Elements<Item>(nodes) - Elements<Item>(old(nodes)))
      ensures other.Valid() && other.contents == old(other.contents)
    {
      ghost var k := a;
      var i: Item := start;
      while i != end
        invariant Valid() && At(at, p + (k - a))
        invariant a <= k <= b && other.At(i, k) && other.Valid()
        invariant other.contents == old(other.contents) && other.nodes == old(other.nodes)
        invariant Elements<Item>(nodes) !! Elements<Item>(other.nodes)
        invariant fresh(Elements<Item>(nodes) - Elements<Item>(old(nodes)))
        invariant contents == old(contents[..p - 1]) + other.contents[a - 1..k - 1] + old(contents[p - 1..])
        decreases b - k
      {
        SplicedAfter(old(contents[..p - 1]), other.contents[a - 1..k - 1], old(contents[p - 1..]),
                     other.contents[k - 1]);
        assert other.contents[a - 1..k] == other.contents[a - 1..k - 1] + [other.contents[k - 1]];
        i := InsertCopy(at, p + (k - a), other, i, k);
        k := k + 1;
      }
    }

    /** One round of that loop. */
    method InsertCopy(at: Item, ghost p: nat, other: LinkedList, i: Item, ghost k: nat) returns (next: Item)
      requires Valid() && At(at, p) && p > 0 && other.Valid() && other.At(i, k) && 0 < k < |other.nodes| - 1
      requires other != this && Elements<Item>(nodes) !! Elements<Item>(other.nodes)
      modifies this, Elements<Item>(nodes)
      ensures Valid() && At(at, p + 1)
      ensures contents == old(contents[..p - 1]) + [other.contents[k - 1]] + old(contents[p - 1..])
      ensures fresh(Elements<Item>(nodes) - Elements<Item>(old(nodes)))
      ensures other.Valid() && other.nodes == old(other.nodes) && other.contents == old(other.contents)
      ensures other.At(next, k + 1)
    {
      assert other.nodes[k].next == other.nodes[k + 1] && other.nodes[k].data == other.contents[k - 1];
      var item := Insert(at, i.data, p);
      next := i.next;
    }

    /** The inner loop of vdl_list_sort: put `value` before the first item that is not strictly lower. */
    method Place(value: Pointer, lower: (Pointer, Pointer) -> bool)
      requires Valid()
      modifies this, Elements<Item>(nodes)
      ensures Valid() && contents == Inserted(old(contents), value, lower)
      ensures fresh(Elements<Item>(nodes) - Elements<Item>(old(nodes)))
    {
      assert nodes[0].next == nodes[1];
      var j: Item := head.next;
      var insertion := tail;
      ghost var q := 1;
      while j != tail
        invariant 0 < q && At(j, q) && insertion == tail
        invariant forall k :: 0 <= k < q - 1 ==> lower(contents[k], value)
        decreases |nodes| - q
      {
        assert nodes[q].next == nodes[q + 1] && nodes[q].data == contents[q - 1];
        if !lower(j.data, value) {
          insertion := j;
          break;
        }
        j := j.next;
        q := q + 1;
      }
      InsertedBefore(contents, value, lower, q - 1);
      var item := Insert(insertion, value, q);
    }

    /** vdl_list_sort: an insertion sort through a second list. */
    method Sort(lower: (Pointer, Pointer) -> bool)
      requires Valid()
      modifies this, Elements<Item>(nodes)
      ensures Valid() && contents == InsertionSorted(old(contents), lower)
      ensures fresh(Elements<Item>(nodes) - {head, tail})
    {
      var sorted := new LinkedList();
      FillSorted(sorted, lower);
      Clear();
      CopyAll(sorted);
    }

    /** The copy at the end of vdl_list_sort. */
    method CopyAll(other: LinkedList)
      requires Valid() && nodes == [head, tail] && other.Valid() && other != this
      requires Elements<Item>(nodes) !! Elements<Item>(other.nodes)
      modifies this, Elements<Item>(nodes)
      ensures Valid() && contents == other.contents && fresh(Elements<Item>(nodes) - {head, tail})
      ensures other.contents == old(other.contents)
    {
      assert nodes[0].next == nodes[1] && other.nodes[0].next == other.nodes[1];
      InsertRange(head.next, 1, other, other.head.next, other.tail, 1, |other.nodes| - 1);
    }

    /** The outer loop of vdl_list_sort. */
    method FillSorted(sorted: LinkedList, lower: (Pointer, Pointer) -> bool)
      requires Valid() && sorted.Valid() && sorted.contents == []
      requires sorted != this && Elements<Item>(nodes) !! Elements<Item>(sorted.nodes)
      modifies sorted, Elements<Item>(sorted.nodes)
      ensures sorted.Valid() && sorted.contents == InsertionSorted(contents, lower)
      ensures fresh(Elements<Item>(sorted.nodes) - Elements<Item>(old(sorted.nodes)))
      ensures Elements<Item>(nodes) !! Elements<Item>(sorted.nodes)
    {
      assert nodes[0].next == nodes[1];
      var i: Item := head.next;
      ghost var p := 1;
      while i != tail
        invariant Valid() && 0 < p && At(i, p) && sorted.Valid()
        invariant Elements<Item>(nodes) !! Elements<Item>(sorted.nodes)
        invariant fresh(Elements<Item>(sorted.nodes) - Elements<Item>(old(sorted.nodes)))
        invariant sorted.contents == InsertionSorted(contents[..p - 1], lower)
        decreases |nodes| - p
      {
        assert nodes[p].next == nodes[p + 1] && nodes[p].data == contents[p - 1];
        ghost var front := contents[..p];
        assert front[..p - 1] == contents[..p - 1];
        sorted.Place(i.data, lower);
        i := i.next;
        p := p + 1;
      }
      assert contents[..p - 1] == contents;
    }

    /** vdl_list_unicize: only the first occurrence of each pointer stays. */
    method Unicize()
      requires Valid()
      modifies this, Elements<Item>(nodes)
      ensures Valid() && contents == Unicized(old(contents))
      ensures Elements<Item>(nodes) <= Elements<Item>(old(nodes))
    {
      assert nodes[0].next == nodes[1];
      var i: Item := head.next;
      ghost var p := 1;
      while i != tail
        invariant Valid() && At(i, p) && 0 < p
        invariant Elements<Item>(nodes) <= Elements<Item>(old(nodes))
        invariant Unicized(contents) == Unicized(old(contents)) && Settled(contents, p - 1)
        decreases |nodes| - p
      {
        EraseLater(i, p);
        assert i.next == nodes[p + 1] by {
          assert nodes[p].next == nodes[p + 1];
        }
        i := i.next;
        p := p + 1;
      }
      UnicizedKeepsDistinct(contents);
    }

    /** The inner loop of vdl_list_unicize: the later occurrences of one item's pointer go. */
    method EraseLater(i: Item, ghost p: nat)
      requires Valid() && At(i, p) && 0 < p < |nodes| - 1 && Settled(contents, p - 1)
      modifies this, Elements<Item>(nodes)
      ensures Valid() && At(i, p) && p < |nodes| - 1 && |nodes| <= old(|nodes|)
      ensures Elements<Item>(nodes) <= Elements<Item>(old(nodes))
      ensures Unicized(contents) == Unicized(old(contents)) && Settled(contents, p)
    {
      assert nodes[p].next == nodes[p + 1] && nodes[p].data == contents[p - 1];
      var next, q := FindFrom(i.next, i.data, p + 1);
      while next != tail
        invariant Valid() && At(i, p) && p < q && At(next, q) && |nodes| <= old(|nodes|)
        invariant Elements<Item>(nodes) <= Elements<Item>(old(nodes))
        invariant NoneBetween(p, q) && Settled(contents, p - 1) && Unicized(contents) == Unicized(old(contents))
        decreases |nodes| - q
      {
        next, q := EraseOneLater(i, next, p, q);
      }
      assert contents[p..q - 1] == contents[p..];
    }

    /** What position p stores occurs next at position q, if q is not the end. */
    ghost predicate NoneBetween(p: nat, q: nat)
      reads this`contents, this`nodes
    {
      && 0 < p < q < |nodes| && |nodes| == |contents| + 2
      && contents[p - 1] !in contents[p..q - 1]
      && (q < |nodes| - 1 ==> contents[q - 1] == contents[p - 1])
    }

    method EraseOneLater(i: Item, next: Item, ghost p: nat, ghost q: nat) returns (after: Item, ghost r: nat)
      requires Valid() && At(i, p) && At(next, q) && NoneBetween(p, q) && next != tail && Settled(contents, p - 1)
      modifies this, Elements<Item>(nodes)
      ensures Valid() && At(i, p) && At(after, r) && NoneBetween(p, r)
      ensures |nodes| == old(|nodes|) - 1 && q <= r && Elements<Item>(nodes) <= Elements<Item>(old(nodes))
      ensures Settled(contents, p - 1) && Unicized(contents) == Unicized(old(contents))
    {
      UnicizedErased(contents, p - 1, q - 1);
      SettledErased(contents, p - 1, q - 1);
      assert nodes[p].data == contents[p - 1];
      ghost var was := contents;
      after, r := EraseAndFind(next, i.data, q);
      BetweenJoined(was, contents, p, q, r);
    }
  }

  /** What lies between positions p and r once position q is gone. */
  lemma BetweenJoined<T>(was: seq<T>, now: seq<T>, p: nat, q: nat, r: nat)
    requires p < q <= |was| && q <= r <= |now| + 1 && now == was[..q - 1] + was[q..]
    ensures now[p..r - 1] == was[p..q - 1] + now[q - 1..r - 1]
  {
  }

  /** The first n elements occur nowhere else. */
  ghost predicate Settled<T>(s: seq<T>, n: nat) {
    n <= |s| && forall i, j :: 0 <= i < n && i < j < |s| ==> s[i] != s[j]
  }

  lemma SettledErased<T>(s: seq<T>, n: nat, k: nat)
    requires Settled(s, n) && n <= k < |s|
    ensures Settled(s[..k] + s[k + 1..], n)
  {
  }
}
