/**
 * The binary min-heap of the feb-13 controller (MinHeap.js): a list of
 * [node, priority] entries kept in heap order, with the root at index 0.
 * Payloads are node ids of the arena, so the source's identity test `===`
 * on nodes is equality of ids.
 */
module MinHeap {
  import opened Wrappers
  import opened SeqUtil

  /** The `[node, priority]` pair the heap stores. */
  datatype Entry = Entry(node: int, priority: real)

  /** `getParentIndex(index)`: `Math.floor((index - 1) / 2)`. */
  function ParentIndex(index: int): (p: int)
    ensures p == (index - 1) / 2
    ensures index > 0 ==> 0 <= p < index
    ensures index == 0 ==> p == -1
  {
    var q, r := (index - 1) / 2, (index - 1) % 2;
    assert index - 1 == 2 * q + r && (r == 0 || r == 1);
    assert (index - 1) as real / 2.0 == q as real + r as real / 2.0;
    ((index - 1) as real / 2.0).Floor
  }

  /** `getLeftChildIndex(index)`. */
  function LeftChildIndex(index: int): (c: int)
    ensures index >= 0 ==> c > index
  {
    2 * index + 1
  }

  /** `getRightChildIndex(index)`. */
  function RightChildIndex(index: int): (c: int)
    ensures index >= 0 ==> c > index
  {
    2 * index + 2
  }

  /** Both children of index point back to it, and every non-root index is a child of its parent. */
  lemma ParentOfChildren(index: int)
    requires index >= 0
    ensures ParentIndex(LeftChildIndex(index)) == index
    ensures ParentIndex(RightChildIndex(index)) == index
    ensures index > 0 ==> LeftChildIndex(ParentIndex(index)) == index || RightChildIndex(ParentIndex(index)) == index
  {
    assert (2 * index + 1 - 1) / 2 == index;
    assert (2 * index + 2 - 1) / 2 == index;
  }

  /** Every index lies below its left and its right child. */
  lemma ChildOf(index: int, c: int)
    requires index >= 0 && c > 0 && (c - 1) / 2 == index
    ensures c == LeftChildIndex(index) || c == RightChildIndex(index)
  {
  }

  /** The entry at k, k > 0, is no smaller than its parent. */
  ghost predicate Ordered(h: seq<Entry>, k: int)
    requires 0 < k < |h|
  {
    h[(k - 1) / 2].priority <= h[k].priority
  }

  /** No entry's priority is below its parent's. */
  ghost predicate IsHeap(h: seq<Entry>) {
    forall k :: 0 < k < |h| ==> Ordered(h, k)
  }

  /** No two entries carry the same node. */
  ghost predicate Distinct(h: seq<Entry>) {
    forall a, b :: 0 <= a < b < |h| ==> h[a].node != h[b].node
  }

  /** The nodes the heap holds. */
  ghost function Nodes(h: seq<Entry>): set<int> {
    set e | e in h :: e.node
  }

  /** Heap order holds between every pair except index i and its parent. */
  ghost predicate HeapBut(h: seq<Entry>, i: int) {
    forall k :: 0 < k < |h| && k != i ==> Ordered(h, k)
  }

  /** Heap order holds between every pair except those with i as parent or child. */
  ghost predicate HeapAround(h: seq<Entry>, i: int) {
    forall k :: 0 < k < |h| && k != i && (k - 1) / 2 != i ==> Ordered(h, k)
  }

  /** The parent of i is no greater than the children of i. */
  ghost predicate SpansParent(h: seq<Entry>, i: int) {
    0 < i < |h| ==>
      forall c :: 0 < c < |h| && (c - 1) / 2 == i ==> h[(i - 1) / 2].priority <= h[c].priority
  }

  /** In heap order the root carries a minimum priority. */
  lemma {:induction false} RootIsMinimal(h: seq<Entry>, k: int)
    requires IsHeap(h) && 0 <= k < |h|
    ensures h[0].priority <= h[k].priority
    decreases k
  {
    if k > 0 {
      assert Ordered(h, k);
      RootIsMinimal(h, (k - 1) / 2);
    }
  }

  lemma SwappedDistinct(h: seq<Entry>, i: int, j: int)
    requires Distinct(h) && 0 <= i < |h| && 0 <= j < |h|
    ensures Distinct(Swapped(h, i, j)) && Nodes(Swapped(h, i, j)) == Nodes(h)
  {
    var s := Swapped(h, i, j);
    forall a, b | 0 <= a < b < |s|
      ensures s[a].node != s[b].node
    {
      var a' := if a == i then j else if a == j then i else a;
      var b' := if b == i then j else if b == j then i else b;
      assert s[a] == h[a'] && s[b] == h[b'] && a' != b';
    }
    SwappedPermutes(h, i, j);
    assert forall e :: e in s <==> e in multiset(s);
  }

  /** One step of `heapifyUp`: exchanging i with a greater parent moves the fault to the parent. */
  lemma UpStep(h: seq<Entry>, i: int)
    requires 0 < i < |h| && HeapBut(h, i) && SpansParent(h, i)
    requires h[i].priority < h[(i - 1) / 2].priority
    ensures HeapBut(Swapped(h, i, (i - 1) / 2), (i - 1) / 2)
    ensures SpansParent(Swapped(h, i, (i - 1) / 2), (i - 1) / 2)
  {
    var p := (i - 1) / 2;
    var s := Swapped(h, i, p);
    forall k | 0 < k < |s| && k != p
      ensures Ordered(s, k)
    {
      if k == i {
        assert s[k] == h[p] && s[p] == h[i];
        if p > 0 {
          assert Ordered(h, p);
        }
      } else if (k - 1) / 2 == i {
        assert s[i] == h[p] && s[k] == h[k];
      } else if (k - 1) / 2 == p {
        assert s[p] == h[i] && s[k] == h[k] && Ordered(h, k);
      } else {
        assert s[k] == h[k] && s[(k - 1) / 2] == h[(k - 1) / 2] && Ordered(h, k);
      }
    }
    if 0 < p {
      forall c | 0 < c < |s| && (c - 1) / 2 == p
        ensures s[(p - 1) / 2].priority <= s[c].priority
      {
        assert s[(p - 1) / 2] == h[(p - 1) / 2] && Ordered(h, p);
        if c != i {
          assert s[c] == h[c] && Ordered(h, c);
        }
      }
    }
  }

  /** In heap order the fault-tolerant forms hold for every index. */
  lemma HeapSpans(h: seq<Entry>, i: int)
    requires IsHeap(h)
    ensures HeapBut(h, i) && HeapAround(h, i) && SpansParent(h, i)
  {
    if 0 < i < |h| {
      forall c | 0 < c < |h| && (c - 1) / 2 == i
        ensures h[(i - 1) / 2].priority <= h[c].priority
      {
        assert Ordered(h, i) && Ordered(h, c);
      }
    }
  }

  /** One step of `heapifyDown`: exchanging i with its least child s moves the fault to s. */
  lemma DownStep(h: seq<Entry>, i: int, s: int)
    requires 0 <= i < s < |h| && (s - 1) / 2 == i
    requires HeapAround(h, i) && SpansParent(h, i)
    requires LeftChildIndex(i) < |h| ==> h[s].priority <= h[LeftChildIndex(i)].priority
    requires RightChildIndex(i) < |h| ==> h[s].priority <= h[RightChildIndex(i)].priority
    requires h[s].priority < h[i].priority
    ensures HeapAround(Swapped(h, i, s), s) && SpansParent(Swapped(h, i, s), s)
    ensures var t := Swapped(h, i, s); 0 < i ==> t[(i - 1) / 2].priority <= t[i].priority
    ensures var t := Swapped(h, i, s); t[i].priority <= t[s].priority
  {
    var t := Swapped(h, i, s);
    forall k | 0 < k < |t| && k != s && (k - 1) / 2 != s
      ensures Ordered(t, k)
    {
      if k == i {
        assert t[i] == h[s] && t[(k - 1) / 2] == h[(k - 1) / 2];
        assert h[(i - 1) / 2].priority <= h[s].priority;
      } else if (k - 1) / 2 == i {
        ChildOf(i, k);
        assert t[i] == h[s] && t[k] == h[k];
      } else {
        assert t[k] == h[k] && t[(k - 1) / 2] == h[(k - 1) / 2] && Ordered(h, k);
      }
    }
    forall c | 0 < c < |t| && (c - 1) / 2 == s
      ensures t[(s - 1) / 2].priority <= t[c].priority
    {
      assert t[(s - 1) / 2] == h[s] && t[c] == h[c] && Ordered(h, c);
    }
  }

  /**
   * Putting the last entry in place of the one at i and dropping the last
   * position (what `dequeue` does at 0, and `remove` through `swap` and `pop`)
   * loses exactly the entry at i and leaves heap order faulty only around i.
   */
  lemma ReplacedByLast(h: seq<Entry>, i: int, t: seq<Entry>)
    requires IsHeap(h) && Distinct(h) && 0 <= i < |h| && t == h[i := h[|h| - 1]][..|h| - 1]
    ensures |t| == |h| - 1 && Distinct(t)
    ensures forall e :: e in t <==> e in h && e.node != h[i].node
    ensures multiset(t) == multiset(h) - multiset{h[i]}
    ensures i < |t| ==> HeapAround(t, i) && SpansParent(t, i)
    ensures i == |t| ==> IsHeap(t)
  {
    ReplacedDistinct(h, i, t);
    ReplacedMembers(h, i, t);
    ReplacedMultiset(h, i, t);
    ReplacedOrder(h, i, t);
  }

  lemma ReplacedMultiset<T>(h: seq<T>, i: int, t: seq<T>)
    requires 0 <= i < |h| && t == h[i := h[|h| - 1]][..|h| - 1]
    ensures multiset(t) == multiset(h) - multiset{h[i]}
  {
    var u := h[i := h[|h| - 1]];
    assert multiset(u) == multiset(h) - multiset{h[i]} + multiset{h[|h| - 1]};
    DropLast(u);
    assert u[..|h| - 1] == t;
  }

  lemma ReplacedDistinct(h: seq<Entry>, i: int, t: seq<Entry>)
    requires Distinct(h) && 0 <= i < |h| && t == h[i := h[|h| - 1]][..|h| - 1]
    ensures Distinct(t)
  {
    forall a, b | 0 <= a < b < |t|
      ensures t[a].node != t[b].node
    {
      var a' := if a == i then |h| - 1 else a;
      var b' := if b == i then |h| - 1 else b;
      assert t[a] == h[a'] && t[b] == h[b'] && a' != b';
    }
  }

  lemma ReplacedMembers(h: seq<Entry>, i: int, t: seq<Entry>)
    requires Distinct(h) && 0 <= i < |h| && t == h[i := h[|h| - 1]][..|h| - 1]
    ensures forall e :: e in t <==> e in h && e.node != h[i].node
  {
    var n := |h|;
    forall e
      ensures e in t <==> e in h && e.node != h[i].node
    {
      if e in t {
        var k :| 0 <= k < |t| && t[k] == e;
        var k' := if k == i then n - 1 else k;
        assert h[k'] == e && k' != i;
      }
      if e in h && e.node != h[i].node {
        var k :| 0 <= k < n && h[k] == e;
        if k == n - 1 {
          assert t[i] == e;
        } else {
          assert k != i && t[k] == e;
        }
      }
    }
  }

  lemma ReplacedOrder(h: seq<Entry>, i: int, t: seq<Entry>)
    requires IsHeap(h) && 0 <= i < |h| && t == h[i := h[|h| - 1]][..|h| - 1]
    ensures i < |t| ==> HeapAround(t, i) && SpansParent(t, i)
    ensures i == |t| ==> IsHeap(t)
  {
    forall k | 0 < k < |t| && k != i && (k - 1) / 2 != i
      ensures Ordered(t, k)
    {
      assert t[k] == h[k] && t[(k - 1) / 2] == h[(k - 1) / 2] && Ordered(h, k);
    }
    if 0 < i < |t| {
      forall c | 0 < c < |t| && (c - 1) / 2 == i
        ensures t[(i - 1) / 2].priority <= t[c].priority
      {
        assert t[(i - 1) / 2] == h[(i - 1) / 2] && t[c] == h[c] && Ordered(h, i) && Ordered(h, c);
      }
    }
  }

  /** Sequences holding the same multiset hold the same entries. */
  lemma SameMembers(a: seq<Entry>, b: seq<Entry>)
    requires multiset(a) == multiset(b)
    ensures |a| == |b| && forall e :: e in a <==> e in b
  {
    assert |multiset(a)| == |a| && |multiset(b)| == |b|;
    forall e
      ensures e in a <==> e in b
    {
      assert e in a <==> e in multiset(a);
      assert e in b <==> e in multiset(b);
    }
  }

  class MinHeap {
    var heap: seq<Entry>

    /** Heap order, and at most one entry per node (what `enqueue` keeps). */
    ghost predicate Valid()
      reads this
    {
      IsHeap(heap) && Distinct(heap)
    }

    /** `new MinHeap()`: the empty heap. */
    constructor()
      ensures heap == [] && Valid()
    {
      heap := [];
    }

    /** `isEmpty()`. */
    function IsEmpty(): (b: bool)
      reads this
      ensures b <==> |heap| == 0
      ensures b <==> Nodes(heap) == {}
    {
      assert |heap| > 0 ==> heap[0].node in Nodes(heap);
      |heap| == 0
    }

    /** `peek()`: `heap[0]`, the whole entry, or `undefined` on an empty heap. */
    function Peek(): (r: Option<Entry>)
      reads this
      ensures r.None? <==> |heap| == 0
      ensures r.Some? ==> r.value in heap
      ensures r.Some? && Valid() ==> forall k :: 0 <= k < |heap| ==> r.value.priority <= heap[k].priority
    {
      if |heap| == 0 then None
      else
        assert Valid() ==> forall k :: 0 <= k < |heap| ==> heap[0].priority <= heap[k].priority by {
          if Valid() {
            forall k | 0 <= k < |heap| { RootIsMinimal(heap, k); }
          }
        }
        Some(heap[0])
    }

    /** `swap(index1, index2)`. */
    method SwapEntries(index1: int, index2: int)
      requires 0 <= index1 < |heap| && 0 <= index2 < |heap|
      modifies this
      ensures heap == Swapped(old(heap), index1, index2)
    {
      var temp := heap[index1];
      heap := heap[index1 := heap[index2]];
      heap := heap[index2 := temp];
    }

    /** `findIndex(node)`: the first position holding `node`, or -1. */
    method FindIndex(node: int) returns (index: int)
      ensures -1 <= index < |heap|
      ensures index == -1 <==> node !in Nodes(heap)
      ensures index >= 0 ==> heap[index].node == node && forall k :: 0 <= k < index ==> heap[k].node != node
    {
      for i := 0 to |heap|
        invariant forall k :: 0 <= k < i ==> heap[k].node != node
      {
        if heap[i].node == node {
          return i;
        }
      }
      assert forall e :: e in heap ==> e.node != node by {
        forall e | e in heap ensures e.node != node {
          var k :| 0 <= k < |heap| && heap[k] == e;
        }
      }
      return -1;
    }

    /** `contains(node)` of the zombie-game heap, taken as `findIndex(node) !== -1`. */
    method Contains(node: int) returns (b: bool)
      ensures b <==> node in Nodes(heap)
    {
      var index := FindIndex(node);
      b := index != -1;
    }

    /** `heapifyUp(index)`: moves the entry at index up while it is below its parent. */
    method HeapifyUp(index: int)
      requires 0 <= index < |heap| && HeapBut(heap, index) && SpansParent(heap, index) && Distinct(heap)
      modifies this
      ensures IsHeap(heap) && Distinct(heap)
      ensures multiset(heap) == multiset(old(heap)) && Nodes(heap) == Nodes(old(heap))
      decreases index
    {
      if index > 0 {
        var parentIndex := ParentIndex(index);
        if heap[index].priority < heap[parentIndex].priority {
          UpStep(heap, index);
          SwappedPermutes(heap, index, parentIndex);
          SwappedDistinct(heap, index, parentIndex);
          SwapEntries(index, parentIndex);
          HeapifyUp(parentIndex);
        }
      }
    }

    /**
     * `heapifyDown(index)`: moves the entry at index down, each time below the
     * least of its children, while a child is smaller. The entry's relation to
     * its own parent is left as it was, for `remove` to settle with `heapifyUp`.
     */
    method HeapifyDown(index: int)
      requires 0 <= index && HeapAround(heap, index) && SpansParent(heap, index) && Distinct(heap)
      modifies this
      ensures |heap| == old(|heap|) && Distinct(heap)
      ensures multiset(heap) == multiset(old(heap)) && Nodes(heap) == Nodes(old(heap))
      ensures HeapBut(heap, index) && SpansParent(heap, index)
      ensures 0 < index < |heap| && old(heap[(index - 1) / 2].priority <= heap[index].priority) ==> IsHeap(heap)
      decreases |heap| - index
    {
      var leftChildIndex := LeftChildIndex(index);
      var rightChildIndex := RightChildIndex(index);
      var smallest := index;
      if leftChildIndex < |heap| && heap[leftChildIndex].priority < heap[smallest].priority {
        smallest := leftChildIndex;
      }
      if rightChildIndex < |heap| && heap[rightChildIndex].priority < heap[smallest].priority {
        smallest := rightChildIndex;
      }
      if smallest != index {
        ParentOfChildren(index);
        DownStep(heap, index, smallest);
        SwappedPermutes(heap, index, smallest);
        SwappedDistinct(heap, index, smallest);
        SwapEntries(index, smallest);
        HeapifyDown(smallest);
        HeapSpans(heap, index);
      } else {
        forall c | 0 < c < |heap| && (c - 1) / 2 == index
          ensures Ordered(heap, c)
        {
          ChildOf(index, c);
        }
      }
    }
    /** `remove(node)`: drops the entry for `node` if there is one and restores heap order. */
    method Remove(node: int)
      requires Valid()
      modifies this
      ensures Valid()
      ensures forall e :: e in heap <==> e in old(heap) && e.node != node
      ensures |heap| == |old(heap)| - (if node in Nodes(old(heap)) then 1 else 0)
      ensures Nodes(heap) == Nodes(old(heap)) - {node}
      ensures node !in Nodes(old(heap)) ==> heap == old(heap)
    {
      var index := FindIndex(node);
      if index == -1 {
        return;
      }
      ghost var h := heap;
      SwapEntries(index, |heap| - 1);
      heap := heap[..|heap| - 1];
      assert heap == h[index := h[|h| - 1]][..|h| - 1];
      ReplacedByLast(h, index, heap);
      assert node in Nodes(h) by { assert h[index] in h; }
      ghost var t := heap;
      if index < |heap| {
        HeapifyDown(index);
        HeapifyUp(index);
      }
      SameMembers(t, heap);
      NodesAfterRemoval(h, heap, node);
    }

    /** `enqueue(node, priority)`: the entry for `node` afterwards, whether new or updated, is `[node, priority]`. */
    method Enqueue(node: int, priority: real)
      requires Valid()
      modifies this
      ensures Valid()
      ensures forall e :: e in heap <==> (e in old(heap) && e.node != node) || e == Entry(node, priority)
      ensures |heap| == |old(heap)| + (if node in Nodes(old(heap)) then 0 else 1)
      ensures Nodes(heap) == Nodes(old(heap)) + {node}
    {
      ghost var h := heap;
      Remove(node);
      ghost var r := heap;
      heap := heap + [Entry(node, priority)];
      assert Distinct(heap) by {
        forall a, b | 0 <= a < b < |heap|
          ensures heap[a].node != heap[b].node
        {
          if b == |heap| - 1 {
            assert heap[a] == r[a] && r[a] in r;
          } else {
            assert heap[a] == r[a] && heap[b] == r[b];
          }
        }
      }
      HeapSpans(r, |heap| - 1);
      assert HeapBut(heap, |heap| - 1) by {
        forall k | 0 < k < |heap| && k != |heap| - 1
          ensures Ordered(heap, k)
        {
          assert Ordered(r, k);
        }
      }
      ghost var t := heap;
      HeapifyUp(|heap| - 1);
      SameMembers(t, heap);
      assert forall e :: e in t <==> e in r || e == Entry(node, priority);
      NodesAfterEnqueue(h, heap, Entry(node, priority));
    }

    /**
     * `updatePriority(node, priority)` of the zombie-game heap, taken as
     * `enqueue`: the one entry for `node` now carries `priority`.
     */
    method UpdatePriority(node: int, priority: real)
      requires Valid() && node in Nodes(heap)
      modifies this
      ensures Valid()
      ensures forall e :: e in heap <==> (e in old(heap) && e.node != node) || e == Entry(node, priority)
      ensures |heap| == |old(heap)| && Nodes(heap) == Nodes(old(heap))
    {
      Enqueue(node, priority);
    }

    /** `dequeue()`: `null` on an empty heap; otherwise the node of a least-priority entry, which leaves the heap. */
    method Dequeue() returns (r: Option<int>)
      requires Valid()
      modifies this
      ensures Valid()
      ensures r.None? <==> |old(heap)| == 0
      ensures r.None? ==> heap == old(heap)
      ensures r.Some? ==> r.value == old(heap[0]).node
      ensures r.Some? ==> forall e :: e in old(heap) ==> old(heap[0]).priority <= e.priority
      ensures r.Some? ==> forall e :: e in heap <==> e in old(heap) && e.node != r.value
      ensures r.Some? ==> multiset(heap) == multiset(old(heap)) - multiset{old(heap[0])} && |heap| == |old(heap)| - 1
      ensures r.Some? ==> Nodes(heap) == Nodes(old(heap)) - {r.value}
    {
      if |heap| == 0 {
        return None;
      }
      ghost var h := heap;
      var data := heap[0].node;
      heap := heap[0 := heap[|heap| - 1]];
      heap := heap[..|heap| - 1];
      ReplacedByLast(h, 0, heap);
      ghost var t := heap;
      if 0 < |heap| {
        HeapifyDown(0);
      }
      SameMembers(t, heap);
      forall e | e in h
        ensures h[0].priority <= e.priority
      {
        var k :| 0 <= k < |h| && h[k] == e;
        RootIsMinimal(h, k);
      }
      NodesAfterRemoval(h, heap, data);
      r := Some(data);
    }
  }

  /** The nodes after the removal of the entry for `x`. */
  lemma NodesAfterRemoval(h: seq<Entry>, t: seq<Entry>, x: int)
    requires forall e :: e in t <==> e in h && e.node != x
    ensures Nodes(t) == Nodes(h) - {x}
  {
  }

  /** The nodes after an update of the entry for `x.node`. */
  lemma NodesAfterEnqueue(h: seq<Entry>, t: seq<Entry>, x: Entry)
    requires forall e :: e in t <==> (e in h && e.node != x.node) || e == x
    ensures Nodes(t) == Nodes(h) + {x.node}
  {
  }
}
