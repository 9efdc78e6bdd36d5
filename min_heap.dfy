/** The binary min-heap of vertices keyed by their current distance to the
    tree that Prim.cpp's two versions of Prim's algorithm use (`MinHeap`).
    Node slots live in `heap[0..size)`, node k having children 2k+1 and
    2k+2; `position[v]` is the slot of vertex v, or -1 when v is not in the
    heap. The ghost map `keys` is what the heap holds: each vertex in it,
    with its key. */
module PrimHeap {
  import opened SortSpec
  import opened Edges

  /** `HeapNode`: a vertex with its key. */
  datatype HeapNode = HeapNode(vertex: int, key: int)

  /** What `HeapNode()` builds, and `extractMin` returns on an empty heap. */
  const Sentinel := HeapNode(-1, IntMax)

  /** A set of vertex numbers below n has at most n elements. */
  lemma {:induction false} SubsetOfRange(s: set<int>, n: nat)
    requires forall v :: v in s ==> 0 <= v < n
    ensures |s| <= n
  {
    if n == 0 {
      assert s == {} by {
        forall v | v in s ensures false {
        }
      }
    } else {
      SubsetOfRange(s - {n - 1}, n - 1);
      assert s <= (s - {n - 1}) + {n - 1};
    }
  }

  /** A vertex below the capacity that is not in the heap leaves the heap
      with room for it: fewer vertices than slots. */
  lemma Room(keys: map<int, int>, cap: nat, v: int)
    requires forall k :: k in keys ==> 0 <= k < cap
    requires 0 <= v < cap && v !in keys
    ensures |keys| < cap
  {
    SubsetOfRange(keys.Keys + {v}, cap);
  }

  /** The slot above slot i (for i > 0). */
  function Parent(i: int): int
  {
    (i - 1) / 2
  }

  /** Every node of h[0..n) has a key no smaller than its parent's. */
  ghost predicate MinOrdered(h: seq<HeapNode>, n: int)
    requires n <= |h|
  {
    forall i :: 0 < i < n ==> h[Parent(i)].key <= h[i].key
  }

  /** The state of `heapifyUp` at slot x: every edge is ordered except the
      one from x's parent to x, and x's parent is no larger than x's
      children. */
  ghost predicate SiftingUp(h: seq<HeapNode>, n: int, x: int)
  {
    && 0 <= x < n <= |h|
    && (forall i :: 0 < i < n && i != x ==> h[Parent(i)].key <= h[i].key)
    && (0 < x && 2 * x + 1 < n ==> h[Parent(x)].key <= h[2 * x + 1].key)
    && (0 < x && 2 * x + 2 < n ==> h[Parent(x)].key <= h[2 * x + 2].key)
  }

  /** The state of `heapifyDown` at slot x: every edge is ordered except the
      two from x to its children, and x's parent is no larger than x's
      children. */
  ghost predicate SiftingDown(h: seq<HeapNode>, n: int, x: int)
  {
    && 0 <= x < n <= |h|
    && (forall i :: 0 < i < n && Parent(i) != x ==> h[Parent(i)].key <= h[i].key)
    && (0 < x && 2 * x + 1 < n ==> h[Parent(x)].key <= h[2 * x + 1].key)
    && (0 < x && 2 * x + 2 < n ==> h[Parent(x)].key <= h[2 * x + 2].key)
  }

  /** Slots and positions agree: each node of h[0..n) names a vertex below
      |pos| whose position is that slot, and each position is -1 or a slot
      of h[0..n) holding that vertex. */
  ghost predicate Indexed(h: seq<HeapNode>, pos: seq<int>, n: int)
  {
    && 0 <= n <= |h| == |pos|
    && (forall i :: 0 <= i < n ==> 0 <= h[i].vertex < |pos| && pos[h[i].vertex] == i)
    && (forall v :: 0 <= v < |pos| ==> pos[v] == -1 || (0 <= pos[v] < n && h[pos[v]].vertex == v))
  }

  /** keys holds exactly the vertices with a position, each with the key of
      its node. */
  ghost predicate Abstracts(h: seq<HeapNode>, pos: seq<int>, keys: map<int, int>)
    requires |h| == |pos|
  {
    && (forall v :: v in keys <==> 0 <= v < |pos| && pos[v] != -1)
    && (forall v :: v in keys ==> 0 <= pos[v] < |h| && keys[v] == h[pos[v]].key)
  }

  /** The root of a min-ordered heap carries the smallest key. */
  lemma {:induction false} RootIsMin(h: seq<HeapNode>, n: int, k: int)
    requires n <= |h| && MinOrdered(h, n) && 0 <= k < n
    ensures h[0].key <= h[k].key
    decreases k
  {
    if k > 0 {
      RootIsMin(h, n, Parent(k));
    }
  }

  /** swapNodes keeps slots and positions in agreement, and the keys. */
  lemma SwapTracked(h: seq<HeapNode>, pos: seq<int>, n: int, keys: map<int, int>, i: int, j: int,
                    h': seq<HeapNode>, pos': seq<int>)
    requires Indexed(h, pos, n) && Abstracts(h, pos, keys) && 0 <= i < n && 0 <= j < n
    requires Swapped(h, h', i, j) && pos' == pos[h[i].vertex := j][h[j].vertex := i]
    ensures Indexed(h', pos', n) && Abstracts(h', pos', keys)
  {
  }

  /** One step of heapifyUp: a parent larger than x swaps down into x, and
      the sift continues from the parent's slot. */
  lemma UpStep(h: seq<HeapNode>, h': seq<HeapNode>, n: int, x: int)
    requires SiftingUp(h, n, x) && 0 < x && h[x].key < h[Parent(x)].key
    requires Swapped(h, h', Parent(x), x)
    ensures SiftingUp(h', n, Parent(x))
  {
    var p := Parent(x);
    forall i | 0 < i < n && i != p ensures h'[Parent(i)].key <= h'[i].key {
      if i == x {
      } else if Parent(i) == x {
        assert i == 2 * x + 1 || i == 2 * x + 2;
      } else if Parent(i) == p {
        assert h[p].key <= h[i].key;
      } else {
        assert h[Parent(i)].key <= h[i].key;
      }
    }
    if 0 < p {
      assert h[Parent(p)].key <= h[p].key;
      if 2 * p + 1 < n && 2 * p + 1 != x {
        assert Parent(2 * p + 1) == p;
      }
      if 2 * p + 2 < n && 2 * p + 2 != x {
        assert Parent(2 * p + 2) == p;
      }
    }
  }

  /** heapifyUp stops at the root or below a parent no larger: ordered. */
  lemma UpDone(h: seq<HeapNode>, n: int, x: int)
    requires SiftingUp(h, n, x) && (x == 0 || h[Parent(x)].key <= h[x].key)
    ensures MinOrdered(h, n)
  {
  }

  /** m is the slot of least key among x and its children in h[0..n),
      x itself unless a child is strictly smaller. */
  ghost predicate SmallestChild(h: seq<HeapNode>, n: int, x: int, m: int)
    requires 0 <= x < n <= |h|
  {
    && (m == x || m == 2 * x + 1 || m == 2 * x + 2) && m < n
    && h[m].key <= h[x].key
    && (2 * x + 1 < n ==> h[m].key <= h[2 * x + 1].key)
    && (2 * x + 2 < n ==> h[m].key <= h[2 * x + 2].key)
    && (m != x ==> h[m].key < h[x].key)
  }

  /** One step of heapifyDown: x swaps with its smaller child m, which is
      smaller than x, and the sift continues from m. */
  lemma DownStep(h: seq<HeapNode>, h': seq<HeapNode>, n: int, x: int, m: int)
    requires SiftingDown(h, n, x) && SmallestChild(h, n, x, m) && m != x
    requires Swapped(h, h', x, m)
    ensures SiftingDown(h', n, m)
  {
    forall i | 0 < i < n && Parent(i) != m ensures h'[Parent(i)].key <= h'[i].key {
      if i == x {
        assert Parent(x) != x;
      } else if i == m {
      } else if Parent(i) == x {
      } else {
        assert h[Parent(i)].key <= h[i].key;
      }
    }
    if 2 * m + 1 < n {
      assert Parent(2 * m + 1) == m;
    }
    if 2 * m + 2 < n {
      assert Parent(2 * m + 2) == m;
    }
  }

  /** heapifyDown stops when x is no larger than its children: ordered. */
  lemma DownDone(h: seq<HeapNode>, n: int, x: int)
    requires SiftingDown(h, n, x) && SmallestChild(h, n, x, x)
    ensures MinOrdered(h, n)
  {
    forall i | 0 < i < n ensures h[Parent(i)].key <= h[i].key {
      if Parent(i) == x {
        assert i == 2 * x + 1 || i == 2 * x + 2;
      }
    }
  }

  /** Lowering the key in slot x of an ordered heap leaves it sifting up
      from x. */
  lemma LowerKey(h: seq<HeapNode>, h': seq<HeapNode>, n: int, x: int)
    requires n <= |h| && MinOrdered(h, n) && 0 <= x < n
    requires |h'| == |h| && Assigned(h, h', x, HeapNode(h[x].vertex, h'[x].key)) && h'[x].key <= h[x].key
    ensures SiftingUp(h', n, x)
  {
    forall i | 0 < i < n && i != x ensures h'[Parent(i)].key <= h'[i].key {
      assert h[Parent(i)].key <= h[i].key;
    }
    if 0 < x {
      assert h[Parent(x)].key <= h[x].key;
      if 2 * x + 1 < n {
        assert Parent(2 * x + 1) == x;
      }
      if 2 * x + 2 < n {
        assert Parent(2 * x + 2) == x;
      }
    }
  }

  class MinHeap {
    const capacity: nat
    const heap: array<HeapNode>
    const position: array<int>
    var size: int
    ghost var keys: map<int, int>

    /** The buffers have the constructor's sizes. */
    ghost predicate Shaped()
      reads this
    {
      heap.Length == capacity && position.Length == capacity
    }

    /** Slots, positions and keys agree. */
    ghost predicate Tracked()
      reads this, heap, position
    {
      && Shaped() && Indexed(heap[..], position[..], size) && Abstracts(heap[..], position[..], keys)
      && |keys| == size
    }

    ghost predicate Valid()
      reads this, heap, position
    {
      Tracked() && MinOrdered(heap[..], size)
    }

    /** `MinHeap(cap)`: an empty heap for the vertices 0..cap-1. */
    constructor (cap: nat)
      ensures Valid() && capacity == cap && size == 0 && keys == map[]
      ensures fresh(heap) && fresh(position)
    {
      capacity := cap;
      heap := new HeapNode[cap](_ => Sentinel);
      position := new int[cap](_ => -1);
      size := 0;
      keys := map[];
    }

    /** `isEmpty()`: no node is left, that is, no vertex. */
    method IsEmpty() returns (b: bool)
      requires Tracked()
      ensures b <==> size == 0
      ensures b <==> keys == map[]
    {
      b := size == 0;
      if b {
        assert forall v :: v !in keys;
      } else {
        assert heap[..][0].vertex in keys;
      }
    }

    /** `isInHeap(vertex)`: the vertex has a slot below size. */
    method IsInHeap(vertex: int) returns (b: bool)
      requires Tracked() && 0 <= vertex < capacity
      ensures b <==> 0 <= position[vertex] < size
      ensures b <==> vertex in keys
    {
      b := position[vertex] != -1 && position[vertex] < size;
    }

    /** A vertex below the capacity that is not in the heap fits in it. */
    lemma HasRoom(vertex: int)
      requires Tracked() && 0 <= vertex < capacity && vertex !in keys
      ensures size < capacity
    {
      Room(keys, capacity, vertex);
    }

    /** `swapNodes(i, j)`: exchanges two slots and the positions of their
        vertices. */
    method SwapNodes(i: int, j: int)
      requires Tracked() && 0 <= i < size && 0 <= j < size
      modifies heap, position
      ensures Tracked()
      ensures Swapped(old(heap[..]), heap[..], i, j)
    {
      ghost var h, pos := heap[..], position[..];
      position[heap[i].vertex] := j;
      position[heap[j].vertex] := i;
      var temp := heap[i];
      heap[i] := heap[j];
      heap[j] := temp;
      assert position[..] == pos[h[i].vertex := j][h[j].vertex := i];
      SwapTracked(h, pos, size, keys, i, j, heap[..], position[..]);
    }

    /** `heapifyUp(index)`: swap the node up while its parent is larger. */
    method HeapifyUp(index: int)
      requires Tracked() && SiftingUp(heap[..], size, index)
      modifies heap, position
      ensures Valid()
    {
      var x := index;
      while x > 0
        invariant Tracked() && SiftingUp(heap[..], size, x)
      {
        var parent := (x - 1) / 2;
        if heap[parent].key <= heap[x].key {
          break;
        }
        ghost var h := heap[..];
        SwapNodes(parent, x);
        UpStep(h, heap[..], size, x);
        x := parent;
      }
      UpDone(heap[..], size, x);
    }

    /** The choice of heapifyDown: the smaller child of x when it is
        smaller than x, else x. */
    method Smallest(x: int) returns (smallest: int)
      requires 0 <= x < size <= heap.Length
      ensures SmallestChild(heap[..], size, x, smallest)
    {
      var left := 2 * x + 1;
      var right := 2 * x + 2;
      smallest := x;
      if left < size && heap[left].key < heap[smallest].key {
        smallest := left;
      }
      if right < size && heap[right].key < heap[smallest].key {
        smallest := right;
      }
    }

    /** `heapifyDown(index)`: swap the node down with its smaller child
        while that child is smaller. */
    method HeapifyDown(index: int)
      requires Tracked() && SiftingDown(heap[..], size, index)
      modifies heap, position
      ensures Valid()
    {
      var x := index;
      while true
        invariant Tracked() && SiftingDown(heap[..], size, x)
        decreases size - x
      {
        var smallest := Smallest(x);
        if smallest == x {
          DownDone(heap[..], size, x);
          return;
        }
        ghost var h := heap[..];
        SwapNodes(x, smallest);
        DownStep(h, heap[..], size, x, smallest);
        x := smallest;
      }
    }

    /** `insert(vertex, key)`: when there is room, the new node goes into
        slot size and sifts up; a full heap ignores the call. The source
        never inserts a vertex that is already in the heap, and an absent
        vertex always finds room (HasRoom), so the full-heap branch is kept
        as in the source but cannot be taken here. */
    method Insert(vertex: int, key: int)
      requires Valid() && 0 <= vertex < capacity && vertex !in keys
      modifies this, heap, position
      ensures Valid()
      ensures old(size) < capacity ==> size == old(size) + 1 && keys == old(keys)[vertex := key]
      ensures old(size) >= capacity ==> size == old(size) && keys == old(keys)
    {
      if size >= capacity {
        return;
      }
      ghost var h, pos := heap[..], position[..];
      heap[size] := HeapNode(vertex, key);
      position[vertex] := size;
      Appended(h, pos, heap[..], position[..], size, keys, vertex, key);
      size := size + 1;
      keys := keys[vertex := key];
      HeapifyUp(size - 1);
    }

    /** `extractMin()`: an empty heap gives the sentinel node and stays as it
        is; otherwise the root, a node of least key, leaves the heap, the
        last node takes its slot and sifts down. */
    method ExtractMin() returns (min: HeapNode)
      requires Valid()
      modifies this, heap, position
      ensures Valid()
      ensures old(size) == 0 ==> min == Sentinel && size == 0 && keys == old(keys)
      ensures old(size) > 0 ==>
        && min.vertex in old(keys) && min.key == old(keys)[min.vertex]
        && (forall v :: v in old(keys) ==> min.key <= old(keys)[v])
        && keys == old(keys) - {min.vertex} && size == old(size) - 1
    {
      if size == 0 {
        return Sentinel;
      }
      ghost var h, pos := heap[..], position[..];
      forall v | v in keys ensures heap[0].key <= keys[v] {
        RootIsMin(h, size, pos[v]);
      }
      min := heap[0];
      position[min.vertex] := -1;
      heap[0] := heap[size - 1];
      if size > 1 {
        position[heap[0].vertex] := 0;
      }
      size := size - 1;
      keys := keys - {min.vertex};
      Detached(h, pos, heap[..], position[..], size, old(keys), keys, min);
      RootReplaced(h, heap[..], size);
      if size > 0 {
        HeapifyDown(0);
      }
    }

    /** `decreaseKey(vertex, newKey)`: a vertex with a slot gets the new key
        and sifts up; any other vertex is ignored. The source only ever
        lowers a key. */
    method DecreaseKey(vertex: int, newKey: int)
      requires Valid() && 0 <= vertex < capacity
      requires vertex in keys ==> newKey <= keys[vertex]
      modifies this, heap, position
      ensures Valid() && size == old(size)
      ensures keys == if vertex in old(keys) then old(keys)[vertex := newKey] else old(keys)
    {
      var pos := position[vertex];
      if pos == -1 || pos >= size {
        return;
      }
      ghost var h := heap[..];
      heap[pos] := HeapNode(heap[pos].vertex, newKey);
      keys := keys[vertex := newKey];
      LowerKey(h, heap[..], size, pos);
      HeapifyUp(pos);
    }
  }

  /** The slot bookkeeping of insert: the new node in slot n and its
      position recorded; slots, positions and keys still agree, and the heap
      sifts up from slot n. */
  lemma Appended(h: seq<HeapNode>, pos: seq<int>, h': seq<HeapNode>, pos': seq<int>, n: int,
                 keys: map<int, int>, vertex: int, key: int)
    requires 0 <= n < |h| && Indexed(h, pos, n) && Abstracts(h, pos, keys) && MinOrdered(h, n)
    requires 0 <= vertex < |pos| && vertex !in keys
    requires Assigned(h, h', n, HeapNode(vertex, key)) && pos' == pos[vertex := n]
    ensures Indexed(h', pos', n + 1) && Abstracts(h', pos', keys[vertex := key])
    ensures SiftingUp(h', n + 1, n)
  {
  }

  /** The slot bookkeeping of extractMin: the root's vertex loses its
      position, the last node moves to slot 0, and the heap shrinks by one;
      slots, positions and keys still agree. */
  lemma Detached(h: seq<HeapNode>, pos: seq<int>, h': seq<HeapNode>, pos': seq<int>, n: int,
                 keys: map<int, int>, keys': map<int, int>, min: HeapNode)
    requires 0 <= n < |h| && Indexed(h, pos, n + 1) && Abstracts(h, pos, keys) && min == h[0]
    requires Assigned(h, h', 0, h[n])
    requires pos' == if n > 0 then pos[min.vertex := -1][h[n].vertex := 0] else pos[min.vertex := -1]
    requires keys' == keys - {min.vertex}
    ensures Indexed(h', pos', n) && Abstracts(h', pos', keys')
    ensures |keys'| == |keys| - 1
  {
    var w := h[n].vertex;
    assert pos[min.vertex] == 0 && pos[w] == n;
    forall i | 0 <= i < n ensures 0 <= h'[i].vertex < |pos'| && pos'[h'[i].vertex] == i {
      if i > 0 {
        assert pos[h[i].vertex] == i;
      }
    }
    forall v | 0 <= v < |pos'| ensures pos'[v] == -1 || (0 <= pos'[v] < n && h'[pos'[v]].vertex == v) {
      if v != min.vertex && !(n > 0 && v == w) {
        assert pos'[v] == pos[v];
      }
    }
    forall v ensures v in keys' <==> 0 <= v < |pos'| && pos'[v] != -1 {
      if v != min.vertex && !(n > 0 && v == w) && 0 <= v < |pos| {
        assert pos'[v] == pos[v];
      }
    }
    forall v | v in keys' ensures 0 <= pos'[v] < |h'| && keys'[v] == h'[pos'[v]].key {
      if !(n > 0 && v == w) {
        assert pos'[v] == pos[v];
      }
    }
    assert keys'.Keys == keys.Keys - {min.vertex};
  }

  /** With the last node moved to the root, the shrunken heap sifts down
      from the root. */
  lemma RootReplaced(h: seq<HeapNode>, h': seq<HeapNode>, n: int)
    requires 0 <= n < |h| && MinOrdered(h, n + 1) && Assigned(h, h', 0, h[n])
    ensures n > 0 ==> SiftingDown(h', n, 0)
    ensures n == 0 ==> MinOrdered(h', n)
  {
  }
}
