/** Prim's algorithm of Prim.cpp, in its two versions: `primMatrix` looks
    at every cell of the extracted vertex's matrix row, `primList` at the
    entries of its neighbour row. Both grow a tree from vertex 0 with the
    min-heap of PrimHeap: a vertex leaves the heap into the tree, and every
    neighbour outside the tree whose edge is lighter than its key gets that
    edge as its key and the extracted vertex as its parent.

    The loop state is stated over the contents of the arrays parent (P),
    key (K) and inMST (T), the heap's keys, and two ghost records: the set
    `done` of extracted vertices and each vertex's extraction stamp W (its
    place in the extraction order, -1 before it). */
module Prim {
  import opened Edges
  import opened MstGraph
  import opened PrimHeap

  /** v's parent edge: the parent is in the tree, was extracted before v
      when v is in the tree too, and is joined to v by an edge whose weight
      is v's key. */
  ghost predicate ParentEdge(g: Graph, P: seq<int>, K: seq<int>, T: seq<bool>, W: seq<int>, v: int)
    reads g, g.matrix
    requires g.Shaped() && |P| == |K| == |T| == |W| == g.n && 0 <= v < g.n
  {
    && 0 <= P[v] < g.n && T[P[v]]
    && g.matrix[P[v], v] != 0 && g.matrix[P[v], v] == K[v]
    && (T[v] ==> W[P[v]] < W[v])
  }

  /** Vertex 0 is the root, with key 0 and no parent; any other vertex has a
      parent exactly when its key is below IntMax; keys never exceed IntMax. */
  ghost predicate Parents(g: Graph, P: seq<int>, K: seq<int>, T: seq<bool>, W: seq<int>)
    reads g, g.matrix
    requires g.Shaped()
  {
    && |P| == |K| == |T| == |W| == g.n && 0 < g.n
    && P[0] == -1 && K[0] == 0
    && (forall v {:trigger P[v]} :: 0 < v < g.n ==> (P[v] == -1 <==> K[v] == IntMax))
    && (forall v :: 0 <= v < g.n ==> K[v] <= IntMax)
    && (forall v {:trigger P[v]} :: 0 <= v < g.n && P[v] != -1 ==> ParentEdge(g, P, K, T, W, v))
  }

  /** done is the set of tree vertices, and exactly they carry a stamp, each
      below the number extracted so far. */
  ghost predicate Stamps(n: int, T: seq<bool>, W: seq<int>, done: set<int>)
  {
    && |T| == |W| == n
    && (forall v :: v in done <==> 0 <= v < n && T[v])
    && (forall v :: 0 <= v < n ==> (T[v] <==> 0 <= W[v]) && W[v] < |done|)
  }

  /** The heap holds exactly the vertices outside the tree with a key below
      IntMax, each with its key; tree vertices have keys below IntMax; and
      until vertex 0 is in the tree no vertex is in it and no other vertex
      has been reached. */
  ghost predicate Queue(n: int, K: seq<int>, T: seq<bool>, keys: map<int, int>)
  {
    && |K| == |T| == n && 0 < n
    && (forall v :: v in keys <==> 0 <= v < n && !T[v] && K[v] != IntMax)
    && (forall v :: v in keys ==> keys[v] == K[v])
    && (forall v :: 0 <= v < n && T[v] ==> K[v] != IntMax)
    && (T[0] || forall v :: 0 < v < n ==> !T[v] && K[v] == IntMax)
  }

  /** Each tree vertex u other than x has had its neighbours looked at:
      each is in the tree or has a key no greater than its edge from u. */
  ghost predicate ScannedExcept(g: Graph, K: seq<int>, T: seq<bool>, x: int)
    reads g, g.matrix
    requires g.Shaped() && |K| == |T| == g.n
  {
    forall u, v {:trigger g.matrix[u, v]} :: 0 <= u < g.n && 0 <= v < g.n && u != x && T[u] && g.matrix[u, v] != 0 ==>
      T[v] || K[v] <= g.matrix[u, v]
  }

  /** The state of the main loop, with x the vertex being scanned (-1
      between scans). */
  ghost predicate State(g: Graph, P: seq<int>, K: seq<int>, T: seq<bool>, W: seq<int>, done: set<int>,
                        keys: map<int, int>, x: int)
    reads g, g.matrix
    requires g.Shaped()
  {
    && Parents(g, P, K, T, W)
    && Stamps(g.n, T, W, done)
    && Queue(g.n, K, T, keys)
    && ScannedExcept(g, K, T, x)
  }

  /** The arrays of the algorithm and the heap's position array are
      different arrays, and none of them is the graph's row-size array. */
  ghost predicate Apart(g: Graph, parent: array<int>, key: array<int>, heap: MinHeap)
    reads g, heap
  {
    && parent != key && parent != heap.position && key != heap.position
    && parent != g.sizes && key != g.sizes && heap.position != g.sizes
  }

  /** Before the loop: every key IntMax but vertex 0's, which is 0; no
      parents; an empty tree; only vertex 0 in the heap. */
  lemma Initial(g: Graph, P: seq<int>, K: seq<int>, T: seq<bool>, W: seq<int>)
    requires g.Shaped() && 0 < g.n
    requires P == seq(g.n, _ => -1) && K == seq(g.n, _ => IntMax)[0 := 0]
    requires T == seq(g.n, _ => false) && W == seq(g.n, _ => -1)
    ensures State(g, P, K, T, W, {}, map[0 := 0], -1)
  {
  }

  /** The extracted vertex u enters the tree with the next stamp: the
      state holds with u as the vertex to scan, and done grows by one. */
  lemma Extracted(g: Graph, P: seq<int>, K: seq<int>, T: seq<bool>, W: seq<int>, done: set<int>,
                  keys: map<int, int>, u: int)
    requires g.Shaped() && State(g, P, K, T, W, done, keys, -1) && u in keys
    ensures 0 <= u < g.n && u !in done && |done + {u}| == |done| + 1
    ensures State(g, P, K, T[u := true], W[u := |done|], done + {u}, keys - {u}, u)
  {
    var T', W' := T[u := true], W[u := |done|];
    forall v | 0 <= v < g.n && P[v] != -1 ensures ParentEdge(g, P, K, T', W', v) {
      assert ParentEdge(g, P, K, T, W, v);
    }
  }

  /** Relaxing v from the tree vertex u, over an edge of weight w lighter
      than v's key: v gets key w and parent u, and goes into the heap with
      key w (or has its key there lowered to w). */
  lemma Relaxed(g: Graph, P: seq<int>, K: seq<int>, T: seq<bool>, W: seq<int>, done: set<int>,
                keys: map<int, int>, u: int, v: int, w: int)
    requires g.Shaped() && State(g, P, K, T, W, done, keys, u)
    requires 0 <= u < g.n && T[u] && 0 <= v < g.n && !T[v]
    requires w == g.matrix[u, v] && w != 0 && w < K[v]
    ensures v != 0 && (v in keys ==> w <= keys[v])
    ensures State(g, P[v := u], K[v := w], T, W, done, keys[v := w], u)
  {
    var P', K' := P[v := u], K[v := w];
    forall x | 0 <= x < g.n && P'[x] != -1 ensures ParentEdge(g, P', K', T, W, x) {
      if x != v {
        assert ParentEdge(g, P, K, T, W, x);
      }
    }
  }

  /** The cells of u's matrix row before j have been looked at. */
  ghost predicate RowSeen(g: Graph, K: seq<int>, T: seq<bool>, u: int, j: int)
    reads g, g.matrix
    requires g.Shaped() && |K| == |T| == g.n && 0 <= u < g.n
  {
    forall v :: 0 <= v < j && v < g.n && g.matrix[u, v] != 0 ==> T[v] || K[v] <= g.matrix[u, v]
  }

  /** The entries of u's neighbour row before i have been looked at. */
  ghost predicate EntriesSeen(g: Graph, K: seq<int>, T: seq<bool>, u: int, i: int)
    reads g, g.matrix, g.list, g.sizes
    requires g.Shaped() && g.RowsInRange() && |K| == |T| == g.n && 0 <= u < g.n && i <= g.sizes[u]
  {
    forall k :: 0 <= k < i ==> T[g.list[u, k]] || K[g.list[u, k]] <= g.matrix[u, g.list[u, k]]
  }

  /** Every key of K' is at most the corresponding key of K. */
  ghost predicate Lower(K': seq<int>, K: seq<int>)
  {
    |K'| == |K| && forall x :: 0 <= x < |K| ==> K'[x] <= K[x]
  }

  lemma LowerTrans(K'': seq<int>, K': seq<int>, K: seq<int>)
    requires Lower(K'', K') && Lower(K', K)
    ensures Lower(K'', K)
  {
  }

  /** Looking at cell (u, j) extends RowSeen by one, whatever lower keys
      the look left behind. */
  lemma RowStep(g: Graph, K: seq<int>, K': seq<int>, T: seq<bool>, u: int, j: int)
    requires g.Shaped() && |K| == |T| == g.n && 0 <= u < g.n && 0 <= j < g.n
    requires RowSeen(g, K, T, u, j) && Lower(K', K)
    requires g.matrix[u, j] != 0 ==> T[j] || K'[j] <= g.matrix[u, j]
    ensures RowSeen(g, K', T, u, j + 1)
  {
  }

  /** Looking at entry i of u's neighbour row extends EntriesSeen by one. */
  lemma EntryStep(g: Graph, K: seq<int>, K': seq<int>, T: seq<bool>, u: int, i: int)
    requires g.Shaped() && g.RowsInRange() && |K| == |T| == g.n && 0 <= u < g.n && 0 <= i < g.sizes[u]
    requires EntriesSeen(g, K, T, u, i) && Lower(K', K)
    requires T[g.list[u, i]] || K'[g.list[u, i]] <= g.matrix[u, g.list[u, i]]
    ensures EntriesSeen(g, K', T, u, i + 1)
  {
  }

  /** Once u's whole matrix row has been looked at, u is scanned too. */
  lemma RowDone(g: Graph, P: seq<int>, K: seq<int>, T: seq<bool>, W: seq<int>, done: set<int>,
                keys: map<int, int>, u: int)
    requires g.Shaped() && 0 <= u < g.n && State(g, P, K, T, W, done, keys, u) && RowSeen(g, K, T, u, g.n)
    ensures State(g, P, K, T, W, done, keys, -1)
  {
  }

  /** Once u's whole neighbour row has been looked at, u is scanned too:
      a nonzero matrix cell of u's row is an entry of its neighbour row. */
  lemma EntriesDone(g: Graph, P: seq<int>, K: seq<int>, T: seq<bool>, W: seq<int>, done: set<int>,
                    keys: map<int, int>, u: int)
    requires g.Valid() && 0 <= u < g.n && State(g, P, K, T, W, done, keys, u)
    requires EntriesSeen(g, K, T, u, g.sizes[u])
    ensures State(g, P, K, T, W, done, keys, -1)
  {
    forall v | 0 <= v < g.n && g.matrix[u, v] != 0 ensures T[v] || K[v] <= g.matrix[u, v] {
      assert v in g.Row(u);
      var k :| 0 <= k < |g.Row(u)| && g.Row(u)[k] == v;
      assert g.list[u, k] == v;
    }
  }

  /** The initialisation loop of both versions: every key IntMax, no
      parents, no vertex in the tree. */
  method Reset(parent: array<int>, key: array<int>, inMST: array<bool>)
    requires parent != key && parent.Length == key.Length == inMST.Length
    modifies parent, key, inMST
    ensures parent[..] == seq(parent.Length, _ => -1) && key[..] == seq(key.Length, _ => IntMax)
    ensures inMST[..] == seq(inMST.Length, _ => false)
  {
    for i := 0 to key.Length
      invariant forall v :: 0 <= v < i ==> key[v] == IntMax && parent[v] == -1 && !inMST[v]
    {
      key[i] := IntMax;
      parent[i] := -1;
      inMST[i] := false;
    }
  }

  /** The initialisation of primMatrix and primList: the arrays, the heap,
      every key IntMax and no parents, then key 0 for vertex 0, which goes
      into the heap. */
  method Start(g: Graph) returns (parent: array<int>, key: array<int>, inMST: array<bool>, heap: MinHeap,
                                  ghost W: seq<int>)
    requires g.Shaped() && 0 < g.n
    ensures fresh(parent) && fresh(key) && fresh(inMST) && fresh(heap) && fresh(heap.heap) && fresh(heap.position)
    ensures parent.Length == key.Length == inMST.Length == g.n
    ensures Apart(g, parent, key, heap) && heap.Valid() && heap.capacity == g.n
    ensures State(g, parent[..], key[..], inMST[..], W, {}, heap.keys, -1)
  {
    var n := g.n;
    parent := new int[n];
    key := new int[n];
    inMST := new bool[n];
    Reset(parent, key, inMST);
    heap := new MinHeap(n);
    key[0] := 0;
    heap.HasRoom(0);
    heap.Insert(0, 0);
    W := seq(n, _ => -1);
    Initial(g, parent[..], key[..], inMST[..], W);
  }

  /** The head of the loop body: extractMin and `inMST[u] = true`. */
  method Visit(g: Graph, parent: array<int>, key: array<int>, inMST: array<bool>, heap: MinHeap,
               ghost W: seq<int>, ghost done: set<int>)
      returns (u: int, ghost W': seq<int>, ghost done': set<int>)
    requires g.Shaped() && Apart(g, parent, key, heap) && heap.Valid() && heap.capacity == g.n
    requires State(g, parent[..], key[..], inMST[..], W, done, heap.keys, -1) && heap.keys != map[]
    modifies inMST, heap, heap.heap, heap.position
    ensures heap.Valid() && parent[..] == old(parent[..]) && key[..] == old(key[..])
    ensures 0 <= u < g.n && u !in done && done' == done + {u} && |done'| == |done| + 1 <= g.n
    ensures State(g, parent[..], key[..], inMST[..], W', done', heap.keys, u)
  {
    ghost var keys, T := heap.keys, inMST[..];
    var node := heap.ExtractMin();
    u := node.vertex;
    Extracted(g, parent[..], key[..], T, W, done, keys, u);
    inMST[u] := true;
    W' := W[u := |done|];
    done' := done + {u};
    assert inMST[..] == T[u := true];
    SubsetOfRange(done', g.n);
  }

  /** The update of a neighbour v of u: `key[v] = weight; parent[v] = u`,
      then decreaseKey if v is in the heap, insert otherwise. */
  method Relax(g: Graph, parent: array<int>, key: array<int>, heap: MinHeap, u: int, v: int, weight: int,
               ghost T: seq<bool>, ghost W: seq<int>, ghost done: set<int>)
    requires g.Shaped() && Apart(g, parent, key, heap) && heap.Valid() && heap.capacity == g.n
    requires State(g, parent[..], key[..], T, W, done, heap.keys, u)
    requires 0 <= u < g.n && T[u] && 0 <= v < g.n && !T[v]
    requires weight == g.matrix[u, v] && weight != 0 && weight < key[v]
    modifies parent, key, heap, heap.heap, heap.position
    ensures heap.Valid()
    ensures parent[..] == old(parent[..])[v := u] && key[..] == old(key[..])[v := weight]
    ensures Lower(key[..], old(key[..]))
    ensures State(g, parent[..], key[..], T, W, done, heap.keys, u)
  {
    Relaxed(g, parent[..], key[..], T, W, done, heap.keys, u, v, weight);
    key[v] := weight;
    parent[v] := u;
    var present := heap.IsInHeap(v);
    if present {
      heap.DecreaseKey(v, key[v]);
    } else {
      heap.HasRoom(v);
      heap.Insert(v, key[v]);
    }
  }

  /** The inner loop of primMatrix: every v whose matrix cell in u's row is
      nonzero, that is not in the tree, and whose key exceeds the cell, is
      relaxed. Keys only decrease. */
  method ScanMatrix(g: Graph, parent: array<int>, key: array<int>, inMST: array<bool>, heap: MinHeap, u: int,
                    ghost W: seq<int>, ghost done: set<int>)
    requires g.Shaped() && Apart(g, parent, key, heap) && heap.Valid() && heap.capacity == g.n
    requires 0 <= u < g.n && inMST.Length == g.n && inMST[u]
    requires State(g, parent[..], key[..], inMST[..], W, done, heap.keys, u)
    modifies parent, key, heap, heap.heap, heap.position
    ensures heap.Valid() && State(g, parent[..], key[..], inMST[..], W, done, heap.keys, -1)
    ensures Lower(key[..], old(key[..]))
  {
    ghost var T, K0 := inMST[..], key[..];
    var v := 0;
    while v < g.n
      invariant 0 <= v <= g.n && heap.Valid() && inMST[..] == T
      invariant State(g, parent[..], key[..], T, W, done, heap.keys, u)
      invariant RowSeen(g, key[..], T, u, v) && Lower(key[..], K0)
    {
      ghost var K := key[..];
      if g.matrix[u, v] != 0 && !inMST[v] && g.matrix[u, v] < key[v] {
        Relax(g, parent, key, heap, u, v, g.matrix[u, v], T, W, done);
      }
      RowStep(g, K, key[..], T, u, v);
      LowerTrans(key[..], K, K0);
      v := v + 1;
    }
    RowDone(g, parent[..], key[..], T, W, done, heap.keys, u);
  }

  /** The inner loop of primList: every neighbour v in u's row that is not
      in the tree and whose key exceeds the weight the matrix records for
      the edge is relaxed. Keys only decrease. */
  method ScanList(g: Graph, parent: array<int>, key: array<int>, inMST: array<bool>, heap: MinHeap, u: int,
                  ghost W: seq<int>, ghost done: set<int>)
    requires g.Valid() && Apart(g, parent, key, heap) && heap.Valid() && heap.capacity == g.n
    requires 0 <= u < g.n && inMST.Length == g.n && inMST[u]
    requires State(g, parent[..], key[..], inMST[..], W, done, heap.keys, u)
    modifies parent, key, heap, heap.heap, heap.position
    ensures heap.Valid() && State(g, parent[..], key[..], inMST[..], W, done, heap.keys, -1)
    ensures Lower(key[..], old(key[..]))
  {
    ghost var T, K0 := inMST[..], key[..];
    var i := 0;
    while i < g.sizes[u]
      invariant 0 <= i <= g.sizes[u] && heap.Valid() && inMST[..] == T
      invariant State(g, parent[..], key[..], T, W, done, heap.keys, u)
      invariant EntriesSeen(g, key[..], T, u, i) && Lower(key[..], K0)
    {
      var v := g.list[u, i];
      var weight := g.matrix[u, v];
      ghost var K := key[..];
      if !inMST[v] && weight < key[v] {
        Relax(g, parent, key, heap, u, v, weight, T, W, done);
      }
      EntryStep(g, K, key[..], T, u, i);
      LowerTrans(key[..], K, K0);
      i := i + 1;
    }
    EntriesDone(g, parent[..], key[..], T, W, done, heap.keys, u);
  }

  /** result lists, in increasing order of v and for the vertices
      1 <= v < i that have a parent, the edge (parent[v], v) weighted as the
      matrix records it. */
  ghost predicate Emitted(g: Graph, P: seq<int>, result: seq<Edge>, i: int)
    reads g, g.matrix
    requires g.Shaped() && |P| == g.n && forall v :: 0 <= v < g.n ==> -1 <= P[v] < g.n
  {
    && (forall k :: 0 <= k < |result| ==>
          1 <= result[k].end < i && result[k].end < g.n && P[result[k].end] != -1
          && result[k] == Edge(P[result[k].end], result[k].end, g.matrix[result[k].end, P[result[k].end]]))
    && (forall v :: 1 <= v < i && v < g.n && P[v] != -1 ==> Edge(P[v], v, g.matrix[v, P[v]]) in result)
    && (forall k :: 0 < k < |result| ==> result[k - 1].end < result[k].end)
  }

  /** Looking at vertex i extends Emitted by one vertex: its parent edge
      is appended when it has a parent. */
  lemma EmitStep(g: Graph, P: seq<int>, result: seq<Edge>, i: int)
    requires g.Shaped() && |P| == g.n && forall v :: 0 <= v < g.n ==> -1 <= P[v] < g.n
    requires 1 <= i < g.n && Emitted(g, P, result, i)
    ensures P[i] != -1 ==> Emitted(g, P, result + [Edge(P[i], i, g.matrix[i, P[i]])], i + 1)
    ensures P[i] == -1 ==> Emitted(g, P, result, i + 1)
  {
  }

  /** The result loop of both versions: for i = 1 .. n-1 with a parent,
      the edge (parent[i], i) and its weight are appended and added to the
      total. */
  method BuildResult(g: Graph, parent: array<int>) returns (result: seq<Edge>, total: int)
    requires g.Shaped() && parent.Length == g.n && 0 < g.n
    requires forall v :: 0 <= v < g.n ==> -1 <= parent[v] < g.n
    ensures Emitted(g, parent[..], result, g.n)
    ensures total == SumWeights(result) && |result| <= g.n - 1
  {
    ghost var P := parent[..];
    result, total := [], 0;
    for i := 1 to g.n
      invariant Emitted(g, P, result, i) && total == SumWeights(result) && |result| <= i - 1
    {
      result, total := EmitVertex(g, parent, P, result, total, i);
    }
  }

  /** One round of the result loop: vertex i's parent edge, when it has a
      parent, is appended and its weight added. */
  method EmitVertex(g: Graph, parent: array<int>, ghost P: seq<int>, result: seq<Edge>, total: int, i: int)
      returns (result': seq<Edge>, total': int)
    requires g.Shaped() && P == parent[..] && |P| == g.n && forall v :: 0 <= v < g.n ==> -1 <= P[v] < g.n
    requires 1 <= i < g.n && Emitted(g, P, result, i) && total == SumWeights(result) && |result| <= i - 1
    ensures Emitted(g, P, result', i + 1) && total' == SumWeights(result') && |result'| <= i
  {
    EmitStep(g, P, result, i);
    result', total' := result, total;
    if parent[i] != -1 {
      var e := Edge(parent[i], i, g.matrix[i, parent[i]]);
      assert e == Edge(P[i], i, g.matrix[i, P[i]]);
      SumSnoc(result, e);
      result' := result + [e];
      total' := total + e.weight;
    }
  }

  /** What Prim's algorithm builds: a tree grown from vertex 0 and stamped
      in growth order. tree holds vertex 0 and is closed under the edges of
      g lighter than IntMax (so it holds every vertex that such edges reach
      from 0); each edge of result is an edge of g joining a tree vertex to a
      tree vertex stamped later; every tree vertex but 0 is the end of an
      edge of result, the ends in increasing order, hence each the end of
      exactly one edge; there are at most n - 1 edges. */
  ghost predicate SpanningTree(g: Graph, result: seq<Edge>, tree: set<int>, when: seq<int>)
    reads g, g.matrix
    requires g.Shaped()
  {
    && 0 in tree && |when| == g.n && |result| <= g.n - 1
    && (forall v :: v in tree ==> 0 <= v < g.n)
    && (forall u, v :: u in tree && 0 <= v < g.n && g.matrix[u, v] != 0 && g.matrix[u, v] < IntMax ==> v in tree)
    && (forall k :: 0 <= k < |result| ==>
          g.IsEdge(result[k]) && result[k].start in tree && result[k].end in tree
          && when[result[k].start] < when[result[k].end])
    && (forall v :: v in tree && v != 0 ==> exists k :: 0 <= k < |result| && result[k].end == v)
    && (forall k :: 0 < k < |result| ==> result[k - 1].end < result[k].end)
  }

  /** Parents are vertices or -1. */
  lemma ParentsInRange(g: Graph, P: seq<int>, K: seq<int>, T: seq<bool>, W: seq<int>)
    requires g.Shaped() && Parents(g, P, K, T, W)
    ensures forall v :: 0 <= v < g.n ==> -1 <= P[v] < g.n
  {
    forall v | 0 <= v < g.n && P[v] != -1 ensures 0 <= P[v] < g.n {
      assert ParentEdge(g, P, K, T, W, v);
    }
  }

  /** With the heap empty, the tree is all vertices reached, and the result
      loop emits exactly the tree's parent edges. */
  lemma Conclude(g: Graph, P: seq<int>, K: seq<int>, T: seq<bool>, W: seq<int>, done: set<int>,
                 result: seq<Edge>)
    requires g.Valid() && State(g, P, K, T, W, done, map[], -1)
    requires forall v :: 0 <= v < g.n ==> -1 <= P[v] < g.n
    requires Emitted(g, P, result, g.n) && |result| <= g.n - 1
    ensures SpanningTree(g, result, done, W)
  {
    var empty: map<int, int> := map[];
    assert T[0] by {
      assert 0 !in empty;
    }
    forall k | 0 <= k < |result|
      ensures g.IsEdge(result[k]) && result[k].start in done && result[k].end in done
      ensures W[result[k].start] < W[result[k].end]
    {
      var v := result[k].end;
      assert ParentEdge(g, P, K, T, W, v);
      assert v !in empty;
    }
    forall v | v in done && v != 0 ensures exists k :: 0 <= k < |result| && result[k].end == v {
      assert P[v] != -1;
      var k :| 0 <= k < |result| && result[k] == Edge(P[v], v, g.matrix[v, P[v]]);
    }
    forall u, v | u in done && 0 <= v < g.n && g.matrix[u, v] != 0 && g.matrix[u, v] < IntMax
      ensures v in done
    {
      assert v !in empty;
    }
  }

  /** The end of both versions: once the heap is empty, the result loop
      emits the spanning tree of the vertices reached. */
  method Emit(g: Graph, parent: array<int>, ghost K: seq<int>, ghost T: seq<bool>, ghost W: seq<int>,
              ghost done: set<int>) returns (result: seq<Edge>, total: int)
    requires g.Valid() && parent.Length == g.n && State(g, parent[..], K, T, W, done, map[], -1)
    ensures SpanningTree(g, result, done, W) && total == SumWeights(result)
  {
    ParentsInRange(g, parent[..], K, T, W);
    result, total := BuildResult(g, parent);
    Conclude(g, parent[..], K, T, W, done, result);
  }

  /** One round of the main loop of `primMatrix()`: the vertex of least key
      leaves the heap into the tree and its matrix row are scanned; the loop goes
      on while the heap is not empty. */
  method StepMatrix(g: Graph, parent: array<int>, key: array<int>, inMST: array<bool>, heap: MinHeap,
                 ghost W: seq<int>, ghost done: set<int>) returns (empty: bool, ghost W': seq<int>, ghost done': set<int>)
    requires g.Shaped() && Apart(g, parent, key, heap) && heap.Valid() && heap.capacity == g.n
    requires parent.Length == key.Length == inMST.Length == g.n
    requires State(g, parent[..], key[..], inMST[..], W, done, heap.keys, -1) && heap.keys != map[]
    modifies parent, key, inMST, heap, heap.heap, heap.position
    ensures heap.Valid() && State(g, parent[..], key[..], inMST[..], W', done', heap.keys, -1)
    ensures |done'| == |done| + 1 <= g.n
    ensures empty <==> heap.keys == map[]
  {
    var u;
    u, W', done' := Visit(g, parent, key, inMST, heap, W, done);
    ScanMatrix(g, parent, key, inMST, heap, u, W', done');
    empty := heap.IsEmpty();
  }

  /** `primMatrix()`: the tree grown from vertex 0, scanning matrix rows;
      the total is the weight of the emitted edges. */
  method PrimMatrix(g: Graph) returns (result: seq<Edge>, total: int, ghost tree: set<int>, ghost when: seq<int>)
    requires g.Valid() && 0 < g.n
    ensures SpanningTree(g, result, tree, when)
    ensures total == SumWeights(result)
  {
    var parent, key, inMST, heap, W := Start(g);
    ghost var done: set<int> := {};
    var empty := heap.IsEmpty();
    while !empty
      invariant Apart(g, parent, key, heap) && heap.Valid() && heap.capacity == g.n
      invariant parent.Length == key.Length == inMST.Length == g.n && |done| <= g.n
      invariant State(g, parent[..], key[..], inMST[..], W, done, heap.keys, -1)
      invariant empty <==> heap.keys == map[]
      decreases g.n - |done|
    {
      empty, W, done := StepMatrix(g, parent, key, inMST, heap, W, done);
    }
    result, total := Emit(g, parent, key[..], inMST[..], W, done);
    tree, when := done, W;
  }

  /** One round of the main loop of `primList()`: the vertex of least key
      leaves the heap into the tree and its neighbour row are scanned; the loop goes
      on while the heap is not empty. */
  method StepList(g: Graph, parent: array<int>, key: array<int>, inMST: array<bool>, heap: MinHeap,
                 ghost W: seq<int>, ghost done: set<int>) returns (empty: bool, ghost W': seq<int>, ghost done': set<int>)
    requires g.Valid() && Apart(g, parent, key, heap) && heap.Valid() && heap.capacity == g.n
    requires parent.Length == key.Length == inMST.Length == g.n
    requires State(g, parent[..], key[..], inMST[..], W, done, heap.keys, -1) && heap.keys != map[]
    modifies parent, key, inMST, heap, heap.heap, heap.position
    ensures heap.Valid() && State(g, parent[..], key[..], inMST[..], W', done', heap.keys, -1)
    ensures |done'| == |done| + 1 <= g.n
    ensures empty <==> heap.keys == map[]
  {
    var u;
    u, W', done' := Visit(g, parent, key, inMST, heap, W, done);
    ScanList(g, parent, key, inMST, heap, u, W', done');
    empty := heap.IsEmpty();
  }

  /** `primList()`: the same, scanning neighbour rows. */
  method PrimList(g: Graph) returns (result: seq<Edge>, total: int, ghost tree: set<int>, ghost when: seq<int>)
    requires g.Valid() && 0 < g.n
    ensures SpanningTree(g, result, tree, when)
    ensures total == SumWeights(result)
  {
    var parent, key, inMST, heap, W := Start(g);
    ghost var done: set<int> := {};
    var empty := heap.IsEmpty();
    while !empty
      invariant Apart(g, parent, key, heap) && heap.Valid() && heap.capacity == g.n
      invariant parent.Length == key.Length == inMST.Length == g.n && |done| <= g.n
      invariant State(g, parent[..], key[..], inMST[..], W, done, heap.keys, -1)
      invariant empty <==> heap.keys == map[]
      decreases g.n - |done|
    {
      empty, W, done := StepList(g, parent, key, inMST, heap, W, done);
    }
    result, total := Emit(g, parent, key[..], inMST[..], W, done);
    tree, when := done, W;
  }
}
