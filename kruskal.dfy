/** Kruskal's algorithm of Kruskal.cpp: list the graph's edges once each
    (from the matrix, or from the neighbour rows), heap-sort them by weight,
    then take them in order, keeping an edge exactly when the union-find
    forest puts its endpoints in different trees.

    Components is the reference the union-find forest is checked against:
    the connected components of a set of edges, as labels built up one edge
    at a time. Forest says each edge joined two different components when
    it was added, that is, the edges contain no cycle. */
module Kruskal {
  import opened SortSpec
  import opened Edges
  import opened MstGraph
  import opened UnionFind
  import HeapSort

  /** Every endpoint is a vertex 0..n-1. */
  predicate EdgesIn(n: int, es: seq<Edge>)
  {
    forall k :: 0 <= k < |es| ==> 0 <= es[k].start < n && 0 <= es[k].end < n
  }

  /** The labels after the class of b is folded into the class of a: two
      vertices share a label when they did, or one was with a and the other
      with b. */
  ghost function Merge(lab: seq<int>, a: int, b: int): (r: seq<int>)
    requires 0 <= a < |lab| && 0 <= b < |lab|
    ensures |r| == |lab|
    ensures forall j, k :: 0 <= j < |lab| && 0 <= k < |lab| ==>
      (r[j] == r[k] <==> (lab[j] == lab[k] || (lab[j] == lab[a] && lab[k] == lab[b]) || (lab[j] == lab[b] && lab[k] == lab[a])))
  {
    seq(|lab|, j requires 0 <= j < |lab| => if lab[j] == lab[b] then lab[a] else lab[j])
  }

  /** Component labels of the graph on 0..n-1 with edge list es. */
  ghost function Components(n: nat, es: seq<Edge>): (lab: seq<int>)
    requires EdgesIn(n, es)
    ensures |lab| == n
    decreases |es|
  {
    if |es| == 0 then seq(n, v => v)
    else Merge(Components(n, es[..|es| - 1]), es[|es| - 1].start, es[|es| - 1].end)
  }

  /** a and b are joined by a path of edges from es. */
  ghost predicate Connected(n: nat, es: seq<Edge>, a: int, b: int)
    requires EdgesIn(n, es) && 0 <= a < n && 0 <= b < n
  {
    Components(n, es)[a] == Components(n, es)[b]
  }

  /** No edge of es closes a cycle with the edges before it. */
  ghost predicate Forest(n: nat, es: seq<Edge>)
    requires EdgesIn(n, es)
  {
    forall k :: 0 <= k < |es| ==> !Connected(n, es[..k], es[k].start, es[k].end)
  }

  /** The distinct labels in use. */
  ghost function Labels(lab: seq<int>): set<int>
  {
    set j | 0 <= j < |lab| :: lab[j]
  }

  lemma LabelsSnoc(s: seq<int>, x: int)
    ensures Labels(s + [x]) == Labels(s) + {x}
  {
    var t := s + [x];
    forall y | y in Labels(t) ensures y in Labels(s) + {x} {
      var j :| 0 <= j < |t| && t[j] == y;
      if j < |s| {
        assert s[j] == y;
      }
    }
    forall y | y in Labels(s) ensures y in Labels(t) {
      var j :| 0 <= j < |s| && s[j] == y;
      assert t[j] == y;
    }
    assert t[|s|] == x;
  }

  /** At the start every vertex is its own component. */
  lemma {:induction false} IdentityLabels(n: nat)
    ensures |Labels(seq(n, v => v))| == n
  {
    if n > 0 {
      var id, id' := seq(n, v => v), seq(n - 1, v => v);
      IdentityLabels(n - 1);
      assert id == id' + [n - 1];
      LabelsSnoc(id', n - 1);
      assert n - 1 !in Labels(id');
    }
  }

  /** Merging two different classes removes exactly one label. */
  lemma MergeDropsLabel(lab: seq<int>, a: int, b: int)
    requires 0 <= a < |lab| && 0 <= b < |lab| && lab[a] != lab[b]
    ensures Labels(Merge(lab, a, b)) == Labels(lab) - {lab[b]}
    ensures |Labels(Merge(lab, a, b))| == |Labels(lab)| - 1
  {
    var r := Merge(lab, a, b);
    forall x | x in Labels(r) ensures x in Labels(lab) - {lab[b]} {
      var j :| 0 <= j < |r| && r[j] == x;
      if lab[j] == lab[b] {
        assert r[j] == r[a];
      }
    }
    forall x | x in Labels(lab) - {lab[b]} ensures x in Labels(r) {
      var j :| 0 <= j < |lab| && lab[j] == x;
      assert r[j] == x;
    }
    assert lab[b] in Labels(lab);
  }

  /** A forest on n vertices leaves n - |es| components. */
  lemma {:induction false} ForestComponents(n: nat, es: seq<Edge>)
    requires EdgesIn(n, es) && Forest(n, es)
    ensures |Labels(Components(n, es))| == n - |es|
    decreases |es|
  {
    if |es| == 0 {
      IdentityLabels(n);
    } else {
      var k := |es| - 1;
      var pre := es[..k];
      assert forall j :: 0 <= j < k ==> pre[..j] == es[..j];
      assert Forest(n, pre);
      ForestComponents(n, pre);
      MergeDropsLabel(Components(n, pre), es[k].start, es[k].end);
    }
  }

  /** A forest on n >= 1 vertices has at most n - 1 edges. */
  lemma ForestSize(n: nat, es: seq<Edge>)
    requires 1 <= n && EdgesIn(n, es) && Forest(n, es)
    ensures |es| <= n - 1
  {
    ForestComponents(n, es);
    assert Components(n, es)[0] in Labels(Components(n, es));
  }

  /** A forest with n - 1 edges connects all n vertices. */
  lemma FullForestSpans(n: nat, es: seq<Edge>, a: int, b: int)
    requires 1 <= n && EdgesIn(n, es) && Forest(n, es) && |es| == n - 1
    requires 0 <= a < n && 0 <= b < n
    ensures Connected(n, es, a, b)
  {
    var lab := Components(n, es);
    ForestComponents(n, es);
    assert lab[a] in Labels(lab) && lab[b] in Labels(lab);
    assert |Labels(lab) - {lab[a]}| == 0;
  }

  /** An edge between two components extends a forest. */
  lemma ForestGrows(n: nat, es: seq<Edge>, e: Edge)
    requires EdgesIn(n, es) && 0 <= e.start < n && 0 <= e.end < n
    requires Forest(n, es) && !Connected(n, es, e.start, e.end)
    ensures EdgesIn(n, es + [e]) && Forest(n, es + [e])
    ensures Components(n, es + [e]) == Merge(Components(n, es), e.start, e.end)
  {
    var es' := es + [e];
    SnocPrefix(es, e);
    assert forall k :: 0 <= k < |es| ==> es'[..k] == es[..k];
  }

  /** The union-find forest and the labels group the vertices alike. */
  ghost predicate Mirrors(p: seq<int>, rk: seq<int>, lab: seq<int>)
  {
    && ValidForest(p, rk) && |lab| == |p|
    && forall a, b :: 0 <= a < |p| && 0 <= b < |p| ==> (Root(p, rk, a) == Root(p, rk, b) <==> lab[a] == lab[b])
  }

  /** Finding roots changes no root, so the forest still mirrors the labels. */
  lemma MirrorsAfterFind(p0: seq<int>, p: seq<int>, rk: seq<int>, lab: seq<int>)
    requires Mirrors(p0, rk, lab) && ValidForest(p, rk) && |p| == |p0|
    requires forall j :: 0 <= j < |p| ==> Root(p, rk, j) == Root(p0, rk, j)
    ensures Mirrors(p, rk, lab)
  {
  }

  /** Uniting the roots x, y of a and b mirrors merging their labels. */
  lemma MirrorsAfterUnion(p0: seq<int>, rk0: seq<int>, p: seq<int>, rk: seq<int>, lab: seq<int>, a: int, b: int, r: seq<int>)
    requires Mirrors(p0, rk0, lab) && ValidForest(p, rk) && |p| == |p0|
    requires 0 <= a < |p| && 0 <= b < |p| && r == Merge(lab, a, b)
    requires forall j, k :: 0 <= j < |p| && 0 <= k < |p| ==>
      (Same(p, rk, j, k) <==> Joined(p0, rk0, Root(p0, rk0, a), Root(p0, rk0, b), j, k))
    ensures Mirrors(p, rk, r)
  {
    var x, y := Root(p0, rk0, a), Root(p0, rk0, b);
    assert Root(p0, rk0, x) == x && Root(p0, rk0, y) == y;
    forall j, k | 0 <= j < |p| && 0 <= k < |p|
      ensures Root(p, rk, j) == Root(p, rk, k) <==> r[j] == r[k]
    {
      assert Same(p, rk, j, k) <==> Joined(p0, rk0, x, y, j, k);
      assert Same(p0, rk0, j, x) <==> lab[j] == lab[a];
      assert Same(p0, rk0, j, y) <==> lab[j] == lab[b];
      assert Same(p0, rk0, k, x) <==> lab[k] == lab[a];
      assert Same(p0, rk0, k, y) <==> lab[k] == lab[b];
      assert Same(p0, rk0, j, k) <==> lab[j] == lab[k];
    }
  }

  /** What holds of the kept edges after i of the sorted edges have been
      considered. */
  ghost predicate Greedy(edges: seq<Edge>, n: nat, i: int, result: seq<Edge>, total: int)
  {
    && 0 <= i <= |edges| && EdgesIn(n, edges) && SortedBy(edges, Weight)
    && EdgesIn(n, result) && Forest(n, result) && |result| <= n - 1
    && total == SumWeights(result)
    && Chosen(edges, i, result)
    && (forall k :: 0 <= k < i ==> Connected(n, result, edges[k].start, edges[k].end))
  }

  /** result is taken from edges[..i], in order of weight, and weighs no more
      than any edge still to come. */
  ghost predicate Chosen(edges: seq<Edge>, i: int, result: seq<Edge>)
    requires 0 <= i <= |edges|
  {
    && SortedBy(result, Weight)
    && (forall k :: 0 <= k < |result| ==> result[k] in edges[..i])
    && (forall j, k :: 0 <= j < |result| && i <= k < |edges| ==> result[j].weight <= edges[k].weight)
  }

  /** Skipping an edge whose endpoints are already connected. */
  lemma Skip(edges: seq<Edge>, n: nat, i: int, result: seq<Edge>, total: int)
    requires Greedy(edges, n, i, result, total) && i < |edges|
    requires Connected(n, result, edges[i].start, edges[i].end)
    ensures Greedy(edges, n, i + 1, result, total)
  {
    PrefixGrows(edges, i);
  }

  /** Keeping an edge e = edges[i] whose endpoints lie in different
      components. */
  lemma Keep(edges: seq<Edge>, n: nat, i: int, result: seq<Edge>, total: int, e: Edge)
    requires Greedy(edges, n, i, result, total) && i < |edges| && e == edges[i] && |result| < n - 1
    requires !Connected(n, result, e.start, e.end)
    ensures Greedy(edges, n, i + 1, result + [e], total + e.weight)
    ensures Components(n, result + [e]) == Merge(Components(n, result), e.start, e.end)
  {
    ForestGrows(n, result, e);
    SnocPrefix(result, e);
    PrefixGrows(edges, i);
    StillConnected(n, result, e, edges, i);
  }

  /** Adding e keeps connected what was connected, and connects e's ends. */
  lemma StillConnected(n: nat, result: seq<Edge>, e: Edge, edges: seq<Edge>, i: int)
    requires EdgesIn(n, result) && EdgesIn(n, edges) && 0 <= i < |edges| && e == edges[i]
    requires Components(n, result + [e]) == Merge(Components(n, result), e.start, e.end)
    requires forall k :: 0 <= k < i ==> Connected(n, result, edges[k].start, edges[k].end)
    ensures EdgesIn(n, result + [e])
    ensures forall k :: 0 <= k < i + 1 ==> Connected(n, result + [e], edges[k].start, edges[k].end)
  {
    var lab := Components(n, result);
    forall k | 0 <= k < i + 1
      ensures Connected(n, result + [e], edges[k].start, edges[k].end)
    {
      if k < i {
        assert lab[edges[k].start] == lab[edges[k].end];
      }
    }
  }

  /** The kept branch of the main loop: e's ends have the different roots
      x and y, so e is kept, its weight added, and the two trees united. */
  method Join(parent: array<int>, rank: array<int>, ghost edges: seq<Edge>, e: Edge, n: nat, i: int,
              result: seq<Edge>, total: int, x: int, y: int) returns (result': seq<Edge>, total': int)
    requires parent != rank && 0 <= i < |edges| && e == edges[i] && |result| < n - 1
    requires Greedy(edges, n, i, result, total)
    requires |parent[..]| == n && Mirrors(parent[..], rank[..], Components(n, result))
    requires 0 <= e.start < n && 0 <= e.end < n && x != y
    requires x == Root(parent[..], rank[..], e.start) && y == Root(parent[..], rank[..], e.end)
    modifies parent, rank
    ensures Greedy(edges, n, i + 1, result', total') && result' == result + [e]
    ensures |parent[..]| == n && Mirrors(parent[..], rank[..], Components(n, result'))
  {
    ghost var p1, rk1 := parent[..], rank[..];
    ghost var lab := Components(n, result);
    result' := result + [e];
    total' := total + e.weight;
    Keep(edges, n, i, result, total, e);
    Union(parent, rank, x, y);
    MirrorsAfterUnion(p1, rk1, parent[..], rank[..], lab, e.start, e.end, Components(n, result'));
  }

  /** One turn of the main loop: find both roots; if they differ, keep the
      edge, add its weight and unite the two trees. */
  method Consider(parent: array<int>, rank: array<int>, ghost edges: seq<Edge>, e: Edge, n: nat, i: int, result: seq<Edge>, total: int)
      returns (result': seq<Edge>, total': int)
    requires parent != rank && 0 <= i < |edges| && e == edges[i] && |result| < n - 1
    requires Greedy(edges, n, i, result, total)
    requires |parent[..]| == n && Mirrors(parent[..], rank[..], Components(n, result))
    modifies parent, rank
    ensures Greedy(edges, n, i + 1, result', total')
    ensures |parent[..]| == n && Mirrors(parent[..], rank[..], Components(n, result'))
    ensures result' == result || result' == result + [e]
  {
    ghost var p0 := parent[..];
    ghost var lab := Components(n, result);
    var x := Find(parent, rank, e.start);
    var y := Find(parent, rank, e.end);
    MirrorsAfterFind(p0, parent[..], rank[..], lab);
    if x != y {
      result', total' := Join(parent, rank, edges, e, n, i, result, total, x, y);
    } else {
      Skip(edges, n, i, result, total);
      result', total' := result, total;
    }
  }

  /** The union-find arrays of the source before the main loop:
      `parent[i] = i; rank[i] = 0`, every vertex its own tree. */
  method InitForest(n: nat) returns (parent: array<int>, rank: array<int>)
    ensures fresh(parent) && fresh(rank) && parent != rank && parent.Length == n
    ensures Mirrors(parent[..], rank[..], Components(n, []))
  {
    parent := new int[n];
    rank := new int[n];
    var v := 0;
    while v < n
      invariant 0 <= v <= n && rank.Length == n
      invariant forall j :: 0 <= j < v ==> parent[j] == j && rank[j] == 0
    {
      parent[v] := v;
      rank[v] := 0;
      v := v + 1;
    }
    assert ValidForest(parent[..], rank[..]);
    assert forall j :: 0 <= j < n ==> Root(parent[..], rank[..], j) == j;
  }

  /** The main loop: edges taken in sorted order until n - 1 are kept. The
      kept edges form a forest, in order of weight, with total their weight
      sum; and every edge of the list ends up with its endpoints connected
      by kept edges. */
  method TakeEdges(edges: array<Edge>, count: int, n: nat) returns (result: seq<Edge>, total: int)
    requires 1 <= n && 0 <= count <= edges.Length
    requires EdgesIn(n, edges[..count]) && SortedBy(edges[..count], Weight)
    ensures EdgesIn(n, result) && Forest(n, result) && |result| <= n - 1
    ensures total == SumWeights(result) && SortedBy(result, Weight)
    ensures forall k :: 0 <= k < |result| ==> result[k] in edges[..count]
    ensures Spans(n, result, edges[..count])
  {
    ghost var es := edges[..count];
    var parent, rank := InitForest(n);
    result, total := [], 0;
    var i := 0;
    while i < count && |result| < n - 1
      invariant parent != rank && Greedy(es, n, i, result, total)
      invariant |parent[..]| == n && Mirrors(parent[..], rank[..], Components(n, result))
      decreases count - i
    {
      var e := edges[i];
      assert e == es[i];
      result, total := Consider(parent, rank, es, e, n, i, result, total);
      i := i + 1;
    }
    Finish(es, n, i, result, total);
    assert es == edges[..count];
  }

  /** Every edge of es has its endpoints connected by edges of result. */
  ghost predicate Spans(n: nat, result: seq<Edge>, es: seq<Edge>)
    requires EdgesIn(n, result) && EdgesIn(n, es)
  {
    forall k :: 0 <= k < |es| ==> Connected(n, result, es[k].start, es[k].end)
  }

  /** Whether the loop ran out of edges or kept n - 1 of them, every edge of
      the list has its endpoints connected by kept edges. */
  lemma Finish(edges: seq<Edge>, n: nat, i: int, result: seq<Edge>, total: int)
    requires 1 <= n && Greedy(edges, n, i, result, total) && (i == |edges| || |result| == n - 1)
    ensures Spans(n, result, edges)
    ensures forall k :: 0 <= k < |result| ==> result[k] in edges
  {
    if i < |edges| {
      forall k | 0 <= k < |edges|
        ensures Connected(n, result, edges[k].start, edges[k].end)
      {
        FullForestSpans(n, result, edges[k].start, edges[k].end);
      }
    }
    forall k | 0 <= k < |result| ensures result[k] in edges {
      assert result[k] in edges[..i];
    }
  }

  /** e is an edge of g listed from its lower endpoint. */
  ghost predicate UpperEdge(g: Graph, e: Edge)
    reads g, g.matrix
    requires g.Shaped()
  {
    g.IsEdge(e) && e.start < e.end
  }

  /** Every entry of es is an edge of g listed from its lower endpoint. */
  ghost predicate UpperEdges(g: Graph, es: seq<Edge>)
    reads g, g.matrix
    requires g.Shaped()
  {
    forall k :: 0 <= k < |es| ==> UpperEdge(g, es[k])
  }

  /** Cell (u, v) comes before cell (i, j) in row-major order. */
  predicate Before(u: int, v: int, i: int, j: int)
  {
    u < i || (u == i && v < j)
  }

  /** es holds every edge (u, v) of g with u < v whose cell comes before
      (i, j) in row-major order. */
  ghost predicate HasEdgesBefore(g: Graph, es: seq<Edge>, i: int, j: int)
    reads g, g.matrix
    requires g.Shaped()
  {
    forall u, v :: 0 <= u < v < g.n && Before(u, v, i, j) && g.matrix[u, v] != 0 ==> Edge(u, v, g.matrix[u, v]) in es
  }

  /** es holds every edge (u, v) of g with u < v. */
  ghost predicate HasAllEdges(g: Graph, es: seq<Edge>)
    reads g, g.matrix
    requires g.Shaped()
  {
    HasEdgesBefore(g, es, g.n, 0)
  }

  /** The edges are in strictly increasing row-major order of their cells,
      so no edge is listed twice. */
  predicate RowMajor(es: seq<Edge>)
  {
    forall k :: 0 < k < |es| ==> Before(es[k - 1].start, es[k - 1].end, es[k].start, es[k].end)
  }

  /** The state of the matrix scan about to look at cell (i, j). */
  ghost predicate ScannedTo(g: Graph, es: seq<Edge>, i: int, j: int)
    reads g, g.matrix
    requires g.Shaped()
  {
    && UpperEdges(g, es)
    && (forall k :: 0 <= k < |es| ==> Before(es[k].start, es[k].end, i, j))
    && HasEdgesBefore(g, es, i, j)
    && RowMajor(es)
  }

  /** Looking at cell (i, j): a nonzero weight is appended as an edge. */
  lemma ScanCell(g: Graph, es: seq<Edge>, i: int, j: int)
    requires g.Shaped() && 0 <= i < j < g.n && ScannedTo(g, es, i, j)
    ensures g.matrix[i, j] != 0 ==> ScannedTo(g, es + [Edge(i, j, g.matrix[i, j])], i, j + 1)
    ensures g.matrix[i, j] == 0 ==> ScannedTo(g, es, i, j + 1)
  {
    if g.matrix[i, j] != 0 {
      var es' := es + [Edge(i, j, g.matrix[i, j])];
      assert forall k :: 0 <= k < |es| ==> es'[k] == es[k];
    }
  }

  /** The end of row i is the start of row i + 1 (whose first cell is
      (i + 1, i + 2), the cells left of it lying on or below the diagonal). */
  lemma NextRow(g: Graph, es: seq<Edge>, i: int)
    requires g.Shaped() && 0 <= i < g.n && ScannedTo(g, es, i, g.n)
    ensures ScannedTo(g, es, i + 1, i + 2)
  {
  }

  lemma {:induction false} MulLe(a: nat, b: nat, c: nat)
    requires a <= b
    ensures a * c <= b * c
    decreases c
  {
    if c > 0 {
      MulLe(a, b, c - 1);
      assert a * c == a * (c - 1) + a && b * c == b * (c - 1) + b;
    }
  }

  /** Row i of an n-by-n scan ends at (i + 1) * n, within n * n. */
  lemma RowBounds(n: nat, i: nat)
    requires i < n
    ensures (i + 1) * n == i * n + n <= n * n
  {
    MulLe(i + 1, n, n);
  }

  /** The inner loop of the matrix scan: row i, cells i + 1 .. n - 1. */
  method ScanRow(g: Graph, edges: array<Edge>, count: int, i: int) returns (count': int)
    requires g.Shaped() && 0 <= i < g.n && edges.Length == g.n * g.n
    requires 0 <= count <= i * g.n <= edges.Length && ScannedTo(g, edges[..count], i, i + 1)
    modifies edges
    ensures count <= count' <= (i + 1) * g.n <= edges.Length && ScannedTo(g, edges[..count'], i + 1, i + 2)
  {
    var n := g.n;
    RowBounds(n, i);
    count' := count;
    var j := i + 1;
    while j < n
      invariant i + 1 <= j <= n && count <= count' <= count + j
      invariant ScannedTo(g, edges[..count'], i, j)
    {
      ScanCell(g, edges[..count'], i, j);
      if g.matrix[i, j] != 0 {
        edges[count'] := Edge(i, j, g.matrix[i, j]);
        count' := count' + 1;
        assert edges[..count'] == edges[..count' - 1] + [Edge(i, j, g.matrix[i, j])];
      }
      j := j + 1;
    }
    NextRow(g, edges[..count'], i);
  }

  /** The scan of kruskalMatrix: for i < j, every nonzero matrix cell (i, j)
      becomes Edge(i, j, weight), row by row, each edge once. */
  method MatrixEdges(g: Graph) returns (edges: array<Edge>, count: int)
    requires g.Valid()
    ensures fresh(edges) && edges.Length == g.n * g.n && 0 <= count <= edges.Length
    ensures UpperEdges(g, edges[..count]) && HasAllEdges(g, edges[..count]) && RowMajor(edges[..count])
  {
    var n := g.n;
    edges := new Edge[n * n];
    count := 0;
    var i := 0;
    while i < n
      invariant 0 <= i <= n && 0 <= count <= i * n <= n * n
      invariant ScannedTo(g, edges[..count], i, i + 1)
    {
      count := ScanRow(g, edges, count, i);
      i := i + 1;
    }
  }

  /** es holds the edge (u, w) for every entry w = list[u, p] before entry
      j of row i, in row-major order, that names a higher neighbour, with
      the weight the matrix records for it. */
  ghost predicate HasEntriesBefore(g: Graph, es: seq<Edge>, i: int, j: int)
    reads g, g.matrix, g.list, g.sizes
    requires g.Shaped() && g.RowsInRange()
  {
    forall u, p :: 0 <= u < g.n && 0 <= p < g.sizes[u] && Before(u, p, i, j) && u < g.list[u, p] ==>
      Edge(u, g.list[u, p], g.matrix[u, g.list[u, p]]) in es
  }

  /** The state of the list scan about to look at entry j of row i. */
  ghost predicate ListedTo(g: Graph, es: seq<Edge>, i: int, j: int)
    reads g, g.matrix, g.list, g.sizes
    requires g.Shaped() && g.RowsInRange()
  {
    UpperEdges(g, es) && HasEntriesBefore(g, es, i, j)
  }

  /** Looking at entry j of row i: a higher neighbour is appended as an
      edge; it is an edge of g because rows and matrix agree. */
  lemma ListEntry(g: Graph, es: seq<Edge>, i: int, j: int)
    requires g.Valid() && 0 <= i < g.n && 0 <= j < g.sizes[i] && ListedTo(g, es, i, j)
    ensures 0 <= g.list[i, j] < g.n
    ensures i < g.list[i, j] ==> ListedTo(g, es + [Edge(i, g.list[i, j], g.matrix[i, g.list[i, j]])], i, j + 1)
    ensures i >= g.list[i, j] ==> ListedTo(g, es, i, j + 1)
  {
    var w := g.list[i, j];
    assert g.Row(i)[j] == w;
    assert g.matrix[i, w] != 0;
    if i < w {
      var es' := es + [Edge(i, w, g.matrix[i, w])];
      assert forall k :: 0 <= k < |es| ==> es'[k] == es[k];
    }
  }

  /** Once the list scan is through, it has every edge of g. */
  lemma ListedAll(g: Graph, es: seq<Edge>)
    requires g.Valid() && ListedTo(g, es, g.n, 0)
    ensures HasAllEdges(g, es)
  {
    forall u, v | 0 <= u < v < g.n && g.matrix[u, v] != 0
      ensures Edge(u, v, g.matrix[u, v]) in es
    {
      assert v in g.Row(u);
      var p :| 0 <= p < |g.Row(u)| && g.Row(u)[p] == v;
      assert g.list[u, p] == v;
    }
  }

  /** The inner loop of the list scan: the entries of row i. */
  method ListRow(g: Graph, edges: array<Edge>, count: int, i: int) returns (count': int)
    requires g.Valid() && 0 <= i < g.n && edges.Length == g.n * g.n
    requires 0 <= count <= i * g.n <= edges.Length && ListedTo(g, edges[..count], i, 0)
    modifies edges
    ensures count <= count' <= (i + 1) * g.n <= edges.Length && ListedTo(g, edges[..count'], i + 1, 0)
  {
    var n := g.n;
    RowBounds(n, i);
    count' := count;
    var j := 0;
    assert g.sizes[i] <= n;
    while j < g.sizes[i]
      invariant 0 <= j <= g.sizes[i] && count <= count' <= count + j
      invariant ListedTo(g, edges[..count'], i, j)
    {
      ListEntry(g, edges[..count'], i, j);
      var neighbour := g.list[i, j];
      if i < neighbour {
        var weight := g.matrix[i, neighbour];
        edges[count'] := Edge(i, neighbour, weight);
        count' := count' + 1;
        assert edges[..count'] == edges[..count' - 1] + [Edge(i, neighbour, weight)];
      }
      j := j + 1;
    }
  }

  /** The scan of kruskalList: every row entry naming a higher neighbour
      becomes an edge weighted from the matrix. Each edge of g is found;
      a pair added twice is listed twice. */
  method ListEdges(g: Graph) returns (edges: array<Edge>, count: int)
    requires g.Valid()
    ensures fresh(edges) && edges.Length == g.n * g.n && 0 <= count <= edges.Length
    ensures UpperEdges(g, edges[..count]) && HasAllEdges(g, edges[..count])
  {
    var n := g.n;
    edges := new Edge[n * n];
    count := 0;
    var i := 0;
    while i < n
      invariant 0 <= i <= n && 0 <= count <= i * n <= n * n
      invariant ListedTo(g, edges[..count], i, 0)
    {
      count := ListRow(g, edges, count, i);
      i := i + 1;
    }
    ListedAll(g, edges[..count]);
  }

  /** Sorting permutes the list, so it still lists edges of g, all of them. */
  lemma PermutedEdges(g: Graph, ext: seq<Edge>, sorted: seq<Edge>)
    requires g.Shaped() && UpperEdges(g, ext) && HasAllEdges(g, ext) && multiset(sorted) == multiset(ext)
    ensures UpperEdges(g, sorted) && HasAllEdges(g, sorted) && EdgesIn(g.n, sorted)
  {
    forall k | 0 <= k < |sorted| ensures UpperEdge(g, sorted[k]) {
      assert sorted[k] in multiset(ext);
    }
    forall u, v | 0 <= u < v < g.n && g.matrix[u, v] != 0
      ensures Edge(u, v, g.matrix[u, v]) in sorted
    {
      assert Edge(u, v, g.matrix[u, v]) in multiset(sorted);
    }
  }

  /** result is a spanning forest of g: edges of g, each listed from its
      lower endpoint, with no cycle, at most n - 1 of them, joining the two
      ends of every edge of g. */
  ghost predicate SpanningForest(g: Graph, result: seq<Edge>)
    reads g, g.matrix
    requires g.Shaped()
  {
    && UpperEdges(g, result) && EdgesIn(g.n, result) && Forest(g.n, result)
    && |result| <= g.n - 1
    && forall u, v :: 0 <= u < g.n && 0 <= v < g.n && g.matrix[u, v] != 0 ==> Connected(g.n, result, u, v)
  }

  /** What the main loop guarantees about the sorted list, read back in
      terms of the graph. */
  lemma Conclude(g: Graph, sorted: seq<Edge>, result: seq<Edge>)
    requires g.Valid() && UpperEdges(g, sorted) && HasAllEdges(g, sorted) && EdgesIn(g.n, sorted)
    requires EdgesIn(g.n, result) && Forest(g.n, result) && |result| <= g.n - 1
    requires forall k :: 0 <= k < |result| ==> result[k] in sorted
    requires Spans(g.n, result, sorted)
    ensures SpanningForest(g, result)
  {
    var n := g.n;
    forall k | 0 <= k < |result| ensures UpperEdge(g, result[k]) {
      var j :| 0 <= j < |sorted| && sorted[j] == result[k];
    }
    forall u, v | 0 <= u < n && 0 <= v < n && g.matrix[u, v] != 0
      ensures Connected(n, result, u, v)
    {
      if u < v {
        var j :| 0 <= j < |sorted| && sorted[j] == Edge(u, v, g.matrix[u, v]);
      } else if v < u {
        var j :| 0 <= j < |sorted| && sorted[j] == Edge(v, u, g.matrix[v, u]);
      }
    }
  }

  /** `kruskalMatrix()`: edges from the matrix, heap-sorted by weight, then
      the main loop. The result is a spanning forest of the graph taken in
      order of weight, and the total is its weight. */
  method KruskalMatrix(g: Graph) returns (result: seq<Edge>, total: int)
    requires g.Valid() && 1 <= g.n
    ensures SpanningForest(g, result) && SortedBy(result, Weight)
    ensures total == SumWeights(result)
  {
    var edges, count := MatrixEdges(g);
    ghost var ext := edges[..count];
    HeapSort.Sort(edges, count, Weight);
    PermutedEdges(g, ext, edges[..count]);
    result, total := TakeEdges(edges, count, g.n);
    Conclude(g, edges[..count], result);
  }

  /** `kruskalList()`: the same, with the edges taken from the rows. */
  method KruskalList(g: Graph) returns (result: seq<Edge>, total: int)
    requires g.Valid() && 1 <= g.n
    ensures SpanningForest(g, result) && SortedBy(result, Weight)
    ensures total == SumWeights(result)
  {
    var edges, count := ListEdges(g);
    ghost var ext := edges[..count];
    HeapSort.Sort(edges, count, Weight);
    PermutedEdges(g, ext, edges[..count]);
    result, total := TakeEdges(edges, count, g.n);
    Conclude(g, edges[..count], result);
  }
}
