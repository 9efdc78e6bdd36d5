/** `bellmanFordMatrix`, `bellmanFordList` and `printPath` of
    BellmanFord.cpp, on the arrays they allocate. Each procedure is proved
    to compute V - 1 rounds of Relaxation over the edges of its
    representation, met in the order its loops meet them, and to raise the
    negative-cycle flag exactly when some edge still relaxes; what that
    means for the distances is proved in Relaxation. The console report is
    not modelled. */
module BellmanFord {
  import opened Edges
  import opened Relaxation
  import opened BfGraph

  /** The initialisation loop: every vertex unreached and without parent,
      then the start at distance 0. */
  method Init(n: nat, s: int) returns (dist: array<int>, parent: array<int>)
    requires 0 <= s < n
    ensures fresh(dist) && fresh(parent) && dist != parent
    ensures Labels(dist[..], parent[..]) == Initial(n, s)
  {
    dist := new int[n];
    parent := new int[n];
    for i := 0 to n
      invariant forall k :: 0 <= k < i ==> dist[k] == IntMax && parent[k] == -1
    {
      dist[i] := IntMax;
      parent[i] := -1;
    }
    dist[s] := 0;
    assert dist[..] == Initial(n, s).dist;
    assert parent[..] == Initial(n, s).parent;
  }

  /** The body of the innermost loop of a matrix round: a nonzero cell
      (u, v) is relaxed when u is reached. */
  method RelaxCell(g: Graph, dist: array<int>, parent: array<int>, u: int, v: int)
    requires g.Shaped() && dist.Length == g.n && parent.Length == g.n && dist != parent
    requires 0 <= u < g.n && 0 <= v < g.n
    modifies dist, parent
    ensures var L := old(Labels(dist[..], parent[..]));
      Labels(dist[..], parent[..]) == if g.matrix[u, v] != 0 then Relax(L, Edge(u, v, g.matrix[u, v])) else L
  {
    if g.matrix[u, v] != 0 && dist[u] != IntMax && dist[u] + g.matrix[u, v] < dist[v] {
      dist[v] := dist[u] + g.matrix[u, v];
      parent[v] := u;
    }
  }

  /** The innermost loop of a matrix round: the cells of row u, left to
      right; row is the row as a value. */
  method RelaxCells(g: Graph, dist: array<int>, parent: array<int>, u: int, ghost M: seq<seq<int>>)
    requires g.Shaped() && dist.Length == g.n && parent.Length == g.n && dist != parent && 0 <= u < g.n
    requires g.Mirrors(M)
    modifies dist, parent
    ensures Labels(dist[..], parent[..]) == Round(old(Labels(dist[..], parent[..])), CellEdges(u, M[u], g.n))
  {
    ghost var row := M[u];
    ghost var L0 := Labels(dist[..], parent[..]);
    for v := 0 to g.n
      invariant Labels(dist[..], parent[..]) == Round(L0, CellEdges(u, row, v))
      invariant g.Mirrors(M) && Sized(L0, g.n)
    {
      RelaxCell(g, dist, parent, u, v);
      CellRound(L0, u, row, v);
    }
  }

  /** One round of `bellmanFordMatrix`: the rows in order; M is the matrix
      as a value. */
  method MatrixRound(g: Graph, dist: array<int>, parent: array<int>, ghost M: seq<seq<int>>)
    requires g.Shaped() && dist.Length == g.n && parent.Length == g.n && dist != parent && g.Mirrors(M)
    modifies dist, parent
    ensures Labels(dist[..], parent[..]) == Round(old(Labels(dist[..], parent[..])), Flat(MatrixRows(M), g.n))
  {
    ghost var L0 := Labels(dist[..], parent[..]);
    ghost var rows := MatrixRows(M);
    for u := 0 to g.n
      invariant Labels(dist[..], parent[..]) == Round(L0, Flat(rows, u))
    {
      RelaxCells(g, dist, parent, u, M);
      FlatRound(L0, rows, u);
    }
  }

  /** The V - 1 rounds of `bellmanFordMatrix`. */
  method MatrixRounds(g: Graph, dist: array<int>, parent: array<int>, ghost M: seq<seq<int>>)
    requires g.Shaped() && dist.Length == g.n && parent.Length == g.n && dist != parent && g.n > 0
    requires g.Mirrors(M)
    modifies dist, parent
    ensures Labels(dist[..], parent[..]) == Rounds(old(Labels(dist[..], parent[..])), Flat(MatrixRows(M), g.n), g.n - 1)
  {
    ghost var L0 := Labels(dist[..], parent[..]);
    for i := 0 to g.n - 1
      invariant Labels(dist[..], parent[..]) == Rounds(L0, Flat(MatrixRows(M), g.n), i)
    {
      MatrixRound(g, dist, parent, M);
    }
  }

  /** The scan of row u of the matrix, stopping at the first edge that
      still relaxes. */
  method CellsRelax(g: Graph, dist: array<int>, u: int, ghost M: seq<seq<int>>) returns (found: bool)
    requires g.Shaped() && dist.Length == g.n && 0 <= u < g.n && g.Mirrors(M)
    ensures found <==> AnyRelaxes(dist[..], CellEdges(u, M[u], g.n))
  {
    ghost var row := M[u];
    found := false;
    ghost var d := dist[..];
    var v := 0;
    while v < g.n
      invariant 0 <= v <= g.n && !AnyRelaxes(d, CellEdges(u, row, v))
    {
      var w := g.matrix[u, v];
      CellScan(d, u, row, v);
      if w != 0 && dist[u] != IntMax && dist[u] + w < dist[v] {
        found := true;
        break;
      }
      v := v + 1;
    }
  }

  /** The negative-cycle scan of `bellmanFordMatrix`: true exactly when
      some edge of the matrix still relaxes. */
  method MatrixScan(g: Graph, dist: array<int>, ghost M: seq<seq<int>>) returns (found: bool)
    requires g.Shaped() && dist.Length == g.n && g.Mirrors(M)
    ensures found <==> AnyRelaxes(dist[..], Flat(MatrixRows(M), g.n))
  {
    found := false;
    ghost var d, rows := dist[..], MatrixRows(M);
    var u := 0;
    while u < g.n
      invariant 0 <= u <= g.n && |rows| == g.n && RowsWithin(rows, |d|)
      invariant !AnyRelaxes(d, Flat(rows, u))
    {
      found := CellsRelax(g, dist, u, M);
      FlatScan(d, rows, u);
      if found {
        break;
      }
      u := u + 1;
    }
  }

  /** `bellmanFordMatrix`: V - 1 rounds over the matrix from the start
      vertex, then the negative-cycle scan. What the result means is
      proved in Relaxation: the labels are sound (SoundFromInitial), no
      walk of at most V - 1 edges beats a distance (RoundsBelow), and,
      when no cycle is reported, the distances are the shortest
      (Converged, Final). */
  method BellmanFordMatrix(g: Graph) returns (dist: seq<int>, parent: seq<int>, negativeCycle: bool)
    requires g.Shaped() && 0 <= g.start < g.n
    ensures Labels(dist, parent) == Rounds(Initial(g.n, g.start), g.MatrixEdges(), g.n - 1)
    ensures negativeCycle <==> AnyRelaxes(dist, g.MatrixEdges())
  {
    ghost var M := g.Weights();
    var d, p := Init(g.n, g.start);
    MatrixRounds(g, d, p, M);
    negativeCycle := MatrixScan(g, d, M);
    dist, parent := d[..], p[..];
    g.MirrorsEdges(M);
  }

  /** The body of the inner loop of a list round, for a reached u: the
      pair (v, weight) of row u is relaxed. */
  method RelaxPair(dist: array<int>, parent: array<int>, u: int, v: int, weight: int)
    requires dist.Length == parent.Length && dist != parent
    requires 0 <= u < dist.Length && 0 <= v < dist.Length && dist[u] < IntMax
    modifies dist, parent
    ensures Labels(dist[..], parent[..]) == Relax(old(Labels(dist[..], parent[..])), Edge(u, v, weight))
    ensures dist[u] < IntMax
  {
    if dist[u] + weight < dist[v] {
      dist[v] := dist[u] + weight;
      parent[v] := u;
    }
  }

  /** The inner loop of a list round: row u is skipped when u is
      unreached, and otherwise its pairs are relaxed in order. The source
      tests the distance of u once, before the row, which agrees with
      testing it at every pair because a distance that is below INT_MAX
      only decreases. */
  method RelaxPairs(g: Graph, dist: array<int>, parent: array<int>, u: int, ghost R: seq<seq<Edge>>)
    requires g.Valid() && dist.Length == g.n && parent.Length == g.n && dist != parent
    requires dist != g.sizes && parent != g.sizes && AtMost(dist[..]) && 0 <= u < g.n && g.Lists(R)
    modifies dist, parent
    ensures Labels(dist[..], parent[..]) == Round(old(Labels(dist[..], parent[..])), R[u])
    ensures AtMost(dist[..])
  {
    ghost var L0 := Labels(dist[..], parent[..]);
    ghost var row := R[u];
    if dist[u] != IntMax {
      for j := 0 to g.sizes[u]
        invariant Labels(dist[..], parent[..]) == Round(L0, row[..j]) && dist[u] < IntMax
      {
        var v := g.list[u, j * 2];
        var weight := g.list[u, j * 2 + 1];
        assert Edge(u, v, weight) == row[j];
        RelaxPair(dist, parent, u, v, weight);
        assert row[..j + 1] == row[..j] + [row[j]];
        RoundSnoc(L0, row[..j], row[j]);
      }
      assert row[..|row|] == row;
    } else {
      SkipRow(L0, row, u);
    }
    RoundAtMost(L0, row);
  }

  /** One round of `bellmanFordList`: the rows in order. */
  method ListRound(g: Graph, dist: array<int>, parent: array<int>, ghost R: seq<seq<Edge>>)
    requires g.Valid() && dist.Length == g.n && parent.Length == g.n && dist != parent
    requires dist != g.sizes && parent != g.sizes && AtMost(dist[..]) && g.Lists(R)
    modifies dist, parent
    ensures Labels(dist[..], parent[..]) == Round(old(Labels(dist[..], parent[..])), Flat(R, g.n))
    ensures AtMost(dist[..])
  {
    ghost var L0 := Labels(dist[..], parent[..]);
    for u := 0 to g.n
      invariant Labels(dist[..], parent[..]) == Round(L0, Flat(R, u)) && AtMost(dist[..])
      invariant g.Valid() && g.Lists(R) && RowsWithin(R, |L0.dist|) && Sized(L0, |L0.dist|)
    {
      RelaxPairs(g, dist, parent, u, R);
      FlatRound(L0, R, u);
    }
  }

  /** The V - 1 rounds of `bellmanFordList`. */
  method ListRounds(g: Graph, dist: array<int>, parent: array<int>, ghost R: seq<seq<Edge>>)
    requires g.Valid() && dist.Length == g.n && parent.Length == g.n && dist != parent && g.n > 0
    requires dist != g.sizes && parent != g.sizes && AtMost(dist[..]) && g.Lists(R)
    modifies dist, parent
    ensures Labels(dist[..], parent[..]) == Rounds(old(Labels(dist[..], parent[..])), Flat(R, g.n), g.n - 1)
  {
    ghost var L0 := Labels(dist[..], parent[..]);
    for i := 0 to g.n - 1
      invariant Labels(dist[..], parent[..]) == Rounds(L0, Flat(R, g.n), i) && AtMost(dist[..])
    {
      ListRound(g, dist, parent, R);
    }
  }

  /** The scan of row u of the list, skipped when u is unreached and
      stopping at the first pair that still relaxes. */
  method PairsRelax(g: Graph, dist: array<int>, u: int, ghost R: seq<seq<Edge>>) returns (found: bool)
    requires g.Valid() && dist.Length == g.n && 0 <= u < g.n && g.Lists(R)
    ensures found <==> AnyRelaxes(dist[..], R[u])
  {
    found := false;
    ghost var d, row := dist[..], R[u];
    if dist[u] != IntMax {
      var j := 0;
      while j < g.sizes[u]
        invariant 0 <= j <= |row| && !AnyRelaxes(d, row[..j])
      {
        var v := g.list[u, j * 2];
        var weight := g.list[u, j * 2 + 1];
        assert Edge(u, v, weight) == row[j];
        assert row[..j + 1] == row[..j] + [row[j]];
        AnySnoc(d, row[..j], row[j]);
        if dist[u] + weight < dist[v] {
          found := true;
          AnyPrefix(d, row[..j + 1], row);
          break;
        }
        j := j + 1;
      }
      assert found || row[..j] == row;
    } else {
      NoneFrom(d, row, u);
    }
  }

  /** The negative-cycle scan of `bellmanFordList`: true exactly when some
      pair of the list still relaxes. */
  method ListScan(g: Graph, dist: array<int>, ghost R: seq<seq<Edge>>) returns (found: bool)
    requires g.Valid() && dist.Length == g.n && g.Lists(R)
    ensures found <==> AnyRelaxes(dist[..], Flat(R, g.n))
  {
    found := false;
    ghost var d := dist[..];
    var u := 0;
    while u < g.n
      invariant 0 <= u <= g.n && |R| == g.n && RowsWithin(R, |d|)
      invariant !AnyRelaxes(d, Flat(R, u))
    {
      found := PairsRelax(g, dist, u, R);
      FlatScan(d, R, u);
      if found {
        break;
      }
      u := u + 1;
    }
  }

  /** `bellmanFordList`: V - 1 rounds over the list from the start vertex,
      then the negative-cycle scan. */
  method BellmanFordList(g: Graph) returns (dist: seq<int>, parent: seq<int>, negativeCycle: bool)
    requires g.Valid() && 0 <= g.start < g.n
    ensures Labels(dist, parent) == Rounds(Initial(g.n, g.start), g.ListEdges(), g.n - 1)
    ensures negativeCycle <==> AnyRelaxes(dist, g.ListEdges())
  {
    ghost var R := g.Rows();
    var d, p := Init(g.n, g.start);
    ListRounds(g, d, p, R);
    negativeCycle := ListScan(g, d, R);
    dist, parent := d[..], p[..];
    g.ListsEdges(R);
  }

  /** When the two representations hold the same edges, which AddEdge
      keeps true as long as no weight is 0 and no pair of vertices gets
      two edges, and neither procedure reports a negative cycle, both
      compute the same distances, although their rounds meet the edges in
      different orders. */
  lemma ListMatchesMatrix(g: Graph)
    requires g.Valid() && g.Agrees() && 0 <= g.start < g.n
    ensures var I := Initial(g.n, g.start);
      var M := Rounds(I, g.MatrixEdges(), g.n - 1);
      var L := Rounds(I, g.ListEdges(), g.n - 1);
      !AnyRelaxes(M.dist, g.MatrixEdges()) && !AnyRelaxes(L.dist, g.ListEdges()) ==> M.dist == L.dist
  {
    var I := Initial(g.n, g.start);
    var M := Rounds(I, g.MatrixEdges(), g.n - 1);
    var L := Rounds(I, g.ListEdges(), g.n - 1);
    if !AnyRelaxes(M.dist, g.MatrixEdges()) && !AnyRelaxes(L.dist, g.ListEdges()) {
      g.SameEdges();
      SameConverged(g.MatrixEdges(), g.ListEdges(), g.n, g.start);
    }
  }

  /** A ranking that every parent link climbs down: the parent graph has
      no cycle, and every chain of parents has fewer than n links. */
  ghost predicate Ranked(P: seq<int>, rank: seq<nat>)
  {
    && |rank| == |P|
    && forall v :: 0 <= v < |P| ==>
         rank[v] < |P| && (P[v] == -1 || (0 <= P[v] < |P| && rank[P[v]] < rank[v]))
  }

  /** The vertices from the root of v's parent chain down to v. */
  ghost function Chain(P: seq<int>, rank: seq<nat>, v: int): (c: seq<int>)
    requires Ranked(P, rank) && 0 <= v < |P|
    ensures 1 <= |c| <= rank[v] + 1 && c[|c| - 1] == v
    ensures forall i :: 0 <= i < |c| ==> 0 <= c[i] < |P|
    ensures P[c[0]] == -1 && forall i :: 0 < i < |c| ==> P[c[i]] == c[i - 1]
    decreases rank[v]
  {
    if P[v] == -1 then [v] else Chain(P, rank, P[v]) + [v]
  }

  /** `printPath(parent, vertex, path, path_length)`: writes the parent
      chain of vertex, root first, into path from position len on, and
      returns the new length. The source recurses without a guard, so the
      parent links must lead to a root; they do when the ranking exists,
      and then the chain fits in a buffer of n entries. */
  method PrintPath(parent: array<int>, vertex: int, path: array<int>, len: int, ghost rank: seq<nat>)
    returns (len': int)
    requires parent != path && Ranked(parent[..], rank) && 0 <= vertex < parent.Length
    requires 0 <= len && len + rank[vertex] < path.Length
    modifies path
    ensures len' == len + |Chain(parent[..], rank, vertex)|
    ensures path[..len'] == old(path[..len]) + Chain(parent[..], rank, vertex)
    decreases rank[vertex]
  {
    if parent[vertex] == -1 {
      path[len] := vertex;
      len' := len + 1;
      return;
    }
    len' := PrintPath(parent, parent[vertex], path, len, rank);
    path[len'] := vertex;
    len' := len' + 1;
  }

  /** Some edge of E leads from u to v. */
  ghost predicate Link(E: seq<Edge>, u: int, v: int)
  {
    exists e {:trigger e in E} :: e in E && e.start == u && e.end == v
  }

  /** In sound labels, the parent chain of a reached vertex starts at the
      start vertex and follows edges of E: it is the path the report
      prints. */
  lemma {:induction false} ChainIsPath(E: seq<Edge>, s: int, L: Labels, rank: seq<nat>, v: int)
    requires Sound(E, s, L) && Ranked(L.parent, rank) && 0 <= v < |L.dist| && L.dist[v] != IntMax
    ensures var c := Chain(L.parent, rank, v);
      && c[0] == s
      && forall i :: 0 < i < |c| ==> Link(E, c[i - 1], c[i])
    decreases rank[v]
  {
    var c := Chain(L.parent, rank, v);
    if L.parent[v] != -1 {
      var u := L.parent[v];
      var e :| e in E && e.start == u && e.end == v && 0 <= e.start < |L.dist|
               && L.dist[e.start] != IntMax && L.dist[e.start] + e.weight <= L.dist[v];
      ChainIsPath(E, s, L, rank, u);
      var c' := Chain(L.parent, rank, u);
      assert c == c' + [v];
      forall i | 0 < i < |c| ensures Link(E, c[i - 1], c[i]) {
        if i < |c'| {
          assert c[i - 1] == c'[i - 1] && c[i] == c'[i];
        } else {
          assert c[i - 1] == u && c[i] == v;
        }
      }
    }
  }
}
