/** The directed weighted graph of BellmanFord.cpp, kept in two
    representations filled side by side: an n-by-n weight matrix (0 meaning
    "no edge") and, for each vertex u, a row buffer of 2n slots holding
    (neighbour, weight) pairs, of which the first sizes[u] pairs are in
    use. The edge sequences below list each representation's edges in the
    order the two Bellman-Ford procedures meet them. */
module BfGraph {
  import opened Edges
  import opened Relaxation

  /** The edges of the nonzero entries before column j of row u of a
      weight matrix, left to right. */
  function CellEdges(u: int, row: seq<int>, j: int): (es: seq<Edge>)
    requires 0 <= j <= |row|
    ensures forall k :: 0 <= k < |es| ==> es[k].start == u && 0 <= es[k].end < j
    decreases j
  {
    if j == 0 then []
    else CellEdges(u, row, j - 1) + (if row[j - 1] != 0 then [Edge(u, j - 1, row[j - 1])] else [])
  }

  lemma {:induction false} CellsGrow(u: int, row: seq<int>, i: int, j: int)
    requires 0 <= i <= j <= |row|
    ensures CellEdges(u, row, i) <= CellEdges(u, row, j)
    decreases j
  {
    if i < j {
      CellsGrow(u, row, i, j - 1);
    }
  }

  /** Going one cell further along a row of a matrix round relaxes that
      cell when it holds an edge. */
  lemma CellRound(L0: Labels, u: int, row: seq<int>, v: int)
    requires Sized(L0, |L0.dist|) && |row| == |L0.dist| && 0 <= u < |row| && 0 <= v < |row|
    ensures Round(L0, CellEdges(u, row, v + 1)) ==
      if row[v] != 0 then Relax(Round(L0, CellEdges(u, row, v)), Edge(u, v, row[v]))
      else Round(L0, CellEdges(u, row, v))
  {
    if row[v] != 0 {
      RoundSnoc(L0, CellEdges(u, row, v), Edge(u, v, row[v]));
    } else {
      assert CellEdges(u, row, v + 1) == CellEdges(u, row, v);
    }
  }

  /** When no edge of the first v cells of a row relaxes, a scan can stop
      at cell v if it holds an edge that relaxes, and go on otherwise. */
  lemma CellScan(d: seq<int>, u: int, row: seq<int>, v: int)
    requires |row| == |d| && 0 <= u < |d| && 0 <= v < |d| && !AnyRelaxes(d, CellEdges(u, row, v))
    ensures row[v] != 0 && Relaxes(d, Edge(u, v, row[v])) ==> AnyRelaxes(d, CellEdges(u, row, |row|))
    ensures !(row[v] != 0 && Relaxes(d, Edge(u, v, row[v]))) ==> !AnyRelaxes(d, CellEdges(u, row, v + 1))
  {
    if row[v] != 0 {
      AnySnoc(d, CellEdges(u, row, v), Edge(u, v, row[v]));
      if Relaxes(d, Edge(u, v, row[v])) {
        CellsGrow(u, row, v + 1, |row|);
        AnyPrefix(d, CellEdges(u, row, v + 1), CellEdges(u, row, |row|));
      }
    } else {
      assert CellEdges(u, row, v + 1) == CellEdges(u, row, v);
    }
  }

  /** Every row joins vertices below n. */
  ghost predicate RowsWithin(rows: seq<seq<Edge>>, n: int)
  {
    forall r :: 0 <= r < |rows| ==> Within(rows[r], n)
  }

  /** The rows of an n-by-n weight matrix as edge sequences. */
  function MatrixRows(m: seq<seq<int>>): (rows: seq<seq<Edge>>)
    ensures |rows| == |m| && forall u :: 0 <= u < |m| ==> rows[u] == CellEdges(u, m[u], |m[u]|)
    ensures (forall u :: 0 <= u < |m| ==> |m[u]| == |m|) ==> RowsWithin(rows, |m|)
  {
    seq(|m|, u requires 0 <= u < |m| => CellEdges(u, m[u], |m[u]|))
  }

  /** The rows before i, one after another. */
  function Flat(rows: seq<seq<Edge>>, i: int): (es: seq<Edge>)
    requires 0 <= i <= |rows|
    ensures forall n {:trigger RowsWithin(rows, n)} :: RowsWithin(rows, n) ==> Within(es, n)
  {
    if i == 0 then [] else Flat(rows, i - 1) + rows[i - 1]
  }

  /** e is an edge of the first j cells exactly when it is a nonzero cell
      there. */
  lemma {:induction false} InCellEdges(u: int, row: seq<int>, j: int, e: Edge)
    requires 0 <= j <= |row|
    ensures e in CellEdges(u, row, j) <==> e.start == u && 0 <= e.end < j && row[e.end] != 0 && e.weight == row[e.end]
    decreases j
  {
    if j > 0 {
      InCellEdges(u, row, j - 1, e);
    }
  }

  /** e is an edge of the rows before i exactly when it is in one of them. */
  lemma {:induction false} InFlat(rows: seq<seq<Edge>>, i: int, e: Edge)
    requires 0 <= i <= |rows|
    ensures e in Flat(rows, i) <==> exists r :: 0 <= r < i && e in rows[r]
  {
    if i > 0 {
      InFlat(rows, i - 1, e);
    }
  }

  lemma {:induction false} FlatGrows(rows: seq<seq<Edge>>, i: int, j: int)
    requires 0 <= i <= j <= |rows|
    ensures Flat(rows, i) <= Flat(rows, j)
    decreases j
  {
    if i < j {
      FlatGrows(rows, i, j - 1);
      assert Flat(rows, j) == Flat(rows, j - 1) + rows[j - 1];
    }
  }

  /** A round over the rows up to u is one over the rows before u, then
      one over row u. */
  lemma FlatRound(L0: Labels, rows: seq<seq<Edge>>, u: int)
    requires Sized(L0, |L0.dist|) && RowsWithin(rows, |L0.dist|) && 0 <= u < |rows|
    ensures Round(L0, Flat(rows, u + 1)) == Round(Round(L0, Flat(rows, u)), rows[u])
  {
    RoundAppend(L0, Flat(rows, u), rows[u]);
  }

  /** When no edge of the rows before u relaxes, a scan can stop at row u
      if one of its edges relaxes, and go on otherwise. */
  lemma FlatScan(d: seq<int>, rows: seq<seq<Edge>>, u: int)
    requires RowsWithin(rows, |d|) && 0 <= u < |rows| && !AnyRelaxes(d, Flat(rows, u))
    ensures AnyRelaxes(d, rows[u]) ==> AnyRelaxes(d, Flat(rows, |rows|))
    ensures !AnyRelaxes(d, rows[u]) ==> !AnyRelaxes(d, Flat(rows, u + 1))
  {
    FlatScanGo(d, rows, u);
    if AnyRelaxes(d, rows[u]) {
      FlatGrows(rows, u + 1, |rows|);
      AnyPrefix(d, Flat(rows, u + 1), Flat(rows, |rows|));
    }
  }

  lemma FlatScanGo(d: seq<int>, rows: seq<seq<Edge>>, u: int)
    requires RowsWithin(rows, |d|) && 0 <= u < |rows|
    ensures AnyRelaxes(d, Flat(rows, u + 1)) <==> AnyRelaxes(d, Flat(rows, u)) || AnyRelaxes(d, rows[u])
  {
    AnyAppend(d, Flat(rows, u), rows[u]);
  }

  class Graph {
    const n: nat
    /** The vertex the searches start from; the file loader sets it. */
    var start: int
    const matrix: array2<int>
    const list: array2<int>
    const sizes: array<int>

    /** The buffers have the sizes `reallocateMemory` gives them. */
    predicate Shaped()
      reads this
    {
      && matrix != list
      && matrix.Length0 == n && matrix.Length1 == n
      && list.Length0 == n && list.Length1 == 2 * n
      && sizes.Length == n
    }

    /** The neighbour of the k-th pair of row u. */
    function Target(u: int, k: int): int
      reads this, list
      requires Shaped() && 0 <= u < n && 0 <= k < n
    {
      list[u, 2 * k]
    }

    /** The weight of the k-th pair of row u. */
    function Cost(u: int, k: int): int
      reads this, list
      requires Shaped() && 0 <= u < n && 0 <= k < n
    {
      list[u, 2 * k + 1]
    }

    /** Every row holds at most n pairs, each naming a vertex. */
    ghost predicate Valid()
      reads this, list, sizes
    {
      && Shaped()
      && (forall u :: 0 <= u < n ==> 0 <= sizes[u] <= n)
      && (forall u, k :: 0 <= u < n && 0 <= k < sizes[u] && k < n ==> 0 <= Target(u, k) < n)
    }

    /** The edges of the first j pairs of row u. */
    ghost function Pairs(u: int, j: int): (es: seq<Edge>)
      reads this, list, sizes
      requires Valid() && 0 <= u < n && 0 <= j <= sizes[u]
      ensures |es| == j && Within(es, n)
      ensures forall k :: 0 <= k < j ==> es[k] == Edge(u, Target(u, k), Cost(u, k))
    {
      seq(j, k requires 0 <= k < j reads this, list => Edge(u, Target(u, k), Cost(u, k)))
    }

    /** R holds, row by row, the pairs in use of the list. */
    ghost predicate Lists(R: seq<seq<Edge>>)
      reads this, list, sizes
      requires Valid()
    {
      && |R| == n && RowsWithin(R, n)
      && (forall u :: 0 <= u < n ==> |R[u]| == sizes[u])
      && forall u, k :: 0 <= u < n && 0 <= k < |R[u]| ==> R[u][k] == Edge(u, Target(u, k), Cost(u, k))
    }

    /** The rows of the list, as edge sequences. */
    ghost function Rows(): (r: seq<seq<Edge>>)
      reads this, list, sizes
      requires Valid()
      ensures |r| == n && RowsWithin(r, n) && Lists(r)
      ensures forall u :: 0 <= u < n ==> r[u] == Pairs(u, sizes[u])
    {
      RowsBefore(n)
    }

    ghost function RowsBefore(i: int): (r: seq<seq<Edge>>)
      reads this, list, sizes
      requires Valid() && 0 <= i <= n
      ensures |r| == i && forall u :: 0 <= u < i ==> r[u] == Pairs(u, sizes[u])
    {
      if i == 0 then [] else RowsBefore(i - 1) + [Pairs(i - 1, sizes[i - 1])]
    }

    /** The edges of the list representation, in the order a round of
        `bellmanFordList` meets them. */
    ghost function ListEdges(): (es: seq<Edge>)
      reads this, list, sizes
      requires Valid()
      ensures Within(es, n)
    {
      Flat(Rows(), n)
    }

    /** M holds the weights of the matrix. */
    ghost predicate Mirrors(M: seq<seq<int>>)
      reads this, matrix
      requires Shaped()
    {
      && |M| == n
      && (forall u :: 0 <= u < n ==> |M[u]| == n)
      && forall u, v :: 0 <= u < n && 0 <= v < n ==> M[u][v] == matrix[u, v]
    }

    /** The weight matrix as a value. */
    ghost function Weights(): (m: seq<seq<int>>)
      reads this, matrix
      requires Shaped()
      ensures Mirrors(m)
    {
      seq(n, u requires 0 <= u < matrix.Length0 reads matrix =>
        seq(matrix.Length1, v requires 0 <= v < matrix.Length1 reads matrix => matrix[u, v]))
    }

    /** The edges of the matrix representation, in the order a round of
        `bellmanFordMatrix` meets them. */
    ghost function MatrixEdges(): (es: seq<Edge>)
      reads this, matrix
      requires Shaped()
      ensures Within(es, n)
    {
      Flat(MatrixRows(Weights()), n)
    }

    /** Any value holding the weights yields the matrix's edges. */
    lemma MirrorsEdges(M: seq<seq<int>>)
      requires Shaped() && Mirrors(M)
      ensures MatrixEdges() == Flat(MatrixRows(M), n)
    {
      var W := Weights();
      assert forall u | 0 <= u < n :: M[u] == W[u];
      assert M == W;
    }

    /** Any value holding the pairs yields the list's edges. */
    lemma ListsEdges(R: seq<seq<Edge>>)
      requires Valid() && Lists(R)
      ensures RowsWithin(R, n) && ListEdges() == Flat(R, n)
    {
      var W := Rows();
      assert forall u | 0 <= u < n :: R[u] == W[u];
      assert R == W;
    }

    /** e is a nonzero matrix cell with its weight. */
    ghost predicate InMatrix(e: Edge)
      reads this, matrix
      requires Shaped()
    {
      0 <= e.start < n && 0 <= e.end < n && matrix[e.start, e.end] != 0 && e.weight == matrix[e.start, e.end]
    }

    /** e is one of the pairs recorded for its source. */
    ghost predicate InList(e: Edge)
      reads this, list, sizes
      requires Valid()
    {
      0 <= e.start < n && e in Pairs(e.start, sizes[e.start])
    }

    /** The two representations hold the same edges. */
    ghost predicate Agrees()
      reads this, matrix, list, sizes
      requires Valid()
    {
      forall e :: InMatrix(e) <==> InList(e)
    }

    /** `Graph(v)` with `reallocateMemory(v)`: v vertices, no edges, start
        vertex 0. */
    constructor (v: nat)
      ensures n == v && start == 0 && Valid() && Agrees()
      ensures fresh(matrix) && fresh(list) && fresh(sizes)
      ensures forall a, b :: 0 <= a < n && 0 <= b < n ==> matrix[a, b] == 0
      ensures forall u :: 0 <= u < n ==> sizes[u] == 0
    {
      n := v;
      start := 0;
      matrix := new int[v, v]((i, j) => 0);
      list := new int[v, 2 * v]((i, j) => 0);
      sizes := new int[v](i => 0);
    }

    /** `addEdge(start, end, weight)`: stores the weight in matrix cell
        (s, e) and appends the pair (e, w) to row s. The source does not
        check its arguments: the endpoints must be vertices and row s must
        have room. The representations keep agreeing when the weight is
        not 0, which the matrix reads as "no edge", and the cell was
        empty, which a second edge between the same vertices would
        overwrite while the row keeps both pairs. */
    method AddEdge(s: int, e: int, w: int)
      requires Valid() && 0 <= s < n && 0 <= e < n && sizes[s] < n
      modifies matrix, list, sizes
      ensures Valid()
      ensures forall a, b :: 0 <= a < n && 0 <= b < n ==>
        matrix[a, b] == if a == s && b == e then w else old(matrix[a, b])
      ensures forall u :: 0 <= u < n ==> sizes[u] == old(sizes[u]) + (if u == s then 1 else 0)
      ensures forall u :: 0 <= u < n ==>
        Pairs(u, sizes[u]) == old(Pairs(u, sizes[u])) + (if u == s then [Edge(s, e, w)] else [])
      ensures old(Agrees()) && old(matrix[s, e]) == 0 && w != 0 ==> Agrees()
    {
      matrix[s, e] := w;
      Push(s, e, w);
      if old(Agrees()) && old(matrix[s, e]) == 0 && w != 0 {
        forall x: Edge ensures InMatrix(x) <==> InList(x) {
          if 0 <= x.start < n && 0 <= x.end < n {
            assert old(InMatrix(x)) <==> old(InList(x));
            assert InList(x) <==> old(InList(x)) || x == Edge(s, e, w);
          }
        }
      }
    }

    /** Appends the pair (e, w) to row s. */
    method Push(s: int, e: int, w: int)
      requires Valid() && 0 <= s < n && 0 <= e < n && sizes[s] < n
      modifies list, sizes
      ensures Valid()
      ensures forall u :: 0 <= u < n ==> sizes[u] == old(sizes[u]) + (if u == s then 1 else 0)
      ensures forall u :: 0 <= u < n ==>
        Pairs(u, sizes[u]) == old(Pairs(u, sizes[u])) + (if u == s then [Edge(s, e, w)] else [])
    {
      list[s, sizes[s] * 2] := e;
      list[s, sizes[s] * 2 + 1] := w;
      sizes[s] := sizes[s] + 1;
      assert Valid();
      forall u | 0 <= u < n
        ensures Pairs(u, sizes[u]) == old(Pairs(u, sizes[u])) + (if u == s then [Edge(s, e, w)] else [])
      {
      }
    }

    /** When the representations agree, a round over either meets the same
        edges, in different orders. */
    lemma SameEdges()
      requires Valid() && Agrees()
      ensures forall e :: e in MatrixEdges() <==> e in ListEdges()
    {
      forall e ensures e in MatrixEdges() <==> e in ListEdges() {
        MatrixMember(e);
        ListMember(e);
      }
    }

    lemma MatrixMember(e: Edge)
      requires Shaped()
      ensures e in MatrixEdges() <==> InMatrix(e)
    {
      var M := Weights();
      InFlat(MatrixRows(M), n, e);
      if e in MatrixEdges() {
        var r :| 0 <= r < n && e in MatrixRows(M)[r];
        InCellEdges(r, M[r], n, e);
      }
      if InMatrix(e) {
        InCellEdges(e.start, M[e.start], n, e);
        assert e in MatrixRows(M)[e.start];
      }
    }

    lemma ListMember(e: Edge)
      requires Valid()
      ensures e in ListEdges() <==> InList(e)
    {
      var R := Rows();
      InFlat(R, n, e);
      if e in ListEdges() {
        var r :| 0 <= r < n && e in R[r];
        var k :| 0 <= k < |R[r]| && R[r][k] == e;
        assert e.start == r;
      }
      if InList(e) {
        assert e in R[e.start];
      }
    }
  }
}
