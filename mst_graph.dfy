/** The undirected weighted graph that Prim.cpp and Kruskal.cpp both keep,
    in two representations filled side by side: an n-by-n weight matrix
    (0 meaning "no edge") and, for each vertex, a row buffer of n slots
    holding its neighbours, of which the first sizes[u] are in use. */
module MstGraph {
  import opened Edges

  class Graph {
    const n: nat
    const matrix: array2<int>
    const list: array2<int>
    const sizes: array<int>

    /** The buffers have the sizes the constructor gives them. */
    predicate Shaped()
      reads this
    {
      && matrix != list
      && matrix.Length0 == n && matrix.Length1 == n
      && list.Length0 == n && list.Length1 == n
      && sizes.Length == n
    }

    /** Every row holds at most n neighbours, each a vertex. */
    ghost predicate RowsInRange()
      reads this, list, sizes
      requires Shaped()
    {
      && (forall u :: 0 <= u < n ==> 0 <= sizes[u] <= n)
      && (forall u, j :: 0 <= u < n && 0 <= j < sizes[u] && j < n ==> 0 <= list[u, j] < n)
    }

    /** The neighbours recorded for u, in insertion order. */
    ghost function Row(u: int): (r: seq<int>)
      reads this, list, sizes
      requires Shaped() && RowsInRange() && 0 <= u < n
      ensures |r| == sizes[u] && forall j :: 0 <= j < |r| ==> r[j] == list[u, j]
    {
      seq(sizes[u], j requires 0 <= j < list.Length1 reads list => list[u, j])
    }

    /** The matrix is symmetric, and u has a nonzero entry for v exactly when
        v is among u's recorded neighbours. */
    ghost predicate Consistent()
      reads this, matrix, list, sizes
      requires Shaped() && RowsInRange()
    {
      && (forall u, v :: 0 <= u < n && 0 <= v < n ==> matrix[u, v] == matrix[v, u])
      && (forall u, v :: 0 <= u < n && 0 <= v < n ==> (matrix[u, v] != 0 <==> v in Row(u)))
    }

    ghost predicate Valid()
      reads this, matrix, list, sizes
    {
      Shaped() && RowsInRange() && Consistent()
    }

    /** e is an edge of the graph, with the weight the matrix records. */
    ghost predicate IsEdge(e: Edge)
      reads this, matrix
      requires Shaped()
    {
      0 <= e.start < n && 0 <= e.end < n && matrix[e.start, e.end] != 0 && e.weight == matrix[e.start, e.end]
    }

    /** `Graph(v)` with `reallocateMemory(v)`: v vertices, no edges. */
    constructor (v: nat)
      ensures n == v && Valid() && fresh(matrix) && fresh(list) && fresh(sizes)
      ensures forall a, b :: 0 <= a < n && 0 <= b < n ==> matrix[a, b] == 0
      ensures forall u :: 0 <= u < n ==> Row(u) == []
    {
      n := v;
      matrix := new int[v, v]((i, j) => 0);
      list := new int[v, v]((i, j) => 0);
      sizes := new int[v](i => 0);
    }

    /** Writes w into cells (s, e) and (e, s) of the matrix. */
    method SetWeight(s: int, e: int, w: int)
      requires Shaped() && 0 <= s < n && 0 <= e < n
      modifies matrix
      ensures forall a, b :: 0 <= a < n && 0 <= b < n ==>
        matrix[a, b] == if (a == s && b == e) || (a == e && b == s) then w else old(matrix[a, b])
    {
      matrix[s, e] := w;
      matrix[e, s] := w;
    }

    /** Appends v to u's row: `adjacency_list[u][list_sizes[u]++] = v`. */
    method Append(u: int, v: int)
      requires Shaped() && RowsInRange() && 0 <= u < n && 0 <= v < n && sizes[u] < n
      modifies list, sizes
      ensures RowsInRange()
      ensures forall x :: 0 <= x < n ==> sizes[x] == old(sizes[x]) + (if x == u then 1 else 0)
      ensures forall x :: 0 <= x < n ==> Row(x) == old(Row(x)) + (if x == u then [v] else [])
    {
      list[u, sizes[u]] := v;
      sizes[u] := sizes[u] + 1;
      forall x | 0 <= x < n
        ensures Row(x) == old(Row(x)) + (if x == u then [v] else [])
      {
      }
    }

    /** `addEdge(start, end, weight)`: stores the weight in both matrix cells
        and appends each endpoint to the other's row. The source does not
        check its arguments: the endpoints must be vertices, the rows must
        have room, and the weight must not be 0, which the matrix reads as
        "no edge". */
    method AddEdge(s: int, e: int, w: int)
      requires Valid() && 0 <= s < n && 0 <= e < n && w != 0
      requires sizes[s] < n && sizes[e] < n && (s == e ==> sizes[s] + 1 < n)
      modifies matrix, list, sizes
      ensures Valid()
      ensures forall a, b :: 0 <= a < n && 0 <= b < n ==>
        matrix[a, b] == if (a == s && b == e) || (a == e && b == s) then w else old(matrix[a, b])
      ensures forall u :: 0 <= u < n ==>
        Row(u) == old(Row(u)) + (if u == s then [e] else []) + (if u == e then [s] else [])
    {
      SetWeight(s, e, w);
      Append(s, e);
      Append(e, s);
      forall a, b | 0 <= a < n && 0 <= b < n
        ensures matrix[a, b] != 0 <==> b in Row(a)
      {
        assert old(matrix[a, b] != 0 <==> b in Row(a));
      }
    }
  }
}
