/** The disjoint-set forest Kruskal.cpp keeps in its two arrays parent[] and
    rank[]: `find` follows parent links to a root and compresses the path it
    walked, and `unionSets` hangs the root of lower rank under the other one.
    Root is the specification: the root a vertex's parent links lead to. It
    is well defined because ranks grow strictly along every link. */
module UnionFind {

  /** Every parent link stays inside 0..|p|-1 and climbs strictly in rank. */
  predicate ValidForest(p: seq<int>, rk: seq<int>)
  {
    && |p| == |rk|
    && (forall i :: 0 <= i < |p| ==> 0 <= p[i] < |p|)
    && (forall i :: 0 <= i < |p| && p[i] != i ==> rk[i] < rk[p[i]])
  }

  /** The vertices ranked above r; its size measures how far a root can be. */
  ghost function Higher(rk: seq<int>, r: int): set<int>
  {
    set j | 0 <= j < |rk| && rk[j] > r
  }

  lemma HigherShrinks(rk: seq<int>, i: int, j: int)
    requires 0 <= i < |rk| && 0 <= j < |rk| && rk[i] < rk[j]
    ensures |Higher(rk, rk[j])| < |Higher(rk, rk[i])|
  {
    var lo, hi := Higher(rk, rk[j]), Higher(rk, rk[i]);
    assert j in hi - lo;
    assert hi == lo + (hi - lo) && lo * (hi - lo) == {};
  }

  /** The root that i's parent links lead to; it ranks above i unless it is i. */
  ghost function Root(p: seq<int>, rk: seq<int>, i: int): (r: int)
    requires ValidForest(p, rk) && 0 <= i < |p|
    ensures 0 <= r < |p| && p[r] == r
    ensures r != i ==> rk[i] < rk[r]
    decreases |Higher(rk, rk[i])|
  {
    if p[i] == i then i
    else
      HigherShrinks(rk, i, p[i]);
      Root(p, rk, p[i])
  }

  /** a and b are in the same tree. */
  ghost predicate Same(p: seq<int>, rk: seq<int>, a: int, b: int)
    requires ValidForest(p, rk) && 0 <= a < |p| && 0 <= b < |p|
  {
    Root(p, rk, a) == Root(p, rk, b)
  }

  /** After merging the trees of x and y, a and b share a tree exactly when
      they did before, or one was with x and the other with y. */
  ghost predicate Joined(p: seq<int>, rk: seq<int>, x: int, y: int, a: int, b: int)
    requires ValidForest(p, rk) && 0 <= x < |p| && 0 <= y < |p| && 0 <= a < |p| && 0 <= b < |p|
  {
    || Same(p, rk, a, b)
    || (Same(p, rk, a, x) && Same(p, rk, b, y))
    || (Same(p, rk, a, y) && Same(p, rk, b, x))
  }

  /** Pointing i straight at its root keeps the forest valid and changes no
      vertex's root. */
  lemma {:induction false} CompressKeepsRoots(p: seq<int>, rk: seq<int>, i: int, j: int)
    requires ValidForest(p, rk) && 0 <= i < |p| && 0 <= j < |p|
    ensures ValidForest(p[i := Root(p, rk, i)], rk)
    ensures Root(p[i := Root(p, rk, i)], rk, j) == Root(p, rk, j)
    decreases |Higher(rk, rk[j])|
  {
    var q := p[i := Root(p, rk, i)];
    assert ValidForest(q, rk);
    if p[j] != j && j != i {
      HigherShrinks(rk, j, p[j]);
      CompressKeepsRoots(p, rk, i, p[j]);
    }
  }

  /** Hanging root c under root r of higher rank moves c's whole tree under r. */
  lemma {:induction false} LinkMovesTree(p: seq<int>, rk: seq<int>, c: int, r: int, j: int)
    requires ValidForest(p, rk) && 0 <= c < |p| && 0 <= r < |p| && 0 <= j < |p|
    requires p[c] == c && p[r] == r && rk[c] < rk[r]
    ensures ValidForest(p[c := r], rk)
    ensures Root(p[c := r], rk, j) == if Root(p, rk, j) == c then r else Root(p, rk, j)
    decreases |Higher(rk, rk[j])|
  {
    var q := p[c := r];
    assert ValidForest(q, rk);
    if p[j] != j {
      HigherShrinks(rk, j, p[j]);
      LinkMovesTree(p, rk, c, r, p[j]);
    }
  }

  /** Raising a root's rank keeps the forest valid and changes no root. */
  lemma {:induction false} BumpKeepsRoots(p: seq<int>, rk: seq<int>, r: int, j: int)
    requires ValidForest(p, rk) && 0 <= r < |p| && p[r] == r && 0 <= j < |p|
    ensures ValidForest(p, rk[r := rk[r] + 1])
    ensures Root(p, rk[r := rk[r] + 1], j) == Root(p, rk, j)
    decreases |Higher(rk, rk[j])|
  {
    var rk' := rk[r := rk[r] + 1];
    assert ValidForest(p, rk');
    if p[j] != j {
      HigherShrinks(rk, j, p[j]);
      BumpKeepsRoots(p, rk, r, p[j]);
    }
  }

  /** The vertices `find` walks from i: i, its parent, its grandparent, and
      so on up to and including i's root. */
  ghost function Path(p: seq<int>, rk: seq<int>, i: int): (path: seq<int>)
    requires ValidForest(p, rk) && 0 <= i < |p|
    ensures 1 <= |path| && path[0] == i && path[|path| - 1] == Root(p, rk, i)
    ensures forall k :: 0 <= k < |path| ==> 0 <= path[k] < |p|
    ensures forall k :: 0 <= k < |path| - 1 ==> p[path[k]] != path[k] && path[k + 1] == p[path[k]]
    decreases |Higher(rk, rk[i])|
  {
    if p[i] == i then [i]
    else
      HigherShrinks(rk, i, p[i]);
      [i] + Path(p, rk, p[i])
  }

  /** p' is p with every vertex of i's walked path pointed at r, and every
      other vertex keeping its parent. */
  ghost predicate Compressed(p: seq<int>, p': seq<int>, rk: seq<int>, i: int, r: int)
    requires ValidForest(p, rk) && 0 <= i < |p|
  {
    |p'| == |p| && forall j :: 0 <= j < |p| ==> p'[j] == if j in Path(p, rk, i) then r else p[j]
  }

  /** The step of `find` at a vertex i that is not a root: once the call on
      i's parent has compressed the parent's path (mid), pointing i at the
      root compresses i's path, keeps every root, and leaves every vertex
      ranked below i alone. */
  lemma FindStep(p: seq<int>, mid: seq<int>, rk: seq<int>, i: int, r: int)
    requires ValidForest(p, rk) && 0 <= i < |p| && p[i] != i
    requires ValidForest(mid, rk) && |mid| == |p|
    requires r == Root(p, rk, p[i]) && mid[p[i]] == r
    requires forall j :: 0 <= j < |p| ==> Root(mid, rk, j) == Root(p, rk, j)
    requires forall j :: 0 <= j < |p| && rk[j] < rk[p[i]] ==> mid[j] == p[j]
    requires Compressed(p, mid, rk, p[i], r)
    ensures r == Root(p, rk, i) && ValidForest(mid[i := r], rk)
    ensures forall j :: 0 <= j < |p| ==> Root(mid[i := r], rk, j) == Root(p, rk, j)
    ensures forall j :: 0 <= j < |p| && rk[j] < rk[i] ==> mid[i := r][j] == p[j]
    ensures Compressed(p, mid[i := r], rk, i, r)
  {
    HigherShrinks(rk, i, p[i]);
    assert Path(p, rk, i) == [i] + Path(p, rk, p[i]);
    forall j | 0 <= j < |p|
      ensures Root(mid[i := r], rk, j) == Root(p, rk, j)
    {
      CompressKeepsRoots(mid, rk, i, j);
    }
  }

  /** `find(parent, i)` (Kruskal.cpp): returns i's root and, on the way back,
      points every vertex of the walked path straight at it. Every other vertex
      keeps its parent, no vertex's root changes, and no vertex ranked below
      i is touched. */
  method Find(parent: array<int>, rank: array<int>, i: int) returns (r: int)
    requires parent != rank && ValidForest(parent[..], rank[..]) && 0 <= i < parent.Length
    modifies parent
    ensures r == Root(old(parent[..]), rank[..], i) && parent[i] == r
    ensures ValidForest(parent[..], rank[..])
    ensures forall j :: 0 <= j < parent.Length ==> Root(parent[..], rank[..], j) == Root(old(parent[..]), rank[..], j)
    ensures forall j :: 0 <= j < parent.Length && rank[j] < rank[i] ==> parent[j] == old(parent[j])
    ensures Compressed(old(parent[..]), parent[..], rank[..], i, r)
    decreases |Higher(rank[..], rank[i])|
  {
    if parent[i] != i {
      HigherShrinks(rank[..], i, parent[i]);
      var root := Find(parent, rank, parent[i]);
      FindStep(old(parent[..]), parent[..], rank[..], i, root);
      ghost var next := parent[..][i := root];
      parent[i] := root;
      assert parent[..] == next;
    }
    r := parent[i];
  }

  /** The two `find` calls that open `unionSets`: the roots of x and y, with
      every vertex keeping its root. */
  method FindBoth(parent: array<int>, rank: array<int>, x: int, y: int) returns (rootX: int, rootY: int)
    requires parent != rank && ValidForest(parent[..], rank[..])
    requires 0 <= x < parent.Length && 0 <= y < parent.Length
    modifies parent
    ensures ValidForest(parent[..], rank[..])
    ensures rootX == Root(old(parent[..]), rank[..], x) && rootY == Root(old(parent[..]), rank[..], y)
    ensures forall j :: 0 <= j < parent.Length ==> Root(parent[..], rank[..], j) == Root(old(parent[..]), rank[..], j)
  {
    rootX := Find(parent, rank, x);
    rootY := Find(parent, rank, y);
  }

  /** Root after a merge of the trees rooted at rx and ry under w. */
  ghost predicate MergedInto(p0: seq<int>, rk0: seq<int>, p: seq<int>, rk: seq<int>, rx: int, ry: int, w: int)
    requires ValidForest(p0, rk0) && ValidForest(p, rk) && |p| == |p0|
  {
    forall j :: 0 <= j < |p| ==>
      Root(p, rk, j) == if Root(p0, rk0, j) == rx || Root(p0, rk0, j) == ry then w else Root(p0, rk0, j)
  }

  /** Hanging root c under root r of higher rank merges their trees under r. */
  lemma LinkRoots(p0: seq<int>, p: seq<int>, rk: seq<int>, c: int, r: int)
    requires ValidForest(p0, rk) && ValidForest(p, rk) && |p| == |p0|
    requires forall j :: 0 <= j < |p| ==> Root(p, rk, j) == Root(p0, rk, j)
    requires 0 <= c < |p| && 0 <= r < |p| && p[c] == c && p[r] == r && rk[c] < rk[r]
    ensures ValidForest(p[c := r], rk) && MergedInto(p0, rk, p[c := r], rk, c, r, r)
  {
    LinkMovesTree(p, rk, c, r, c);
    forall j | 0 <= j < |p|
      ensures Root(p[c := r], rk, j) == if Root(p, rk, j) == c then r else Root(p, rk, j)
    {
      LinkMovesTree(p, rk, c, r, j);
    }
  }

  /** Equal ranks: y's root r2 goes under x's root r1, whose rank rises. */
  lemma LinkEqualRoots(p0: seq<int>, p: seq<int>, rk: seq<int>, r1: int, r2: int)
    requires ValidForest(p0, rk) && ValidForest(p, rk) && |p| == |p0|
    requires forall j :: 0 <= j < |p| ==> Root(p, rk, j) == Root(p0, rk, j)
    requires 0 <= r1 < |p| && 0 <= r2 < |p| && p[r1] == r1 && p[r2] == r2 && rk[r1] == rk[r2]
    ensures ValidForest(p[r2 := r1], rk[r1 := rk[r1] + 1])
    ensures MergedInto(p0, rk, p[r2 := r1], rk[r1 := rk[r1] + 1], r1, r2, r1)
  {
    var rk' := rk[r1 := rk[r1] + 1];
    BumpKeepsRoots(p, rk, r1, r1);
    forall j | 0 <= j < |p|
      ensures Root(p, rk', j) == Root(p0, rk, j)
    {
      BumpKeepsRoots(p, rk, r1, j);
    }
    if r1 != r2 {
      LinkMovesTree(p, rk', r2, r1, r2);
      forall j | 0 <= j < |p|
        ensures Root(p[r2 := r1], rk', j) == if Root(p, rk', j) == r2 then r1 else Root(p, rk', j)
      {
        LinkMovesTree(p, rk', r2, r1, j);
      }
    } else {
      assert p[r2 := r1] == p;
    }
  }

  /** A merge of the trees of x and y joins exactly the pairs Joined names. */
  lemma MergedJoins(p0: seq<int>, rk0: seq<int>, p: seq<int>, rk: seq<int>, x: int, y: int, w: int)
    requires ValidForest(p0, rk0) && ValidForest(p, rk) && |p| == |p0|
    requires 0 <= x < |p| && 0 <= y < |p|
    requires w == Root(p0, rk0, x) || w == Root(p0, rk0, y)
    requires MergedInto(p0, rk0, p, rk, Root(p0, rk0, x), Root(p0, rk0, y), w)
    ensures forall a, b :: 0 <= a < |p| && 0 <= b < |p| ==>
      (Same(p, rk, a, b) <==> Joined(p0, rk0, x, y, a, b))
  {
  }

  /** `unionSets(parent, rank, x, y)` (Kruskal.cpp): finds both roots; the
      root of lower rank goes under the other; on equal ranks y's root goes
      under x's and x's root gains a rank. Afterwards the trees of x and y
      are one and no other pair of vertices is joined. When x and y already
      share a root, the source still raises that root's rank. */
  method Union(parent: array<int>, rank: array<int>, x: int, y: int)
    requires parent != rank && ValidForest(parent[..], rank[..])
    requires 0 <= x < parent.Length && 0 <= y < parent.Length
    modifies parent, rank
    ensures ValidForest(parent[..], rank[..])
    ensures forall a, b :: 0 <= a < parent.Length && 0 <= b < parent.Length ==>
      (Same(parent[..], rank[..], a, b) <==> Joined(old(parent[..]), old(rank[..]), x, y, a, b))
    ensures
      var rx := Root(old(parent[..]), old(rank[..]), x);
      var ry := Root(old(parent[..]), old(rank[..]), y);
      rank[..] == if rx == ry || old(rank[rx]) == old(rank[ry]) then old(rank[..])[rx := old(rank[rx]) + 1] else old(rank[..])
  {
    ghost var p0 := parent[..];
    var rootX, rootY := FindBoth(parent, rank, x, y);
    ghost var p2 := parent[..];
    ghost var rk := rank[..];
    if rank[rootX] < rank[rootY] {
      LinkRoots(p0, p2, rk, rootX, rootY);
      parent[rootX] := rootY;
      assert parent[..] == p2[rootX := rootY];
      MergedJoins(p0, rk, parent[..], rk, x, y, rootY);
    } else if rank[rootX] > rank[rootY] {
      LinkRoots(p0, p2, rk, rootY, rootX);
      parent[rootY] := rootX;
      assert parent[..] == p2[rootY := rootX];
      MergedJoins(p0, rk, parent[..], rk, x, y, rootX);
    } else {
      LinkEqualRoots(p0, p2, rk, rootX, rootY);
      parent[rootY] := rootX;
      rank[rootX] := rank[rootX] + 1;
      assert rank[..] == rk[rootX := rk[rootX] + 1];
      assert parent[..] == p2[rootY := rootX];
      MergedJoins(p0, rk, parent[..], rank[..], x, y, rootX);
    }
  }
}
