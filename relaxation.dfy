/** The meaning of the two Bellman-Ford procedures of BellmanFord.cpp, on
    values. Both keep a distance and a parent per vertex (`dist`, `parent`),
    start with every distance INT_MAX ("unreached") but the start vertex's,
    which is 0, and then run V - 1 rounds; a round looks at every edge of
    the graph in a fixed order and relaxes it: when the edge's source is
    reached and the source's distance plus the weight is below the target's
    distance, the target gets that sum and the source as parent. The two
    procedures differ only in the order in which a round meets the edges,
    so everything here is stated for an arbitrary edge sequence E.

    Distances are unbounded integers: the source adds `dist[u] + weight` in
    32-bit ints, which is not modelled. */
module Relaxation {
  import opened Edges

  /** The `dist` and `parent` arrays. */
  datatype Labels = Labels(dist: seq<int>, parent: seq<int>)

  /** Every edge of es joins two of the vertices 0 .. n-1. */
  predicate Within(es: seq<Edge>, n: int)
  {
    forall k :: 0 <= k < |es| ==> 0 <= es[k].start < n && 0 <= es[k].end < n
  }

  /** Both arrays have one entry per vertex. */
  predicate Sized(L: Labels, n: int)
  {
    |L.dist| == n && |L.parent| == n
  }

  /** The initialisation of both procedures. */
  function Initial(n: nat, s: int): (L: Labels)
    requires 0 <= s < n
    ensures Sized(L, n) && L.dist[s] == 0
    ensures forall v :: 0 <= v < n ==> L.parent[v] == -1 && (v != s ==> L.dist[v] == IntMax)
  {
    Labels(seq(n, v => if v == s then 0 else IntMax), seq(n, _ => -1))
  }

  /** The test of both procedures: the source of e is reached and going
      through e is shorter than the target's distance. */
  predicate Relaxes(d: seq<int>, e: Edge)
    requires 0 <= e.start < |d| && 0 <= e.end < |d|
  {
    d[e.start] != IntMax && d[e.start] + e.weight < d[e.end]
  }

  /** Looking at one edge. */
  function Relax(L: Labels, e: Edge): (L': Labels)
    requires Sized(L, |L.dist|) && 0 <= e.start < |L.dist| && 0 <= e.end < |L.dist|
    ensures Sized(L', |L.dist|)
  {
    if Relaxes(L.dist, e) then Labels(L.dist[e.end := L.dist[e.start] + e.weight], L.parent[e.end := e.start])
    else L
  }

  /** Looking at the edges of es in order. */
  function Round(L: Labels, es: seq<Edge>): (L': Labels)
    requires Sized(L, |L.dist|) && Within(es, |L.dist|)
    ensures Sized(L', |L.dist|)
    decreases |es|
  {
    if |es| == 0 then L else Relax(Round(L, es[..|es| - 1]), es[|es| - 1])
  }

  /** k rounds over es. */
  function Rounds(L: Labels, es: seq<Edge>, k: nat): (L': Labels)
    requires Sized(L, |L.dist|) && Within(es, |L.dist|)
    ensures Sized(L', |L.dist|)
  {
    if k == 0 then L else Round(Rounds(L, es, k - 1), es)
  }

  /** Some edge of es still relaxes: the negative-cycle test. */
  predicate AnyRelaxes(d: seq<int>, es: seq<Edge>)
    requires Within(es, |d|)
    decreases |es|
  {
    |es| > 0 && (AnyRelaxes(d, es[..|es| - 1]) || Relaxes(d, es[|es| - 1]))
  }

  /** AnyRelaxes is "some edge relaxes". */
  lemma {:induction false} AnyRelaxesExists(d: seq<int>, es: seq<Edge>)
    requires Within(es, |d|)
    ensures AnyRelaxes(d, es) <==> exists k :: 0 <= k < |es| && Relaxes(d, es[k])
    decreases |es|
  {
    if |es| > 0 {
      var init := es[..|es| - 1];
      AnyRelaxesExists(d, init);
      if AnyRelaxes(d, init) {
        var k :| 0 <= k < |init| && Relaxes(d, init[k]);
        assert es[k] == init[k];
      }
      if exists k :: 0 <= k < |es| && Relaxes(d, es[k]) {
        var k :| 0 <= k < |es| && Relaxes(d, es[k]);
        if k < |init| {
          assert init[k] == es[k];
        }
      }
    }
  }

  lemma RoundSnoc(L: Labels, es: seq<Edge>, e: Edge)
    requires Sized(L, |L.dist|) && Within(es + [e], |L.dist|)
    ensures Round(L, es + [e]) == Relax(Round(L, es), e)
  {
    SnocPrefix(es, e);
  }

  lemma AnySnoc(d: seq<int>, es: seq<Edge>, e: Edge)
    requires Within(es, |d|) && 0 <= e.start < |d| && 0 <= e.end < |d|
    ensures Within(es + [e], |d|)
    ensures AnyRelaxes(d, es + [e]) <==> AnyRelaxes(d, es) || Relaxes(d, e)
  {
    SnocPrefix(es, e);
  }

  /** A round over a + b is a round over a, then one over b. */
  lemma {:induction false} RoundAppend(L: Labels, a: seq<Edge>, b: seq<Edge>)
    requires Sized(L, |L.dist|) && Within(a + b, |L.dist|)
    ensures Within(a, |L.dist|) && Within(b, |L.dist|)
    ensures Round(L, a + b) == Round(Round(L, a), b)
    decreases |b|
  {
    assert forall k :: 0 <= k < |a| ==> a[k] == (a + b)[k];
    assert forall k :: 0 <= k < |b| ==> b[k] == (a + b)[|a| + k];
    if |b| > 0 {
      var b' := b[..|b| - 1];
      assert a + b == (a + b') + [b[|b| - 1]];
      RoundAppend(L, a, b');
      RoundSnoc(L, a + b', b[|b| - 1]);
      RoundSnoc(Round(L, a), b', b[|b| - 1]);
    } else {
      assert a + b == a;
    }
  }

  /** Some edge of a + b relaxes iff one of a or one of b does. */
  lemma {:induction false} AnyAppend(d: seq<int>, a: seq<Edge>, b: seq<Edge>)
    requires Within(a + b, |d|)
    ensures Within(a, |d|) && Within(b, |d|)
    ensures AnyRelaxes(d, a + b) <==> AnyRelaxes(d, a) || AnyRelaxes(d, b)
    decreases |b|
  {
    assert forall k :: 0 <= k < |a| ==> a[k] == (a + b)[k];
    assert forall k :: 0 <= k < |b| ==> b[k] == (a + b)[|a| + k];
    if |b| > 0 {
      var b' := b[..|b| - 1];
      assert a + b == (a + b') + [b[|b| - 1]];
      AnyAppend(d, a, b');
      AnySnoc(d, a + b', b[|b| - 1]);
      AnySnoc(d, b', b[|b| - 1]);
    } else {
      assert a + b == a;
    }
  }

  /** An edge that relaxes in a prefix of b relaxes in b. */
  lemma AnyPrefix(d: seq<int>, a: seq<Edge>, b: seq<Edge>)
    requires a <= b && Within(b, |d|)
    ensures Within(a, |d|) && (AnyRelaxes(d, a) ==> AnyRelaxes(d, b))
  {
    assert b == a + b[|a|..];
    AnyAppend(d, a, b[|a|..]);
  }

  /** Edges out of an unreached vertex never relax. */
  lemma NoneFrom(d: seq<int>, es: seq<Edge>, u: int)
    requires Within(es, |d|) && 0 <= u < |d| && d[u] == IntMax
    requires forall k :: 0 <= k < |es| ==> es[k].start == u
    ensures !AnyRelaxes(d, es)
  {
    AnyRelaxesExists(d, es);
  }

  /** So a round over them changes nothing: `bellmanFordList` skips the
      row of an unreached vertex. */
  lemma {:induction false} SkipRow(L: Labels, es: seq<Edge>, u: int)
    requires Sized(L, |L.dist|) && Within(es, |L.dist|) && 0 <= u < |L.dist| && L.dist[u] == IntMax
    requires forall k :: 0 <= k < |es| ==> es[k].start == u
    ensures Round(L, es) == L
    decreases |es|
  {
    if |es| > 0 {
      SkipRow(L, es[..|es| - 1], u);
      assert es[|es| - 1].start == u;
    }
  }

  /** No distance exceeds IntMax. */
  ghost predicate AtMost(d: seq<int>)
  {
    forall v :: 0 <= v < |d| ==> d[v] <= IntMax
  }

  /** Every distance of d' is at most the one of d. */
  ghost predicate Lower(d': seq<int>, d: seq<int>)
  {
    |d'| == |d| && forall v :: 0 <= v < |d| ==> d'[v] <= d[v]
  }

  /** p is a walk along edges of E from s to v. */
  ghost predicate Walk(E: seq<Edge>, s: int, v: int, p: seq<Edge>)
  {
    && (forall i :: 0 <= i < |p| ==> p[i] in E)
    && (if |p| == 0 then v == s else p[0].start == s && p[|p| - 1].end == v)
    && (forall i :: 0 < i < |p| ==> p[i - 1].end == p[i].start)
  }

  /** Every proper prefix of p weighs less than IntMax: the walk never
      passes through a vertex the procedures would take as unreached. */
  ghost predicate Bounded(p: seq<Edge>)
  {
    forall i :: 0 <= i < |p| ==> SumWeights(p[..i]) < IntMax
  }

  /** Distances are at most IntMax, the start's at most 0. */
  ghost predicate Bounds(s: int, L: Labels)
  {
    Sized(L, |L.dist|) && 0 <= s < |L.dist| && AtMost(L.dist) && L.dist[s] <= 0
  }

  /** A vertex is reached exactly when it is the start or has a parent. */
  ghost predicate Reached(s: int, L: Labels)
    requires Sized(L, |L.dist|)
  {
    forall v :: 0 <= v < |L.dist| ==> (L.dist[v] != IntMax <==> v == s || L.parent[v] != -1)
  }

  /** Every reached vertex's distance is the weight of a walk from s, each
      prefix of it lighter than IntMax. */
  ghost predicate Witnessed(E: seq<Edge>, s: int, L: Labels)
  {
    forall v :: 0 <= v < |L.dist| && L.dist[v] != IntMax ==>
      exists p {:trigger Walk(E, s, v, p)} :: Walk(E, s, v, p) && Bounded(p) && SumWeights(p) == L.dist[v]
  }

  /** A parent is the reached source of an edge of E into the vertex, no
      heavier than the vertex's distance. */
  ghost predicate Parented(E: seq<Edge>, L: Labels)
    requires Sized(L, |L.dist|)
  {
    forall v :: 0 <= v < |L.dist| && L.parent[v] != -1 ==>
      exists e {:trigger e in E} :: e in E && e.start == L.parent[v] && e.end == v && 0 <= e.start < |L.dist|
                  && L.dist[e.start] != IntMax && L.dist[e.start] + e.weight <= L.dist[v]
  }

  /** What the procedures keep true of the labels, round after round. */
  ghost predicate Sound(E: seq<Edge>, s: int, L: Labels)
  {
    Bounds(s, L) && Reached(s, L) && Witnessed(E, s, L) && Parented(E, L)
  }

  /** No walk from s of at most k edges (with its prefixes below IntMax)
      is lighter than the distance of its last vertex. */
  ghost predicate Below(E: seq<Edge>, s: int, d: seq<int>, k: int)
  {
    forall v, p {:trigger Walk(E, s, v, p)} :: 0 <= v < |d| && Walk(E, s, v, p) && |p| <= k && Bounded(p) ==> d[v] <= SumWeights(p)
  }

  /** No walk from s at all is lighter. */
  ghost predicate Shortest(E: seq<Edge>, s: int, d: seq<int>)
  {
    forall v, p {:trigger Walk(E, s, v, p)} :: 0 <= v < |d| && Walk(E, s, v, p) && Bounded(p) ==> d[v] <= SumWeights(p)
  }

  /** The initial labels are sound. */
  lemma InitialSound(E: seq<Edge>, n: nat, s: int)
    requires 0 <= s < n
    ensures Sound(E, s, Initial(n, s))
  {
    assert Walk(E, s, s, []) && Bounded([]);
  }

  /** Extending a walk by an edge of E out of its last vertex. */
  lemma WalkSnoc(E: seq<Edge>, s: int, p: seq<Edge>, e: Edge)
    requires Walk(E, s, e.start, p) && Bounded(p) && SumWeights(p) < IntMax && e in E
    ensures Walk(E, s, e.end, p + [e]) && Bounded(p + [e]) && SumWeights(p + [e]) == SumWeights(p) + e.weight
  {
    SumSnoc(p, e);
    var q := p + [e];
    forall i | 0 <= i < |q| ensures SumWeights(q[..i]) < IntMax {
      if i < |p| {
        assert q[..i] == p[..i];
      } else {
        assert q[..i] == p;
      }
    }
  }

  /** Looking at an edge of E keeps the labels sound. */
  lemma RelaxSound(E: seq<Edge>, s: int, L: Labels, e: Edge)
    requires Sound(E, s, L) && e in E && 0 <= e.start < |L.dist| && 0 <= e.end < |L.dist|
    ensures Sound(E, s, Relax(L, e))
  {
    if Relaxes(L.dist, e) {
      RelaxWitnessed(E, s, L, e);
      RelaxParented(E, s, L, e);
    }
  }

  lemma RelaxWitnessed(E: seq<Edge>, s: int, L: Labels, e: Edge)
    requires Sound(E, s, L) && e in E && 0 <= e.start < |L.dist| && 0 <= e.end < |L.dist|
    requires Relaxes(L.dist, e)
    ensures Witnessed(E, s, Relax(L, e))
  {
    var L' := Relax(L, e);
    var p :| Walk(E, s, e.start, p) && Bounded(p) && SumWeights(p) == L.dist[e.start];
    WalkSnoc(E, s, p, e);
    forall v | 0 <= v < |L'.dist| && L'.dist[v] != IntMax
      ensures exists q :: Walk(E, s, v, q) && Bounded(q) && SumWeights(q) == L'.dist[v]
    {
      if v == e.end {
        assert Walk(E, s, v, p + [e]);
      } else {
        assert L.dist[v] != IntMax;
      }
    }
  }

  lemma RelaxParented(E: seq<Edge>, s: int, L: Labels, e: Edge)
    requires Sound(E, s, L) && e in E && 0 <= e.start < |L.dist| && 0 <= e.end < |L.dist|
    requires Relaxes(L.dist, e)
    ensures Parented(E, Relax(L, e))
  {
    var L' := Relax(L, e);
    forall v | 0 <= v < |L'.dist| && L'.parent[v] != -1
      ensures exists f :: f in E && f.start == L'.parent[v] && f.end == v && 0 <= f.start < |L'.dist|
                          && L'.dist[f.start] != IntMax && L'.dist[f.start] + f.weight <= L'.dist[v]
    {
      if v == e.end {
        assert e.start == L'.parent[v];
      } else {
        var f :| f in E && f.start == L.parent[v] && f.end == v && 0 <= f.start < |L.dist|
                 && L.dist[f.start] != IntMax && L.dist[f.start] + f.weight <= L.dist[v];
        assert L'.dist[f.start] <= L.dist[f.start];
      }
    }
  }

  /** Each edge of es is an edge of E. */
  ghost predicate EdgesOf(es: seq<Edge>, E: seq<Edge>)
  {
    forall k :: 0 <= k < |es| ==> es[k] in E
  }

  /** A round over edges of E keeps the labels sound. */
  lemma {:induction false} RoundSound(E: seq<Edge>, s: int, L: Labels, es: seq<Edge>)
    requires Sound(E, s, L) && Within(es, |L.dist|) && EdgesOf(es, E)
    ensures Sound(E, s, Round(L, es))
    decreases |es|
  {
    if |es| > 0 {
      RoundSound(E, s, L, es[..|es| - 1]);
      RelaxSound(E, s, Round(L, es[..|es| - 1]), es[|es| - 1]);
    }
  }

  /** Rounds over E keep the labels sound. */
  lemma {:induction false} RoundsSound(E: seq<Edge>, s: int, L: Labels, k: nat)
    requires Sound(E, s, L) && Within(E, |L.dist|)
    ensures Sound(E, s, Rounds(L, E, k))
  {
    if k > 0 {
      RoundsSound(E, s, L, k - 1);
      RoundSound(E, s, Rounds(L, E, k - 1), E);
    }
  }

  /** After a round over es from labels L0, no distance has grown, and each
      edge of es out of a vertex reached in L0 leads to a target no farther
      than the source's distance in L0 plus the weight. */
  ghost predicate Settled(L0: Labels, L: Labels, es: seq<Edge>)
    requires Sized(L0, |L0.dist|) && Sized(L, |L0.dist|) && Within(es, |L0.dist|)
  {
    && Lower(L.dist, L0.dist)
    && forall k :: 0 <= k < |es| && L0.dist[es[k].start] != IntMax ==>
         L.dist[es[k].end] <= L0.dist[es[k].start] + es[k].weight
  }

  lemma {:induction false} RoundSettles(L0: Labels, es: seq<Edge>)
    requires Sized(L0, |L0.dist|) && AtMost(L0.dist) && Within(es, |L0.dist|)
    ensures Settled(L0, Round(L0, es), es)
    decreases |es|
  {
    if |es| > 0 {
      var init, e := es[..|es| - 1], es[|es| - 1];
      RoundSettles(L0, init);
      var R := Round(L0, init);
      forall k | 0 <= k < |es| && L0.dist[es[k].start] != IntMax
        ensures Round(L0, es).dist[es[k].end] <= L0.dist[es[k].start] + es[k].weight
      {
        if k < |init| {
          assert es[k] == init[k];
        } else {
          assert R.dist[e.start] <= L0.dist[e.start] <= IntMax;
        }
      }
    }
  }

  /** A round over E extends the walks the distances are below by one
      edge. */
  lemma RoundBelow(E: seq<Edge>, s: int, L: Labels, k: nat)
    requires Sized(L, |L.dist|) && AtMost(L.dist) && Within(E, |L.dist|) && Below(E, s, L.dist, k)
    ensures Below(E, s, Round(L, E).dist, k + 1)
  {
    var R := Round(L, E);
    RoundSettles(L, E);
    forall v, p | 0 <= v < |R.dist| && Walk(E, s, v, p) && |p| <= k + 1 && Bounded(p)
      ensures R.dist[v] <= SumWeights(p)
    {
      if |p| <= k {
        assert L.dist[v] <= SumWeights(p);
      } else {
        LastEdge(E, s, L, R, v, p);
      }
    }
  }

  /** A walk of at least one edge is a shorter walk followed by its last
      edge. */
  lemma WalkInit(E: seq<Edge>, s: int, v: int, p: seq<Edge>)
    requires Walk(E, s, v, p) && |p| > 0 && Bounded(p)
    ensures var q := p[..|p| - 1];
      && Walk(E, s, p[|p| - 1].start, q) && Bounded(q) && SumWeights(q) < IntMax
      && SumWeights(p) == SumWeights(q) + p[|p| - 1].weight
      && p[|p| - 1] in E && p[|p| - 1].end == v
  {
    var q, e := p[..|p| - 1], p[|p| - 1];
    assert p == q + [e];
    assert Walk(E, s, e.start, q) by {
      assert forall i :: 0 <= i < |q| ==> q[i] == p[i];
    }
    assert Bounded(q) by {
      assert forall i :: 0 <= i < |q| ==> q[..i] == p[..i];
    }
    SumSnoc(q, e);
  }

  /** The last edge of a walk bounds the distance of its target after a
      round that settled it. */
  lemma LastEdge(E: seq<Edge>, s: int, L: Labels, R: Labels, v: int, p: seq<Edge>)
    requires Sized(L, |L.dist|) && AtMost(L.dist) && Within(E, |L.dist|) && Below(E, s, L.dist, |p| - 1)
    requires Sized(R, |L.dist|) && Settled(L, R, E)
    requires 0 <= v < |L.dist| && Walk(E, s, v, p) && |p| > 0 && Bounded(p)
    ensures R.dist[v] <= SumWeights(p)
  {
    WalkInit(E, s, v, p);
    var q, e := p[..|p| - 1], p[|p| - 1];
    var j :| 0 <= j < |E| && E[j] == e;
    assert 0 <= e.start < |L.dist|;
    assert L.dist[e.start] <= SumWeights(q);
    assert R.dist[E[j].end] <= L.dist[E[j].start] + E[j].weight;
  }

  /** After k rounds from the initial labels, no walk of at most k edges
      is lighter than the distance of its last vertex. */
  lemma {:induction false} RoundsBelow(E: seq<Edge>, n: nat, s: int, k: nat)
    requires 0 <= s < n && Within(E, n)
    ensures Below(E, s, Rounds(Initial(n, s), E, k).dist, k)
  {
    if k == 0 {
      assert Initial(n, s).dist[s] == 0;
    } else {
      var L := Rounds(Initial(n, s), E, k - 1);
      RoundsBelow(E, n, s, k - 1);
      RoundsAtMost(Initial(n, s), E, k - 1);
      RoundBelow(E, s, L, k - 1);
    }
  }

  /** A round never raises a distance above IntMax. */
  lemma RoundAtMost(L: Labels, es: seq<Edge>)
    requires Sized(L, |L.dist|) && AtMost(L.dist) && Within(es, |L.dist|)
    ensures AtMost(Round(L, es).dist)
  {
    RoundSettles(L, es);
  }

  /** Nor do rounds. */
  lemma {:induction false} RoundsAtMost(L: Labels, E: seq<Edge>, k: nat)
    requires Sized(L, |L.dist|) && AtMost(L.dist) && Within(E, |L.dist|)
    ensures AtMost(Rounds(L, E, k).dist)
  {
    if k > 0 {
      RoundsAtMost(L, E, k - 1);
      RoundSettles(Rounds(L, E, k - 1), E);
    }
  }

  /** When no edge relaxes any more, no walk at all is lighter than the
      distance of its last vertex. */
  lemma Stable(E: seq<Edge>, s: int, L: Labels)
    requires Sound(E, s, L) && Within(E, |L.dist|) && !AnyRelaxes(L.dist, E)
    ensures Shortest(E, s, L.dist)
  {
    AnyRelaxesExists(L.dist, E);
    forall v, p | 0 <= v < |L.dist| && Walk(E, s, v, p) && Bounded(p)
      ensures L.dist[v] <= SumWeights(p)
    {
      StableWalk(E, s, L, v, p);
    }
  }

  lemma {:induction false} StableWalk(E: seq<Edge>, s: int, L: Labels, v: int, p: seq<Edge>)
    requires Sound(E, s, L) && Within(E, |L.dist|)
    requires forall k :: 0 <= k < |E| ==> !Relaxes(L.dist, E[k])
    requires 0 <= v < |L.dist| && Walk(E, s, v, p) && Bounded(p)
    ensures L.dist[v] <= SumWeights(p)
    decreases |p|
  {
    if |p| > 0 {
      WalkInit(E, s, v, p);
      var q, e := p[..|p| - 1], p[|p| - 1];
      var j :| 0 <= j < |E| && E[j] == e;
      StableWalk(E, s, L, e.start, q);
      assert !Relaxes(L.dist, E[j]);
    }
  }

  /** v is reached from s by a walk along E lighter than IntMax, each of
      its prefixes lighter too. */
  ghost predicate Reachable(E: seq<Edge>, s: int, v: int)
  {
    exists p :: Walk(E, s, v, p) && Bounded(p) && SumWeights(p) < IntMax
  }

  /** Sound labels that no edge relaxes are the shortest distances: a
      vertex is unreached exactly when no walk reaches it, and a reached
      one's distance is the weight of a walk no other walk undercuts. */
  lemma Exact(E: seq<Edge>, s: int, L: Labels, v: int)
    requires Sound(E, s, L) && Shortest(E, s, L.dist) && 0 <= v < |L.dist|
    ensures L.dist[v] == IntMax <==> !Reachable(E, s, v)
  {
    if Reachable(E, s, v) {
      var p :| Walk(E, s, v, p) && Bounded(p) && SumWeights(p) < IntMax;
      assert L.dist[v] <= SumWeights(p);
    }
  }

  /** Two edge sequences with the same edges, whose sound labels no edge
      relaxes, have the same distances. */
  lemma SameDistances(E1: seq<Edge>, E2: seq<Edge>, s: int, L1: Labels, L2: Labels)
    requires forall e :: e in E1 <==> e in E2
    requires Sound(E1, s, L1) && Shortest(E1, s, L1.dist)
    requires Sound(E2, s, L2) && Shortest(E2, s, L2.dist) && |L1.dist| == |L2.dist|
    ensures L1.dist == L2.dist
  {
    forall v | 0 <= v < |L1.dist| ensures L1.dist[v] == L2.dist[v] {
      if L1.dist[v] != IntMax {
        var p :| Walk(E1, s, v, p) && Bounded(p) && SumWeights(p) == L1.dist[v];
        assert Walk(E2, s, v, p);
      }
      if L2.dist[v] != IntMax {
        var p :| Walk(E2, s, v, p) && Bounded(p) && SumWeights(p) == L2.dist[v];
        assert Walk(E1, s, v, p);
      }
    }
  }

  /** Any number of rounds from the initial labels leaves them sound. */
  lemma SoundFromInitial(E: seq<Edge>, n: nat, s: int, k: nat)
    requires 0 <= s < n && Within(E, n)
    ensures Sound(E, s, Rounds(Initial(n, s), E, k))
  {
    InitialSound(E, n, s);
    RoundsSound(E, s, Initial(n, s), k);
  }

  /** When no edge relaxes after the V - 1 rounds, the labels are sound
      and no walk is lighter than a distance. */
  lemma Converged(E: seq<Edge>, n: nat, s: int)
    requires 0 <= s < n && Within(E, n) && !AnyRelaxes(Rounds(Initial(n, s), E, n - 1).dist, E)
    ensures Sound(E, s, Rounds(Initial(n, s), E, n - 1))
    ensures Shortest(E, s, Rounds(Initial(n, s), E, n - 1).dist)
  {
    SoundFromInitial(E, n, s, n - 1);
    Stable(E, s, Rounds(Initial(n, s), E, n - 1));
  }

  /** Two edge sequences holding the same edges, after each of which no
      edge relaxes after the V - 1 rounds, give the same distances. */
  lemma SameConverged(E1: seq<Edge>, E2: seq<Edge>, n: nat, s: int)
    requires 0 <= s < n && Within(E1, n) && Within(E2, n) && forall e :: e in E1 <==> e in E2
    requires !AnyRelaxes(Rounds(Initial(n, s), E1, n - 1).dist, E1)
    requires !AnyRelaxes(Rounds(Initial(n, s), E2, n - 1).dist, E2)
    ensures Rounds(Initial(n, s), E1, n - 1).dist == Rounds(Initial(n, s), E2, n - 1).dist
  {
    Converged(E1, n, s);
    Converged(E2, n, s);
    SameDistances(E1, E2, s, Rounds(Initial(n, s), E1, n - 1), Rounds(Initial(n, s), E2, n - 1));
  }

  /** Sound labels that no edge relaxes are the exact distances:
      unreached exactly when unreachable, and no walk lighter. */
  lemma Final(E: seq<Edge>, s: int, L: Labels)
    requires Sound(E, s, L) && Within(E, |L.dist|) && !AnyRelaxes(L.dist, E)
    ensures Shortest(E, s, L.dist)
    ensures forall v :: 0 <= v < |L.dist| ==> (L.dist[v] == IntMax <==> !Reachable(E, s, v))
  {
    Stable(E, s, L);
    AllExact(E, s, L);
  }

  lemma AllExact(E: seq<Edge>, s: int, L: Labels)
    requires Sound(E, s, L) && Shortest(E, s, L.dist)
    ensures forall v :: 0 <= v < |L.dist| ==> (L.dist[v] == IntMax <==> !Reachable(E, s, v))
  {
    forall v | 0 <= v < |L.dist| ensures L.dist[v] == IntMax <==> !Reachable(E, s, v) {
      Exact(E, s, L, v);
    }
  }
}
