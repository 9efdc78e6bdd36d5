/** What the three graph programs share: the `Edge` record, the weight of
    a sequence of edges, and INT_MAX, which they use as "infinity". */
module Edges {

  /** INT_MAX of a 32-bit int. */
  const IntMax := 0x7fff_ffff

  /** `Edge` of Kruskal.cpp and BellmanFord.cpp: endpoints and weight. */
  datatype Edge = Edge(start: int, end: int, weight: int)

  function Weight(e: Edge): int { e.weight }

  /** Sum of the weights of es. */
  function SumWeights(es: seq<Edge>): int
  {
    if |es| == 0 then 0 else SumWeights(es[..|es| - 1]) + es[|es| - 1].weight
  }

  lemma PrefixGrows<T>(s: seq<T>, i: int)
    requires 0 <= i < |s|
    ensures s[..i + 1] == s[..i] + [s[i]]
  {
  }

  lemma SnocPrefix<T>(s: seq<T>, x: T)
    ensures (s + [x])[..|s|] == s
  {
  }

  /** Appending an edge adds its weight. */
  lemma SumSnoc(es: seq<Edge>, e: Edge)
    ensures SumWeights(es + [e]) == SumWeights(es) + e.weight
  {
    SnocPrefix(es, e);
  }
}
