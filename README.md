# Graph algorithms and array sorts, modelled in Dafny

This project models the algorithmic core of a C++ course project. The
project compares three graph algorithms on two graph representations and
four array sorts:

- **Prim's algorithm** (`Prim.cpp`). It runs on an undirected weighted graph
  kept both as an adjacency matrix and as neighbour rows. It grows a
  minimum spanning tree from vertex 0 with a binary min-heap of vertices
  that supports `decreaseKey`.
- **Kruskal's algorithm** (`Kruskal.cpp`). It takes the same graph. It
  extracts the edge list from either representation and heap-sorts it by
  weight. Then it keeps each edge whose endpoints lie in different trees
  of a union-find forest (path compression, union by rank).
- **Bellman-Ford** (`BellmanFord.cpp`). It runs on a directed weighted graph
  kept as a matrix and as (neighbour, weight) pair rows. It does V - 1
  rounds of relaxation from the start vertex, then one scan that raises a
  negative-cycle flag. `printPath` follows parent links back to the start.
- **Sorts.** Quicksort with Lomuto partitioning and a choice of pivot
  (`Quicksort.cpp`), heap sort (`Heapsort.cpp`), insertion sort
  (`InsertionSort.cpp`) and Shell sort with gaps n/2, n/4, …, 1
  (`Shell.cpp`).

Each C++ procedure that updates arrays in place is modelled as a Dafny
`method` over `array`s, with loops and their invariants. Each graph class
is a Dafny `class` whose fields are the matrix, the row buffers and the
row sizes. Heap sort is written once, generic in the element type and a
key function. The sorter of `Heapsort.cpp` (the key is the element) and
the `EdgeHeap` of `Kruskal.cpp` (the key is the edge weight) are both this
one algorithm.

Every method is proved against a specification:

- **Sorts.** The result is sorted and a permutation of the input; the tail
  beyond `n` is left alone. Insertion sort equals a functional insertion
  sort, which is proved sorted, a permutation and stable.
- **Union-find.** The forest is described by the `Root` of each element.
  `Find` returns the root, points exactly the vertices of the walked path
  at it, and keeps every root. `Union` joins exactly the
  two classes of its arguments.
- **Prim.** The result is a tree of graph edges rooted at 0. Each tree
  vertex other than 0 is entered by exactly one result edge, from a
  vertex extracted earlier. The tree is closed under the graph's edges
  lighter than INT_MAX. `total` is the weight of the result.
- **Kruskal.** The result is a forest (no edge closes a cycle) of at most
  n - 1 graph edges in weight order. It connects the two ends of every
  edge of the graph. `total` is its weight.
- **Bellman-Ford.** Each procedure computes exactly V - 1 rounds of a
  functional relaxation over its own representation's edges, taken in the
  order its loops meet them. Its flag is raised exactly when an edge still
  relaxes after those rounds. Module `Relaxation` proves what this means:
  - every finite distance is the weight of a walk from the start, and
    parents are graph edges;
  - after k rounds each distance is at most the weight of any walk of at
    most k edges;
  - when no edge relaxes, distances are shortest and INT_MAX means
    "unreachable";
  - then, on a graph whose matrix and rows hold the same edges, the matrix
    and the list procedures give the same distances.

  `printPath` writes the parent chain from the start to a vertex, and that
  chain is a path of graph edges.

Modules:

| file | module | models |
|---|---|---|
| `edges.dfy` | `Edges` | the `Edge` record, INT_MAX, the weight of an edge sequence |
| `sort_spec.dfy` | `SortSpec` | sortedness by a key, swaps and permutations |
| `heap_sort.dfy` | `HeapSort` | `Heapsort.cpp` and `EdgeHeap` of `Kruskal.cpp` |
| `insertion_sort.dfy` | `InsertionSort` | `InsertionSort.cpp` |
| `shell_sort.dfy` | `ShellSort` | `Shell.cpp` |
| `quick_sort.dfy` | `QuickSort` | `Quicksort.cpp` |
| `union_find.dfy` | `UnionFind` | `find` and `unionSets` of `Kruskal.cpp` |
| `mst_graph.dfy` | `MstGraph` | the undirected `Graph` of `Prim.cpp` and `Kruskal.cpp` |
| `min_heap.dfy` | `PrimHeap` | `MinHeap` of `Prim.cpp` |
| `prim.dfy` | `Prim` | `primMatrix` and `primList` |
| `kruskal.dfy` | `Kruskal` | `kruskalMatrix` and `kruskalList` |
| `bf_graph.dfy` | `BfGraph` | the directed `Graph` of `BellmanFord.cpp` |
| `relaxation.dfy` | `Relaxation` | the meaning of Bellman-Ford's rounds, on values |
| `bellman_ford.dfy` | `BellmanFord` | `bellmanFordMatrix`, `bellmanFordList`, `printPath` |

On one point the project's written description and its code disagree. The
description calls joining two elements of one set a no-op. `unionSets`
still raises the rank of the common root in that case, because its
equal-rank branch is taken when both roots are the same vertex. The model
follows the code (`UnionFind.Union`).

## Model

| member | source | states |
|---|---|---|
| SortSpec.SwapMultiset | Heapsort.cpp:30-43 | exchanging two slots keeps the multiset of the array |
| HeapSort.Heapify | Heapsort.cpp:30-43 | sifting node i down restores the max-heap order below i, keeps the multiset, changes only i's subtree and nothing at or past n |
| HeapSort.BuildHeap | Heapsort.cpp:25-28 | after building, a[0..n) is a max-heap, a permutation of the input, and slots past n are untouched |
| HeapSort.RootIsMax | Heapsort.cpp:25-28 | in a max-heap the root's key is at least every node's key |
| HeapSort.SortRound | Heapsort.cpp:18-21 | one round moves the heap's maximum to the front of the sorted suffix and re-heaps the rest, keeping the multiset |
| HeapSort.Sort | Heapsort.cpp:16-22 | a[0..n) ends sorted by key and is a permutation of the input; slots past n are untouched; with n <= 1 nothing changes |
| InsertionSort.InsertSplits | InsertionSort.cpp:18-24 | inserting x puts it after every element whose key is at most x's and before the first element with a larger key |
| InsertionSort.InsertAllSorted | InsertionSort.cpp:16-26 | the functional insertion sort yields a sequence sorted by key |
| InsertionSort.InsertAllPermutes | InsertionSort.cpp:16-26 | the functional insertion sort yields a permutation of its input |
| InsertionSort.InsertAllStable | InsertionSort.cpp:16-26 | elements with equal keys keep their relative order (the sort is stable) |
| InsertionSort.InsertAllOfSorted | InsertionSort.cpp:16-26 | an already sorted input comes back unchanged |
| InsertionSort.InsertRound | InsertionSort.cpp:17-25 | one outer iteration extends the sorted prefix by one element, equal to the functional sort of the longer prefix |
| InsertionSort.Sort | InsertionSort.cpp:16-26 | the array's first n slots become the functional insertion sort of their old contents; the rest is untouched |
| ShellSort.OneSortedIsSorted | Shell.cpp:15-26 | an array that is 1-sorted, as the last pass with gap 1 leaves it, is sorted |
| ShellSort.GapInsert | Shell.cpp:18-23 | one gapped insertion extends the gap-sorted prefix by one slot, keeps the multiset, and leaves later slots alone |
| ShellSort.GapPass | Shell.cpp:17-24 | a pass with gap g leaves a[0..n) g-sorted, a permutation, and slots past n untouched |
| ShellSort.Sort | Shell.cpp:15-26 | Shell sort with gaps n/2, n/4, …, 1 leaves a[0..n) sorted and a permutation; slots past n are untouched |
| QuickSort.SelectPivot | Quicksort.cpp:56-64 | the pivot index lies in [p, r]: p for LEFT, r for RIGHT, the lower middle for MIDDLE |
| QuickSort.RandomReachesEveryIndex | Quicksort.cpp:56-64 | every index of [p, r] is the RANDOM pivot for some value of rand() |
| QuickSort.PartitionStep | Quicksort.cpp:46-51 | one step of the Lomuto loop keeps "low part at most the pivot, middle part above it" and the permutation |
| QuickSort.PlacePivot | Quicksort.cpp:52-53 | the final swap puts the pivot at q with smaller-or-equal keys before it and larger keys after it |
| QuickSort.Partition | Quicksort.cpp:38-54 | returns q in [p, r] holding the selected pivot, keys at most it before q, larger keys after q, and only a[p..r] permuted |
| QuickSort.SortedSides | Quicksort.cpp:27-33 | sorting both sides of a partitioned range sorts the range and keeps it a permutation |
| QuickSort.Sort | Quicksort.cpp:27-33 | a[p..r] ends sorted by key and permuted within [p, r], for every pivot strategy and every sequence of random draws |
| UnionFind.Root | Kruskal.cpp:251-256 | following parents from i reaches a root, and the ranks rise strictly on the way, so the walk ends |
| UnionFind.CompressKeepsRoots | Kruskal.cpp:252-254 | pointing a node straight at its root keeps the forest valid and every node's root |
| UnionFind.Path | Kruskal.cpp:251-256 | the vertices `find` walks: i, then each one's parent, ending at i's root |
| UnionFind.Find | Kruskal.cpp:251-256 | returns i's root; every vertex of the walked path now points at the root and every other vertex keeps its parent; every vertex keeps its root and the forest stays valid |
| UnionFind.FindBoth | Kruskal.cpp:259-260 | the two calls return the roots of x and y, and every vertex keeps its root |
| UnionFind.MergedJoins | Kruskal.cpp:258-271 | after a merge, two nodes share a root exactly when they did before or one shared x's old root and the other y's |
| UnionFind.Union | Kruskal.cpp:258-271 | afterwards a and b share a root iff they did before or one was with x and the other with y; the rank of the surviving root rises by one exactly on a rank tie, including x and y in one set |
| MstGraph.Graph.constructor | Prim.cpp:130-168 | a graph of v vertices with an all-zero matrix and every neighbour row empty |
| MstGraph.Graph.AddEdge | Prim.cpp:267-274 | writes the weight into both matrix cells, appends e to s's row and s to e's row, and keeps every row's entries exactly the nonzero cells of the matrix |
| PrimHeap.RootIsMin | Prim.cpp:41-66 | in a min-heap the root's key is at most every node's key |
| PrimHeap.MinHeap.constructor | Prim.cpp:69-75 | an empty heap of the given capacity with no vertex in it |
| PrimHeap.MinHeap.IsEmpty | Prim.cpp:82 | true exactly when the heap holds no vertex |
| PrimHeap.MinHeap.IsInHeap | Prim.cpp:116-118 | true exactly when the vertex's position is a slot in use, that is, when the vertex is in the heap |
| PrimHeap.MinHeap.SwapNodes | Prim.cpp:32-39 | exchanges two slots and keeps every vertex's recorded position right |
| PrimHeap.MinHeap.HeapifyUp | Prim.cpp:41-48 | moving a too-small node up restores the min-heap order |
| PrimHeap.MinHeap.HeapifyDown | Prim.cpp:50-66 | moving a too-large node down restores the min-heap order |
| PrimHeap.MinHeap.Insert | Prim.cpp:84-91 | adds the absent vertex with its key, keeping the heap ordered and indexed |
| PrimHeap.MinHeap.ExtractMin | Prim.cpp:93-106 | on a non-empty heap removes and returns a vertex of least key; on an empty heap returns the (-1, INT_MAX) node and changes nothing |
| PrimHeap.MinHeap.DecreaseKey | Prim.cpp:108-114 | gives a vertex in the heap its new, lower key, keeps the heap ordered, and changes nothing for a vertex not in it |
| Prim.Reset | Prim.cpp:327-331 | every parent is -1, every key INT_MAX, no vertex in the tree |
| Prim.Start | Prim.cpp:320-335 | the arrays and the heap are fresh, and the heap holds vertex 0 with key 0 |
| Prim.Extracted | Prim.cpp:343-345 | the extracted vertex joins the tree and gets the next extraction stamp |
| Prim.Relaxed | Prim.cpp:349-357 | giving an outside neighbour a lighter edge as its key and u as its parent keeps the loop state, and the key only falls |
| Prim.Visit | Prim.cpp:343-345 | extracts a vertex not yet in the tree, marks it and stamps it with the number of vertices before it |
| Prim.Relax | Prim.cpp:349-357 | sets key[v] to the edge's weight and parent[v] to u, and the heap's key for v follows, by decreaseKey or insert |
| Prim.ScanMatrix | Prim.cpp:348-359 | after the matrix row of u, every outside neighbour's key is at most its edge weight to u |
| Prim.ScanList | Prim.cpp:423-437 | after u's neighbour row, every outside neighbour's key is at most its edge weight to u |
| Prim.BuildResult | Prim.cpp:363-368 | emits (parent[i], i, weight) for every i >= 1 with a parent, in order of i, and `total` is their weight sum |
| Prim.PrimMatrix | Prim.cpp:315-387 | the result is a spanning tree from vertex 0 of graph edges, each tree vertex but 0 entered by one edge from a vertex extracted before it, closed under edges lighter than INT_MAX; `total` is its weight |
| Prim.PrimList | Prim.cpp:390-465 | the same as the matrix version, with neighbours from the rows |
| Kruskal.Merge | Kruskal.cpp:258-271 | two vertices share a label after merging a and b exactly when they did before, or one was with a and the other with b |
| Kruskal.ForestGrows | Kruskal.cpp:312-317 | adding an edge between unconnected vertices keeps the edges a forest and merges their two components |
| Kruskal.ForestSize | Kruskal.cpp:309 | a forest on n vertices has at most n - 1 edges |
| Kruskal.FullForestSpans | Kruskal.cpp:309 | a forest of n - 1 edges connects every pair of vertices, so stopping at n - 1 edges loses nothing |
| Kruskal.MirrorsAfterUnion | Kruskal.cpp:316 | after unionSets the union-find roots still mirror the components of the kept edges |
| Kruskal.Consider | Kruskal.cpp:310-317 | one step of the main loop keeps the edge exactly when its ends are in different trees, and keeps the kept edges a sorted forest connecting every considered edge |
| Kruskal.InitForest | Kruskal.cpp:299-302 | every vertex is its own root, mirroring the components of no edges |
| Kruskal.TakeEdges | Kruskal.cpp:309-318 | the kept edges form a forest of at most n - 1 edges from the sorted list, in weight order, weighing `total`, and connecting the ends of every listed edge |
| Kruskal.MatrixEdges | Kruskal.cpp:283-289 | lists each matrix edge with start below end once, in row-major order, and nothing else |
| Kruskal.ListEdges | Kruskal.cpp:349-357 | lists, from the rows, every edge of the graph from its lower endpoint, and only graph edges |
| Kruskal.PermutedEdges | Kruskal.cpp:292-293 | sorting the extracted list keeps every graph edge in it and adds none |
| Kruskal.KruskalMatrix | Kruskal.cpp:274-337 | the result is a spanning forest of the graph, sorted by weight, and `total` is its weight |
| Kruskal.KruskalList | Kruskal.cpp:340-405 | the same, with the edges extracted from the neighbour rows |
| Relaxation.Initial | BellmanFord.cpp:234-238 | every distance INT_MAX and every parent -1, except the start's distance, which is 0 |
| Relaxation.AnyRelaxesExists | BellmanFord.cpp:254-264 | the scan's answer holds exactly when some edge has a reached source whose distance plus the weight is below the target's |
| Relaxation.RoundAppend | BellmanFord.cpp:241-251 | a round over two edge lists in a row is the round over the first, then the second |
| Relaxation.SkipRow | BellmanFord.cpp:320-321 | relaxing the edges of an unreached vertex changes nothing, so the list version may skip its row |
| Relaxation.RelaxSound | BellmanFord.cpp:244-248 | relaxing a graph edge keeps every finite distance the weight of a walk from the start and every parent a graph edge |
| Relaxation.RoundsSound | BellmanFord.cpp:241-251 | any number of rounds keep every finite distance witnessed by a walk and every parent link a graph edge |
| Relaxation.RoundsBelow | BellmanFord.cpp:241-251 | after k rounds each distance is at most the weight of every walk from the start of at most k edges |
| Relaxation.Final | BellmanFord.cpp:270-294 | when no edge relaxes, distances are shortest and a vertex has distance INT_MAX exactly when it is unreachable |
| Relaxation.Converged | BellmanFord.cpp:241-264 | after V - 1 rounds with no edge left to relax, the distances are sound and shortest |
| Relaxation.SameConverged | BellmanFord.cpp:302-386 | two edge lists holding the same edges give the same distances once neither reports a negative cycle |
| BfGraph.CellsGrow | BellmanFord.cpp:242-250 | the edges met in a matrix row up to column i are a prefix of those met up to a later column |
| BfGraph.InCellEdges | BellmanFord.cpp:244-245 | a row's edges are exactly its nonzero cells, with the cell as weight |
| BfGraph.InFlat | BellmanFord.cpp:242-250 | the edges met in rows 0..i are exactly those of some row before i |
| BfGraph.FlatRound | BellmanFord.cpp:242-250 | a round over rows 0..u is the round over rows before u followed by row u |
| BfGraph.FlatScanGo | BellmanFord.cpp:255-264 | some edge of rows 0..u relaxes exactly when one of rows before u or one of row u does |
| BfGraph.Graph.constructor | BellmanFord.cpp:27-63 | a graph of v vertices, start vertex 0, an all-zero matrix and every row empty |
| BfGraph.Graph.Push | BellmanFord.cpp:168-171 | appends the pair (e, w) to s's row and leaves every other row alone |
| BfGraph.Graph.AddEdge | BellmanFord.cpp:164-172 | writes w into cell (s, e), appends the pair (e, w) to s's row, and keeps matrix and rows holding the same edges when the cell was empty and w nonzero |
| BfGraph.Graph.SameEdges | BellmanFord.cpp:164-172 | while the matrix and the rows agree, they hold the same edges |
| BellmanFord.Init | BellmanFord.cpp:234-238 | dist and parent are fresh and hold the initial labels |
| BellmanFord.RelaxCell | BellmanFord.cpp:244-248 | one matrix cell relaxes its edge when nonzero and changes nothing when zero |
| BellmanFord.RelaxCells | BellmanFord.cpp:243-249 | the inner loop computes the round over the nonzero cells of row u, in column order |
| BellmanFord.MatrixRound | BellmanFord.cpp:242-250 | one pass over the matrix computes the round over its edges in row-major order |
| BellmanFord.MatrixRounds | BellmanFord.cpp:241-251 | the V - 1 passes compute V - 1 rounds |
| BellmanFord.CellsRelax | BellmanFord.cpp:256-262 | the inner scan finds an edge exactly when some nonzero cell of row u still relaxes |
| BellmanFord.MatrixScan | BellmanFord.cpp:254-264 | the flag is raised exactly when some matrix edge still relaxes |
| BellmanFord.BellmanFordMatrix | BellmanFord.cpp:224-300 | dist and parent are V - 1 rounds over the matrix edges, and the flag is raised exactly when one of them still relaxes |
| BellmanFord.RelaxPair | BellmanFord.cpp:323-330 | one row entry relaxes its edge |
| BellmanFord.RelaxPairs | BellmanFord.cpp:321-331 | the inner loop computes the round over row u's pairs in order, also when u is unreached |
| BellmanFord.ListRound | BellmanFord.cpp:320-332 | one pass over the rows computes the round over their edges |
| BellmanFord.ListRounds | BellmanFord.cpp:319-333 | the V - 1 passes compute V - 1 rounds |
| BellmanFord.PairsRelax | BellmanFord.cpp:338-348 | the inner scan finds an edge exactly when some pair of row u still relaxes |
| BellmanFord.ListScan | BellmanFord.cpp:336-350 | the flag is raised exactly when some row edge still relaxes |
| BellmanFord.BellmanFordList | BellmanFord.cpp:302-386 | dist and parent are V - 1 rounds over the row edges, and the flag is raised exactly when one of them still relaxes |
| BellmanFord.ListMatchesMatrix | BellmanFord.cpp:302-386 | on a graph whose matrix and rows agree, when neither version reports a negative cycle, both give the same distances |
| BellmanFord.Chain | BellmanFord.cpp:214-222 | the parent chain to v starts at a vertex without parent, ends at v, and each element is the parent of the next |
| BellmanFord.PrintPath | BellmanFord.cpp:214-222 | appends to the path exactly the parent chain ending at the vertex and advances the length by its size |
| BellmanFord.ChainIsPath | BellmanFord.cpp:276-283 | for a reached vertex the printed chain starts at the start vertex and follows graph edges |

## Left out

- Console menus, file loading, random graph and array generation, timing, display and the performance tests are not modelled. `rand()` in the RANDOM pivot strategy is a `draw` parameter, chosen arbitrarily at each call.
- Memory management (`new`/`delete`, `reallocateMemory` freeing old buffers) is not modelled. Fresh arrays stand for the allocations.
- The reports printed by the three graph programs are not modelled. Each procedure returns its result as sequences instead.
- 32-bit overflow is not modelled. Distances, keys, weights and totals are unbounded integers. INT_MAX appears only as the "unreached" and "no key" marker the code compares against.
- Relaxation.Relax: the sum `dist[u] + weight` is exact. In the source it can wrap around for distances near INT_MAX.
- Prim.PrimMatrix: minimality of the tree is not proved. The contract states a spanning tree of graph edges, not a minimum one. The same holds for Prim.PrimList.
- Prim.PrimMatrix: the tree is proved closed only under edges lighter than INT_MAX. A heavier edge never lowers an INT_MAX key. The same holds for Prim.PrimList.
- Kruskal.KruskalMatrix: minimality is not proved. The contract states a spanning forest taken greedily in order of weight. The same holds for Kruskal.KruskalList.
- Kruskal.ListEdges: when `addEdge` was called twice for one pair, the rows list the pair twice, and so does the extracted list. The contract states every listed edge is a graph edge, not that each appears once.
- MstGraph.Graph.AddEdge: requires a nonzero weight and room in both rows. A zero weight would put into the rows a neighbour that the matrix does not have.
- BfGraph.Graph.AddEdge: matrix and rows are proved to keep the same edges only for a nonzero weight on an empty cell. Overwriting a cell leaves a stale pair in the row, as in the source.
- PrimHeap.MinHeap.Insert: requires the vertex to be absent. Prim's loops only insert vertices that are not in the heap. Since the heap's capacity is the number of vertices, an absent vertex always finds room, so the early return on a full heap cannot arise under this requirement and is not modelled.
- PrimHeap.MinHeap.DecreaseKey: requires the new key to be no larger than the old. The source does not check this, and Prim only lowers keys.
- BellmanFord.BellmanFordMatrix: raising the flag is not proved to mean that a negative cycle is reachable. The flag is proved to mean "some edge still relaxes after V - 1 rounds". The same holds for BellmanFord.BellmanFordList.
- BellmanFord.ListMatchesMatrix: equal distances are claimed only when neither version reports a negative cycle. Otherwise the two edge orders can leave different distances.
- BellmanFord.PrintPath: requires a ranking of the parent links (a `Ranked` measure) for termination. That the parent links are acyclic after the rounds is not proved.
- The start vertex of the Bellman-Ford graph is set by the file loader, which is not modelled. The constructor sets it to 0, and the procedures accept any start in range.
