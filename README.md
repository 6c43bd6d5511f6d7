# Kruskal's algorithm over a union-find forest and a growable vector

A model of the C++ laboratory code in `vector.h`, `kruskal.h`, `first.cpp` and
`tests.cpp`. It has three parts.

- **`TVector<T>`** (`Vector.dfy`) is a growable buffer. It has a size, a capacity
  and a heap block.
  - The sized constructors throw `length_error` for a size of zero or above
    `MAX_VECTOR_SIZE`.
  - `operator[]`/`at` throw `out_of_range` for an index at or past the size.
  - `push_back` doubles the capacity when the block is full.
  - The element-wise operators `+ - *`, the dot product and `==`/`!=` are
    modelled too.

  The model is a class with `size`, `capacity` and a `data` array. Its invariant
  is `size <= capacity == data.Length`, and `Contents()` is the elements in use.
- **The disjoint-set structure** (`DisjointSet.dfy`, built on `ParentForest.dfy`
  and `Partitions.dfy`). It covers `DisjointSetNoCompression`/`WithCompression`,
  `UnionFindSimple`/`Compressed` with `FindSimple`/`FindCompressed`/`Unite*`, and
  the member-function copies in `tests.cpp`.
  - One class holds both arrays and a `compress` flag.
  - The invariant `WellRanked` says that a non-root node has a strictly smaller
    rank than its parent. It is the termination measure of every find.
  - With it the model proves:
    - the compressing find returns the same root as the plain walk;
    - compression moves links but never changes a node's root;
    - union by rank merges exactly the two sets, under the root that wins by rank.
- **Kruskal** (`EdgeSort.dfy`, `Kruskal.dfy`). This covers `kruskal` in
  `kruskal.h` (std::sort, skip of the default edge), `Kruskal` in `first.cpp`
  (`BubbleSort`, the `mst_weight` sum) and the loop of `MeasureKruskal` in
  `tests.cpp` (sorted copy).
  - The pure function `Greedy` says which edges the walk keeps, starting from a
    partition of the nodes. It is stated over labellings, so it does not depend
    on how a union-find structure names its sets.
  - The lemmas show that the kept edges:
    - form a forest of at most n-1 edges;
    - are the input with some edges left out, in input order, so they are
      sorted when the input is;
    - never include a self-loop;
    - connect exactly what all the considered edges connect;
    - come back unchanged when the walk is run on them again.
  - The imperative `Walk` is proved to keep exactly `Greedy`'s edges and to add
    up their weights. It fails with `out_of_range` exactly where `Greedy` fails.
  - No driver's contract mentions the `compress` flag, so both variants append
    the same edges.
  - `TVector<Edge> mst;` has size 1, so every driver's result starts with one
    element that comes before the kept edges:
    - in `kruskal.h` it is `Edge(0,0,0)`;
    - in `first.cpp` and `tests.cpp` it is an uninitialised POD `Edge`, which the
      model leaves unconstrained.

C++ exceptions are values of `Exceptions.Error` (`LengthError`, `OutOfRange`),
returned in a `Result` or `Outcome`. Integers are unbounded.

## Model

| member | source | states |
|---|---|---|
| Vector.TVector.Make | vector.h:18-24 | fails with length_error exactly for a size that is zero, negative (huge as size_t) or above MAX_VECTOR_SIZE; otherwise size == capacity == the requested size, so the default size 1 gives a one-element vector |
| Vector.TVector.MakeFilled | vector.h:41-48 | the same length_error cases; otherwise size == capacity == size and every element equals `value` |
| Vector.TVector.FromSeq | vector.h:27-31 | no size check; the new vector holds exactly the given elements, with capacity equal to their number |
| Vector.TVector.Clone | vector.h:33-35 | the copy has a fresh block, the same size and capacity, and the same elements in use |
| Vector.TVector.Reallocate | vector.h:67-78 | given a capacity no smaller than the size: a fresh block of that capacity, size unchanged, elements in use unchanged |
| Vector.TVector.Resize | vector.h:81-89 | size becomes the new size; the capacity grows to exactly the new size only when it was smaller; shrinking truncates the contents, and growing appends copies of the value-initialised element |
| Vector.TVector.PushBack | vector.h:92-98 | the contents become old contents + [value]; a full block doubles its capacity (0 becomes 1), otherwise the capacity stays |
| Vector.TVector.Get | vector.h:101-127 | succeeds exactly when 0 <= index < size and then returns element `index`; otherwise out_of_range |
| Vector.TVector.Set | vector.h:108-113 | passes exactly when 0 <= index < size and then replaces element `index` only; otherwise out_of_range and nothing changes |
| Vector.Equal | vector.h:129-139 | true exactly when the two vectors hold the same elements in use (same size, pairwise equal) |
| Vector.NotEqual | vector.h:141-143 | true exactly when the contents differ |
| Vector.ScalarMap | vector.h:145-167 | a fresh vector of the same size and capacity whose element i is a[i] + val, a[i] - val or a[i] * val; `a` is not modified |
| Vector.Dot | vector.h:169-178 | length_error exactly when the sizes differ; otherwise the sum of a[i] * b[i] (DotProduct) |
| Vector.DotProductCommutes | vector.h:169-178 | the dot product is the same with its operands exchanged |
| Vector.Combine | vector.h:180-200 | length_error exactly when the sizes differ; otherwise a fresh vector with element i equal to a[i] + b[i] or a[i] - b[i] |
| ParentForest.Root | kruskal.h:32-37 | following parent links from x in a well-ranked forest ends at a node that is its own parent, and that root outranks x unless it is x |
| ParentForest.RedirectRoots | kruskal.h:68-73 | pointing any links straight at their node's root keeps the rank invariant and every node's root |
| ParentForest.Compress | kruskal.h:68-73 | after a compressing find from x, every node on the walked path points at the root and every other link is unchanged; the forest keeps the rank invariant and every root |
| ParentForest.CompressStep | first.cpp:72-77 | the recursive step: compressing from parent[x] and then setting parent[x] to the root is the compression from x |
| ParentForest.AfterFind | first.cpp:36-77 | a find of either kind keeps the rank invariant and the root of every node |
| ParentForest.LinkWellRanked | kruskal.h:43-51 | linking two roots by rank keeps the rank invariant |
| ParentForest.LinkRoot | kruskal.h:43-51 | after linking roots a and b, a node whose root was a or b has the winner as its root, and every other node keeps its root |
| ParentForest.LinkRoots | kruskal.h:43-51 | linking merges exactly the sets of a and b, under the winner, and no other set |
| ParentForest.LinkRankGrows | kruskal.h:50 | no rank ever decreases |
| ParentForest.UnionRoots | kruskal.h:39-53 | a whole union (two finds, then the link) keeps the rank invariant and merges exactly the sets of u and v |
| ParentForest.UnionSameSet | kruskal.h:43 | when u and v already share a root, nothing is linked: ranks unchanged, and without compression the parent array is unchanged |
| DisjointSets.DisjointSet.Init | kruskal.h:26-30 | parent[i] = i and rank[i] = 0 for all i < n: n singleton sets |
| DisjointSets.DisjointSet.Make | tests.cpp:25-29 | length_error exactly when n is not a valid TVector size; otherwise a fresh structure with parent[i] = i and rank[i] = 0 for all i < n: n singletons |
| DisjointSets.DisjointSet.FindWalk | kruskal.h:32-37 | returns the root of x, a node that is its own parent, and changes nothing |
| DisjointSets.DisjointSet.FindCompress | kruskal.h:68-73 | returns the same root as the plain walk; afterwards parent[x] is that root, the parent array is the path compression from x, and no node's root changes |
| DisjointSets.DisjointSet.FindRoot | first.cpp:36-77 | find by the structure's variant: the old root of x, with the partition unchanged |
| DisjointSets.DisjointSet.Find | tests.cpp:31-36 | out_of_range exactly when x is not a node, and nothing changes then; otherwise the old root of x with the partition unchanged, by the plain walk here or, with compression on, by the recursive Find of tests.cpp:65-70 |
| DisjointSets.DisjointSet.Link | kruskal.h:43-52 | the parent and rank arrays become the link by rank of the two roots: nothing when they coincide, the smaller-rank root under the other, and on a tie rv under ru with ru's rank raised by one |
| DisjointSets.DisjointSet.Union | kruskal.h:39-53 | out_of_range exactly when u or v is not a node: for a bad u nothing changes, for a bad v only u's find has run; otherwise the new ranks and parents are the link by rank of the two roots after both finds, exactly the two sets are merged, and afterwards u and v have the same root |
| EdgeSort.SwapKeepsWeightOrder | first.cpp:100-101 | exchanging two neighbours of different weight keeps, for every weight, the order of the edges of that weight |
| EdgeSort.SwapStable | first.cpp:100-101 | the swap of a strictly heavier left neighbour keeps the array a stable permutation of the input |
| EdgeSort.PassStep | first.cpp:99-103 | one inner step keeps the sorted tail and the permutation, and moves the heaviest-so-far one index on |
| EdgeSort.BubblePass | first.cpp:99-103 | one pass of the outer loop grows the sorted tail by one, keeps a stable permutation and touches nothing past n |
| EdgeSort.BubbleSort | first.cpp:96-105 | out_of_range, with nothing changed, exactly for an empty vector (size_t wrap-around of n - 1); otherwise the elements end sorted by weight as a permutation that keeps equal weights in input order |
| EdgeSort.SortEdges | kruskal.h:94 | std::sort by weight: the elements end sorted by weight as a permutation of the input |
| Kruskal.SumWeightsAppend | first.cpp:119 | adding an edge's weight to the sum of the kept edges gives the sum with that edge appended |
| Kruskal.GreedyFails | kruskal.h:106 | the walk fails exactly when a considered edge has an endpoint that is not a node, and then with out_of_range |
| Kruskal.GreedyRelabel | kruskal.h:106-109 | the kept edges depend only on the partition, not on which root names each set |
| Kruskal.GreedyKeepsInputEdges | kruskal.h:99-110 | every kept edge comes from the input, was considered, has both endpoints in range, and is never a self-loop or the default edge |
| Kruskal.GreedyInOrder | kruskal.h:99-110 | the kept edges are the input edges at strictly increasing indices: the walk keeps them in input order |
| Kruskal.GreedySorted | kruskal.h:94-110 | for a sorted input, the kept edges are sorted by weight |
| Kruskal.GreedyForest | kruskal.h:106-109 | each kept edge joins two sets that the earlier kept edges had not joined: the kept edges form a forest |
| Kruskal.ForestSize | kruskal.h:106-109 | a forest over a partition with c sets has at most c - 1 edges |
| Kruskal.ForestKept | first.cpp:115-121 | running the walk on a forest keeps every one of its edges |
| Kruskal.ConsideredEdges | kruskal.h:100-104 | the edges the walk looks at are exactly those that are not skipped as default edges |
| Kruskal.GreedySpans | kruskal.h:99-110 | merging along the kept edges gives the same partition as merging along all considered edges |
| Kruskal.SkipIsRedundant | kruskal.h:100-104 | skipping default edges changes nothing when their endpoints are nodes |
| Kruskal.KruskalForest | kruskal.h:93-128 | from n singletons the kept edges form a forest of at most n - 1 in-range edges, spanning what the considered edges connect, and a second run keeps them all |
| Kruskal.WalkPass | kruskal.h:99-110 | an edge that is skipped or inside one set is not kept |
| Kruskal.WalkFail | kruskal.h:106 | a considered edge with an endpoint that is not a node makes the walk fail with out_of_range |
| Kruskal.WalkKeep | kruskal.h:106-109 | an edge across two sets is kept, and the walk goes on from any labelling of the merged partition |
| Kruskal.VisitEdge | kruskal.h:99-108 | out_of_range exactly for a considered edge with an endpoint that is not a node; otherwise the edge is kept exactly when it is considered and its endpoints had different roots, and then the structure holds the merged partition, else the partition is unchanged |
| Kruskal.WalkStep | first.cpp:115-120 | one turn of the loop: the mst, the weight sum and the structure's partition advance by one edge of Greedy |
| Kruskal.Walk | kruskal.h:99-110 | fails with out_of_range exactly when Greedy fails; otherwise the mst gains exactly Greedy's kept edges, and the weight is their sum |
| Kruskal.RunKruskal | kruskal.h:93-128 | edges end sorted by weight as a permutation; length_error for a bad n; otherwise the result is Edge(0,0,0) followed by Greedy's edges from n singletons with default edges skipped, or out_of_range exactly when Greedy fails |
| Kruskal.RunKruskalBubble | first.cpp:108-135 | out_of_range for an empty edge vector; edges end sorted as a stable permutation; length_error for a bad n; otherwise the result is one uninitialised edge followed by Greedy's edges, and the weight is their sum |
| Kruskal.MeasureKruskal | tests.cpp:110-134 | length_error for a bad n; otherwise a sorted permutation of the caller's edges, which are left unchanged, is walked: the result is one uninitialised edge followed by Greedy's edges, and the weight is their sum |

## Left out

- Console and file I/O: `ReadGraph` and `WriteResult` in `first.cpp`, the stream
  operators of `TVector`, every `cout` message, and `main.cpp`. The `mst_weight`
  that `first.cpp` prints is returned as `weight`.
- Random graph generation and the timing experiments in `tests.cpp`
  (`GenerateRandomGraph`, `RunExperiments`, the `std::chrono` clock).
- MeasureKruskal: returns the mst, its weight and the sorted copy instead of the
  elapsed time.
- SortEdges: stands in for `std::sort`. It promises only a sorted permutation,
  not stability and not introsort's arrangement of equal weights.
- Raw memory: `delete[]`, the move constructor, `operator=`, `swap`,
  `begin`/`end`. A block is a Dafny array, and a vector never aliases another.
- Vector.TVector.PushBack: takes its argument by value. Pushing one of the
  vector's own elements onto a full vector appends that element's old value.
  `push_back` takes a reference, and `reallocate` frees the old block before
  the write, so the source reads freed memory there. The Kruskal drivers only
  push edges from the input, never from `mst` itself.
- Vector.TVector.FromSeq: takes a sequence instead of a raw `const T*` buffer,
  so the `assert` against a null argument has nothing to check.
- Vector.TVector.Reallocate: requires a capacity no smaller than the size. The
  source would copy past the new block otherwise, and no caller does that.
- DisjointSets.DisjointSet: holds its parent and rank as two arrays. The
  bounds check of `TVector::operator[]` is the explicit `IsNode` test.
- Machine integers: `int` is unbounded. No overflow of `mst_weight`, the scalar
  and element-wise arithmetic, the dot product, or a rank is modelled.
- C++ leaves the evaluation order of `find(u) != find(v)` unspecified. The model
  finds u first. The order changes only which links a compressing find rewrites,
  never the roots or the outcome.
- Minimality of the spanning forest's total weight is not proved. The model
  proves the forest, size, spanning and weight-sum properties.
- Amortised complexity of path compression and the logarithmic height bound are
  not expressible as functional contracts and are not modelled.
