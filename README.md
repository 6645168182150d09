# ERGM configuration statistics, modelled in Dafny

This project models the statistics library of the ERGM repository, `configurations.py`. Each of its
thirteen functions takes the adjacency matrix of a directed graph and returns one number. Row i of
the matrix is the source node and column j the target, and entry (i, j) is the weight of the edge
i -> j. The functions are:

- `n_edges`: the edge count;
- `n_mutual`: reciprocated edges;
- `two_in_stars`, `two_out_stars`, `two_mixed_stars`: the star counts;
- `cyclic_triads`, `transitive_triads`, `not_transitive_triads`: the triad counts;
- `two_paths`: the two-path count;
- `alternating_k_triangles`, `alternating_k_paths`: the geometrically weighted statistics built on
  the shared two-path count tp(i, j);
- `geo_out`, `geo_in`: the geometrically weighted degree distributions.

The matrix is a square `seq<seq<int>>` (`Matrices.Matrix`, predicate `IsSquare`). The statistics
only read it. Every statistic is specified as a finite sum over node indices, built from `Sums.SumTo`
(integers) and `Sums.SumToR` (reals).

Functions that the source writes as loops are methods whose loops carry invariants. Each method's
`ensures` ties its result to the sum specification, and lemmas state what the source promises
about those sums. `n_edges` and `cyclic_triads` are single expressions in the source, and are
Dafny functions here.

Modules, one per group of statistics:

- `Sums`: finite sums and their algebra (extensionality, monotonicity, exchange of summation,
  re-indexing by a permutation);
- `Matrices`: the matrix, degree vectors, transpose, relabelling, product;
- `EdgeStatistics`: `n_edges`, `n_mutual` and the star counts;
- `PathStatistics`: `two_paths` and the two alternating statistics;
- `TriadStatistics`: the three triad counts;
- `DegreeDistribution`: `geo_out` and `geo_in`;
- `EmptyGraph`, `SmallGraphs`: the statistics on the graph without edges, on the complete directed
  graph with three nodes, and on the path 0 -> 1 -> 2.

Modelling choices:

- `comb(d, 2)` is `Choose2(d)`, which is d(d-1)/2 for d >= 2 and 0 below, as scipy's
  non-exact `comb` gives for integer d.
- `0.5 ** t` is `HalfPow(t)`, an exact rational power.
- `np.exp(-i)` in the geometric distributions is a weight parameter `w: int -> real`.

Behaviour of the code that its documentation does not spell out:

- **`cyclic_triads`.** Its docstring (configurations.py:94) promises "the number of cyclic triads in
  G". The code (configurations.py:102) sums every entry of G·G·G rather than its diagonal. That
  counts every walk of length three, so the complete directed graph on three nodes gets 8 instead of
  its two directed 3-cycles (`SmallGraphs.CyclicTriadsOfCompleteTriad`; see Findings).
- **Validation.** No function checks its argument, so squareness is a precondition here.
- **The zero matrix.** Every statistic is 0 on the zero matrix except `geo_out` and `geo_in`. All n
  nodes fall into bucket 0, so those two give n·exp(0) = n (`EmptyGraph.EmptyGraphGeo`).
- **Alternating statistics.** For 0/1 matrices alternating_k_paths >= alternating_k_triangles, and
  this is proved (`PathStatistics.AltTrianglesAtMostAltPaths`). It is not a general fact: a pair
  weighted 2 that shares a two-path adds twice its path term to the triangle count.

## Model

| member | source | states |
|---|---|---|
| Matrices.OutDegrees | configurations.py:68 | `G.sum(1)`, as also at lines 86 and 124: one entry per node, entry i the row sum OutDegree(G, i) |
| Matrices.InDegrees | configurations.py:51 | `G.sum(0)`, as also at lines 85 and 137: one entry per node, entry j the column sum InDegree(G, j) |
| Matrices.Product | configurations.py:102 | `A.dot(B)` of two square matrices of one size: a square matrix of that size whose entry (i, j) is the sum over k of A[i,k]·B[k,j] |
| Matrices.TransposeDegrees | configurations.py:51 | reversing every edge turns each node's in-degree (column sum) into its out-degree (row sum) and vice versa |
| Matrices.RelabelDegrees | configurations.py:124 | relabelling the nodes by a permutation moves each node's in- and out-degree with it |
| Matrices.DegreesNonNegative | configurations.py:124 | with non-negative weights every row and column sum is non-negative |
| EdgeStatistics.NEdges | configurations.py:20 | `np.sum(G)`: the sum of all entries, taken as the sum of the out-degree vector |
| EdgeStatistics.NEdgesByDegrees | configurations.py:20 | the sum of all entries equals the sum of the in-degree vector `G.sum(0)` (it is by definition the sum of the out-degree vector `G.sum(1)`) |
| EdgeStatistics.NEdgesNonNegative | configurations.py:20 | with non-negative weights the edge count is non-negative |
| EdgeStatistics.NMutual | configurations.py:33-37 | the double loop returns the sum of G[i,j]·G[j,i] over all ordered pairs |
| EdgeStatistics.MutualTranspose | configurations.py:33-37 | the mutual count of the transposed graph equals that of the graph |
| EdgeStatistics.MutualAtMostEdges | configurations.py:33-37 | for 0/1 entries, 0 <= mutual count <= edge count |
| EdgeStatistics.MutualEven | configurations.py:33-37 | with a zero diagonal the mutual count is twice the sum over unordered pairs j < i of G[i,j]·G[j,i], hence even |
| EdgeStatistics.MutualBlockTwice | configurations.py:33-37 | with a zero diagonal, the terms over the first k nodes are twice the sum over their unordered pairs |
| EdgeStatistics.MutualBlockStep | configurations.py:34-36 | extending both loops to one more node adds that node's row and its column of terms |
| EdgeStatistics.MutualColumnMirrorsRow | configurations.py:36 | the column of terms G[i,c]·G[c,i] equals the row, and the corner term G[c,c]² is 0 without self-loops |
| EdgeStatistics.Choose2 | configurations.py:53 | `comb(d, 2)` at an integer d: d(d-1)/2 for d >= 2 and 0 below (its properties are stated by Choose2Step and Choose2CountsPairs) |
| EdgeStatistics.Choose2Step | configurations.py:53 | one more item adds d new pairs: comb(d+1, 2) = comb(d, 2) + d |
| EdgeStatistics.Choose2CountsPairs | configurations.py:53 | comb(d, 2) = 0 + 1 + ... + (d-1), the number of pairs among d items, and is non-negative |
| EdgeStatistics.TwoInStars | configurations.py:50-54 | the loop over the in-degree vector returns the sum over nodes of comb(in-degree, 2) |
| EdgeStatistics.TwoOutStars | configurations.py:67-71 | the loop over the out-degree vector returns the sum over nodes of comb(out-degree, 2) |
| EdgeStatistics.StarsTranspose | configurations.py:50-71 | two_in_stars(G) = two_out_stars(G^T) and two_out_stars(G) = two_in_stars(G^T) |
| EdgeStatistics.StarsFromHighDegreeNodes | configurations.py:50-71 | nodes of degree 0 or 1 add nothing to either star count, and both counts are non-negative |
| EdgeStatistics.TwoMixedStars | configurations.py:84-89 | the zipped loop returns the sum over nodes of in-degree · out-degree |
| EdgeStatistics.MixedStarsTranspose | configurations.py:84-89 | the mixed-star count is unchanged by reversing every edge |
| PathStatistics.SharedTwoPathsNonNegative | configurations.py:175-178 | with non-negative weights the shared two-path count tp(i, j) is non-negative |
| PathStatistics.EdgeTimesOutDegree | configurations.py:166 | the edge i -> k times the out-degree of k is the sum of G[i,k]·G[k,j] over j |
| PathStatistics.InDegreeTimesOutDegree | configurations.py:84-89 | in-degree(j) · out-degree(j) is the sum over edges i -> j of G[i,j] · out-degree(j) |
| PathStatistics.TwoWalkRow | configurations.py:164-166 | summing the walks i -> k -> j over j gives the edges out of i weighted by their targets' out-degrees |
| PathStatistics.EdgeOutRowsAreMixedStars | configurations.py:84-89 | summing those weighted edges over all sources gives the mixed-star count |
| PathStatistics.TwoPaths | configurations.py:159-167 | the triple loop returns the sum of tp(i, j) over all ordered pairs, the middle node distinct from both ends |
| PathStatistics.TwoPathsNonNegative | configurations.py:159-167 | with non-negative weights two_paths >= 0 |
| PathStatistics.TwoPathsAreMixedStars | configurations.py:159-167 | without self-loops two_paths equals two_mixed_stars |
| PathStatistics.HalfPow | configurations.py:179 | `0.5 ** t` as an exact rational, for negative t as well (its bounds are stated by HalfPowBounds) |
| PathStatistics.HalfPowBounds | configurations.py:179 | for t >= 0, 0 < 0.5^t <= 1, with 0.5^t = 1 exactly when t = 0 |
| PathStatistics.SharedTwoPathCount | configurations.py:175-178 | the inner loop returns tp(i, j), the sum of G[i,k]·G[k,j] over the nodes k other than i and j |
| PathStatistics.AltTrianglePair | configurations.py:175-179 | one (i, j) step returns the term 2·G[i,j]·(1 - 0.5^tp(i,j)) |
| PathStatistics.AlternatingKTriangles | configurations.py:170-180 | the loops return the sum over ordered pairs of 2·G[i,j]·(1 - 0.5^tp(i,j)), where tp is the count of the inner loop |
| PathStatistics.AltTriangleTermBounds | configurations.py:179 | a pair with G[i,j] = 0 or tp(i,j) = 0 adds nothing; with non-negative weights each term lies in [0, 2·G[i,j]] |
| PathStatistics.AltTriangleRowAtMostTwiceDegree | configurations.py:174-179 | with non-negative weights the terms of row i lie between 0 and twice the out-degree of i |
| PathStatistics.AltTrianglesAtMostTwiceEdges | configurations.py:170-180 | with non-negative weights 0 <= alternating_k_triangles <= 2·n_edges |
| PathStatistics.AltPathPair | configurations.py:188-192 | one (i, j) step returns the term 2·(1 - 0.5^tp(i,j)) |
| PathStatistics.AlternatingKPaths | configurations.py:183-193 | the loops return the sum over ordered pairs of 2·(1 - 0.5^tp(i,j)) |
| PathStatistics.AltPathTermBounds | configurations.py:192 | each term lies in [0, 2), and is 0 exactly when tp(i, j) = 0 |
| PathStatistics.AltPathsBounds | configurations.py:183-193 | 0 <= alternating_k_paths, and alternating_k_paths < 2n² when n > 0 |
| PathStatistics.AltTrianglesAtMostAltPaths | configurations.py:170-193 | for 0/1 entries alternating_k_triangles <= alternating_k_paths |
| TriadStatistics.CyclicTriads | configurations.py:102 | the code as written: the sum of all entries of G·G·G, divided by 3 |
| TriadStatistics.CyclicTriadsCountsThreeWalks | configurations.py:102 | 3 · cyclic_triads is the full entry sum of G³: all walks of length three, which is the sum over edges j -> k of in-degree(j) · G[j,k] · out-degree(k) |
| TriadStatistics.CubeRow | configurations.py:102 | row i of G³ sums to the walks i -> _ -> k, each weighted by the out-degree of k |
| TriadStatistics.SquareColumn | configurations.py:102 | the walks _ -> j -> k summed over their start are the edges j -> k weighted by the in-degree of j |
| TriadStatistics.TwoWalkByMiddle | configurations.py:102 | entry (i, k) of G² is the sum over middle nodes j of G[i,j]·G[j,k] |
| TriadStatistics.EdgesIntoByMiddle | configurations.py:102 | in-degree(j) · G[j,k] is the number of walks i -> j -> k summed over i |
| TriadStatistics.WalksIntoFactor | configurations.py:102 | the walks whose middle edge ends at k have out-degree(k) as a common factor |
| TriadStatistics.TwoCycle | configurations.py:102 | witness for the cyclic_triads finding: the two-cycle 0 <-> 1 is a square 0/1 matrix without self-loops and without a directed triangle |
| TriadStatistics.TwoCycleDegrees | configurations.py:102 | witness for the cyclic_triads finding: each node of the two-cycle has in- and out-degree 1 |
| TriadStatistics.TwoCycleThreeWalks | configurations.py:102 | witness for the cyclic_triads finding: the two-cycle has exactly two walks of length three, so the code as written gives it 2/3 |
| TriadStatistics.CyclicTriadsOfTwoCycle | configurations.py:102 | as written, the two-cycle 0 <-> 1, which has no triangle, gets cyclic_triads = 2/3 |
| TriadStatistics.CyclicTriadsTrace | configurations.py:94-102 | the corrected count: trace(G³)/3, the closed walks i -> j -> k -> i divided by 3 |
| TriadStatistics.CyclicTriadsTraceDetectsTriangles | configurations.py:102 | the corrected count trace(G³)/3 is 0 exactly when there is no directed triangle, for non-negative weights and no self-loops |
| TriadStatistics.CyclicTriadsTraceOfTwoCycle | configurations.py:102 | the corrected count gives the two-cycle 0, unlike the code as written |
| TriadStatistics.PredecessorsBelow | configurations.py:110 | lists, in increasing order and once each, exactly the nodes j below the bound with G[j,i] == 1 |
| TriadStatistics.Predecessors | configurations.py:110 | `np.where(G[:, i] == 1)`: exactly the nodes j with G[j,i] == 1, in increasing order |
| TriadStatistics.NoPredecessorsBelow | configurations.py:110-113 | a node none of whose incoming entries is exactly 1 has no predecessors |
| TriadStatistics.CountConnectedPairs | configurations.py:115-118 | the loop over `combinations(neighbors, 2)` counts the pairs p < q of neighbours joined by an edge in either direction |
| TriadStatistics.TransitiveTriads | configurations.py:105-120 | fills `clust_coef[i]` with node i's count (0 when it has no neighbours) and returns their sum |
| TriadStatistics.CountAbove | configurations.py:116 | among the positions q < k, exactly k-1-p lie above p |
| TriadStatistics.CountDown | configurations.py:116 | the pairs p < q of k positions number comb(k, 2) |
| TriadStatistics.TransitiveAtBound | configurations.py:109-119 | a node with k predecessors contributes between 0 and comb(k, 2), and 0 when k < 2 |
| TriadStatistics.TransitiveTriadsNonNegative | configurations.py:120 | transitive_triads >= 0 |
| TriadStatistics.NotTransitiveTriads | configurations.py:149-156 | the triple loop returns the sum of G[i,j]·G[j,k]·G[i,k] over all ordered triples |
| TriadStatistics.NotTransitiveTriadsNonNegative | configurations.py:149-156 | with non-negative weights not_transitive_triads >= 0 |
| TriadStatistics.NotTransitiveTermNonNegative | configurations.py:155 | with non-negative weights each term G[i,j]·G[j,k]·G[i,k] is >= 0 |
| TriadStatistics.NotTransitiveAtMostTwoPaths | configurations.py:149-167 | for 0/1 entries without self-loops, 0 <= not_transitive_triads <= two_paths |
| DegreeDistribution.MaxOf | configurations.py:125 | `max` of a non-empty degree vector: an element that is at least every element |
| DegreeDistribution.DegreeHistogram | configurations.py:126-129 | the histogram has max + 1 buckets, and bucket b holds the number of nodes of degree b |
| DegreeDistribution.WeightedSum | configurations.py:131 | returns the sum over buckets b of w(b) · count(b) |
| DegreeDistribution.GeoDistribution | configurations.py:124-133 | histogram then weighted sum: the weighted histogram, equal to the sum over nodes of w(degree) |
| DegreeDistribution.GeoOut | configurations.py:123-133 | returns the weighted out-degree histogram, equal to the sum over nodes of w(out-degree) |
| DegreeDistribution.GeoIn | configurations.py:136-146 | returns the weighted in-degree histogram, equal to the sum over nodes of w(in-degree) |
| DegreeDistribution.HistogramTotal | configurations.py:128-129 | when every degree has a bucket, the bucket counts add up to the number of nodes |
| DegreeDistribution.CountPositiveIff | configurations.py:129 | a bucket is non-empty exactly when its degree occurs |
| DegreeDistribution.HistogramShape | configurations.py:125-129 | the max + 1 buckets count all n nodes, and the last bucket is at least 1 |
| DegreeDistribution.HistogramWeightStep | configurations.py:128-131 | counting one more node adds w(its degree) to the weighted histogram |
| DegreeDistribution.HistogramWeightIsNodeWeights | configurations.py:128-131 | the weighted histogram of the first k nodes is the sum of w over their degrees |
| DegreeDistribution.GeoSumIsNodeWeights | configurations.py:126-131 | the weighted histogram sum equals the sum over nodes of w(degree) |
| DegreeDistribution.CountPermuted | configurations.py:129 | permuting the degree vector keeps every bucket count |
| DegreeDistribution.MaxPermuted | configurations.py:125 | permuting the degree vector keeps its maximum |
| DegreeDistribution.HistogramWeighsBuckets | configurations.py:126-131 | weighting the finished histogram gives w(b) · count(b) summed over the buckets |
| DegreeDistribution.BucketWeightPermuted | configurations.py:129-131 | permuting the degree vector keeps w(b) · count(b) for every bucket b |
| DegreeDistribution.GeoSumPermuted | configurations.py:124-133 | permuting the degree vector keeps the weighted histogram sum |
| DegreeDistribution.GeoRelabelInvariant | configurations.py:123-146 | geo_out and geo_in are invariant under relabelling the nodes by any permutation |
| EmptyGraph.EmptyGraphDegrees | configurations.py:124 | every degree of the graph without edges is 0 |
| EmptyGraph.EmptyGraphEdgeStatistics | configurations.py:20-89 | on the graph without edges n_edges, n_mutual and the three star counts are 0 |
| EmptyGraph.EmptyGraphTriads | configurations.py:102-167 | on the graph without edges cyclic_triads, transitive_triads, not_transitive_triads and two_paths are 0 |
| EmptyGraph.EmptyGraphSharedTwoPaths | configurations.py:175-178 | no pair of nodes of the graph without edges shares a two-path |
| EmptyGraph.EmptyGraphAltPathRow | configurations.py:186-192 | every row of alternating_k_paths on the graph without edges is 0 |
| EmptyGraph.EmptyGraphAltTriangles | configurations.py:170-180 | on the graph without edges alternating_k_triangles is 0 |
| EmptyGraph.EmptyGraphAltPaths | configurations.py:183-193 | on the graph without edges alternating_k_paths is 0 |
| EmptyGraph.GeoSumOfZeros | configurations.py:126-131 | an all-zero degree vector gives n · w(0) |
| EmptyGraph.EmptyGraphGeo | configurations.py:123-146 | on the graph without edges geo_out and geo_in are n · w(0), i.e. n, not 0 |
| SmallGraphs.CompleteTriadDegrees | configurations.py:51 | every node of the complete directed graph on three nodes has in- and out-degree 2 |
| SmallGraphs.CompleteTriadEdges | configurations.py:20-37 | the complete triad has n_edges = 6 and n_mutual = 6 |
| SmallGraphs.CyclicTriadsOfCompleteTriad | configurations.py:102 | as written, cyclic_triads of the complete triad is 8 (24 three-walks / 3) |
| SmallGraphs.CyclicTriadsTraceOfCompleteTriad | configurations.py:102 | the corrected count of the complete triad is 2, its two directed 3-cycles |
| SmallGraphs.PredecessorsOfThree | configurations.py:110 | on three nodes the predecessors are found by testing nodes 0, 1, 2 in order |
| SmallGraphs.ConcatOfThree | configurations.py:110 | the tests of nodes 0, 1, 2 on the complete triad leave out exactly node i |
| SmallGraphs.CompleteTriadPredecessors | configurations.py:110 | each node of the complete triad has the other two nodes as predecessors |
| SmallGraphs.ConnectedPairsOfTwo | configurations.py:116-118 | two neighbours form one pair, counted exactly when they are connected |
| SmallGraphs.TransitiveTriadsOfCompleteTriad | configurations.py:105-120 | transitive_triads of the complete triad is 3, one connected pair per node |
| SmallGraphs.PathTriadDegrees | configurations.py:51 | on the path 0 -> 1 -> 2 only node 0 has in-degree 0 and only node 2 has out-degree 0 |
| SmallGraphs.PathTriadEdges | configurations.py:20-167 | the path 0 -> 1 -> 2 has n_edges = 2, two_mixed_stars = 1 and two_paths = 1 |
| SmallGraphs.PathTriadCyclic | configurations.py:102 | cyclic_triads of the path 0 -> 1 -> 2 is 0: it has no walk of length three |

## Left out

- Floating point: the accumulators in the source are Python floats. The model uses exact integers and exact reals, so rounding is not modelled.
- Integer overflow: an integer-dtype matrix makes numpy compute `np.sum(G)`, `G.sum(0)`, `G.sum(1)`, `G.dot(G)` and products such as `G[i, j] * G[j, i]` in int64, which wraps silently. The model's integers are unbounded, so that wrap-around is not modelled.
- Real-valued weights: matrix entries are integers. Where a property needs it, they are required to be non-negative or 0/1.
- Choose2: models `scipy.misc.comb` only at integer arguments. Its real-valued gamma extension for fractional degrees is not modelled.
- GeoOut: `np.exp(-i)` is the weight parameter `w`. The transcendental function itself is not modelled, so results are stated in terms of `w(b)`.
- GeoOut: requires a non-empty graph, since `max` of an empty degree vector raises. The model keeps to non-negative weights. What the source does with a negative out-degree is not modelled: it wraps around into the histogram, raises IndexError, or raises ValueError when every degree is below -1.
- GeoIn: the same as GeoOut, for the in-degree vector: a non-empty graph is required, only non-negative weights are modelled, and the source's wrap-around, IndexError and ValueError on negative in-degrees are not modelled.
- DegreeHistogram: the `int(d)` truncation is the identity on the integer degrees of the model.
- Input validation: no function of the source checks its argument. A non-square matrix is excluded by the `IsSquare` precondition on every method, and its numpy behaviour is not modelled.
- `n_mutual` iterates `j` over `G.shape[1]` and the others over `G.shape[0]`. On a square matrix these agree, so only the square case is modelled.
- The loops of `n_edges` and `cyclic_triads` are numpy's. They are modelled as sums given by functions, not as methods.
- main.py is not part of this model: it loads CSV data with pandas, builds the graph with networkx and draws it with matplotlib.
- Networkx_tut.py is not part of this model: it exercises networkx node construction and has no logic of its own.

## Findings

| source | as written | input that shows it | evidently intended | confidence | as-written member | corrected member |
|---|---|---|---|---|---|---|
| configurations.py:102 | cyclic_triads divides by 3 the sum of all n² entries of G³, which counts every walk of length three | G = [[0,1],[1,0]]: no directed triangle, yet the result is 2/3. On the complete directed graph on three nodes it is 8, where two 3-cycles exist | the number of directed 3-cycles, trace(G³)/3: 0 on the two-cycle, 2 on the complete triad | not executed | TriadStatistics.CyclicTriadsOfTwoCycle | TriadStatistics.CyclicTriadsTraceDetectsTriangles |
