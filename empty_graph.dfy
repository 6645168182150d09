/**
 * Every statistic of the configurations library on the graph without edges.
 */
module EmptyGraph {
  import opened Sums
  import opened Matrices
  import opened EdgeStatistics
  import opened PathStatistics
  import opened TriadStatistics
  import opened DegreeDistribution

  /** Every node of the graph without edges has in- and out-degree 0. */
  lemma EmptyGraphDegrees(n: nat)
    ensures forall i :: 0 <= i < n ==> OutDegree(Zero(n), i) == 0 && InDegree(Zero(n), i) == 0
    ensures forall i :: 0 <= i < n ==> OutDegrees(Zero(n))[i] == 0 && InDegrees(Zero(n))[i] == 0
  {
    var Z := Zero(n);
    forall i | 0 <= i < n
      ensures OutDegree(Z, i) == 0 && InDegree(Z, i) == 0
    {
      SumToConst(n, j => Entry(Z, i, j), 0);
      SumToConst(n, j => Entry(Z, j, i), 0);
    }
  }

  /** The edge, mutual and star counts of the graph without edges are 0. */
  lemma EmptyGraphEdgeStatistics(n: nat)
    ensures NEdges(Zero(n)) == 0 && MutualSum(Zero(n)) == 0
    ensures InStarSum(Zero(n)) == 0 && OutStarSum(Zero(n)) == 0 && MixedStarSum(Zero(n)) == 0
  {
    var Z := Zero(n);
    EmptyGraphDegrees(n);
    SumToConst(n, i => OutDegree(Z, i), 0);
    MutualAtMostEdges(Z);
    SumToConst(n, j => Choose2(InDegree(Z, j)), 0);
    SumToConst(n, i => Choose2(OutDegree(Z, i)), 0);
    SumToConst(n, i => InDegree(Z, i) * OutDegree(Z, i), 0);
  }

  /** The triad and two-path counts of the graph without edges are 0. */
  lemma EmptyGraphTriads(n: nat)
    ensures CyclicTriads(Zero(n)) == 0.0
    ensures TransitiveSum(Zero(n)) == 0 && NotTransitiveSum(Zero(n)) == 0
    ensures TwoPathSum(Zero(n)) == 0
  {
    var Z := Zero(n);
    EmptyGraphEdgeStatistics(n);
    TwoPathsAreMixedStars(Z);
    NotTransitiveAtMostTwoPaths(Z);
    // Every middle edge of a three-walk is missing.
    forall k | 0 <= k < n
      ensures WalksInto(Z, k) == 0
    {
      SumToConst(n, j => MiddleEdgeWalks(Z, j, k), 0);
    }
    SumToConst(n, k => WalksInto(Z, k), 0);
    CyclicTriadsCountsThreeWalks(Z);
    // No node has a predecessor.
    forall i | 0 <= i < n
      ensures TransitiveAt(Z, i) == 0
    {
      NoPredecessorsBelow(Z, i, n);
    }
    SumToConst(n, i => TransitiveAt(Z, i), 0);
  }

  /** No pair of nodes of the graph without edges shares a two-path. */
  lemma EmptyGraphSharedTwoPaths(n: nat, i: int, j: int)
    ensures SharedTwoPaths(Zero(n), i, j) == 0
  {
    SumToConst(n, k => TwoPathTerm(Zero(n), i, j, k), 0);
  }

  /** Each row of alternating_k_paths of the graph without edges is 0. */
  lemma EmptyGraphAltPathRow(n: nat, i: int)
    ensures AltPathRowTo(Zero(n), i, n) == 0.0
  {
    var Z := Zero(n);
    forall j | 0 <= j < n
      ensures AltPathTerm(Z, i, j) == 0.0
    {
      EmptyGraphSharedTwoPaths(n, i, j);
      AltPathTermBounds(Z, i, j);
    }
    SumToRConst(n, j => AltPathTerm(Z, i, j), 0.0);
  }

  /** alternating_k_triangles of the graph without edges is 0: it has no edge to weight. */
  lemma EmptyGraphAltTriangles(n: nat)
    ensures AltTriangleSum(Zero(n)) == 0.0
  {
    var Z := Zero(n);
    EmptyGraphDegrees(n);
    SumToConst(n, i => OutDegree(Z, i), 0);
    AltTrianglesAtMostTwiceEdges(Z);
  }

  /** alternating_k_paths of the graph without edges is 0: no pair shares a two-path. */
  lemma EmptyGraphAltPaths(n: nat)
    ensures AltPathSum(Zero(n)) == 0.0
  {
    var Z := Zero(n);
    forall i | 0 <= i < n
      ensures AltPathRowTo(Z, i, n) == 0.0
    {
      EmptyGraphAltPathRow(n, i);
    }
    SumToRConst(n, i => AltPathRowTo(Z, i, n), 0.0);
  }

  /** A degree vector of zeros has one bucket, holding every node. */
  lemma GeoSumOfZeros(s: seq<int>, w: int -> real)
    requires |s| >= 1 && forall i :: 0 <= i < |s| ==> s[i] == 0
    ensures GeoSum(s, w) == |s| as real * w(0)
  {
    GeoSumIsNodeWeights(s, w);
    SumToRConst(|s|, i => NodeWeight(s, w, i), w(0));
  }

  /**
   * Each geometric distribution of the graph without edges puts all n nodes in bucket 0:
   * the weight over the nodes, which geo_out and geo_in return, is n * w(0).
   */
  lemma EmptyGraphGeo(n: nat, w: int -> real)
    ensures NodeWeights(OutDegrees(Zero(n)), w) == n as real * w(0)
    ensures NodeWeights(InDegrees(Zero(n)), w) == n as real * w(0)
  {
    EmptyGraphDegrees(n);
    var Z := Zero(n);
    SumToRConst(n, i => NodeWeight(OutDegrees(Z), w, i), w(0));
    SumToRConst(n, i => NodeWeight(InDegrees(Z), w, i), w(0));
  }
}
