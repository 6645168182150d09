/**
 * Two-path statistics (two_paths) and the alternating statistics built on the same
 * shared two-path count tp(i, j) (alternating_k_triangles, alternating_k_paths).
 */
module PathStatistics {
  import opened Sums
  import opened Matrices
  import opened EdgeStatistics

  // ---------------------------------------------------------------------------
  // The shared two-path count tp(i, j)
  // ---------------------------------------------------------------------------

  /** G[i,k] * G[k,j] when the middle node k is neither end: a two-path i -> k -> j. */
  function TwoPathTerm(G: Matrix, i: int, j: int, k: int): int
  {
    if i != k && j != k then Entry(G, i, k) * Entry(G, k, j) else 0
  }

  /** Sum of TwoPathTerm(G, i, j, k) over middle nodes k < m. */
  function SharedTo(G: Matrix, i: int, j: int, m: nat): int
  {
    SumTo(m, k => TwoPathTerm(G, i, j, k))
  }

  /** tp(i, j): the two-paths from i to j through a third node (the inner loop over k). */
  function SharedTwoPaths(G: Matrix, i: int, j: int): int
  {
    SharedTo(G, i, j, |G|)
  }

  /** With non-negative weights tp(i, j) is non-negative. */
  lemma SharedTwoPathsNonNegative(G: Matrix, i: int, j: int)
    requires NonNegative(G)
    ensures SharedTwoPaths(G, i, j) >= 0
  {
    forall k | 0 <= k < |G|
      ensures TwoPathTerm(G, i, j, k) >= 0
    {
      if i != k && j != k {
        assert Entry(G, i, k) >= 0 && Entry(G, k, j) >= 0;
      }
    }
    SumToNonNeg(|G|, k => TwoPathTerm(G, i, j, k));
  }

  // ---------------------------------------------------------------------------
  // Walks of length two, and their relation to the mixed stars
  // ---------------------------------------------------------------------------

  /** Entry (i, j) of G.dot(G): all walks i -> k -> j, the middle node unrestricted. */
  function TwoWalk(G: Matrix, i: int, j: int): int
  {
    SumTo(|G|, k => Entry(G, i, k) * Entry(G, k, j))
  }

  /** Edges out of i, each weighted by the out-degree of its target. */
  function EdgeOutRow(G: Matrix, i: int): int
  {
    SumTo(|G|, j => Entry(G, i, j) * OutDegree(G, j))
  }

  /** The walks i -> k -> j, summed over j, are the edges i -> k weighted by the out-degree of k. */
  lemma TwoWalkRow(G: Matrix, i: int)
    requires IsSquare(G)
    ensures SumTo(|G|, j => TwoWalk(G, i, j)) == EdgeOutRow(G, i)
  {
    var n := |G|;
    var F := (j, k) => Entry(G, i, k) * Entry(G, k, j);
    forall j | 0 <= j < n
      ensures TwoWalk(G, i, j) == SumTo(n, k => F(j, k))
    {
      SumToExt(n, k => Entry(G, i, k) * Entry(G, k, j), k => F(j, k));
    }
    forall k | 0 <= k < n
      ensures Entry(G, i, k) * OutDegree(G, k) == SumTo(n, j => F(j, k))
    {
      EdgeTimesOutDegree(G, i, k);
      SumToExt(n, j => Entry(G, i, k) * Entry(G, k, j), j => F(j, k));
    }
    SumToSwapBy(n, n, F, j => TwoWalk(G, i, j), k => Entry(G, i, k) * OutDegree(G, k));
  }

  /** Summing EdgeOutRow over all sources gives the two-mixed-star count. */
  lemma EdgeOutRowsAreMixedStars(G: Matrix)
    requires IsSquare(G)
    ensures SumTo(|G|, i => EdgeOutRow(G, i)) == MixedStarSum(G)
  {
    var n := |G|;
    var F := (i, j) => Entry(G, i, j) * OutDegree(G, j);
    forall i | 0 <= i < n
      ensures EdgeOutRow(G, i) == SumTo(n, j => F(i, j))
    {
      SumToExt(n, j => Entry(G, i, j) * OutDegree(G, j), j => F(i, j));
    }
    forall j | 0 <= j < n
      ensures InDegree(G, j) * OutDegree(G, j) == SumTo(n, i => F(i, j))
    {
      InDegreeTimesOutDegree(G, j);
      SumToExt(n, i => Entry(G, i, j) * OutDegree(G, j), i => F(i, j));
    }
    SumToSwapBy(n, n, F, i => EdgeOutRow(G, i), j => InDegree(G, j) * OutDegree(G, j));
  }

  /** The edge i -> k times the out-degree of k is one term per edge k -> j. */
  lemma EdgeTimesOutDegree(G: Matrix, i: int, k: int)
    ensures Entry(G, i, k) * OutDegree(G, k) == SumTo(|G|, j => Entry(G, i, k) * Entry(G, k, j))
  {
    SumToScale(|G|, j => Entry(G, k, j), Entry(G, i, k), j => Entry(G, i, k) * Entry(G, k, j));
  }

  /** The in-degree of j times its out-degree is one term per edge i -> j. */
  lemma InDegreeTimesOutDegree(G: Matrix, j: int)
    ensures InDegree(G, j) * OutDegree(G, j) == SumTo(|G|, i => Entry(G, i, j) * OutDegree(G, j))
  {
    var d := OutDegree(G, j);
    forall i | 0 <= i < |G|
      ensures Entry(G, i, j) * d == d * Entry(G, i, j)
    {
      Commute(Entry(G, i, j), d);
    }
    SumToScale(|G|, i => Entry(G, i, j), d, i => Entry(G, i, j) * d);
    Commute(InDegree(G, j), d);
  }

  // ---------------------------------------------------------------------------
  // two_paths
  // ---------------------------------------------------------------------------

  /** Sum of tp(i, j) over targets j < m. */
  function TwoPathRowTo(G: Matrix, i: int, m: nat): int
  {
    SumTo(m, j => SharedTwoPaths(G, i, j))
  }

  /** The two-path count: tp(i, j) summed over all ordered pairs (i, j), i = j included. */
  function TwoPathSum(G: Matrix): int
  {
    SumTo(|G|, i => TwoPathRowTo(G, i, |G|))
  }

  /** two_paths: the triple loop adding G[i,k] * G[k,j] whenever k differs from i and j. */
  method TwoPaths(G: Matrix) returns (s: int)
    requires IsSquare(G)
    ensures s == TwoPathSum(G)
  {
    var n := |G|;
    s := 0;
    for i := 0 to n
      invariant s == SumTo(i, a => TwoPathRowTo(G, a, n))
    {
      for j := 0 to n
        invariant s == SumTo(i, a => TwoPathRowTo(G, a, n)) + TwoPathRowTo(G, i, j)
      {
        for k := 0 to n
          invariant s == SumTo(i, a => TwoPathRowTo(G, a, n)) + TwoPathRowTo(G, i, j) + SharedTo(G, i, j, k)
        {
          if i != k && j != k {
            s := s + G[i][k] * G[k][j];
          }
        }
      }
    }
  }

  /** With non-negative weights the two-path count is non-negative. */
  lemma TwoPathsNonNegative(G: Matrix)
    requires IsSquare(G) && NonNegative(G)
    ensures TwoPathSum(G) >= 0
  {
    var n := |G|;
    forall i | 0 <= i < n
      ensures TwoPathRowTo(G, i, n) >= 0
    {
      forall j | 0 <= j < n
        ensures SharedTwoPaths(G, i, j) >= 0
      {
        SharedTwoPathsNonNegative(G, i, j);
      }
      SumToNonNeg(n, j => SharedTwoPaths(G, i, j));
    }
    SumToNonNeg(n, i => TwoPathRowTo(G, i, n));
  }

  /**
   * Without self-loops the exclusion of k = i and k = j removes nothing, and the
   * two-path count equals the two-mixed-star count: each two-path i -> k -> j is a
   * mixed star at its middle node k.
   */
  lemma TwoPathsAreMixedStars(G: Matrix)
    requires IsSquare(G) && ZeroDiagonal(G)
    ensures TwoPathSum(G) == MixedStarSum(G)
  {
    var n := |G|;
    forall i | 0 <= i < n
      ensures TwoPathRowTo(G, i, n) == EdgeOutRow(G, i)
    {
      forall j | 0 <= j < n
        ensures SharedTwoPaths(G, i, j) == TwoWalk(G, i, j)
      {
        SumToExt(n, k => TwoPathTerm(G, i, j, k), k => Entry(G, i, k) * Entry(G, k, j));
      }
      SumToExt(n, j => SharedTwoPaths(G, i, j), j => TwoWalk(G, i, j));
      TwoWalkRow(G, i);
    }
    SumToExt(n, i => TwoPathRowTo(G, i, n), i => EdgeOutRow(G, i));
    EdgeOutRowsAreMixedStars(G);
  }

  // ---------------------------------------------------------------------------
  // The geometric weight 0.5 ** tp
  // ---------------------------------------------------------------------------

  /** 0.5 ** t, exactly, for any integer exponent t. */
  function HalfPow(t: int): real
    decreases if t >= 0 then t else -t
  {
    if t == 0 then 1.0
    else if t > 0 then HalfPow(t - 1) / 2.0
    else 2.0 * HalfPow(t + 1)
  }

  /** For t >= 0: 0 < 0.5 ** t <= 1, equal to 1 only at t = 0. */
  lemma {:induction false} HalfPowBounds(t: int)
    requires t >= 0
    ensures 0.0 < HalfPow(t) <= 1.0
    ensures HalfPow(t) == 1.0 <==> t == 0
  {
    if t > 0 {
      HalfPowBounds(t - 1);
    }
  }

  /** The weight 1 - 0.5 ** t that both alternating statistics give a pair with t shared two-paths. */
  function AltWeight(t: int): real
  {
    1.0 - HalfPow(t)
  }

  // ---------------------------------------------------------------------------
  // alternating_k_triangles
  // ---------------------------------------------------------------------------

  /** The term 2 * G[i,j] * (1 - 0.5 ** tp(i, j)) of the ordered pair (i, j). */
  function AltTriangleTerm(G: Matrix, i: int, j: int): real
  {
    2.0 * Entry(G, i, j) as real * AltWeight(SharedTwoPaths(G, i, j))
  }

  /** Sum of AltTriangleTerm(G, i, j) over j < m. */
  function AltTriangleRowTo(G: Matrix, i: int, m: nat): real
  {
    SumToR(m, j => AltTriangleTerm(G, i, j))
  }

  /** The alternating k-triangle statistic: AltTriangleTerm summed over all ordered pairs. */
  function AltTriangleSum(G: Matrix): real
  {
    SumToR(|G|, i => AltTriangleRowTo(G, i, |G|))
  }

  /** The inner loop shared by both alternating statistics: tp(i, j) accumulated over k. */
  method SharedTwoPathCount(G: Matrix, i: int, j: int) returns (twoPaths: int)
    requires IsSquare(G) && 0 <= i < |G| && 0 <= j < |G|
    ensures twoPaths == SharedTwoPaths(G, i, j)
  {
    twoPaths := 0;
    for k := 0 to |G|
      invariant twoPaths == SharedTo(G, i, j, k)
    {
      if i != k && j != k {
        twoPaths := twoPaths + G[i][k] * G[k][j];
      }
    }
  }

  /** The body of the pair loop of alternating_k_triangles: 2 * G[i,j] * (1 - 0.5 ** tp). */
  method AltTrianglePair(G: Matrix, i: int, j: int) returns (term: real)
    requires IsSquare(G) && 0 <= i < |G| && 0 <= j < |G|
    ensures term == AltTriangleTerm(G, i, j)
  {
    var twoPaths := SharedTwoPathCount(G, i, j);
    term := 2.0 * G[i][j] as real * AltWeight(twoPaths);
  }

  /** alternating_k_triangles: tp(i, j) by an inner loop, then the weighted term per pair. */
  method AlternatingKTriangles(G: Matrix) returns (s: real)
    requires IsSquare(G)
    ensures s == AltTriangleSum(G)
  {
    var n := |G|;
    s := 0.0;
    for i := 0 to n
      invariant s == SumToR(i, a => AltTriangleRowTo(G, a, n))
    {
      for j := 0 to n
        invariant s == SumToR(i, a => AltTriangleRowTo(G, a, n)) + AltTriangleRowTo(G, i, j)
      {
        var term := AltTrianglePair(G, i, j);
        s := s + term;
      }
    }
  }

  /**
   * A pair without an edge (G[i,j] = 0) or without a shared two-path (tp = 0) adds
   * nothing; with non-negative weights every term lies between 0 and 2 * G[i,j].
   */
  lemma AltTriangleTermBounds(G: Matrix, i: int, j: int)
    ensures Entry(G, i, j) == 0 || SharedTwoPaths(G, i, j) == 0 ==> AltTriangleTerm(G, i, j) == 0.0
    ensures NonNegative(G) ==> 0.0 <= AltTriangleTerm(G, i, j) <= 2.0 * Entry(G, i, j) as real
  {
    if NonNegative(G) {
      SharedTwoPathsNonNegative(G, i, j);
      HalfPowBounds(SharedTwoPaths(G, i, j));
    }
  }

  /** With non-negative weights the alternating k-triangle statistic lies in [0, 2 * n_edges]. */
  lemma AltTrianglesAtMostTwiceEdges(G: Matrix)
    requires IsSquare(G) && NonNegative(G)
    ensures 0.0 <= AltTriangleSum(G) <= 2.0 * NEdges(G) as real
  {
    var n := |G|;
    forall i | 0 <= i < n
      ensures 0.0 <= AltTriangleRowTo(G, i, n) <= 2.0 * OutDegree(G, i) as real
    {
      AltTriangleRowAtMostTwiceDegree(G, i);
    }
    SumToRMono(n, i => AltTriangleRowTo(G, i, n), i => 2.0 * OutDegree(G, i) as real);
    SumToRMono(n, i => 0.0, i => AltTriangleRowTo(G, i, n));
    SumToRConst(n, i => 0.0, 0.0);
    SumToROfInt(n, i => 2 * OutDegree(G, i), i => 2.0 * OutDegree(G, i) as real);
    SumToScale(n, i => OutDegree(G, i), 2, i => 2 * OutDegree(G, i));
  }

  /** Row i of alternating_k_triangles lies between 0 and twice the out-degree of i. */
  lemma AltTriangleRowAtMostTwiceDegree(G: Matrix, i: int)
    requires IsSquare(G) && NonNegative(G)
    ensures 0.0 <= AltTriangleRowTo(G, i, |G|) <= 2.0 * OutDegree(G, i) as real
  {
    var n := |G|;
    forall j | 0 <= j < n
      ensures 0.0 <= AltTriangleTerm(G, i, j) <= 2.0 * Entry(G, i, j) as real
    {
      AltTriangleTermBounds(G, i, j);
    }
    SumToRMono(n, j => AltTriangleTerm(G, i, j), j => 2.0 * Entry(G, i, j) as real);
    SumToRMono(n, j => 0.0, j => AltTriangleTerm(G, i, j));
    SumToRConst(n, j => 0.0, 0.0);
    SumToROfInt(n, j => 2 * Entry(G, i, j), j => 2.0 * Entry(G, i, j) as real);
    SumToScale(n, j => Entry(G, i, j), 2, j => 2 * Entry(G, i, j));
  }

  // ---------------------------------------------------------------------------
  // alternating_k_paths
  // ---------------------------------------------------------------------------

  /** The term 2 * (1 - 0.5 ** tp(i, j)) of the ordered pair (i, j), edge or not. */
  function AltPathTerm(G: Matrix, i: int, j: int): real
  {
    2.0 * AltWeight(SharedTwoPaths(G, i, j))
  }

  /** Sum of AltPathTerm(G, i, j) over j < m. */
  function AltPathRowTo(G: Matrix, i: int, m: nat): real
  {
    SumToR(m, j => AltPathTerm(G, i, j))
  }

  /** The alternating k-path statistic: AltPathTerm summed over all ordered pairs. */
  function AltPathSum(G: Matrix): real
  {
    SumToR(|G|, i => AltPathRowTo(G, i, |G|))
  }

  /** The body of the pair loop of alternating_k_paths: 2 * (1 - 0.5 ** tp). */
  method AltPathPair(G: Matrix, i: int, j: int) returns (term: real)
    requires IsSquare(G) && 0 <= i < |G| && 0 <= j < |G|
    ensures term == AltPathTerm(G, i, j)
  {
    var twoPaths := SharedTwoPathCount(G, i, j);
    term := 2.0 * AltWeight(twoPaths);
  }

  /** alternating_k_paths: tp(i, j) by an inner loop, then 2 * (1 - 0.5 ** tp) per pair. */
  method AlternatingKPaths(G: Matrix) returns (s: real)
    requires IsSquare(G)
    ensures s == AltPathSum(G)
  {
    var n := |G|;
    s := 0.0;
    for i := 0 to n
      invariant s == SumToR(i, a => AltPathRowTo(G, a, n))
    {
      for j := 0 to n
        invariant s == SumToR(i, a => AltPathRowTo(G, a, n)) + AltPathRowTo(G, i, j)
      {
        var term := AltPathPair(G, i, j);
        s := s + term;
      }
    }
  }

  /**
   * With non-negative weights each pair adds a value in [0, 2), and 0 exactly when the
   * pair shares no two-path.
   */
  lemma AltPathTermBounds(G: Matrix, i: int, j: int)
    requires NonNegative(G)
    ensures 0.0 <= AltPathTerm(G, i, j) < 2.0
    ensures AltPathTerm(G, i, j) == 0.0 <==> SharedTwoPaths(G, i, j) == 0
  {
    SharedTwoPathsNonNegative(G, i, j);
    HalfPowBounds(SharedTwoPaths(G, i, j));
  }

  /** With non-negative weights the alternating k-path statistic lies in [0, 2 n^2), for n >= 1. */
  lemma AltPathsBounds(G: Matrix)
    requires IsSquare(G) && NonNegative(G)
    ensures 0.0 <= AltPathSum(G)
    ensures |G| > 0 ==> AltPathSum(G) < 2.0 * (|G| * |G|) as real
  {
    var n := |G|;
    forall i | 0 <= i < n
      ensures 0.0 <= AltPathRowTo(G, i, n) < 2.0 * n as real
    {
      forall j | 0 <= j < n
        ensures 0.0 <= AltPathTerm(G, i, j) < 2.0
      {
        AltPathTermBounds(G, i, j);
      }
      SumToRBounds(n, j => AltPathTerm(G, i, j), 0.0, 2.0);
    }
    SumToRBounds(n, i => AltPathRowTo(G, i, n), 0.0, 2.0 * n as real);
  }

  /**
   * In an unweighted graph the alternating k-triangle statistic is at most the
   * alternating k-path statistic: each pair's term is either the same or 0.
   */
  lemma AltTrianglesAtMostAltPaths(G: Matrix)
    requires IsSquare(G) && IsBinary(G)
    ensures AltTriangleSum(G) <= AltPathSum(G)
  {
    var n := |G|;
    assert NonNegative(G);
    forall i | 0 <= i < n
      ensures AltTriangleRowTo(G, i, n) <= AltPathRowTo(G, i, n)
    {
      forall j | 0 <= j < n
        ensures AltTriangleTerm(G, i, j) <= AltPathTerm(G, i, j)
      {
        AltPathTermBounds(G, i, j);
      }
      SumToRMono(n, j => AltTriangleTerm(G, i, j), j => AltPathTerm(G, i, j));
    }
    SumToRMono(n, i => AltTriangleRowTo(G, i, n), i => AltPathRowTo(G, i, n));
  }
}
