/**
 * Edge, mutual-edge and star statistics of a directed graph (the first block of
 * the configurations library): n_edges, n_mutual, two_in_stars, two_out_stars,
 * two_mixed_stars.
 */
module EdgeStatistics {
  import opened Sums
  import opened Matrices

  // ---------------------------------------------------------------------------
  // n_edges
  // ---------------------------------------------------------------------------

  /** np.sum(G): the sum of all entries, row by row. */
  function NEdges(G: Matrix): int
  {
    SumTo(|G|, i => OutDegree(G, i))
  }

  /**
   * NEdges sums the entries row by row, i.e. it is the sum of the out-degree vector
   * G.sum(1); summing column by column, i.e. the in-degree vector G.sum(0), gives the
   * same total.
   */
  lemma NEdgesByDegrees(G: Matrix)
    requires IsSquare(G)
    ensures NEdges(G) == SumTo(|G|, j => InDegree(G, j))
  {
    var n := |G|;
    var F := (i, j) => Entry(G, i, j);
    forall i | 0 <= i < n
      ensures OutDegree(G, i) == SumTo(n, j => F(i, j))
    {
      SumToExt(n, j => Entry(G, i, j), j => F(i, j));
    }
    forall j | 0 <= j < n
      ensures InDegree(G, j) == SumTo(n, i => F(i, j))
    {
      SumToExt(n, i => Entry(G, i, j), i => F(i, j));
    }
    SumToSwapBy(n, n, F, i => OutDegree(G, i), j => InDegree(G, j));
  }

  /** With non-negative weights the edge count is non-negative. */
  lemma NEdgesNonNegative(G: Matrix)
    requires NonNegative(G)
    ensures NEdges(G) >= 0
  {
    forall i | 0 <= i < |G|
      ensures OutDegree(G, i) >= 0
    {
      DegreesNonNegative(G, i);
    }
    SumToNonNeg(|G|, i => OutDegree(G, i));
  }

  // ---------------------------------------------------------------------------
  // n_mutual
  // ---------------------------------------------------------------------------

  /** The term G[i,j] * G[j,i]: non-zero exactly when i -> j and j -> i are both edges. */
  function MutualTerm(G: Matrix, i: int, j: int): int
  {
    Entry(G, i, j) * Entry(G, j, i)
  }

  /** Sum of MutualTerm(G, i, j) over j < k. */
  function MutualRowTo(G: Matrix, i: int, k: nat): int
  {
    SumTo(k, j => MutualTerm(G, i, j))
  }

  /** Sum of MutualTerm over the k-by-k leading block. */
  function MutualBlock(G: Matrix, k: nat): int
  {
    SumTo(k, i => MutualRowTo(G, i, k))
  }

  /** The mutual-edge count: the sum of G[i,j] * G[j,i] over all ordered pairs (i, j). */
  function MutualSum(G: Matrix): int
  {
    MutualBlock(G, |G|)
  }

  /** n_mutual: the double loop accumulating G[i,j] * G[j,i]. */
  method NMutual(G: Matrix) returns (s: int)
    requires IsSquare(G)
    ensures s == MutualSum(G)
  {
    var n := |G|;
    s := 0;
    for i := 0 to n
      invariant s == SumTo(i, a => MutualRowTo(G, a, n))
    {
      for j := 0 to n
        invariant s == SumTo(i, a => MutualRowTo(G, a, n)) + MutualRowTo(G, i, j)
      {
        s := s + G[i][j] * G[j][i];
      }
    }
  }

  /** Reversing every edge leaves the mutual count unchanged: each term has its swapped twin. */
  lemma MutualTranspose(G: Matrix)
    requires IsSquare(G)
    ensures MutualSum(Transpose(G)) == MutualSum(G)
  {
    var n, T := |G|, Transpose(G);
    forall i | 0 <= i < n
      ensures MutualRowTo(T, i, n) == MutualRowTo(G, i, n)
    {
      SumToExt(n, j => MutualTerm(T, i, j), j => MutualTerm(G, i, j));
    }
    SumToExt(n, i => MutualRowTo(T, i, n), i => MutualRowTo(G, i, n));
  }

  /** In an unweighted graph, each reciprocated term is at most the edge it starts from. */
  lemma MutualAtMostEdges(G: Matrix)
    requires IsSquare(G) && IsBinary(G)
    ensures 0 <= MutualSum(G) <= NEdges(G)
  {
    var n := |G|;
    forall i | 0 <= i < n
      ensures 0 <= MutualRowTo(G, i, n) <= OutDegree(G, i)
    {
      forall j | 0 <= j < n
        ensures 0 <= MutualTerm(G, i, j) <= Entry(G, i, j)
      {
      }
      SumToMono(n, j => MutualTerm(G, i, j), j => Entry(G, i, j));
      SumToNonNeg(n, j => MutualTerm(G, i, j));
    }
    SumToMono(n, i => MutualRowTo(G, i, n), i => OutDegree(G, i));
    SumToNonNeg(n, i => MutualRowTo(G, i, n));
  }

  /** The mutual terms of the unordered pairs j < i < k, each pair taken once. */
  function MutualPairs(G: Matrix, k: nat): int
  {
    SumTo(k, i => if 0 <= i then MutualRowTo(G, i, i) else 0)
  }

  /**
   * Without self-loops the mutual count is even: the pair (i, j) and the pair (j, i)
   * contribute the same term, so it is twice the sum over unordered pairs.
   */
  lemma MutualEven(G: Matrix)
    requires IsSquare(G) && ZeroDiagonal(G)
    ensures MutualSum(G) == 2 * MutualPairs(G, |G|)
    ensures MutualSum(G) % 2 == 0
  {
    MutualBlockTwice(G, |G|);
  }

  /** The leading k-by-k block of mutual terms counts each unordered pair below k twice. */
  lemma {:induction false} MutualBlockTwice(G: Matrix, k: nat)
    requires IsSquare(G) && ZeroDiagonal(G) && k <= |G|
    ensures MutualBlock(G, k) == 2 * MutualPairs(G, k)
  {
    if k > 0 {
      MutualBlockTwice(G, k - 1);
      MutualBlockStep(G, k - 1);
      MutualColumnMirrorsRow(G, k - 1);
    }
  }

  /** Growing the block by one node adds row c and column c of the new block. */
  lemma MutualBlockStep(G: Matrix, c: nat)
    ensures MutualBlock(G, c + 1) ==
      MutualBlock(G, c) + MutualRowTo(G, c, c) + SumTo(c + 1, i => MutualTerm(G, i, c))
  {
    var k := c + 1;
    SumToAdd(k, i => MutualRowTo(G, i, c), i => MutualTerm(G, i, c), i => MutualRowTo(G, i, k));
  }

  /** Column c of the block mirrors row c, and without self-loops the corner term is 0. */
  lemma MutualColumnMirrorsRow(G: Matrix, c: nat)
    requires IsSquare(G) && ZeroDiagonal(G) && c < |G|
    ensures SumTo(c + 1, i => MutualTerm(G, i, c)) == MutualRowTo(G, c, c)
  {
    SumToExt(c, i => MutualTerm(G, i, c), j => MutualTerm(G, c, j));
    assert MutualTerm(G, c, c) == 0;
  }

  // ---------------------------------------------------------------------------
  // two_in_stars, two_out_stars
  // ---------------------------------------------------------------------------

  /**
   * comb(d, 2) on an integer d, as scipy computes it without exact=True: d * (d - 1) / 2,
   * and 0 when d < 2 (in particular for degrees 0 and 1).
   */
  function Choose2(d: int): int
  {
    if d < 2 then 0 else d * (d - 1) / 2
  }

  /** One more item adds d new pairs. */
  lemma Choose2Step(d: nat)
    ensures Choose2(d + 1) == Choose2(d) + d
  {
    if d >= 1 {
      var x := d * (d - 1);
      assert (d + 1) * d == x + 2 * d;
    }
  }

  /** comb(d, 2) counts the pairs p < q < d: the sum of q over q < d. */
  lemma {:induction false} Choose2CountsPairs(d: nat)
    ensures Choose2(d) == SumTo(d, q => q)
    ensures Choose2(d) >= 0
  {
    if d > 0 {
      Choose2CountsPairs(d - 1);
      Choose2Step(d - 1);
    }
  }

  /** The two-in-star count: the sum over nodes of comb(in-degree, 2). */
  function InStarSum(G: Matrix): int
  {
    SumTo(|G|, j => Choose2(InDegree(G, j)))
  }

  /** The two-out-star count: the sum over nodes of comb(out-degree, 2). */
  function OutStarSum(G: Matrix): int
  {
    SumTo(|G|, i => Choose2(OutDegree(G, i)))
  }

  /** two_in_stars: accumulate comb(incoming, 2) over the in-degree vector. */
  method TwoInStars(G: Matrix) returns (s: int)
    requires IsSquare(G)
    ensures s == InStarSum(G)
  {
    s := 0;
    var incomings := InDegrees(G);
    for j := 0 to |incomings|
      invariant s == SumTo(j, b => Choose2(InDegree(G, b)))
    {
      s := s + Choose2(incomings[j]);
    }
  }

  /** two_out_stars: accumulate comb(outgoing, 2) over the out-degree vector. */
  method TwoOutStars(G: Matrix) returns (s: int)
    requires IsSquare(G)
    ensures s == OutStarSum(G)
  {
    s := 0;
    var outgoings := OutDegrees(G);
    for i := 0 to |outgoings|
      invariant s == SumTo(i, a => Choose2(OutDegree(G, a)))
    {
      s := s + Choose2(outgoings[i]);
    }
  }

  /** Two-in-stars of G are the two-out-stars of the reversed graph, and vice versa. */
  lemma StarsTranspose(G: Matrix)
    requires IsSquare(G)
    ensures InStarSum(G) == OutStarSum(Transpose(G))
    ensures OutStarSum(G) == InStarSum(Transpose(G))
  {
    var n, T := |G|, Transpose(G);
    forall i | 0 <= i < n
      ensures OutDegree(T, i) == InDegree(G, i) && InDegree(T, i) == OutDegree(G, i)
    {
      TransposeDegrees(G, i);
    }
    SumToExt(n, j => Choose2(InDegree(G, j)), i => Choose2(OutDegree(T, i)));
    SumToExt(n, i => Choose2(OutDegree(G, i)), j => Choose2(InDegree(T, j)));
  }

  /**
   * Star counts are non-negative, and a node whose degree is 0 or 1 adds nothing:
   * only nodes of degree at least 2 carry a star.
   */
  lemma StarsFromHighDegreeNodes(G: Matrix)
    requires IsSquare(G)
    ensures InStarSum(G) == SumTo(|G|, j => if InDegree(G, j) >= 2 then Choose2(InDegree(G, j)) else 0)
    ensures OutStarSum(G) == SumTo(|G|, i => if OutDegree(G, i) >= 2 then Choose2(OutDegree(G, i)) else 0)
    ensures InStarSum(G) >= 0 && OutStarSum(G) >= 0
  {
    var n := |G|;
    forall d: int
      ensures Choose2(d) >= 0 && (d < 2 ==> Choose2(d) == 0)
    {
      if d >= 0 {
        Choose2CountsPairs(d);
      }
    }
    SumToExt(n, j => Choose2(InDegree(G, j)), j => if InDegree(G, j) >= 2 then Choose2(InDegree(G, j)) else 0);
    SumToExt(n, i => Choose2(OutDegree(G, i)), i => if OutDegree(G, i) >= 2 then Choose2(OutDegree(G, i)) else 0);
    SumToNonNeg(n, j => Choose2(InDegree(G, j)));
    SumToNonNeg(n, i => Choose2(OutDegree(G, i)));
  }

  // ---------------------------------------------------------------------------
  // two_mixed_stars
  // ---------------------------------------------------------------------------

  /** The two-mixed-star count: the sum over nodes of in-degree times out-degree. */
  function MixedStarSum(G: Matrix): int
  {
    SumTo(|G|, i => InDegree(G, i) * OutDegree(G, i))
  }

  /** two_mixed_stars: accumulate incoming * outgoing over the zipped degree vectors. */
  method TwoMixedStars(G: Matrix) returns (s: int)
    requires IsSquare(G)
    ensures s == MixedStarSum(G)
  {
    s := 0;
    var incomings := InDegrees(G);
    var outgoings := OutDegrees(G);
    for i := 0 to |incomings|
      invariant s == SumTo(i, a => InDegree(G, a) * OutDegree(G, a))
    {
      s := s + incomings[i] * outgoings[i];
    }
  }

  /** Reversing every edge swaps in- and out-degrees, so the mixed-star count is unchanged. */
  lemma MixedStarsTranspose(G: Matrix)
    requires IsSquare(G)
    ensures MixedStarSum(Transpose(G)) == MixedStarSum(G)
  {
    var n, T := |G|, Transpose(G);
    forall i | 0 <= i < n
      ensures InDegree(T, i) * OutDegree(T, i) == InDegree(G, i) * OutDegree(G, i)
    {
      TransposeDegrees(G, i);
    }
    SumToExt(n, i => InDegree(T, i) * OutDegree(T, i), i => InDegree(G, i) * OutDegree(G, i));
  }
}
