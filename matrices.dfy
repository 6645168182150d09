/**
 * The adjacency matrix of a directed graph and the quantities derived from it.
 *
 * Entry (i, j) is the weight of the edge from node i (the row, the source) to
 * node j (the column, the target). The statistics only read the matrix.
 */
module Matrices {
  import opened Sums

  type Matrix = seq<seq<int>>

  /** Every row has as many entries as there are rows. */
  predicate IsSquare(G: Matrix)
  {
    forall i :: 0 <= i < |G| ==> |G[i]| == |G|
  }

  /** G[i][j] where that exists, and 0 elsewhere, so that term functions are total. */
  function Entry(G: Matrix, i: int, j: int): int
  {
    if 0 <= i < |G| && 0 <= j < |G[i]| then G[i][j] else 0
  }

  /** Every weight is non-negative. */
  predicate NonNegative(G: Matrix)
  {
    forall i, j :: 0 <= i < |G| && 0 <= j < |G[i]| ==> 0 <= G[i][j]
  }

  /** A 0/1 adjacency matrix (an unweighted graph). */
  predicate IsBinary(G: Matrix)
  {
    forall i, j :: 0 <= i < |G| && 0 <= j < |G[i]| ==> G[i][j] == 0 || G[i][j] == 1
  }

  /** No self-loops. */
  predicate ZeroDiagonal(G: Matrix)
  {
    forall i :: 0 <= i < |G| ==> Entry(G, i, i) == 0
  }

  /** The n-by-n matrix of zeros: the graph on n nodes without edges. */
  function Zero(n: nat): (Z: Matrix)
    ensures |Z| == n && IsSquare(Z) && NonNegative(Z) && IsBinary(Z) && ZeroDiagonal(Z)
    ensures forall i, j :: Entry(Z, i, j) == 0
  {
    seq(n, i => seq(n, j => 0))
  }

  /** Out-degree of node i: the sum of row i (numpy's G.sum(1)[i]). */
  function OutDegree(G: Matrix, i: int): int
  {
    SumTo(|G|, j => Entry(G, i, j))
  }

  /** In-degree of node j: the sum of column j (numpy's G.sum(0)[j]). */
  function InDegree(G: Matrix, j: int): int
  {
    SumTo(|G|, i => Entry(G, i, j))
  }

  /** The out-degree vector G.sum(1). */
  function OutDegrees(G: Matrix): (d: seq<int>)
    ensures |d| == |G|
  {
    seq(|G|, i => OutDegree(G, i))
  }

  /** The in-degree vector G.sum(0). */
  function InDegrees(G: Matrix): (d: seq<int>)
    ensures |d| == |G|
  {
    seq(|G|, j => InDegree(G, j))
  }

  /** The transposed matrix: every edge reversed. */
  function Transpose(G: Matrix): (T: Matrix)
    requires IsSquare(G)
    ensures |T| == |G| && IsSquare(T)
    ensures forall i, j :: Entry(T, i, j) == Entry(G, j, i)
  {
    seq(|G|, i requires 0 <= i < |G| => seq(|G|, j requires 0 <= j < |G| => G[j][i]))
  }

  /**
   * The same graph with its nodes relabelled: node i of the result is node p[i] of G,
   * for rows and columns alike.
   */
  function Relabel(G: Matrix, p: seq<int>): (R: Matrix)
    requires IsSquare(G)
    requires |p| == |G| && forall i :: 0 <= i < |p| ==> 0 <= p[i] < |G|
    ensures |R| == |G| && IsSquare(R)
    ensures forall i, j :: 0 <= i < |G| && 0 <= j < |G| ==> Entry(R, i, j) == Entry(G, p[i], p[j])
  {
    seq(|G|, i requires 0 <= i < |G| => seq(|G|, j requires 0 <= j < |G| => G[p[i]][p[j]]))
  }

  /** Entry (i, j) of the product is the sum over k of A[i][k] * B[k][j] (numpy's A.dot(B)). */
  function Product(A: Matrix, B: Matrix): (C: Matrix)
    requires IsSquare(A) && IsSquare(B) && |A| == |B|
    ensures |C| == |A| && IsSquare(C)
  {
    seq(|A|, i => seq(|A|, j => SumTo(|A|, k => Entry(A, i, k) * Entry(B, k, j))))
  }

  /** Degrees of a matrix with non-negative entries are non-negative. */
  lemma DegreesNonNegative(G: Matrix, i: int)
    requires NonNegative(G) && 0 <= i < |G|
    ensures 0 <= OutDegree(G, i) && 0 <= InDegree(G, i)
  {
    SumToNonNeg(|G|, j => Entry(G, i, j));
    SumToNonNeg(|G|, j => Entry(G, j, i));
  }

  /** Transposing swaps in- and out-degrees. */
  lemma TransposeDegrees(G: Matrix, i: int)
    requires IsSquare(G)
    ensures InDegree(Transpose(G), i) == OutDegree(G, i)
    ensures OutDegree(Transpose(G), i) == InDegree(G, i)
  {
    var T := Transpose(G);
    SumToExt(|G|, k => Entry(T, k, i), k => Entry(G, i, k));
    SumToExt(|G|, k => Entry(T, i, k), k => Entry(G, k, i));
  }

  /** Relabelling by a permutation moves the degrees along with the nodes. */
  lemma RelabelDegrees(G: Matrix, p: seq<int>, inv: seq<int>, i: int)
    requires IsSquare(G) && IsPermutation(p, inv, |G|)
    requires 0 <= i < |G|
    ensures OutDegree(Relabel(G, p), i) == OutDegree(G, p[i])
    ensures InDegree(Relabel(G, p), i) == InDegree(G, p[i])
  {
    var n, R := |G|, Relabel(G, p);
    var row := j => Entry(G, p[i], j);
    var col := j => Entry(G, j, p[i]);
    SumToPermute(n, row, p, inv);
    SumToExt(n, j => Entry(R, i, j), j => if 0 <= j < |p| then row(p[j]) else 0);
    SumToPermute(n, col, p, inv);
    SumToExt(n, j => Entry(R, j, i), j => if 0 <= j < |p| then col(p[j]) else 0);
  }
}
