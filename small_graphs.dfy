/**
 * The statistics on two small reference graphs: the complete directed graph on three
 * nodes without self-loops, and the directed path 0 -> 1 -> 2.
 */
module SmallGraphs {
  import opened Sums
  import opened Matrices
  import opened EdgeStatistics
  import opened PathStatistics
  import opened TriadStatistics

  /** Every edge between distinct nodes of {0, 1, 2}, and no self-loops. */
  function CompleteTriad(): (K: Matrix)
    ensures |K| == 3 && IsSquare(K) && IsBinary(K) && ZeroDiagonal(K)
    ensures forall i, j :: 0 <= i < 3 && 0 <= j < 3 ==> Entry(K, i, j) == (if i == j then 0 else 1)
  {
    [[0, 1, 1], [1, 0, 1], [1, 1, 0]]
  }

  /** The directed path 0 -> 1 -> 2. */
  function PathTriad(): (P: Matrix)
    ensures |P| == 3 && IsSquare(P) && IsBinary(P) && ZeroDiagonal(P)
  {
    [[0, 1, 0], [0, 0, 1], [0, 0, 0]]
  }

  /** Every node of the complete triad has in- and out-degree 2. */
  lemma CompleteTriadDegrees(i: int)
    requires 0 <= i < 3
    ensures InDegree(CompleteTriad(), i) == 2 && OutDegree(CompleteTriad(), i) == 2
  {
    var K := CompleteTriad();
    SumToThree(a => Entry(K, a, i));
    SumToThree(b => Entry(K, i, b));
  }

  /** The complete triad has 6 edges, all 6 of them reciprocated. */
  lemma CompleteTriadEdges()
    ensures NEdges(CompleteTriad()) == 6 && MutualSum(CompleteTriad()) == 6
  {
    var K := CompleteTriad();
    CompleteTriadDegrees(0);
    CompleteTriadDegrees(1);
    CompleteTriadDegrees(2);
    SumToThree(i => OutDegree(K, i));
    forall i | 0 <= i < 3
      ensures MutualRowTo(K, i, 3) == 2
    {
      SumToThree(j => MutualTerm(K, i, j));
    }
    SumToThree(i => MutualRowTo(K, i, 3));
  }

  /**
   * As written, cyclic_triads gives the complete triad 8: its 24 walks of length three
   * divided by 3, although it holds two directed 3-cycles.
   */
  lemma CyclicTriadsOfCompleteTriad()
    ensures CyclicTriads(CompleteTriad()) == 8.0
  {
    var K := CompleteTriad();
    CompleteTriadDegrees(0);
    CompleteTriadDegrees(1);
    CompleteTriadDegrees(2);
    forall k | 0 <= k < 3
      ensures WalksInto(K, k) == 8
    {
      SumToThree(j => MiddleEdgeWalks(K, j, k));
    }
    SumToThree(k => WalksInto(K, k));
    CyclicTriadsCountsThreeWalks(K);
  }

  /** The corrected count finds the two directed 3-cycles 0 -> 1 -> 2 -> 0 and 0 -> 2 -> 1 -> 0. */
  lemma CyclicTriadsTraceOfCompleteTriad()
    ensures CyclicTriadsTrace(CompleteTriad()) == 2.0
    ensures CyclicTriads(CompleteTriad()) != CyclicTriadsTrace(CompleteTriad())
  {
    var K := CompleteTriad();
    forall i, j | 0 <= i < 3 && 0 <= j < 3
      ensures CycleInner(K, i, j) == (if i == j then 0 else 1)
    {
      SumToThree(k => CycleTerm(K, i, j, k));
    }
    forall i | 0 <= i < 3
      ensures CycleRow(K, i) == 2
    {
      SumToThree(j => CycleInner(K, i, j));
    }
    SumToThree(i => CycleRow(K, i));
    CyclicTriadsOfCompleteTriad();
  }

  /** On three nodes, the predecessors of i are listed by testing nodes 0, 1 and 2 in turn. */
  lemma PredecessorsOfThree(G: Matrix, i: int)
    requires |G| == 3
    ensures Predecessors(G, i) ==
      (if Entry(G, 0, i) == 1 then [0] else []) + (if Entry(G, 1, i) == 1 then [1] else []) +
      (if Entry(G, 2, i) == 1 then [2] else [])
  {
    assert PredecessorsBelow(G, i, 0) == [];
    var b1 := PredecessorsBelow(G, i, 1);
    assert b1 == (if Entry(G, 0, i) == 1 then [0] else []);
    var b2 := PredecessorsBelow(G, i, 2);
    assert b2 == b1 + (if Entry(G, 1, i) == 1 then [1] else []);
  }

  /** The predecessors of each node of the complete triad are the other two nodes, in order. */
  lemma CompleteTriadPredecessors(i: int)
    requires 0 <= i < 3
    ensures Predecessors(CompleteTriad(), i) == (if i == 0 then [1, 2] else if i == 1 then [0, 2] else [0, 1])
  {
    var K := CompleteTriad();
    PredecessorsOfThree(K, i);
    var e0, e1, e2 := Entry(K, 0, i), Entry(K, 1, i), Entry(K, 2, i);
    assert e0 == (if i == 0 then 0 else 1) && e1 == (if i == 1 then 0 else 1) && e2 == (if i == 2 then 0 else 1);
    ConcatOfThree(e0, e1, e2, i);
  }

  /** The three optional parts of a predecessor list of the complete triad leave out node i. */
  lemma ConcatOfThree(e0: int, e1: int, e2: int, i: int)
    requires 0 <= i < 3
    requires e0 == (if i == 0 then 0 else 1) && e1 == (if i == 1 then 0 else 1) && e2 == (if i == 2 then 0 else 1)
    ensures (if e0 == 1 then [0] else []) + (if e1 == 1 then [1] else []) + (if e2 == 1 then [2] else []) ==
      (if i == 0 then [1, 2] else if i == 1 then [0, 2] else [0, 1])
  {
    if i == 0 {
      assert [] + [1] + [2] == [1, 2];
    } else if i == 1 {
      assert [0] + [] + [2] == [0, 2];
    } else {
      assert [0] + [1] + [] == [0, 1];
    }
  }

  /** Two neighbours form one pair, counted when they are connected. */
  lemma ConnectedPairsOfTwo(G: Matrix, a: int, b: int)
    ensures ConnectedPairsTo(G, [a, b], 2) == (if Connected(G, a, b) then 1 else 0)
  {
    var nb := [a, b];
    SumToTwo(q => PairTerm(G, nb, 0, q));
    SumToTwo(q => PairTerm(G, nb, 1, q));
    SumToTwo(p => PairRowTo(G, nb, p, 2));
  }

  /** Each node of the complete triad has one connected pair of predecessors: 3 in all. */
  lemma TransitiveTriadsOfCompleteTriad()
    ensures TransitiveSum(CompleteTriad()) == 3
  {
    var K := CompleteTriad();
    forall i | 0 <= i < 3
      ensures TransitiveAt(K, i) == 1
    {
      CompleteTriadPredecessors(i);
      if i == 0 {
        ConnectedPairsOfTwo(K, 1, 2);
      } else if i == 1 {
        ConnectedPairsOfTwo(K, 0, 2);
      } else {
        ConnectedPairsOfTwo(K, 0, 1);
      }
    }
    SumToThree(i => TransitiveAt(K, i));
  }

  /** On the path 0 -> 1 -> 2, node 0 has no predecessor and node 2 no successor; the rest have one. */
  lemma PathTriadDegrees(i: int)
    requires 0 <= i < 3
    ensures InDegree(PathTriad(), i) == (if i == 0 then 0 else 1)
    ensures OutDegree(PathTriad(), i) == (if i == 2 then 0 else 1)
  {
    var P := PathTriad();
    SumToThree(a => Entry(P, a, i));
    SumToThree(b => Entry(P, i, b));
  }

  /** The path 0 -> 1 -> 2 has 2 edges and one two-path. */
  lemma PathTriadEdges()
    ensures NEdges(PathTriad()) == 2
    ensures MixedStarSum(PathTriad()) == 1
    ensures TwoPathSum(PathTriad()) == 1
  {
    var P := PathTriad();
    PathTriadDegrees(0);
    PathTriadDegrees(1);
    PathTriadDegrees(2);
    SumToThree(i => OutDegree(P, i));
    SumToThree(i => InDegree(P, i) * OutDegree(P, i));
    TwoPathsAreMixedStars(P);
  }

  /** The path 0 -> 1 -> 2 has no walk of length three, so no cyclic triad. */
  lemma PathTriadCyclic()
    ensures CyclicTriads(PathTriad()) == 0.0
  {
    var P := PathTriad();
    PathTriadDegrees(0);
    PathTriadDegrees(1);
    PathTriadDegrees(2);
    forall k | 0 <= k < 3
      ensures WalksInto(P, k) == 0
    {
      SumToThree(j => MiddleEdgeWalks(P, j, k));
    }
    SumToThree(k => WalksInto(P, k));
    CyclicTriadsCountsThreeWalks(P);
  }
}
