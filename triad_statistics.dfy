/**
 * Triad statistics: cyclic_triads, transitive_triads and not_transitive_triads.
 */
module TriadStatistics {
  import opened Sums
  import opened Matrices
  import opened EdgeStatistics
  import opened PathStatistics

  // ---------------------------------------------------------------------------
  // cyclic_triads, as written: the sum of ALL entries of G.G.G, divided by 3
  // ---------------------------------------------------------------------------

  /** ((G.dot(G)).dot(G)).sum() / 3. */
  function CyclicTriads(G: Matrix): real
    requires IsSquare(G)
  {
    NEdges(Product(Product(G, G), G)) as real / 3.0
  }

  /** The walks j' -> j -> k -> k' whose middle edge is j -> k: indeg(j) * G[j,k] * outdeg(k). */
  function MiddleEdgeWalks(G: Matrix, j: int, k: int): int
  {
    InDegree(G, j) * Entry(G, j, k) * OutDegree(G, k)
  }

  /** Sum of MiddleEdgeWalks(G, j, k) over the first nodes j. */
  function WalksInto(G: Matrix, k: int): int
  {
    SumTo(|G|, j => MiddleEdgeWalks(G, j, k))
  }

  /** All walks of length three, grouped by their middle edge. */
  function ThreeWalks(G: Matrix): int
  {
    SumTo(|G|, k => WalksInto(G, k))
  }

  /**
   * Three times cyclic_triads is the number of walks of length three (a full entry
   * sum of G^3, not its trace): every edge j -> k counted once per predecessor of j
   * and successor of k.
   */
  lemma CyclicTriadsCountsThreeWalks(G: Matrix)
    requires IsSquare(G)
    ensures 3.0 * CyclicTriads(G) == ThreeWalks(G) as real
  {
    var n := |G|;
    var P3 := Product(Product(G, G), G);
    var H := (i, k) => TwoWalk(G, i, k) * OutDegree(G, k);
    forall i | 0 <= i < n
      ensures OutDegree(P3, i) == SumTo(n, k => H(i, k))
    {
      CubeRow(G, i);
      SumToExt(n, k => TwoWalk(G, i, k) * OutDegree(G, k), k => H(i, k));
    }
    forall k | 0 <= k < n
      ensures WalksInto(G, k) == SumTo(n, i => H(i, k))
    {
      SquareColumn(G, k);
      WalksIntoFactor(G, k);
      SumToScale(n, i => TwoWalk(G, i, k), OutDegree(G, k), i => H(i, k));
    }
    SumToSwapBy(n, n, H, i => OutDegree(P3, i), k => WalksInto(G, k));
  }

  /** Row i of G^3 sums to the walks i -> _ -> k, each weighted by the out-degree of k. */
  lemma CubeRow(G: Matrix, i: int)
    requires IsSquare(G) && 0 <= i < |G|
    ensures OutDegree(Product(Product(G, G), G), i) == SumTo(|G|, k => TwoWalk(G, i, k) * OutDegree(G, k))
  {
    var n := |G|;
    var P2 := Product(G, G);
    var P3 := Product(P2, G);
    assert forall k :: 0 <= k < n ==> Entry(P2, i, k) == TwoWalk(G, i, k);
    var F := (l, k) => TwoWalk(G, i, k) * Entry(G, k, l);
    forall l | 0 <= l < n
      ensures Entry(P3, i, l) == SumTo(n, k => F(l, k))
    {
      SumToExt(n, k => Entry(P2, i, k) * Entry(G, k, l), k => F(l, k));
    }
    forall k | 0 <= k < n
      ensures TwoWalk(G, i, k) * OutDegree(G, k) == SumTo(n, l => F(l, k))
    {
      SumToScale(n, l => Entry(G, k, l), TwoWalk(G, i, k), l => F(l, k));
    }
    SumToSwapBy(n, n, F, l => Entry(P3, i, l), k => TwoWalk(G, i, k) * OutDegree(G, k));
  }

  /**
   * Column k of G^2, summed over the start nodes: the walks _ -> j -> k are the edges j -> k,
   * each weighted by the in-degree of j.
   */
  lemma SquareColumn(G: Matrix, k: int)
    requires IsSquare(G)
    ensures SumTo(|G|, i => TwoWalk(G, i, k)) == SumTo(|G|, j => InDegree(G, j) * Entry(G, j, k))
  {
    var n := |G|;
    var E := (i, j) => PathVia(G, i, j, k);
    forall i | 0 <= i < n
      ensures TwoWalk(G, i, k) == SumTo(n, j => E(i, j))
    {
      TwoWalkByMiddle(G, i, k);
      SumToExt(n, j => PathVia(G, i, j, k), j => E(i, j));
    }
    forall j | 0 <= j < n
      ensures InDegree(G, j) * Entry(G, j, k) == SumTo(n, i => E(i, j))
    {
      EdgesIntoByMiddle(G, j, k);
      SumToExt(n, i => PathVia(G, i, j, k), i => E(i, j));
    }
    SumToSwapBy(n, n, E, i => TwoWalk(G, i, k), j => InDegree(G, j) * Entry(G, j, k));
  }

  /** The two-step walk i -> j -> k. */
  function PathVia(G: Matrix, i: int, j: int, k: int): int
  {
    Entry(G, i, j) * Entry(G, j, k)
  }

  /** The two-step walks from i to k, one per middle node j. */
  lemma TwoWalkByMiddle(G: Matrix, i: int, k: int)
    ensures TwoWalk(G, i, k) == SumTo(|G|, j => PathVia(G, i, j, k))
  {
    SumToExt(|G|, j => Entry(G, i, j) * Entry(G, j, k), j => PathVia(G, i, j, k));
  }

  /** The two-step walks through the edge j -> k, one per predecessor i of j. */
  lemma EdgesIntoByMiddle(G: Matrix, j: int, k: int)
    ensures InDegree(G, j) * Entry(G, j, k) == SumTo(|G|, i => PathVia(G, i, j, k))
  {
    var e := Entry(G, j, k);
    forall i | 0 <= i < |G|
      ensures PathVia(G, i, j, k) == e * Entry(G, i, j)
    {
      Commute(Entry(G, i, j), e);
    }
    SumToScale(|G|, i => Entry(G, i, j), e, i => PathVia(G, i, j, k));
    Commute(InDegree(G, j), e);
  }


  /** The out-degree of k is a common factor of the walks whose middle edge ends at k. */
  lemma WalksIntoFactor(G: Matrix, k: int)
    ensures WalksInto(G, k) == OutDegree(G, k) * SumTo(|G|, j => InDegree(G, j) * Entry(G, j, k))
  {
    forall j | 0 <= j < |G|
      ensures MiddleEdgeWalks(G, j, k) == OutDegree(G, k) * (InDegree(G, j) * Entry(G, j, k))
    {
      Commute(InDegree(G, j) * Entry(G, j, k), OutDegree(G, k));
    }
    SumToScale(|G|, j => InDegree(G, j) * Entry(G, j, k), OutDegree(G, k), j => MiddleEdgeWalks(G, j, k));
  }

  /** The directed two-cycle 0 <-> 1: no self-loops and no triangle at all. */
  function TwoCycle(): (C: Matrix)
    ensures IsSquare(C) && IsBinary(C) && ZeroDiagonal(C) && !HasDirectedTriangle(C)
  {
    [[0, 1], [1, 0]]
  }

  /**
   * As written, cyclic_triads gives a graph without any directed triangle a non-zero,
   * non-integer count: 2/3 for the two-cycle, from its two closed walks of length
   * three 0 -> 1 -> 0 -> 1 and 1 -> 0 -> 1 -> 0.
   */
  lemma CyclicTriadsOfTwoCycle()
    ensures CyclicTriads(TwoCycle()) == 2.0 / 3.0
  {
    TwoCycleThreeWalks();
    CyclicTriadsCountsThreeWalks(TwoCycle());
  }

  /** Every node of the two-cycle has one edge in and one edge out. */
  lemma TwoCycleDegrees(a: int)
    requires 0 <= a < 2
    ensures InDegree(TwoCycle(), a) == 1 && OutDegree(TwoCycle(), a) == 1
  {
    SumToTwo(i => Entry(TwoCycle(), i, a));
    SumToTwo(j => Entry(TwoCycle(), a, j));
  }

  /** The two-cycle has two walks of length three, one through each of its edges. */
  lemma TwoCycleThreeWalks()
    ensures ThreeWalks(TwoCycle()) == 2
  {
    var C := TwoCycle();
    TwoCycleDegrees(0);
    TwoCycleDegrees(1);
    assert MiddleEdgeWalks(C, 0, 0) == 0 && MiddleEdgeWalks(C, 1, 1) == 0;
    assert MiddleEdgeWalks(C, 0, 1) == 1 && MiddleEdgeWalks(C, 1, 0) == 1;
    SumToTwo(j => MiddleEdgeWalks(C, j, 0));
    SumToTwo(j => MiddleEdgeWalks(C, j, 1));
    SumToTwo(k => WalksInto(C, k));
  }

  // ---------------------------------------------------------------------------
  // cyclic_triads, corrected: the trace of G^3, divided by 3
  // ---------------------------------------------------------------------------

  /** Some three distinct nodes carry a directed cycle i -> j -> k -> i. */
  predicate HasDirectedTriangle(G: Matrix)
  {
    exists i, j, k :: 0 <= i < |G| && 0 <= j < |G| && 0 <= k < |G| && i != j && j != k && i != k &&
      Entry(G, i, j) > 0 && Entry(G, j, k) > 0 && Entry(G, k, i) > 0
  }

  /** The closed walk i -> j -> k -> i. */
  function CycleTerm(G: Matrix, i: int, j: int, k: int): int
  {
    Entry(G, i, j) * Entry(G, j, k) * Entry(G, k, i)
  }

  /** Sum of CycleTerm(G, i, j, k) over k. */
  function CycleInner(G: Matrix, i: int, j: int): int
  {
    SumTo(|G|, k => CycleTerm(G, i, j, k))
  }

  /** Entry (i, i) of G^3: the closed walks of length three from i. */
  function CycleRow(G: Matrix, i: int): int
  {
    SumTo(|G|, j => CycleInner(G, i, j))
  }

  /** The trace of G^3. */
  function CycleSum(G: Matrix): int
  {
    SumTo(|G|, i => CycleRow(G, i))
  }

  /** The evidently intended count: trace(G^3) / 3, each directed 3-cycle once per rotation. */
  function CyclicTriadsTrace(G: Matrix): real
  {
    CycleSum(G) as real / 3.0
  }

  /**
   * With non-negative weights and no self-loops, the corrected count is zero exactly
   * when the graph has no directed triangle.
   */
  lemma CyclicTriadsTraceDetectsTriangles(G: Matrix)
    requires IsSquare(G) && NonNegative(G) && ZeroDiagonal(G)
    ensures CyclicTriadsTrace(G) == 0.0 <==> !HasDirectedTriangle(G)
  {
    var n := |G|;
    forall i, j, k | 0 <= i < n && 0 <= j < n && 0 <= k < n
      ensures CycleTerm(G, i, j, k) >= 0
      ensures CycleTerm(G, i, j, k) == 0 <==>
        !(i != j && j != k && i != k && Entry(G, i, j) > 0 && Entry(G, j, k) > 0 && Entry(G, k, i) > 0)
    {
      var a, b, c := Entry(G, i, j), Entry(G, j, k), Entry(G, k, i);
      assert a >= 0 && b >= 0 && c >= 0;
      assert a * b >= 0;
      if i == j { assert a == 0; }
      if j == k { assert b == 0; }
      if i == k { assert c == 0; }
      if a > 0 && b > 0 && c > 0 {
        assert a * b > 0;
        assert a * b * c > 0;
      }
    }
    if !HasDirectedTriangle(G) {
      forall i | 0 <= i < n
        ensures CycleRow(G, i) == 0
      {
        forall j | 0 <= j < n
          ensures CycleInner(G, i, j) == 0
        {
          SumToConst(n, k => CycleTerm(G, i, j, k), 0);
        }
        SumToConst(n, j => CycleInner(G, i, j), 0);
      }
      SumToConst(n, i => CycleRow(G, i), 0);
    } else {
      var i, j, k :| 0 <= i < n && 0 <= j < n && 0 <= k < n && i != j && j != k && i != k &&
        Entry(G, i, j) > 0 && Entry(G, j, k) > 0 && Entry(G, k, i) > 0;
      forall a, b | 0 <= a < n && 0 <= b < n
        ensures CycleInner(G, a, b) >= 0
      {
        SumToNonNeg(n, c => CycleTerm(G, a, b, c));
      }
      forall a | 0 <= a < n
        ensures CycleRow(G, a) >= 0
      {
        SumToNonNeg(n, b => CycleInner(G, a, b));
      }
      SumToPositive(n, c => CycleTerm(G, i, j, c), k);
      SumToPositive(n, b => CycleInner(G, i, b), j);
      SumToPositive(n, a => CycleRow(G, a), i);
    }
  }

  /** The corrected count gives the two-cycle 0 triads, where the code as written gives 2/3. */
  lemma CyclicTriadsTraceOfTwoCycle()
    ensures CyclicTriadsTrace(TwoCycle()) == 0.0
    ensures CyclicTriads(TwoCycle()) != CyclicTriadsTrace(TwoCycle())
  {
    var C := TwoCycle();
    assert NonNegative(C);
    CyclicTriadsTraceDetectsTriangles(C);
    CyclicTriadsOfTwoCycle();
  }

  // ---------------------------------------------------------------------------
  // transitive_triads
  // ---------------------------------------------------------------------------

  /**
   * The nodes j < m with G[j,i] == 1 exactly, in increasing order: the predecessors of i
   * that np.where(G[:, i] == 1) returns.
   */
  function PredecessorsBelow(G: Matrix, i: int, m: nat): (nb: seq<int>)
    ensures forall p :: 0 <= p < |nb| ==> 0 <= nb[p] < m && Entry(G, nb[p], i) == 1
    ensures forall p, q :: 0 <= p < q < |nb| ==> nb[p] < nb[q]
    ensures forall j :: 0 <= j < m && Entry(G, j, i) == 1 ==> j in nb
  {
    if m == 0 then []
    else PredecessorsBelow(G, i, m - 1) + (if Entry(G, m - 1, i) == 1 then [m - 1] else [])
  }

  /** np.where(G[:, i] == 1)[0]: every node j with G[j,i] == 1, once each, in increasing order. */
  function Predecessors(G: Matrix, i: int): (nb: seq<int>)
    ensures forall p :: 0 <= p < |nb| ==> 0 <= nb[p] < |G| && Entry(G, nb[p], i) == 1
    ensures forall p, q :: 0 <= p < q < |nb| ==> nb[p] < nb[q]
    ensures forall j :: 0 <= j < |G| && Entry(G, j, i) == 1 ==> j in nb
  {
    PredecessorsBelow(G, i, |G|)
  }

  /** A node none of whose incoming entries is exactly 1 has no predecessors. */
  lemma {:induction false} NoPredecessorsBelow(G: Matrix, i: int, m: nat)
    requires forall j :: 0 <= j < m ==> Entry(G, j, i) != 1
    ensures PredecessorsBelow(G, i, m) == []
  {
    if m > 0 {
      NoPredecessorsBelow(G, i, m - 1);
    }
  }

  /** An edge joins a and b in one direction or the other. */
  predicate Connected(G: Matrix, a: int, b: int)
  {
    Entry(G, a, b) == 1 || Entry(G, b, a) == 1
  }

  /** 1 when positions p < q of nb hold two connected nodes: one step of itertools.combinations. */
  function PairTerm(G: Matrix, nb: seq<int>, p: int, q: int): int
  {
    if 0 <= p < q < |nb| && Connected(G, nb[p], nb[q]) then 1 else 0
  }

  /** Sum of PairTerm(G, nb, p, q) over q < m. */
  function PairRowTo(G: Matrix, nb: seq<int>, p: int, m: nat): int
  {
    SumTo(m, q => PairTerm(G, nb, p, q))
  }

  /** The connected pairs among nb whose first position is below m. */
  function ConnectedPairsTo(G: Matrix, nb: seq<int>, m: nat): int
  {
    SumTo(m, p => PairRowTo(G, nb, p, |nb|))
  }

  /** clust_coef[i]: the connected unordered pairs of predecessors of i (0 when there are none). */
  function TransitiveAt(G: Matrix, i: int): int
  {
    var nb := Predecessors(G, i);
    if |nb| == 0 then 0 else ConnectedPairsTo(G, nb, |nb|)
  }

  /** The transitive-triad count: clust_coef summed over the nodes. */
  function TransitiveSum(G: Matrix): int
  {
    SumTo(|G|, i => TransitiveAt(G, i))
  }

  /**
   * The inner loops of transitive_triads: every pair of positions p < q of nb, counting
   * those whose nodes are connected.
   */
  method CountConnectedPairs(G: Matrix, nb: seq<int>) returns (c: int)
    requires IsSquare(G)
    requires forall p :: 0 <= p < |nb| ==> 0 <= nb[p] < |G|
    ensures c == ConnectedPairsTo(G, nb, |nb|)
  {
    c := 0;
    for p := 0 to |nb|
      invariant c == ConnectedPairsTo(G, nb, p)
    {
      SumToConst(p + 1, q => PairTerm(G, nb, p, q), 0);
      for q := p + 1 to |nb|
        invariant c == ConnectedPairsTo(G, nb, p) + PairRowTo(G, nb, p, q)
      {
        var edgeFrom, edgeTo := nb[p], nb[q];
        if G[edgeFrom][edgeTo] == 1 || G[edgeTo][edgeFrom] == 1 {
          c := c + 1;
        }
      }
    }
  }

  /** transitive_triads: fill clust_coef node by node, then sum it. */
  method TransitiveTriads(G: Matrix) returns (t: int)
    requires IsSquare(G)
    ensures t == TransitiveSum(G)
  {
    var nNodes := |G|;
    var clustCoef := new int[nNodes](_ => 0);
    for i := 0 to nNodes
      invariant forall a :: 0 <= a < i ==> clustCoef[a] == TransitiveAt(G, a)
    {
      var neighbors := Predecessors(G, i);
      if |neighbors| == 0 {
        clustCoef[i] := 0;
      } else {
        clustCoef[i] := CountConnectedPairs(G, neighbors);
      }
    }
    t := 0;
    for i := 0 to nNodes
      invariant t == SumTo(i, a => TransitiveAt(G, a))
    {
      t := t + clustCoef[i];
    }
  }

  /** Of the positions q < k, exactly k - 1 - p lie above p. */
  lemma {:induction false} CountAbove(k: nat, p: int)
    requires 0 <= p < k
    ensures SumTo(k, q => if p < q then 1 else 0) == k - 1 - p
  {
    if k - 1 > p {
      CountAbove(k - 1, p);
    } else {
      SumToConst(k - 1, q => if p < q then 1 else 0, 0);
    }
  }

  /** (k - 1) + (k - 2) + ... + 0 is comb(k, 2). */
  lemma {:induction false} CountDown(k: nat)
    ensures SumTo(k, p => k - 1 - p) == Choose2(k)
  {
    if k > 0 {
      var c := k - 1;
      CountDown(c);
      SumToConst(c, p => 1, 1);
      SumToAdd(c, p => c - 1 - p, p => 1, p => k - 1 - p);
      Choose2Step(c);
    }
  }

  /**
   * Node i contributes at most comb(k, 2) for its k predecessors, and nothing when it
   * has fewer than two.
   */
  lemma TransitiveAtBound(G: Matrix, i: int)
    ensures 0 <= TransitiveAt(G, i) <= Choose2(|Predecessors(G, i)|)
    ensures |Predecessors(G, i)| < 2 ==> TransitiveAt(G, i) == 0
  {
    var nb := Predecessors(G, i);
    var k := |nb|;
    forall p | 0 <= p < k
      ensures 0 <= PairRowTo(G, nb, p, k) <= k - 1 - p
    {
      SumToMono(k, q => PairTerm(G, nb, p, q), q => if p < q then 1 else 0);
      SumToNonNeg(k, q => PairTerm(G, nb, p, q));
      CountAbove(k, p);
    }
    SumToMono(k, p => PairRowTo(G, nb, p, k), p => k - 1 - p);
    SumToNonNeg(k, p => PairRowTo(G, nb, p, k));
    CountDown(k);
  }

  /** Every node is bounded as above, so the whole count is non-negative. */
  lemma TransitiveTriadsNonNegative(G: Matrix)
    ensures TransitiveSum(G) >= 0
  {
    forall i | 0 <= i < |G|
      ensures TransitiveAt(G, i) >= 0
    {
      TransitiveAtBound(G, i);
    }
    SumToNonNeg(|G|, i => TransitiveAt(G, i));
  }

  // ---------------------------------------------------------------------------
  // not_transitive_triads
  // ---------------------------------------------------------------------------

  /** G[i,j] * G[j,k] * G[i,k]: the path i -> j -> k closed by the shortcut i -> k. */
  function NotTransitiveTerm(G: Matrix, i: int, j: int, k: int): int
  {
    Entry(G, i, j) * Entry(G, j, k) * Entry(G, i, k)
  }

  /** Sum of NotTransitiveTerm(G, i, j, k) over k < m. */
  function NotTransitiveInnerTo(G: Matrix, i: int, j: int, m: nat): int
  {
    SumTo(m, k => NotTransitiveTerm(G, i, j, k))
  }

  /** Sum over j < m of the full inner sums. */
  function NotTransitiveRowTo(G: Matrix, i: int, m: nat): int
  {
    SumTo(m, j => NotTransitiveInnerTo(G, i, j, |G|))
  }

  /** The not_transitive_triads count: NotTransitiveTerm over all ordered triples. */
  function NotTransitiveSum(G: Matrix): int
  {
    SumTo(|G|, i => NotTransitiveRowTo(G, i, |G|))
  }

  /** not_transitive_triads: the triple loop accumulating G[i,j] * G[j,k] * G[i,k]. */
  method NotTransitiveTriads(G: Matrix) returns (s: int)
    requires IsSquare(G)
    ensures s == NotTransitiveSum(G)
  {
    var nNodes := |G|;
    s := 0;
    for i := 0 to nNodes
      invariant s == SumTo(i, a => NotTransitiveRowTo(G, a, nNodes))
    {
      for j := 0 to nNodes
        invariant s == SumTo(i, a => NotTransitiveRowTo(G, a, nNodes)) + NotTransitiveRowTo(G, i, j)
      {
        for k := 0 to nNodes
          invariant s == SumTo(i, a => NotTransitiveRowTo(G, a, nNodes)) + NotTransitiveRowTo(G, i, j)
                         + NotTransitiveInnerTo(G, i, j, k)
        {
          s := s + G[i][j] * G[j][k] * G[i][k];
        }
      }
    }
  }

  /** With non-negative weights not_transitive_triads is non-negative. */
  lemma NotTransitiveTriadsNonNegative(G: Matrix)
    requires IsSquare(G) && NonNegative(G)
    ensures NotTransitiveSum(G) >= 0
  {
    var n := |G|;
    forall i | 0 <= i < n
      ensures NotTransitiveRowTo(G, i, n) >= 0
    {
      forall j | 0 <= j < n
        ensures NotTransitiveInnerTo(G, i, j, n) >= 0
      {
        forall k | 0 <= k < n
          ensures NotTransitiveTerm(G, i, j, k) >= 0
        {
          NotTransitiveTermNonNegative(G, i, j, k);
        }
        SumToNonNeg(n, k => NotTransitiveTerm(G, i, j, k));
      }
      SumToNonNeg(n, j => NotTransitiveInnerTo(G, i, j, n));
    }
    SumToNonNeg(n, i => NotTransitiveRowTo(G, i, n));
  }

  /** A product of three non-negative weights is non-negative. */
  lemma NotTransitiveTermNonNegative(G: Matrix, i: int, j: int, k: int)
    requires NonNegative(G)
    ensures NotTransitiveTerm(G, i, j, k) >= 0
  {
    var a, b, c := Entry(G, i, j), Entry(G, j, k), Entry(G, i, k);
    assert 0 <= a && 0 <= b && 0 <= c;
    assert 0 <= a * b;
  }

  /**
   * In an unweighted graph without self-loops every closed triple i -> j -> k, i -> k
   * contains the two-path i -> j -> k, so not_transitive_triads is at most two_paths;
   * and both are non-negative.
   */
  lemma NotTransitiveAtMostTwoPaths(G: Matrix)
    requires IsSquare(G) && IsBinary(G) && ZeroDiagonal(G)
    ensures 0 <= NotTransitiveSum(G) <= TwoPathSum(G)
  {
    var n := |G|;
    forall i | 0 <= i < n
      ensures 0 <= NotTransitiveRowTo(G, i, n) <= EdgeOutRow(G, i)
    {
      forall j | 0 <= j < n
        ensures 0 <= NotTransitiveInnerTo(G, i, j, n) <= Entry(G, i, j) * OutDegree(G, j)
      {
        forall k | 0 <= k < n
          ensures 0 <= NotTransitiveTerm(G, i, j, k) <= Entry(G, i, j) * Entry(G, j, k)
        {
        }
        SumToMono(n, k => NotTransitiveTerm(G, i, j, k), k => Entry(G, i, j) * Entry(G, j, k));
        SumToNonNeg(n, k => NotTransitiveTerm(G, i, j, k));
        SumToScale(n, k => Entry(G, j, k), Entry(G, i, j), k => Entry(G, i, j) * Entry(G, j, k));
      }
      SumToMono(n, j => NotTransitiveInnerTo(G, i, j, n), j => Entry(G, i, j) * OutDegree(G, j));
      SumToNonNeg(n, j => NotTransitiveInnerTo(G, i, j, n));
    }
    SumToMono(n, i => NotTransitiveRowTo(G, i, n), i => EdgeOutRow(G, i));
    SumToNonNeg(n, i => NotTransitiveRowTo(G, i, n));
    EdgeOutRowsAreMixedStars(G);
    TwoPathsAreMixedStars(G);
  }
}
