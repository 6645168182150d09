/**
 * The geometrically weighted degree distributions geo_out and geo_in: a histogram of
 * the degree vector, each bucket b weighted by w(b).
 *
 * The weight w stands for b => exp(-b); the model keeps it as a parameter.
 */
module DegreeDistribution {
  import opened Sums
  import opened Matrices

  /** max(s): the largest element of a non-empty sequence. */
  function MaxOf(s: seq<int>): (m: int)
    requires |s| >= 1
    ensures m in s
    ensures forall i :: 0 <= i < |s| ==> s[i] <= m
  {
    if |s| == 1 then s[0]
    else
      var rest := MaxOf(s[..|s| - 1]);
      if s[|s| - 1] > rest then s[|s| - 1] else rest
  }

  /** 1 when position i of s holds b. */
  function Hit(s: seq<int>, i: int, b: int): int
  {
    if 0 <= i < |s| && s[i] == b then 1 else 0
  }

  /** How many of the first k positions of s hold b. */
  function CountTo(s: seq<int>, k: nat, b: int): int
  {
    SumTo(k, i => Hit(s, i, b))
  }

  /** How many positions of s hold b. */
  function Count(s: seq<int>, b: int): int
  {
    CountTo(s, |s|, b)
  }

  /** Every element of s is a valid bucket index for a histogram with m buckets. */
  predicate InBuckets(s: seq<int>, m: int)
  {
    forall i :: 0 <= i < |s| ==> 0 <= s[i] < m
  }

  /**
   * The histogram loop `dist[int(d)] += 1` over the degree vector: one bucket per value
   * 0..max(degrees), bucket b holding the number of nodes of degree b.
   */
  method DegreeHistogram(degrees: seq<int>) returns (dist: seq<int>)
    requires |degrees| >= 1
    requires forall i :: 0 <= i < |degrees| ==> 0 <= degrees[i]
    ensures |dist| == MaxOf(degrees) + 1
    ensures forall b :: 0 <= b < |dist| ==> dist[b] == Count(degrees, b)
  {
    var maxDegree := MaxOf(degrees);
    var buckets := new int[maxDegree + 1](_ => 0);
    for i := 0 to |degrees|
      invariant forall b :: 0 <= b < buckets.Length ==> buckets[b] == CountTo(degrees, i, b)
    {
      var d := degrees[i];
      buckets[d] := buckets[d] + 1;
    }
    dist := buckets[..];
  }

  /** w(b) * (number of positions of s below k that hold b). */
  function BucketWeight(s: seq<int>, k: nat, w: int -> real, b: int): real
  {
    w(b) * CountTo(s, k, b) as real
  }

  /** Σ over buckets b < m of w(b) * count(b), counting the first k positions of s. */
  function HistogramWeightTo(s: seq<int>, k: nat, m: nat, w: int -> real): real
  {
    SumToR(m, b => BucketWeight(s, k, w, b))
  }

  /** The geometrically weighted distribution: Σ_b w(b) * count(b) over the max + 1 buckets. */
  function GeoSum(s: seq<int>, w: int -> real): real
    requires |s| >= 1
    requires forall i :: 0 <= i < |s| ==> 0 <= s[i]
  {
    HistogramWeightTo(s, |s|, MaxOf(s) + 1, w)
  }

  /** w(s[i]) where that exists, and 0 elsewhere. */
  function NodeWeight(s: seq<int>, w: int -> real, i: int): real
  {
    if 0 <= i < |s| then w(s[i]) else 0.0
  }

  /** Σ over the nodes of w(degree(node)). */
  function NodeWeights(s: seq<int>, w: int -> real): real
  {
    SumToR(|s|, i => NodeWeight(s, w, i))
  }

  /**
   * The `np.sum([np.exp(-i) * d for i, d in enumerate(dist)])` step over the finished
   * histogram, with w in place of exp(-i).
   */
  method WeightedSum(dist: seq<int>, w: int -> real) returns (r: real)
    ensures r == SumToR(|dist|, b => w(b) * (if 0 <= b < |dist| then dist[b] else 0) as real)
  {
    r := 0.0;
    for b := 0 to |dist|
      invariant r == SumToR(b, a => w(a) * (if 0 <= a < |dist| then dist[a] else 0) as real)
    {
      r := r + w(b) * dist[b] as real;
    }
  }

  /** The common body of geo_out and geo_in on a given degree vector. */
  method GeoDistribution(degrees: seq<int>, w: int -> real) returns (r: real)
    requires |degrees| >= 1
    requires forall i :: 0 <= i < |degrees| ==> 0 <= degrees[i]
    ensures r == GeoSum(degrees, w)
    ensures r == NodeWeights(degrees, w)
  {
    var dist := DegreeHistogram(degrees);
    r := WeightedSum(dist, w);
    HistogramWeighsBuckets(degrees, dist, w);
    GeoSumIsNodeWeights(degrees, w);
  }

  /** Weighting the finished histogram bucket by bucket weighs each degree value by its count. */
  lemma HistogramWeighsBuckets(degrees: seq<int>, dist: seq<int>, w: int -> real)
    requires forall b :: 0 <= b < |dist| ==> dist[b] == Count(degrees, b)
    ensures SumToR(|dist|, b => w(b) * (if 0 <= b < |dist| then dist[b] else 0) as real) ==
      HistogramWeightTo(degrees, |degrees|, |dist|, w)
  {
    SumToRExt(|dist|, b => w(b) * (if 0 <= b < |dist| then dist[b] else 0) as real,
              b => BucketWeight(degrees, |degrees|, w, b));
  }

  /** geo_out: the weighted out-degree distribution of G. */
  method GeoOut(G: Matrix, w: int -> real) returns (r: real)
    requires IsSquare(G) && |G| >= 1 && NonNegative(G)
    ensures forall i :: 0 <= i < |G| ==> 0 <= OutDegrees(G)[i]
    ensures r == GeoSum(OutDegrees(G), w)
    ensures r == NodeWeights(OutDegrees(G), w)
  {
    var outDegrees := OutDegrees(G);
    forall i | 0 <= i < |G|
      ensures 0 <= outDegrees[i]
    {
      DegreesNonNegative(G, i);
    }
    r := GeoDistribution(outDegrees, w);
  }

  /** geo_in: the weighted in-degree distribution of G. */
  method GeoIn(G: Matrix, w: int -> real) returns (r: real)
    requires IsSquare(G) && |G| >= 1 && NonNegative(G)
    ensures forall i :: 0 <= i < |G| ==> 0 <= InDegrees(G)[i]
    ensures r == GeoSum(InDegrees(G), w)
    ensures r == NodeWeights(InDegrees(G), w)
  {
    var inDegrees := InDegrees(G);
    forall i | 0 <= i < |G|
      ensures 0 <= inDegrees[i]
    {
      DegreesNonNegative(G, i);
    }
    r := GeoDistribution(inDegrees, w);
  }

  // ---------------------------------------------------------------------------
  // Properties of the histogram
  // ---------------------------------------------------------------------------

  /** How many of the buckets 0..m-1 position i of s falls in (1 when it has a bucket). */
  function HitsAt(s: seq<int>, i: int, m: nat): int
  {
    SumTo(m, b => Hit(s, i, b))
  }

  /** The histogram's counts add up to the number of nodes, when every value has a bucket. */
  lemma HistogramTotal(s: seq<int>, m: nat)
    requires InBuckets(s, m)
    ensures SumTo(m, b => Count(s, b)) == |s|
  {
    var n := |s|;
    var F := (b, i) => Hit(s, i, b);
    forall b | 0 <= b < m
      ensures Count(s, b) == SumTo(n, i => F(b, i))
    {
      SumToExt(n, i => Hit(s, i, b), i => F(b, i));
    }
    forall i | 0 <= i < n
      ensures HitsAt(s, i, m) == 1 && HitsAt(s, i, m) == SumTo(m, b => F(b, i))
    {
      SumToIndicator(m, s[i], b => Hit(s, i, b));
      SumToExt(m, b => Hit(s, i, b), b => F(b, i));
    }
    SumToSwapBy(m, n, F, b => Count(s, b), i => HitsAt(s, i, m));
    SumToExt(n, i => HitsAt(s, i, m), i => 1);
    SumToConst(n, i => 1, 1);
  }

  /** b occurs in s exactly when its count is positive. */
  lemma CountPositiveIff(s: seq<int>, b: int)
    ensures Count(s, b) >= 0
    ensures Count(s, b) > 0 <==> b in s
  {
    var f := i => Hit(s, i, b);
    SumToNonNeg(|s|, f);
    if b in s {
      var i :| 0 <= i < |s| && s[i] == b;
      SumToPositive(|s|, f, i);
    } else {
      SumToConst(|s|, f, 0);
    }
  }

  /**
   * The histogram of a non-empty, non-negative degree vector has max + 1 buckets whose
   * counts sum to the number of nodes, and its last bucket (the maximum degree) is
   * non-empty.
   */
  lemma HistogramShape(s: seq<int>)
    requires |s| >= 1
    requires forall i :: 0 <= i < |s| ==> 0 <= s[i]
    ensures SumTo(MaxOf(s) + 1, b => Count(s, b)) == |s|
    ensures Count(s, MaxOf(s)) >= 1
  {
    HistogramTotal(s, MaxOf(s) + 1);
    CountPositiveIff(s, MaxOf(s));
  }

  /**
   * Counting one more position adds w(s[k]) to the bucket of s[k] and nothing elsewhere.
   */
  lemma {:induction false} HistogramWeightStep(s: seq<int>, k: nat, m: nat, w: int -> real)
    requires k < |s| && 0 <= s[k] < m
    ensures HistogramWeightTo(s, k + 1, m, w) == HistogramWeightTo(s, k, m, w) + w(s[k])
  {
    var g := b => if b == s[k] then w(s[k]) else 0.0;
    forall b | 0 <= b < m
      ensures BucketWeight(s, k + 1, w, b) == BucketWeight(s, k, w, b) + g(b)
    {
      var c := CountTo(s, k, b);
      assert CountTo(s, k + 1, b) == c + Hit(s, k, b);
      if b == s[k] {
        assert w(b) * (c + 1) as real == w(b) * c as real + w(b);
      }
    }
    SumToRAdd(m, b => BucketWeight(s, k, w, b), g, b => BucketWeight(s, k + 1, w, b));
    SumToRPick(m, s[k], w(s[k]), g);
  }

  /** The weighted histogram of the first k positions is the weight of those k nodes. */
  lemma {:induction false} HistogramWeightIsNodeWeights(s: seq<int>, k: nat, m: nat, w: int -> real)
    requires k <= |s| && InBuckets(s, m)
    ensures HistogramWeightTo(s, k, m, w) == SumToR(k, i => NodeWeight(s, w, i))
  {
    if k == 0 {
      forall b | 0 <= b < m
        ensures BucketWeight(s, 0, w, b) == 0.0
      {
      }
      SumToRPick(m, -1, 0.0, b => BucketWeight(s, 0, w, b));
    } else {
      HistogramWeightIsNodeWeights(s, k - 1, m, w);
      HistogramWeightStep(s, k - 1, m, w);
    }
  }

  /**
   * The weighted histogram sum is the sum over the nodes of w(degree): bucketing the
   * nodes by degree only regroups the terms.
   */
  lemma GeoSumIsNodeWeights(s: seq<int>, w: int -> real)
    requires |s| >= 1
    requires forall i :: 0 <= i < |s| ==> 0 <= s[i]
    ensures GeoSum(s, w) == NodeWeights(s, w)
  {
    HistogramWeightIsNodeWeights(s, |s|, MaxOf(s) + 1, w);
  }

  // ---------------------------------------------------------------------------
  // Invariance under relabelling the nodes
  // ---------------------------------------------------------------------------

  /** Permuting a sequence keeps every count. */
  lemma CountPermuted(s: seq<int>, t: seq<int>, p: seq<int>, inv: seq<int>, b: int)
    requires IsPermutation(p, inv, |s|) && |t| == |s|
    requires forall i :: 0 <= i < |t| ==> t[i] == s[p[i]]
    ensures Count(t, b) == Count(s, b)
  {
    var f := j => Hit(s, j, b);
    SumToPermute(|s|, f, p, inv);
    SumToExt(|s|, i => Hit(t, i, b), i => if 0 <= i < |p| then f(p[i]) else 0);
  }

  /** Permuting a non-empty sequence keeps its maximum. */
  lemma MaxPermuted(s: seq<int>, t: seq<int>, p: seq<int>, inv: seq<int>)
    requires |s| >= 1 && IsPermutation(p, inv, |s|) && |t| == |s|
    requires forall i :: 0 <= i < |t| ==> t[i] == s[p[i]]
    ensures MaxOf(t) == MaxOf(s)
  {
    CountPermuted(s, t, p, inv, MaxOf(s));
    CountPositiveIff(s, MaxOf(s));
    CountPositiveIff(t, MaxOf(s));
    CountPermuted(s, t, p, inv, MaxOf(t));
    CountPositiveIff(s, MaxOf(t));
    CountPositiveIff(t, MaxOf(t));
  }

  /** Permuting a non-negative degree vector keeps its geometrically weighted sum. */
  lemma GeoSumPermuted(s: seq<int>, t: seq<int>, p: seq<int>, inv: seq<int>, w: int -> real)
    requires |s| >= 1 && IsPermutation(p, inv, |s|) && |t| == |s|
    requires forall i :: 0 <= i < |s| ==> 0 <= s[i]
    requires forall i :: 0 <= i < |t| ==> t[i] == s[p[i]]
    ensures forall i :: 0 <= i < |t| ==> 0 <= t[i]
    ensures GeoSum(t, w) == GeoSum(s, w)
  {
    MaxPermuted(s, t, p, inv);
    forall b | 0 <= b < MaxOf(s) + 1
      ensures BucketWeight(t, |t|, w, b) == BucketWeight(s, |s|, w, b)
    {
      BucketWeightPermuted(s, t, p, inv, w, b);
    }
    SumToRExt(MaxOf(s) + 1, b => BucketWeight(t, |t|, w, b), b => BucketWeight(s, |s|, w, b));
  }

  /** Permuting the degree vector keeps the weight of each bucket. */
  lemma BucketWeightPermuted(s: seq<int>, t: seq<int>, p: seq<int>, inv: seq<int>, w: int -> real, b: int)
    requires IsPermutation(p, inv, |s|) && |t| == |s|
    requires forall i :: 0 <= i < |t| ==> t[i] == s[p[i]]
    ensures BucketWeight(t, |t|, w, b) == BucketWeight(s, |s|, w, b)
  {
    CountPermuted(s, t, p, inv, b);
  }

  /** geo_out and geo_in do not depend on how the nodes are numbered. */
  lemma GeoRelabelInvariant(G: Matrix, p: seq<int>, inv: seq<int>, w: int -> real)
    requires IsSquare(G) && |G| >= 1 && NonNegative(G) && IsPermutation(p, inv, |G|)
    ensures NonNegative(Relabel(G, p))
    ensures forall i :: 0 <= i < |G| ==> 0 <= OutDegrees(G)[i] && 0 <= InDegrees(G)[i]
    ensures forall i :: 0 <= i < |G| ==> 0 <= OutDegrees(Relabel(G, p))[i] && 0 <= InDegrees(Relabel(G, p))[i]
    ensures GeoSum(OutDegrees(Relabel(G, p)), w) == GeoSum(OutDegrees(G), w)
    ensures GeoSum(InDegrees(Relabel(G, p)), w) == GeoSum(InDegrees(G), w)
  {
    var R := Relabel(G, p);
    forall i | 0 <= i < |G|
      ensures OutDegrees(R)[i] == OutDegrees(G)[p[i]] && InDegrees(R)[i] == InDegrees(G)[p[i]]
      ensures 0 <= OutDegrees(G)[i] && 0 <= InDegrees(G)[i]
    {
      RelabelDegrees(G, p, inv, i);
      DegreesNonNegative(G, i);
    }
    forall i, j | 0 <= i < |R| && 0 <= j < |R[i]|
      ensures 0 <= R[i][j]
    {
      assert R[i][j] == Entry(R, i, j) == Entry(G, p[i], p[j]);
    }
    GeoSumPermuted(OutDegrees(G), OutDegrees(R), p, inv, w);
    GeoSumPermuted(InDegrees(G), InDegrees(R), p, inv, w);
  }
}
