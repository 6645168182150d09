/**
 * Finite sums over an index prefix 0..k-1, for integer and real terms.
 *
 * Every statistic of the configurations library is a single, double or triple
 * sum over node indices; the loops of the library accumulate exactly these
 * sums from index 0 upwards, which is why SumTo peels its LAST term.
 */
module Sums {

  /** f(0) + f(1) + ... + f(k-1) */
  function SumTo(k: nat, f: int -> int): int
  {
    if k == 0 then 0 else SumTo(k - 1, f) + f(k - 1)
  }

  /** The real-valued counterpart of SumTo. */
  function SumToR(k: nat, f: int -> real): real
  {
    if k == 0 then 0.0 else SumToR(k - 1, f) + f(k - 1)
  }

  // ---------------------------------------------------------------------------
  // Integer sums
  // ---------------------------------------------------------------------------

  /** A sum of two terms. */
  lemma SumToTwo(f: int -> int)
    ensures SumTo(2, f) == f(0) + f(1)
  {
    assert SumTo(1, f) == f(0);
  }

  /** A sum of three terms. */
  lemma SumToThree(f: int -> int)
    ensures SumTo(3, f) == f(0) + f(1) + f(2)
  {
    SumToTwo(f);
  }

  /** Sums of terms that agree on the range are equal. */
  lemma {:induction false} SumToExt(k: nat, f: int -> int, g: int -> int)
    requires forall i :: 0 <= i < k ==> f(i) == g(i)
    ensures SumTo(k, f) == SumTo(k, g)
  {
    if k > 0 {
      SumToExt(k - 1, f, g);
    }
  }

  /** A sum of non-negative terms is non-negative. */
  lemma {:induction false} SumToNonNeg(k: nat, f: int -> int)
    requires forall i :: 0 <= i < k ==> 0 <= f(i)
    ensures 0 <= SumTo(k, f)
  {
    if k > 0 {
      SumToNonNeg(k - 1, f);
    }
  }

  /** Termwise comparison carries over to the sums. */
  lemma {:induction false} SumToMono(k: nat, f: int -> int, g: int -> int)
    requires forall i :: 0 <= i < k ==> f(i) <= g(i)
    ensures SumTo(k, f) <= SumTo(k, g)
  {
    if k > 0 {
      SumToMono(k - 1, f, g);
    }
  }

  /** A sum of k copies of c is k * c. */
  lemma {:induction false} SumToConst(k: nat, f: int -> int, c: int)
    requires forall i :: 0 <= i < k ==> f(i) == c
    ensures SumTo(k, f) == k * c
  {
    if k > 0 {
      SumToConst(k - 1, f, c);
    }
  }

  /** A sum of non-negative terms one of which is positive is positive. */
  lemma {:induction false} SumToPositive(k: nat, f: int -> int, m: int)
    requires forall i :: 0 <= i < k ==> 0 <= f(i)
    requires 0 <= m < k && f(m) > 0
    ensures SumTo(k, f) > 0
  {
    if m < k - 1 {
      SumToPositive(k - 1, f, m);
    } else {
      SumToNonNeg(k - 1, f);
    }
  }

  /** Termwise addition: h = f + g on the range. */
  lemma {:induction false} SumToAdd(k: nat, f: int -> int, g: int -> int, h: int -> int)
    requires forall i :: 0 <= i < k ==> h(i) == f(i) + g(i)
    ensures SumTo(k, h) == SumTo(k, f) + SumTo(k, g)
  {
    if k > 0 {
      SumToAdd(k - 1, f, g, h);
    }
  }

  /** Multiplication commutes; a named step keeps products out of larger proofs. */
  lemma Commute(a: int, b: int)
    ensures a * b == b * a
  {
  }

  /** Scaling every term by c scales the sum by c. */
  lemma {:induction false} SumToScale(k: nat, f: int -> int, c: int, g: int -> int)
    requires forall i :: 0 <= i < k ==> g(i) == c * f(i)
    ensures SumTo(k, g) == c * SumTo(k, f)
  {
    if k > 0 {
      SumToScale(k - 1, f, c, g);
      calc {
        SumTo(k, g);
        SumTo(k - 1, g) + g(k - 1);
        c * SumTo(k - 1, f) + c * f(k - 1);
        { assert c * SumTo(k - 1, f) + c * f(k - 1) == c * (SumTo(k - 1, f) + f(k - 1)); }
        c * SumTo(k, f);
      }
    }
  }

  /** Summing an indicator of "b == x" over b in 0..m-1 picks out x once, if x is in range. */
  lemma {:induction false} SumToIndicator(m: nat, x: int, f: int -> int)
    requires forall b :: 0 <= b < m ==> f(b) == (if b == x then 1 else 0)
    ensures SumTo(m, f) == (if 0 <= x < m then 1 else 0)
  {
    if m > 0 {
      SumToIndicator(m - 1, x, f);
    }
  }

  /** Exchanging the order of a double sum. */
  lemma {:induction false} SumToSwap(n: nat, m: nat, F: (int, int) -> int)
    ensures SumTo(n, i => SumTo(m, j => F(i, j))) == SumTo(m, j => SumTo(n, i => F(i, j)))
  {
    if n > 0 {
      SumToSwap(n - 1, m, F);
      // Splitting off row n-1 of each column sum.
      SumToAdd(m, j => SumTo(n - 1, i => F(i, j)), j => F(n - 1, j), j => SumTo(n, i => F(i, j)));
    } else {
      SumToConst(m, j => SumTo(n, i => F(i, j)), 0);
    }
  }

  /**
   * Exchanging the order of a double sum whose rows and columns the caller has named:
   * rows(i) is the sum of F(i, _) and cols(j) the sum of F(_, j).
   */
  lemma SumToSwapBy(n: nat, m: nat, F: (int, int) -> int, rows: int -> int, cols: int -> int)
    requires forall i :: 0 <= i < n ==> rows(i) == SumTo(m, j => F(i, j))
    requires forall j :: 0 <= j < m ==> cols(j) == SumTo(n, i => F(i, j))
    ensures SumTo(n, rows) == SumTo(m, cols)
  {
    SumToSwap(n, m, F);
    SumToExt(n, rows, i => SumTo(m, j => F(i, j)));
    SumToExt(m, cols, j => SumTo(n, i => F(i, j)));
  }

  /**
   * Two term functions that agree on 0..k-1 except at one index m: the sums differ by
   * exactly the difference at m.
   */
  lemma {:induction false} SumToChangeOne(k: nat, f: int -> int, g: int -> int, m: int)
    requires 0 <= m < k
    requires forall i :: 0 <= i < k && i != m ==> f(i) == g(i)
    ensures SumTo(k, f) - f(m) == SumTo(k, g) - g(m)
  {
    if m < k - 1 {
      SumToChangeOne(k - 1, f, g, m);
    } else {
      SumToExt(k - 1, f, g);
    }
  }

  /** p (with inverse inv) is a bijection of 0..n-1 onto itself. */
  predicate IsPermutation(p: seq<int>, inv: seq<int>, n: nat)
  {
    |p| == n && |inv| == n &&
    (forall i :: 0 <= i < n ==> 0 <= p[i] < n && inv[p[i]] == i) &&
    (forall y :: 0 <= y < n ==> 0 <= inv[y] < n && p[inv[y]] == y)
  }

  /** p on 0..last-1, with the position m (the one p sends to last) redirected to p[last]. */
  function Shrunk(p: seq<int>, m: int, last: nat): (q: seq<int>)
    requires last < |p|
    ensures |q| == last
    ensures forall j :: 0 <= j < last ==> q[j] == if j == m then p[last] else p[j]
  {
    seq(last, j requires 0 <= j < last => if j == m then p[last] else p[j])
  }

  /** The inverse of Shrunk(p, m, last): y0 = p[last] goes back to m. */
  function ShrunkInverse(inv: seq<int>, y0: int, m: int, last: nat): (q: seq<int>)
    requires last <= |inv|
    ensures |q| == last
    ensures forall y :: 0 <= y < last ==> q[y] == if y == y0 then m else inv[y]
  {
    seq(last, y requires 0 <= y < last => if y == y0 then m else inv[y])
  }

  /** Removing n-1 from a permutation of 0..n-1 leaves a permutation of 0..n-2. */
  lemma ShrinkPermutation(p: seq<int>, inv: seq<int>, n: nat)
    requires n > 0 && IsPermutation(p, inv, n)
    ensures IsPermutation(Shrunk(p, inv[n - 1], n - 1), ShrunkInverse(inv, p[n - 1], inv[n - 1], n - 1), n - 1)
  {
    var last := n - 1;
    var m := inv[last];
    var p', inv' := Shrunk(p, m, last), ShrunkInverse(inv, p[last], m, last);
    forall j | 0 <= j < last
      ensures 0 <= p'[j] < last && inv'[p'[j]] == j
    {
      if j == m {
        assert p[m] == last;
        assert p[last] != last;
      } else {
        assert p[j] != last by { assert inv[p[j]] == j; }
        assert p[j] != p[last] by { assert inv[p[last]] == last; }
      }
    }
    forall y | 0 <= y < last
      ensures 0 <= inv'[y] < last && p'[inv'[y]] == y
    {
      if y != p[last] {
        assert inv[y] != last;
        assert inv[y] != m by { assert p[m] == last; }
      } else {
        assert m != last by { assert p[last] != last; }
      }
    }
  }

  /** Re-indexing a sum by a permutation does not change it. */
  lemma {:induction false} SumToPermute(n: nat, f: int -> int, p: seq<int>, inv: seq<int>)
    requires IsPermutation(p, inv, n)
    ensures SumTo(n, i => if 0 <= i < |p| then f(p[i]) else 0) == SumTo(n, f)
  {
    if n > 0 {
      var last := n - 1;
      var m := inv[last];
      var p', inv' := Shrunk(p, m, last), ShrunkInverse(inv, p[last], m, last);
      ShrinkPermutation(p, inv, n);
      SumToPermute(last, f, p', inv');
      var fp := i => if 0 <= i < |p| then f(p[i]) else 0;
      var fp' := i => if 0 <= i < |p'| then f(p'[i]) else 0;
      if m < last {
        SumToChangeOne(last, fp, fp', m);
        assert fp(m) == f(last);
      } else {
        SumToExt(last, fp, fp');
      }
    }
  }

  // ---------------------------------------------------------------------------
  // Real sums
  // ---------------------------------------------------------------------------

  /** Sums of real terms that agree on the range are equal. */
  lemma {:induction false} SumToRExt(k: nat, f: int -> real, g: int -> real)
    requires forall i :: 0 <= i < k ==> f(i) == g(i)
    ensures SumToR(k, f) == SumToR(k, g)
  {
    if k > 0 {
      SumToRExt(k - 1, f, g);
    }
  }

  /** A real sum of k copies of c is k * c. */
  lemma {:induction false} SumToRConst(k: nat, f: int -> real, c: real)
    requires forall i :: 0 <= i < k ==> f(i) == c
    ensures SumToR(k, f) == k as real * c
  {
    if k > 0 {
      SumToRConst(k - 1, f, c);
      assert k as real * c == (k - 1) as real * c + c;
    }
  }

  /** Termwise addition of real terms: h = f + g on the range. */
  lemma {:induction false} SumToRAdd(k: nat, f: int -> real, g: int -> real, h: int -> real)
    requires forall i :: 0 <= i < k ==> h(i) == f(i) + g(i)
    ensures SumToR(k, h) == SumToR(k, f) + SumToR(k, g)
  {
    if k > 0 {
      SumToRAdd(k - 1, f, g, h);
    }
  }

  /** A real sum whose only possibly non-zero term is at index x picks out that term. */
  lemma {:induction false} SumToRPick(m: nat, x: int, c: real, f: int -> real)
    requires forall b :: 0 <= b < m ==> f(b) == (if b == x then c else 0.0)
    ensures SumToR(m, f) == (if 0 <= x < m then c else 0.0)
  {
    if m > 0 {
      SumToRPick(m - 1, x, c, f);
    }
  }

  /** Termwise comparison carries over to real sums. */
  lemma {:induction false} SumToRMono(k: nat, f: int -> real, g: int -> real)
    requires forall i :: 0 <= i < k ==> f(i) <= g(i)
    ensures SumToR(k, f) <= SumToR(k, g)
  {
    if k > 0 {
      SumToRMono(k - 1, f, g);
    }
  }

  /** Bounds on every term bound the sum: lo * k <= sum, and sum < hi * k when k > 0. */
  lemma {:induction false} SumToRBounds(k: nat, f: int -> real, lo: real, hi: real)
    requires forall i :: 0 <= i < k ==> lo <= f(i) < hi
    ensures lo * k as real <= SumToR(k, f)
    ensures k > 0 ==> SumToR(k, f) < hi * k as real
    ensures k == 0 ==> SumToR(k, f) == 0.0
  {
    if k > 0 {
      SumToRBounds(k - 1, f, lo, hi);
      assert lo * k as real == lo * (k - 1) as real + lo;
      assert hi * k as real == hi * (k - 1) as real + hi;
    }
  }

  /** Casting the terms of an integer sum to real casts the sum. */
  lemma {:induction false} SumToROfInt(k: nat, f: int -> int, g: int -> real)
    requires forall i :: 0 <= i < k ==> g(i) == f(i) as real
    ensures SumToR(k, g) == SumTo(k, f) as real
  {
    if k > 0 {
      SumToROfInt(k - 1, f, g);
    }
  }
}
