/** Why the decoder finds the errors: syndromes are sums of powers of the error positions, the
    shortest recurrence vanishes exactly at their inverses, and Forney's quotient gives the
    error values. */
module ErrorLocator {
  import opened Galois
  import opened BerlekampMassey
  import opened ReedSolomon

  /** c[0]*X^n + c[1]*X^(n-1) + ... + c[n]. */
  ghost function Rev<T(!new)>(gf: GaloisField<T>, c: seq<T>, X: T, n: nat): T
    requires gf.p > 0
  {
    if n == 0 then Coef(gf, c, 0) else gf.xor(Mul(gf, Rev(gf, c, X, n - 1), X), Coef(gf, c, n))
  }

  /** The sum of Z[k] * X[k]^j. */
  ghost function Moment<T(!new)>(gf: GaloisField<T>, Z: seq<T>, X: seq<T>, j: nat): T
    requires gf.p > 0 && |Z| == |X|
  {
    if X == [] then gf.zero
    else
      var n := |X| - 1;
      gf.xor(Moment(gf, Z[..n], X[..n], j), Mul(gf, Z[n], Power(gf, X[n], j)))
  }

  ghost predicate Distinct<T>(X: seq<T>) {
    forall i, j :: 0 <= i < j < |X| ==> X[i] != X[j]
  }

  // -------------------------------------------------------------------------------------
  // Power sums

  /** Z[k] * Rev(c, X[k], n). */
  ghost function Weights<T(!new)>(gf: GaloisField<T>, Z: seq<T>, X: seq<T>, c: seq<T>, n: nat): (w: seq<T>)
    requires gf.p > 0 && |Z| == |X|
    ensures |w| == |X| && forall k :: 0 <= k < |X| ==> w[k] == Mul(gf, Z[k], Rev(gf, c, X[k], n))
  {
    seq(|X|, k requires 0 <= k < |X| => Mul(gf, Z[k], Rev(gf, c, X[k], n)))
  }

  lemma {:induction false} MomentOfConstant<T(!new)>(gf: GaloisField<T>, Z: seq<T>, X: seq<T>, c: seq<T>, m: nat)
    requires IsField(gf) && |Z| == |X|
    ensures Moment(gf, Weights(gf, Z, X, c, 0), X, m) == Mul(gf, Coef(gf, c, 0), Moment(gf, Z, X, m))
  {
    hide Mul;
    if X == [] {
      MulZero(gf, Coef(gf, c, 0));
    } else {
      var n, c0 := |X| - 1, Coef(gf, c, 0);
      MomentOfConstant(gf, Z[..n], X[..n], c, m);
      assert Weights(gf, Z, X, c, 0)[..n] == Weights(gf, Z[..n], X[..n], c, 0);
      var x := Power(gf, X[n], m);
      MulComm(gf, Z[n], c0);
      MulAssoc(gf, c0, Z[n], x);
      Distribute(gf, Moment(gf, Z[..n], X[..n], m), Mul(gf, Z[n], x), c0);
    }
  }

  /** The next coefficient of c, m powers up. */
  lemma {:induction false} MomentStep<T(!new)>(gf: GaloisField<T>, Z: seq<T>, X: seq<T>, c: seq<T>, m: nat, j: nat)
    requires IsField(gf) && |Z| == |X| && j > 0
    ensures Moment(gf, Weights(gf, Z, X, c, j), X, m)
      == gf.xor(Moment(gf, Weights(gf, Z, X, c, j - 1), X, m + 1), Mul(gf, Coef(gf, c, j), Moment(gf, Z, X, m)))
  {
    hide Mul;
    if X == [] {
      MulZero(gf, Coef(gf, c, j));
      XorZero(gf, gf.zero);
    } else {
      var n, e := |X| - 1, Coef(gf, c, j);
      MomentStep(gf, Z[..n], X[..n], c, m, j);
      assert Weights(gf, Z, X, c, j)[..n] == Weights(gf, Z[..n], X[..n], c, j);
      assert Weights(gf, Z, X, c, j - 1)[..n] == Weights(gf, Z[..n], X[..n], c, j - 1);
      var x, r, z := Power(gf, X[n], m), Rev(gf, c, X[n], j - 1), Z[n];
      TermStep(gf, z, r, X[n], e, x);
      var rest := Moment(gf, Z[..n], X[..n], m);
      Distribute(gf, rest, Mul(gf, z, x), e);
      XorInterchange(gf, Moment(gf, Weights(gf, Z[..n], X[..n], c, j - 1), X[..n], m + 1), Mul(gf, e, rest),
                     Mul(gf, Mul(gf, z, r), Mul(gf, x, X[n])), Mul(gf, e, Mul(gf, z, x)));
    }
  }

  /** z (r X + e) x == (z r) (x X) + e (z x). */
  lemma TermStep<T(!new)>(gf: GaloisField<T>, z: T, r: T, X: T, e: T, x: T)
    requires IsField(gf)
    ensures Mul(gf, Mul(gf, z, gf.xor(Mul(gf, r, X), e)), x)
      == gf.xor(Mul(gf, Mul(gf, z, r), Mul(gf, x, X)), Mul(gf, e, Mul(gf, z, x)))
  {
    hide Mul;
    Distribute(gf, Mul(gf, r, X), e, z);
    Distribute(gf, Mul(gf, z, Mul(gf, r, X)), Mul(gf, z, e), x);
    MulAssoc(gf, z, r, X);
    MulAssoc(gf, Mul(gf, z, r), X, x);
    MulComm(gf, X, x);
    MulComm(gf, z, e);
    MulAssoc(gf, e, z, x);
  }

  /** The elements of s are the power sums. */
  ghost predicate PowerSums<T(!new)>(gf: GaloisField<T>, s: seq<T>, Z: seq<T>, X: seq<T>, N: nat)
    requires gf.p > 0 && |Z| == |X|
  {
    forall j: nat :: j < N ==> Coef(gf, s, j) == Moment(gf, Z, X, j)
  }

  lemma {:induction false} ConvIsMoment<T(!new)>(gf: GaloisField<T>, c: seq<T>, s: seq<T>, Z: seq<T>, X: seq<T>, N: nat, n: nat, j: nat)
    requires IsField(gf) && |Z| == |X| && PowerSums(gf, s, Z, X, N) && j <= n < N
    ensures Conv(gf, c, s, n, j + 1) == Moment(gf, Weights(gf, Z, X, c, j), X, n - j)
  {
    hide Mul, Weights;
    if j == 0 {
      MomentOfConstant(gf, Z, X, c, n);
      XorZero(gf, Mul(gf, Coef(gf, c, 0), Coef(gf, s, n)));
      assert Conv(gf, c, s, n, 0) == gf.zero;
    } else {
      ConvIsMoment(gf, c, s, Z, X, N, n, j - 1);
      MomentStep(gf, Z, X, c, n - j, j);
    }
  }

  /** Past the degree of c its discrepancy is a power sum of fixed weights. */
  lemma DiscrepancyIsMoment<T(!new)>(gf: GaloisField<T>, c: seq<T>, s: seq<T>, Z: seq<T>, X: seq<T>, N: nat, n: nat, l: nat)
    requires IsField(gf) && |Z| == |X| && PowerSums(gf, s, Z, X, N) && l <= n < N && l < MAX_POLY && DegreeAtMost(gf, c, l)
    ensures Discrepancy(gf, c, s, n) == Moment(gf, Weights(gf, Z, X, c, l), X, n - l)
  {
    ConvIsMoment(gf, c, s, Z, X, N, n, l);
    ConvCut(gf, c, s, n, l + 1, MAX_POLY);
  }

  // -------------------------------------------------------------------------------------
  // Power sums that vanish

  lemma NoZeroDivisors<T(!new)>(gf: GaloisField<T>, a: T, b: T)
    requires IsField(gf) && Mul(gf, a, b) == gf.zero
    ensures a == gf.zero || b == gf.zero
  {
    if a != gf.zero && b != gf.zero { LogOfProduct(gf, a, b); }
  }

  lemma XorSame<T(!new)>(gf: GaloisField<T>, a: T, b: T)
    requires IsField(gf) && gf.xor(a, b) == gf.zero
    ensures a == b
  {
    XorAssoc(gf, a, b, b);
    XorZero(gf, b);
    XorZero(gf, a);
  }

  /** W[k] * (X[k] - a). */
  ghost function Eliminated<T(!new)>(gf: GaloisField<T>, W: seq<T>, X: seq<T>, a: T): (w: seq<T>)
    requires gf.p > 0 && |W| == |X|
    ensures |w| == |X| && forall k :: 0 <= k < |X| ==> w[k] == Mul(gf, W[k], gf.xor(X[k], a))
  {
    seq(|X|, k requires 0 <= k < |X| => Mul(gf, W[k], gf.xor(X[k], a)))
  }

  lemma {:induction false} MomentEliminated<T(!new)>(gf: GaloisField<T>, W: seq<T>, X: seq<T>, a: T, m: nat)
    requires IsField(gf) && |W| == |X|
    ensures Moment(gf, Eliminated(gf, W, X, a), X, m)
      == gf.xor(Moment(gf, W, X, m + 1), Mul(gf, a, Moment(gf, W, X, m)))
  {
    hide Mul;
    if X == [] {
      MulZero(gf, a);
      XorZero(gf, gf.zero);
    } else {
      var n := |X| - 1;
      MomentEliminated(gf, W[..n], X[..n], a, m);
      assert Eliminated(gf, W, X, a)[..n] == Eliminated(gf, W[..n], X[..n], a);
      var x, w := Power(gf, X[n], m), W[n];
      MulOne(gf, X[n]);
      TermStep(gf, w, One(gf), X[n], a, x);
      MulOne(gf, w);
      var rest := Moment(gf, W[..n], X[..n], m);
      Distribute(gf, rest, Mul(gf, w, x), a);
      XorInterchange(gf, Moment(gf, W[..n], X[..n], m + 1), Mul(gf, a, rest), Mul(gf, w, Mul(gf, x, X[n])), Mul(gf, a, Mul(gf, w, x)));
    }
  }

  /** Vandermonde: n vanishing power sums of n distinct elements leave no weight. */
  lemma {:induction false} Vandermonde<T(!new)>(gf: GaloisField<T>, W: seq<T>, X: seq<T>)
    requires IsField(gf) && |W| == |X| && Distinct(X)
    requires forall m: nat :: m < |X| ==> Moment(gf, W, X, m) == gf.zero
    ensures forall k :: 0 <= k < |X| ==> W[k] == gf.zero
    decreases |X|
  {
    hide Mul;
    if X != [] {
      var n := |X| - 1;
      var a, E := X[n], Eliminated(gf, W, X, X[n]);
      XorZero(gf, a);
      MulZero(gf, W[n]);
      forall m: nat | m < n
        ensures Moment(gf, E[..n], X[..n], m) == gf.zero
      {
        MomentEliminated(gf, W, X, a, m);
        MulZero(gf, a);
        XorZero(gf, gf.zero);
        MulZero(gf, Power(gf, a, m));
        XorZero(gf, Moment(gf, E[..n], X[..n], m));
      }
      Vandermonde(gf, E[..n], X[..n]);
      forall k | 0 <= k < n
        ensures W[k] == gf.zero
      {
        assert E[..n][k] == E[k];
        NoZeroDivisors(gf, W[k], gf.xor(X[k], a));
        if gf.xor(X[k], a) == gf.zero { XorSame(gf, X[k], a); }
      }
      assert Moment(gf, W, X, 0) == gf.zero;
      AllZero(gf, W[..n], X[..n]);
      MulOne(gf, W[n]);
      XorZero(gf, W[n]);
    }
  }

  lemma {:induction false} AllZero<T(!new)>(gf: GaloisField<T>, W: seq<T>, X: seq<T>)
    requires IsField(gf) && |W| == |X| && forall k :: 0 <= k < |X| ==> W[k] == gf.zero
    ensures Moment(gf, W, X, 0) == gf.zero
  {
    if X != [] {
      AllZero(gf, W[..|X| - 1], X[..|X| - 1]);
      MulZero(gf, Power(gf, X[|X| - 1], 0));
      XorZero(gf, gf.zero);
    }
  }

  // -------------------------------------------------------------------------------------
  // Roots

  /** Synthetic division by X - a: the coefficients are the intermediate values at a. */
  ghost function Deflated<T(!new)>(gf: GaloisField<T>, c: seq<T>, a: T, n: nat): (q: seq<T>)
    requires gf.p > 0
    ensures |q| == n && forall j :: 0 <= j < n ==> q[j] == Rev(gf, c, a, j)
  {
    seq(n, j requires 0 <= j < n => Rev(gf, c, a, j))
  }

  lemma {:induction false} Synthetic<T(!new)>(gf: GaloisField<T>, c: seq<T>, a: T, X: T, n: nat, len: nat)
    requires IsField(gf) && 0 < n <= len
    ensures Rev(gf, c, X, n)
      == gf.xor(Mul(gf, gf.xor(X, a), Rev(gf, Deflated(gf, c, a, len), X, n - 1)), Rev(gf, c, a, n))
  {
    hide Mul;
    var q, d, e := Deflated(gf, c, a, len), gf.xor(X, a), Coef(gf, c, n);
    var r := Rev(gf, c, a, n - 1);
    if n == 1 {
      var c0 := Coef(gf, c, 0);
      MulComm(gf, c0, X);
      MulComm(gf, c0, a);
      Distribute(gf, X, a, c0);
      XorAssoc(gf, gf.xor(Mul(gf, X, c0), Mul(gf, a, c0)), Mul(gf, a, c0), e);
      XorAssoc(gf, Mul(gf, X, c0), Mul(gf, a, c0), Mul(gf, a, c0));
      XorZero(gf, Mul(gf, a, c0));
      XorZero(gf, Mul(gf, X, c0));
    } else {
      Synthetic(gf, c, a, X, n - 1, len);
      var y := Rev(gf, q, X, n - 2);
      // (d y + r) X + e == d (y X + r) + (r a + e)
      Distribute(gf, Mul(gf, d, y), r, X);
      MulAssoc(gf, d, y, X);
      Distribute(gf, Mul(gf, y, X), r, d);
      MulComm(gf, r, X);
      MulComm(gf, r, a);
      Distribute(gf, X, a, r);
      var u, v, w := Mul(gf, d, Mul(gf, y, X)), Mul(gf, X, r), Mul(gf, a, r);
      XorAssoc(gf, u, gf.xor(v, w), gf.xor(w, e));
      XorAssoc(gf, gf.xor(v, w), w, e);
      XorAssoc(gf, v, w, w);
      XorZero(gf, w);
      XorZero(gf, v);
      XorAssoc(gf, u, v, e);
    }
  }

  /** No more distinct roots than the degree. */
  lemma {:induction false} RootCount<T(!new)>(gf: GaloisField<T>, c: seq<T>, X: seq<T>, n: nat)
    requires IsField(gf) && Distinct(X) && Coef(gf, c, 0) != gf.zero
    requires forall k :: 0 <= k < |X| ==> Rev(gf, c, X[k], n) == gf.zero
    ensures |X| <= n
    decreases n
  {
    if X != [] {
      assert Rev(gf, c, X[0], n) == gf.zero;
      if n > 0 {
        var a, rest := X[0], X[1..];
        var q := Deflated(gf, c, a, n);
        forall k | 0 <= k < |rest|
          ensures Rev(gf, q, rest[k], n - 1) == gf.zero
        {
          Synthetic(gf, c, a, rest[k], n, n);
          var v := Rev(gf, q, rest[k], n - 1);
          XorZero(gf, Mul(gf, gf.xor(rest[k], a), v));
          NoZeroDivisors(gf, gf.xor(rest[k], a), v);
          if gf.xor(rest[k], a) == gf.zero { XorSame(gf, rest[k], a); }
        }
        assert Coef(gf, q, 0) == Coef(gf, c, 0);
        RootCount(gf, q, rest, n - 1);
      }
    }
  }

  // -------------------------------------------------------------------------------------
  // The locator

  function Locator<T(!new)>(gf: GaloisField<T>, X: seq<T>): (c: seq<T>)
    requires gf.p > 0
    ensures |c| == MAX_POLY
  {
    if X == [] then Unit(gf)
    else
      var c := Locator(gf, X[..|X| - 1]);
      Added(gf, c, c, X[|X| - 1], 1)
  }

  lemma {:induction false} LocatorDegree<T(!new)>(gf: GaloisField<T>, X: seq<T>)
    requires IsField(gf)
    ensures Locator(gf, X)[0] == One(gf) && DegreeAtMost(gf, Locator(gf, X), |X|)
  {
    hide Mul;
    if X != [] {
      var X', a := X[..|X| - 1], X[|X| - 1];
      LocatorDegree(gf, X');
      var c := Locator(gf, X');
      AddedCoef(gf, c, c, a, 1, 0);
      forall i | |X| < i < MAX_POLY
        ensures Coef(gf, Locator(gf, X), i) == gf.zero
      {
        AddedCoef(gf, c, c, a, 1, i);
        assert Coef(gf, c, i) == gf.zero;
      }
    }
  }

  /** Adding a factor 1 - a x multiplies the reversed polynomial by X - a. */
  lemma {:induction false} RevFactor<T(!new)>(gf: GaloisField<T>, c: seq<T>, a: T, X: T, n: nat)
    requires IsField(gf) && |c| == MAX_POLY && n + 1 < MAX_POLY
    ensures Rev(gf, Added(gf, c, c, a, 1), X, n + 1) == gf.xor(Rev(gf, c, X, n + 1), Mul(gf, Rev(gf, c, X, n), a))
  {
    hide Mul;
    var c' := Added(gf, c, c, a, 1);
    if n == 0 {
      AddedCoef(gf, c, c, a, 1, 0);
      var c0, c1 := c[0], c[1];
      assert Coef(gf, c', 1) == gf.xor(c1, Mul(gf, c0, a));
      XorAssoc(gf, Mul(gf, c0, X), c1, Mul(gf, c0, a));
    } else {
      RevFactor(gf, c, a, X, n - 1);
      var r, r', e, e' := Rev(gf, c, X, n), Rev(gf, c, X, n - 1), c[n + 1], c[n];
      assert Coef(gf, c', n + 1) == gf.xor(e, Mul(gf, e', a));
      // (r + r' a) X + (e + e' a) == (r X + e) + (r' X + e') a
      Distribute(gf, r, Mul(gf, r', a), X);
      MulAssoc(gf, r', a, X);
      MulComm(gf, a, X);
      MulAssoc(gf, r', X, a);
      XorInterchange(gf, Mul(gf, r, X), Mul(gf, Mul(gf, r', X), a), e, Mul(gf, e', a));
      Distribute(gf, Mul(gf, r', X), e', a);
    }
  }

  /** The locator vanishes at its elements. */
  lemma {:induction false} LocatorRoots<T(!new)>(gf: GaloisField<T>, X: seq<T>, k: nat)
    requires IsField(gf) && k < |X| < MAX_POLY
    ensures Rev(gf, Locator(gf, X), X[k], |X|) == gf.zero
  {
    hide Mul, Locator;
    var n := |X| - 1;
    var X', a := X[..n], X[n];
    var c := Locator(gf, X');
    assert Locator(gf, X) == Added(gf, c, c, a, 1) by { LocatorNext(gf, X); }
    RevFactor(gf, c, a, X[k], n);
    LocatorDegree(gf, X');
    assert Coef(gf, c, n + 1) == gf.zero;
    var r := Rev(gf, c, X[k], n);
    XorZero(gf, Mul(gf, r, X[k]));
    assert Rev(gf, c, X[k], n + 1) == Mul(gf, r, X[k]);
    if k == n {
      XorZero(gf, Mul(gf, r, a));
    } else {
      LocatorRoots(gf, X', k);
      assert X'[k] == X[k];
      MulZero(gf, a);
      MulZero(gf, X[k]);
      XorZero(gf, gf.zero);
    }
  }

  lemma LocatorNext<T(!new)>(gf: GaloisField<T>, X: seq<T>)
    requires gf.p > 0 && X != []
    ensures var c := Locator(gf, X[..|X| - 1]); Locator(gf, X) == Added(gf, c, c, X[|X| - 1], 1)
  {
  }

  lemma {:induction false} MomentOfZeros<T(!new)>(gf: GaloisField<T>, W: seq<T>, X: seq<T>, m: nat)
    requires IsField(gf) && |W| == |X| && forall k :: 0 <= k < |X| ==> W[k] == gf.zero
    ensures Moment(gf, W, X, m) == gf.zero
  {
    if X != [] {
      MomentOfZeros(gf, W[..|X| - 1], X[..|X| - 1], m);
      MulZero(gf, Power(gf, X[|X| - 1], m));
      XorZero(gf, gf.zero);
    }
  }

  /** So it is a recurrence of the power sums. */
  lemma LocatorGenerates<T(!new)>(gf: GaloisField<T>, s: seq<T>, Z: seq<T>, X: seq<T>, N: nat)
    requires IsField(gf) && |Z| == |X| < MAX_POLY && PowerSums(gf, s, Z, X, N)
    ensures Generates(gf, Locator(gf, X), s, |X|, N)
  {
    hide Mul, Discrepancy, Locator, PowerSums, Weights;
    var c, l := Locator(gf, X), |X|;
    LocatorDegree(gf, X);
    forall n | l <= n < N
      ensures Discrepancy(gf, c, s, n) == gf.zero
    {
      DiscrepancyIsMoment(gf, c, s, Z, X, N, n, l);
      var W := Weights(gf, Z, X, c, l);
      forall k | 0 <= k < |X|
        ensures W[k] == gf.zero
      {
        LocatorRoots(gf, X, k);
        MulZero(gf, Z[k]);
      }
      MomentOfZeros(gf, W, X, n - l);
    }
  }

  /** The shortest recurrence of the power sums of at most N/2 distinct elements with nonzero
      weights has exactly their number as its length, and vanishes at them. */
  lemma ShortestFindsAll<T(!new)>(gf: GaloisField<T>, sigma: seq<T>, l: int, s: seq<T>, Z: seq<T>, X: seq<T>, N: nat)
    requires IsField(gf) && |Z| == |X| && 2 * |X| <= N < MAX_POLY && Distinct(X) && PowerSums(gf, s, Z, X, N)
    requires forall k :: 0 <= k < |Z| ==> Z[k] != gf.zero
    requires Generates(gf, sigma, s, l, N) && Shortest(gf, s, l, N)
    ensures l == |X| && forall k :: 0 <= k < |X| ==> Rev(gf, sigma, X[k], l) == gf.zero
  {
    hide Mul, Discrepancy, Locator, PowerSums, Weights;
    LocatorGenerates(gf, s, Z, X, N);
    assert l <= |X|;
    var W := Weights(gf, Z, X, sigma, l);
    forall m: nat | m < |X|
      ensures Moment(gf, W, X, m) == gf.zero
    {
      DiscrepancyIsMoment(gf, sigma, s, Z, X, N, l + m, l);
      assert Discrepancy(gf, sigma, s, l + m) == gf.zero;
    }
    Vandermonde(gf, W, X);
    forall k | 0 <= k < |X|
      ensures Rev(gf, sigma, X[k], l) == gf.zero
    {
      assert W[k] == gf.zero;
      NoZeroDivisors(gf, Z[k], Rev(gf, sigma, X[k], l));
    }
    MulOne(gf, One(gf));
    RootCount(gf, sigma, X, l);
  }

  /** And nowhere else. */
  lemma NoOtherRoot<T(!new)>(gf: GaloisField<T>, sigma: seq<T>, X: seq<T>, y: T)
    requires IsField(gf) && Distinct(X) && Coef(gf, sigma, 0) == One(gf)
    requires forall k :: 0 <= k < |X| ==> Rev(gf, sigma, X[k], |X|) == gf.zero
    requires y !in X
    ensures Rev(gf, sigma, y, |X|) != gf.zero
  {
    if Rev(gf, sigma, y, |X|) == gf.zero {
      MulOne(gf, One(gf));
      RootCount(gf, sigma, X + [y], |X|);
    }
  }
}
