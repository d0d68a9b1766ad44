/** Forney's formula as quirc uses it: at the inverse of an error position the error evaluator
    divided by the derivative of the locator is the error value. */
module Forney {
  import opened Galois
  import opened BerlekampMassey
  import opened ReedSolomon
  import opened ErrorLocator

  /** p[0] + p[1]*x + ... over the first n coefficients. */
  ghost function Value<T(!new)>(gf: GaloisField<T>, p: seq<T>, x: T, n: nat): T
    requires gf.p > 0
  {
    if n == 0 then gf.zero
    else gf.xor(Value(gf, p, x, n - 1), Mul(gf, Coef(gf, p, n - 1), Power(gf, x, n - 1)))
  }

  lemma {:induction false} ValueCut<T(!new)>(gf: GaloisField<T>, p: seq<T>, x: T, l: nat, n: nat)
    requires IsField(gf) && l <= n && forall i :: l <= i < n ==> Coef(gf, p, i) == gf.zero
    ensures Value(gf, p, x, n) == Value(gf, p, x, l)
  {
    if n > l {
      ValueCut(gf, p, x, l, n - 1);
      MulZero(gf, Power(gf, x, n - 1));
      XorZero(gf, Value(gf, p, x, l));
    }
  }

  lemma {:induction false} InversePowers<T(!new)>(gf: GaloisField<T>, x: T, X: T, n: nat)
    requires IsField(gf) && Mul(gf, x, X) == One(gf)
    ensures Mul(gf, Power(gf, x, n), Power(gf, X, n)) == One(gf)
  {
    hide Mul;
    if n == 0 {
      MulOne(gf, One(gf));
    } else {
      InversePowers(gf, x, X, n - 1);
      var a, b := Power(gf, x, n - 1), Power(gf, X, n - 1);
      MulAssoc(gf, a, x, Mul(gf, b, X));
      MulAssoc(gf, x, b, X);
      MulComm(gf, x, b);
      MulAssoc(gf, b, x, X);
      MulOne(gf, b);
    }
  }

  /** The value at the inverse of X, scaled, is the reversed polynomial at X. */
  lemma {:induction false} ValueIsRev<T(!new)>(gf: GaloisField<T>, p: seq<T>, x: T, X: T, n: nat)
    requires IsField(gf) && Mul(gf, x, X) == One(gf)
    ensures Mul(gf, Value(gf, p, x, n + 1), Power(gf, X, n)) == Rev(gf, p, X, n)
  {
    hide Mul;
    var e, a := Coef(gf, p, n), Power(gf, x, n);
    if n == 0 {
      MulOne(gf, e);
      XorZero(gf, e);
      assert Value(gf, p, x, 0) == gf.zero;
    } else {
      ValueIsRev(gf, p, x, X, n - 1);
      var v, b := Value(gf, p, x, n), Power(gf, X, n - 1);
      Distribute(gf, v, Mul(gf, e, a), Power(gf, X, n));
      MulAssoc(gf, v, b, X);
      InversePowers(gf, x, X, n);
      MulAssoc(gf, e, a, Power(gf, X, n));
      MulOne(gf, e);
    }
  }

  lemma {:induction false} PowerNonzero<T(!new)>(gf: GaloisField<T>, X: T, n: nat)
    requires IsField(gf) && X != gf.zero
    ensures Power(gf, X, n) != gf.zero
  {
    if n == 0 {
      MulOne(gf, X);
    } else {
      PowerNonzero(gf, X, n - 1);
      LogOfProduct(gf, Power(gf, X, n - 1), X);
    }
  }

  lemma Cancel<T(!new)>(gf: GaloisField<T>, a: T, b: T, c: T)
    requires IsField(gf) && c != gf.zero && Mul(gf, a, c) == Mul(gf, b, c)
    ensures a == b
  {
    Distribute(gf, a, b, c);
    XorZero(gf, Mul(gf, a, c));
    NoZeroDivisors(gf, gf.xor(a, b), c);
    XorSame(gf, a, b);
  }

  // -------------------------------------------------------------------------------------
  // The derivative

  /** `sigma_deriv`: in characteristic two only the odd terms have a derivative. */
  ghost predicate IsDerivative<T(!new)>(gf: GaloisField<T>, sd: seq<T>, sigma: seq<T>) {
    forall i: nat :: Coef(gf, sd, i) == if i % 2 == 0 then Coef(gf, sigma, i + 1) else gf.zero
  }

  /** X times the value at X of the quotient by X - X is the derivative, up to the value of the
      polynomial itself at odd steps. */
  lemma {:induction false} DerivativeIsQuotient<T(!new)>(gf: GaloisField<T>, c: seq<T>, sd: seq<T>, X: T, n: nat, len: nat)
    requires IsField(gf) && IsDerivative(gf, sd, c) && 0 < n <= len
    ensures Mul(gf, Rev(gf, Deflated(gf, c, X, len), X, n - 1), X)
      == if n % 2 == 0 then Rev(gf, sd, X, n - 1) else gf.xor(Rev(gf, c, X, n), Rev(gf, sd, X, n - 1))
  {
    hide Mul;
    var q := Deflated(gf, c, X, len);
    if n == 1 {
      assert Coef(gf, sd, 0) == Coef(gf, c, 1);
      XorAssoc(gf, Mul(gf, Coef(gf, c, 0), X), Coef(gf, c, 1), Coef(gf, c, 1));
      XorZero(gf, Coef(gf, c, 1));
      XorZero(gf, Mul(gf, Coef(gf, c, 0), X));
    } else {
      DerivativeIsQuotient(gf, c, sd, X, n - 1, len);
      var w, r, d := Rev(gf, q, X, n - 2), Rev(gf, c, X, n - 1), Rev(gf, sd, X, n - 2);
      var e := Coef(gf, c, n);
      Distribute(gf, Mul(gf, w, X), r, X);
      Distribute(gf, r, d, X);
      var rX, dX := Mul(gf, r, X), Mul(gf, d, X);
      if n % 2 == 0 {
        // (r + d) X + r X == d X, and sd has no term n - 1
        assert Coef(gf, sd, n - 1) == gf.zero;
        XorZero(gf, dX);
        XorComm(gf, rX, dX);
        XorAssoc(gf, dX, rX, rX);
        XorZero(gf, rX);
      } else {
        // d X + r X == (r X + e) + (d X + e)
        assert Coef(gf, sd, n - 1) == e;
        XorInterchange(gf, rX, e, dX, e);
        XorZero(gf, e);
        XorZero(gf, gf.xor(rX, dX));
        XorComm(gf, rX, dX);
      }
    }
  }

  // -------------------------------------------------------------------------------------
  // The evaluator

  /** `eloc_poly`: the product of the syndromes, from the second on, and the locator, cut. */
  ghost predicate IsEvaluator<T(!new)>(gf: GaloisField<T>, omega: seq<T>, s: seq<T>, sigma: seq<T>, npar: nat)
    requires gf.p > 0
  {
    forall j: nat :: Coef(gf, omega, j) == if j < npar then Conv(gf, sigma, s, j + 1, j + 1) else gf.zero
  }

  /** Z[k] times the value at a of the quotient by X - X[k]. */
  ghost function Quotients<T(!new)>(gf: GaloisField<T>, Z: seq<T>, X: seq<T>, c: seq<T>, a: T, n: nat, len: nat): (v: seq<T>)
    requires gf.p > 0 && |Z| == |X|
    ensures |v| == |X| && forall k :: 0 <= k < |X| ==> v[k] == Mul(gf, Z[k], Rev(gf, Deflated(gf, c, X[k], len), a, n))
  {
    seq(|X|, k requires 0 <= k < |X| => Mul(gf, Z[k], Rev(gf, Deflated(gf, c, X[k], len), a, n)))
  }

  lemma {:induction false} MomentLinear<T(!new)>(gf: GaloisField<T>, U: seq<T>, V: seq<T>, W: seq<T>, X: seq<T>, a: T, m: nat)
    requires IsField(gf) && |U| == |V| == |W| == |X|
    requires forall k :: 0 <= k < |X| ==> W[k] == gf.xor(Mul(gf, U[k], a), V[k])
    ensures Moment(gf, W, X, m) == gf.xor(Mul(gf, Moment(gf, U, X, m), a), Moment(gf, V, X, m))
  {
    hide Mul;
    if X == [] {
      MulZero(gf, a);
      XorZero(gf, gf.zero);
    } else {
      var n := |X| - 1;
      MomentLinear(gf, U[..n], V[..n], W[..n], X[..n], a, m);
      var x := Power(gf, X[n], m);
      Distribute(gf, Mul(gf, U[n], a), V[n], x);
      MulAssoc(gf, U[n], a, x);
      MulComm(gf, a, x);
      MulAssoc(gf, U[n], x, a);
      Distribute(gf, Moment(gf, U[..n], X[..n], m), Mul(gf, U[n], x), a);
      XorInterchange(gf, Mul(gf, Moment(gf, U[..n], X[..n], m), a), Moment(gf, V[..n], X[..n], m),
                     Mul(gf, Mul(gf, U[n], x), a), Mul(gf, V[n], x));
    }
  }

  /** The evaluator at a, reversed, is a sum over the errors of the quotients at a. */
  lemma {:induction false} EvaluatorIsSum<T(!new)>(gf: GaloisField<T>, omega: seq<T>, s: seq<T>, sigma: seq<T>, Z: seq<T>, X: seq<T>,
                                                   npar: nat, a: T, n: nat, len: nat)
    requires IsField(gf) && |Z| == |X| && PowerSums(gf, s, Z, X, npar + 1) && IsEvaluator(gf, omega, s, sigma, npar)
    requires n < npar && n < len
    ensures Rev(gf, omega, a, n) == Moment(gf, Quotients(gf, Z, X, sigma, a, n, len), X, 1)
  {
    hide Mul, PowerSums;
    var Q := Quotients(gf, Z, X, sigma, a, n, len);
    ConvIsMoment(gf, sigma, s, Z, X, npar + 1, n + 1, n);
    var W := Weights(gf, Z, X, sigma, n);
    if n == 0 {
      assert Q == W;
    } else {
      EvaluatorIsSum(gf, omega, s, sigma, Z, X, npar, a, n - 1, len);
      var Q' := Quotients(gf, Z, X, sigma, a, n - 1, len);
      forall k | 0 <= k < |X|
        ensures Q[k] == gf.xor(Mul(gf, Q'[k], a), W[k])
      {
        var q := Deflated(gf, sigma, X[k], len);
        Distribute(gf, Mul(gf, Rev(gf, q, a, n - 1), a), Rev(gf, sigma, X[k], n), Z[k]);
        MulAssoc(gf, Z[k], Rev(gf, q, a, n - 1), a);
      }
      MomentLinear(gf, Q', W, Q, X, a, 1);
    }
  }

  lemma {:induction false} MomentSingle<T(!new)>(gf: GaloisField<T>, W: seq<T>, X: seq<T>, k: nat, m: nat)
    requires IsField(gf) && |W| == |X| && k < |X|
    requires forall i :: 0 <= i < |X| && i != k ==> W[i] == gf.zero
    ensures Moment(gf, W, X, m) == Mul(gf, W[k], Power(gf, X[k], m))
  {
    var n := |X| - 1;
    if k == n {
      MomentOfZeros(gf, W[..n], X[..n], m);
      XorZero(gf, Mul(gf, W[n], Power(gf, X[n], m)));
    } else {
      MomentSingle(gf, W[..n], X[..n], k, m);
      MulZero(gf, Power(gf, X[n], m));
      XorZero(gf, Moment(gf, W[..n], X[..n], m));
    }
  }

  /** The quotient by one root vanishes at the others, and not at itself. */
  lemma QuotientRoots<T(!new)>(gf: GaloisField<T>, c: seq<T>, X: seq<T>, k: nat)
    requires IsField(gf) && Distinct(X) && k < |X| && Coef(gf, c, 0) == One(gf)
    requires forall i :: 0 <= i < |X| ==> Rev(gf, c, X[i], |X|) == gf.zero
    ensures forall i :: 0 <= i < |X| && i != k ==> Rev(gf, Deflated(gf, c, X[i], |X|), X[k], |X| - 1) == gf.zero
    ensures Rev(gf, Deflated(gf, c, X[k], |X|), X[k], |X| - 1) != gf.zero
  {
    var l := |X|;
    forall i, j | 0 <= i < l && 0 <= j < l && i != j
      ensures Rev(gf, Deflated(gf, c, X[i], l), X[j], l - 1) == gf.zero
    {
      DeflatedRoot(gf, c, X[i], X[j], l);
    }
    var q := Deflated(gf, c, X[k], l);
    if Rev(gf, q, X[k], l - 1) == gf.zero {
      MulOne(gf, One(gf));
      assert Coef(gf, q, 0) == Coef(gf, c, 0);
      RootCount(gf, q, X, l - 1);
    }
  }

  lemma DeflatedRoot<T(!new)>(gf: GaloisField<T>, c: seq<T>, a: T, X: T, n: nat)
    requires IsField(gf) && a != X && n > 0 && Rev(gf, c, a, n) == gf.zero && Rev(gf, c, X, n) == gf.zero
    ensures Rev(gf, Deflated(gf, c, a, n), X, n - 1) == gf.zero
  {
    Synthetic(gf, c, a, X, n, n);
    var v := Rev(gf, Deflated(gf, c, a, n), X, n - 1);
    XorZero(gf, Mul(gf, gf.xor(X, a), v));
    NoZeroDivisors(gf, gf.xor(X, a), v);
    if gf.xor(X, a) == gf.zero { XorSame(gf, X, a); }
  }

  /** The evaluator is the error value times the derivative. */
  lemma EvaluatorIsDerivative<T(!new)>(gf: GaloisField<T>, omega: seq<T>, sd: seq<T>, s: seq<T>, sigma: seq<T>, Z: seq<T>, X: seq<T>,
                                       npar: nat, k: nat)
    requires IsField(gf) && |Z| == |X| && Distinct(X) && k < |X| <= npar
    requires PowerSums(gf, s, Z, X, npar + 1) && IsEvaluator(gf, omega, s, sigma, npar) && IsDerivative(gf, sd, sigma)
    requires Coef(gf, sigma, 0) == One(gf) && forall i :: 0 <= i < |X| ==> Rev(gf, sigma, X[i], |X|) == gf.zero
    requires X[k] != gf.zero
    ensures Rev(gf, omega, X[k], |X| - 1) == Mul(gf, Z[k], Rev(gf, sd, X[k], |X| - 1))
    ensures Rev(gf, sd, X[k], |X| - 1) != gf.zero
  {
    hide Mul, PowerSums, IsEvaluator, IsDerivative, Moment, Rev;
    var l, a := |X|, X[k];
    var Q := Quotients(gf, Z, X, sigma, a, l - 1, l);
    EvaluatorIsSum(gf, omega, s, sigma, Z, X, npar, a, l - 1, l);
    QuotientRoots(gf, sigma, X, k);
    forall i | 0 <= i < l && i != k
      ensures Q[i] == gf.zero
    {
      MulZero(gf, Z[i]);
    }
    MomentSingle(gf, Q, X, k, 1);
    var w, d := Rev(gf, Deflated(gf, sigma, a, l), a, l - 1), Rev(gf, sd, a, l - 1);
    DerivativeIsQuotient(gf, sigma, sd, a, l, l);
    XorZero(gf, d);
    assert Mul(gf, w, a) == d;
    assert Power(gf, a, 1) == a by { assert Power(gf, a, 0) == One(gf); MulOne(gf, a); }
    MulAssoc(gf, Z[k], w, a);
    if d == gf.zero { NoZeroDivisors(gf, w, a); }
  }
}
