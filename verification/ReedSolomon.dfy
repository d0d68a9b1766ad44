/** The Reed-Solomon code the two QR libraries share: polynomials over a field, the encoder of
    qrcodegen and the syndromes of quirc. */
module ReedSolomon {
  import opened Galois

  // -------------------------------------------------------------------------------------
  // Polynomials, highest power first

  ghost function Eval<T(!new)>(gf: GaloisField<T>, p: seq<T>, x: T): T
    requires gf.p > 0
  {
    if p == [] then gf.zero
    else gf.xor(Mul(gf, Eval(gf, p[..|p| - 1], x), x), p[|p| - 1])
  }

  ghost function Power<T(!new)>(gf: GaloisField<T>, x: T, n: nat): T
    requires gf.p > 0
  {
    if n == 0 then One(gf) else Mul(gf, Power(gf, x, n - 1), x)
  }

  lemma EvalSnoc<T(!new)>(gf: GaloisField<T>, p: seq<T>, c: T, x: T)
    requires gf.p > 0
    ensures Eval(gf, p + [c], x) == gf.xor(Mul(gf, Eval(gf, p, x), x), c)
  {
    assert (p + [c])[..|p|] == p;
  }

  /** Appending coefficients shifts the polynomial up. */
  lemma {:induction false} EvalConcat<T(!new)>(gf: GaloisField<T>, p: seq<T>, q: seq<T>, x: T)
    requires IsField(gf)
    ensures Eval(gf, p + q, x) == gf.xor(Mul(gf, Eval(gf, p, x), Power(gf, x, |q|)), Eval(gf, q, x))
  {
    hide Mul;
    if q == [] {
      assert p + q == p;
      MulOne(gf, Eval(gf, p, x));
      XorZero(gf, Eval(gf, p, x));
    } else {
      var q', c := q[..|q| - 1], q[|q| - 1];
      EvalConcat(gf, p, q', x);
      assert p + q == (p + q') + [c];
      EvalSnoc(gf, p + q', c, x);
      var a, b, e := Mul(gf, Eval(gf, p, x), Power(gf, x, |q'|)), Eval(gf, q', x), Power(gf, x, |q'|);
      Distribute(gf, a, b, x);
      MulAssoc(gf, Eval(gf, p, x), e, x);
      XorAssoc(gf, Mul(gf, a, x), Mul(gf, b, x), c);
    }
  }

  lemma EvalOne<T(!new)>(gf: GaloisField<T>, c: T, x: T)
    requires IsField(gf)
    ensures Eval(gf, [c], x) == c
  {
    assert [c][..0] == [];
    MulZero(gf, x);
    XorZero(gf, c);
  }

  /** A leading coefficient. */
  lemma EvalCons<T(!new)>(gf: GaloisField<T>, c: T, p: seq<T>, x: T)
    requires IsField(gf)
    ensures Eval(gf, [c] + p, x) == gf.xor(Mul(gf, c, Power(gf, x, |p|)), Eval(gf, p, x))
  {
    EvalConcat(gf, [c], p, x);
    EvalOne(gf, c, x);
  }

  /** p + c * q, coefficient by coefficient. */
  ghost function Combined<T(!new)>(gf: GaloisField<T>, p: seq<T>, q: seq<T>, c: T): (r: seq<T>)
    requires gf.p > 0 && |p| == |q|
    ensures |r| == |p|
  {
    seq(|p|, i requires 0 <= i < |p| => gf.xor(p[i], Mul(gf, q[i], c)))
  }

  lemma {:induction false} EvalCombined<T(!new)>(gf: GaloisField<T>, p: seq<T>, q: seq<T>, c: T, x: T)
    requires IsField(gf) && |p| == |q|
    ensures Eval(gf, Combined(gf, p, q, c), x) == gf.xor(Eval(gf, p, x), Mul(gf, Eval(gf, q, x), c))
  {
    hide Mul;
    if p == [] {
      MulZero(gf, c);
      XorZero(gf, gf.zero);
    } else {
      var n := |p| - 1;
      EvalCombined(gf, p[..n], q[..n], c, x);
      assert Combined(gf, p, q, c)[..n] == Combined(gf, p[..n], q[..n], c);
      var a, b := Eval(gf, p[..n], x), Eval(gf, q[..n], x);
      Distribute(gf, a, Mul(gf, b, c), x);
      MulAssoc(gf, b, c, x);
      MulComm(gf, c, x);
      MulAssoc(gf, b, x, c);
      Distribute(gf, Mul(gf, b, x), q[n], c);
      XorInterchange(gf, Mul(gf, a, x), Mul(gf, Mul(gf, b, x), c), p[n], Mul(gf, q[n], c));
    }
  }

  /** p times x, cut to its length. */
  ghost function Shifted<T(!new)>(gf: GaloisField<T>, p: seq<T>): (r: seq<T>)
    requires p != []
    ensures |r| == |p|
  {
    p[1..] + [gf.zero]
  }

  lemma EvalShifted<T(!new)>(gf: GaloisField<T>, p: seq<T>, x: T)
    requires IsField(gf) && p != []
    ensures gf.xor(Eval(gf, Shifted(gf, p), x), Mul(gf, p[0], Power(gf, x, |p|))) == Mul(gf, Eval(gf, p, x), x)
  {
    hide Mul;
    var t := p[1..];
    EvalSnoc(gf, t, gf.zero, x);
    XorZero(gf, Mul(gf, Eval(gf, t, x), x));
    assert p == [p[0]] + t;
    EvalCons(gf, p[0], t, x);
    var lead := Mul(gf, p[0], Power(gf, x, |t|));
    Distribute(gf, lead, Eval(gf, t, x), x);
    MulAssoc(gf, p[0], Power(gf, x, |t|), x);
    XorComm(gf, Mul(gf, Eval(gf, t, x), x), Mul(gf, lead, x));
  }

  // -------------------------------------------------------------------------------------
  // The generator polynomial

  /** (x - a^0) (x - a^1) ... (x - a^(n-1)) for the generator a of the field. */
  ghost function Product<T(!new)>(gf: GaloisField<T>, x: T, n: nat): T
    requires gf.p > 0
  {
    if n == 0 then One(gf) else Mul(gf, Product(gf, x, n - 1), gf.xor(x, gf.exp(n - 1)))
  }

  lemma {:induction false} ProductVanishes<T(!new)>(gf: GaloisField<T>, k: nat, n: nat)
    requires IsField(gf) && k < n
    ensures Product(gf, gf.exp(k), n) == gf.zero
  {
    if k == n - 1 {
      XorZero(gf, gf.exp(k));
    } else {
      ProductVanishes(gf, k, n - 1);
    }
    MulZero(gf, Product(gf, gf.exp(k), n - 1));
    MulZero(gf, gf.xor(gf.exp(k), gf.exp(n - 1)));
  }

  /** The value of x^n plus the polynomial stored without its leading term. */
  ghost function EvalMonic<T(!new)>(gf: GaloisField<T>, p: seq<T>, x: T): T
    requires gf.p > 0
  {
    gf.xor(Power(gf, x, |p|), Eval(gf, p, x))
  }

  /** The stored coefficients, with the leading one left out, are those of the generator
      polynomial. */
  ghost predicate IsDivisor<T(!new)>(gf: GaloisField<T>, p: seq<T>)
    requires gf.p > 0
  {
    forall x: T :: EvalMonic(gf, p, x) == Product(gf, x, |p|)
  }

  /** The product of the first i factors in an array of n coefficients; its leading 1 falls off
      the end with the last factor. */
  ghost predicate IsProduct<T(!new)>(gf: GaloisField<T>, p: seq<T>, i: nat)
    requires gf.p > 0 && i <= |p|
  {
    if i == |p| then IsDivisor(gf, p)
    else
      && (forall x: T :: Eval(gf, p, x) == Product(gf, x, i))
      && p[|p| - 1 - i] == One(gf) && (forall j :: 0 <= j < |p| - 1 - i ==> p[j] == gf.zero)
  }

  /** Multiplying by one more factor. */
  ghost function NextProduct<T(!new)>(gf: GaloisField<T>, p: seq<T>, root: T): (r: seq<T>)
    requires gf.p > 0 && p != []
    ensures |r| == |p|
  {
    Combined(gf, Shifted(gf, p), p, root)
  }

  lemma FactorStep<T(!new)>(gf: GaloisField<T>, p: seq<T>, root: T, x: T)
    requires IsField(gf) && p != []
    ensures gf.xor(Mul(gf, p[0], Power(gf, x, |p|)), Eval(gf, NextProduct(gf, p, root), x))
      == Mul(gf, Eval(gf, p, x), gf.xor(x, root))
  {
    hide Mul;
    EvalCombined(gf, Shifted(gf, p), p, root, x);
    EvalShifted(gf, p, x);
    var v, s, l := Eval(gf, p, x), Eval(gf, Shifted(gf, p), x), Mul(gf, p[0], Power(gf, x, |p|));
    Distribute(gf, x, root, v);
    XorAssoc(gf, l, s, Mul(gf, v, root));
    XorComm(gf, l, s);
  }

  lemma {:induction false} EvalLeadingZeros<T(!new)>(gf: GaloisField<T>, k: nat, x: T)
    requires IsField(gf)
    ensures Eval(gf, seq(k, _ => gf.zero), x) == gf.zero
  {
    if k > 0 {
      EvalLeadingZeros(gf, k - 1, x);
      assert seq(k, _ => gf.zero)[..k - 1] == seq(k - 1, _ => gf.zero);
      MulZero(gf, x);
      XorZero(gf, gf.zero);
    }
  }

  /** 0...01 is the empty product. */
  lemma StartProduct<T(!new)>(gf: GaloisField<T>, p: seq<T>)
    requires IsField(gf) && p != [] && p[|p| - 1] == One(gf)
    requires forall j :: 0 <= j < |p| - 1 ==> p[j] == gf.zero
    ensures IsProduct(gf, p, 0)
  {
    var k := |p| - 1;
    assert p == seq(k, _ => gf.zero) + [One(gf)];
    forall x: T
      ensures Eval(gf, p, x) == Product(gf, x, 0)
    {
      EvalSnoc(gf, seq(k, _ => gf.zero), One(gf), x);
      EvalLeadingZeros(gf, k, x);
      MulZero(gf, x);
      XorZero(gf, One(gf));
    }
  }

  lemma GrowProduct<T(!new)>(gf: GaloisField<T>, p: seq<T>, i: nat)
    requires IsField(gf) && i < |p| && IsProduct(gf, p, i)
    ensures IsProduct(gf, NextProduct(gf, p, gf.exp(i)), i + 1)
  {
    hide Mul;
    var root, n := gf.exp(i), |p|;
    var q := NextProduct(gf, p, root);
    forall x: T
      ensures if i + 1 == n then EvalMonic(gf, q, x) == Product(gf, x, n) else Eval(gf, q, x) == Product(gf, x, i + 1)
    {
      FactorStep(gf, p, root, x);
      MulOne(gf, Power(gf, x, n));
      MulZero(gf, Power(gf, x, n));
      XorZero(gf, Eval(gf, q, x));
    }
    if i + 1 < n {
      forall j | 0 <= j < n - 1 - i
        ensures q[j] == if j == n - 2 - i then One(gf) else gf.zero
      {
        MulZero(gf, root);
        XorZero(gf, p[j + 1]);
      }
    }
  }

  // -------------------------------------------------------------------------------------
  // Division

  /** One step of the division: the next data element comes in, and the multiple of the divisor
      that cancels the leading coefficient is taken away. */
  ghost function Divide<T(!new)>(gf: GaloisField<T>, r: seq<T>, divisor: seq<T>, factor: T): (q: seq<T>)
    requires gf.p > 0 && r != [] && |r| == |divisor|
    ensures |q| == |r|
  {
    Combined(gf, Shifted(gf, r), divisor, factor)
  }

  /** data * x^n + r == quotient * (x^n + divisor), as values at x. */
  ghost predicate Divided<T(!new)>(gf: GaloisField<T>, data: seq<T>, r: seq<T>, quotient: seq<T>, divisor: seq<T>, x: T)
    requires gf.p > 0
  {
    Eval(gf, data + r, x) == Mul(gf, Eval(gf, quotient, x), EvalMonic(gf, divisor, x))
  }

  lemma DivideStep<T(!new)>(gf: GaloisField<T>, data: seq<T>, b: T, r: seq<T>, quotient: seq<T>, divisor: seq<T>, x: T)
    requires IsField(gf) && r != [] && |r| == |divisor| && Divided(gf, data, r, quotient, divisor, x)
    ensures var factor := gf.xor(b, r[0]);
      Divided(gf, data + [b], Divide(gf, r, divisor, factor), quotient + [factor], divisor, x)
  {
    hide Mul;
    var n, f := |r|, gf.xor(b, r[0]);
    var X, q, v := Power(gf, x, n), Eval(gf, quotient, x), Eval(gf, divisor, x);
    var d, e, s := Eval(gf, data, x), Eval(gf, r, x), Eval(gf, Shifted(gf, r), x);
    // the right-hand side: (q x + f) (X + v)
    EvalSnoc(gf, quotient, f, x);
    Distribute(gf, Mul(gf, q, x), f, gf.xor(X, v));
    MulAssoc(gf, q, x, gf.xor(X, v));
    MulComm(gf, x, gf.xor(X, v));
    MulAssoc(gf, q, gf.xor(X, v), x);
    Distribute(gf, X, v, f);
    // the left-hand side
    EvalConcat(gf, data, r, x);
    EvalConcat(gf, data + [b], Divide(gf, r, divisor, f), x);
    EvalSnoc(gf, data, b, x);
    EvalCombined(gf, Shifted(gf, r), divisor, f, x);
    EvalShifted(gf, r, x);
    Distribute(gf, Mul(gf, d, x), b, X);
    MulAssoc(gf, d, x, X);
    MulComm(gf, x, X);
    MulAssoc(gf, d, X, x);
    Distribute(gf, Mul(gf, d, X), e, x);
    Distribute(gf, b, r[0], X);
    MulComm(gf, v, f);
    Regroup(gf, Mul(gf, Mul(gf, d, X), x), s, Mul(gf, b, X), Mul(gf, r[0], X), Mul(gf, f, v));
  }

  /** (D + B) + (s + w) == (D + (s + l)) + ((B + l) + w): the leading term l cancels. */
  lemma Regroup<T(!new)>(gf: GaloisField<T>, D: T, s: T, B: T, l: T, w: T)
    requires IsField(gf)
    ensures gf.xor(gf.xor(D, B), gf.xor(s, w)) == gf.xor(gf.xor(D, gf.xor(s, l)), gf.xor(gf.xor(B, l), w))
  {
    XorInterchange(gf, D, B, s, w);
    XorAssoc(gf, D, s, l);
    XorInterchange(gf, gf.xor(D, s), l, gf.xor(B, l), w);
    // ((D+s) + (B+l)) + (l+w)
    XorAssoc(gf, gf.xor(D, s), gf.xor(B, l), gf.xor(l, w));
    XorAssoc(gf, B, l, gf.xor(l, w));
    XorAssoc(gf, l, l, w);
    XorZero(gf, l);
    XorZero(gf, w);
  }
}
