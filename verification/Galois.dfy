/** Finite fields of characteristic two given by logarithm tables, as quirc's `galois_field`
    describes them, and the field laws that follow. */
module Galois {
  import opened ModArith

  /** `struct galois_field`: exp and log are the tables, p the order of the generator; `xor` is
      the addition of the elements. */
  datatype GaloisField<!T(!new, ==)> = GaloisField(p: nat, log: T -> nat, exp: nat -> T, zero: T, xor: (T, T) -> T)

  /** `x % p` for a non-negative x. */
  function Wrap(x: int, p: nat): (r: nat)
    requires p > 0
    ensures r < p
  {
    x % p
  }

  /** The product as the code computes it: `exp[(log[a] + log[b]) % p]` unless one is zero. */
  function Mul<T(!new)>(gf: GaloisField<T>, a: T, b: T): T
    requires gf.p > 0
  {
    if a == gf.zero || b == gf.zero then gf.zero else gf.exp(Wrap(gf.log(a) + gf.log(b), gf.p))
  }

  /** `exp[(p - log[b] + log[d]) % p]`. */
  function Quotient<T(!new)>(gf: GaloisField<T>, d: T, b: T): T
    requires gf.p > 0
  {
    gf.exp(Wrap(gf.p as int - gf.log(b) + gf.log(d), gf.p))
  }

  /** Marks the elements at which a law is wanted; the laws are instantiated nowhere else. */
  ghost predicate At<T>(x: T, y: T, z: T) { true }

  /** The tables are inverse to each other up to the order of the generator (quirc's tables give p,
      not 0, as the logarithm of 1), `xor` is addition in characteristic two, and the
      product distributes over it. */
  ghost predicate IsField<T(!new)>(gf: GaloisField<T>) {
    && gf.p > 0 && gf.exp(gf.p) == gf.exp(0)
    && (forall i: nat {:trigger gf.exp(i)} :: i < gf.p ==> gf.exp(i) != gf.zero && Wrap(gf.log(gf.exp(i)), gf.p) == i)
    && (forall x: T {:trigger gf.log(x)} :: x != gf.zero ==> gf.log(x) <= gf.p && gf.exp(gf.log(x)) == x)
    && (forall x: T, y: T, z: T {:trigger At(x, y, z)} :: At(x, y, z) ==>
          && gf.xor(gf.xor(x, y), z) == gf.xor(x, gf.xor(y, z))
          && gf.xor(x, y) == gf.xor(y, x)
          && gf.xor(x, gf.zero) == x
          && gf.xor(x, x) == gf.zero
          && Mul(gf, gf.xor(x, y), z) == gf.xor(Mul(gf, x, z), Mul(gf, y, z)))
  }

  function One<T(!new)>(gf: GaloisField<T>): T {
    gf.exp(0)
  }

  // -------------------------------------------------------------------------------------
  // Addition

  lemma XorAssoc<T(!new)>(gf: GaloisField<T>, x: T, y: T, z: T)
    requires IsField(gf)
    ensures gf.xor(gf.xor(x, y), z) == gf.xor(x, gf.xor(y, z))
  {
    assert At(x, y, z);
  }

  lemma XorComm<T(!new)>(gf: GaloisField<T>, x: T, y: T)
    requires IsField(gf)
    ensures gf.xor(x, y) == gf.xor(y, x)
  {
    assert At(x, y, y);
  }

  lemma XorZero<T(!new)>(gf: GaloisField<T>, x: T)
    requires IsField(gf)
    ensures gf.xor(x, gf.zero) == x && gf.xor(gf.zero, x) == x && gf.xor(x, x) == gf.zero
  {
    assert At(x, gf.zero, x);
    XorComm(gf, x, gf.zero);
  }

  /** (a + b) + (c + d) == (a + c) + (b + d). */
  lemma XorInterchange<T(!new)>(gf: GaloisField<T>, a: T, b: T, c: T, d: T)
    requires IsField(gf)
    ensures gf.xor(gf.xor(a, b), gf.xor(c, d)) == gf.xor(gf.xor(a, c), gf.xor(b, d))
  {
    XorAssoc(gf, a, b, gf.xor(c, d));
    XorAssoc(gf, b, c, d);
    XorComm(gf, b, c);
    XorAssoc(gf, c, b, d);
    XorAssoc(gf, a, c, gf.xor(b, d));
  }

  // -------------------------------------------------------------------------------------
  // Multiplication

  lemma MulComm<T(!new)>(gf: GaloisField<T>, a: T, b: T)
    requires IsField(gf)
    ensures Mul(gf, a, b) == Mul(gf, b, a)
  {
  }

  lemma MulZero<T(!new)>(gf: GaloisField<T>, c: T)
    requires gf.p > 0
    ensures Mul(gf, c, gf.zero) == gf.zero && Mul(gf, gf.zero, c) == gf.zero
  {
  }

  lemma WrapSum(x: int, y: int, p: nat)
    requires p > 0
    ensures Wrap(Wrap(x, p) + y, p) == Wrap(x + y, p)
  {
    var q, r := x / p, x % p;
    var q', r' := (r + y) / p, (r + y) % p;
    assert x == q * p + r;
    assert r + y == q' * p + r';
    assert (q + q') * p == q * p + q' * p;
    DivModUnique(x + y, p, q + q', r');
  }

  lemma WrapSmall(x: nat, p: nat)
    requires x < p
    ensures Wrap(x, p) == x && Wrap(x + p, p) == x
  {
    DivModUnique(x, p, 0, x);
    DivModUnique(x + p, p, 1, x);
  }

  /** Reducing a logarithm does not change the element. */
  lemma ExpOfLog<T(!new)>(gf: GaloisField<T>, x: T)
    requires IsField(gf) && x != gf.zero
    ensures gf.exp(Wrap(gf.log(x), gf.p)) == x
  {
    if gf.log(x) < gf.p { WrapSmall(gf.log(x), gf.p); } else { WrapSmall(0, gf.p); }
  }

  lemma LogOfProduct<T(!new)>(gf: GaloisField<T>, a: T, b: T)
    requires IsField(gf) && a != gf.zero && b != gf.zero
    ensures Mul(gf, a, b) != gf.zero && Wrap(gf.log(Mul(gf, a, b)), gf.p) == Wrap(gf.log(a) + gf.log(b), gf.p)
  {
    hide Wrap;
  }

  /** Only the reduced logarithm of a factor matters. */
  lemma ProductByLog<T(!new)>(gf: GaloisField<T>, a: T, b: T, l: int)
    requires IsField(gf) && a != gf.zero && b != gf.zero && Wrap(gf.log(a), gf.p) == Wrap(l, gf.p)
    ensures Mul(gf, a, b) == gf.exp(Wrap(l + gf.log(b), gf.p))
  {
    hide Wrap;
    WrapSum(gf.log(a), gf.log(b), gf.p);
    WrapSum(l, gf.log(b), gf.p);
  }

  lemma MulAssoc<T(!new)>(gf: GaloisField<T>, a: T, b: T, c: T)
    requires IsField(gf)
    ensures Mul(gf, Mul(gf, a, b), c) == Mul(gf, a, Mul(gf, b, c))
  {
    hide Wrap;
    if a != gf.zero && b != gf.zero && c != gf.zero {
      var la, lb, lc := gf.log(a), gf.log(b), gf.log(c);
      LogOfProduct(gf, a, b);
      LogOfProduct(gf, b, c);
      ProductByLog(gf, Mul(gf, a, b), c, la + lb);
      ProductByLog(gf, Mul(gf, b, c), a, lb + lc);
      MulComm(gf, Mul(gf, b, c), a);
      assert (la + lb) + lc == (lb + lc) + la;
    }
  }

  lemma MulOne<T(!new)>(gf: GaloisField<T>, a: T)
    requires IsField(gf)
    ensures Mul(gf, One(gf), a) == a && Mul(gf, a, One(gf)) == a && One(gf) != gf.zero
  {
    hide Wrap;
    if a != gf.zero {
      WrapSmall(0, gf.p);
      ProductByLog(gf, One(gf), a, 0);
      ExpOfLog(gf, a);
      MulComm(gf, One(gf), a);
    }
  }

  lemma Distribute<T(!new)>(gf: GaloisField<T>, a: T, b: T, c: T)
    requires IsField(gf)
    ensures Mul(gf, gf.xor(a, b), c) == gf.xor(Mul(gf, a, c), Mul(gf, b, c))
    ensures Mul(gf, c, gf.xor(a, b)) == gf.xor(Mul(gf, c, a), Mul(gf, c, b))
  {
    assert At(a, b, c);
    MulComm(gf, gf.xor(a, b), c);
    MulComm(gf, a, c);
    MulComm(gf, b, c);
  }

  /** Dividing and multiplying back. */
  lemma QuotientMul<T(!new)>(gf: GaloisField<T>, d: T, b: T)
    requires IsField(gf) && d != gf.zero && b != gf.zero
    ensures Mul(gf, Quotient(gf, d, b), b) == d
  {
    hide Wrap;
    var p, l, k := gf.p, gf.log(d), gf.log(b);
    ProductByLog(gf, Quotient(gf, d, b), b, p - k + l);
    assert (p - k + l) + k == p + l;
    WrapSum(p, l, p);
    WrapSmall(0, p);
    WrapSum(0, l, p);
    ExpOfLog(gf, d);
  }
}
