/** quirc's error correction of a block: syndromes, error locator, error values. */
module RsDecoder {
  import opened Galois
  import opened BerlekampMassey
  import opened ReedSolomon
  import opened ErrorLocator
  import opened Forney

  /** A block whose polynomial vanishes at the first npar powers of the generator. */
  ghost predicate IsCodeword<T(!new)>(gf: GaloisField<T>, block: seq<T>, npar: nat)
    requires gf.p > 0
  {
    forall i: nat :: i < npar ==> Eval(gf, block, gf.exp(i)) == gf.zero
  }

  // -------------------------------------------------------------------------------------
  // Powers by logarithms

  /** Any logarithm of x, reduced or not, gives its powers. */
  lemma {:induction false} PowerByLog<T(!new)>(gf: GaloisField<T>, x: T, l: nat, j: nat)
    requires IsField(gf) && x != gf.zero && Wrap(gf.log(x), gf.p) == Wrap(l, gf.p)
    ensures Power(gf, x, j) == gf.exp(Wrap(l * j, gf.p))
  {
    hide Wrap, Mul;
    if j == 0 {
      WrapSmall(0, gf.p);
    } else {
      var m := l * (j - 1);
      PowerByLog(gf, x, l, j - 1);
      PowerNonzero(gf, x, j - 1);
      WrapSmall(Wrap(m, gf.p), gf.p);
      ProductByLog(gf, Power(gf, x, j - 1), x, Wrap(m, gf.p));
      WrapSum(m, gf.log(x), gf.p);
      WrapSum(gf.log(x), m, gf.p);
      WrapSum(l, m, gf.p);
      NextMultiple(l, j);
    }
  }

  lemma PowerOfExp<T(!new)>(gf: GaloisField<T>, i: nat, j: nat)
    requires IsField(gf) && i < gf.p
    ensures Power(gf, gf.exp(i), j) == gf.exp(Wrap(i * j, gf.p))
  {
    hide Wrap;
    WrapSmall(i, gf.p);
    PowerByLog(gf, gf.exp(i), i, j);
  }

  lemma NextMultiple(i: nat, j: nat)
    requires j > 0
    ensures i * (j - 1) + i == i * j && i * j >= 0
  {
  }

  /** `exp[(log[c] + l * j) % p]`, for any logarithm l of x. */
  lemma TermByLogs<T(!new)>(gf: GaloisField<T>, c: T, x: T, l: nat, j: nat)
    requires IsField(gf) && c != gf.zero && x != gf.zero && Wrap(gf.log(x), gf.p) == Wrap(l, gf.p)
    ensures gf.exp(Wrap(gf.log(c) + l * j, gf.p)) == Mul(gf, c, Power(gf, x, j))
  {
    hide Wrap;
    PowerByLog(gf, x, l, j);
    PowerNonzero(gf, x, j);
    var m := Wrap(l * j, gf.p);
    WrapSmall(m, gf.p);
    ProductByLog(gf, Power(gf, x, j), c, m);
    WrapSum(l * j, gf.log(c), gf.p);
    MulComm(gf, c, Power(gf, x, j));
  }

  /** Exponent and point can be swapped. */
  lemma PowerSwap<T(!new)>(gf: GaloisField<T>, i: nat, j: nat)
    requires IsField(gf) && i < gf.p && j < gf.p
    ensures Power(gf, gf.exp(i), j) == Power(gf, gf.exp(j), i)
  {
    PowerOfExp(gf, i, j);
    PowerOfExp(gf, j, i);
    Commute(i, j);
  }

  lemma Commute(i: nat, j: nat)
    ensures i * j == j * i
  {
  }

  // -------------------------------------------------------------------------------------
  // Syndromes

  /** One syndrome, from the last element to the first, skipping zeros. */
  method Syndrome<T(!new)>(gf: GaloisField<T>, data: seq<T>, i: nat) returns (s: T)
    requires IsField(gf) && i < gf.p
    ensures s == Eval(gf, data, gf.exp(i))
  {
    hide Mul, Wrap;
    var bs := |data|;
    s := gf.zero;
    assert data[bs..] == [];
    for j := 0 to bs
      invariant s == Eval(gf, data[bs - j..], gf.exp(i))
    {
      var c := data[bs - j - 1];
      assert data[bs - j - 1..] == [c] + data[bs - j..];
      EvalCons(gf, c, data[bs - j..], gf.exp(i));
      XorComm(gf, Mul(gf, c, Power(gf, gf.exp(i), j)), s);
      if c == gf.zero {
        MulZero(gf, Power(gf, gf.exp(i), j));
        XorZero(gf, s);
        continue;
      }
      WrapSmall(i, gf.p);
      TermByLogs(gf, c, gf.exp(i), i, j);
      s := gf.xor(s, gf.exp(Wrap(gf.log(c) + i * j, gf.p)));
    }
    assert data[0..] == data;
  }

  /** `block_syndromes`. */
  method BlockSyndromes<T(!new)>(gf: GaloisField<T>, data: seq<T>, npar: nat) returns (nonzero: bool, s: seq<T>)
    requires IsField(gf) && npar < MAX_POLY && npar <= gf.p
    ensures |s| == MAX_POLY
    ensures forall i: nat :: i < npar ==> s[i] == Eval(gf, data, gf.exp(i))
    ensures nonzero == !IsCodeword(gf, data, npar)
  {
    s := seq(MAX_POLY, _ => gf.zero);
    nonzero := false;
    for i := 0 to npar
      invariant |s| == MAX_POLY
      invariant forall k: nat :: k < i ==> s[k] == Eval(gf, data, gf.exp(k))
      invariant nonzero == !IsCodeword(gf, data, i)
    {
      var v := Syndrome(gf, data, i);
      s := s[i := v];
      if s[i] != gf.zero {
        nonzero := true;
      }
    }
  }

  // -------------------------------------------------------------------------------------
  // Evaluation

  lemma {:induction false} ValueAtZero<T(!new)>(gf: GaloisField<T>, p: seq<T>, n: nat)
    requires IsField(gf) && n >= 1
    ensures Value(gf, p, gf.zero, n) == Coef(gf, p, 0)
  {
    if n == 1 {
      assert Value(gf, p, gf.zero, 0) == gf.zero;
      MulOne(gf, Coef(gf, p, 0));
      XorZero(gf, Coef(gf, p, 0));
    } else {
      ValueAtZero(gf, p, n - 1);
      MulZero(gf, Power(gf, gf.zero, n - 2));
      MulZero(gf, Coef(gf, p, n - 1));
      XorZero(gf, Coef(gf, p, 0));
    }
  }

  /** `poly_eval`. */
  method PolyEval<T(!new)>(gf: GaloisField<T>, s: seq<T>, x: T) returns (sum: T)
    requires IsField(gf) && |s| == MAX_POLY
    ensures sum == Value(gf, s, x, MAX_POLY)
  {
    hide Mul, Wrap;
    sum := gf.zero;
    var log_x := gf.log(x);
    if x == gf.zero {
      ValueAtZero(gf, s, MAX_POLY);
      return s[0];
    }
    for i := 0 to MAX_POLY
      invariant sum == Value(gf, s, x, i)
    {
      var c := s[i];
      if c == gf.zero {
        MulZero(gf, Power(gf, x, i));
        XorZero(gf, sum);
        continue;
      }
      TermByLogs(gf, c, x, log_x, i);
      sum := gf.xor(sum, gf.exp(Wrap(gf.log(c) + log_x * i, gf.p)));
    }
  }

  function Min(i: nat, j: nat): nat {
    if i < j then i else j
  }

  /** One row of `eloc_poly`. */
  method ElocRow<T(!new)>(gf: GaloisField<T>, omega: seq<T>, s: seq<T>, a: T, i: nat, npar: nat) returns (r: seq<T>)
    requires IsField(gf) && |omega| == |s| == MAX_POLY && i < npar < MAX_POLY && a != gf.zero
    ensures |r| == MAX_POLY
    ensures forall k :: 0 <= k < MAX_POLY ==>
      r[k] == if i <= k < npar then gf.xor(omega[k], Mul(gf, a, s[k + 1 - i])) else omega[k]
  {
    hide Wrap;
    r := omega;
    var log_a := gf.log(a);
    var j := 0;
    while j + 1 < MAX_POLY
      invariant 0 <= j < MAX_POLY && i + j <= npar && |r| == MAX_POLY
      invariant forall k :: 0 <= k < MAX_POLY ==>
        r[k] == if i <= k < i + j then gf.xor(omega[k], Mul(gf, a, s[k + 1 - i])) else omega[k]
      decreases MAX_POLY - j
    {
      var b := s[j + 1];
      if i + j >= npar {
        break;
      }
      XorZero(gf, r[i + j]);
      if b != gf.zero {
        r := r[i + j := gf.xor(r[i + j], gf.exp(Wrap(log_a + gf.log(b), gf.p)))];
      }
      j := j + 1;
    }
  }

  /** `eloc_poly`. */
  method ElocPoly<T(!new)>(gf: GaloisField<T>, s: seq<T>, sigma: seq<T>, npar: nat) returns (omega: seq<T>)
    requires IsField(gf) && |s| == |sigma| == MAX_POLY && npar < MAX_POLY
    ensures |omega| == MAX_POLY && IsEvaluator(gf, omega, s, sigma, npar)
  {
    hide Mul;
    omega := seq(MAX_POLY, _ => gf.zero);
    for i := 0 to npar
      invariant |omega| == MAX_POLY
      invariant forall k :: 0 <= k < MAX_POLY ==>
        omega[k] == if k < npar then Conv(gf, sigma, s, k + 1, Min(i, k + 1)) else gf.zero
    {
      var a := sigma[i];
      ghost var before := omega;
      if a != gf.zero {
        omega := ElocRow(gf, omega, s, a, i, npar);
      }
      forall k | 0 <= k < MAX_POLY
        ensures omega[k] == if k < npar then Conv(gf, sigma, s, k + 1, Min(i + 1, k + 1)) else gf.zero
      {
        if i <= k < npar {
          assert Conv(gf, sigma, s, k + 1, i + 1) == gf.xor(Conv(gf, sigma, s, k + 1, i), Mul(gf, a, s[k + 1 - i]));
          MulZero(gf, s[k + 1 - i]);
          XorZero(gf, before[k]);
        }
      }
    }
  }

  /** The derivative of the locator: `sigma_deriv[i] = sigma[i + 1]` for even i. */
  method Derivative<T(!new)>(gf: GaloisField<T>, sigma: seq<T>) returns (sd: seq<T>)
    requires |sigma| == MAX_POLY
    ensures |sd| == MAX_POLY && IsDerivative(gf, sd, sigma)
  {
    sd := seq(MAX_POLY, _ => gf.zero);
    var i := 0;
    while i + 1 < MAX_POLY
      invariant 0 <= i <= MAX_POLY && i % 2 == 0 && |sd| == MAX_POLY
      invariant forall k: nat :: k < MAX_POLY ==> sd[k] == if k < i && k % 2 == 0 then sigma[k + 1] else gf.zero
      decreases MAX_POLY - i
    {
      sd := sd[i := sigma[i + 1]];
      i := i + 2;
    }
  }

  // -------------------------------------------------------------------------------------
  // The differences between two blocks

  /** The coefficient of x^i of a block. */
  function At<T(!new)>(block: seq<T>, i: nat): T
    requires i < |block|
  {
    block[|block| - 1 - i]
  }

  /** The powers of the generator at whose exponents below n the blocks differ. */
  ghost function DiffX<T(!new)>(gf: GaloisField<T>, code: seq<T>, recv: seq<T>, n: nat): seq<T>
    requires n <= |code| == |recv|
  {
    if n == 0 then []
    else if At(code, n - 1) == At(recv, n - 1) then DiffX(gf, code, recv, n - 1)
    else DiffX(gf, code, recv, n - 1) + [gf.exp(n - 1)]
  }

  /** The differences themselves. */
  ghost function DiffZ<T(!new)>(gf: GaloisField<T>, code: seq<T>, recv: seq<T>, n: nat): (z: seq<T>)
    requires n <= |code| == |recv|
    ensures |z| == |DiffX(gf, code, recv, n)|
  {
    if n == 0 then []
    else if At(code, n - 1) == At(recv, n - 1) then DiffZ(gf, code, recv, n - 1)
    else DiffZ(gf, code, recv, n - 1) + [gf.xor(At(code, n - 1), At(recv, n - 1))]
  }

  /** The number of places at which two blocks differ. */
  ghost function Distance<T(!new)>(gf: GaloisField<T>, code: seq<T>, recv: seq<T>): nat
    requires |code| == |recv|
  {
    |DiffX(gf, code, recv, |code|)|
  }

  lemma XorNonzero<T(!new)>(gf: GaloisField<T>, a: T, b: T)
    requires IsField(gf)
    ensures gf.xor(a, b) == gf.zero <==> a == b
    ensures gf.xor(b, gf.xor(a, b)) == a
  {
    XorZero(gf, a);
    if gf.xor(a, b) == gf.zero { XorSame(gf, a, b); }
    XorComm(gf, a, b);
    XorAssoc(gf, b, b, a);
    XorZero(gf, b);
  }

  /** The coefficient a power of the generator stands for. */
  function Place<T(!new)>(gf: GaloisField<T>, x: T): nat
    requires gf.p > 0
  {
    Wrap(gf.log(x), gf.p)
  }

  /** Where the blocks differ is exactly where a power is listed, with its difference. */
  lemma {:induction false} DiffFacts<T(!new)>(gf: GaloisField<T>, code: seq<T>, recv: seq<T>, n: nat)
    requires IsField(gf) && n <= |code| == |recv| <= gf.p
    ensures var X, Z := DiffX(gf, code, recv, n), DiffZ(gf, code, recv, n);
      && Distinct(X)
      && (forall k :: 0 <= k < |X| ==> X[k] != gf.zero && Z[k] != gf.zero)
      && (forall k :: 0 <= k < |X| ==> Place(gf, X[k]) < n && At(code, Place(gf, X[k])) != At(recv, Place(gf, X[k])))
      && (forall k :: 0 <= k < |X| ==> Z[k] == gf.xor(At(code, Place(gf, X[k])), At(recv, Place(gf, X[k]))))
      && (forall i: nat :: i < n && At(code, i) != At(recv, i) ==> gf.exp(i) in X)
  {
    if n > 0 {
      DiffFacts(gf, code, recv, n - 1);
      XorNonzero(gf, At(code, n - 1), At(recv, n - 1));
    }
  }

  /** The values of the blocks at a power of the generator differ by a power sum. */
  lemma {:induction false} EvalDiff<T(!new)>(gf: GaloisField<T>, code: seq<T>, recv: seq<T>, n: nat, j: nat)
    requires IsField(gf) && n <= |code| == |recv| <= gf.p && j < gf.p
    ensures Eval(gf, recv[|recv| - n..], gf.exp(j))
      == gf.xor(Eval(gf, code[|code| - n..], gf.exp(j)), Moment(gf, DiffZ(gf, code, recv, n), DiffX(gf, code, recv, n), j))
  {
    hide Mul;
    if n == 0 {
      XorZero(gf, gf.zero);
    } else {
      var i, len := n - 1, |code|;
      EvalDiff(gf, code, recv, i, j);
      var a, b, x := At(code, i), At(recv, i), gf.exp(j);
      assert code[len - n..] == [a] + code[len - i..];
      assert recv[len - n..] == [b] + recv[len - i..];
      EvalCons(gf, a, code[len - i..], x);
      EvalCons(gf, b, recv[len - i..], x);
      var w, m := Eval(gf, code[len - i..], x), Moment(gf, DiffZ(gf, code, recv, i), DiffX(gf, code, recv, i), j);
      if a == b {
        XorAssoc(gf, Mul(gf, a, Power(gf, x, i)), w, m);
      } else {
        MomentSnoc(gf, DiffZ(gf, code, recv, i), DiffX(gf, code, recv, i), gf.xor(a, b), gf.exp(i), j);
        PowerSwap(gf, i, j);
        AddError(gf, a, b, Power(gf, x, i), w, m);
      }
    }
  }

  /** b P + (w + m) == (a P + w) + (m + (a + b) P). */
  lemma AddError<T(!new)>(gf: GaloisField<T>, a: T, b: T, P: T, w: T, m: T)
    requires IsField(gf)
    ensures gf.xor(Mul(gf, b, P), gf.xor(w, m))
      == gf.xor(gf.xor(Mul(gf, a, P), w), gf.xor(m, Mul(gf, gf.xor(a, b), P)))
  {
    hide Mul;
    var A, B := Mul(gf, a, P), Mul(gf, b, P);
    Distribute(gf, a, b, P);
    XorInterchange(gf, A, w, m, gf.xor(A, B));
    // (A + m) + (w + (A + B))
    XorComm(gf, A, m);
    XorInterchange(gf, m, A, w, gf.xor(A, B));
    // (m + w) + (A + (A + B))
    XorAssoc(gf, A, A, B);
    XorZero(gf, A);
    XorZero(gf, B);
    XorComm(gf, m, w);
    XorComm(gf, B, gf.xor(w, m));
  }

  lemma MomentSnoc<T(!new)>(gf: GaloisField<T>, Z: seq<T>, X: seq<T>, z: T, x: T, j: nat)
    requires gf.p > 0 && |Z| == |X|
    ensures Moment(gf, Z + [z], X + [x], j) == gf.xor(Moment(gf, Z, X, j), Mul(gf, z, Power(gf, x, j)))
  {
    assert (Z + [z])[..|Z|] == Z && (X + [x])[..|X|] == X;
  }

  /** The syndromes of a received block are the power sums of its differences from a codeword. */
  lemma SyndromesArePowerSums<T(!new)>(gf: GaloisField<T>, code: seq<T>, recv: seq<T>, s: seq<T>, npar: nat)
    requires IsField(gf) && |code| == |recv| <= gf.p && npar <= gf.p && npar <= |s| && IsCodeword(gf, code, npar)
    requires forall i: nat :: i < npar ==> s[i] == Eval(gf, recv, gf.exp(i))
    ensures PowerSums(gf, s, DiffZ(gf, code, recv, |code|), DiffX(gf, code, recv, |code|), npar)
  {
    var n := |code|;
    forall j: nat | j < npar
      ensures Coef(gf, s, j) == Moment(gf, DiffZ(gf, code, recv, n), DiffX(gf, code, recv, n), j)
    {
      EvalDiff(gf, code, recv, n, j);
      assert recv[n - n..] == recv && code[n - n..] == code;
      XorZero(gf, Moment(gf, DiffZ(gf, code, recv, n), DiffX(gf, code, recv, n), j));
    }
  }

  // -------------------------------------------------------------------------------------
  // Locating and correcting one position

  /** What the decoder has computed from the syndromes. */
  ghost predicate Solved<T(!new)>(gf: GaloisField<T>, s: seq<T>, sigma: seq<T>, sd: seq<T>, omega: seq<T>, l: int, npar: nat)
    requires gf.p > 0 && npar >= 1
  {
    && Generates(gf, sigma, s, l, npar) && Shortest(gf, s, l, npar)
    && |sd| == MAX_POLY && IsDerivative(gf, sd, sigma)
    && |omega| == MAX_POLY && IsEvaluator(gf, omega, s, sigma, npar - 1)
  }

  /** `gf256_exp[255 - i]` is the inverse of the i-th power. */
  lemma InversePower<T(!new)>(gf: GaloisField<T>, i: nat)
    requires IsField(gf) && i < gf.p
    ensures Mul(gf, gf.exp(gf.p - i), gf.exp(i)) == One(gf)
  {
    hide Wrap;
    WrapSmall(0, gf.p);
    if i == 0 {
      MulOne(gf, One(gf));
    }
  }

  lemma {:induction false} RevPast<T(!new)>(gf: GaloisField<T>, c: seq<T>, X: T, l: nat, n: nat)
    requires IsField(gf) && l <= n && Rev(gf, c, X, l) == gf.zero && forall i :: l < i <= n ==> Coef(gf, c, i) == gf.zero
    ensures Rev(gf, c, X, n) == gf.zero
  {
    if n > l {
      RevPast(gf, c, X, l, n - 1);
      MulZero(gf, X);
      XorZero(gf, gf.zero);
    }
  }

  /** The evaluator has fewer coefficients than there are errors. */
  lemma EvaluatorDegree<T(!new)>(gf: GaloisField<T>, omega: seq<T>, s: seq<T>, sigma: seq<T>, Z: seq<T>, X: seq<T>, npar: nat, j: nat)
    requires IsField(gf) && |Z| == |X| && PowerSums(gf, s, Z, X, npar + 1) && IsEvaluator(gf, omega, s, sigma, npar)
    requires |sigma| == MAX_POLY && DegreeAtMost(gf, sigma, |X|) && |X| <= j
    requires forall i :: 0 <= i < |X| ==> Rev(gf, sigma, X[i], |X|) == gf.zero
    ensures Coef(gf, omega, j) == gf.zero
  {
    hide Mul, PowerSums;
    if j < npar {
      ConvIsMoment(gf, sigma, s, Z, X, npar + 1, j + 1, j);
      var W := Weights(gf, Z, X, sigma, j);
      forall k | 0 <= k < |X|
        ensures W[k] == gf.zero
      {
        RevPast(gf, sigma, X[k], |X|, j);
        MulZero(gf, Z[k]);
      }
      MomentOfZeros(gf, W, X, 1);
    }
  }

  /** The value of a polynomial of degree at most n at the inverse of X is zero if and only if
      the reversed polynomial is zero at X. */
  lemma ValueZero<T(!new)>(gf: GaloisField<T>, p: seq<T>, x: T, X: T, n: nat)
    requires IsField(gf) && Mul(gf, x, X) == One(gf) && X != gf.zero && n < MAX_POLY
    requires forall i :: n < i < MAX_POLY ==> Coef(gf, p, i) == gf.zero
    ensures Mul(gf, Value(gf, p, x, MAX_POLY), Power(gf, X, n)) == Rev(gf, p, X, n)
    ensures Value(gf, p, x, MAX_POLY) == gf.zero <==> Rev(gf, p, X, n) == gf.zero
  {
    hide Mul;
    ValueCut(gf, p, x, n + 1, MAX_POLY);
    ValueIsRev(gf, p, x, X, n);
    PowerNonzero(gf, X, n);
    MulZero(gf, Power(gf, X, n));
    if Rev(gf, p, X, n) == gf.zero {
      NoZeroDivisors(gf, Value(gf, p, x, MAX_POLY), Power(gf, X, n));
    }
  }

  /** The errors of a received block: where and how much. */
  ghost predicate Errors<T(!new)>(gf: GaloisField<T>, s: seq<T>, Z: seq<T>, X: seq<T>, npar: nat)
    requires gf.p > 0 && |Z| == |X|
  {
    && 2 * |X| <= npar < MAX_POLY && npar >= 1 && Distinct(X) && PowerSums(gf, s, Z, X, npar)
    && (forall k :: 0 <= k < |X| ==> X[k] != gf.zero && Z[k] != gf.zero)
  }

  /** The locator is zero at the inverse of a power if and only if that power is an error. */
  lemma LocatorTest<T(!new)>(gf: GaloisField<T>, s: seq<T>, sigma: seq<T>, sd: seq<T>, omega: seq<T>, l: int, npar: nat,
                             Z: seq<T>, X: seq<T>, x: T, y: T)
    requires IsField(gf) && |Z| == |X| && Errors(gf, s, Z, X, npar) && Solved(gf, s, sigma, sd, omega, l, npar)
    requires Mul(gf, x, y) == One(gf) && y != gf.zero
    ensures Value(gf, sigma, x, MAX_POLY) == gf.zero <==> y in X
    ensures l == |X| && forall k :: 0 <= k < |X| ==> Rev(gf, sigma, X[k], |X|) == gf.zero
  {
    hide Mul, PowerSums, Shortest, Discrepancy, IsEvaluator, IsDerivative;
    ShortestFindsAll(gf, sigma, l, s, Z, X, npar);
    ValueZero(gf, sigma, x, y, |X|);
    if y !in X { NoOtherRoot(gf, sigma, X, y); }
  }

  /** There the quotient of the two values is the difference. */
  lemma ErrorValue<T(!new)>(gf: GaloisField<T>, s: seq<T>, sigma: seq<T>, sd: seq<T>, omega: seq<T>, l: int, npar: nat,
                            Z: seq<T>, X: seq<T>, x: T, k: nat)
    requires IsField(gf) && |Z| == |X| && Errors(gf, s, Z, X, npar) && Solved(gf, s, sigma, sd, omega, l, npar)
    requires k < |X| && Mul(gf, x, X[k]) == One(gf)
    ensures Quotient(gf, Value(gf, omega, x, MAX_POLY), Value(gf, sd, x, MAX_POLY)) == Z[k]
  {
    hide Mul, PowerSums, Shortest, Discrepancy, IsEvaluator, Quotient;
    LocatorTest(gf, s, sigma, sd, omega, l, npar, Z, X, x, X[k]);
    var n := |X| - 1;
    EvaluatorIsDerivative(gf, omega, sd, s, sigma, Z, X, npar - 1, k);
    forall j | n < j < MAX_POLY
      ensures Coef(gf, omega, j) == gf.zero && Coef(gf, sd, j) == gf.zero
    {
      EvaluatorDegree(gf, omega, s, sigma, Z, X, npar - 1, j);
      assert Coef(gf, sigma, j + 1) == gf.zero;
    }
    ValueZero(gf, omega, x, X[k], n);
    ValueZero(gf, sd, x, X[k], n);
    var o, d, e := Value(gf, omega, x, MAX_POLY), Value(gf, sd, x, MAX_POLY), Power(gf, X[k], n);
    // o e == Z (d e)
    MulAssoc(gf, Z[k], d, e);
    PowerNonzero(gf, X[k], n);
    Cancel(gf, o, Mul(gf, Z[k], d), e);
    if o == gf.zero { NoZeroDivisors(gf, Z[k], d); }
    QuotientMul(gf, o, d);
    Cancel(gf, Quotient(gf, o, d), Z[k], d);
  }

  // -------------------------------------------------------------------------------------
  // The decoder

  /** What the loop does to the coefficient of x^i. */
  method Correction<T(!new)>(gf: GaloisField<T>, sigma: seq<T>, sd: seq<T>, omega: seq<T>, i: nat) returns (hit: bool, error: T)
    requires IsField(gf) && |sigma| == |sd| == |omega| == MAX_POLY && i < gf.p
    ensures var x := gf.exp(gf.p - i);
      && hit == (Value(gf, sigma, x, MAX_POLY) == gf.zero)
      && (hit ==> error == Quotient(gf, Value(gf, omega, x, MAX_POLY), Value(gf, sd, x, MAX_POLY)))
  {
    var xinv := gf.exp(gf.p - i);
    var v := PolyEval(gf, sigma, xinv);
    hit := v == gf.zero;
    error := gf.zero;
    if hit {
      var sd_x := PolyEval(gf, sd, xinv);
      var omega_x := PolyEval(gf, omega, xinv);
      error := gf.exp(Wrap(gf.p as int - gf.log(sd_x) + gf.log(omega_x), gf.p));
    }
  }

  /** For a received block close to a codeword it gives that codeword's coefficient. */
  lemma CorrectionRestores<T(!new)>(gf: GaloisField<T>, code: seq<T>, recv: seq<T>, s: seq<T>, sigma: seq<T>, sd: seq<T>, omega: seq<T>,
                                    l: int, npar: nat, i: nat, hit: bool, error: T)
    requires IsField(gf) && |code| == |recv| <= gf.p && i < |code| && 1 <= npar < MAX_POLY && npar <= gf.p
    requires IsCodeword(gf, code, npar) && 2 * Distance(gf, code, recv) <= npar
    requires |s| == MAX_POLY && forall k: nat :: k < npar ==> s[k] == Eval(gf, recv, gf.exp(k))
    requires Solved(gf, s, sigma, sd, omega, l, npar)
    requires hit == (Value(gf, sigma, gf.exp(gf.p - i), MAX_POLY) == gf.zero)
    requires var x := gf.exp(gf.p - i);
      hit ==> error == Quotient(gf, Value(gf, omega, x, MAX_POLY), Value(gf, sd, x, MAX_POLY))
    ensures At(code, i) == if hit then gf.xor(At(recv, i), error) else At(recv, i)
  {
    hide Mul, Solved, Quotient, Value, PowerSums, IsCodeword;
    var n := |code|;
    var X, Z := DiffX(gf, code, recv, n), DiffZ(gf, code, recv, n);
    DiffFacts(gf, code, recv, n);
    SyndromesArePowerSums(gf, code, recv, s, npar);
    InversePower(gf, i);
    var x, y := gf.exp(gf.p - i), gf.exp(i);
    LocatorTest(gf, s, sigma, sd, omega, l, npar, Z, X, x, y);
    if hit {
      var k :| 0 <= k < |X| && X[k] == y;
      ErrorValue(gf, s, sigma, sd, omega, l, npar, Z, X, x, k);
      XorNonzero(gf, At(code, i), At(recv, i));
    }
  }

  /** `correct_block`: it succeeds if and only if it leaves a codeword, leaves a codeword alone,
      and restores every codeword that was changed in at most half as many places as there are
      parity elements. */
  method CorrectBlock<T(!new)>(gf: GaloisField<T>, data: array<T>, npar: nat, ghost code: seq<T>) returns (success: bool)
    requires IsField(gf) && npar < MAX_POLY && npar <= gf.p && data.Length <= gf.p
    modifies data
    ensures success == IsCodeword(gf, data[..], npar)
    ensures IsCodeword(gf, old(data[..]), npar) ==> data[..] == old(data[..])
    ensures |code| == data.Length && IsCodeword(gf, code, npar) && 2 * Distance(gf, code, old(data[..])) <= npar
      ==> data[..] == code
  {
    hide Mul, Generates, Shortest, Quotient, Value, IsEvaluator, IsDerivative;
    ghost var recv := data[..];
    ghost var close := |code| == data.Length && IsCodeword(gf, code, npar) && 2 * Distance(gf, code, recv) <= npar;
    var nonzero, s := BlockSyndromes(gf, data[..], npar);
    if !nonzero {
      if close { CodewordsApart(gf, code, recv, npar); }
      return true;
    }
    assert npar > 0;
    hide IsCodeword;
    var sigma, l := Solve(gf, s, npar);
    GeneratesLength(gf, sigma, s, l, npar);
    var sd := Derivative(gf, sigma);
    var omega := ElocPoly(gf, s, sigma, npar - 1);
    var bs := data.Length;
    for i := 0 to bs
      invariant CorrectedFrom(data[..], code, recv, close, bs - i)
    {
      var hit, error := Correction(gf, sigma, sd, omega, i);
      if close {
        CorrectionRestores(gf, code, recv, s, sigma, sd, omega, l, npar, i, hit, error);
      }
      ghost var before := data[..];
      if hit {
        data[bs - i - 1] := gf.xor(data[bs - i - 1], error);
      }
      OneCorrected(gf, before, data[..], code, recv, close, i, hit, error);
    }
    assert close ==> data[..] == code;
    nonzero, s := BlockSyndromes(gf, data[..], npar);
    success := !nonzero;
  }

  /** The received elements below k are untouched, and those from k on are the codeword's. */
  ghost predicate CorrectedFrom<T>(data: seq<T>, code: seq<T>, recv: seq<T>, close: bool, k: int) {
    && |data| == |recv| && (close ==> |code| == |data|)
    && (forall m :: 0 <= m < k && m < |data| ==> data[m] == recv[m])
    && (close ==> forall m :: 0 <= m && k <= m < |data| ==> data[m] == code[m])
  }

  lemma OneCorrected<T(!new)>(gf: GaloisField<T>, before: seq<T>, after: seq<T>, code: seq<T>, recv: seq<T>, close: bool,
                              i: nat, hit: bool, error: T)
    requires CorrectedFrom(before, code, recv, close, |recv| - i) && i < |recv|
    requires var k := |recv| - i - 1; after == if hit then before[k := gf.xor(before[k], error)] else before
    requires close ==> At(code, i) == if hit then gf.xor(At(recv, i), error) else At(recv, i)
    ensures CorrectedFrom(after, code, recv, close, |recv| - (i + 1))
  {
  }

  lemma GeneratesLength<T(!new)>(gf: GaloisField<T>, p: seq<T>, s: seq<T>, l: int, n: int)
    requires gf.p > 0 && Generates(gf, p, s, l, n)
    ensures |p| == MAX_POLY
  {
  }

  /** Two codewords at most npar/2 apart are the same. */
  lemma CodewordsApart<T(!new)>(gf: GaloisField<T>, code: seq<T>, recv: seq<T>, npar: nat)
    requires IsField(gf) && |code| == |recv| <= gf.p && npar <= gf.p && npar < MAX_POLY
    requires IsCodeword(gf, code, npar) && IsCodeword(gf, recv, npar) && Distance(gf, code, recv) <= npar
    ensures code == recv
  {
    hide Mul;
    var n := |code|;
    var X, Z := DiffX(gf, code, recv, n), DiffZ(gf, code, recv, n);
    DiffFacts(gf, code, recv, n);
    forall j: nat | j < |X|
      ensures Moment(gf, Z, X, j) == gf.zero
    {
      EvalDiff(gf, code, recv, n, j);
      assert recv[n - n..] == recv && code[n - n..] == code;
      XorZero(gf, Moment(gf, Z, X, j));
    }
    Vandermonde(gf, Z, X);
    forall k | 0 <= k < n
      ensures code[k] == recv[k]
    {
      assert code[k] == At(code, n - 1 - k) && recv[k] == At(recv, n - 1 - k);
    }
  }
}
