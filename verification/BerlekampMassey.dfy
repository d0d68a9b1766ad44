/** quirc's Berlekamp-Massey algorithm: it finds the shortest linear recurrence of a syndrome
    sequence, over any field given by logarithm tables. */
module BerlekampMassey {
  import opened Galois

  const MAX_POLY: nat := 64

  /** A coefficient, or an element of the sequence; zero outside. */
  function Coef<T(!new)>(gf: GaloisField<T>, p: seq<T>, i: int): T {
    if 0 <= i < |p| then p[i] else gf.zero
  }

  /** p[0]*s[k] + p[1]*s[k-1] + ... over the first j coefficients. */
  ghost function Conv<T(!new)>(gf: GaloisField<T>, p: seq<T>, s: seq<T>, k: int, j: nat): T
    requires gf.p > 0
  {
    if j == 0 then gf.zero
    else gf.xor(Conv(gf, p, s, k, j - 1), Mul(gf, Coef(gf, p, j - 1), Coef(gf, s, k - (j - 1))))
  }

  /** How far s[k] is from what the recurrence p says. */
  ghost function Discrepancy<T(!new)>(gf: GaloisField<T>, p: seq<T>, s: seq<T>, k: int): T
    requires gf.p > 0
  {
    Conv(gf, p, s, k, MAX_POLY)
  }

  ghost predicate DegreeAtMost<T(!new)>(gf: GaloisField<T>, p: seq<T>, l: int) {
    forall i :: l < i < MAX_POLY ==> Coef(gf, p, i) == gf.zero
  }

  /** p is a recurrence of length l for the first n elements of s. */
  ghost predicate Generates<T(!new)>(gf: GaloisField<T>, p: seq<T>, s: seq<T>, l: int, n: int)
    requires gf.p > 0
  {
    && |p| == MAX_POLY && 0 <= l && p[0] == One(gf) && DegreeAtMost(gf, p, l)
    && (forall k :: l <= k < n ==> Discrepancy(gf, p, s, k) == gf.zero)
  }

  /** No shorter recurrence generates the first n elements. */
  ghost predicate Shortest<T(!new)>(gf: GaloisField<T>, s: seq<T>, l: int, n: int)
    requires gf.p > 0
  {
    forall p: seq<T>, l': int :: Generates(gf, p, s, l', n) ==> l <= l'
  }

  /** `poly_add`: dst + c * x^shift * src, cut at MAX_POLY. */
  function Added<T(!new)>(gf: GaloisField<T>, dst: seq<T>, src: seq<T>, c: T, shift: int): (r: seq<T>)
    requires gf.p > 0 && |dst| == MAX_POLY
    ensures |r| == MAX_POLY
  {
    seq(MAX_POLY, i requires 0 <= i < MAX_POLY => gf.xor(dst[i], Mul(gf, Coef(gf, src, i - shift), c)))
  }

  // -------------------------------------------------------------------------------------
  // Sums

  lemma {:induction false} ConvCut<T(!new)>(gf: GaloisField<T>, p: seq<T>, s: seq<T>, k: int, l: nat, j: nat)
    requires IsField(gf) && l <= j && (forall i :: l <= i < j ==> Coef(gf, p, i) == gf.zero)
    ensures Conv(gf, p, s, k, j) == Conv(gf, p, s, k, l)
  {
    if j > l {
      ConvCut(gf, p, s, k, l, j - 1);
      XorZero(gf, Conv(gf, p, s, k, j - 1));
    }
  }

  /** The sum for dst + c * x^m * src is the sum for dst plus c times the one for src, m back. */
  lemma {:induction false} ConvAdded<T(!new)>(gf: GaloisField<T>, dst: seq<T>, src: seq<T>, c: T, m: nat, s: seq<T>, k: int, j: nat)
    requires IsField(gf) && |dst| == |src| == MAX_POLY && j <= MAX_POLY
    ensures Conv(gf, Added(gf, dst, src, c, m), s, k, j)
      == gf.xor(Conv(gf, dst, s, k, j), Mul(gf, c, Conv(gf, src, s, k - m, if j < m then 0 else j - m)))
  {
    hide Mul;
    if j == 0 {
      MulZero(gf, c);
      XorZero(gf, gf.zero);
    } else {
      ConvAdded(gf, dst, src, c, m, s, k, j - 1);
      var sum := Added(gf, dst, src, c, m);
      var a, b, e := dst[j - 1], Coef(gf, src, j - 1 - m), Coef(gf, s, k - (j - 1));
      assert Coef(gf, sum, j - 1) == gf.xor(a, Mul(gf, b, c));
      Distribute(gf, a, Mul(gf, b, c), e);
      var before := Conv(gf, src, s, k - m, if j - 1 < m then 0 else j - 1 - m);
      XorInterchange(gf, Conv(gf, dst, s, k, j - 1), Mul(gf, c, before), Mul(gf, a, e), Mul(gf, Mul(gf, b, c), e));
      MulComm(gf, b, c);
      MulAssoc(gf, c, b, e);
      Distribute(gf, before, Mul(gf, b, e), c);
      if j - 1 < m {
        MulZero(gf, c);
        MulZero(gf, e);
        XorZero(gf, gf.zero);
      }
    }
  }

  /** The sum of p[i] times the sum for q, i back, over the first j coefficients of p. */
  ghost function Double<T(!new)>(gf: GaloisField<T>, p: seq<T>, q: seq<T>, s: seq<T>, k: int, j: nat, j': nat): T
    requires gf.p > 0
  {
    if j == 0 then gf.zero
    else gf.xor(Double(gf, p, q, s, k, j - 1, j'), Mul(gf, Coef(gf, p, j - 1), Conv(gf, q, s, k - (j - 1), j')))
  }

  /** One more term in the inner sums. */
  lemma {:induction false} DoubleInner<T(!new)>(gf: GaloisField<T>, p: seq<T>, q: seq<T>, s: seq<T>, k: int, j: nat, j': nat)
    requires IsField(gf)
    ensures Double(gf, p, q, s, k, j, j' + 1)
      == gf.xor(Double(gf, p, q, s, k, j, j'), Mul(gf, Coef(gf, q, j'), Conv(gf, p, s, k - j', j)))
  {
    hide Mul;
    var c := Coef(gf, q, j');
    if j == 0 {
      MulZero(gf, c);
      XorZero(gf, gf.zero);
    } else {
      DoubleInner(gf, p, q, s, k, j - 1, j');
      var a, x, e := Coef(gf, p, j - 1), Conv(gf, q, s, k - (j - 1), j'), Coef(gf, s, k - (j - 1) - j');
      Distribute(gf, x, Mul(gf, c, e), a);
      MulAssoc(gf, a, c, e);
      MulComm(gf, a, c);
      MulAssoc(gf, c, a, e);
      var y := Conv(gf, p, s, k - j', j - 1);
      Distribute(gf, y, Mul(gf, a, e), c);
      XorInterchange(gf, Double(gf, p, q, s, k, j - 1, j'), Mul(gf, c, y), Mul(gf, a, x), Mul(gf, c, Mul(gf, a, e)));
    }
  }

  /** The two sums can be exchanged. */
  lemma {:induction false} Exchange<T(!new)>(gf: GaloisField<T>, p: seq<T>, q: seq<T>, s: seq<T>, k: int, j: nat, j': nat)
    requires IsField(gf)
    ensures Double(gf, p, q, s, k, j, j') == Double(gf, q, p, s, k, j', j)
  {
    if j' == 0 {
      DoubleOfNothing(gf, p, q, s, k, j);
    } else {
      Exchange(gf, p, q, s, k, j, j' - 1);
      DoubleInner(gf, p, q, s, k, j, j' - 1);
    }
  }

  lemma {:induction false} DoubleOfNothing<T(!new)>(gf: GaloisField<T>, p: seq<T>, q: seq<T>, s: seq<T>, k: int, j: nat)
    requires IsField(gf)
    ensures Double(gf, p, q, s, k, j, 0) == gf.zero
  {
    if j > 0 {
      DoubleOfNothing(gf, p, q, s, k, j - 1);
      MulZero(gf, Coef(gf, p, j - 1));
      XorZero(gf, gf.zero);
    }
  }

  // -------------------------------------------------------------------------------------
  // Massey's lemma

  /** A double sum over a recurrence of length l is the single sum for q at k, when every
      inner sum i = 1..l back vanishes. */
  lemma {:induction false} OnlyFirst<T(!new)>(gf: GaloisField<T>, p: seq<T>, q: seq<T>, s: seq<T>, k: int, j: nat)
    requires IsField(gf) && |p| == MAX_POLY && p[0] == One(gf) && 1 <= j <= MAX_POLY
    requires forall i :: 1 <= i < j ==> Coef(gf, p, i) == gf.zero || Discrepancy(gf, q, s, k - i) == gf.zero
    ensures Double(gf, p, q, s, k, j, MAX_POLY) == Discrepancy(gf, q, s, k)
  {
    hide Mul;
    if j == 1 {
      MulOne(gf, Discrepancy(gf, q, s, k));
      XorZero(gf, Discrepancy(gf, q, s, k));
      assert Double(gf, p, q, s, k, 0, MAX_POLY) == gf.zero;
    } else {
      OnlyFirst(gf, p, q, s, k, j - 1);
      MulZero(gf, Coef(gf, p, j - 1));
      MulZero(gf, Discrepancy(gf, q, s, k - (j - 1)));
      XorZero(gf, Discrepancy(gf, q, s, k));
    }
  }

  /** When a recurrence of length l for n elements fails at the next one, every recurrence that
      does not fail there has length at least n + 1 - l. */
  lemma LongerNeeded<T(!new)>(gf: GaloisField<T>, c: seq<T>, l: int, p: seq<T>, l': int, s: seq<T>, n: nat)
    requires IsField(gf) && Generates(gf, c, s, l, n) && Discrepancy(gf, c, s, n) != gf.zero
    requires Generates(gf, p, s, l', n + 1)
    ensures l' >= n + 1 - l
  {
    hide Mul, Discrepancy;
    if l' <= n - l {
      forall i | 1 <= i < MAX_POLY
        ensures Coef(gf, p, i) == gf.zero || Discrepancy(gf, c, s, n - i) == gf.zero
      {
      }
      forall i | 1 <= i < MAX_POLY
        ensures Coef(gf, c, i) == gf.zero || Discrepancy(gf, p, s, n - i) == gf.zero
      {
      }
      OnlyFirst(gf, p, c, s, n, MAX_POLY);
      OnlyFirst(gf, c, p, s, n, MAX_POLY);
      Exchange(gf, p, c, s, n, MAX_POLY, MAX_POLY);
    }
  }

  // -------------------------------------------------------------------------------------
  // The state of the algorithm

  function Unit<T(!new)>(gf: GaloisField<T>): seq<T> {
    seq(MAX_POLY, i => if i == 0 then One(gf) else gf.zero)
  }

  /** Before the first nonzero element, and after: B is the recurrence of length lb that failed
      at element n - m with discrepancy b. */
  ghost predicate Saved<T(!new)>(gf: GaloisField<T>, c: seq<T>, B: seq<T>, b: T, s: seq<T>, l: int, m: int, n: int)
    requires gf.p > 0
  {
    || (l == 0 && m == n + 1 && B == Unit(gf) && b == One(gf))
    || (var lb := n - m + 1 - l;
        && 1 <= m <= n && Generates(gf, B, s, lb, n - m)
        && Discrepancy(gf, B, s, n - m) == b != gf.zero)
  }

  ghost predicate Running<T(!new)>(gf: GaloisField<T>, c: seq<T>, B: seq<T>, b: T, s: seq<T>, l: int, m: int, n: int)
    requires gf.p > 0
  {
    && 0 <= l <= n && |B| == MAX_POLY
    && Generates(gf, c, s, l, n) && Shortest(gf, s, l, n)
    && Saved(gf, c, B, b, s, l, m, n)
  }

  lemma Begin<T(!new)>(gf: GaloisField<T>, s: seq<T>)
    requires IsField(gf)
    ensures Running(gf, Unit(gf), Unit(gf), One(gf), s, 0, 1, 0)
  {
  }

  lemma AddedCoef<T(!new)>(gf: GaloisField<T>, c: seq<T>, B: seq<T>, q: T, m: nat, i: nat)
    requires IsField(gf) && |c| == MAX_POLY && i < MAX_POLY && Coef(gf, B, i - m) == gf.zero
    ensures Added(gf, c, B, q, m)[i] == c[i]
  {
    MulZero(gf, q);
    XorZero(gf, c[i]);
  }

  /** With nothing cut off, an update changes the discrepancies by the shifted ones of B. */
  lemma UpdateDiscrepancy<T(!new)>(gf: GaloisField<T>, c: seq<T>, B: seq<T>, q: T, m: nat, lb: int, s: seq<T>, k: int)
    requires IsField(gf) && |c| == |B| == MAX_POLY && m <= MAX_POLY
    requires DegreeAtMost(gf, B, lb) && m + lb < MAX_POLY
    ensures Discrepancy(gf, Added(gf, c, B, q, m), s, k)
      == gf.xor(Discrepancy(gf, c, s, k), Mul(gf, q, Discrepancy(gf, B, s, k - m)))
  {
    hide Mul;
    ConvAdded(gf, c, B, q, m, s, k, MAX_POLY);
    ConvCut(gf, B, s, k - m, MAX_POLY - m, MAX_POLY);
  }

  /** The update with the quotient of the discrepancies removes the failure at n and breaks
      nothing before it. */
  lemma Update<T(!new)>(gf: GaloisField<T>, c: seq<T>, B: seq<T>, b: T, s: seq<T>, l: int, m: int, n: int, d: T)
    requires IsField(gf) && Running(gf, c, B, b, s, l, m, n) && n + 1 < MAX_POLY
    requires d == Discrepancy(gf, c, s, n) != gf.zero
    ensures Generates(gf, Added(gf, c, B, Quotient(gf, d, b), m), s, if l * 2 <= n then n + 1 - l else l, n + 1)
  {
    hide Mul, Discrepancy, Quotient, Added;
    var q := Quotient(gf, d, b);
    var c' := Added(gf, c, B, q, m);
    if l == 0 && m == n + 1 && B == Unit(gf) && b == One(gf) {
      forall i | 0 <= i < MAX_POLY && i != n + 1
        ensures c'[i] == c[i]
      {
        AddedCoef(gf, c, B, q, m, i);
      }
      forall i | n + 1 < i < MAX_POLY
        ensures Coef(gf, c', i) == gf.zero
      {
        assert Coef(gf, c, i) == gf.zero && c'[i] == c[i];
      }
    } else {
      var lb := n - m + 1 - l;
      forall i | 0 <= i < MAX_POLY && (i < m || i > m + lb)
        ensures c'[i] == c[i]
      {
        AddedCoef(gf, c, B, q, m, i);
      }
      var l' := if l * 2 <= n then n + 1 - l else l;
      forall i | l' < i < MAX_POLY
        ensures Coef(gf, c', i) == gf.zero
      {
        assert Coef(gf, c, i) == gf.zero && c'[i] == c[i];
      }
      forall k | l' <= k < n + 1
        ensures Discrepancy(gf, c', s, k) == gf.zero
      {
        UpdateDiscrepancy(gf, c, B, q, m, lb, s, k);
        if k < n {
          assert Discrepancy(gf, B, s, k - m) == gf.zero;
          MulZero(gf, q);
          XorZero(gf, gf.zero);
        } else {
          QuotientMul(gf, d, b);
          XorZero(gf, d);
        }
      }
    }
  }

  /** A longer prefix needs at least as long a recurrence, and after a failure longer still. */
  lemma StillShortest<T(!new)>(gf: GaloisField<T>, c: seq<T>, s: seq<T>, l: int, n: nat)
    requires IsField(gf) && Generates(gf, c, s, l, n) && Shortest(gf, s, l, n)
    ensures Shortest(gf, s, l, n + 1)
    ensures Discrepancy(gf, c, s, n) != gf.zero ==> Shortest(gf, s, n + 1 - l, n + 1)
  {
    var next := n + 1;
    forall p: seq<T>, l': int | Generates(gf, p, s, l', next)
      ensures l <= l' && (Discrepancy(gf, c, s, n) != gf.zero ==> n + 1 - l <= l')
    {
      assert Generates(gf, p, s, l', n);
      if Discrepancy(gf, c, s, n) != gf.zero {
        LongerNeeded(gf, c, l, p, l', s, n);
      }
    }
  }

  // -------------------------------------------------------------------------------------
  // The code

  /** `poly_add`. */
  method PolyAdd<T(!new)>(gf: GaloisField<T>, dst: array<T>, src: array<T>, c: T, shift: int)
    requires IsField(gf) && dst != src && dst.Length == src.Length == MAX_POLY
    modifies dst
    ensures dst[..] == Added(gf, old(dst[..]), src[..], c, shift)
  {
    var log_c := gf.log(c);
    if c == gf.zero {
      AddedNothing(gf, dst[..], src[..], c, shift);
      return;
    }
    for i := 0 to MAX_POLY
      invariant forall p :: 0 <= p < MAX_POLY ==>
        dst[p] == if 0 <= p - shift < i then gf.xor(old(dst[p]), Mul(gf, Coef(gf, src[..], p - shift), c)) else old(dst[p])
    {
      var p := i + shift;
      var v := src[i];
      if p < 0 || p >= MAX_POLY {
        continue;
      }
      if v == gf.zero {
        XorZero(gf, dst[p]);
        continue;
      }
      dst[p] := gf.xor(dst[p], gf.exp(Wrap(gf.log(v) + log_c, gf.p)));
    }
    forall p | 0 <= p < MAX_POLY
      ensures dst[p] == Added(gf, old(dst[..]), src[..], c, shift)[p]
    {
      XorZero(gf, old(dst[p]));
    }
  }

  lemma AddedNothing<T(!new)>(gf: GaloisField<T>, dst: seq<T>, src: seq<T>, c: T, shift: int)
    requires IsField(gf) && |dst| == MAX_POLY && c == gf.zero
    ensures Added(gf, dst, src, c, shift) == dst
  {
    forall i | 0 <= i < MAX_POLY
      ensures Added(gf, dst, src, c, shift)[i] == dst[i]
    {
      XorZero(gf, dst[i]);
    }
  }

  /** `memcpy` of a polynomial. */
  method Copy<T>(dst: array<T>, src: array<T>)
    requires dst.Length == src.Length
    modifies dst
    ensures dst[..] == old(src[..])
  {
    forall i | 0 <= i < dst.Length {
      dst[i] := src[i];
    }
    assert dst[..] == old(src[..]);
  }

  /** The discrepancy at n, skipping zero products. */
  method NextDiscrepancy<T(!new)>(gf: GaloisField<T>, C: array<T>, s: seq<T>, L: nat, n: nat) returns (d: T)
    requires IsField(gf) && C.Length == MAX_POLY && L <= n < |s| && n < MAX_POLY
    requires C[0] == One(gf) && DegreeAtMost(gf, C[..], L)
    ensures d == Discrepancy(gf, C[..], s, n)
  {
    d := s[n];
    MulOne(gf, s[n]);
    XorZero(gf, s[n]);
    assert Conv(gf, C[..], s, n, 0) == gf.zero;
    for i := 1 to L + 1
      invariant d == Conv(gf, C[..], s, n, i)
    {
      if C[i] == gf.zero || s[n - i] == gf.zero {
        XorZero(gf, d);
        continue;
      }
      d := gf.xor(d, gf.exp(Wrap(gf.log(C[i]) + gf.log(s[n - i]), gf.p)));
    }
    ConvCut(gf, C[..], s, n, L + 1, MAX_POLY);
  }

  /** `berlekamp_massey`: the shortest recurrence of the first N elements, for every sequence of
      fewer than MAX_POLY elements. */
  method Solve<T(!new)>(gf: GaloisField<T>, s: seq<T>, N: nat) returns (sigma: seq<T>, ghost L: nat)
    requires IsField(gf) && N <= |s| && N < MAX_POLY
    ensures L <= N && Generates(gf, sigma, s, L, N) && Shortest(gf, s, L, N)
  {
    hide Mul, Discrepancy, Generates, Shortest, Saved, Quotient, Added;
    var C := new T[MAX_POLY](i => if i == 0 then One(gf) else gf.zero);
    var B := new T[MAX_POLY](i => if i == 0 then One(gf) else gf.zero);
    var l, m, b := 0, 1, One(gf);
    assert C[..] == Unit(gf) && B[..] == Unit(gf);
    Begin(gf, s);
    for n := 0 to N
      invariant Running(gf, C[..], B[..], b, s, l, m, n)
    {
      StateFacts(gf, C[..], B[..], b, s, l, m, n);
      var d := NextDiscrepancy(gf, C, s, l, n);
      var mult := Quotient(gf, d, b);
      Next(gf, C[..], B[..], b, s, l, m, n, d);
      if d == gf.zero {
        m := m + 1;
      } else if l * 2 <= n {
        var T := new T[MAX_POLY](_ => gf.zero);
        Copy(T, C);
        PolyAdd(gf, C, B, mult, m);
        Copy(B, T);
        l := n + 1 - l;
        b := d;
        m := 1;
      } else {
        PolyAdd(gf, C, B, mult, m);
        m := m + 1;
      }
    }
    sigma := C[..];
    L := l;
  }

  lemma StateFacts<T(!new)>(gf: GaloisField<T>, c: seq<T>, B: seq<T>, b: T, s: seq<T>, l: int, m: int, n: int)
    requires IsField(gf) && Running(gf, c, B, b, s, l, m, n)
    ensures 0 <= l <= n && m >= 1 && |c| == |B| == MAX_POLY && c[0] == One(gf) && DegreeAtMost(gf, c, l)
  {
  }

  /** Every branch keeps the state. */
  lemma Next<T(!new)>(gf: GaloisField<T>, c: seq<T>, B: seq<T>, b: T, s: seq<T>, l: int, m: int, n: int, d: T)
    requires IsField(gf) && Running(gf, c, B, b, s, l, m, n) && n + 1 < MAX_POLY && d == Discrepancy(gf, c, s, n)
    ensures d == gf.zero ==> Running(gf, c, B, b, s, l, m + 1, n + 1)
    ensures var c' := Added(gf, c, B, Quotient(gf, d, b), m);
      && (d != gf.zero && l * 2 <= n ==> Running(gf, c', c, d, s, n + 1 - l, 1, n + 1))
      && (d != gf.zero && l * 2 > n ==> Running(gf, c', B, b, s, l, m + 1, n + 1))
  {
    hide Mul, Discrepancy, Quotient, Added;
    StillShortest(gf, c, s, l, n);
    if d != gf.zero {
      Update(gf, c, B, b, s, l, m, n, d);
    }
  }
}
