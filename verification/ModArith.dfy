/** Congruence modulo a positive integer, introduced and eliminated through an explicit
    quotient so that the arithmetic that uses it stays linear in the quotients. */
module ModArith {

  lemma MulMono(a: int, b: int, c: int)
    requires a <= b && 0 <= c
    ensures a * c <= b * c
  {
    assert (b - a) * c >= 0;
  }

  lemma MulBounds(a: int, b: int, x: int, y: int)
    requires 0 <= a <= x && 0 <= b <= y
    ensures 0 <= a * b <= x * y
  {
    MulMono(a, x, b);
    MulMono(b, y, x);
    assert x * b == b * x && x * y == y * x;
    assert 0 * b <= a * b by { MulMono(0, a, b); }
  }

  /** The remainder, by repeated addition or subtraction of the modulus. */
  ghost function Rem(a: int, m: int): int
    requires m > 0
    decreases a < 0, if a < 0 then -a else a
  {
    if a < 0 then Rem(a + m, m) else if a < m then a else Rem(a - m, m)
  }

  lemma {:induction false} RemIsMod(a: int, m: int)
    requires m > 0
    ensures Rem(a, m) == a % m
    decreases a < 0, if a < 0 then -a else a
  {
    var q, r := a / m, a % m;
    assert a == q * m + r;
    if a < 0 {
      RemIsMod(a + m, m);
      DivModUnique(a + m, m, q + 1, r);
    } else if a < m {
      DivModUnique(a, m, 0, a);
    } else {
      RemIsMod(a - m, m);
      DivModUnique(a - m, m, q - 1, r);
    }
  }

  ghost predicate Cong(a: int, b: int, m: int)
    requires m > 0
  {
    Rem(a, m) == Rem(b, m)
  }

  lemma DivModUnique(a: int, m: int, q: int, r: int)
    requires m > 0 && a == q * m + r && 0 <= r < m
    ensures a / m == q && a % m == r
  {
    var q', r' := a / m, a % m;
    assert a == q' * m + r';
    assert (q - q') * m == r' - r;
    if q > q' {
      assert (q - q') * m >= m by { MulAtLeast(q - q', m); }
    } else if q < q' {
      assert (q' - q) * m >= m by { MulAtLeast(q' - q, m); }
    }
  }

  lemma MulAtLeast(k: int, m: int)
    requires k >= 1 && m > 0
    ensures k * m >= m
  {
    assert (k - 1) * m >= 0;
  }

  lemma CongIntro(a: int, b: int, k: int, m: int)
    requires m > 0 && a == b + k * m
    ensures Cong(a, b, m)
  {
    var q, r := b / m, b % m;
    assert a == (q + k) * m + r;
    DivModUnique(a, m, q + k, r);
    RemIsMod(a, m);
    RemIsMod(b, m);
  }

  lemma CongElim(a: int, b: int, m: int) returns (k: int)
    requires m > 0 && Cong(a, b, m)
    ensures a == b + k * m
  {
    RemIsMod(a, m);
    RemIsMod(b, m);
    k := a / m - b / m;
    assert a == (a / m) * m + a % m;
    assert b == (b / m) * m + b % m;
  }

  lemma CongAdd(a: int, b: int, c: int, d: int, m: int)
    requires m > 0 && Cong(a, b, m) && Cong(c, d, m)
    ensures Cong(a + c, b + d, m)
  {
    var k := CongElim(a, b, m);
    var l := CongElim(c, d, m);
    assert a + c == b + d + (k + l) * m;
    CongIntro(a + c, b + d, k + l, m);
  }

  lemma CongMul(a: int, b: int, c: int, d: int, m: int)
    requires m > 0 && Cong(a, b, m) && Cong(c, d, m)
    ensures Cong(a * c, b * d, m)
  {
    var k := CongElim(a, b, m);
    var l := CongElim(c, d, m);
    calc {
      a * c;
      (b + k * m) * (d + l * m);
      b * d + b * (l * m) + (k * m) * d + (k * m) * (l * m);
      { MulTriple(b, l, m); MulTriple(d, k, m); MulTriple(k * m, l, m); }
      b * d + (b * l + d * k + (k * m) * l) * m;
    }
    CongIntro(a * c, b * d, b * l + d * k + (k * m) * l, m);
  }

  lemma MulTriple(a: int, b: int, c: int)
    ensures a * (b * c) == (a * b) * c
    ensures (b * c) * a == (a * b) * c
  {
  }

  lemma CongMod(a: int, m: int)
    requires m > 0
    ensures Cong(a % m, a, m) && 0 <= a % m < m
  {
    DivModUnique(a % m, m, 0, a % m);
    RemIsMod(a, m);
    RemIsMod(a % m, m);
  }

  /** Two congruent numbers in [0, m) are equal. */
  lemma CongUnique(a: int, b: int, m: int)
    requires m > 0 && Cong(a, b, m) && 0 <= a < m && 0 <= b < m
    ensures a == b
  {
    DivModUnique(a, m, 0, a);
    DivModUnique(b, m, 0, b);
    RemIsMod(a, m);
    RemIsMod(b, m);
  }

  /** Where row k of a table starts: k * size, written as a sum so that it stays linear. */
  function Stride(k: nat, size: nat): nat {
    if k == 0 then 0 else Stride(k - 1, size) + size
  }

  lemma {:induction false} StrideIsProduct(k: nat, size: nat)
    ensures Stride(k, size) == k * size
  {
    if k > 0 { StrideIsProduct(k - 1, size); }
  }

  lemma {:induction false} StridesApart(j: nat, k: nat, size: nat)
    requires j < k
    ensures Stride(j, size) + size <= Stride(k, size)
  {
    if j < k - 1 { StridesApart(j, k - 1, size); }
  }
}
