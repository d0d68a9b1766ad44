/** Montgomery reduction modulo L and the exponentiation of `crypto_x25519_inverse`. */
module Montgomery {
  import opened ModArith
  import opened Limbs
  import opened Bytes
  import opened ScalarModL
  import opened Exponent

  /** The Montgomery quotient of x: x divided by 2^256 modulo L. */
  ghost function Mont(x: int): int {
    x * RINV % ORDER
  }

  /** `redc`: for x below L * 2^256, u = x / 2^256 modulo L. */
  method Redc(u: array<u32>, x: seq<u32>)
    requires |x| == 16 && u.Length == 8
    requires Val(x) < ORDER * R256
    modifies u
    ensures Val(u[..]) == Mont(Val(x))
  {
    var t := AddMultiple(x);
    // u = (t / 2^256) % L
    RemoveL(u, t[8..]);
  }

  /** The first part of `redc`: t = x + s*L, a multiple of 2^256. */
  method AddMultiple(x: seq<u32>) returns (t: array<u32>)
    requires |x| == 16 && Val(x) < ORDER * R256
    ensures fresh(t) && t.Length == 16 && Val(t[8..]) < 2 * ORDER
    ensures Mont(Val(x)) == if Val(t[8..]) >= ORDER then Val(t[8..]) - ORDER else Val(t[8..])
  {
    // s = x * k (modulo 2^256)
    var s := LowProductK(x);
    t := new u32[16](_ => 0);
    ghost var product := Val(s[..]) * Val(L);
    ProductOf(t, s[..]);
    // t = t + x
    var carry := AddInto(t, x);
    RedcExact(x, s[..], t[..], carry, product);
  }

  method ProductOf(t: array<u32>, s: seq<u32>)
    requires t.Length == 16 && |s| == 8 && forall i :: 0 <= i < 16 ==> t[i] == 0
    modifies t
    ensures Val(t[..]) == Val(s) * Val(L)
  {
    ValZero(t[..8]);
    MultiplyAdd(t, s, L);
  }

  /** The triangular product of `redc`. */
  method LowProductK(x: seq<u32>) returns (s: array<u32>)
    requires |x| == 16
    ensures fresh(s) && s.Length == 8
    ensures Cong(Val(s[..]), Val(x[..8]) * NEGINV, R256)
  {
    s := new u32[8](_ => 0);
    ValZero(s[..]);
    assert s[..8] == s[..];
    ghost var xs, k := x[..8], 0;
    for i := 0 to 8
      invariant Val(s[..8]) == Val(xs[..i]) * Val(REDC_K) + k * Pow(8)
    {
      ghost var before := Val(s[..8]);
      var carry := MulRow(s, i, x[i], REDC_K, 8 - i);
      k := LowRow(before, Val(s[..8]), carry, i, x[i], REDC_K, Val(xs[..i]), 8, k);
      PrefixValue(xs, i);
    }
    assert s[..8] == s[..];
    LowKEnd(xs, Val(s[..]), k);
  }

  lemma LowKEnd(xs: seq<u32>, low: int, k: int)
    requires |xs| == 8 && low == Val(xs[..8]) * Val(REDC_K) + k * Pow(8)
    ensures Cong(low, Val(xs) * NEGINV, R256)
  {
    hide Val;
    assert xs[..8] == xs;
    Constants();
    CongIntro(low, Val(xs) * NEGINV, k, R256);
  }

  /** The loop t = t + x of `redc`. */
  method AddInto(t: array<u32>, x: seq<u32>) returns (carry: u64)
    requires t.Length == |x|
    modifies t
    ensures carry <= 1
    ensures Val(t[..]) + carry * Pow(|x|) == old(Val(t[..])) + Val(x)
  {
    carry := 0;
    ghost var was := t[..];
    for i := 0 to |x|
      invariant carry <= 1
      invariant t[i..] == was[i..]
      invariant Val(t[..i]) + carry * Pow(i) == 0 + Val(was[..i]) + Val(x[..i])
    {
      assert t[i] == t[i..][0] == was[i];
      var c: u64 := carry + t[i] + x[i];
      var lo: u32 := c % BASE;
      ghost var low := t[..i];
      AddStep(low, was, x, i, carry, c, 0, lo, c / BASE);
      t[i] := lo;
      assert t[..i + 1] == low + [lo];
      assert t[i + 1..] == was[i..][1..];
      carry := c / BASE;
    }
    assert t[..|x|] == t[..] && was[..|x|] == was && x[..|x|] == x;
  }

  /** x + s*L is a multiple of 2^256 below 2^512, and its high half is below 2L and congruent
      to x / 2^256. */
  lemma RedcExact(x: seq<u32>, s: seq<u32>, t: seq<u32>, carry: int, product: int)
    requires |x| == 16 && |s| == 8 && |t| == 16 && 0 <= carry <= 1
    requires Val(x) < ORDER * R256
    requires Cong(Val(s), Val(x[..8]) * NEGINV, R256)
    requires product == Val(s) * Val(L)
    requires Val(t) + carry * Pow(16) == product + Val(x)
    ensures Val(t[8..]) < 2 * ORDER
    ensures Mont(Val(x)) == if Val(t[8..]) >= ORDER then Val(t[8..]) - ORDER else Val(t[8..])
  {
    Constants();
    Halves(x);
    Halves(t);
    ValBound(s);
    var k := CongElim(Val(s), Val(x[..8]) * NEGINV, R256);
    RedcArith(Val(s), Val(x), Val(x[..8]), Val(x[8..]), Val(t[..8]), Val(t[8..]), carry, k);
  }

  lemma Halves(x: seq<u32>)
    requires |x| == 16
    ensures Val(x) == Val(x[..8]) + R256 * Val(x[8..]) && Val(x[..8]) < R256
  {
    Constants();
    ValSplit(x, 8);
    ValBound(x[..8]);
  }

  lemma RedcArith(S: nat, X: nat, xl: nat, xh: nat, lo: nat, hi: nat, carry: int, k: int)
    requires S < R256 && X < ORDER * R256 && lo < R256 && 0 <= carry <= 1
    requires X == xl + R256 * xh
    requires S == xl * NEGINV + k * R256
    requires lo + R256 * hi + carry * R512 == S * ORDER + X
    ensures hi < 2 * ORDER
    ensures Mont(X) == if hi >= ORDER then hi - ORDER else hi
  {
    MulMono(S, R256 - 1, ORDER);
    assert carry == 0;
    LowVanishes(lo, hi, S, xl, xh, k);
    HighIsQuotient(hi, S, X);
  }

  lemma LowVanishes(lo: nat, hi: nat, S: int, xl: int, xh: int, k: int)
    requires lo < R256 && S == xl * NEGINV + k * R256
    requires lo + R256 * hi == S * ORDER + xl + R256 * xh
    ensures lo == 0
  {
    assert NEGINV * ORDER == R256 * RINV - 1;
    assert S * ORDER == xl * (NEGINV * ORDER) + (k * ORDER) * R256 by {
      MulTriple(ORDER, xl, NEGINV);
      MulTriple(k, R256, ORDER);
    }
    assert xl * (R256 * RINV - 1) == (xl * RINV) * R256 - xl;
    assert lo == (xl * RINV + k * ORDER + xh - hi) * R256;
    CongIntro(lo, 0, xl * RINV + k * ORDER + xh - hi, R256);
    CongUnique(lo, 0, R256);
  }

  lemma HighIsQuotient(hi: nat, S: nat, X: nat)
    requires S < R256 && X < ORDER * R256
    requires hi * R256 == S * ORDER + X
    ensures hi < 2 * ORDER
    ensures Mont(X) == if hi >= ORDER then hi - ORDER else hi
  {
    MulMono(S, R256 - 1, ORDER);
    if hi >= 2 * ORDER { MulMono(2 * ORDER, hi, R256); }
    var e := NEGINV;
    assert R256 * RINV == 1 + e * ORDER;
    assert X * RINV == (hi * R256) * RINV - (S * ORDER) * RINV;
    assert (hi * R256) * RINV == hi * (1 + e * ORDER) == hi + (hi * e) * ORDER;
    assert (S * ORDER) * RINV == (S * RINV) * ORDER;
    assert X * RINV == hi + (hi * e - S * RINV) * ORDER;
    var k := hi * e - S * RINV;
    if hi >= ORDER {
      DivModUnique(X * RINV, ORDER, k + 1, hi - ORDER);
    } else {
      DivModUnique(X * RINV, ORDER, k, hi);
    }
  }

  // -------------------------------------------------------------------------------------
  // Square and multiply in Montgomery form

  ghost function Power(s: int, e: nat): int {
    if e == 0 then 1 else s * Power(s, e - 1)
  }

  /** 1 in Montgomery form. */
  const MONT_ONE: seq<u32> := [
    0x8d98951d, 0xd6ec3174, 0x737dcf70, 0xc6ef5bf4, 0xfffffffe, 0xffffffff, 0xffffffff, 0x0fffffff]

  lemma {:induction false} PowerAdd(s: int, d: nat, e: nat)
    ensures Power(s, d + e) == Power(s, d) * Power(s, e)
  {
    if d > 0 {
      PowerAdd(s, d - 1, e);
      MulTriple(s, Power(s, d - 1), Power(s, e));
    }
  }

  /** Montgomery forms of p and q multiply to the Montgomery form of p*q. */
  lemma MontStep(a: int, b: int, p: int, q: int, m: int, r: int, ri: int)
    requires m > 0 && Cong(r * ri, 1, m)
    requires Cong(a, p * r, m) && Cong(b, q * r, m)
    ensures Cong(a * b * ri, p * q * r, m)
  {
    CongMul(a, p * r, b, q * r, m);
    CongMul(a * b, (p * r) * (q * r), ri, ri, m);
    CongMul(p * q * r, p * q * r, r * ri, 1, m);
    Regroup(p, q, r, ri);
  }

  lemma Regroup(p: int, q: int, r: int, ri: int)
    ensures (p * r) * (q * r) * ri == (p * q * r) * (r * ri)
  {
    assert (p * r) * (q * r) == (p * q * r) * r;
  }

  /** One `multiply` and `redc` of the loop, on numbers below L. */
  method MontMul(r: array<u32>, a: seq<u32>, b: seq<u32>, ghost p: int, ghost q: int)
    requires r.Length == 8 && |a| == 8 && |b| == 8
    requires Val(a) < ORDER && Val(b) < ORDER
    requires Cong(Val(a), p * R256, ORDER) && Cong(Val(b), q * R256, ORDER)
    modifies r
    ensures Val(r[..]) < ORDER && Cong(Val(r[..]), p * q * R256, ORDER)
  {
    var product := new u32[16](_ => 0);
    ValZero(product[..8]);
    MultiplyAdd(product, a, b);
    MulBounds(Val(a), Val(b), ORDER, ORDER);
    Redc(r, product[..]);
    MontOne();
    MontStep(Val(a), Val(b), p, q, ORDER, R256, RINV);
    CongMod(Val(a) * Val(b) * RINV, ORDER);
  }

  lemma MontOne()
    ensures Cong(R256 * RINV, 1, ORDER)
  {
    CongIntro(R256 * RINV, 1, NEGINV, ORDER);
  }

  lemma NextBit(n: nat, i: nat)
    ensures n / Pow2(i) == 2 * (n / Pow2(i + 1)) + n / Pow2(i) % 2
  {
    var p := Pow2(i);
    var q, r := n / p, n % p;
    assert n == (q / 2) * (2 * p) + ((q % 2) * p + r) by {
      assert q == 2 * (q / 2) + q % 2;
      assert q * p == (2 * (q / 2)) * p + (q % 2) * p;
    }
    DivModUnique(n, 2 * p, q / 2, (q % 2) * p + r);
  }

  /** The exponentiation loop of `crypto_x25519_inverse`: it starts and stays in Montgomery
      form, meets the precondition of `redc` at every step, and ends with scalar^(L-2) mod L. */
  method Inverse(scalar: seq<u8>) returns (inverse: seq<u8>)
    requires |scalar| == 32
    ensures |inverse| == 32 && ByteVal(inverse) == Power(ByteVal(scalar), ORDER - 2) % ORDER
  {
    ghost var s := ByteVal(scalar);
    var m_scl := ToMont(scalar);
    var m_inv := new u32[8](i requires 0 <= i < 8 => MONT_ONE[i]);
    assert m_inv[..] == MONT_ONE;
    Start();
    ExponentBits();
    for i := 253 downto 0
      invariant Val(m_inv[..]) < ORDER
      invariant Cong(Val(m_inv[..]), Power(s, Prefix(i)) * R256, ORDER)
    {
      ghost var p := Power(s, Prefix(i + 1));
      ExponentStep(s, i);
      MontMul(m_inv, m_inv[..], m_inv[..], p, p);
      if ScalarBit(LM2, i) == 1 {
        MontMul(m_inv, m_inv[..], m_scl, p * p, s);
      }
    }
    LeaveMont(m_inv, Power(s, ORDER - 2));
    inverse := StoreBuf(m_inv[..]);
    StoreValue(m_inv[..]);
  }

  /** Reading one more bit of L - 2 squares the power, and multiplies it by s when the bit is set. */
  lemma ExponentStep(s: int, i: nat)
    requires i < 253
    ensures Power(s, Prefix(i)) ==
      var p := Power(s, Prefix(i + 1));
      if ScalarBit(LM2, i) == 1 then p * p * s else p * p
  {
    PrefixStep(i);
    var e := Prefix(i + 1);
    PowerAdd(s, e, e);
    PowerAdd(s, 2 * e, 1);
    assert Power(s, 1) == s;
  }

  /** The bits of L - 2 from the i-th up. */
  ghost function Prefix(i: nat): nat {
    (ORDER - 2) / Pow2(i)
  }

  lemma PrefixStep(i: nat)
    requires i < 253
    ensures Prefix(i) == 2 * Prefix(i + 1) + ScalarBit(LM2, i)
  {
    Lm2Value();
    NextBit(ORDER - 2, i);
    ScalarBitValue(LM2, i);
  }

  lemma Start()
    ensures Val(MONT_ONE) < ORDER && Cong(Val(MONT_ONE), R256, ORDER)
  {
    Val8(MONT_ONE);
    CongIntro(R256, Val(MONT_ONE), 0xf, ORDER);
  }

  lemma ExponentBits()
    ensures Prefix(253) == 0 && Prefix(0) == ORDER - 2
  {
    Pow2Bytes(32);
    Pow256Literal();
    Pow2Add(253, 3);
    Pow2Values();
    DivModUnique(ORDER - 2, Pow2(253), 0, ORDER - 2);
  }

  /** scalar * 2^256 mod L. */
  method ToMont(scalar: seq<u8>) returns (m_scl: seq<u32>)
    requires |scalar| == 32
    ensures |m_scl| == 8 && Val(m_scl) < ORDER && Cong(Val(m_scl), ByteVal(scalar) * R256, ORDER)
  {
    var zeros: seq<u32> := seq(8, _ => 0);
    var tmp := zeros + LoadBuf(scalar);
    ValZero(zeros);
    ValConcat(zeros, LoadBuf(scalar));
    LoadValue(scalar);
    Constants();
    var reduced := ModL(tmp);
    CongMod(Val(tmp), ORDER);
    m_scl := reduced[..];
  }

  /** The last `redc` takes the inverse out of Montgomery form. */
  method LeaveMont(m_inv: array<u32>, ghost p: int)
    requires m_inv.Length == 8 && Val(m_inv[..]) < ORDER && Cong(Val(m_inv[..]), p * R256, ORDER)
    modifies m_inv
    ensures Val(m_inv[..]) == p % ORDER
  {
    ghost var v := Val(m_inv[..]);
    var wide := Widen(m_inv[..]);
    Redc(m_inv, wide);
    LeaveValue(v, p);
  }

  method Widen(low: seq<u32>) returns (wide: seq<u32>)
    requires |low| == 8
    ensures |wide| == 16 && Val(wide) == Val(low)
  {
    var zeros: seq<u32> := seq(8, _ => 0);
    ValZero(zeros);
    ValConcat(low, zeros);
    wide := low + zeros;
  }

  lemma LeaveValue(v: int, p: int)
    requires Cong(v, p * R256, ORDER)
    ensures Mont(v) == p % ORDER
  {
    MontOne();
    CongMul(v, p * R256, RINV, RINV, ORDER);
    CongMul(p, p, R256 * RINV, 1, ORDER);
    MulTriple(p, R256, RINV);
    RemIsMod(v * RINV, ORDER);
    RemIsMod(p, ORDER);
  }
}
