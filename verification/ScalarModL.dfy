/** Arithmetic modulo the group order L: schoolbook products on limb arrays, the conditional
    subtraction, Barrett reduction and Montgomery reduction. */
module ScalarModL {
  import opened ModArith
  import opened Limbs
  import opened Bytes

  const ORDER: nat := 0x10000000_00000000_00000000_00000000_14def9de_a2f79cd6_5812631a_5cf5d3ed
  const R256: nat := 0x1_00000000_00000000_00000000_00000000_00000000_00000000_00000000_00000000
  const R512: nat :=
    0x1_00000000_00000000_00000000_00000000_00000000_00000000_00000000_00000000_00000000_00000000_00000000_00000000_00000000_00000000_00000000_00000000
  // floor(2^512 / L)
  const BARRETT: nat := 0xf_ffffffff_ffffffff_ffffffff_ffffffeb_2106215d_086329a7_ed9ce5a3_0a2c131b
  // The inverse of 2^256 modulo L, and -1/L modulo 2^256
  const RINV: nat := 0x9db6c6f_26fe9183_614e7543_8ffa36be_b7f5c66a_973f754c_c766cca4_3d5f0d24
  const NEGINV: nat := 0x9db6c6f2_6fe91836_14e75438_ffa36bea_b1a206f2_fdba84ff_d2b51da3_12547e1b

  const L: seq<u32> := [0x5cf5d3ed, 0x5812631a, 0xa2f79cd6, 0x14def9de, 0, 0, 0, 0x10000000]
  const BARRETT_R: seq<u32> :=
    [0x0a2c131b, 0xed9ce5a3, 0x086329a7, 0x2106215d, 0xffffffeb, 0xffffffff, 0xffffffff, 0xffffffff, 0xf]
  const REDC_K: seq<u32> :=
    [0x12547e1b, 0xd2b51da3, 0xfdba84ff, 0xb1a206f2, 0xffa36bea, 0x14e75438, 0x6fe91836, 0x9db6c6f2]

  lemma Constants()
    ensures Val(L) == ORDER && Val(REDC_K) == NEGINV && Val(BARRETT_R) == BARRETT
    ensures Pow(8) == R256 && Pow(16) == R512
  {
    Val8(L);
    Val8(REDC_K);
    Val8(BARRETT_R[..8]);
    PowLiterals();
    PowAdd(8, 8);
    assert BARRETT_R == BARRETT_R[..8] + [0xf];
    ValSnoc(BARRETT_R[..8], 0xf);
  }

  /** The schoolbook product, p = a*b + p. Limbs of p from |b| on are written before they
      are read, so only the low |b| limbs of p take part in the sum. */
  method MultiplyAdd(p: array<u32>, a: seq<u32>, b: seq<u32>)
    requires p.Length == |a| + |b|
    modifies p
    ensures Val(p[..]) == Val(a) * Val(b) + old(Val(p[..|b|]))
  {
    var n := |b|;
    ghost var start := Val(p[..n]);
    assert a[..0] == [];
    for i := 0 to |a|
      invariant Val(p[..i + n]) == Val(a[..i]) * Val(b) + start
    {
      var carry := MulRow(p, i, a[i], b, n);
      p[i + n] := carry;
      assert b[..n] == b;
      ghost var low := p[..i + n];
      ProductRow(low, carry, a, i, b, start);
      assert p[..i + 1 + n] == low + [carry];
    }
    assert a[..|a|] == a && p[..|a| + n] == p[..];
  }

  /** The sum `multiply` computes is a*b + p exactly when the upper eight words of p are zero. */
  lemma MultiplyComment(p: seq<u32>, a: seq<u32>, b: seq<u32>)
    requires |p| == 16 && |a| == |b| == 8
    ensures Val(a) * Val(b) + Val(p[..8]) == Val(a) * Val(b) + Val(p) <==> Val(p[8..]) == 0
  {
    hide Val;
    assert p == p[..8] + p[8..];
    ValConcat(p[..8], p[8..]);
    Constants();
  }

  /** So for p = 2^256 the comment's sum is missed. */
  lemma MultiplyCommentFails(a: seq<u32>, b: seq<u32>)
    requires |a| == |b| == 8
    ensures var p: seq<u32> := seq(8, _ => 0) + [1, 0, 0, 0, 0, 0, 0, 0];
      Val(a) * Val(b) + Val(p[..8]) != Val(a) * Val(b) + Val(p)
  {
    var high: seq<u32> := [1, 0, 0, 0, 0, 0, 0, 0];
    var p: seq<u32> := seq(8, _ => 0) + high;
    assert p[8..] == high;
    Val8(high);
    hide Val;
    MultiplyComment(p, a, b);
  }

  lemma ProductRow(low: seq<u32>, carry: u32, a: seq<u32>, i: nat, b: seq<u32>, start: int)
    requires i < |a| && |low| == i + |b|
    requires Val(low) + carry * Pow(i + |b|) == Val(a[..i]) * Val(b) + start + a[i] * Val(b) * Pow(i)
    ensures Val(low + [carry]) == Val(a[..i + 1]) * Val(b) + start
  {
    ValSnoc(low, carry);
    assert a[..i + 1] == a[..i] + [a[i]];
    ValSnoc(a[..i], a[i]);
    RowSum(Val(a[..i]), a[i], Pow(i), Val(b));
  }

  lemma RowSum(v: int, x: int, p: int, b: int)
    ensures (v + x * p) * b == v * b + x * b * p
  {
    assert (x * p) * b == x * b * p;
  }

  /** One row of a product truncated to n limbs: dropping the carry loses a multiple of 2^(32n). */
  lemma LowRow(before: int, after: int, carry: int, i: nat, x: u32, b: seq<u32>, v: int, n: nat, k: int)
    returns (k': int)
    requires |b| == n && i < n
    requires after + carry * Pow(n) == before + x * Val(b[..n - i]) * Pow(i)
    requires before == v * Val(b) + k * Pow(n)
    ensures after == (v + x * Pow(i)) * Val(b) + k' * Pow(n)
  {
    ValSplit(b, n - i);
    PowSplit(i, n);
    k' := k - carry - x * Val(b[n - i..]);
    LowRowArith(before, after, carry, x, Val(b), Val(b[..n - i]), Val(b[n - i..]), Pow(n - i), Pow(i), Pow(n), v, k);
  }

  lemma LowRowArith(before: int, after: int, carry: int, x: int, b: int, lo: int, hi: int, p: int, s: int, m: int,
                    v: int, k: int)
    requires m == s * p && b == lo + p * hi
    requires after + carry * m == before + x * lo * s
    requires before == v * b + k * m
    ensures after == (v + x * s) * b + (k - carry - x * hi) * m
  {
    calc {
      (x * s) * b;
      (x * s) * lo + (x * s) * (p * hi);
      { MulTriple(x * s, p, hi); }
      x * lo * s + ((x * s) * p) * hi;
      { assert ((x * s) * p) == x * m; assert (x * m) * hi == (x * hi) * m; }
      x * lo * s + (x * hi) * m;
    }
    assert (v + x * s) * b == v * b + (x * s) * b;
    assert (k - carry - x * hi) * m == k * m - carry * m - (x * hi) * m;
  }

  /** `is_above_l`: the carry out of x + ~L + 1 tells whether L <= x. */
  method IsAboveL(x: seq<u32>) returns (above: u32)
    requires |x| == 8
    ensures above == if Val(x) >= ORDER then 1 else 0
  {
    var carry: u64 := 1;
    ghost var sum: seq<u32> := [];
    for i := 0 to 8
      invariant |sum| == i && carry <= 1
      invariant Val(sum) + carry * Pow(i) == 1 + Val(x[..i]) + Val(Complement(L)[..i])
    {
      var c: u64 := carry + x[i] + (BASE - 1 - L[i]);
      ghost var lo: u32 := c % BASE;
      AddStep(sum, x, Complement(L), i, carry, c, 1, lo, c / BASE);
      sum := sum + [lo];
      carry := c / BASE;
    }
    AboveEnd(sum, x, carry);
    above := carry;
  }

  lemma AboveEnd(sum: seq<u32>, x: seq<u32>, carry: int)
    requires |sum| == |x| == 8 && 0 <= carry <= 1
    requires Val(sum) + carry * Pow(8) == 1 + Val(x[..8]) + Val(Complement(L)[..8])
    ensures carry == if Val(x) >= ORDER then 1 else 0
  {
    hide Val, Complement;
    assert x[..8] == x && Complement(L)[..8] == Complement(L);
    ValComplement(L);
    Constants();
    ValBound(sum);
    ValBound(x);
  }

  /** `remove_l`: subtracts L once when x has reached it. */
  method RemoveL(r: array<u32>, x: seq<u32>)
    requires |x| == 8 && r.Length == 8
    modifies r
    ensures Val(r[..]) == if Val(x) >= ORDER then Val(x) - ORDER else Val(x)
  {
    var carry: u64 := IsAboveL(x);
    var above := carry;
    ghost var term := if above == 1 then Complement(L) else seq(8, _ => 0);
    for i := 0 to 8
      invariant carry <= 1
      invariant Val(r[..i]) + carry * Pow(i) == above + Val(x[..i]) + Val(term[..i])
    {
      var c: u64 := carry + x[i] + if above == 1 then BASE - 1 - L[i] else 0;
      var lo: u32 := c % BASE;
      AddStep(r[..i], x, term, i, carry, c, above, lo, c / BASE);
      ghost var low := r[..i];
      r[i] := lo;
      assert r[..i + 1] == low + [lo];
      carry := c / BASE;
    }
    assert r[..8] == r[..];
    RemoveEnd(r[..], x, term, carry, above);
  }

  lemma RemoveEnd(r: seq<u32>, x: seq<u32>, term: seq<u32>, carry: int, above: int)
    requires |r| == |x| == |term| == 8 && 0 <= carry <= 1 && above == (if Val(x) >= ORDER then 1 else 0)
    requires term == if above == 1 then Complement(L) else seq(8, _ => 0)
    requires Val(r) + carry * Pow(8) == above + Val(x[..8]) + Val(term[..8])
    ensures Val(r) == if Val(x) >= ORDER then Val(x) - ORDER else Val(x)
  {
    hide Val, Complement;
    assert x[..8] == x && term[..8] == term;
    Constants();
    ValBound(r);
    ValBound(x);
    if above == 1 {
      ValComplement(L);
    } else {
      ValZero(term);
    }
  }

  /** Barrett's estimate: the quotient read off x * floor(2^512/L), whose remainder by 2^512 is f, is
      short by at most one. */
  lemma BarrettBound(x: int, q: int, f: int)
    requires 0 <= x < R512 && 0 <= f < R512 && x * BARRETT == q * R512 + f
    ensures 0 <= x - q * ORDER < 2 * ORDER
  {
    var e := R512 - BARRETT * ORDER;
    assert 0 <= e < ORDER;
    BarrettIdentity(x, q, f, e, BARRETT, ORDER, R512);
    MulMono(f, R512 - 1, ORDER);
    MulMono(x, R512 - 1, e);
    MulMono(0, x, e);
    var d := x - q * ORDER;
    assert 0 <= d * R512 < 2 * ORDER * R512;
    if d < 0 { MulMono(d, -1, R512); }
    if d >= 2 * ORDER { MulMono(2 * ORDER, d, R512); }
  }

  lemma BarrettIdentity(x: int, q: int, f: int, e: int, b: int, l: int, m: int)
    requires m == b * l + e && x * b == q * m + f
    ensures (x - q * l) * m == f * l + x * e
  {
    assert x * m == x * (b * l) + x * e;
    assert x * (b * l) == (x * b) * l == (q * m + f) * l;
    assert (q * m) * l == (q * l) * m;
  }

  /** The product with the reciprocal: limbs 16 on are Barrett's estimate of the quotient. */
  method Estimate(x: seq<u32>) returns (xr: array<u32>, ghost q: nat)
    requires |x| == 16
    ensures fresh(xr) && xr.Length == 25
    ensures Cong(q, Val(xr[16..24]), R256) && 0 <= Val(x) - q * ORDER < 2 * ORDER
  {
    xr := new u32[25](_ => 0);
    ValZero(xr[..16]);
    MultiplyAdd(xr, BARRETT_R, x);
    q := EstimateValue(xr[..], x);
    assert xr[..][16..24] == xr[16..24];
  }

  lemma EstimateValue(xr: seq<u32>, x: seq<u32>) returns (q: nat)
    requires |xr| == 25 && |x| == 16 && Val(xr) == Val(BARRETT_R) * Val(x)
    ensures Cong(q, Val(xr[16..24]), R256) && 0 <= Val(x) - q * ORDER < 2 * ORDER
  {
    hide Val, Cong;
    q := Val(xr[16..]);
    QuotientIsHigh(xr);
    Constants();
    ValBound(x);
    ValBound(xr[..16]);
    BarrettBound(Val(x), q, Val(xr[..16]));
  }

  /** `mod_l`: the full Barrett reduction of a 512-bit number, with the second product and the
      subtraction carried out on the low 256 bits only. */
  method ModL(x: seq<u32>) returns (reduced: array<u32>)
    requires |x| == 16
    ensures fresh(reduced) && reduced.Length == 8
    ensures Val(reduced[..]) == Val(x) % ORDER
  {
    hide Val, Cong;
    // xr = x * r
    var xr, q := Estimate(x);
    // xr = floor(xr / 2^512) * L, low half only
    ghost var high := xr[16..24];
    forall i | 0 <= i < 8 { xr[i] := 0; }
    assert xr[16..24] == high;
    LowProduct(xr);
    // xr = x - xr
    ghost var product := Val(xr[..8]);
    var carry := SubtractLow(xr, x);
    LowDifference(x, xr[..8], carry, product, q, Val(high));
    reduced := new u32[8];
    RemoveL(reduced, xr[..8]);
    ReducedOnce(Val(x), q);
  }

  /** The subtraction loop of `mod_l`: the low half becomes x minus itself, in two's complement. */
  method SubtractLow(xr: array<u32>, x: seq<u32>) returns (carry: u64)
    requires xr.Length == 25 && |x| == 16
    modifies xr
    ensures carry <= 1
    ensures Val(xr[..8]) + carry * R256 == 1 + Val(x[..8]) + (R256 - 1 - old(Val(xr[..8])))
  {
    carry := 1;
    ghost var was := xr[..8];
    for i := 0 to 8
      invariant carry <= 1
      invariant xr[i..8] == was[i..]
      invariant Val(xr[..i]) + carry * Pow(i) == 1 + Val(x[..8][..i]) + Val(Complement(was)[..i])
    {
      assert xr[i] == xr[i..8][0] == was[i];
      var c: u64 := carry + x[i] + (BASE - 1 - xr[i]);
      var lo: u32 := c % BASE;
      ghost var low := xr[..i];
      AddStep(low, x[..8], Complement(was), i, carry, c, 1, lo, c / BASE);
      xr[i] := lo;
      assert xr[..i + 1] == low + [lo];
      assert xr[i + 1..8] == was[i..][1..];
      carry := c / BASE;
    }
    assert x[..8][..8] == x[..8] && Complement(was)[..8] == Complement(was);
    ValComplement(was);
    Constants();
  }

  /** The limbs above the sixteenth are the quotient by 2^512, and eight of them its low part. */
  lemma QuotientIsHigh(s: seq<u32>)
    requires |s| == 25
    ensures Val(s) == Val(s[16..]) * R512 + Val(s[..16]) && Cong(Val(s[16..]), Val(s[16..24]), R256)
  {
    Constants();
    hide Val;
    assert s == s[..16] + s[16..];
    ValConcat(s[..16], s[16..]);
    assert s[16..] == s[16..24] + [s[24]];
    ValSnoc(s[16..24], s[24]);
    CongIntro(Val(s[16..]), Val(s[16..24]), s[24], R256);
  }

  lemma PrefixValue(xs: seq<u32>, i: nat)
    requires i < |xs|
    ensures Val(xs[..i + 1]) == Val(xs[..i]) + xs[i] * Pow(i)
  {
    assert xs[..i + 1] == xs[..i] + [xs[i]];
    ValSnoc(xs[..i], xs[i]);
  }

  /** The triangular product of `mod_l`, in place: the low half becomes high half times L. */
  method LowProduct(xr: array<u32>)
    requires xr.Length == 25
    requires forall i :: 0 <= i < 8 ==> xr[i] == 0
    modifies xr
    ensures xr[8..] == old(xr[8..])
    ensures Cong(Val(xr[..8]), old(Val(xr[16..24])) * ORDER, R256)
  {
    ghost var hi, k := xr[16..24], 0;
    ValZero(xr[..8]);
    for i := 0 to 8
      invariant xr[8..] == old(xr[8..])
      invariant Val(xr[..8]) == Val(hi[..i]) * Val(L) + k * Pow(8)
    {
      ghost var before := Val(xr[..8]);
      assert xr[16 + i] == xr[8..][8 + i] == hi[i];
      var carry := MulRow(xr, i, xr[i + 16], L, 8 - i);
      k := LowRow(before, Val(xr[..8]), carry, i, hi[i], L, Val(hi[..i]), 8, k);
      PrefixValue(hi, i);
    }
    LowEnd(hi, Val(xr[..8]), k);
  }

  lemma LowEnd(hi: seq<u32>, low: int, k: int)
    requires |hi| == 8 && low == Val(hi[..8]) * Val(L) + k * Pow(8)
    ensures Cong(low, Val(hi) * ORDER, R256)
  {
    hide Val;
    assert hi[..8] == hi;
    Constants();
    CongIntro(low, Val(hi) * ORDER, k, R256);
  }

  /** The two's-complement difference of the low halves is the true difference, because the
      true difference fits in 256 bits. */
  lemma LowDifference(x: seq<u32>, r: seq<u32>, carry: int, product: int, q: int, qlow: int)
    requires |x| == 16 && |r| == 8
    requires Val(r) + carry * R256 == 1 + Val(x[..8]) + (R256 - 1 - product)
    requires Cong(q, qlow, R256) && Cong(product, qlow * ORDER, R256)
    requires 0 <= Val(x) - q * ORDER < 2 * ORDER
    ensures Val(r) == Val(x) - q * ORDER
  {
    Constants();
    CongMul(qlow, q, ORDER, ORDER, R256);
    assert x == x[..8] + x[8..];
    ValConcat(x[..8], x[8..]);
    var k := CongElim(product, q * ORDER, R256);
    ValBound(r);
    var h, d := Val(x[8..]), Val(x) - q * ORDER;
    assert Val(r) == d + (1 - carry - h - k) * R256;
    CongIntro(Val(r), d, 1 - carry - h - k, R256);
    CongUnique(Val(r), d, R256);
  }

  lemma ReducedOnce(x: nat, q: nat)
    requires 0 <= x - q * ORDER < 2 * ORDER
    ensures x % ORDER == if x - q * ORDER >= ORDER then x - q * ORDER - ORDER else x - q * ORDER
  {
    var d := x - q * ORDER;
    if d >= ORDER {
      DivModUnique(x, ORDER, q + 1, d - ORDER);
    } else {
      DivModUnique(x, ORDER, q, d);
    }
  }

  /** `crypto_eddsa_mul_add` on byte strings: r = (a * b + c) mod L. */
  method MulAdd(a: seq<u8>, b: seq<u8>, c: seq<u8>) returns (r: seq<u8>)
    requires |a| == 32 && |b| == 32 && |c| == 32
    ensures |r| == 32 && ByteVal(r) == (ByteVal(a) * ByteVal(b) + ByteVal(c)) % ORDER
  {
    var C := LoadBuf(c);
    var p := new u32[16](i requires 0 <= i => if i < 8 then C[i] else 0);
    assert p[..8] == C;
    LoadValue(a);
    LoadValue(b);
    LoadValue(c);
    MultiplyAdd(p, LoadBuf(a), LoadBuf(b));
    var reduced := ModL(p[..]);
    r := StoreBuf(reduced[..]);
    StoreValue(reduced[..]);
  }
}
