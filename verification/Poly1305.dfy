/** The Poly1305 authenticator (RFC 8439, section 2.5) on 32-bit limbs with lazy carries, its
    incremental interface, and the integer definition both refine. */
module Poly1305 {
  import opened ModArith
  import opened Limbs
  import opened Bytes

  const B: int := 0x1_00000000
  const B2: int := 0x1_00000000_00000000
  const B3: int := 0x1_00000000_00000000_00000000
  const B4: int := 0x1_00000000_00000000_00000000_00000000
  // 2^130 - 5
  const P: nat := 0x3_ffffffff_ffffffff_ffffffff_fffffffb

  // -------------------------------------------------------------------------------------
  // The integer definition

  /** RFC 8439, section 2.5.1: each block of up to 16 bytes, with a 1 bit appended, is added to
      the accumulator, which is then multiplied by r modulo 2^130 - 5. */
  ghost function Accumulate(r: nat, msg: seq<u8>): (a: nat)
    ensures a < P
  {
    AccumulateFrom(r, 0, msg)
  }

  ghost function AccumulateFrom(r: nat, acc: nat, msg: seq<u8>): (a: nat)
    requires acc < P
    ensures a < P
    decreases |msg|
  {
    if msg == [] then acc
    else if |msg| <= 16 then Reduce(Absorb(acc, WithBit(msg), r))
    else AccumulateFrom(r, Reduce(Absorb(acc, WithBit(msg[..16]), r)), msg[16..])
  }

  /** The little-endian number of a block with the 1 bit placed above its last byte. */
  ghost function WithBit(block: seq<u8>): nat {
    ByteVal(block) + Pow256(|block|)
  }

  ghost function Reduce(x: int): (r: nat)
    ensures r < P
  {
    x % P
  }

  ghost function Tag(r: nat, pad: nat, msg: seq<u8>): nat {
    (Accumulate(r, msg) + pad) % B4
  }

  // -------------------------------------------------------------------------------------
  // One block on limbs

  /** The clamped multiplier: r <= 0ffffffc_0ffffffc_0ffffffc_0fffffff. */
  predicate Clamped(r: seq<u32>) {
    |r| == 4 && r[0] <= 0x0fffffff
    && r[1] <= 0x0ffffffc && r[1] % 4 == 0
    && r[2] <= 0x0ffffffc && r[2] % 4 == 0
    && r[3] <= 0x0ffffffc && r[3] % 4 == 0
  }

  ghost function Value4(x0: int, x1: int, x2: int, x3: int): int {
    x0 + x1 * B + x2 * B2 + x3 * B3
  }

  ghost function MultiplierOf(r: seq<u32>): int
    requires |r| == 4
  {
    Value4(r[0], r[1], r[2], r[3])
  }

  ghost function Value5(x0: int, x1: int, x2: int, x3: int, x4: int): int {
    x0 + x1 * B + x2 * B2 + x3 * B3 + x4 * B4
  }

  /** The unreduced product columns of the loop body; each fits in a u64, the last in a u32. */
  method Columns(s0: u64, s1: u64, s2: u64, s3: u64, s4: u32, r: seq<u32>)
    returns (x0: u64, x1: u64, x2: u64, x3: u64, x4: u32)
    requires Clamped(r)
    requires s0 < 2 * B && s1 < 2 * B && s2 < 2 * B && s3 < 2 * B && s4 <= 5
    ensures Cong(Value5(x0, x1, x2, x3, x4), Value5(s0, s1, s2, s3, s4) * Value4(r[0], r[1], r[2], r[3]), P)
    ensures x3 / B + x4 <= 0x7ffffff5
  {
    var r0, r1, r2, r3 := r[0], r[1], r[2], r[3];
    var rr0: u32 := r0 / 4 * 5;
    var rr1: u32 := r1 / 4 + r1;
    var rr2: u32 := r2 / 4 + r2;
    var rr3: u32 := r3 / 4 + r3;
    var rr4: u32 := r0 % 4;
    Row(s0, 2 * B, r0, r1, r2, r3);
    Row(s1, 2 * B, rr3, r0, r1, r2);
    Row(s2, 2 * B, rr2, rr3, r0, r1);
    Row(s3, 2 * B, rr1, rr2, rr3, r0);
    Row(s4, 5, rr0, rr1, rr2, rr3);
    MulBounds(s4, rr4, 5, 3);
    // these products are 32-bit ones
    var p0: u32, p1: u32, p2: u32, p3: u32 := s4 * rr0, s4 * rr1, s4 * rr2, s4 * rr3;
    x0 := s0 * r0 + s1 * rr3 + s2 * rr2 + s3 * rr1 + p0;
    x1 := s0 * r1 + s1 * r0 + s2 * rr3 + s3 * rr2 + p1;
    x2 := s0 * r2 + s1 * r1 + s2 * r0 + s3 * rr3 + p2;
    x3 := s0 * r3 + s1 * r2 + s2 * r1 + s3 * r0 + p3;
    x4 := s4 * rr4;
    ColumnsValue(s0, s1, s2, s3, s4, r0, r1, r2, r3, rr0, rr1, rr2, rr3, rr4);
    TopBound(s0, s1, s2, s3, r0, r1, r2, r3, s4 * rr3, x4);
  }

  lemma TopBound(s0: int, s1: int, s2: int, s3: int, r0: int, r1: int, r2: int, r3: int, t: int, x4: int)
    requires 0 <= s0 < 2 * B && 0 <= s1 < 2 * B && 0 <= s2 < 2 * B && 0 <= s3 < 2 * B
    requires 0 <= r0 <= 0x0fffffff && 0 <= r1 <= 0x0ffffffc && 0 <= r2 <= 0x0ffffffc && 0 <= r3 <= 0x0ffffffc
    requires t <= 5 * 0x14000000 && x4 <= 15
    ensures (s0 * r3 + s1 * r2 + s2 * r1 + s3 * r0 + t) / B + x4 <= 0x7ffffff5
  {
    MulBounds(s0, r3, 2 * B, 0x0ffffffc);
    MulBounds(s1, r2, 2 * B, 0x0ffffffc);
    MulBounds(s2, r1, 2 * B, 0x0ffffffc);
    MulBounds(s3, r0, 2 * B, 0x0fffffff);
  }

  /** One multiplier against four limbs: the products are bounded and add up to the product. */
  lemma Row(s: int, bound: int, a: int, b: int, c: int, d: int)
    requires 0 <= s <= bound
    requires 0 <= a <= 0x14000000 && 0 <= b <= 0x14000000 && 0 <= c <= 0x14000000 && 0 <= d <= 0x14000000
    ensures 0 <= s * a <= bound * 0x14000000 && 0 <= s * b <= bound * 0x14000000
    ensures 0 <= s * c <= bound * 0x14000000 && 0 <= s * d <= bound * 0x14000000
    ensures s * Value4(a, b, c, d) == Value4(s * a, s * b, s * c, s * d)
  {
    MulBounds(s, a, bound, 0x14000000);
    MulBounds(s, b, bound, 0x14000000);
    MulBounds(s, c, bound, 0x14000000);
    MulBounds(s, d, bound, 0x14000000);
    Spread(s, a, b, c, d, B, B2, B3);
  }

  lemma Spread(s: int, a: int, b: int, c: int, d: int, x: int, y: int, z: int)
    ensures s * (a + b * x + c * y + d * z) == s * a + (s * b) * x + (s * c) * y + (s * d) * z
  {
    MulTriple(s, b, x);
    MulTriple(s, c, y);
    MulTriple(s, d, z);
  }

  /** The columns add up to S * R, up to a multiple of 2^130 - 5: a factor 2^128 on a multiple
      of four is a factor 2^130, which is worth five. */
  lemma ColumnsValue(s0: int, s1: int, s2: int, s3: int, s4: int, r0: int, r1: int, r2: int, r3: int,
                     rr0: int, rr1: int, rr2: int, rr3: int, rr4: int)
    requires r1 % 4 == 0 && r2 % 4 == 0 && r3 % 4 == 0
    requires rr0 == r0 / 4 * 5 && rr1 == r1 / 4 + r1 && rr2 == r2 / 4 + r2 && rr3 == r3 / 4 + r3 && rr4 == r0 % 4
    requires s0 * Value4(r0, r1, r2, r3) == Value4(s0 * r0, s0 * r1, s0 * r2, s0 * r3)
    requires s1 * Value4(rr3, r0, r1, r2) == Value4(s1 * rr3, s1 * r0, s1 * r1, s1 * r2)
    requires s2 * Value4(rr2, rr3, r0, r1) == Value4(s2 * rr2, s2 * rr3, s2 * r0, s2 * r1)
    requires s3 * Value4(rr1, rr2, rr3, r0) == Value4(s3 * rr1, s3 * rr2, s3 * rr3, s3 * r0)
    requires s4 * Value4(rr0, rr1, rr2, rr3) == Value4(s4 * rr0, s4 * rr1, s4 * rr2, s4 * rr3)
    ensures Cong(Value5(s0 * r0 + s1 * rr3 + s2 * rr2 + s3 * rr1 + s4 * rr0,
                        s0 * r1 + s1 * r0 + s2 * rr3 + s3 * rr2 + s4 * rr1,
                        s0 * r2 + s1 * r1 + s2 * r0 + s3 * rr3 + s4 * rr2,
                        s0 * r3 + s1 * r2 + s2 * r1 + s3 * r0 + s4 * rr3, s4 * rr4),
                 Value5(s0, s1, s2, s3, s4) * Value4(r0, r1, r2, r3), P)
  {
    var R := Value4(r0, r1, r2, r3);
    var q0, q1, q2, q3 := r0 / 4, r1 / 4, r2 / 4, r3 / 4;
    var k1, k2, k3, k4 := q3, q2 + q3 * B, q1 + q2 * B + q3 * B2, q0 + q1 * B + q2 * B2 + q3 * B3;
    var t1, t2, t3, t4 := Value4(rr3, r0, r1, r2), Value4(rr2, rr3, r0, r1), Value4(rr1, rr2, rr3, r0),
      Value4(rr0, rr1, rr2, rr3);
    assert R * B == t1 + k1 * P;
    assert R * B2 == t2 + k2 * P;
    assert R * B3 == t3 + k3 * P;
    assert R * B4 == t4 + rr4 * B4 + k4 * P;
    FiveRows(s0, s1, s2, s3, s4, R, t1, t2, t3, t4 + rr4 * B4, k1, k2, k3, k4);
    Split(s4, t4, rr4, B4);
    CongIntro(Value5(s0, s1, s2, s3, s4) * R, s0 * R + s1 * t1 + s2 * t2 + s3 * t3 + s4 * (t4 + rr4 * B4),
              s1 * k1 + s2 * k2 + s3 * k3 + s4 * k4, P);
  }

  lemma Split(s: int, t: int, e: int, b: int)
    ensures s * (t + e * b) == s * t + (s * e) * b
  {
    MulTriple(s, e, b);
  }

  lemma FiveRows(s0: int, s1: int, s2: int, s3: int, s4: int, R: int, t1: int, t2: int, t3: int, t4: int,
                 k1: int, k2: int, k3: int, k4: int)
    requires R * B == t1 + k1 * P && R * B2 == t2 + k2 * P && R * B3 == t3 + k3 * P && R * B4 == t4 + k4 * P
    ensures Value5(s0, s1, s2, s3, s4) * R
         == s0 * R + s1 * t1 + s2 * t2 + s3 * t3 + s4 * t4 + (s1 * k1 + s2 * k2 + s3 * k3 + s4 * k4) * P
  {
    Term(s1, B, R, t1, k1);
    Term(s2, B2, R, t2, k2);
    Term(s3, B3, R, t3, k3);
    Term(s4, B4, R, t4, k4);
    assert Value5(s0, s1, s2, s3, s4) * R == s0 * R + (s1 * B) * R + (s2 * B2) * R + (s3 * B3) * R + (s4 * B4) * R;
  }

  lemma Term(s: int, b: int, R: int, t: int, k: int)
    requires R * b == t + k * P
    ensures (s * b) * R == s * t + (s * k) * P
  {
    MulTriple(s, b, R);
    MulTriple(s, k, P);
    assert s * (t + k * P) == s * t + s * (k * P);
  }

  /** The loop body of `poly_blocks`: h = (h + c) * r, partially reduced. */
  method MultiplyBlock(s0: u64, s1: u64, s2: u64, s3: u64, s4: u32, r: seq<u32>)
    returns (h0: u32, h1: u32, h2: u32, h3: u32, h4: u32)
    requires Clamped(r)
    requires s0 < 2 * B && s1 < 2 * B && s2 < 2 * B && s3 < 2 * B && s4 <= 5
    ensures h4 <= 4
    ensures Cong(Value5(h0, h1, h2, h3, h4), Value5(s0, s1, s2, s3, s4) * MultiplierOf(r), P)
  {
    var x0, x1, x2, x3, x4 := Columns(s0, s1, s2, s3, s4, r);
    // partial reduction modulo 2^130 - 5
    var u5: u32 := x3 / B + x4;
    var fold: u32 := u5 / 4 * 5;
    var u0: u64 := fold + x0 % B;
    var u1: u64 := u0 / B + x1 % B + x0 / B;
    var u2: u64 := u1 / B + x2 % B + x1 / B;
    var u3: u64 := u2 / B + x3 % B + x2 / B;
    var u4: u32 := u3 / B + u5 % 4;
    h0, h1, h2, h3, h4 := u0 % B, u1 % B, u2 % B, u3 % B, u4;
    CarryChain(x0, x1, x2, x3, x4, u0, u1, u2, u3, u4, u5);
    CongIntro(Value5(x0, x1, x2, x3, x4), Value5(h0, h1, h2, h3, h4), u5 / 4, P);
  }

  lemma CarryChain(x0: int, x1: int, x2: int, x3: int, x4: int, u0: int, u1: int, u2: int, u3: int, u4: int, u5: int)
    requires u5 == x3 / B + x4
    requires u0 == u5 / 4 * 5 + x0 % B
    requires u1 == u0 / B + x1 % B + x0 / B
    requires u2 == u1 / B + x2 % B + x1 / B
    requires u3 == u2 / B + x3 % B + x2 / B
    requires u4 == u3 / B + u5 % 4
    ensures Value5(x0, x1, x2, x3, x4) == Value5(u0 % B, u1 % B, u2 % B, u3 % B, u4) + u5 / 4 * P
  {
  }

  // -------------------------------------------------------------------------------------
  // Blocks against the integer definition

  /** What n whole blocks do to the accumulator before any reduction; `end` is the bit that
      `poly_blocks` appends above each block. */
  ghost function Blocks(h: int, r: int, input: seq<u8>, n: nat, end: int): int
    requires 16 * n <= |input|
  {
    if n == 0 then h
    else Absorb(Blocks(h, r, input, n - 1, end), ByteVal(input[16 * n - 16..16 * n]) + end * B4, r)
  }

  ghost function Absorb(h: int, block: int, r: int): int {
    (h + block) * r
  }

  lemma AccumulateBlock(r: nat, m: seq<u8>, n: nat, blk: seq<u8>)
    requires |m| == 16 * n && 1 <= |blk| <= 16
    ensures Accumulate(r, m + blk) == Reduce(Absorb(Accumulate(r, m), WithBit(blk), r))
  {
    LastBlockFrom(r, 0, m, n, blk);
  }

  lemma {:induction false} LastBlockFrom(r: nat, acc: nat, m: seq<u8>, n: nat, blk: seq<u8>)
    requires |m| == 16 * n && 1 <= |blk| <= 16 && acc < P
    ensures AccumulateFrom(r, acc, m + blk)
         == Reduce(Absorb(AccumulateFrom(r, acc, m), WithBit(blk), r))
    decreases n
  {
    if n == 0 {
      assert m + blk == blk;
    } else {
      var first, rest := m[..16], m[16..];
      assert (m + blk)[..16] == first && (m + blk)[16..] == rest + blk;
      LastBlockFrom(r, Reduce(Absorb(acc, WithBit(first), r)), rest, n - 1, blk);
      if n == 1 { assert rest == [] && first == m; }
    }
  }

  /** Whole blocks with the bit above them extend the accumulator by those bytes. */
  lemma {:induction false} BlocksExtend(h: int, r: nat, m: seq<u8>, n: nat, input: seq<u8>, k: nat)
    requires |m| == 16 * n && 16 * k <= |input|
    requires Cong(h, Accumulate(r, m), P)
    ensures Cong(Blocks(h, r, input, k, 1), Accumulate(r, m + input[..16 * k]), P)
  {
    if k == 0 {
      assert m + input[..16 * k] == m;
    } else {
      BlocksExtend(h, r, m, n, input, k - 1);
      var m', blk := m + input[..16 * (k - 1)], input[16 * k - 16..16 * k];
      assert m + input[..16 * k] == m' + blk;
      ExtendOnce(Blocks(h, r, input, k - 1, 1), r, m', n + k - 1, blk);
    }
  }

  lemma ExtendOnce(x: int, r: nat, m: seq<u8>, n: nat, blk: seq<u8>)
    requires |m| == 16 * n && |blk| == 16 && Cong(x, Accumulate(r, m), P)
    ensures Cong(Absorb(x, ByteVal(blk) + 1 * B4, r), Accumulate(r, m + blk), P)
  {
    AccumulateBlock(r, m, n, blk);
    Pow256Literal();
    BlockCong(x, Accumulate(r, m), ByteVal(blk) + B4, r);
  }

  lemma BlockCong(x: int, y: int, z: int, r: int)
    requires Cong(x, y, P)
    ensures Cong(Absorb(x, z, r), Reduce(Absorb(y, z, r)), P)
  {
    CongAdd(x, y, z, z, P);
    CongMul(x + z, y + z, r, r, P);
    CongMod((y + z) * r, P);
  }

  lemma Load16(b: seq<u8>)
    requires |b| == 16
    ensures ByteVal(b) == Value4(Load32(b[0], b[1], b[2], b[3]), Load32(b[4], b[5], b[6], b[7]),
                                 Load32(b[8], b[9], b[10], b[11]), Load32(b[12], b[13], b[14], b[15]))
  {
    ByteVal4(b);
    ByteVal4(b[4..]);
    assert b[4..][4..] == b[8..];
    ByteVal4(b[8..]);
    assert b[8..][4..] == b[12..];
    ByteVal4(b[12..]);
    assert b[12..][4..] == [];
  }

  lemma Val4(s: seq<u32>)
    requires |s| == 4
    ensures Val(s) == Value4(s[0], s[1], s[2], s[3])
  {
    PowLiterals();
    assert s[..3][..2] == s[..2] && s[..2][..1] == s[..1] && s[..1][..0] == [];
    assert Val(s[..1]) == s[0] && Val(s[..2]) == Val(s[..1]) + s[1] * Pow(1);
    assert Val(s[..3]) == Val(s[..2]) + s[2] * Pow(2) && Val(s) == Val(s[..3]) + s[3] * Pow(3);
  }

  // -------------------------------------------------------------------------------------
  // The incremental context

  /** The multiplier the key's first half stands for, with the bits RFC 8439 clears cleared. */
  function ClampLow(x: u32): (r: u32)
    ensures r <= 0x0fffffff
  {
    x % 0x1000_0000
  }

  function ClampHigh(x: u32): (r: u32)
    ensures r <= 0x0ffffffc && r % 4 == 0
  {
    x % 0x1000_0000 / 4 * 4
  }

  function ClampKey(key: seq<u8>): (r: seq<u32>)
    requires |key| == 32
    ensures Clamped(r)
  {
    var k := LoadBuf(key[..16]);
    [ClampLow(k[0]), ClampHigh(k[1]), ClampHigh(k[2]), ClampHigh(k[3])]
  }

  ghost function KeyR(key: seq<u8>): nat
    requires |key| == 32
  {
    MultiplierOf(ClampKey(key))
  }

  lemma Pow2Limb()
    ensures Pow2(28) == 0x1000_0000 && Pow2(32) == BASE
  {
    Pow2Values();
    Pow2Add(8, 8);
    Pow2Add(16, 4);
    Pow2Add(20, 8);
    Pow2Add(28, 4);
  }

  lemma OverWord(x: u32, rest: nat, i: nat)
    ensures NumBit(x + BASE * rest, i) == if i < 32 then NumBit(x, i) else NumBit(rest, i - 32)
  {
    Pow2Limb();
    hide Pow2, NumBit;
    if i < 32 {
      BitLow(x, rest, 32, i);
    } else {
      BitHigh(x, rest, 32, i - 32);
    }
  }

  /** Bit i of the number is bit i % 32 of word i / 32. */
  lemma WordBit(x0: u32, x1: u32, x2: u32, x3: u32, i: nat)
    requires i < 128
    ensures Value4(x0, x1, x2, x3) >= 0
    ensures NumBit(Value4(x0, x1, x2, x3), i)
      == NumBit(if i < 32 then x0 else if i < 64 then x1 else if i < 96 then x2 else x3, i % 32)
  {
    hide NumBit;
    var y2: nat, y1: nat := x2 + BASE * x3, x1 + BASE * (x2 + BASE * x3);
    assert Value4(x0, x1, x2, x3) == x0 + BASE * y1;
    OverWord(x0, y1, i);
    if i >= 32 { OverWord(x1, y2, i - 32); }
    if i >= 64 { OverWord(x2, x3, i - 64); }
  }

  /** A number of fewer bits has no higher ones. */
  lemma NoHighBit(x: nat, m: nat, i: nat)
    requires x < Pow2(m) && m <= i
    ensures NumBit(x, i) == 0
  {
    BitHigh(x, 0, m, i - m);
    assert x + Pow2(m) * 0 == x;
    DivModUnique(0, Pow2(i - m), 0, 0);
  }

  lemma ClampLowBits(x: u32, j: nat)
    requires j < 32
    ensures NumBit(ClampLow(x), j) == if j >= 28 then 0 else NumBit(x, j)
  {
    Pow2Limb();
    hide Pow2, NumBit;
    if j >= 28 {
      NoHighBit(ClampLow(x), 28, j);
    } else {
      BitLow(ClampLow(x), x / 0x1000_0000, 28, j);
      assert ClampLow(x) + 0x1000_0000 * (x / 0x1000_0000) == x;
    }
  }

  lemma ClampHighBits(x: u32, j: nat)
    requires j < 32
    ensures NumBit(ClampHigh(x), j) == if j >= 28 || j < 2 then 0 else NumBit(x, j)
  {
    ClampLowBits(x, j);
    Pow2Values();
    Pow2Limb();
    var y := ClampLow(x);
    assert ClampHigh(x) == 0 + 4 * (y / 4) && y == y % 4 + 4 * (y / 4);
    hide Pow2;
    if j < 2 {
      BitLow(0, y / 4, 2, j);
      DivModUnique(0, Pow2(j), 0, 0);
    } else {
      hide NumBit;
      BitHigh(0, y / 4, 2, j - 2);
      BitHigh(y % 4, y / 4, 2, j - 2);
    }
  }

  lemma HalfBit(key: seq<u8>, i: nat)
    requires |key| == 32 && i < 128
    ensures var k := LoadBuf(key[..16]);
      Value4(k[0], k[1], k[2], k[3]) >= 0 && ScalarBit(key, i) == NumBit(Value4(k[0], k[1], k[2], k[3]), i)
  {
    hide Pow2, LoadBuf, Value4;
    var k := LoadBuf(key[..16]);
    WordBit(k[0], k[1], k[2], k[3], i);
    LoadValue(key[..16]);
    Val4(k);
    ScalarBitValue(key[..16], i);
  }

  lemma Below128(x0: u32, x1: u32, x2: u32, x3: u32)
    ensures Value4(x0, x1, x2, x3) < B4
  {
  }

  lemma ClampedBit(x0: u32, x1: u32, x2: u32, x3: u32, i: nat)
    requires i < 128
    ensures Value4(x0, x1, x2, x3) >= 0 && Value4(ClampLow(x0), ClampHigh(x1), ClampHigh(x2), ClampHigh(x3)) >= 0
    ensures NumBit(Value4(ClampLow(x0), ClampHigh(x1), ClampHigh(x2), ClampHigh(x3)), i)
      == if i % 32 >= 28 || (i >= 32 && i % 32 < 2) then 0 else NumBit(Value4(x0, x1, x2, x3), i)
  {
    hide ClampLow, ClampHigh, Value4, NumBit;
    WordBit(x0, x1, x2, x3, i);
    WordBit(ClampLow(x0), ClampHigh(x1), ClampHigh(x2), ClampHigh(x3), i);
    var j := i % 32;
    if i < 32 { ClampLowBits(x0, j); } else { ClampHighBits(if i < 64 then x1 else if i < 96 then x2 else x3, j); }
  }

  /** The bits of section 2.5 of RFC 8439: the multiplier is the first half of the key, without the top
      four bits of every word and the low two of all words but the first. */
  lemma KeyBits(key: seq<u8>, i: nat)
    requires |key| == 32 && i < 128
    ensures KeyR(key) < B4
    ensures KeyR(key) / Pow2(i) % 2 == if i % 32 >= 28 || (i >= 32 && i % 32 < 2) then 0 else ScalarBit(key, i)
  {
    var k := LoadBuf(key[..16]);
    Below128(ClampLow(k[0]), ClampHigh(k[1]), ClampHigh(k[2]), ClampHigh(k[3]));
    HalfBit(key, i);
    ClampedBit(k[0], k[1], k[2], k[3], i);
    hide ClampLow, ClampHigh, Value4, ScalarBit, Pow2, LoadBuf;
    assert KeyR(key) / Pow2(i) % 2 == NumBit(KeyR(key), i);
    hide NumBit;
  }

  ghost function KeyPad(key: seq<u8>): nat
    requires |key| == 32
  {
    ByteVal(key[16..])
  }

  class Context {
    const c: array<u8>
    var c_idx: nat
    const r: array<u32>
    const pad: array<u32>
    const h: array<u32>
    ghost var msg: seq<u8>   // everything passed to Update so far
    ghost var n: nat         // how many whole blocks of it h has absorbed

    ghost predicate Shape()
      reads this, r, h
    {
      c.Length == 16 && r.Length == 4 && pad.Length == 4 && h.Length == 5
      && h != r && h != pad && h as object != c && r as object != c && pad as object != c
      && Clamped(r[..]) && h[4] <= 4
    }

    ghost function H(): int
      requires h.Length == 5
      reads h
    {
      Value5(h[0], h[1], h[2], h[3], h[4])
    }

    ghost function R(): nat
      requires r.Length == 4
      reads r
    {
      MultiplierOf(r[..])
    }

    ghost function Pad(): nat
      reads pad
    {
      Val(pad[..])
    }

    /** Between calls fewer than 16 bytes wait in c, and h has absorbed everything before them. */
    ghost predicate Valid()
      reads this, c, r, pad, h
    {
      Filling() && c_idx < 16
    }

    /** `crypto_poly1305_init`. */
    constructor (key: seq<u8>)
      requires |key| == 32
      ensures Valid() && msg == [] && R() == KeyR(key) && Pad() == KeyPad(key)
      ensures fresh(c) && fresh(r) && fresh(pad) && fresh(h)
    {
      var k, p := ClampKey(key), LoadBuf(key[16..]);
      LoadValue(key[16..]);
      c := new u8[16](_ => 0);
      h := new u32[5](_ => 0);
      r := new u32[4](i requires 0 <= i < 4 => k[i]);
      pad := new u32[4](i requires 0 <= i < 4 => p[i]);
      c_idx := 0;
      msg := [];
      n := 0;
      new;
      assert pad[..] == p && r[..] == k;
    }

    /** `crypto_poly1305_update`: top up the waiting chunk, then whole blocks, then the rest. */
    method Update(message: seq<u8>)
      requires Valid()
      modifies this`c_idx, this`msg, this`n, c, h
      ensures Valid() && msg == old(msg) + message
    {
      if |message| == 0 {
        assert msg == msg + message;
        return;
      }
      hide Filling;
      var aligned := TopUp(message);
      AbsorbRest(message[aligned..]);
      Pieces(old(msg), message, aligned, aligned);
      assert message[aligned..][..0] == [];
    }

    /** The bytes that complete the waiting chunk, as far as there are any. */
    method TopUp(message: seq<u8>) returns (aligned: nat)
      requires Valid()
      modifies this`c_idx, this`msg, this`n, c, h
      ensures aligned <= |message| && Valid() && msg == old(msg) + message[..aligned]
      ensures aligned < |message| ==> c_idx == 0
    {
      hide Filling;
      GapBelow(c_idx, 16);
      aligned := if |message| < Gap(c_idx, 16) then |message| else Gap(c_idx, 16);
      Fill(message[..aligned]);
      if c_idx == 16 {
        FlushChunk();
      }
    }

    /** Whole blocks, and the rest into the chunk. */
    method AbsorbRest(rest: seq<u8>)
      requires Valid() && (rest != [] ==> c_idx == 0)
      modifies this`c_idx, this`msg, this`n, c, h
      ensures Valid() && msg == old(msg) + rest
    {
      hide Filling;
      var nb_blocks := |rest| / 16;
      AbsorbBlocks(rest, nb_blocks);
      Fill(rest[16 * nb_blocks..]);
      assert rest == rest[..16 * nb_blocks] + rest[16 * nb_blocks..];
    }

    /** Like Valid, but a sixteenth byte may have completed the chunk. */
    ghost predicate Filling()
      reads this, c, r, pad, h
    {
      Shape() && c_idx <= 16 && |msg| == 16 * n + c_idx
      && c[..c_idx] == msg[16 * n..]
      && Cong(H(), Accumulate(R(), msg[..16 * n]), P)
    }

    /** The byte-by-byte copies of `crypto_poly1305_update`. */
    method Fill(bytes: seq<u8>)
      requires Filling() && c_idx + |bytes| <= 16
      modifies this`c_idx, this`msg, c
      ensures Filling() && msg == old(msg) + bytes && c_idx == old(c_idx) + |bytes|
    {
      for i := 0 to |bytes|
        invariant Filling() && msg == old(msg) + bytes[..i] && c_idx == old(c_idx) + i
      {
        PutByte(bytes[i]);
        SnocAssoc(old(msg), bytes, i);
      }
      assert bytes[..|bytes|] == bytes;
    }

    method PutByte(b: u8)
      requires Filling() && c_idx < 16
      modifies this`c_idx, this`msg, c
      ensures Filling() && msg == old(msg) + [b] && c_idx == old(c_idx) + 1
    {
      ghost var before := msg;
      c[c_idx] := b;
      c_idx := c_idx + 1;
      msg := msg + [b];
      assert msg[..16 * n] == before[..16 * n] && msg[16 * n..] == before[16 * n..] + [b];
    }

    /** A completed chunk is one block. */
    method FlushChunk()
      requires Filling() && c_idx == 16
      modifies this`c_idx, this`n, h
      ensures Valid() && c_idx == 0
    {
      ghost var start, before := H(), msg[..16 * n];
      PolyBlocks(c[..], 1, 1);
      BlocksExtend(start, R(), before, n, c[..], 1);
      assert before + c[..][..16 * 1] == msg;
      c_idx := 0;
      n := n + 1;
      assert msg[..16 * n] == msg && msg[16 * n..] == [];
    }

    /** The whole blocks of the message, straight from the caller's buffer. */
    method AbsorbBlocks(rest: seq<u8>, nb_blocks: nat)
      requires Filling() && 16 * nb_blocks <= |rest| && (nb_blocks > 0 ==> c_idx == 0)
      modifies this`msg, this`n, h
      ensures Filling() && msg == old(msg) + rest[..16 * nb_blocks]
    {
      ghost var start := H();
      PolyBlocks(rest, nb_blocks, 1);
      if nb_blocks > 0 {
        assert msg[..16 * n] == msg;
        BlocksExtend(start, R(), msg, n, rest, nb_blocks);
        msg := msg + rest[..16 * nb_blocks];
        n := n + nb_blocks;
        assert msg[..16 * n] == msg && msg[16 * n..] == [];
      } else {
        assert msg + rest[..16 * nb_blocks] == msg;
      }
    }

    /** `crypto_poly1305_final`: the tag of everything passed to Update. */
    method Final() returns (mac: seq<u8>)
      requires Valid()
      modifies this, c, h
      ensures |mac| == 16 && ByteVal(mac) == Tag(old(R()), old(Pad()), old(msg))
    {
      LastBlock();
      mac := Finish(h[..], pad[..], Accumulate(R(), msg));
    }

    /** The incomplete last chunk, with the 1 bit placed after its last byte. */
    method LastBlock()
      requires Valid()
      modifies c, h
      ensures Shape() && Cong(H(), Accumulate(R(), msg), P)
    {
      hide Accumulate, Blocks, WithBit, Cong, Clamped, Value5, MultiplierOf;
      ghost var before := msg[..16 * n];
      assert msg == before + msg[16 * n..];
      if c_idx != 0 {
        ghost var chunk, start := c[..c_idx], H();
        MarkEnd();
        PolyBlocks(c[..], 1, 0);
        LastChunk(H(), start, R(), before, n, chunk, c[..]);
      } else {
        assert before == msg;
      }
    }

    method MarkEnd()
      requires Shape() && c_idx < 16
      modifies c
      ensures Shape() && ByteVal(c[..]) == WithBit(old(c[..c_idx]))
    {
      ghost var chunk := c[..c_idx];
      forall i | c_idx < i < 16 { c[i] := 0; }
      c[c_idx] := 1;
      assert c[..][..c_idx] == chunk;
      PadValue(chunk, c[..]);
    }

    /** `poly_blocks`. */
    method PolyBlocks(input: seq<u8>, nb_blocks: nat, end: nat)
      requires Shape() && 16 * nb_blocks <= |input| && end <= 1
      modifies h
      ensures Shape() && Cong(H(), Blocks(old(H()), R(), input, nb_blocks, end), P)
    {
      ghost var start := H();
      for i := 0 to nb_blocks
        invariant Shape() && Cong(H(), Blocks(start, R(), input, i, end), P)
      {
        ghost var before := H();
        var b := input[16 * i..16 * i + 16];
        OneBlock(b, end);
        assert b == input[16 * (i + 1) - 16..16 * (i + 1)];
        NextBlock(H(), before, Blocks(start, R(), input, i, end), ByteVal(b) + end * B4, R());
      }
    }

    /** One turn of the loop: loads four words, adds them without carry, multiplies. */
    method OneBlock(b: seq<u8>, end: nat)
      requires Shape() && |b| == 16 && end <= 1
      modifies h
      ensures Shape() && Cong(H(), Absorb(old(H()), ByteVal(b) + end * B4, R()), P)
    {
      var s0, s1, s2, s3, s4 := AddBlock(b, end);
      var h0, h1, h2, h3, h4 := MultiplyBlock(s0, s1, s2, s3, s4, r[..]);
      h[0], h[1], h[2], h[3], h[4] := h0, h1, h2, h3, h4;
    }

    /** h + c, without carry propagation. */
    method AddBlock(b: seq<u8>, end: nat) returns (s0: u64, s1: u64, s2: u64, s3: u64, s4: u32)
      requires Shape() && |b| == 16 && end <= 1
      ensures s0 < 2 * B && s1 < 2 * B && s2 < 2 * B && s3 < 2 * B && s4 <= 5
      ensures Value5(s0, s1, s2, s3, s4) == H() + ByteVal(b) + end * B4
    {
      s0 := h[0] + Load32(b[0], b[1], b[2], b[3]);
      s1 := h[1] + Load32(b[4], b[5], b[6], b[7]);
      s2 := h[2] + Load32(b[8], b[9], b[10], b[11]);
      s3 := h[3] + Load32(b[12], b[13], b[14], b[15]);
      s4 := h[4] + end;
      Load16(b);
    }
  }

  lemma NextBlock(h': int, h: int, spec: int, z: int, r: int)
    requires Cong(h, spec, P) && Cong(h', Absorb(h, z, r), P)
    ensures Cong(h', Absorb(spec, z, r), P)
  {
    CongAdd(h, spec, z, z, P);
    CongMul(h + z, spec + z, r, r, P);
  }

  lemma SnocAssoc(before: seq<u8>, bytes: seq<u8>, i: nat)
    requires i < |bytes|
    ensures before + bytes[..i] + [bytes[i]] == before + bytes[..i + 1]
  {
    assert bytes[..i + 1] == bytes[..i] + [bytes[i]];
  }

  lemma LastCong(h': int, h: int, spec: int, z: int, r: int)
    requires Cong(h, spec, P) && Cong(h', Absorb(h, z, r), P)
    ensures Cong(h', Reduce(Absorb(spec, z, r)), P)
  {
    NextBlock(h', h, spec, z, r);
    CongMod(Absorb(spec, z, r), P);
  }

  /** The marked chunk, absorbed without a further bit, is the last block of the message. */
  lemma LastChunk(h: int, start: int, r: nat, before: seq<u8>, n: nat, chunk: seq<u8>, c: seq<u8>)
    requires |before| == 16 * n && 0 < |chunk| < 16 && |c| == 16 && ByteVal(c) == WithBit(chunk)
    requires Cong(start, Accumulate(r, before), P) && Cong(h, Blocks(start, r, c, 1, 0), P)
    ensures Cong(h, Accumulate(r, before + chunk), P)
  {
    LoneBlock(start, r, c, WithBit(chunk));
    AccumulateBlock(r, before, n, chunk);
    LastCong(h, start, Accumulate(r, before), WithBit(chunk), r);
  }

  lemma LoneBlock(h: int, r: int, c: seq<u8>, v: int)
    requires |c| == 16 && ByteVal(c) == v
    ensures Blocks(h, r, c, 1, 0) == Absorb(h, v, r)
  {
    assert c[0..16] == c && Blocks(h, r, c, 0, 0) == h;
  }

  /** Zeros after the marker do not change the value. */
  lemma PadValue(chunk: seq<u8>, c: seq<u8>)
    requires |c| == 16 && |chunk| < 16 && c[..|chunk|] == chunk && c[|chunk|] == 1
    requires forall i :: |chunk| < i < 16 ==> c[i] == 0
    ensures ByteVal(c) == WithBit(chunk)
  {
    var n := |chunk|;
    assert c == chunk + c[n..];
    ByteConcat(chunk, c[n..]);
    ByteZero(c[n + 1..]);
    assert c[n..][1..] == c[n + 1..];
  }

  lemma {:induction false} ByteZero(s: seq<u8>)
    requires forall i :: 0 <= i < |s| ==> s[i] == 0
    ensures ByteVal(s) == 0
  {
    if s != [] { ByteZero(s[1..]); }
  }

  /** The first loop of `crypto_poly1305_final`: five times the quotient of h + 5 by 2^130. */
  method ReductionCarry(h: seq<u32>) returns (c: u64)
    requires |h| == 5 && h[4] <= 4
    ensures c == (Value5(h[0], h[1], h[2], h[3], h[4]) + 5) / (4 * B4) * 5 && c <= 5
  {
    c := 5;
    ghost var sum: seq<u32>, zeros := [], seq(4, _ => 0);
    for i := 0 to 4
      invariant |sum| == i && c < B
      invariant Val(sum) + c * Pow(i) == 5 + Val(h[..i]) + Val(zeros[..i])
    {
      var t: u64 := c + h[i];
      ghost var lo: u32 := t % B;
      AddStep(sum, h, zeros, i, c, t, 5, lo, t / B);
      sum := sum + [lo];
      c := t / B;
    }
    ValZero(zeros[..4]);
    Val4(h[..4]);
    ValBound(sum);
    PowLiterals();
    c := c + h[4];
    assert Val(sum) + c * B4 == 5 + Value5(h[0], h[1], h[2], h[3], h[4]);
    QuotientOf(Val(sum), c, Value5(h[0], h[1], h[2], h[3], h[4]) + 5);
    c := c / 4 * 5;
  }

  lemma QuotientOf(lo: nat, c: nat, v: int)
    requires lo < B4 && v == lo + c * B4 && c <= 5
    ensures v / (4 * B4) == c / 4 && c / 4 <= 1
  {
    DivModUnique(v, 4 * B4, c / 4, lo + c % 4 * B4);
  }

  /** The second loop: h + pad + c, modulo 2^128. */
  method AddPad(h: seq<u32>, pad: seq<u32>, c0: u64) returns (out: seq<u32>)
    requires |h| == 5 && |pad| == 4 && c0 <= 5
    ensures |out| == 4 && Val(out) == (Value4(h[0], h[1], h[2], h[3]) + Val(pad) + c0) % B4
  {
    var c: u64 := c0;
    out := [];
    for i := 0 to 4
      invariant |out| == i && c < B
      invariant Val(out) + c * Pow(i) == c0 + Val(h[..i]) + Val(pad[..i])
    {
      var t: u64 := c + h[i] + pad[i];
      var lo: u32 := t % B;
      AddStep(out, h, pad, i, c, t, c0, lo, t / B);
      out := out + [lo];
      c := t / B;
    }
    assert pad[..4] == pad;
    Val4(h[..4]);
    ValBound(out);
    PowLiterals();
    DivModUnique(Value4(h[0], h[1], h[2], h[3]) + Val(pad) + c0, B4, c, Val(out));
  }

  /** The end of `crypto_poly1305_final`: one conditional subtraction of 2^130-5, then the pad. */
  method Finish(h: seq<u32>, pad: seq<u32>, ghost acc: nat) returns (mac: seq<u8>)
    requires |h| == 5 && h[4] <= 4 && |pad| == 4 && acc < P
    requires Cong(Value5(h[0], h[1], h[2], h[3], h[4]), acc, P)
    ensures |mac| == 16 && ByteVal(mac) == (acc + Val(pad)) % B4
  {
    var carry := ReductionCarry(h);
    var limbs := AddPad(h, pad, carry);
    mac := StoreBuf(limbs);
    StoreValue(limbs);
    TagValue(Value5(h[0], h[1], h[2], h[3], h[4]), acc, Val(pad), h, carry);
  }

  /** Subtracting 2^130-5 as often as h + 5 reaches 2^130 is the reduction modulo 2^130-5. */
  lemma TagValue(H: nat, acc: nat, pad: nat, h: seq<u32>, c: int)
    requires |h| == 5 && h[4] <= 4 && H == Value5(h[0], h[1], h[2], h[3], h[4])
    requires Cong(H, acc, P) && acc < P && c == (H + 5) / (4 * B4) * 5
    ensures (Value4(h[0], h[1], h[2], h[3]) + pad + c) % B4 == (acc + pad) % B4
  {
    var k := (H + 5) / (4 * B4);
    var low := Value4(h[0], h[1], h[2], h[3]);
    FullyReduced(H, acc, k);
    LowSum(acc + pad, low + pad + 5 * k, h[4] - 4 * k);
  }

  lemma FullyReduced(H: nat, acc: nat, k: int)
    requires H < 5 * B4 && Cong(H, acc, P) && acc < P && k == (H + 5) / (4 * B4)
    ensures acc == H - k * P
  {
    assert 0 <= k <= 1;
    CongIntro(H - k * P, H, -k, P);
    CongUnique(H - k * P, acc, P);
  }

  lemma LowSum(x: int, y: int, k: int)
    requires x == y + k * B4
    ensures y % B4 == x % B4
  {
    CongIntro(x, y, k, B4);
    RemIsMod(x, B4);
    RemIsMod(y, B4);
  }

  /** Every way to cut a message into updates gives the tag of the whole message. */
  method MacOfChunks(key: seq<u8>, chunks: seq<seq<u8>>) returns (mac: seq<u8>)
    requires |key| == 32
    ensures |mac| == 16 && ByteVal(mac) == Tag(KeyR(key), KeyPad(key), Join(chunks))
  {
    var ctx := new Context(key);
    assert chunks[..0] == [];
    for i := 0 to |chunks|
      invariant ctx.Valid() && ctx.msg == Join(chunks[..i])
      invariant fresh(ctx) && fresh(ctx.c) && fresh(ctx.h) && fresh(ctx.r) && fresh(ctx.pad)
      invariant ctx.R() == KeyR(key) && ctx.Pad() == KeyPad(key)
    {
      ctx.Update(chunks[i]);
      assert chunks[..i + 1][..i] == chunks[..i];
    }
    assert chunks[..|chunks|] == chunks;
    mac := ctx.Final();
  }
}
