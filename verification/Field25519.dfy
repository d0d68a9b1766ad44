/** Arithmetic modulo 2^255 - 19 on ten signed limbs of alternately 26 and 25 bits. */
module Field25519 {
  import opened ModArith
  import opened Limbs
  import opened Bytes

  type i32 = x: int | -0x8000_0000 <= x < 0x8000_0000
  type i64 = x: int | -0x8000_0000_0000_0000 <= x < 0x8000_0000_0000_0000

  // 2^255 - 19
  const P: nat := 0x7fffffff_ffffffff_ffffffff_ffffffff_ffffffff_ffffffff_ffffffff_ffffffed

  const W1: int := 0x4000000
  const W2: int := 0x8000000000000
  const W3: int := 0x20000000000000000000
  const W4: int := 0x40000000000000000000000000
  const W5: int := 0x100000000000000000000000000000000
  const W6: int := 0x200000000000000000000000000000000000000
  const W7: int := 0x800000000000000000000000000000000000000000000
  const W8: int := 0x1000000000000000000000000000000000000000000000000000
  const W9: int := 0x4000000000000000000000000000000000000000000000000000000000

  /** Ten limbs; limb i has weight 2^ceil(25.5 * i). */
  datatype Fe = Fe(x0: int, x1: int, x2: int, x3: int, x4: int, x5: int, x6: int, x7: int, x8: int, x9: int)

  ghost function Value(a: Fe): int {
    a.x0 + a.x1 * W1 + a.x2 * W2 + a.x3 * W3 + a.x4 * W4 + a.x5 * W5 + a.x6 * W6 + a.x7 * W7 + a.x8 * W8 + a.x9 * W9
  }

  ghost predicate Within(x: int, b: int) {
    -b <= x <= b
  }

  /** Even limbs at most e, odd limbs at most o in absolute value. */
  ghost predicate Bounded(a: Fe, e: int, o: int) {
    Within(a.x0, e) && Within(a.x2, e) && Within(a.x4, e) && Within(a.x6, e) && Within(a.x8, e)
    && Within(a.x1, o) && Within(a.x3, o) && Within(a.x5, o) && Within(a.x7, o) && Within(a.x9, o)
  }

  // 1.65 * 2^26 and 1.65 * 2^25: what the products accept.
  const E_IN: int := 110729625
  const O_IN: int := 55364812
  // 1.1 * 2^25 and 1.1 * 2^24: what the carry chain leaves.
  const E_OUT: int := 36909875
  const O_OUT: int := 18454937

  /** The C product of two limbs, `a * (i64) b`. */
  function Mul(a: int, b: int): int {
    a * b
  }

  lemma AbsMul(a: int, b: int, x: int, y: int)
    requires -x <= a <= x && -y <= b <= y
    ensures Within(Mul(a, b), x * y)
  {
    var a', b' := if a < 0 then -a else a, if b < 0 then -b else b;
    MulBounds(a', b', x, y);
    assert a * b == a' * b' || a * b == -(a' * b');
  }

  // -------------------------------------------------------------------------------------
  // fe_mul before its carries

  /** One limb of f against a row of factors; F replaces f in the even columns of odd rows. */
  function Row(f: int, F: int, a: Fe): Fe {
    Fe(Mul(F, a.x0), Mul(f, a.x1), Mul(F, a.x2), Mul(f, a.x3), Mul(F, a.x4),
       Mul(f, a.x5), Mul(F, a.x6), Mul(f, a.x7), Mul(F, a.x8), Mul(f, a.x9))
  }

  /** Even columns doubled. */
  ghost function Dbl(a: Fe): Fe {
    Fe(2 * a.x0, a.x1, 2 * a.x2, a.x3, 2 * a.x4, a.x5, 2 * a.x6, a.x7, 2 * a.x8, a.x9)
  }

  function Add(a: Fe, b: Fe): Fe {
    Fe(a.x0 + b.x0, a.x1 + b.x1, a.x2 + b.x2, a.x3 + b.x3, a.x4 + b.x4,
       a.x5 + b.x5, a.x6 + b.x6, a.x7 + b.x7, a.x8 + b.x8, a.x9 + b.x9)
  }

  /** Multiplying by the next weight moves every limb up one column; the one that falls off
      the end comes back nineteen times as large. */
  function Up(a: Fe): Fe {
    Fe(a.x9 * 19, a.x0, a.x1, a.x2, a.x3, a.x4, a.x5, a.x6, a.x7, a.x8)
  }

  lemma AddValue(a: Fe, b: Fe)
    ensures Value(Add(a, b)) == Value(a) + Value(b)
  {
  }

  lemma EvenRowValue(f: int, a: Fe)
    ensures Value(Row(f, f, a)) == f * Value(a)
  {
    Spread(f, a.x0, a.x1, a.x2, a.x3, a.x4, a.x5, a.x6, a.x7, a.x8, a.x9);
  }

  lemma OddRowValue(f: int, F: int, a: Fe)
    requires F == f * 2
    ensures Value(Row(f, F, a)) == f * Value(Dbl(a))
  {
    Spread(f, 2 * a.x0, a.x1, 2 * a.x2, a.x3, 2 * a.x4, a.x5, 2 * a.x6, a.x7, 2 * a.x8, a.x9);
    Double(f, F, a.x0);
    Double(f, F, a.x2);
    Double(f, F, a.x4);
    Double(f, F, a.x6);
    Double(f, F, a.x8);
  }

  lemma Double(f: int, F: int, a: int)
    requires F == f * 2
    ensures Mul(f, 2 * a) == Mul(F, a)
  {
    assert f * (2 * a) == (f * 2) * a;
  }

  lemma Spread(f: int, a0: int, a1: int, a2: int, a3: int, a4: int, a5: int, a6: int, a7: int, a8: int, a9: int)
    ensures f * Value(Fe(a0, a1, a2, a3, a4, a5, a6, a7, a8, a9))
         == Value(Fe(Mul(f, a0), Mul(f, a1), Mul(f, a2), Mul(f, a3), Mul(f, a4),
                     Mul(f, a5), Mul(f, a6), Mul(f, a7), Mul(f, a8), Mul(f, a9)))
  {
    MulTriple(f, a1, W1);
    MulTriple(f, a2, W2);
    MulTriple(f, a3, W3);
    MulTriple(f, a4, W4);
    MulTriple(f, a5, W5);
    MulTriple(f, a6, W6);
    MulTriple(f, a7, W7);
    MulTriple(f, a8, W8);
    MulTriple(f, a9, W9);
    SpreadSum(f, a0, a1 * W1, a2 * W2, a3 * W3, a4 * W4, a5 * W5, a6 * W6, a7 * W7, a8 * W8, a9 * W9);
  }

  lemma SpreadSum(f: int, a0: int, a1: int, a2: int, a3: int, a4: int, a5: int, a6: int, a7: int, a8: int, a9: int)
    ensures f * (a0 + a1 + a2 + a3 + a4 + a5 + a6 + a7 + a8 + a9)
         == f * a0 + f * a1 + f * a2 + f * a3 + f * a4 + f * a5 + f * a6 + f * a7 + f * a8 + f * a9
  {
  }

  /** A factor 2^51 moves the limbs two columns up, modulo 2^255 - 19. */
  lemma UpTwice(a: Fe)
    ensures Cong(W2 * Value(a), Value(Up(Up(a))), P)
  {
    var k := a.x8 + a.x9 * W1;
    assert W2 * Value(a) == Value(Up(Up(a))) + k * P;
    CongIntro(W2 * Value(a), Value(Up(Up(a))), k, P);
  }

  /** A factor 2^26 moves them one column up, and the even columns, whose limbs are one bit
      wider than those they came from, count double. */
  lemma UpOnce(a: Fe)
    ensures Cong(W1 * Value(a), Value(Dbl(Up(a))), P)
  {
    var k := 2 * a.x9;
    assert W1 * Value(a) == Value(Dbl(Up(a))) + k * P;
    CongIntro(W1 * Value(a), Value(Dbl(Up(a))), k, P);
  }

  lemma NextUp(w: int, w': int, v: int, a: Fe)
    requires w' == W2 * w && Cong(w * v, Value(a), P)
    ensures Cong(w' * v, Value(Up(Up(a))), P)
  {
    CongMul(w * v, Value(a), W2, W2, P);
    UpTwice(a);
    MulTriple(W2, w, v);
  }

  lemma EvenRowCong(f: int, w: int, v: int, a: Fe)
    requires Cong(w * v, Value(a), P)
    ensures Cong(Value(Row(f, f, a)), (f * w) * v, P)
  {
    EvenRowValue(f, a);
    CongMul(w * v, Value(a), f, f, P);
    MulTriple(f, w, v);
  }

  /** The odd row after an even one. */
  lemma OddRowCong(f: int, F: int, w: int, w': int, v: int, a: Fe)
    requires F == f * 2 && w' == W1 * w && Cong(w * v, Value(a), P)
    ensures Cong(Value(Row(f, F, Up(a))), (f * w') * v, P)
  {
    OddRowValue(f, F, Up(a));
    UpOnce(a);
    CongMul(w * v, Value(a), W1, W1, P);
    MulTriple(W1, w, v);
    CongMul(w' * v, Value(Dbl(Up(a))), f, f, P);
    MulTriple(f, w', v);
  }

  /** The sum of the ten rows. */
  ghost function Columns(f: Fe, g: Fe): Fe {
    var u2 := Up(Up(g));
    var u4 := Up(Up(u2));
    var u6 := Up(Up(u4));
    var u8 := Up(Up(u6));
    Add(Add(Add(Add(RowPair(f.x0, f.x1, g), RowPair(f.x2, f.x3, u2)),
                RowPair(f.x4, f.x5, u4)),
            RowPair(f.x6, f.x7, u6)),
        RowPair(f.x8, f.x9, u8))
  }

  ghost function RowPair(e: int, o: int, a: Fe): Fe {
    Add(Row(e, e, a), Row(o, o * 2, Up(a)))
  }

  lemma RowPairCong(e: int, o: int, w: int, w': int, v: int, a: Fe)
    requires w' == W1 * w && Cong(w * v, Value(a), P)
    ensures Cong(Value(RowPair(e, o, a)), (e * w) * v + (o * w') * v, P)
  {
    EvenRowCong(e, w, v, a);
    OddRowCong(o, o * 2, w, w', v, a);
    AddValue(Row(e, e, a), Row(o, o * 2, Up(a)));
    CongAdd(Value(Row(e, e, a)), (e * w) * v, Value(Row(o, o * 2, Up(a))), (o * w') * v, P);
  }

  /** The columns represent the product. */
  lemma ColumnsValue(f: Fe, g: Fe)
    ensures Cong(Value(Columns(f, g)), Value(f) * Value(g), P)
  {
    var v := Value(g);
    var u2 := Up(Up(g));
    var u4 := Up(Up(u2));
    var u6 := Up(Up(u4));
    var u8 := Up(Up(u6));
    NextUp(1, W2, v, g);
    NextUp(W2, W4, v, u2);
    NextUp(W4, W6, v, u4);
    NextUp(W6, W8, v, u6);
    RowPairCong(f.x0, f.x1, 1, W1, v, g);
    RowPairCong(f.x2, f.x3, W2, W3, v, u2);
    RowPairCong(f.x4, f.x5, W4, W5, v, u4);
    RowPairCong(f.x6, f.x7, W6, W7, v, u6);
    RowPairCong(f.x8, f.x9, W8, W9, v, u8);
    FiveCong(RowPair(f.x0, f.x1, g), RowPair(f.x2, f.x3, u2), RowPair(f.x4, f.x5, u4),
             RowPair(f.x6, f.x7, u6), RowPair(f.x8, f.x9, u8), f, v);
  }

  lemma FiveCong(a: Fe, b: Fe, c: Fe, d: Fe, e: Fe, f: Fe, v: int)
    requires Cong(Value(a), (f.x0 * 1) * v + (f.x1 * W1) * v, P)
    requires Cong(Value(b), (f.x2 * W2) * v + (f.x3 * W3) * v, P)
    requires Cong(Value(c), (f.x4 * W4) * v + (f.x5 * W5) * v, P)
    requires Cong(Value(d), (f.x6 * W6) * v + (f.x7 * W7) * v, P)
    requires Cong(Value(e), (f.x8 * W8) * v + (f.x9 * W9) * v, P)
    ensures Cong(Value(Add(Add(Add(Add(a, b), c), d), e)), Value(f) * v, P)
  {
    hide Cong, Add;
    AddValue(a, b);
    AddValue(Add(a, b), c);
    AddValue(Add(Add(a, b), c), d);
    AddValue(Add(Add(Add(a, b), c), d), e);
    ValueTimes(f, v);
    hide Value;
    SumCong(Value(a), Value(b), Value(c), Value(d), Value(e),
            (f.x0 * 1) * v + (f.x1 * W1) * v, (f.x2 * W2) * v + (f.x3 * W3) * v, (f.x4 * W4) * v + (f.x5 * W5) * v,
            (f.x6 * W6) * v + (f.x7 * W7) * v, (f.x8 * W8) * v + (f.x9 * W9) * v);
  }

  lemma ValueTimes(f: Fe, v: int)
    ensures Value(f) * v == ((f.x0 * 1) * v + (f.x1 * W1) * v) + ((f.x2 * W2) * v + (f.x3 * W3) * v)
                          + ((f.x4 * W4) * v + (f.x5 * W5) * v) + ((f.x6 * W6) * v + (f.x7 * W7) * v)
                          + ((f.x8 * W8) * v + (f.x9 * W9) * v)
  {
    Gather(f.x0 * 1, f.x1 * W1, f.x2 * W2, f.x3 * W3, f.x4 * W4, f.x5 * W5, f.x6 * W6, f.x7 * W7, f.x8 * W8, f.x9 * W9, v);
  }

  lemma SumCong(a: int, b: int, c: int, d: int, e: int, a': int, b': int, c': int, d': int, e': int)
    requires Cong(a, a', P) && Cong(b, b', P) && Cong(c, c', P) && Cong(d, d', P) && Cong(e, e', P)
    ensures Cong(a + b + c + d + e, a' + b' + c' + d' + e', P)
  {
    CongAdd(a, a', b, b', P);
    CongAdd(a + b, a' + b', c, c', P);
    CongAdd(a + b + c, a' + b' + c', d, d', P);
    CongAdd(a + b + c + d, a' + b' + c' + d', e, e', P);
  }

  lemma Gather(a0: int, a1: int, a2: int, a3: int, a4: int, a5: int, a6: int, a7: int, a8: int, a9: int, v: int)
    ensures (a0 + a1 + a2 + a3 + a4 + a5 + a6 + a7 + a8 + a9) * v
         == a0 * v + a1 * v + a2 * v + a3 * v + a4 * v + a5 * v + a6 * v + a7 * v + a8 * v + a9 * v
  {
  }

  // -------------------------------------------------------------------------------------
  // Bounds of the columns

  ghost predicate AllWithin(a: Fe, b: int) {
    Within(a.x0, b) && Within(a.x1, b) && Within(a.x2, b) && Within(a.x3, b) && Within(a.x4, b)
    && Within(a.x5, b) && Within(a.x6, b) && Within(a.x7, b) && Within(a.x8, b) && Within(a.x9, b)
  }

  // The largest product of a limb and a factor
  const PRODUCT_MAX: int := E_IN * (19 * E_IN)

  /** `a * (i64) b`: the product fits, with room for the sums it enters. */
  function Product(a: i32, b: i32): (p: i64)
    requires Within(a, 2 * E_IN) && Within(b, 19 * E_IN)
    ensures p == Mul(a, b) && Within(p, 2 * PRODUCT_MAX)
    ensures Within(a, E_IN) ==> Within(p, PRODUCT_MAX)
  {
    ProductFits(a, b);
    Mul(a, b)
  }

  lemma ProductFits(a: int, b: int)
    requires Within(a, 2 * E_IN) && Within(b, 19 * E_IN)
    ensures Within(Mul(a, b), 2 * PRODUCT_MAX)
    ensures Within(a, E_IN) ==> Within(Mul(a, b), PRODUCT_MAX)
  {
    hide Mul;
    AbsMul(a, b, 2 * E_IN, 19 * E_IN);
    if Within(a, E_IN) { AbsMul(a, b, E_IN, 19 * E_IN); }
  }

  /** One column of `fe_mul`, added up from left to right: every partial sum fits in an i64. */
  method Dot10(a0: i32, a1: i32, a2: i32, a3: i32, a4: i32, a5: i32, a6: i32, a7: i32, a8: i32, a9: i32,
               b0: i32, b1: i32, b2: i32, b3: i32, b4: i32, b5: i32, b6: i32, b7: i32, b8: i32, b9: i32) returns (t: i64)
    requires Within(a0, E_IN) && Within(a1, E_IN) && Within(a2, E_IN) && Within(a3, E_IN) && Within(a4, E_IN)
    requires Within(a5, E_IN) && Within(a6, E_IN) && Within(a7, E_IN) && Within(a8, E_IN) && Within(a9, E_IN)
    requires Within(b0, 19 * E_IN) && Within(b1, 19 * E_IN) && Within(b2, 19 * E_IN) && Within(b3, 19 * E_IN) && Within(b4, 19 * E_IN)
    requires Within(b5, 19 * E_IN) && Within(b6, 19 * E_IN) && Within(b7, 19 * E_IN) && Within(b8, 19 * E_IN) && Within(b9, 19 * E_IN)
    ensures t == Mul(a0, b0) + Mul(a1, b1) + Mul(a2, b2) + Mul(a3, b3) + Mul(a4, b4)
      + Mul(a5, b5) + Mul(a6, b6) + Mul(a7, b7) + Mul(a8, b8) + Mul(a9, b9)
    ensures Within(t, 0x3fff_ffff_ffff_ffff)
  {
    hide Mul;
    t := Product(a0, b0);
    t := t + Product(a1, b1);
    t := t + Product(a2, b2);
    t := t + Product(a3, b3);
    t := t + Product(a4, b4);
    t := t + Product(a5, b5);
    t := t + Product(a6, b6);
    t := t + Product(a7, b7);
    t := t + Product(a8, b8);
    t := t + Product(a9, b9);
  }

  /** A column of `fe_sq` with six terms, likewise. */
  method Dot6(a0: i32, a1: i32, a2: i32, a3: i32, a4: i32, a5: i32,
               b0: i32, b1: i32, b2: i32, b3: i32, b4: i32, b5: i32) returns (t: i64)
    requires Within(a0, 2 * E_IN) && Within(a1, 2 * E_IN) && Within(a2, 2 * E_IN) && Within(a3, 2 * E_IN) && Within(a4, 2 * E_IN)
    requires Within(a5, 2 * E_IN)
    requires Within(b0, 19 * E_IN) && Within(b1, 19 * E_IN) && Within(b2, 19 * E_IN) && Within(b3, 19 * E_IN) && Within(b4, 19 * E_IN)
    requires Within(b5, 19 * E_IN)
    ensures t == Mul(a0, b0) + Mul(a1, b1) + Mul(a2, b2) + Mul(a3, b3) + Mul(a4, b4)
      + Mul(a5, b5)
    ensures Within(t, 0x3fff_ffff_ffff_ffff)
  {
    hide Mul;
    t := Product(a0, b0);
    t := t + Product(a1, b1);
    t := t + Product(a2, b2);
    t := t + Product(a3, b3);
    t := t + Product(a4, b4);
    t := t + Product(a5, b5);
  }

  /** A column of `fe_sq` with five terms, likewise. */
  method Dot5(a0: i32, a1: i32, a2: i32, a3: i32, a4: i32,
               b0: i32, b1: i32, b2: i32, b3: i32, b4: i32) returns (t: i64)
    requires Within(a0, 2 * E_IN) && Within(a1, 2 * E_IN) && Within(a2, 2 * E_IN) && Within(a3, 2 * E_IN) && Within(a4, 2 * E_IN)
    requires Within(b0, 19 * E_IN) && Within(b1, 19 * E_IN) && Within(b2, 19 * E_IN) && Within(b3, 19 * E_IN) && Within(b4, 19 * E_IN)
    ensures t == Mul(a0, b0) + Mul(a1, b1) + Mul(a2, b2) + Mul(a3, b3) + Mul(a4, b4)
    ensures Within(t, 0x3fff_ffff_ffff_ffff)
  {
    hide Mul;
    t := Product(a0, b0);
    t := t + Product(a1, b1);
    t := t + Product(a2, b2);
    t := t + Product(a3, b3);
    t := t + Product(a4, b4);
  }

  /** `fe_mul` up to its carries: the ten columns. */
  method MulColumns(f: Fe, g: Fe) returns (t: Fe)
    requires Bounded(f, E_IN, O_IN) && Bounded(g, E_IN, O_IN)
    ensures AllWithin(t, 0x3fff_ffff_ffff_ffff)
    ensures Cong(Value(t), Value(f) * Value(g), P)
  {
    hide Mul, Columns, Value;
    var Fe(f0, f1, f2, f3, f4, f5, f6, f7, f8, f9) := f;
    var Fe(g0, g1, g2, g3, g4, g5, g6, g7, g8, g9) := g;
    var F1: i32 := f1 * 2;  var F3: i32 := f3 * 2;  var F5: i32 := f5 * 2;
    var F7: i32 := f7 * 2;  var F9: i32 := f9 * 2;
    var G1: i32 := g1 * 19;  var G2: i32 := g2 * 19;  var G3: i32 := g3 * 19;
    var G4: i32 := g4 * 19;  var G5: i32 := g5 * 19;  var G6: i32 := g6 * 19;
    var G7: i32 := g7 * 19;  var G8: i32 := g8 * 19;  var G9: i32 := g9 * 19;
    var t0 := Dot10(f0, F1, f2, F3, f4, F5, f6, F7, f8, F9,
      g0, G9, G8, G7, G6, G5, G4, G3, G2, G1);
    var t1 := Dot10(f0, f1, f2, f3, f4, f5, f6, f7, f8, f9,
      g1, g0, G9, G8, G7, G6, G5, G4, G3, G2);
    var t2 := Dot10(f0, F1, f2, F3, f4, F5, f6, F7, f8, F9,
      g2, g1, g0, G9, G8, G7, G6, G5, G4, G3);
    var t3 := Dot10(f0, f1, f2, f3, f4, f5, f6, f7, f8, f9,
      g3, g2, g1, g0, G9, G8, G7, G6, G5, G4);
    var t4 := Dot10(f0, F1, f2, F3, f4, F5, f6, F7, f8, F9,
      g4, g3, g2, g1, g0, G9, G8, G7, G6, G5);
    var t5 := Dot10(f0, f1, f2, f3, f4, f5, f6, f7, f8, f9,
      g5, g4, g3, g2, g1, g0, G9, G8, G7, G6);
    var t6 := Dot10(f0, F1, f2, F3, f4, F5, f6, F7, f8, F9,
      g6, g5, g4, g3, g2, g1, g0, G9, G8, G7);
    var t7 := Dot10(f0, f1, f2, f3, f4, f5, f6, f7, f8, f9,
      g7, g6, g5, g4, g3, g2, g1, g0, G9, G8);
    var t8 := Dot10(f0, F1, f2, F3, f4, F5, f6, F7, f8, F9,
      g8, g7, g6, g5, g4, g3, g2, g1, g0, G9);
    var t9 := Dot10(f0, f1, f2, f3, f4, f5, f6, f7, f8, f9,
      g9, g8, g7, g6, g5, g4, g3, g2, g1, g0);
    t := Fe(t0, t1, t2, t3, t4, t5, t6, t7, t8, t9);
    ColumnsAre(f, g, t, F1, F3, F5, F7, F9, G1, G2, G3, G4, G5, G6, G7, G8, G9);
    ColumnsValue(f, g);
  }

  lemma ColumnsAre(f: Fe, g: Fe, t: Fe, F1: int, F3: int, F5: int, F7: int, F9: int,
                   G1: int, G2: int, G3: int, G4: int, G5: int, G6: int, G7: int, G8: int, G9: int)
    requires F1 == f.x1 * 2 && F3 == f.x3 * 2 && F5 == f.x5 * 2 && F7 == f.x7 * 2 && F9 == f.x9 * 2
    requires G1 == g.x1 * 19 && G2 == g.x2 * 19 && G3 == g.x3 * 19 && G4 == g.x4 * 19 && G5 == g.x5 * 19
    requires G6 == g.x6 * 19 && G7 == g.x7 * 19 && G8 == g.x8 * 19 && G9 == g.x9 * 19
    requires t.x0 == Mul(f.x0, g.x0) + Mul(F1, G9) + Mul(f.x2, G8) + Mul(F3, G7) + Mul(f.x4, G6)
        + Mul(F5, G5) + Mul(f.x6, G4) + Mul(F7, G3) + Mul(f.x8, G2) + Mul(F9, G1)
    requires t.x1 == Mul(f.x0, g.x1) + Mul(f.x1, g.x0) + Mul(f.x2, G9) + Mul(f.x3, G8) + Mul(f.x4, G7)
        + Mul(f.x5, G6) + Mul(f.x6, G5) + Mul(f.x7, G4) + Mul(f.x8, G3) + Mul(f.x9, G2)
    requires t.x2 == Mul(f.x0, g.x2) + Mul(F1, g.x1) + Mul(f.x2, g.x0) + Mul(F3, G9) + Mul(f.x4, G8)
        + Mul(F5, G7) + Mul(f.x6, G6) + Mul(F7, G5) + Mul(f.x8, G4) + Mul(F9, G3)
    requires t.x3 == Mul(f.x0, g.x3) + Mul(f.x1, g.x2) + Mul(f.x2, g.x1) + Mul(f.x3, g.x0) + Mul(f.x4, G9)
        + Mul(f.x5, G8) + Mul(f.x6, G7) + Mul(f.x7, G6) + Mul(f.x8, G5) + Mul(f.x9, G4)
    requires t.x4 == Mul(f.x0, g.x4) + Mul(F1, g.x3) + Mul(f.x2, g.x2) + Mul(F3, g.x1) + Mul(f.x4, g.x0)
        + Mul(F5, G9) + Mul(f.x6, G8) + Mul(F7, G7) + Mul(f.x8, G6) + Mul(F9, G5)
    requires t.x5 == Mul(f.x0, g.x5) + Mul(f.x1, g.x4) + Mul(f.x2, g.x3) + Mul(f.x3, g.x2) + Mul(f.x4, g.x1)
        + Mul(f.x5, g.x0) + Mul(f.x6, G9) + Mul(f.x7, G8) + Mul(f.x8, G7) + Mul(f.x9, G6)
    requires t.x6 == Mul(f.x0, g.x6) + Mul(F1, g.x5) + Mul(f.x2, g.x4) + Mul(F3, g.x3) + Mul(f.x4, g.x2)
        + Mul(F5, g.x1) + Mul(f.x6, g.x0) + Mul(F7, G9) + Mul(f.x8, G8) + Mul(F9, G7)
    requires t.x7 == Mul(f.x0, g.x7) + Mul(f.x1, g.x6) + Mul(f.x2, g.x5) + Mul(f.x3, g.x4) + Mul(f.x4, g.x3)
        + Mul(f.x5, g.x2) + Mul(f.x6, g.x1) + Mul(f.x7, g.x0) + Mul(f.x8, G9) + Mul(f.x9, G8)
    requires t.x8 == Mul(f.x0, g.x8) + Mul(F1, g.x7) + Mul(f.x2, g.x6) + Mul(F3, g.x5) + Mul(f.x4, g.x4)
        + Mul(F5, g.x3) + Mul(f.x6, g.x2) + Mul(F7, g.x1) + Mul(f.x8, g.x0) + Mul(F9, G9)
    requires t.x9 == Mul(f.x0, g.x9) + Mul(f.x1, g.x8) + Mul(f.x2, g.x7) + Mul(f.x3, g.x6) + Mul(f.x4, g.x5)
        + Mul(f.x5, g.x4) + Mul(f.x6, g.x3) + Mul(f.x7, g.x2) + Mul(f.x8, g.x1) + Mul(f.x9, g.x0)
    ensures t == Columns(f, g)
  {
    var u1 := Up(g);
    var u2 := Up(u1);
    var u3 := Up(u2);
    var u4 := Up(u3);
    var u5 := Up(u4);
    var u6 := Up(u5);
    var u7 := Up(u6);
    var u8 := Up(u7);
    var u9 := Up(u8);
    assert u1 == Fe(G9, g.x0, g.x1, g.x2, g.x3, g.x4, g.x5, g.x6, g.x7, g.x8);
    assert u2 == Fe(G8, G9, g.x0, g.x1, g.x2, g.x3, g.x4, g.x5, g.x6, g.x7);
    assert u3 == Fe(G7, G8, G9, g.x0, g.x1, g.x2, g.x3, g.x4, g.x5, g.x6);
    assert u4 == Fe(G6, G7, G8, G9, g.x0, g.x1, g.x2, g.x3, g.x4, g.x5);
    assert u5 == Fe(G5, G6, G7, G8, G9, g.x0, g.x1, g.x2, g.x3, g.x4);
    assert u6 == Fe(G4, G5, G6, G7, G8, G9, g.x0, g.x1, g.x2, g.x3);
    assert u7 == Fe(G3, G4, G5, G6, G7, G8, G9, g.x0, g.x1, g.x2);
    assert u8 == Fe(G2, G3, G4, G5, G6, G7, G8, G9, g.x0, g.x1);
    assert u9 == Fe(G1, G2, G3, G4, G5, G6, G7, G8, G9, g.x0);
  }

  // -------------------------------------------------------------------------------------
  // FE_CARRY

  /** `(t + 2^25) >> 26`, the arithmetic shift: t rounded to a multiple of 2^26. */
  method Round26(t: i64) returns (c: i64)
    requires t + 0x200_0000 < 0x8000_0000_0000_0000
    ensures -0x200_0000 <= t - c * 0x400_0000 < 0x200_0000
    ensures -0x8000_0000_0000_0000 <= c * 0x400_0000 < 0x8000_0000_0000_0000
  {
    c := (t + 0x200_0000) / 0x400_0000;
  }

  /** `(t + 2^24) >> 25`. */
  method Round25(t: i64) returns (c: i64)
    requires t + 0x100_0000 < 0x8000_0000_0000_0000
    ensures -0x100_0000 <= t - c * 0x200_0000 < 0x100_0000
    ensures -0x8000_0000_0000_0000 <= c * 0x200_0000 < 0x8000_0000_0000_0000
  {
    c := (t + 0x100_0000) / 0x200_0000;
  }

  /** What FE_CARRY needs: the first addition of 2^25 must not overflow, and every other limb
      stays below 2^62. */
  ghost predicate CarryReady(t: Fe) {
    -0x8000_0000_0000_0000 <= t.x0 < 0x8000_0000_0000_0000 - 0x200_0000
    && Within(t.x1, 0x3fff_ffff_ffff_ffff) && Within(t.x2, 0x3fff_ffff_ffff_ffff) && Within(t.x3, 0x3fff_ffff_ffff_ffff)
    && Within(t.x4, 0x3fff_ffff_ffff_ffff) && Within(t.x5, 0x3fff_ffff_ffff_ffff) && Within(t.x6, 0x3fff_ffff_ffff_ffff)
    && Within(t.x7, 0x3fff_ffff_ffff_ffff) && Within(t.x8, 0x3fff_ffff_ffff_ffff) && Within(t.x9, 0x3fff_ffff_ffff_ffff)
  }

  /** The comment's bound |t0| < 2^63 is too weak: the first addition fits exactly below 2^63 - 2^25,
      and not for that number. */
  lemma FirstAddition(t0: i64)
    ensures t0 + 0x200_0000 < 0x8000_0000_0000_0000 <==> t0 < 0x7fff_ffff_fe00_0000
    ensures CarryReady(Fe(t0, 0, 0, 0, 0, 0, 0, 0, 0, 0)) <==> t0 + 0x200_0000 < 0x8000_0000_0000_0000
    ensures !CarryReady(Fe(0x7fff_ffff_fe00_0000, 0, 0, 0, 0, 0, 0, 0, 0, 0))
  {
  }

  /** FE_CARRY: brings the limbs back to their tight signed ranges; the value changes only by
      a multiple of 2^255 - 19. */
  method Carry(t: Fe) returns (h: Fe)
    requires CarryReady(t)
    ensures Bounded(h, E_OUT, O_OUT)
    ensures Cong(Value(h), Value(t), P)
  {
    var Fe(v0, v1, v2, v3, v4, v5, v6, v7, v8, v9) := t;
    var t0: i64, t1: i64, t2: i64, t3: i64, t4: i64 := v0, v1, v2, v3, v4;
    var t5: i64, t6: i64, t7: i64, t8: i64, t9: i64 := v5, v6, v7, v8, v9;
    var c: i64;
    c := Round26(t0);  t0 := t0 - c * 0x400_0000;  t1 := t1 + c;  ghost var c0 := c;
    c := Round26(t4);  t4 := t4 - c * 0x400_0000;  t5 := t5 + c;  ghost var c1 := c;
    c := Round25(t1);  t1 := t1 - c * 0x200_0000;  t2 := t2 + c;  ghost var c2 := c;
    c := Round25(t5);  t5 := t5 - c * 0x200_0000;  t6 := t6 + c;  ghost var c3 := c;
    c := Round26(t2);  t2 := t2 - c * 0x400_0000;  t3 := t3 + c;  ghost var c4 := c;
    c := Round26(t6);  t6 := t6 - c * 0x400_0000;  t7 := t7 + c;  ghost var c5 := c;
    c := Round25(t3);  t3 := t3 - c * 0x200_0000;  t4 := t4 + c;  ghost var c6 := c;
    c := Round25(t7);  t7 := t7 - c * 0x200_0000;  t8 := t8 + c;  ghost var c7 := c;
    c := Round26(t4);  t4 := t4 - c * 0x400_0000;  t5 := t5 + c;  ghost var c8 := c;
    c := Round26(t8);  t8 := t8 - c * 0x400_0000;  t9 := t9 + c;  ghost var c9 := c;
    c := Round25(t9);  t9 := t9 - c * 0x200_0000;  var c19: i64 := c * 19;  t0 := t0 + c19;  ghost var c10 := c;
    c := Round26(t0);  t0 := t0 - c * 0x400_0000;  t1 := t1 + c;  ghost var c11 := c;
    h := Fe(t0, t1, t2, t3, t4, t5, t6, t7, t8, t9);
    CarryValue(t, h, c0, c1, c2, c3, c4, c5, c6, c7, c8, c9, c10, c11);
  }

  /** Every carry moves a limb's excess into the next without changing the value, except the one
      out of limb 9, which trades 2^255 for 19. */
  lemma CarryValue(v: Fe, h: Fe, c0: int, c1: int, c2: int, c3: int, c4: int, c5: int, c6: int, c7: int, c8: int, c9: int, c10: int, c11: int)
    requires h.x0 == v.x0 - c0 * 0x400_0000 + c10 * 19 - c11 * 0x400_0000
    requires h.x1 == v.x1 + c0 - c2 * 0x200_0000 + c11
    requires h.x2 == v.x2 + c2 - c4 * 0x400_0000
    requires h.x3 == v.x3 + c4 - c6 * 0x200_0000
    requires h.x4 == v.x4 - c1 * 0x400_0000 + c6 - c8 * 0x400_0000
    requires h.x5 == v.x5 + c1 - c3 * 0x200_0000 + c8
    requires h.x6 == v.x6 + c3 - c5 * 0x400_0000
    requires h.x7 == v.x7 + c5 - c7 * 0x200_0000
    requires h.x8 == v.x8 + c7 - c9 * 0x400_0000
    requires h.x9 == v.x9 + c9 - c10 * 0x200_0000
    ensures Cong(Value(h), Value(v), P)
  {
    assert Value(v) == Value(h) + c10 * P;
    CongIntro(Value(v), Value(h), c10, P);
  }

  /** `fe_sq` up to its carries: each cross product is computed once and doubled. */
  method SqColumns(f: Fe) returns (t: Fe)
    requires Bounded(f, E_IN, O_IN)
    ensures AllWithin(t, 0x3fff_ffff_ffff_ffff)
    ensures Cong(Value(t), Value(f) * Value(f), P)
  {
    hide Mul, Columns, Value;
    var Fe(f0, f1, f2, f3, f4, f5, f6, f7, f8, f9) := f;
    var f0_2: i32 := f0 * 2;  var f1_2: i32 := f1 * 2;  var f2_2: i32 := f2 * 2;  var f3_2: i32 := f3 * 2;
    var f4_2: i32 := f4 * 2;  var f5_2: i32 := f5 * 2;  var f6_2: i32 := f6 * 2;  var f7_2: i32 := f7 * 2;
    var f5_38: i32 := f5 * 38;  var f6_19: i32 := f6 * 19;  var f7_38: i32 := f7 * 38;
    var f8_19: i32 := f8 * 19;  var f9_38: i32 := f9 * 38;
    var t0 := Dot6(f0, f1_2, f2_2, f3_2, f4_2, f5,
      f0, f9_38, f8_19, f7_38, f6_19, f5_38);
    var t1 := Dot5(f0_2, f2, f3_2, f4, f5_2,
      f1, f9_38, f8_19, f7_38, f6_19);
    var t2 := Dot6(f0_2, f1_2, f3_2, f4_2, f5_2, f6,
      f2, f1, f9_38, f8_19, f7_38, f6_19);
    var t3 := Dot5(f0_2, f1_2, f4, f5_2, f6,
      f3, f2, f9_38, f8_19, f7_38);
    var t4 := Dot6(f0_2, f1_2, f2, f5_2, f6_2, f7,
      f4, f3_2, f2, f9_38, f8_19, f7_38);
    var t5 := Dot5(f0_2, f1_2, f2_2, f6, f7_2,
      f5, f4, f3, f9_38, f8_19);
    var t6 := Dot6(f0_2, f1_2, f2_2, f3_2, f7_2, f8,
      f6, f5_2, f4, f3, f9_38, f8_19);
    var t7 := Dot5(f0_2, f1_2, f2_2, f3_2, f8,
      f7, f6, f5, f4, f9_38);
    var t8 := Dot6(f0_2, f1_2, f2_2, f3_2, f4, f9,
      f8, f7_2, f6, f5_2, f4, f9_38);
    var t9 := Dot5(f0_2, f1_2, f2_2, f3_2, f4,
      f9, f8, f7, f6, f5_2);
    t := Fe(t0, t1, t2, t3, t4, t5, t6, t7, t8, t9);
    SquareAre(f, t, f0_2, f1_2, f2_2, f3_2, f4_2, f5_2, f6_2, f7_2, f5_38, f6_19, f7_38, f8_19, f9_38);
    ColumnsValue(f, f);
  }

  lemma SquareAre(f: Fe, t: Fe, f0_2: int, f1_2: int, f2_2: int, f3_2: int, f4_2: int, f5_2: int, f6_2: int, f7_2: int,
                  f5_38: int, f6_19: int, f7_38: int, f8_19: int, f9_38: int)
    requires f0_2 == f.x0 * 2 && f1_2 == f.x1 * 2 && f2_2 == f.x2 * 2 && f3_2 == f.x3 * 2 && f4_2 == f.x4 * 2
    requires f5_2 == f.x5 * 2 && f6_2 == f.x6 * 2 && f7_2 == f.x7 * 2
    requires f5_38 == f.x5 * 38 && f6_19 == f.x6 * 19 && f7_38 == f.x7 * 38 && f8_19 == f.x8 * 19 && f9_38 == f.x9 * 38
    requires t.x0 == Mul(f.x0, f.x0) + Mul(f1_2, f9_38) + Mul(f2_2, f8_19) + Mul(f3_2, f7_38) + Mul(f4_2, f6_19) + Mul(f.x5, f5_38)
    requires t.x1 == Mul(f0_2, f.x1) + Mul(f.x2, f9_38) + Mul(f3_2, f8_19) + Mul(f.x4, f7_38) + Mul(f5_2, f6_19)
    requires t.x2 == Mul(f0_2, f.x2) + Mul(f1_2, f.x1) + Mul(f3_2, f9_38) + Mul(f4_2, f8_19) + Mul(f5_2, f7_38) + Mul(f.x6, f6_19)
    requires t.x3 == Mul(f0_2, f.x3) + Mul(f1_2, f.x2) + Mul(f.x4, f9_38) + Mul(f5_2, f8_19) + Mul(f.x6, f7_38)
    requires t.x4 == Mul(f0_2, f.x4) + Mul(f1_2, f3_2) + Mul(f.x2, f.x2) + Mul(f5_2, f9_38) + Mul(f6_2, f8_19) + Mul(f.x7, f7_38)
    requires t.x5 == Mul(f0_2, f.x5) + Mul(f1_2, f.x4) + Mul(f2_2, f.x3) + Mul(f.x6, f9_38) + Mul(f7_2, f8_19)
    requires t.x6 == Mul(f0_2, f.x6) + Mul(f1_2, f5_2) + Mul(f2_2, f.x4) + Mul(f3_2, f.x3) + Mul(f7_2, f9_38) + Mul(f.x8, f8_19)
    requires t.x7 == Mul(f0_2, f.x7) + Mul(f1_2, f.x6) + Mul(f2_2, f.x5) + Mul(f3_2, f.x4) + Mul(f.x8, f9_38)
    requires t.x8 == Mul(f0_2, f.x8) + Mul(f1_2, f7_2) + Mul(f2_2, f.x6) + Mul(f3_2, f5_2) + Mul(f.x4, f.x4) + Mul(f.x9, f9_38)
    requires t.x9 == Mul(f0_2, f.x9) + Mul(f1_2, f.x8) + Mul(f2_2, f.x7) + Mul(f3_2, f.x6) + Mul(f.x4, f5_2)
    ensures t == Columns(f, f)
  {
    var u := ColumnsOf(f);
    Square0(f);
    Square1(f);
    Square2(f);
    Square3(f);
    Square4(f);
    Square5(f);
    Square6(f);
    Square7(f);
    Square8(f);
    Square9(f);
  }

  /** The columns of f against itself, written out. */
  ghost function ColumnsOf(f: Fe): (t: Fe)
    ensures t == Columns(f, f)
  {
    var t := Fe(Mul(f.x0, f.x0) + Mul(f.x1 * 2, f.x9 * 19) + Mul(f.x2, f.x8 * 19) + Mul(f.x3 * 2, f.x7 * 19) + Mul(f.x4, f.x6 * 19)
        + Mul(f.x5 * 2, f.x5 * 19) + Mul(f.x6, f.x4 * 19) + Mul(f.x7 * 2, f.x3 * 19) + Mul(f.x8, f.x2 * 19) + Mul(f.x9 * 2, f.x1 * 19),
      Mul(f.x0, f.x1) + Mul(f.x1, f.x0) + Mul(f.x2, f.x9 * 19) + Mul(f.x3, f.x8 * 19) + Mul(f.x4, f.x7 * 19)
        + Mul(f.x5, f.x6 * 19) + Mul(f.x6, f.x5 * 19) + Mul(f.x7, f.x4 * 19) + Mul(f.x8, f.x3 * 19) + Mul(f.x9, f.x2 * 19),
      Mul(f.x0, f.x2) + Mul(f.x1 * 2, f.x1) + Mul(f.x2, f.x0) + Mul(f.x3 * 2, f.x9 * 19) + Mul(f.x4, f.x8 * 19)
        + Mul(f.x5 * 2, f.x7 * 19) + Mul(f.x6, f.x6 * 19) + Mul(f.x7 * 2, f.x5 * 19) + Mul(f.x8, f.x4 * 19) + Mul(f.x9 * 2, f.x3 * 19),
      Mul(f.x0, f.x3) + Mul(f.x1, f.x2) + Mul(f.x2, f.x1) + Mul(f.x3, f.x0) + Mul(f.x4, f.x9 * 19)
        + Mul(f.x5, f.x8 * 19) + Mul(f.x6, f.x7 * 19) + Mul(f.x7, f.x6 * 19) + Mul(f.x8, f.x5 * 19) + Mul(f.x9, f.x4 * 19),
      Mul(f.x0, f.x4) + Mul(f.x1 * 2, f.x3) + Mul(f.x2, f.x2) + Mul(f.x3 * 2, f.x1) + Mul(f.x4, f.x0)
        + Mul(f.x5 * 2, f.x9 * 19) + Mul(f.x6, f.x8 * 19) + Mul(f.x7 * 2, f.x7 * 19) + Mul(f.x8, f.x6 * 19) + Mul(f.x9 * 2, f.x5 * 19),
      Mul(f.x0, f.x5) + Mul(f.x1, f.x4) + Mul(f.x2, f.x3) + Mul(f.x3, f.x2) + Mul(f.x4, f.x1)
        + Mul(f.x5, f.x0) + Mul(f.x6, f.x9 * 19) + Mul(f.x7, f.x8 * 19) + Mul(f.x8, f.x7 * 19) + Mul(f.x9, f.x6 * 19),
      Mul(f.x0, f.x6) + Mul(f.x1 * 2, f.x5) + Mul(f.x2, f.x4) + Mul(f.x3 * 2, f.x3) + Mul(f.x4, f.x2)
        + Mul(f.x5 * 2, f.x1) + Mul(f.x6, f.x0) + Mul(f.x7 * 2, f.x9 * 19) + Mul(f.x8, f.x8 * 19) + Mul(f.x9 * 2, f.x7 * 19),
      Mul(f.x0, f.x7) + Mul(f.x1, f.x6) + Mul(f.x2, f.x5) + Mul(f.x3, f.x4) + Mul(f.x4, f.x3)
        + Mul(f.x5, f.x2) + Mul(f.x6, f.x1) + Mul(f.x7, f.x0) + Mul(f.x8, f.x9 * 19) + Mul(f.x9, f.x8 * 19),
      Mul(f.x0, f.x8) + Mul(f.x1 * 2, f.x7) + Mul(f.x2, f.x6) + Mul(f.x3 * 2, f.x5) + Mul(f.x4, f.x4)
        + Mul(f.x5 * 2, f.x3) + Mul(f.x6, f.x2) + Mul(f.x7 * 2, f.x1) + Mul(f.x8, f.x0) + Mul(f.x9 * 2, f.x9 * 19),
      Mul(f.x0, f.x9) + Mul(f.x1, f.x8) + Mul(f.x2, f.x7) + Mul(f.x3, f.x6) + Mul(f.x4, f.x5)
        + Mul(f.x5, f.x4) + Mul(f.x6, f.x3) + Mul(f.x7, f.x2) + Mul(f.x8, f.x1) + Mul(f.x9, f.x0));
    ColumnsAre(f, f, t, f.x1 * 2, f.x3 * 2, f.x5 * 2, f.x7 * 2, f.x9 * 2,
               f.x1 * 19, f.x2 * 19, f.x3 * 19, f.x4 * 19, f.x5 * 19, f.x6 * 19, f.x7 * 19, f.x8 * 19, f.x9 * 19);
    t
  }

  lemma Square0(f: Fe)
    ensures Mul(f.x0, f.x0) + Mul(f.x1 * 2, f.x9 * 38) + Mul(f.x2 * 2, f.x8 * 19) + Mul(f.x3 * 2, f.x7 * 38) + Mul(f.x4 * 2, f.x6 * 19) + Mul(f.x5, f.x5 * 38)
         == Mul(f.x0, f.x0) + Mul(f.x1 * 2, f.x9 * 19) + Mul(f.x2, f.x8 * 19) + Mul(f.x3 * 2, f.x7 * 19) + Mul(f.x4, f.x6 * 19)
          + Mul(f.x5 * 2, f.x5 * 19) + Mul(f.x6, f.x4 * 19) + Mul(f.x7 * 2, f.x3 * 19) + Mul(f.x8, f.x2 * 19) + Mul(f.x9 * 2, f.x1 * 19)
  {
  }

  lemma Square1(f: Fe)
    ensures Mul(f.x0 * 2, f.x1) + Mul(f.x2, f.x9 * 38) + Mul(f.x3 * 2, f.x8 * 19) + Mul(f.x4, f.x7 * 38) + Mul(f.x5 * 2, f.x6 * 19)
         == Mul(f.x0, f.x1) + Mul(f.x1, f.x0) + Mul(f.x2, f.x9 * 19) + Mul(f.x3, f.x8 * 19) + Mul(f.x4, f.x7 * 19)
          + Mul(f.x5, f.x6 * 19) + Mul(f.x6, f.x5 * 19) + Mul(f.x7, f.x4 * 19) + Mul(f.x8, f.x3 * 19) + Mul(f.x9, f.x2 * 19)
  {
  }

  lemma Square2(f: Fe)
    ensures Mul(f.x0 * 2, f.x2) + Mul(f.x1 * 2, f.x1) + Mul(f.x3 * 2, f.x9 * 38) + Mul(f.x4 * 2, f.x8 * 19) + Mul(f.x5 * 2, f.x7 * 38) + Mul(f.x6, f.x6 * 19)
         == Mul(f.x0, f.x2) + Mul(f.x1 * 2, f.x1) + Mul(f.x2, f.x0) + Mul(f.x3 * 2, f.x9 * 19) + Mul(f.x4, f.x8 * 19)
          + Mul(f.x5 * 2, f.x7 * 19) + Mul(f.x6, f.x6 * 19) + Mul(f.x7 * 2, f.x5 * 19) + Mul(f.x8, f.x4 * 19) + Mul(f.x9 * 2, f.x3 * 19)
  {
  }

  lemma Square3(f: Fe)
    ensures Mul(f.x0 * 2, f.x3) + Mul(f.x1 * 2, f.x2) + Mul(f.x4, f.x9 * 38) + Mul(f.x5 * 2, f.x8 * 19) + Mul(f.x6, f.x7 * 38)
         == Mul(f.x0, f.x3) + Mul(f.x1, f.x2) + Mul(f.x2, f.x1) + Mul(f.x3, f.x0) + Mul(f.x4, f.x9 * 19)
          + Mul(f.x5, f.x8 * 19) + Mul(f.x6, f.x7 * 19) + Mul(f.x7, f.x6 * 19) + Mul(f.x8, f.x5 * 19) + Mul(f.x9, f.x4 * 19)
  {
  }

  lemma Square4(f: Fe)
    ensures Mul(f.x0 * 2, f.x4) + Mul(f.x1 * 2, f.x3 * 2) + Mul(f.x2, f.x2) + Mul(f.x5 * 2, f.x9 * 38) + Mul(f.x6 * 2, f.x8 * 19) + Mul(f.x7, f.x7 * 38)
         == Mul(f.x0, f.x4) + Mul(f.x1 * 2, f.x3) + Mul(f.x2, f.x2) + Mul(f.x3 * 2, f.x1) + Mul(f.x4, f.x0)
          + Mul(f.x5 * 2, f.x9 * 19) + Mul(f.x6, f.x8 * 19) + Mul(f.x7 * 2, f.x7 * 19) + Mul(f.x8, f.x6 * 19) + Mul(f.x9 * 2, f.x5 * 19)
  {
  }

  lemma Square5(f: Fe)
    ensures Mul(f.x0 * 2, f.x5) + Mul(f.x1 * 2, f.x4) + Mul(f.x2 * 2, f.x3) + Mul(f.x6, f.x9 * 38) + Mul(f.x7 * 2, f.x8 * 19)
         == Mul(f.x0, f.x5) + Mul(f.x1, f.x4) + Mul(f.x2, f.x3) + Mul(f.x3, f.x2) + Mul(f.x4, f.x1)
          + Mul(f.x5, f.x0) + Mul(f.x6, f.x9 * 19) + Mul(f.x7, f.x8 * 19) + Mul(f.x8, f.x7 * 19) + Mul(f.x9, f.x6 * 19)
  {
  }

  lemma Square6(f: Fe)
    ensures Mul(f.x0 * 2, f.x6) + Mul(f.x1 * 2, f.x5 * 2) + Mul(f.x2 * 2, f.x4) + Mul(f.x3 * 2, f.x3) + Mul(f.x7 * 2, f.x9 * 38) + Mul(f.x8, f.x8 * 19)
         == Mul(f.x0, f.x6) + Mul(f.x1 * 2, f.x5) + Mul(f.x2, f.x4) + Mul(f.x3 * 2, f.x3) + Mul(f.x4, f.x2)
          + Mul(f.x5 * 2, f.x1) + Mul(f.x6, f.x0) + Mul(f.x7 * 2, f.x9 * 19) + Mul(f.x8, f.x8 * 19) + Mul(f.x9 * 2, f.x7 * 19)
  {
  }

  lemma Square7(f: Fe)
    ensures Mul(f.x0 * 2, f.x7) + Mul(f.x1 * 2, f.x6) + Mul(f.x2 * 2, f.x5) + Mul(f.x3 * 2, f.x4) + Mul(f.x8, f.x9 * 38)
         == Mul(f.x0, f.x7) + Mul(f.x1, f.x6) + Mul(f.x2, f.x5) + Mul(f.x3, f.x4) + Mul(f.x4, f.x3)
          + Mul(f.x5, f.x2) + Mul(f.x6, f.x1) + Mul(f.x7, f.x0) + Mul(f.x8, f.x9 * 19) + Mul(f.x9, f.x8 * 19)
  {
  }

  lemma Square8(f: Fe)
    ensures Mul(f.x0 * 2, f.x8) + Mul(f.x1 * 2, f.x7 * 2) + Mul(f.x2 * 2, f.x6) + Mul(f.x3 * 2, f.x5 * 2) + Mul(f.x4, f.x4) + Mul(f.x9, f.x9 * 38)
         == Mul(f.x0, f.x8) + Mul(f.x1 * 2, f.x7) + Mul(f.x2, f.x6) + Mul(f.x3 * 2, f.x5) + Mul(f.x4, f.x4)
          + Mul(f.x5 * 2, f.x3) + Mul(f.x6, f.x2) + Mul(f.x7 * 2, f.x1) + Mul(f.x8, f.x0) + Mul(f.x9 * 2, f.x9 * 19)
  {
  }

  lemma Square9(f: Fe)
    ensures Mul(f.x0 * 2, f.x9) + Mul(f.x1 * 2, f.x8) + Mul(f.x2 * 2, f.x7) + Mul(f.x3 * 2, f.x6) + Mul(f.x4, f.x5 * 2)
         == Mul(f.x0, f.x9) + Mul(f.x1, f.x8) + Mul(f.x2, f.x7) + Mul(f.x3, f.x6) + Mul(f.x4, f.x5)
          + Mul(f.x5, f.x4) + Mul(f.x6, f.x3) + Mul(f.x7, f.x2) + Mul(f.x8, f.x1) + Mul(f.x9, f.x0)
  {
  }

  // -------------------------------------------------------------------------------------
  // The operations on limb arrays

  function Read(a: array<i32>): Fe
    requires a.Length == 10
    reads a
  {
    Fe(a[0], a[1], a[2], a[3], a[4], a[5], a[6], a[7], a[8], a[9])
  }

  method Write(h: array<i32>, v: Fe)
    requires h.Length == 10 && Bounded(v, E_OUT, O_OUT)
    modifies h
    ensures Read(h) == v
  {
    h[0], h[1], h[2], h[3], h[4] := v.x0, v.x1, v.x2, v.x3, v.x4;
    h[5], h[6], h[7], h[8], h[9] := v.x5, v.x6, v.x7, v.x8, v.x9;
  }

  /** `fe_mul`; h may be f or g. */
  method FeMul(h: array<i32>, f: array<i32>, g: array<i32>)
    requires h.Length == 10 && f.Length == 10 && g.Length == 10
    requires Bounded(Read(f), E_IN, O_IN) && Bounded(Read(g), E_IN, O_IN)
    modifies h
    ensures Bounded(Read(h), E_OUT, O_OUT)
    ensures Cong(Value(Read(h)), old(Value(Read(f))) * old(Value(Read(g))), P)
  {
    var t := MulColumns(Read(f), Read(g));
    var v := Carry(t);
    Write(h, v);
  }

  /** `fe_sq`; h may be f. */
  method FeSq(h: array<i32>, f: array<i32>)
    requires h.Length == 10 && f.Length == 10
    requires Bounded(Read(f), E_IN, O_IN)
    modifies h
    ensures Bounded(Read(h), E_OUT, O_OUT)
    ensures Cong(Value(Read(h)), old(Value(Read(f))) * old(Value(Read(f))), P)
  {
    var t := SqColumns(Read(f));
    var v := Carry(t);
    Write(h, v);
  }

  function Load24(a: u8, b: u8, c: u8): (r: int)
    ensures 0 <= r < 0x100_0000
  {
    a + 0x100 * b + 0x1_0000 * c
  }

  lemma ByteVal3(s: seq<u8>)
    requires |s| >= 3
    ensures ByteVal(s) == Load24(s[0], s[1], s[2]) + 0x100_0000 * ByteVal(s[3..])
  {
    assert s[1..][1..] == s[2..] && s[2..][1..] == s[3..];
    assert ByteVal(s) == s[0] + 256 * ByteVal(s[1..]) && ByteVal(s[1..]) == s[1] + 256 * ByteVal(s[2..]);
    assert ByteVal(s[2..]) == s[2] + 256 * ByteVal(s[3..]);
  }

  /** The ten groups of three or four bytes `fe_frombytes_mask` loads. */
  lemma HighGroups(s: seq<u8>)
    requires |s| == 32
    ensures ByteVal(s[16..]) == Load32(s[16], s[17], s[18], s[19])
         + BASE * (Load24(s[20], s[21], s[22]) + TWO_24 * (Load24(s[23], s[24], s[25])
                   + TWO_24 * (Load24(s[26], s[27], s[28]) + TWO_24 * Load24(s[29], s[30], s[31]))))
  {
    ByteVal4(s[16..]);
    assert s[16..][4..] == s[20..];
    ByteVal3(s[20..]);
    assert s[20..][3..] == s[23..];
    ByteVal3(s[23..]);
    assert s[23..][3..] == s[26..];
    ByteVal3(s[26..]);
    assert s[26..][3..] == s[29..];
    ByteVal3(s[29..]);
    assert s[29..][3..] == s[32..];
    assert s[32..] == [];
  }

  lemma LowerGroups(s: seq<u8>)
    requires |s| == 32
    ensures ByteVal(s) == Load32(s[0], s[1], s[2], s[3])
         + BASE * (Load24(s[4], s[5], s[6]) + TWO_24 * (Load24(s[7], s[8], s[9])
                   + TWO_24 * (Load24(s[10], s[11], s[12]) + TWO_24 * (Load24(s[13], s[14], s[15]) + TWO_24 * ByteVal(s[16..])))))
  {
    ByteVal4(s);
    ByteVal3(s[4..]);
    assert s[4..][3..] == s[7..];
    ByteVal3(s[7..]);
    assert s[7..][3..] == s[10..];
    ByteVal3(s[10..]);
    assert s[10..][3..] == s[13..];
    ByteVal3(s[13..]);
    assert s[13..][3..] == s[16..];
  }

  lemma ByteGroups(s: seq<u8>)
    requires |s| == 32
    ensures ByteVal(s) == LowGroups(s) + Load24(s[29], s[30], s[31]) * TWO_232
  {
    hide ByteVal, Load32, Load24;
    LowerGroups(s);
    HighGroups(s);
  }

  const TWO_232: int := 0x10000000000000000000000000000000000000000000000000000000000
  const TWO_24: int := 0x100_0000

  /** Everything below the last three bytes. */
  ghost function LowGroups(s: seq<u8>): int
    requires |s| == 32
  {
    Load32(s[0], s[1], s[2], s[3]) as int
    + Load24(s[4], s[5], s[6]) * 0x100000000
    + Load24(s[7], s[8], s[9]) * 0x100000000000000
    + Load24(s[10], s[11], s[12]) * 0x100000000000000000000
    + Load24(s[13], s[14], s[15]) * 0x100000000000000000000000000
    + Load32(s[16], s[17], s[18], s[19]) as int * 0x100000000000000000000000000000000
    + Load24(s[20], s[21], s[22]) * 0x10000000000000000000000000000000000000000
    + Load24(s[23], s[24], s[25]) * 0x10000000000000000000000000000000000000000000000
    + Load24(s[26], s[27], s[28]) * 0x10000000000000000000000000000000000000000000000000000
  }

  /** `fe_frombytes_mask`: the little-endian number with its top nb_mask bits ignored. */
  method FromBytesMask(h: array<i32>, s: seq<u8>, nb_mask: nat)
    requires h.Length == 10 && |s| == 32 && nb_mask <= 24
    modifies h
    ensures Bounded(Read(h), E_OUT, O_OUT)
    ensures Cong(Value(Read(h)), ByteVal(s) % Pow2(256 - nb_mask), P)
  {
    var t := Unpack(s, nb_mask);
    var v := Carry(t);
    Write(h, v);
  }

  /** The ten loads of `fe_frombytes_mask`. */
  method Unpack(s: seq<u8>, nb_mask: nat) returns (t: Fe)
    requires |s| == 32 && nb_mask <= 24
    ensures CarryReady(t) && Value(t) == ByteVal(s) % Pow2(256 - nb_mask)
  {
    var range := Pow2(24 - nb_mask);
    var top := Load24(s[29], s[30], s[31]) % range;
    MaskBound(nb_mask, top);
    var t0: i64 := Load32(s[0], s[1], s[2], s[3]);
    var t1: i64 := Load24(s[4], s[5], s[6]) * 0x40;
    var t2: i64 := Load24(s[7], s[8], s[9]) * 0x20;
    var t3: i64 := Load24(s[10], s[11], s[12]) * 0x8;
    var t4: i64 := Load24(s[13], s[14], s[15]) * 0x4;
    var t5: i64 := Load32(s[16], s[17], s[18], s[19]);
    var t6: i64 := Load24(s[20], s[21], s[22]) * 0x80;
    var t7: i64 := Load24(s[23], s[24], s[25]) * 0x20;
    var t8: i64 := Load24(s[26], s[27], s[28]) * 0x10;
    var t9: i64 := top * 0x4;
    t := Fe(t0, t1, t2, t3, t4, t5, t6, t7, t8, t9);
    MaskValue(s, nb_mask, top);
  }

  lemma MaskBound(nb_mask: nat, top: int)
    requires nb_mask <= 24 && top < Pow2(24 - nb_mask)
    ensures top < 0x100_0000
  {
    Pow2Monotone(24 - nb_mask, 24);
    Pow2Twenty4();
  }

  lemma Pow2Twenty4()
    ensures Pow2(24) == TWO_24 && Pow2(232) == TWO_232
  {
    Pow2Values();
    Pow2Add(8, 8);
    Pow2Add(16, 8);
    Pow2Bytes(29);
    Pow256Literal();
    assert Pow256(29) * 0x100_0000 == Pow256(32) by {
      assert Pow256(32) == 256 * Pow256(31) && Pow256(31) == 256 * Pow256(30) && Pow256(30) == 256 * Pow256(29);
    }
  }

  /** Masking the last group ignores the top bits of the whole number. */
  lemma MaskValue(s: seq<u8>, nb_mask: nat, top: int)
    requires |s| == 32 && nb_mask <= 24 && top == Load24(s[29], s[30], s[31]) % Pow2(24 - nb_mask)
    ensures LowGroups(s) + top * TWO_232 == ByteVal(s) % Pow2(256 - nb_mask)
  {
    ByteGroups(s);
    LowGroupsBound(s);
    MaskModulus(nb_mask);
    var full, range := Load24(s[29], s[30], s[31]), Pow2(24 - nb_mask);
    DivModSum(full, range);
    MaskArith(ByteVal(s), LowGroups(s), full, range, full / range, top, TWO_232, Pow2(256 - nb_mask));
  }

  lemma MaskModulus(nb_mask: nat)
    requires nb_mask <= 24
    ensures Pow2(256 - nb_mask) == TWO_232 * Pow2(24 - nb_mask)
  {
    Pow2Twenty4();
    Pow2Add(232, 24 - nb_mask);
  }

  lemma DivModSum(a: int, m: int)
    requires m >= 1
    ensures a == a / m * m + a % m && 0 <= a % m < m
  {
  }

  lemma LowGroupsBound(s: seq<u8>)
    requires |s| == 32
    ensures 0 <= LowGroups(s) < TWO_232
  {
  }

  lemma MaskArith(v: int, low: int, full: int, range: int, q: int, top: int, w: int, m: int)
    requires 0 <= low < w && range >= 1 && full == q * range + top && 0 <= top < range && v == low + full * w
    requires m == w * range
    ensures v % m == low + top * w
  {
    calc {
      full * w;
      (q * range + top) * w;
      (q * range) * w + top * w;
      { MulTriple(q, range, w); assert range * w == m; }
      q * m + top * w;
    }
    MulMono(top, range - 1, w);
    MulMono(0, top, w);
    assert (range - 1) * w == m - w;
    MulMono(1, range, w);
    DivModUnique(v, m, q, low + top * w);
  }

  // -------------------------------------------------------------------------------------
  // fe_tobytes

  ghost function P51(i: nat): (r: int)
    ensures r >= 1
  {
    if i == 0 then 1 else W2 * P51(i - 1)
  }

  /** The value of the first 2*i limbs. */
  ghost function Low(t: seq<int>, i: nat): int
    requires 2 * i <= |t|
  {
    if i == 0 then 0 else Low(t, i - 1) + (t[2 * i - 2] + t[2 * i - 1] * W1) * P51(i - 1)
  }

  lemma LowIsValue(t: seq<int>)
    requires |t| == 10
    ensures Low(t, 5) == Value(Fe(t[0], t[1], t[2], t[3], t[4], t[5], t[6], t[7], t[8], t[9]))
    ensures P51(5) == P + 19
  {
    assert P51(1) == W2 && P51(2) == W4 && P51(3) == W6 && P51(4) == W8;
    assert Low(t, 1) == t[0] + t[1] * W1;
    assert Low(t, 2) == Low(t, 1) + (t[2] + t[3] * W1) * W2;
    assert Low(t, 3) == Low(t, 2) + (t[4] + t[5] * W1) * W4;
    assert Low(t, 4) == Low(t, 3) + (t[6] + t[7] * W1) * W6;
    assert Low(t, 5) == Low(t, 4) + (t[8] + t[9] * W1) * W8;
  }

  lemma {:induction false} LowSame(s: seq<int>, t: seq<int>, i: nat)
    requires 2 * i <= |s| && 2 * i <= |t| && s[..2 * i] == t[..2 * i]
    ensures Low(s, i) == Low(t, i)
  {
    if i > 0 {
      assert s[2 * i - 2] == s[..2 * i][2 * i - 2] && s[2 * i - 1] == s[..2 * i][2 * i - 1];
      assert t[2 * i - 2] == t[..2 * i][2 * i - 2] && t[2 * i - 1] == t[..2 * i][2 * i - 1];
      assert s[..2 * (i - 1)] == s[..2 * i][..2 * (i - 1)] && t[..2 * (i - 1)] == t[..2 * i][..2 * (i - 1)];
      LowSame(s, t, i - 1);
    }
  }

  /** `>> 26` and `>> 25` round down. */
  method Floor26(x: i32) returns (q: i32)
    ensures 0 <= x - q * 0x400_0000 < 0x400_0000
  {
    q := x / 0x400_0000;
  }

  method Floor25(x: i32) returns (q: i32)
    ensures 0 <= x - q * 0x200_0000 < 0x200_0000
  {
    q := x / 0x200_0000;
  }

  /** The first loop of `fe_tobytes`: the sign of the whole number, 0 or -1. */
  method SignOf(t: array<i32>) returns (q: i32)
    requires t.Length == 10 && Bounded(Read(t), E_OUT, O_OUT)
    ensures q == if Value(Read(t)) >= 0 then 0 else -1
  {
    var top: i32 := 19 * t[9];
    q := Floor25(top + 0x100_0000);
    ghost var c0, a := q, Read(t);
    assert Low(t[..], 0) == 0 && P51(0) == 1;
    for i := 0 to 5
      invariant -16 <= q <= 16
      invariant 0 <= Low(t[..], i) + c0 - q * P51(i) < P51(i)
    {
      BoundAt(a, t[..], i);
      q := FloorTwo(q, t[2 * i], t[2 * i + 1], Low(t[..], i) + c0, P51(i));
      LowNext(t[..], i);
    }
    LowIsValue(t[..]);
    SignBit(a, c0, q);
  }

  /** One turn of that loop. */
  method FloorTwo(q: i32, even: i32, odd: i32, ghost v: int, ghost p: int) returns (q2: i32)
    requires -16 <= q <= 16 && Within(even, E_OUT) && Within(odd, O_OUT)
    requires p >= 1 && 0 <= v - q * p < p
    ensures -16 <= q2 <= 16 && 0 <= v + (even + odd * W1) * p - q2 * (W2 * p) < W2 * p
  {
    var q1 := Floor26(q + even);
    q2 := Floor25(q1 + odd);
    FloorStep(v, q, q1, q2, even, odd, p);
  }

  lemma LowNext(t: seq<int>, i: nat)
    requires 2 * i + 2 <= |t|
    ensures Low(t, i + 1) == Low(t, i) + (t[2 * i] + t[2 * i + 1] * W1) * P51(i) && P51(i + 1) == W2 * P51(i)
  {
  }

  lemma BoundAt(a: Fe, t: seq<int>, i: nat)
    requires |t| == 10 && a == Fe(t[0], t[1], t[2], t[3], t[4], t[5], t[6], t[7], t[8], t[9])
    requires Bounded(a, E_OUT, O_OUT) && i < 5
    ensures Within(t[2 * i], E_OUT) && Within(t[2 * i + 1], O_OUT)
  {
  }

  lemma FloorStep(v: int, q: int, q1: int, q2: int, a: int, b: int, p: int)
    requires p >= 1 && 0 <= v - q * p < p
    requires 0 <= q + a - q1 * 0x400_0000 < 0x400_0000
    requires 0 <= q1 + b - q2 * 0x200_0000 < 0x200_0000
    ensures 0 <= v + (a + b * W1) * p - q2 * (W2 * p) < W2 * p
  {
    var d := q + a + b * W1 - q2 * W2;
    assert 0 <= d <= W2 - 1;
    MulMono(0, d, p);
    MulMono(d, W2 - 1, p);
    assert v + (a + b * W1) * p - q2 * (W2 * p) == (v - q * p) + d * p by {
      ExpandStep(q, a + b * W1, q2, W2, p, d);
    }
    assert (W2 - 1) * p == W2 * p - p;
  }

  lemma ExpandStep(q: int, s: int, q2: int, w: int, p: int, d: int)
    requires d == q + s - q2 * w
    ensures d * p == q * p + s * p - q2 * (w * p)
  {
    MulTriple(q2, w, p);
  }

  /** Within the stated limb bounds the sum's sign is the sign of its top nonzero limb, and the
      rounding term c0 cannot push it across zero. */
  lemma SignBit(a: Fe, c0: int, q: int)
    requires Bounded(a, E_OUT, O_OUT)
    requires 0 <= 19 * a.x9 + 0x100_0000 - c0 * 0x200_0000 < 0x200_0000
    requires 0 <= Value(a) + c0 - q * (P + 19) < P + 19
    ensures q == if Value(a) >= 0 then 0 else -1
    ensures -(P as int) < Value(a) < P
  {
    var rest := Value(a) - a.x9 * W9;
    assert -W9 < rest < W9;
    if a.x9 >= 1 {
      assert Value(a) > 0;
    } else if a.x9 <= -1 {
      assert Value(a) < 0;
    }
  }

  /** The second loop: adds q and propagates it into limbs of 26 and 25 bits. */
  method Propagate(t: array<i32>, q0: i32) returns (q: i32)
    requires t.Length == 10 && Bounded(Read(t), E_OUT, O_OUT) && -19 <= q0 <= 0
    modifies t
    ensures Tight(Read(t))
    ensures Value(Read(t)) + q * (P + 19) == old(Value(Read(t))) + q0
  {
    ghost var start := t[..];
    ghost var a := Read(t);
    q := q0;
    for i := 0 to 5
      invariant -32 <= q <= 32
      invariant forall k :: 2 * i <= k < 10 ==> t[k] == start[k]
      invariant forall k :: 0 <= k < 2 * i ==> 0 <= t[k] < if k % 2 == 0 then 0x400_0000 else 0x200_0000
      invariant Low(t[..], i) + q * P51(i) == Low(start, i) + q0
    {
      BoundAt(a, start, i);
      ghost var before := t[..];
      var q2 := PropagateStep(t, i, q);
      LowSame(before, t[..], i);
      PropagateValue(before, t[..], start, i, q, q2, q0);
      q := q2;
    }
    LowIsValue(t[..]);
    LowIsValue(start);
    LimbsTight(t);
    hide Tight;
  }

  lemma LimbsTight(t: array<i32>)
    requires t.Length == 10
    requires forall k :: 0 <= k < 10 ==> 0 <= t[k] < if k % 2 == 0 then 0x400_0000 else 0x200_0000
    ensures Tight(Read(t))
  {
  }

  /** One turn of that loop: two limbs take the carry and pass theirs on. */
  method PropagateStep(t: array<i32>, i: nat, q: i32) returns (q2: i32)
    requires t.Length == 10 && i < 5 && -32 <= q <= 32
    requires Within(t[2 * i], E_OUT) && Within(t[2 * i + 1], O_OUT)
    modifies t
    ensures -32 <= q2 <= 32
    ensures forall k :: 0 <= k < 10 && k != 2 * i && k != 2 * i + 1 ==> t[k] == old(t[k])
    ensures 0 <= t[2 * i] < 0x400_0000 && 0 <= t[2 * i + 1] < 0x200_0000
    ensures t[2 * i] + t[2 * i + 1] * W1 + q2 * W2 == old(t[2 * i]) + old(t[2 * i + 1]) * W1 + q
  {
    var x: i32 := t[2 * i] + q;
    var q1 := Floor26(x);
    var y: i32 := t[2 * i + 1] + q1;
    q2 := Floor25(y);
    t[2 * i] := x - q1 * 0x400_0000;
    t[2 * i + 1] := y - q2 * 0x200_0000;
  }

  lemma PropagateValue(before: seq<int>, after: seq<int>, start: seq<int>, i: nat, q: int, q2: int, q0: int)
    requires |before| == 10 && |after| == 10 && |start| == 10 && i < 5
    requires Low(before, i) + q * P51(i) == Low(start, i) + q0 && Low(after, i) == Low(before, i)
    requires after[2 * i] + after[2 * i + 1] * W1 + q2 * W2 == start[2 * i] + start[2 * i + 1] * W1 + q
    ensures Low(after, i + 1) + q2 * P51(i + 1) == Low(start, i + 1) + q0
  {
    DigitStep(Low(after, i), Low(start, i), q0, q, q2, start[2 * i] + start[2 * i + 1] * W1,
              after[2 * i] + after[2 * i + 1] * W1, P51(i));
  }

  lemma DigitStep(v: int, s: int, q0: int, q: int, q2: int, y: int, x: int, p: int)
    requires v + q * p == s + q0 && x + q2 * W2 == y + q
    ensures v + x * p + q2 * (W2 * p) == s + y * p + q0
  {
    MulTriple(q2, W2, p);
    assert (x + q2 * W2) * p == x * p + (q2 * W2) * p;
    assert (y + q) * p == y * p + q * p;
  }

  /** Limbs in their unsigned ranges. */
  ghost predicate Tight(a: Fe) {
    0 <= a.x0 < 0x400_0000 && 0 <= a.x1 < 0x200_0000 && 0 <= a.x2 < 0x400_0000 && 0 <= a.x3 < 0x200_0000
    && 0 <= a.x4 < 0x400_0000 && 0 <= a.x5 < 0x200_0000 && 0 <= a.x6 < 0x400_0000 && 0 <= a.x7 < 0x200_0000
    && 0 <= a.x8 < 0x400_0000 && 0 <= a.x9 < 0x200_0000
  }

  /** `fe_tobytes`: the unique representative below 2^255 - 19, little-endian. */
  method ToBytes(h: array<i32>) returns (s: seq<u8>)
    requires h.Length == 10 && Bounded(Read(h), E_OUT, O_OUT)
    ensures |s| == 32 && ByteVal(s) == Value(Read(h)) % P
  {
    var t := new i32[10](i requires 0 <= i < 10 && h.Length == 10 reads h => h[i]);
    ghost var v := Value(Read(h));
    var q := SignOf(t);
    q := q * 19;
    var excess := Propagate(t, q);
    Representative(Read(t), Read(h), q, excess);
    s := Pack(Read(t));
  }

  lemma Representative(t: Fe, h: Fe, q: int, excess: int)
    requires Tight(t) && Bounded(h, E_OUT, O_OUT) && q == if Value(h) >= 0 then 0 else -19
    requires Value(t) + excess * (P + 19) == Value(h) + q
    ensures Value(t) == Value(h) % P && Value(t) < P
  {
    assert 0 <= Value(t) < P + 19;
    SmallValue(h);
    if Value(h) >= 0 {
      assert excess == 0;
      DivModUnique(Value(h), P, 0, Value(t));
    } else {
      assert excess == -1;
      DivModUnique(Value(h), P, -1, Value(t));
    }
  }

  lemma SmallValue(a: Fe)
    requires Bounded(a, E_OUT, O_OUT)
    ensures -(P as int) < Value(a) < P
  {
  }

  /** The eight stores of `fe_tobytes`. The shifted limbs do not overlap, so each OR is a sum;
      a limb shifted left loses what does not fit in 32 bits. */
  method Pack(t: Fe) returns (s: seq<u8>)
    requires Tight(t)
    ensures |s| == 32 && ByteVal(s) == Value(t)
  {
    var w0: u32 := t.x0 + t.x1 % 0x40 * 0x400_0000;
    var w1: u32 := t.x1 / 0x40 + t.x2 % 0x2000 * 0x8_0000;
    var w2: u32 := t.x2 / 0x2000 + t.x3 % 0x8_0000 * 0x2000;
    var w3: u32 := t.x3 / 0x8_0000 + t.x4 * 0x40;
    var w4: u32 := t.x5 + t.x6 % 0x80 * 0x200_0000;
    var w5: u32 := t.x6 / 0x80 + t.x7 % 0x2000 * 0x8_0000;
    var w6: u32 := t.x7 / 0x2000 + t.x8 % 0x10_0000 * 0x1000;
    var w7: u32 := t.x8 / 0x10_0000 + t.x9 * 0x40;
    var words := [w0, w1, w2, w3, w4, w5, w6, w7];
    s := StoreBuf(words);
    StoreValue(words);
    Val8(words);
    PackedValue(t, w0, w1, w2, w3, w4, w5, w6, w7);
  }

  lemma PackedValue(t: Fe, w0: int, w1: int, w2: int, w3: int, w4: int, w5: int, w6: int, w7: int)
    requires w0 == t.x0 + t.x1 % 0x40 * 0x400_0000
    requires w1 == t.x1 / 0x40 + t.x2 % 0x2000 * 0x8_0000
    requires w2 == t.x2 / 0x2000 + t.x3 % 0x8_0000 * 0x2000
    requires w3 == t.x3 / 0x8_0000 + t.x4 * 0x40
    requires w4 == t.x5 + t.x6 % 0x80 * 0x200_0000
    requires w5 == t.x6 / 0x80 + t.x7 % 0x2000 * 0x8_0000
    requires w6 == t.x7 / 0x2000 + t.x8 % 0x10_0000 * 0x1000
    requires w7 == t.x8 / 0x10_0000 + t.x9 * 0x40
    ensures w0 + w1 * 0x100000000 + w2 * 0x10000000000000000
      + w3 * 0x1000000000000000000000000 + w4 * 0x100000000000000000000000000000000
      + w5 * 0x10000000000000000000000000000000000000000
      + w6 * 0x1000000000000000000000000000000000000000000000000
      + w7 * 0x100000000000000000000000000000000000000000000000000000000 == Value(t)
  {
  }

  /** `fe_frombytes` then `fe_tobytes`: any 32 bytes, the top bit ignored, come back as the
      representative below 2^255 - 19. */
  method Canonical(s: seq<u8>) returns (r: seq<u8>)
    requires |s| == 32
    ensures |r| == 32 && ByteVal(r) == ByteVal(s) % Pow2(255) % P
  {
    var h := new i32[10](_ => 0);
    FromBytesMask(h, s, 1);
    r := ToBytes(h);
    SameResidue(Value(Read(h)), ByteVal(s) % Pow2(255));
  }

  lemma SameResidue(a: int, b: int)
    requires Cong(a, b, P)
    ensures a % P == b % P
  {
    RemIsMod(a, P);
    RemIsMod(b, P);
  }
}
