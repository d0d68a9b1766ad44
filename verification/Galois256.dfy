/** The field of 256 elements that the QR codes of both libraries use: bytes as polynomials
    modulo x^8 + x^4 + x^3 + x^2 + 1, qrcodegen's multiplication, and quirc's tables. */
module Galois256 {
  function Add(a: bv8, b: bv8): bv8 {
    a ^ b
  }

  lemma AddLaws(a: bv8, b: bv8, c: bv8)
    ensures Add(Add(a, b), c) == Add(a, Add(b, c)) && Add(a, b) == Add(b, a)
    ensures Add(a, 0) == a && Add(0, a) == a && Add(a, a) == 0
  {
  }

  /** `z << 1`, dropping the top bit. */
  function Shift(z: bv8): bv8 {
    z << (1 as bv8)
  }

  /** Doubling: one step of the shift register. */
  function Double(z: bv8): bv8 {
    Shift(z) ^ ((z >> (7 as bv8)) * 0x1D)
  }

  /** The powers of 2. */
  function Exp(k: nat): bv8 {
    if k == 0 then 1 else Double(Exp(k - 1))
  }

  // -------------------------------------------------------------------------------------
  // Multiplication bit by bit

  function Bit(y: bv8, i: nat): bool
    requires i < 8
  {
    var mask: bv8 := if i < 4 then (if i == 0 then 0x01 else if i == 1 then 0x02 else if i == 2 then 0x04 else 0x08)
                     else (if i == 4 then 0x10 else if i == 5 then 0x20 else if i == 6 then 0x40 else 0x80);
    y & mask != 0
  }

  function Step(z: bv8, x: bv8, bit: bool): bv8 {
    if bit then Add(Double(z), x) else Double(z)
  }

  /** x times the bits of y from the top one down to bit i. */
  function Partial(x: bv8, y: bv8, i: nat): bv8
    requires i <= 8
    decreases 8 - i
  {
    if i == 8 then 0 else Step(Partial(x, y, i + 1), x, Bit(y, i))
  }

  function Times(x: bv8, y: bv8): bv8 {
    Partial(x, y, 0)
  }

  lemma DoubleLinear(a: bv8, b: bv8)
    ensures Double(Add(a, b)) == Add(Double(a), Double(b))
  {
  }

  lemma {:induction false} PartialLinear(a: bv8, b: bv8, y: bv8, i: nat)
    requires i <= 8
    ensures Partial(Add(a, b), y, i) == Add(Partial(a, y, i), Partial(b, y, i))
    decreases 8 - i
  {
    hide Step, Bit, Add;
    if i == 8 {
      AddLaws(0, 0, 0);
    } else {
      PartialLinear(a, b, y, i + 1);
      StepLinear(Partial(a, y, i + 1), Partial(b, y, i + 1), a, b, Bit(y, i));
    }
  }

  lemma StepLinear(z: bv8, w: bv8, x: bv8, y: bv8, bit: bool)
    ensures Step(Add(z, w), Add(x, y), bit) == Add(Step(z, x, bit), Step(w, y, bit))
  {
    hide Add, Double;
    DoubleLinear(z, w);
    Interchange(Double(z), x, Double(w), y);
  }

  lemma Interchange(a: bv8, b: bv8, c: bv8, d: bv8)
    ensures Add(Add(a, b), Add(c, d)) == Add(Add(a, c), Add(b, d))
  {
    hide Add;
    AddLaws(a, b, Add(c, d));
    AddLaws(b, c, d);
    AddLaws(c, b, d);
    AddLaws(a, c, Add(b, d));
  }

  lemma StepLinearRight(z: bv8, w: bv8, x: bv8, bit: bool, bit': bool)
    ensures Step(Add(z, w), x, bit != bit') == Add(Step(z, x, bit), Step(w, x, bit'))
  {
    hide Add, Double;
    var a, b := Double(z), Double(w);
    DoubleLinear(z, w);
    Interchange(a, x, b, x);
    AddLaws(x, x, x);
    AddLaws(Add(a, b), x, x);
    AddLaws(a, b, x);
    AddLaws(b, x, x);
    AddLaws(a, x, b);
  }

  lemma BitXor(y: bv8, w: bv8, i: nat)
    requires i < 8
    ensures Bit(Add(y, w), i) == (Bit(y, i) != Bit(w, i))
  {
    if i < 4 {
      if i == 0 {} else if i == 1 {} else if i == 2 {} else {}
    } else {
      if i == 4 {} else if i == 5 {} else if i == 6 {} else {}
    }
  }

  lemma {:induction false} PartialLinearRight(x: bv8, y: bv8, w: bv8, i: nat)
    requires i <= 8
    ensures Partial(x, Add(y, w), i) == Add(Partial(x, y, i), Partial(x, w, i))
    decreases 8 - i
  {
    hide Step, Bit, Add;
    if i == 8 {
      AddLaws(0, 0, 0);
    } else {
      PartialLinearRight(x, y, w, i + 1);
      BitXor(y, w, i);
      StepLinearRight(Partial(x, y, i + 1), Partial(x, w, i + 1), x, Bit(y, i), Bit(w, i));
    }
  }

  lemma BitShift(y: bv8, i: nat)
    requires i < 8 && y & 0x80 == 0
    ensures Bit(Shift(y), i) == if i == 0 then false else Bit(y, i - 1)
  {
    if i < 4 {
      if i == 0 {} else if i == 1 {} else if i == 2 {} else {}
    } else {
      if i == 4 {} else if i == 5 {} else if i == 6 {} else {}
    }
  }

  lemma {:induction false} PartialShift(x: bv8, y: bv8, i: nat)
    requires i < 8 && y & 0x80 == 0
    ensures Partial(x, Shift(y), i + 1) == Partial(x, y, i)
    decreases 8 - i
  {
    if i == 7 {
      assert Partial(x, y, 8) == 0 && !Bit(y, 7);
    } else {
      PartialShift(x, y, i + 1);
      BitShift(y, i + 1);
    }
  }

  /** x shifted past the top comes back as x times the low part of the modulus. */
  lemma TimesLow(x: bv8)
    ensures Times(x, 0x1D) == Double(Times(x, 0x80))
  {
    assert Times(x, 0x80) == Double(Double(Double(Double(Double(Double(Double(x))))))) by { Unrolled(x, 0x80); }
    Unrolled(x, 0x1D);
    Eight(x);
  }

  lemma TimesPowers(x: bv8)
    ensures Times(x, 1) == x && Times(x, 0) == 0 && Times(0, x) == 0
  {
    Unrolled(x, 1);
    Unrolled(x, 0);
    Unrolled(0, x);
  }

  /** All eight steps. */
  lemma Unrolled(x: bv8, y: bv8)
    ensures Times(x, y) ==
      Step(Step(Step(Step(Step(Step(Step(Step(0, x, Bit(y, 7)), x, Bit(y, 6)), x, Bit(y, 5)), x, Bit(y, 4)), x, Bit(y, 3)),
                     x, Bit(y, 2)), x, Bit(y, 1)), x, Bit(y, 0))
  {
    hide Step, Bit;
    assert Partial(x, y, 8) == 0;
    assert Partial(x, y, 6) == Step(Step(0, x, Bit(y, 7)), x, Bit(y, 6));
    assert Partial(x, y, 4) == Step(Step(Partial(x, y, 6), x, Bit(y, 5)), x, Bit(y, 4));
    assert Partial(x, y, 2) == Step(Step(Partial(x, y, 4), x, Bit(y, 3)), x, Bit(y, 2));
  }

  /** Doubling the second factor doubles the product. */
  lemma TimesDouble(x: bv8, y: bv8)
    ensures Times(x, Double(y)) == Double(Times(x, y))
  {
    hide Times, Double, Shift, Add, Low;
    var low := Low(y);
    TimesShift(x, low);
    if low == y {
      LowDouble(y);
    } else {
      LowDouble(y);
      TimesXor(x, low, 0x80);
      TimesXor(x, Shift(low), 0x1D);
      DoubleLinear(Times(x, low), Times(x, 0x80));
      TimesLow(x);
    }
  }

  function Low(y: bv8): (r: bv8)
    ensures r & 0x80 == 0
  {
    y & 0x7F
  }

  lemma LowDouble(y: bv8)
    ensures Low(y) == y ==> Double(y) == Shift(y)
    ensures Low(y) != y ==> y == Add(Low(y), 0x80) && Double(y) == Add(Shift(Low(y)), 0x1D)
  {
  }

  lemma TimesXor(x: bv8, y: bv8, w: bv8)
    ensures Times(x, Add(y, w)) == Add(Times(x, y), Times(x, w))
  {
    hide Partial, Add;
    PartialLinearRight(x, y, w, 0);
  }

  lemma TimesShift(x: bv8, y: bv8)
    requires y & 0x80 == 0
    ensures Times(x, Shift(y)) == Double(Times(x, y))
  {
    hide Bit, Double, Shift, Add;
    PartialShift(x, y, 0);
    BitShift(y, 0);
    StepZero(Partial(x, y, 0), x);
  }

  lemma StepZero(z: bv8, x: bv8)
    ensures Step(z, x, false) == Double(z)
  {
  }

  lemma Eight(x: bv8)
    ensures Step(Step(Step(Step(Step(0, x, true), x, true), x, true), x, false), x, true)
      == Double(Double(Double(Double(Double(Double(Double(Double(x))))))))
  {
  }

  /** Products of powers of 2 add the exponents. */
  lemma {:induction false} TimesExp(i: nat, j: nat)
    ensures Times(Exp(i), Exp(j)) == Exp(i + j)
  {
    hide Times, Double;
    if j == 0 {
      TimesPowers(Exp(i));
    } else {
      TimesExp(i, j - 1);
      TimesDouble(Exp(i), Exp(j - 1));
    }
  }

  // -------------------------------------------------------------------------------------
  // qrcodegen's multiplication

  function Wide(z: bv8): bv16 {
    z as bv16
  }

  /** `(z << 1) ^ ((z >> 7) * 0x11D)` in the wider register. */
  function Reduce(z: bv16): bv16 {
    (z << (1 as bv16)) ^ ((z >> (7 as bv16)) * 0x11D)
  }

  /** `z ^ ((y >> i) & 1) * x`. */
  function Accumulate(z: bv16, x: bv8, bit: bool): bv16 {
    z ^ (if bit then Wide(x) else 0)
  }

  /** A round keeps the register below 256. */
  lemma ReduceWide(z: bv8)
    ensures Reduce(Wide(z)) == Wide(Double(z))
  {
  }

  lemma AccumulateWide(z: bv8, x: bv8, bit: bool)
    ensures Accumulate(Wide(z), x, bit) == Wide(if bit then Add(z, x) else z)
  {
  }

  lemma NarrowWide(z: bv8)
    ensures Wide(z) < 0x100 && Wide(z) as bv8 == z
  {
  }

  /** `reedSolomonMultiply`. */
  method ReedSolomonMultiply(x: bv8, y: bv8) returns (r: bv8)
    ensures r == Times(x, y)
  {
    hide Double, Bit, Add, Reduce, Accumulate, Wide;
    var z := Wide(0);
    ghost var v: bv8 := 0;
    for i := 8 downto 0
      invariant v == Partial(x, y, i) && z == Wide(v)
    {
      ReduceWide(v);
      z := Reduce(z);
      AccumulateWide(Double(v), x, Bit(y, i));
      z := Accumulate(z, x, Bit(y, i));
      v := Step(v, x, Bit(y, i));
    }
    NarrowWide(v);
    r := z as bv8;
  }
}
