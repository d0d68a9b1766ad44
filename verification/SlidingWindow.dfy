/** The incremental signed sliding windows of the signature check, and the double-and-add
    ladder that consumes two of them at once over an abelian group. */
module SlidingWindow {
  import opened ModArith
  import opened Limbs
  import opened Bytes
  import opened AbelianGroup

  /** `x << k`. */
  function Shl(x: int, k: nat): int {
    x * Pow2(k)
  }

  lemma ShlAdd(x: int, y: int, k: nat)
    ensures Shl(x + y, k) == Shl(x, k) + Shl(y, k)
    ensures Shl(x - y, k) == Shl(x, k) - Shl(y, k)
  {
  }

  lemma ShlNext(x: int, k: nat)
    ensures Shl(x, k + 1) == 2 * Shl(x, k) == Shl(2 * x, k)
  {
    MulTriple(2, Pow2(k), x);
  }

  lemma ShlShl(x: int, j: nat, k: nat)
    ensures Shl(Shl(x, j), k) == Shl(x, j + k)
  {
    Pow2Add(j, k);
    MulTriple(x, Pow2(j), Pow2(k));
  }

  // -------------------------------------------------------------------------------------
  // Bits and signed digits

  type Bits = b: seq<nat> | |b| == 256 && forall i :: 0 <= i < 256 ==> b[i] <= 1
    witness seq(256, _ => 0)

  /** The bits of a 32-byte scalar. */
  function BitsOf(s: seq<u8>): (b: Bits)
    requires |s| == 32
    ensures forall i :: 0 <= i < 256 ==> b[i] == ScalarBit(s, i)
  {
    seq(256, i requires 0 <= i < 256 => ScalarBit(s, i))
  }

  /** `scalar_bit`, which is 0 at position -1. */
  function Bit(b: Bits, i: int): (r: nat)
    requires i < 256
    ensures r <= 1
  {
    if i < 0 then 0 else b[i]
  }

  /** The scalar's bits below position c, as a number. */
  ghost function Below(b: Bits, c: nat): int
    requires c <= 256
  {
    if c == 0 then 0 else Below(b, c - 1) + Shl(Bit(b, c - 1), c - 1)
  }

  /** The signed digits b[k-1] - b[k] at positions 0 to c: 2S - S, cut above position c. */
  ghost function Tail(b: Bits, c: int): int
    requires c < 256
  {
    if c < 0 then 0 else Tail(b, c - 1) + Shl(Bit(b, c - 1) - Bit(b, c), c)
  }

  lemma {:induction false} TailValue(b: Bits, c: nat)
    requires c < 256
    ensures Tail(b, c) == Below(b, c) - Shl(Bit(b, c), c)
  {
    assert Tail(b, -1) == 0 && Shl(0, c) == 0;
    ShlAdd(Bit(b, c - 1), Bit(b, c), c);
    if c > 0 {
      TailValue(b, c - 1);
      ShlNext(Bit(b, c - 1), c - 1);
    }
  }

  lemma {:induction false} BelowMod(s: seq<u8>, c: nat)
    requires |s| == 32 && c <= 256
    ensures Below(BitsOf(s), c) == ByteVal(s) % Pow2(c)
  {
    if c > 0 {
      BelowMod(s, c - 1);
      ScalarBitValue(s, c - 1);
      SplitBit(ByteVal(s), Pow2(c - 1), ScalarBit(s, c - 1));
    }
  }

  lemma SplitBit(v: nat, p: nat, bit: nat)
    requires p >= 1 && bit == v / p % 2
    ensures v % (2 * p) == v % p + bit * p
  {
    var q, r := v / p, v % p;
    assert v == q * p + r;
    assert q == 2 * (q / 2) + bit;
    assert q * p == (q / 2) * (2 * p) + bit * p;
    if bit == 1 { assert bit * p == p; } else { assert bit * p == 0; }
    DivModUnique(v, 2 * p, q / 2, bit * p + r);
  }

  /** The j bits from position m up, as a number. */
  ghost function From(b: Bits, m: nat, j: nat): int
    requires m + j <= 256
  {
    if j == 0 then 0 else From(b, m, j - 1) + Shl(Bit(b, m + j - 1), j - 1)
  }

  /** The number `slide_step` computes for the window from position m to position m+d. */
  ghost function Window(b: Bits, m: nat, d: nat): int
    requires m + d < 256
  {
    From(b, m, d) - Shl(Bit(b, m + d), d) + Bit(b, m - 1)
  }

  /** The signed digits at positions m to m+d add up to that number at position m. */
  lemma {:induction false} WindowSum(b: Bits, m: nat, d: nat)
    requires m + d < 256
    ensures Tail(b, m + d) == Tail(b, m - 1) + Shl(Window(b, m, d), m)
  {
    if d == 0 {
      assert Shl(Bit(b, m), 0) == Bit(b, m);
    } else {
      WindowSum(b, m, d - 1);
      WindowGrows(b, m, d);
      var e := Shl(Bit(b, m + d - 1) - Bit(b, m + d), d);
      ShlShl(Bit(b, m + d - 1) - Bit(b, m + d), d, m);
      ShlAdd(Window(b, m, d - 1), e, m);
    }
  }

  lemma WindowGrows(b: Bits, m: nat, d: nat)
    requires m + d < 256 && d > 0
    ensures Window(b, m, d) == Window(b, m, d - 1) + Shl(Bit(b, m + d - 1) - Bit(b, m + d), d)
  {
    ShlAdd(Bit(b, m + d - 1), Bit(b, m + d), d);
    ShlNext(Bit(b, m + d - 1), d - 1);
  }

  /** How often two divides v: what the source's mask arithmetic on the smallest set bit of v
      computes. */
  function TrailingZeros(v: int): (s: nat)
    requires v != 0
    ensures v % Pow2(s) == 0 && v / Pow2(s) % 2 == 1
    decreases if v < 0 then -v else v
  {
    if v % 2 == 1 then 0
    else
      var s := TrailingZeros(v / 2);
      HalfZeros(v, s);
      s + 1
  }

  lemma HalfZeros(v: int, s: nat)
    requires v % 2 == 0 && v / 2 % Pow2(s) == 0 && v / 2 / Pow2(s) % 2 == 1
    ensures v % Pow2(s + 1) == 0 && v / Pow2(s + 1) % 2 == 1
  {
    var p, q := Pow2(s), v / 2 / Pow2(s);
    assert v / 2 == q * p;
    assert v == q * (2 * p);
    DivModUnique(v, 2 * p, q, 0);
  }


  /** `(lsb & 1 << k) != 0`. */
  predicate Has(lsb: nat, k: nat) {
    lsb / Pow2(k) % 2 == 1
  }

  /** The position of a single set bit, read off the masks 0xAA, 0xCC and 0xF0. */
  function MaskLog(lsb: nat): nat {
    (if Has(lsb, 1) || Has(lsb, 3) || Has(lsb, 5) || Has(lsb, 7) then 1 else 0)
    + (if Has(lsb, 2) || Has(lsb, 3) || Has(lsb, 6) || Has(lsb, 7) then 2 else 0)
    + (if Has(lsb, 4) || Has(lsb, 5) || Has(lsb, 6) || Has(lsb, 7) then 4 else 0)
  }

  lemma MasksFind(s: nat)
    requires s <= 7
    ensures MaskLog(Pow2(s)) == s
  {
    Pow2Values();
    if s < 4 {
      if s == 0 {} else if s == 1 {} else if s == 2 {} else {}
    } else {
      if s == 4 {} else if s == 5 {} else if s == 6 {} else {}
    }
  }

  // -------------------------------------------------------------------------------------
  // The sliding window state

  lemma {:induction false} FromBound(b: Bits, m: nat, j: nat)
    requires m + j <= 256
    ensures 0 <= From(b, m, j) < Pow2(j)
  {
    if j > 0 {
      FromBound(b, m, j - 1);
      if Bit(b, m + j - 1) == 1 { assert Shl(1, j - 1) == Pow2(j - 1); } else { assert Shl(0, j - 1) == 0; }
    }
  }

  function Abs(x: int): nat {
    if x < 0 then -x else x
  }

  /** A window whose top two bits differ stands for a nonzero number of at most 2^d. */
  lemma WindowBound(b: Bits, m: nat, d: nat)
    requires m + d < 256 && Bit(b, m + d) != Bit(b, m + d - 1) && (d > 0 || m == 0)
    ensures Window(b, m, d) != 0 && Abs(Window(b, m, d)) <= Pow2(d)
  {
    ShlBit(Bit(b, m + d), d);
    if d > 0 {
      FromBound(b, m, d - 1);
      ShlBit(Bit(b, m + d - 1), d - 1);
    }
  }

  lemma ShlBit(x: int, d: nat)
    requires 0 <= x <= 1
    ensures Shl(x, d) == if x == 0 then 0 else Pow2(d)
  {
  }

  /** The odd part of such a number is smaller than 2^(width-1) and sits inside the window. */
  lemma OddPart(v: int, d: nat, width: nat, s: nat, q: int)
    requires v != 0 && Abs(v) <= Pow2(d) && d < width && 2 <= width
    requires v == Shl(q, s) && q % 2 == 1
    ensures s <= d && GoodDigit(q, width)
  {
    OddBound(q, Pow2(s), v);
    if s > d {
      Pow2Monotone(d + 1, s);
    }
    Pow2Monotone(d, width - 1);
    OddBelow(q, Pow2(width - 1), Pow2(width - 2));
  }

  lemma OddBelow(q: int, p: nat, half: nat)
    requires Abs(q) <= p && p == 2 * half && q % 2 == 1
    ensures Abs(q) < p
  {
  }

  lemma Quotient(v: int, p: nat, q: int)
    requires p >= 1 && v % p == 0 && q == v / p
    ensures v == q * p
  {
  }

  lemma OddBound(q: int, p: nat, v: int)
    requires v == q * p && p >= 1 && q != 0
    ensures Abs(q) <= Abs(v) && p <= Abs(v)
  {
    if q > 0 {
      MulMono(1, q, p);
      MulMono(1, p, q);
    } else {
      MulMono(1, -q, p);
      MulMono(1, p, -q);
    }
  }

  ghost predicate GoodDigit(x: int, width: nat)
    requires width >= 1
  {
    x % 2 == 1 && Abs(x) < Pow2(width - 1)
  }

  /** A waiting digit sits at position i or below. */
  ghost function Pending(index: int, digit: int, i: int): int {
    if 0 <= index <= i then Shl(digit, index) else 0
  }

  /** Position i is next and e is the number the digits handed out so far make: together with
      the waiting digit and the bits from position `check` down, they make the scalar. */
  ghost predicate Balanced(b: Bits, scalar: int, e: int, i: int, width: nat, check: int, index: int, digit: int)
    requires -1 <= i <= 253 && width >= 1
  {
    && check <= i
    && (0 <= index <= i ==> check < index && GoodDigit(digit, width))
    && Shl(e, i + 1) + Pending(index, digit, i) + Tail(b, check) == scalar
  }

  class Slide {
    var next_index: int
    var next_digit: int
    var next_check: u8

    /** The position of the next check; -1 once the unsigned byte has wrapped past zero. */
    ghost function Check(): int
      reads this
    {
      if next_check == 255 then -1 else next_check
    }

    /** The digits handed out so far make e, and the state holds the rest of the scalar. */
    ghost predicate Accounts(b: Bits, scalar: int, e: int, i: int, width: nat)
      requires -1 <= i <= 253 && width >= 1
      reads this
    {
      Balanced(b, scalar, e, i, width, Check(), next_index, next_digit)
    }

    /** `slide_init`, for a scalar below 2^253. */
    constructor (s: seq<u8>)
      requires |s| == 32 && ByteVal(s) < Pow2(253)
      ensures Check() == next_check && next_check <= 253 && next_index == -1
      ensures Tail(BitsOf(s), Check()) == ByteVal(s)
    {
      var i := TopBit(s);
      next_check := i + 1;
      next_index := -1;
      next_digit := -1;
    }

    /** No digit is handed out above the first check. */
    lemma Start(b: Bits, scalar: int, i: nat, width: nat)
      requires next_check <= i <= 253 && width >= 1 && next_index == -1 && Tail(b, Check()) == scalar
      ensures Accounts(b, scalar, 0, i, width)
    {
      ShlBit(0, i + 1);
    }

    /** Past position 0 the digits handed out make the scalar. */
    lemma Finish(b: Bits, scalar: int, e: int, width: nat)
      requires width >= 1 && Accounts(b, scalar, e, -1, width)
      ensures e == scalar
    {
    }

    /** `slide_step`: the digit for position i. */
    method Step(width: nat, i: nat, s: seq<u8>, ghost e: int) returns (digit: int)
      requires |s| == 32 && 2 <= width <= 5 && i <= 253
      requires Accounts(BitsOf(s), ByteVal(s), e, i, width)
      modifies this
      ensures digit == 0 || GoodDigit(digit, width)
      ensures Accounts(BitsOf(s), ByteVal(s), 2 * e + digit, i - 1, width)
    {
      ghost var b := BitsOf(s);
      if i == next_check {
        if Bit(BitsOf(s), i) == Bit(BitsOf(s), i - 1) {
          assert Shl(0, i) == 0;
          next_check := if next_check == 0 then 255 else next_check - 1;
        } else {
          var w;
          w, next_index, next_digit := DigitAt(BitsOf(s), i, width);
          next_check := if next_check < w then 255 else next_check - w;
        }
      }
      digit := if i == next_index then next_digit else 0;
      HandOut(e, digit, i);
    }
  }

  /** The width and the digit of the window that ends at position i. */
  method DigitAt(b: Bits, i: nat, width: nat) returns (w: nat, index: nat, digit: int)
    requires 2 <= width <= 5 && i <= 253 && Bit(b, i) != Bit(b, i - 1)
    ensures 1 <= w <= i + 1 && w <= width && i - w < index <= i && GoodDigit(digit, width)
    ensures Tail(b, i) == Tail(b, i - w) + Shl(digit, index)
  {
    w := if width <= i + 1 then width else i + 1;
    var v := WindowNumber(b, i, w);
    WindowInRange(b, i, w, v);
    var z, q := ShiftOut(v);
    WindowDigit(b, i, w, width, v, z, q);
    index, digit := i - (w - 1) + z, q;
  }

  /** The highest set bit, looked for from position 252 down. */
  method TopBit(s: seq<u8>) returns (i: nat)
    requires |s| == 32 && ByteVal(s) < Pow2(253)
    ensures i <= 252 && Tail(BitsOf(s), i + 1) == ByteVal(s)
  {
    ghost var b := BitsOf(s);
    i := 252;
    BelowMod(s, 253);
    DivModUnique(ByteVal(s), Pow2(253), 0, ByteVal(s));
    while i > 0 && ScalarBit(s, i) == 0
      invariant 0 <= i <= 252
      invariant Below(b, i + 1) == ByteVal(s)
    {
      ShlBit(0, i);
      i := i - 1;
    }
    HighBitsZero(s, i);
  }

  /** The window's number, most significant bit counted negatively. */
  method WindowNumber(b: Bits, i: nat, w: nat) returns (v: int)
    requires 1 <= w <= i + 1 && i <= 253
    ensures v == Window(b, i - (w - 1), w - 1)
  {
    v := -Shl(Bit(b, i), w - 1);
    for j := 0 to w - 1
      invariant v == From(b, i - (w - 1), j) - Shl(Bit(b, i), w - 1)
    {
      v := v + Shl(Bit(b, i - (w - 1) + j), j);
    }
    v := v + Bit(b, i - w);
  }

  lemma WindowInRange(b: Bits, i: nat, w: nat, v: int)
    requires 1 <= w <= i + 1 && i <= 253 && w <= 5 && (w == i + 1 || w > 1)
    requires Bit(b, i) != Bit(b, i - 1) && v == Window(b, i - (w - 1), w - 1)
    ensures v != 0 && Abs(v) <= Pow2(w - 1) <= 16
  {
    WindowBound(b, i - (w - 1), w - 1);
    Pow2Monotone(w - 1, 4);
    Pow2Values();
  }

  /** Shifts out the zero bits below the smallest set bit of v. */
  method ShiftOut(v: int) returns (s: nat, q: int)
    requires v != 0 && Abs(v) <= 16
    ensures v == Shl(q, s) && q % 2 == 1
  {
    ghost var z := TrailingZeros(v);
    Quotient(v, Pow2(z), v / Pow2(z));
    OddBound(v / Pow2(z), Pow2(z), v);
    SmallPower(z);
    var lsb := Pow2(TrailingZeros(v));
    MasksFind(z);
    s := MaskLog(lsb);
    q := v / Pow2(s);
  }

  lemma SmallPower(z: nat)
    requires Pow2(z) <= 16
    ensures z <= 4
  {
    Pow2Values();
    if z > 4 { Pow2Monotone(5, z); }
  }

  /** What moving a window of w bits into one digit z positions up keeps. */
  lemma WindowDigit(b: Bits, i: nat, w: nat, width: nat, v: int, z: nat, q: int)
    requires 1 <= w <= i + 1 && i <= 253 && w <= width && width >= 2
    requires v == Window(b, i - (w - 1), w - 1) && v != 0 && Abs(v) <= Pow2(w - 1)
    requires v == Shl(q, z) && q % 2 == 1
    ensures z < w && GoodDigit(q, width)
    ensures Tail(b, i) == Tail(b, i - w) + Shl(q, i - (w - 1) + z)
  {
    var m := i - (w - 1);
    WindowSum(b, m, w - 1);
    OddPart(v, w - 1, width, z, q);
    ShlShl(q, z, m);
  }

  lemma HighBitsZero(s: seq<u8>, i: nat)
    requires |s| == 32 && i <= 252 && Below(BitsOf(s), i + 1) == ByteVal(s)
    ensures Tail(BitsOf(s), i + 1) == ByteVal(s)
  {
    TailValue(BitsOf(s), i + 1);
    BelowMod(s, i + 1);
    ScalarBitValue(s, i + 1);
    NoBitAbove(ByteVal(s), Pow2(i + 1));
    ShlBit(0, i + 1);
  }

  lemma NoBitAbove(v: nat, p: nat)
    requires p >= 1 && v == v % p
    ensures v / p % 2 == 0
  {
    DivModUnique(v, p, 0, v);
  }

  lemma HandOut(e: int, digit: int, i: nat)
    ensures Shl(2 * e + digit, i) == Shl(e, i + 1) + Shl(digit, i)
    ensures Shl(0, i) == 0
  {
    ShlNext(e, i);
    ShlAdd(2 * e, digit, i);
  }

  // -------------------------------------------------------------------------------------
  // The merged ladder

  const P_W_WIDTH: nat := 3
  const B_W_WIDTH: nat := 5

  /** A table of the odd multiples x, 3x, 5x, ... */
  ghost predicate OddMultiples<T(!new)>(g: Group<T>, table: seq<T>, x: T, size: nat) {
    |table| == size && forall k :: 0 <= k < size ==> table[k] == Times(g, 2 * k + 1, x)
  }

  /** The table of odd multiples of x, each entry 2x more than the one before. */
  method OddTable<T(!new)>(g: Group<T>, x: T, size: nat) returns (table: seq<T>)
    requires Abelian(g) && size >= 1
    ensures OddMultiples(g, table, x, size)
  {
    var double := g.add(x, x);
    Unit(g, x);
    table := [x];
    assert Times(g, 1, x) == g.add(Times(g, 0, x), x) == x;
    TimesNext(g, 1, x);
    for i := 1 to size
      invariant OddMultiples(g, table, x, i)
    {
      TimesAdd(g, 2, 2 * (i - 1) + 1, x);
      table := table + [g.add(double, table[i - 1])];
    }
  }

  /** Adds the table entry of a digit, or subtracts that of its opposite. */
  method AddDigit<T(!new)>(g: Group<T>, sum: T, digit: int, table: seq<T>, ghost x: T, width: nat) returns (r: T)
    requires Abelian(g) && 2 <= width && OddMultiples(g, table, x, Pow2(width - 2))
    requires digit == 0 || GoodDigit(digit, width)
    ensures r == g.add(sum, Times(g, digit, x))
  {
    assert Pow2(width - 1) == 2 * Pow2(width - 2);
    r := sum;
    if digit > 0 {
      r := g.add(sum, table[digit / 2]);
    }
    if digit < 0 {
      r := g.add(sum, g.neg(table[-digit / 2]));
      TimesNeg(g, -digit, x);
    }
    if digit == 0 {
      Unit(g, sum);
    }
  }

  /** One round of the ladder on the coefficients. */
  lemma DoubleAndAdd<T(!new)>(g: Group<T>, eh: int, es: int, dh: int, ds: int, x: T, y: T)
    requires Abelian(g)
    ensures var sum := Combine(g, eh, x, es, y);
      g.add(g.add(g.add(sum, sum), Times(g, dh, x)), Times(g, ds, y))
      == Combine(g, 2 * eh + dh, x, 2 * es + ds, y)
  {
    var sum := Combine(g, eh, x, es, y);
    CombineAdd(g, eh, es, eh, es, x, y);
    CombineAdd(g, 2 * eh, 2 * es, dh, ds, x, y);
    Assoc(g, g.add(sum, sum), Times(g, dh, x), Times(g, ds, y));
  }

  /** The two table additions of one round, after the doubling. */
  method AddDigits<T(!new)>(g: Group<T>, doubled: T, dh: int, ds: int, lutA: seq<T>, b_window: seq<T>,
                            ghost x: T, ghost y: T, ghost eh: int, ghost es: int,
                            ghost eh': int, ghost es': int) returns (sum: T)
    requires Abelian(g)
    requires OddMultiples(g, lutA, x, Pow2(P_W_WIDTH - 2)) && OddMultiples(g, b_window, y, Pow2(B_W_WIDTH - 2))
    requires (dh == 0 || GoodDigit(dh, P_W_WIDTH)) && (ds == 0 || GoodDigit(ds, B_W_WIDTH))
    requires eh' == 2 * eh + dh && es' == 2 * es + ds
    requires doubled == g.add(Combine(g, eh, x, es, y), Combine(g, eh, x, es, y))
    ensures sum == Combine(g, eh', x, es', y)
  {
    sum := AddDigit(g, doubled, dh, lutA, x, P_W_WIDTH);
    sum := AddDigit(g, sum, ds, b_window, y, B_W_WIDTH);
    DoubleAndAdd(g, eh, es, dh, ds, x, y);
  }

  /** One digit of each scalar. */
  method StepBoth(h_slide: Slide, s_slide: Slide, h: seq<u8>, s: seq<u8>, i: nat, ghost below: int, ghost eh: int, ghost es: int,
                  ghost hb: Bits, ghost hv: int, ghost sb: Bits, ghost sv: int)
    returns (dh: int, ds: int, ghost eh': int, ghost es': int)
    requires |h| == |s| == 32 && i <= 253 && below == i - 1 && h_slide != s_slide
    requires hb == BitsOf(h) && hv == ByteVal(h) && sb == BitsOf(s) && sv == ByteVal(s)
    requires h_slide.Accounts(hb, hv, eh, i, P_W_WIDTH)
    requires s_slide.Accounts(sb, sv, es, i, B_W_WIDTH)
    modifies h_slide, s_slide
    ensures (dh == 0 || GoodDigit(dh, P_W_WIDTH)) && (ds == 0 || GoodDigit(ds, B_W_WIDTH))
    ensures eh' == 2 * eh + dh && h_slide.Accounts(hb, hv, eh', below, P_W_WIDTH)
    ensures es' == 2 * es + ds && s_slide.Accounts(sb, sv, es', below, B_W_WIDTH)
  {
    hide Balanced, GoodDigit, BitsOf, ByteVal;
    dh := h_slide.Step(P_W_WIDTH, i, h, eh);
    ds := s_slide.Step(B_W_WIDTH, i, s, es);
    eh', es' := 2 * eh + dh, 2 * es + ds;
  }

  /** The rounds from position `top` down to 0. */
  method Rounds<T(!new)>(g: Group<T>, x: T, ghost y: T, lutA: seq<T>, b_window: seq<T>, h_slide: Slide, s_slide: Slide,
                         h: seq<u8>, s: seq<u8>, top: nat) returns (sum: T)
    requires Abelian(g)
    requires OddMultiples(g, lutA, x, Pow2(P_W_WIDTH - 2)) && OddMultiples(g, b_window, y, Pow2(B_W_WIDTH - 2))
    requires |h| == |s| == 32 && top <= 253 && h_slide != s_slide
    requires h_slide.Accounts(BitsOf(h), ByteVal(h), 0, top, P_W_WIDTH)
    requires s_slide.Accounts(BitsOf(s), ByteVal(s), 0, top, B_W_WIDTH)
    modifies h_slide, s_slide
    ensures sum == Combine(g, ByteVal(h), x, ByteVal(s), y)
  {
    ghost var hb, hv, sb, sv := BitsOf(h), ByteVal(h), BitsOf(s), ByteVal(s);
    var i: int := top;
    sum := g.zero;
    Unit(g, g.zero);
    ghost var eh, es := 0, 0;
    while i >= 0
      invariant -1 <= i <= 253
      invariant h_slide.Accounts(hb, hv, eh, i, P_W_WIDTH)
      invariant s_slide.Accounts(sb, sv, es, i, B_W_WIDTH)
      invariant sum == Combine(g, eh, x, es, y)
    {
      var below := i - 1;
      sum := g.add(sum, sum);
      var h_digit, s_digit;
      ghost var eh', es';
      h_digit, s_digit, eh', es' := StepBoth(h_slide, s_slide, h, s, i, below, eh, es, hb, hv, sb, sv);
      sum := AddDigits(g, sum, h_digit, s_digit, lutA, b_window, x, y, eh, es, eh', es');
      eh, es := eh', es';
      i := below;
    }
    h_slide.Finish(hb, hv, eh, P_W_WIDTH);
    s_slide.Finish(sb, sv, es, B_W_WIDTH);
  }

  /** The double-scalar multiplication of `crypto_eddsa_check_equation`: [h]x + [s]y for the
      negated public key x and the base point y. */
  method Ladder<T(!new)>(g: Group<T>, x: T, ghost y: T, b_window: seq<T>, h: seq<u8>, s: seq<u8>) returns (sum: T)
    requires Abelian(g) && OddMultiples(g, b_window, y, Pow2(B_W_WIDTH - 2))
    requires |h| == |s| == 32 && ByteVal(h) < Pow2(253) && ByteVal(s) < Pow2(253)
    ensures sum == Combine(g, ByteVal(h), x, ByteVal(s), y)
  {
    var lutA := OddTable(g, x, Pow2(P_W_WIDTH - 2));
    var h_slide := new Slide(h);
    var s_slide := new Slide(s);
    var top := if h_slide.next_check < s_slide.next_check then s_slide.next_check else h_slide.next_check;
    h_slide.Start(BitsOf(h), ByteVal(h), top, P_W_WIDTH);
    s_slide.Start(BitsOf(s), ByteVal(s), top, B_W_WIDTH);
    sum := Rounds(g, x, y, lutA, b_window, h_slide, s_slide, h, s, top);
  }
}
