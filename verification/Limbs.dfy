/** Little-endian multi-precision numbers over 32-bit limbs, as the C code stores them in
    `u32` arrays, and the one inner loop all its products share. */
module Limbs {
  import opened ModArith

  const BASE: nat := 0x1_0000_0000

  // The C code's machine words. A value assigned to a `u64` is proved to fit, so the model
  // uses exact integers where the C uses unsigned 64-bit arithmetic.
  type u8 = x: int | 0 <= x < 0x100
  type u32 = x: int | 0 <= x < 0x1_0000_0000
  type u64 = x: int | 0 <= x < 0x1_0000_0000_0000_0000

  ghost function Pow(k: nat): (r: nat)
    ensures r >= 1
  {
    if k == 0 then 1 else BASE * Pow(k - 1)
  }

  /** The number a little-endian limb sequence stands for. */
  ghost function Val(s: seq<u32>): nat
  {
    if s == [] then 0 else Val(s[..|s| - 1]) + s[|s| - 1] * Pow(|s| - 1)
  }

  lemma {:induction false} PowAdd(i: nat, j: nat)
    ensures Pow(i + j) == Pow(i) * Pow(j)
  {
    if i > 0 {
      PowAdd(i - 1, j);
      assert Pow(i) * Pow(j) == BASE * (Pow(i - 1) * Pow(j));
    }
  }

  lemma ValSnoc(s: seq<u32>, x: u32)
    ensures Val(s + [x]) == Val(s) + x * Pow(|s|)
  {
    assert (s + [x])[..|s|] == s;
  }

  lemma {:induction false} ValBound(s: seq<u32>)
    ensures Val(s) < Pow(|s|)
  {
    if s != [] {
      ValBound(s[..|s| - 1]);
      MulMono(s[|s| - 1], BASE - 1, Pow(|s| - 1));
    }
  }

  lemma {:induction false} ValConcat(s: seq<u32>, t: seq<u32>)
    ensures Val(s + t) == Val(s) + Pow(|s|) * Val(t)
  {
    if t == [] {
      assert s + t == s;
    } else {
      var t' := t[..|t| - 1];
      ValConcat(s, t');
      assert (s + t)[..|s + t| - 1] == s + t';
      PowAdd(|s|, |t'|);
      MulSplit(Pow(|s|), Val(t'), t[|t| - 1], Pow(|t'|));
    }
  }

  lemma PowSplit(i: nat, n: nat)
    requires i <= n
    ensures Pow(n) == Pow(i) * Pow(n - i)
  {
    PowAdd(i, n - i);
  }

  lemma ValSplit(s: seq<u32>, k: nat)
    requires k <= |s|
    ensures Val(s) == Val(s[..k]) + Pow(k) * Val(s[k..])
  {
    var a, b := s[..k], s[k..];
    assert s == a + b;
    ValConcat(a, b);
  }

  lemma {:induction false} ValUpdate(s: seq<u32>, i: nat, v: u32)
    requires i < |s|
    ensures Val(s[i := v]) == Val(s) + (v - s[i]) * Pow(i)
  {
    var n := |s| - 1;
    if i == n {
      assert s[i := v][..n] == s[..n];
    } else {
      assert s[i := v][..n] == s[..n][i := v];
      ValUpdate(s[..n], i, v);
    }
  }

  lemma {:induction false} ValZero(s: seq<u32>)
    requires forall k :: 0 <= k < |s| ==> s[k] == 0
    ensures Val(s) == 0
  {
    if s != [] { ValZero(s[..|s| - 1]); }
  }

  /** The carry step every row performs on the prefix that holds the result. */
  lemma RowStep(s: seq<u32>, at: nat, j: nat, x: u32, b: seq<u32>, carry: int, c: int, start: int)
    requires at + j < |s| && j < |b|
    requires c == carry + s[at + j] + x * b[j] && c >= 0
    requires c / BASE < BASE
    requires Val(s) + carry * Pow(at + j) == start + x * Val(b[..j]) * Pow(at)
    ensures Val(s[at + j := c % BASE]) + (c / BASE) * Pow(at + j + 1)
         == start + x * Val(b[..j + 1]) * Pow(at)
  {
    ValUpdate(s, at + j, c % BASE);
    PowAdd(at, j);
    assert b[..j + 1] == b[..j] + [b[j]];
    ValSnoc(b[..j], b[j]);
    CarryStep(carry, s[at + j], x * b[j], c % BASE, c / BASE, BASE, Pow(at + j));
    Distribute(x, Val(b[..j]), b[j], Pow(j), Pow(at));
  }

  lemma CarryStep(carry: int, old_: int, prod: int, lo: int, hi: int, base: int, p: int)
    requires carry + old_ + prod == lo + hi * base
    ensures (lo - old_) * p + hi * (base * p) == carry * p + prod * p
  {
    assert hi * (base * p) == (hi * base) * p;
    assert (lo - old_ + hi * base) * p == (carry + prod) * p;
  }

  lemma Distribute(x: int, v: int, y: int, q: int, p: int)
    ensures x * (v + y * q) * p == x * v * p + (x * y) * (p * q)
  {
    assert x * (v + y * q) == x * v + (x * y) * q;
    assert ((x * y) * q) * p == (x * y) * (p * q);
  }

  lemma MulSplit(a: int, v: int, x: int, b: int)
    ensures a * (v + x * b) == a * v + x * (a * b)
  {
  }

  /** The inner loop of the schoolbook products: p += x * b[..n] at limb `at`, with the
      carry out returned. Limbs from at+n on are not touched. */
  method MulRow(p: array<u32>, at: nat, x: u32, b: seq<u32>, n: nat) returns (carry: u32)
    requires at + n <= p.Length && n <= |b|
    modifies p
    ensures Val(p[..at + n]) + carry * Pow(at + n) == old(Val(p[..at + n])) + x * Val(b[..n]) * Pow(at)
    ensures p[at + n..] == old(p[at + n..])
  {
    carry := 0;
    for j := 0 to n
      invariant Val(p[..at + n]) + carry * Pow(at + j) == old(Val(p[..at + n])) + x * Val(b[..j]) * Pow(at)
      invariant p[at + n..] == old(p[at + n..])
    {
      MulBound(x, b[j]);
      var c: u64 := carry + p[at + j] + x * b[j];
      RowStep(p[..at + n], at, j, x, b, carry, c, old(Val(p[..at + n])));
      ghost var before := p[..at + n];
      var lo: u32 := c % BASE;
      p[at + j] := lo;
      carry := c / BASE;
      assert p[..at + n] == before[at + j := lo];
    }
  }

  /** The largest product leaves room for two more 32-bit terms. */
  lemma MulBound(x: u32, y: u32)
    ensures 0 <= x * y <= (BASE - 1) * (BASE - 1)
  {
    MulBounds(x, y, BASE - 1, BASE - 1);
  }

  /** The carry step of an addition loop that appends one limb of the sum per turn. */
  lemma AddStep(sum: seq<u32>, a: seq<u32>, b: seq<u32>, i: nat, carry: int, c: int, c0: int, lo: u32, hi: int)
    requires |sum| == i < |a| && i < |b|
    requires c == carry + a[i] + b[i] && c == lo + hi * BASE
    requires Val(sum) + carry * Pow(i) == c0 + Val(a[..i]) + Val(b[..i])
    ensures Val(sum + [lo]) + hi * Pow(i + 1) == c0 + Val(a[..i + 1]) + Val(b[..i + 1])
  {
    ValSnoc(sum, lo);
    assert a[..i + 1] == a[..i] + [a[i]] && b[..i + 1] == b[..i] + [b[i]];
    ValSnoc(a[..i], a[i]);
    ValSnoc(b[..i], b[i]);
    CarryStep(carry, a[i], b[i], lo, hi, BASE, Pow(i));
    assert (lo - a[i]) * Pow(i) == lo * Pow(i) - a[i] * Pow(i);
  }

  function Complement(s: seq<u32>): (r: seq<u32>)
    ensures |r| == |s|
    ensures forall i :: 0 <= i < |s| ==> r[i] == BASE - 1 - s[i]
  {
    seq(|s|, i requires 0 <= i < |s| => BASE - 1 - s[i])
  }

  lemma {:induction false} ValComplement(s: seq<u32>)
    ensures Val(Complement(s)) == Pow(|s|) - 1 - Val(s)
  {
    if s != [] {
      var n := |s| - 1;
      ValComplement(s[..n]);
      assert Complement(s)[..n] == Complement(s[..n]);
      ComplementStep(BASE, s[n], Pow(n));
    }
  }

  lemma ComplementStep(base: int, x: int, p: int)
    ensures (base - 1 - x) * p == base * p - p - x * p
  {
  }

  /** Spells out the value of eight limbs. */
  lemma Val8(s: seq<u32>)
    requires |s| == 8
    ensures Val(s) == s[0] as int + s[1] as int * 0x1_00000000 + s[2] as int * 0x1_00000000_00000000
      + s[3] as int * 0x1_00000000_00000000_00000000 + s[4] as int * 0x1_00000000_00000000_00000000_00000000
      + s[5] as int * 0x1_00000000_00000000_00000000_00000000_00000000
      + s[6] as int * 0x1_00000000_00000000_00000000_00000000_00000000_00000000
      + s[7] as int * 0x1_00000000_00000000_00000000_00000000_00000000_00000000_00000000
  {
    PowLiterals();
    assert s[..7][..6] == s[..6] && s[..6][..5] == s[..5] && s[..5][..4] == s[..4];
    assert s[..4][..3] == s[..3] && s[..3][..2] == s[..2] && s[..2][..1] == s[..1] && s[..1][..0] == [];
    assert Val(s[..1]) == s[0] && Val(s[..2]) == Val(s[..1]) + s[1] * Pow(1);
    assert Val(s[..3]) == Val(s[..2]) + s[2] * Pow(2) && Val(s[..4]) == Val(s[..3]) + s[3] * Pow(3);
    assert Val(s[..5]) == Val(s[..4]) + s[4] * Pow(4) && Val(s[..6]) == Val(s[..5]) + s[5] * Pow(5);
    assert Val(s[..7]) == Val(s[..6]) + s[6] * Pow(6) && Val(s) == Val(s[..7]) + s[7] * Pow(7);
  }

  lemma PowLiterals()
    ensures Pow(0) == 1 && Pow(1) == 0x1_00000000 && Pow(2) == 0x1_00000000_00000000
    ensures Pow(3) == 0x1_00000000_00000000_00000000 && Pow(4) == 0x1_00000000_00000000_00000000_00000000
    ensures Pow(5) == 0x1_00000000_00000000_00000000_00000000_00000000
    ensures Pow(6) == 0x1_00000000_00000000_00000000_00000000_00000000_00000000
    ensures Pow(7) == 0x1_00000000_00000000_00000000_00000000_00000000_00000000_00000000
    ensures Pow(8) == 0x1_00000000_00000000_00000000_00000000_00000000_00000000_00000000_00000000
  {
  }
}
