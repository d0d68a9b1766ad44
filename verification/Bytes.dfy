/** Little-endian loads and stores between byte buffers and 32-bit limbs, and the bits of a
    little-endian scalar. */
module Bytes {
  import opened ModArith
  import opened Limbs

  function Pow256(k: nat): (r: nat)
    ensures r >= 1
  {
    if k == 0 then 1 else 256 * Pow256(k - 1)
  }

  function Pow2(k: nat): (r: nat)
    ensures r >= 1
  {
    if k == 0 then 1 else 2 * Pow2(k - 1)
  }

  lemma {:induction false} Pow2Monotone(i: nat, j: nat)
    requires i <= j
    ensures Pow2(i) <= Pow2(j)
  {
    if i < j { Pow2Monotone(i, j - 1); }
  }

  /** The number a little-endian byte sequence stands for. */
  ghost function ByteVal(s: seq<u8>): nat
  {
    if s == [] then 0 else s[0] + 256 * ByteVal(s[1..])
  }

  function Load32(a: u8, b: u8, c: u8, d: u8): u32
  {
    a + 0x100 * b + 0x1_0000 * c + 0x100_0000 * d
  }

  /** `load32_le_buf`: as many limbs as there are groups of four bytes. */
  function LoadBuf(s: seq<u8>): (r: seq<u32>)
    requires |s| % 4 == 0
    ensures |r| == |s| / 4
  {
    if s == [] then [] else [Load32(s[0], s[1], s[2], s[3])] + LoadBuf(s[4..])
  }

  /** `store32_le_buf`. */
  function StoreBuf(l: seq<u32>): (r: seq<u8>)
    ensures |r| == 4 * |l|
  {
    if l == [] then []
    else
      var w: u32 := l[0];
      [w % 256, w / 256 % 256, w / 0x1_0000 % 256, w / 0x100_0000] + StoreBuf(l[1..])
  }

  lemma {:induction false} LoadValue(s: seq<u8>)
    requires |s| % 4 == 0
    ensures Val(LoadBuf(s)) == ByteVal(s)
  {
    if s != [] {
      LoadValue(s[4..]);
      ValConcat([Load32(s[0], s[1], s[2], s[3])], LoadBuf(s[4..]));
      ByteVal4(s);
      assert Pow(1) == BASE;
    }
  }

  lemma ByteVal4(s: seq<u8>)
    requires |s| >= 4
    ensures ByteVal(s) == Load32(s[0], s[1], s[2], s[3]) + BASE * ByteVal(s[4..])
  {
    assert s[1..][1..] == s[2..] && s[2..][1..] == s[3..] && s[3..][1..] == s[4..];
    assert ByteVal(s) == s[0] + 256 * ByteVal(s[1..]) && ByteVal(s[1..]) == s[1] + 256 * ByteVal(s[2..]);
    assert ByteVal(s[2..]) == s[2] + 256 * ByteVal(s[3..]) && ByteVal(s[3..]) == s[3] + 256 * ByteVal(s[4..]);
  }

  lemma {:induction false} StoreValue(l: seq<u32>)
    ensures ByteVal(StoreBuf(l)) == Val(l)
  {
    if l != [] {
      StoreValue(l[1..]);
      assert l == [l[0]] + l[1..];
      ValConcat([l[0]], l[1..]);
      assert Pow(1) == BASE && Val([l[0]]) == l[0];
      var s := StoreBuf(l);
      ByteVal4(s);
      assert s[4..] == StoreBuf(l[1..]);
      ByteSplit(l[0]);
    }
  }

  lemma ByteSplit(w: u32)
    ensures w % 256 + 0x100 * (w / 256 % 256) + 0x1_0000 * (w / 0x1_0000 % 256) + 0x100_0000 * (w / 0x100_0000) == w
  {
    assert w / 256 / 256 == w / 0x1_0000;
    assert w / 0x1_0000 / 256 == w / 0x100_0000;
  }

  lemma {:induction false} ByteConcat(s: seq<u8>, t: seq<u8>)
    ensures ByteVal(s + t) == ByteVal(s) + Pow256(|s|) * ByteVal(t)
  {
    if s == [] {
      assert s + t == t;
    } else {
      ByteConcat(s[1..], t);
      assert (s + t)[1..] == s[1..] + t;
      ConcatStep(256, Pow256(|s| - 1), ByteVal(t), ByteVal(s[1..]));
    }
  }

  lemma ConcatStep(b: int, p: int, t: int, v: int)
    ensures b * (v + p * t) == b * v + (b * p) * t
  {
  }

  lemma DivTwice(x: nat, p: nat)
    requires p >= 1
    ensures x / (256 * p) == x / 256 / p && x % (256 * p) == x % 256 + 256 * (x / 256 % p)
  {
    var q := x / 256;
    assert x == 256 * q + x % 256 && q == q / p * p + q % p;
    assert 256 * (q / p * p) == q / p * (256 * p) by { MulTriple(256, q / p, p); MulTriple(q / p, 256, p); }
    assert 256 * q == 256 * (q / p * p) + 256 * (q % p);
    DivModUnique(x, 256 * p, q / p, x % 256 + 256 * (q % p));
  }

  /** The bytes of a number, lowest first, are a buffer of that value. */
  lemma {:induction false} LowestFirst(s: seq<u8>, x: nat)
    requires forall i :: 0 <= i < |s| ==> s[i] == x / Pow256(i) % 256
    ensures ByteVal(s) == x % Pow256(|s|)
  {
    if s != [] {
      var rest := s[1..];
      forall i | 0 <= i < |rest|
        ensures rest[i] == x / 256 / Pow256(i) % 256
      {
        assert rest[i] == s[i + 1];
        DivTwice(x, Pow256(i));
      }
      LowestFirst(rest, x / 256);
      DivTwice(x, Pow256(|rest|));
      assert Pow256(0) == 1;
    }
  }

  /** `scalar_bit`: bit i of a little-endian byte buffer. */
  function ScalarBit(s: seq<u8>, i: nat): (r: nat)
    requires i < 8 * |s|
    ensures r <= 1
  {
    s[i / 8] / Pow2(i % 8) % 2
  }

  /** A bit of the buffer is the bit of the number. */
  lemma {:induction false} ScalarBitValue(s: seq<u8>, i: nat)
    requires i < 8 * |s|
    ensures ScalarBit(s, i) == ByteVal(s) / Pow2(i) % 2
  {
    if i < 8 {
      LowByteBit(s[0], ByteVal(s[1..]), i);
    } else {
      ScalarBitValue(s[1..], i - 8);
      assert s[1..][(i - 8) / 8] == s[i / 8];
      DropByte(s[0], ByteVal(s[1..]), i - 8);
    }
  }

  lemma {:induction false} Pow2Add(i: nat, j: nat)
    ensures Pow2(i + j) == Pow2(i) * Pow2(j)
  {
    if i > 0 {
      Pow2Add(i - 1, j);
      MulTriple(2, Pow2(i - 1), Pow2(j));
    }
  }

  lemma Pow2Values()
    ensures Pow2(0) == 1 && Pow2(1) == 2 && Pow2(2) == 4 && Pow2(3) == 8
    ensures Pow2(4) == 16 && Pow2(5) == 32 && Pow2(6) == 64 && Pow2(7) == 128 && Pow2(8) == 256
  {
    assert Pow2(4) == 16;
  }

  /** Bit i of a number. */
  function NumBit(x: nat, i: nat): nat {
    x / Pow2(i) % 2
  }

  lemma Pow2Split(i: nat, m: nat)
    requires i < m
    ensures Pow2(m) == Pow2(i) * (2 * Pow2(m - i - 1))
  {
    Pow2Add(i, m - i);
  }

  /** Adding a multiple of 2^m changes no bit below m ... */
  lemma BitLow(x: nat, rest: nat, m: nat, i: nat)
    requires i < m
    ensures NumBit(x + Pow2(m) * rest, i) == NumBit(x, i)
  {
    Pow2Split(i, m);
    hide Pow2;
    ShiftBelow(x, rest, Pow2(i), Pow2(m - i - 1));
  }

  /** ... and puts its bits at m, above a number of m bits. */
  lemma BitHigh(x: nat, rest: nat, m: nat, i: nat)
    requires x < Pow2(m)
    ensures (x + Pow2(m) * rest) / Pow2(m + i) == rest / Pow2(i) && NumBit(x + Pow2(m) * rest, m + i) == NumBit(rest, i)
  {
    Pow2Add(m, i);
    DropLow(x, rest, Pow2(m), Pow2(i));
  }

  lemma DropLow(x: nat, rest: nat, h: nat, p: nat)
    requires x < h && p >= 1
    ensures h * p >= 1 && (x + h * rest) / (h * p) == rest / p
  {
    var q, r := rest / p, rest % p;
    assert rest == q * p + r;
    assert h * rest == q * (h * p) + h * r by {
      MulTriple(h, q, p);
      MulTriple(q, h, p);
      assert h * (q * p + r) == h * (q * p) + h * r;
    }
    MulMono(r + 1, p, h);
    MulMono(1, p, h);
    assert (r + 1) * h == r * h + h;
    DivModUnique(x + h * rest, h * p, q, h * r + x);
  }

  lemma LowByteBit(x: u8, rest: nat, i: nat)
    requires i < 8
    ensures (x + 256 * rest) / Pow2(i) % 2 == x / Pow2(i) % 2
  {
    Pow2Values();
    BitLow(x, rest, 8, i);
  }

  lemma ShiftBelow(x: nat, rest: nat, p: nat, h: nat)
    requires p >= 1
    ensures (x + p * (2 * h) * rest) / p % 2 == x / p % 2
  {
    var q, r := x / p, x % p;
    Regroup(p, h, rest);
    assert x == q * p + r;
    assert (q + 2 * (h * rest)) * p == q * p + (2 * (h * rest)) * p;
    DivModUnique(x + p * (2 * h) * rest, p, q + 2 * (h * rest), r);
    ParityShift(q, h * rest);
  }

  lemma Regroup(p: int, h: int, rest: int)
    ensures p * (2 * h) * rest == (2 * (h * rest)) * p
  {
    MulTriple(p, 2 * h, rest);
    MulTriple(2, h, rest);
  }

  lemma ParityShift(q: int, t: int)
    ensures (q + 2 * t) % 2 == q % 2
  {
  }

  lemma DropByte(x: u8, rest: nat, i: nat)
    ensures (x + 256 * rest) / Pow2(i + 8) == rest / Pow2(i)
  {
    Pow2Values();
    BitHigh(x, rest, 8, i);
  }

  lemma {:induction false} Pow2Bytes(k: nat)
    ensures Pow2(8 * k) == Pow256(k)
  {
    if k > 0 {
      Pow2Bytes(k - 1);
      Pow2Add(8, 8 * k - 8);
      Pow2Values();
    }
  }

  lemma Pow256Literal()
    ensures Pow256(16) == 0x1_00000000_00000000_00000000_00000000
    ensures Pow256(32) == 0x1_00000000_00000000_00000000_00000000_00000000_00000000_00000000_00000000
  {
    assert Pow256(8) == 0x1_00000000_00000000;
    assert Pow256(16) == 0x1_00000000_00000000_00000000_00000000;
    assert Pow256(24) == 0x1_00000000_00000000_00000000_00000000_00000000_00000000;
  }

  /** The message that a list of updates makes. */
  function Join(chunks: seq<seq<u8>>): seq<u8> {
    if chunks == [] then [] else Join(chunks[..|chunks| - 1]) + chunks[|chunks| - 1]
  }

  // -------------------------------------------------------------------------------------
  // Buffers that are filled up and emptied

  /** `gap`: what is missing to the next multiple of p. */
  function Gap(x: int, p: nat): nat
    requires p > 0
  {
    -x % p
  }

  lemma GapBelow(x: nat, p: nat)
    requires x < p
    ensures Gap(x, p) == if x == 0 then 0 else p - x
  {
  }

  /** A message cut at b and e. */
  lemma Pieces(before: seq<u8>, m: seq<u8>, b: nat, e: nat)
    requires b <= e <= |m|
    ensures m[b..][e - b..] == m[e..]
    ensures before + m[..b] + m[b..][..e - b] + m[e..] == before + m
    ensures e == |m| ==> before + m[..b] + m[b..][..e - b] == before + m
  {
    assert m == m[..b] + m[b..];
    assert m[b..] == m[b..][..e - b] + m[e..];
  }
}
