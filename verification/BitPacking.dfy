/** Bits in bytes, most significant first: how both QR libraries number the bits of their
    codewords. */
module BitPacking {
  import ModArith
  import opened Limbs
  import opened Bytes

  /** `getBit(data[i >> 3], 7 - (i & 7))`. */
  function DataBit(data: seq<u8>, i: nat): bool
    requires i < 8 * |data|
  {
    data[i / 8] / Pow2(7 - i % 8) % 2 == 1
  }

  function BitAt(bits: seq<bool>, i: nat): nat {
    if i < |bits| && bits[i] then 1 else 0
  }

  /** The number of n bits, most significant first. */
  function Number(bits: seq<bool>, pos: nat, n: nat): nat {
    if n == 0 then 0 else 2 * Number(bits, pos, n - 1) + BitAt(bits, pos + n - 1)
  }

  lemma {:induction false} NumberEmpty(pos: nat, n: nat)
    ensures Number([], pos, n) == 0
  {
    if n > 0 { NumberEmpty(pos, n - 1); }
  }

  lemma {:induction false} NumberBound(bits: seq<bool>, pos: nat, n: nat)
    ensures Number(bits, pos, n) < Pow2(n)
  {
    if n > 0 { NumberBound(bits, pos, n - 1); }
  }

  /** The byte of eight bits; missing bits are 0. */
  function PackByte(bits: seq<bool>, k: nat): u8 {
    NumberBound(bits, 8 * k, 8);
    Pow2Values();
    Number(bits, 8 * k, 8)
  }

  function Packed(bits: seq<bool>, len: nat): (r: seq<u8>)
    ensures |r| == len && forall k :: 0 <= k < len ==> r[k] == PackByte(bits, k)
  {
    seq(len, k requires 0 <= k < len => PackByte(bits, k))
  }

  /** `x | 0x80 >> b` where that bit and those below it are clear. */
  function OrBit(x: nat, b: nat): nat
    requires b < 8 && x % Pow2(8 - b) == 0
  {
    x + Pow2(7 - b)
  }

  /** The number one more bit makes. */
  lemma {:induction false} NumberAppend(bits: seq<bool>, v: bool, pos: nat, n: nat)
    ensures var b := |bits| - pos;
      Number(bits + [v], pos, n) == Number(bits, pos, n) + (if 0 <= b < n && v then Pow2(n - 1 - b) else 0)
  {
    if n > 0 {
      NumberAppend(bits, v, pos, n - 1);
    }
  }

  /** A bit that is still missing is clear, with all those below it. */
  lemma {:induction false} NumberClear(bits: seq<bool>, pos: nat, n: nat)
    requires pos <= |bits| <= pos + n
    ensures Number(bits, pos, n) % Pow2(n - (|bits| - pos)) == 0
  {
    var b := |bits| - pos;
    if b == n {
      assert Pow2(0) == 1;
    } else {
      NumberClear(bits, pos, n - 1);
      DoubleMultiple(Number(bits, pos, n - 1), Pow2(n - 1 - b));
    }
  }

  lemma DoubleMultiple(x: nat, p: nat)
    requires p > 0 && x % p == 0
    ensures 2 * x % (2 * p) == 0
  {
    assert x == x / p * p;
    ModArith.DivModUnique(2 * x, 2 * p, x / p, 0);
  }

  lemma AppendBit(bits: seq<bool>, v: bool, k: nat, b: nat)
    requires |bits| == 8 * k + b && b < 8
    ensures PackByte(bits, k) % Pow2(8 - b) == 0
    ensures PackByte(bits + [v], k) == if v then OrBit(PackByte(bits, k), b) else PackByte(bits, k)
  {
    NumberAppend(bits, v, 8 * k, 8);
    NumberClear(bits, 8 * k, 8);
  }

  lemma AppendElsewhere(bits: seq<bool>, v: bool, k: nat, j: nat)
    requires 8 * k <= |bits| < 8 * k + 8 && j != k
    ensures PackByte(bits + [v], j) == PackByte(bits, j)
  {
    NumberAppend(bits, v, 8 * j, 8);
  }

  /** Eight bits of a byte make the byte. */
  lemma PackDataByte(bits: seq<bool>, data: seq<u8>, k: nat)
    requires k < |data| && 8 * k + 8 <= |bits|
    requires forall i :: 8 * k <= i < 8 * k + 8 ==> bits[i] == DataBit(data, i)
    ensures PackByte(bits, k) == data[k]
  {
    TopBits(bits, data, k, 8);
    assert Pow2(0) == 1;
  }

  lemma {:induction false} TopBits(bits: seq<bool>, data: seq<u8>, k: nat, n: nat)
    requires n <= 8 && k < |data| && 8 * k + 8 <= |bits|
    requires forall i :: 8 * k <= i < 8 * k + 8 ==> bits[i] == DataBit(data, i)
    ensures Number(bits, 8 * k, n) == data[k] / Pow2(8 - n)
  {
    if n == 0 {
      Pow2Values();
    } else {
      TopBits(bits, data, k, n - 1);
      var i := 8 * k + (n - 1);
      assert i / 8 == k && i % 8 == n - 1;
      assert bits[i] == DataBit(data, i);
      HalfStep(data[k], Pow2(8 - n));
    }
  }

  lemma HalfStep(x: nat, p: nat)
    requires p > 0
    ensures x / p == 2 * (x / (2 * p)) + x / p % 2
  {
    var q, r := x / p, x % p;
    assert x == q * p + r;
    assert q == 2 * (q / 2) + q % 2;
    assert q * p == (q / 2) * (2 * p) + q % 2 * p;
    ModArith.MulMono(q % 2, 1, p);
    ModArith.MulMono(0, q % 2, p);
    ModArith.DivModUnique(x, 2 * p, q / 2, q % 2 * p + r);
  }

  /** The bits of whole bytes. */
  function Stream(data: seq<u8>): (bits: seq<bool>)
    ensures |bits| == 8 * |data| && forall i :: 0 <= i < |bits| ==> bits[i] == DataBit(data, i)
  {
    seq(8 * |data|, i requires 0 <= i < 8 * |data| => DataBit(data, i))
  }

  /** Shifting out the low bits leaves the number of the first ones. */
  lemma {:induction false} NumberShift(bits: seq<bool>, pos: nat, n: nat, m: nat)
    requires m <= n
    ensures Number(bits, pos, n) / Pow2(n - m) == Number(bits, pos, m)
    decreases n - m
  {
    if m < n {
      NumberShift(bits, pos, n, m + 1);
      HalfStep(Number(bits, pos, n), Pow2(n - m - 1));
      assert Number(bits, pos, m + 1) == 2 * Number(bits, pos, m) + BitAt(bits, pos + m);
    } else {
      assert Pow2(0) == 1;
    }
  }

  lemma NumberBit(bits: seq<bool>, pos: nat, n: nat, b: nat)
    requires b < n && pos + b < |bits|
    ensures (Number(bits, pos, n) / Pow2(n - 1 - b) % 2 == 1) == bits[pos + b]
  {
    NumberShift(bits, pos, n, b + 1);
    assert Number(bits, pos, b + 1) == 2 * Number(bits, pos, b) + BitAt(bits, pos + b);
  }

  /** Packing loses nothing. */
  lemma PackedStream(bits: seq<bool>, len: nat)
    requires |bits| == 8 * len
    ensures Stream(Packed(bits, len)) == bits
  {
    hide Number;
    forall i: nat | i < |bits|
      ensures DataBit(Packed(bits, len), i) == bits[i]
    {
      NumberBit(bits, 8 * (i / 8), 8, i % 8);
    }
  }
}
