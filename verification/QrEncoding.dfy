/** qrcodegen's encodeSegments: the smallest version, the terminator and the padding. The table
    of capacities is a parameter. */
module QrEncoding {
  import opened Limbs
  import opened Bytes
  import opened BitPacking
  import opened QrSegments
  import opened Wrappers

  datatype Ecc = Low | Medium | Quartile | High

  /** `getNumDataCodewords`. */
  type Capacity = (int, Ecc) -> nat

  // -------------------------------------------------------------------------------------
  // Lengths

  /** Every segment's length fits the width of its field. */
  predicate LengthsFit(segs: seq<Segment>, version: int)
    requires 1 <= version <= 40
  {
    forall i :: 0 <= i < |segs| ==> segs[i].numChars < Pow2(CharCountBits(segs[i].mode, version))
  }

  function SumBits(segs: seq<Segment>, version: int): nat
    requires 1 <= version <= 40
  {
    if segs == [] then 0
    else
      var seg := segs[|segs| - 1];
      SumBits(segs[..|segs| - 1], version) + 4 + CharCountBits(seg.mode, version) + |seg.data|
  }

  lemma {:induction false} SumGrows(segs: seq<Segment>, version: int, k: nat)
    requires 1 <= version <= 40 && k <= |segs|
    ensures SumBits(segs[..k], version) <= SumBits(segs, version)
    decreases |segs| - k
  {
    if k == |segs| {
      assert segs[..k] == segs;
    } else {
      SumGrows(segs, version, k + 1);
      assert segs[..k + 1][..k] == segs[..k];
    }
  }

  /** `getTotalBits`, with its checks against the range of an int. */
  method GetTotalBits(segs: seq<Segment>, version: int) returns (result: int)
    requires 1 <= version <= 40
    ensures result == if LengthsFit(segs, version) && SumBits(segs, version) <= INT_MAX then SumBits(segs, version) else -1
  {
    hide SumBits;
    result := 0;
    EmptySum(segs, version);
    for i := 0 to |segs|
      invariant result == SumBits(segs[..i], version) <= INT_MAX && LengthsFit(segs[..i], version)
    {
      var seg := segs[i];
      var ccbits := CharCountBits(seg.mode, version);
      SumNext(segs, version, i);
      SumGrows(segs, version, i + 1);
      assert segs[..i + 1] == segs[..i] + [seg];
      if seg.numChars >= Pow2(ccbits) {
        return -1;
      }
      if 4 + ccbits > INT_MAX - result {
        return -1;
      }
      result := result + 4 + ccbits;
      if |seg.data| > INT_MAX - result {
        return -1;
      }
      result := result + |seg.data|;
    }
    assert segs[..|segs|] == segs;
  }

  lemma EmptySum(segs: seq<Segment>, version: int)
    requires 1 <= version <= 40
    ensures SumBits(segs[..0], version) == 0
  {
  }

  lemma SumNext(segs: seq<Segment>, version: int, i: nat)
    requires 1 <= version <= 40 && i < |segs|
    ensures SumBits(segs[..i + 1], version)
      == SumBits(segs[..i], version) + 4 + CharCountBits(segs[i].mode, version) + |segs[i].data|
  {
    assert segs[..i + 1][..i] == segs[..i];
  }

  /** The segments fit a version at an error correction level. */
  predicate Suits(segs: seq<Segment>, version: int, ecl: Ecc, capacity: Capacity)
    requires 1 <= version <= 40
  {
    LengthsFit(segs, version) && SumBits(segs, version) <= INT_MAX && SumBits(segs, version) <= 8 * capacity(version, ecl)
  }

  // -------------------------------------------------------------------------------------
  // The bit string

  function Header(seg: Segment, version: int): seq<bool>
    requires 1 <= version <= 40
  {
    BitsOf(ModeBits(seg.mode), 4) + BitsOf(seg.numChars, CharCountBits(seg.mode, version))
  }

  function Encoded(segs: seq<Segment>, version: int): (r: seq<bool>)
    requires 1 <= version <= 40
    ensures |r| == SumBits(segs, version)
  {
    if segs == [] then []
    else
      var seg := segs[|segs| - 1];
      Encoded(segs[..|segs| - 1], version) + (Header(seg, version) + seg.data)
  }

  /** Alternating padding bytes. */
  function PadBits(n: nat, padByte: u8): (r: seq<bool>)
    ensures |r| == 8 * n
  {
    if n == 0 then [] else BitsOf(padByte, 8) + PadBits(n - 1, NextPad(padByte))
  }

  /** `padByte ^= 0xEC ^ 0x11`, on the two values it takes. */
  function NextPad(padByte: u8): u8 {
    if padByte == 0xEC then 0x11 else 0xEC
  }

  function PadAt(n: nat, padByte: u8): u8 {
    if n == 0 then padByte else PadAt(n - 1, NextPad(padByte))
  }

  lemma {:induction false} PadSnoc(n: nat, padByte: u8)
    ensures PadBits(n + 1, padByte) == PadBits(n, padByte) + BitsOf(PadAt(n, padByte), 8)
    ensures PadAt(n + 1, padByte) == NextPad(PadAt(n, padByte))
  {
    hide BitsOf, NextPad;
    if n == 0 {
      assert PadBits(1, padByte) == BitsOf(padByte, 8) + PadBits(0, NextPad(padByte));
    } else {
      PadSnoc(n - 1, NextPad(padByte));
    }
  }

  function Terminator(used: nat, capacityBits: nat): nat
    requires used <= capacityBits
  {
    if capacityBits - used < 4 then capacityBits - used else 4
  }

  function ToByte(n: nat): (k: nat)
    ensures (n + k) % 8 == 0 && k < 8
  {
    (8 - n % 8) % 8
  }

  /** Terminator, bits to a byte boundary, padding bytes: exactly the capacity. */
  ghost predicate IsFilled(bits: seq<bool>, encoded: seq<bool>, capacityBits: nat) {
    && |encoded| <= capacityBits == |bits|
    && (var t := Terminator(|encoded|, capacityBits);
        var a := ToByte(|encoded| + t);
        exists n: nat :: bits == encoded + BitsOf(0, t) + BitsOf(0, a) + PadBits(n, 0xEC))
  }

  method AppendAll(bb: BitBuffer, data: seq<bool>)
    modifies bb
    ensures bb.bits == old(bb.bits) + data
  {
    bb.bits := bb.bits + data;
  }

  /** All segments, one after the other. */
  method Concatenate(segs: seq<Segment>, version: int) returns (bb: BitBuffer)
    requires 1 <= version <= 40 && LengthsFit(segs, version)
    ensures fresh(bb) && bb.bits == Encoded(segs, version)
  {
    hide BitsOf, Encoded, CharCountBits, ModeBits;
    bb := new BitBuffer();
    EncodedNothing(segs, version);
    for i := 0 to |segs|
      invariant bb.bits == Encoded(segs[..i], version)
    {
      var seg := segs[i];
      FieldWidths(seg, version);
      EncodedNext(segs, version, i);
      var ok := bb.AppendBits(ModeBits(seg.mode), 4);
      ok := bb.AppendBits(seg.numChars, CharCountBits(seg.mode, version));
      AppendAll(bb, seg.data);
    }
    assert segs[..|segs|] == segs;
  }

  lemma EncodedNothing(segs: seq<Segment>, version: int)
    requires 1 <= version <= 40
    ensures Encoded(segs[..0], version) == []
  {
  }

  lemma EncodedNext(segs: seq<Segment>, version: int, i: nat)
    requires 1 <= version <= 40 && i < |segs|
    ensures var seg := segs[i];
      Encoded(segs[..i + 1], version) == Encoded(segs[..i], version) + BitsOf(ModeBits(seg.mode), 4)
        + BitsOf(seg.numChars, CharCountBits(seg.mode, version)) + seg.data
  {
    hide BitsOf, CharCountBits, ModeBits;
    assert segs[..i + 1][..i] == segs[..i];
  }

  lemma FieldWidths(seg: Segment, version: int)
    requires 1 <= version <= 40 && seg.numChars < Pow2(CharCountBits(seg.mode, version))
    ensures ModeBits(seg.mode) < Pow2(4) && CharCountBits(seg.mode, version) <= 16 && seg.numChars < 0x1_0000
  {
    Pow2Values();
    Bytes.Pow2Add(8, 8);
    Pow2Monotone(CharCountBits(seg.mode, version), 16);
  }

  /** The terminator and the padding. */
  method Fill(bb: BitBuffer, dataCapacityBits: nat)
    requires |bb.bits| <= dataCapacityBits && dataCapacityBits % 8 == 0
    modifies bb
    ensures IsFilled(bb.bits, old(bb.bits), dataCapacityBits)
  {
    hide BitsOf, PadBits, ToByte;
    ghost var encoded := bb.bits;
    var used := |bb.bits|;
    ZeroFits();
    var ok := bb.AppendBits(0, Terminator(used, dataCapacityBits));
    ok := bb.AppendBits(0, ToByte(|bb.bits|));
    ghost var head := bb.bits;
    HeadFits(used, dataCapacityBits);
    ghost var n := Pad(bb, dataCapacityBits);
    assert bb.bits == encoded + BitsOf(0, Terminator(used, dataCapacityBits))
      + BitsOf(0, ToByte(used + Terminator(used, dataCapacityBits))) + PadBits(n, 0xEC);
  }

  /** Alternating bytes until the capacity is reached. */
  method Pad(bb: BitBuffer, dataCapacityBits: nat) returns (ghost n: nat)
    requires |bb.bits| <= dataCapacityBits && dataCapacityBits % 8 == 0 && |bb.bits| % 8 == 0
    modifies bb
    ensures |bb.bits| == dataCapacityBits && bb.bits == old(bb.bits) + PadBits(n, 0xEC)
  {
    hide BitsOf, PadBits, PadAt;
    ZeroFits();
    NoPad();
    n := 0;
    var padByte: u8 := 0xEC;
    assert bb.bits + [] == bb.bits;
    while |bb.bits| < dataCapacityBits
      invariant bb.bits == old(bb.bits) + PadBits(n, 0xEC) && padByte == PadAt(n, 0xEC)
      invariant |bb.bits| <= dataCapacityBits && |bb.bits| % 8 == 0
      decreases dataCapacityBits - |bb.bits|
    {
      PadSnoc(n, 0xEC);
      var ok := bb.AppendBits(padByte, 8);
      padByte := NextPad(padByte);
      n := n + 1;
    }
  }

  lemma NoPad()
    ensures PadBits(0, 0xEC) == [] && PadAt(0, 0xEC) == 0xEC
  {
  }

  lemma ZeroFits()
    ensures forall k: nat :: Pow2(k) >= 1
    ensures Pow2(8) == 256
  {
    Pow2Values();
  }

  lemma HeadFits(used: nat, capacityBits: nat)
    requires used <= capacityBits && capacityBits % 8 == 0
    ensures var n := used + Terminator(used, capacityBits); n + ToByte(n) <= capacityBits
  {
  }

  lemma {:induction false} ZeroBits(k: nat)
    ensures forall i :: 0 <= i < k ==> !BitsOf(0, k)[i]
  {
    if k > 0 { ZeroBits(k - 1); }
  }

  lemma {:induction false} PadByteAt(n: nat, padByte: u8, k: nat)
    requires k < n && (padByte == 0xEC || padByte == 0x11)
    ensures PadBits(n, padByte)[8 * k..8 * k + 8] == BitsOf(if (padByte == 0xEC) == (k % 2 == 0) then 0xEC else 0x11, 8)
  {
    hide BitsOf;
    if k > 0 {
      PadByteAt(n - 1, NextPad(padByte), k - 1);
      assert PadBits(n, padByte)[8 * k..8 * k + 8] == PadBits(n - 1, NextPad(padByte))[8 * (k - 1)..8 * (k - 1) + 8];
    }
  }

  /** Where the padding bytes start: behind the segments, up to four terminator bits, and the bits to the
      next byte. */
  function PadStart(used: nat, capacityBits: nat): nat
    requires used <= capacityBits
  {
    if capacityBits - used <= 4 then capacityBits else (used + 4 + 7) / 8 * 8
  }

  /** What the filling is made of, as section 7.4.10 of ISO/IEC 18004 wants it: zeros up to the first
      padding byte, then 0xEC and 0x11 in turn up to the capacity. */
  lemma FilledShape(bits: seq<bool>, encoded: seq<bool>, capacityBits: nat, k: nat)
    requires IsFilled(bits, encoded, capacityBits) && capacityBits % 8 == 0
    ensures var start := PadStart(|encoded|, capacityBits);
      && |encoded| <= start <= capacityBits == |bits| && bits[..|encoded|] == encoded
      && (forall i :: |encoded| <= i < start ==> !bits[i])
      && (start + 8 * k < capacityBits ==>
            start + 8 * k + 8 <= capacityBits && bits[start + 8 * k..start + 8 * k + 8] == BitsOf(if k % 2 == 0 then 0xEC else 0x11, 8))
  {
    hide BitsOf, PadBits;
    var t := Terminator(|encoded|, capacityBits);
    var a := ToByte(|encoded| + t);
    var n: nat :| bits == encoded + BitsOf(0, t) + BitsOf(0, a) + PadBits(n, 0xEC);
    var start := |encoded| + t + a;
    PadStarts(|encoded|, capacityBits);
    ZeroBits(t);
    ZeroBits(a);
    FourParts(encoded, BitsOf(0, t), BitsOf(0, a), PadBits(n, 0xEC));
    if start + 8 * k < capacityBits {
      PadByteAt(n, 0xEC, k);
      assert bits[start + 8 * k..start + 8 * k + 8] == bits[start..][8 * k..8 * k + 8];
    }
  }

  lemma PadStarts(used: nat, capacityBits: nat)
    requires used <= capacityBits && capacityBits % 8 == 0
    ensures var t := Terminator(used, capacityBits); used + t + ToByte(used + t) == PadStart(used, capacityBits) <= capacityBits
  {
  }

  lemma FourParts(a: seq<bool>, b: seq<bool>, c: seq<bool>, d: seq<bool>)
    ensures var s := a + b + c + d;
      && s[..|a|] == a && s[|a| + |b| + |c|..] == d
      && (forall i :: |a| <= i < |a| + |b| ==> s[i] == b[i - |a|])
      && (forall i :: |a| + |b| <= i < |a| + |b| + |c| ==> s[i] == c[i - |a| - |b|])
  {
  }

  /** The bits in bytes, most significant first. */
  method Pack(bits: seq<bool>) returns (codewords: seq<u8>)
    requires |bits| % 8 == 0
    ensures |codewords| == |bits| / 8 && Stream(codewords) == bits
  {
    hide PackByte, OrBit, Stream;
    var len := |bits| / 8;
    codewords := seq(len, _ => 0);
    EmptyBytes(len);
    for i := 0 to |bits|
      invariant codewords == Packed(bits[..i], len)
    {
      AppendBit(bits[..i], bits[i], i / 8, i % 8);
      forall j: nat | j < len && j != i / 8
        ensures PackByte(bits[..i] + [bits[i]], j) == PackByte(bits[..i], j)
      {
        AppendElsewhere(bits[..i], bits[i], i / 8, j);
      }
      assert bits[..i + 1] == bits[..i] + [bits[i]];
      if bits[i] {
        codewords := codewords[i / 8 := OrBit(codewords[i / 8], i % 8)];
      }
    }
    assert bits[..|bits|] == bits;
    PackedStream(bits, len);
  }

  lemma EmptyBytes(len: nat)
    ensures seq(len, _ => 0) == Packed([], len)
  {
    forall k: nat | k < len
      ensures PackByte([], k) == 0
    {
      NumberEmpty(8 * k, 8);
    }
  }

  // -------------------------------------------------------------------------------------
  // encodeSegments

  datatype Codewords = Codewords(version: int, ecl: Ecc, data: seq<u8>)

  /** The level after `boostEcl`: the highest one at which the data still fits. */
  function Boosted(segs: seq<Segment>, version: int, ecl: Ecc, capacity: Capacity): Ecc
    requires 1 <= version <= 40
  {
    if SumBits(segs, version) <= 8 * capacity(version, High) then High
    else if SumBits(segs, version) <= 8 * capacity(version, Quartile) then Quartile
    else if SumBits(segs, version) <= 8 * capacity(version, Medium) then Medium
    else ecl
  }

  /** `encodeSegments`, up to the data codewords. */
  method EncodeSegments(segs: seq<Segment>, ecl: Ecc, minVersion: int, maxVersion: int, mask: int, boostEcl: bool, capacity: Capacity)
    returns (r: Outcome<Codewords>)
    ensures r == InvalidArgument <==> !(1 <= minVersion <= maxVersion <= 40) || mask < -1 || mask > 7
    ensures r != DomainError
    ensures r == TooLong ==> forall v :: minVersion <= v <= maxVersion ==> !Suits(segs, v, ecl, capacity)
    ensures r.Ok? ==>
      && minVersion <= r.value.version <= maxVersion
      && Suits(segs, r.value.version, ecl, capacity)
      && (forall v :: minVersion <= v < r.value.version ==> !Suits(segs, v, ecl, capacity))
      && r.value.ecl == (if boostEcl then Boosted(segs, r.value.version, ecl, capacity) else ecl)
      && |r.value.data| == capacity(r.value.version, r.value.ecl)
      && IsFilled(Stream(r.value.data), Encoded(segs, r.value.version), 8 * |r.value.data|)
  {
    hide IsFilled, Encoded, Stream, SumBits, LengthsFit;
    if !(1 <= minVersion && minVersion <= maxVersion && maxVersion <= 40) || mask < -1 || mask > 7 {
      return InvalidArgument;
    }
    var version := minVersion;
    var dataUsedBits;
    while true
      invariant minVersion <= version <= maxVersion
      invariant forall v :: minVersion <= v < version ==> !Suits(segs, v, ecl, capacity)
      decreases maxVersion - version
    {
      var dataCapacityBits := capacity(version, ecl) * 8;
      dataUsedBits := GetTotalBits(segs, version);
      if dataUsedBits != -1 && dataUsedBits <= dataCapacityBits {
        break;
      }
      if version >= maxVersion {
        return TooLong;
      }
      version := version + 1;
    }
    var level := ecl;
    var levels := [Medium, Quartile, High];
    for i := 0 to 3
      invariant SumBits(segs, version) <= 8 * capacity(version, level)
      invariant level == if !boostEcl then ecl
        else if i == 3 && SumBits(segs, version) <= 8 * capacity(version, High) then High
        else if i >= 2 && SumBits(segs, version) <= 8 * capacity(version, Quartile) then Quartile
        else if i >= 1 && SumBits(segs, version) <= 8 * capacity(version, Medium) then Medium
        else ecl
    {
      if boostEcl && dataUsedBits <= capacity(version, levels[i]) * 8 {
        level := levels[i];
      }
    }
    var bb := Concatenate(segs, version);
    var dataCapacityBits := capacity(version, level) * 8;
    Fill(bb, dataCapacityBits);
    FilledLength(bb.bits, Encoded(segs, version), dataCapacityBits);
    var data := Pack(bb.bits);
    return Ok(Codewords(version, level, data));
  }

  lemma FilledLength(bits: seq<bool>, encoded: seq<bool>, capacityBits: nat)
    requires IsFilled(bits, encoded, capacityBits)
    ensures |bits| == capacityBits
  {
  }
}
