/** qrcodegen's segments: text to bits, the choice of a version, and the data codewords. */
module QrSegments {
  import opened Limbs
  import opened Bytes
  import opened BitPacking
  import opened Wrappers

  const INT_MAX: nat := 0x7FFF_FFFF

  // -------------------------------------------------------------------------------------
  // Bits

  /** The len low bits of a number, most significant first. */
  function BitsOf(val: nat, len: nat): (r: seq<bool>)
    ensures |r| == len
  {
    if len == 0 then [] else BitsOf(val / 2, len - 1) + [val % 2 == 1]
  }

  class BitBuffer {
    var bits: seq<bool>

    constructor ()
      ensures bits == []
    {
      bits := [];
    }

    /** `appendBits`; false where the code throws. */
    method AppendBits(val: u32, len: int) returns (ok: bool)
      modifies this
      ensures ok == (0 <= len <= 31 && val < Pow2(len))
      ensures bits == old(bits) + (if ok then BitsOf(val, len) else [])
    {
      hide BitsOf, Pow2;
      if len < 0 || len > 31 || Shr(val, len) != 0 {
        if 0 <= len { ShrZero(val, len); }
        assert bits == bits + [];
        return false;
      }
      ShrZero(val, len);
      NoBits(Shr(val, len));
      assert bits + [] == bits;
      for i := len downto 0
        invariant bits == old(bits) + BitsOf(Shr(val, i), len - i)
      {
        BitsStep(val, i, len - i - 1);
        bits := bits + [Shr(val, i) % 2 == 1];
      }
      return true;
    }
  }

  /** The right shift. */
  function Shr(val: nat, i: nat): nat {
    if i == 0 then val else Shr(val, i - 1) / 2
  }

  lemma {:induction false} ShrFirst(val: nat, i: nat)
    ensures Shr(val, i + 1) == Shr(val / 2, i)
  {
    if i > 0 { ShrFirst(val, i - 1); }
  }

  lemma {:induction false} ShrZero(val: nat, i: nat)
    ensures Shr(val, i) != 0 <==> val >= Pow2(i)
  {
    if i > 0 {
      ShrFirst(val, i - 1);
      ShrZero(val / 2, i - 1);
    }
  }

  lemma NoBits(v: nat)
    ensures BitsOf(v, 0) == []
  {
  }

  lemma BitsNext(v: nat, half: nat, n: nat)
    requires half == v / 2
    ensures BitsOf(v, n + 1) == BitsOf(half, n) + [v % 2 == 1]
  {
  }

  lemma BitsStep(val: nat, i: nat, n: nat)
    ensures BitsOf(Shr(val, i), n + 1) == BitsOf(Shr(val, i + 1), n) + [Shr(val, i) % 2 == 1]
  {
    hide BitsOf;
    BitsNext(Shr(val, i), Shr(val, i + 1), n);
  }

  // -------------------------------------------------------------------------------------
  // Segments

  datatype Mode = Numeric | Alphanumeric | Byte | Kanji | Eci

  function ModeBits(m: Mode): u32 {
    match m
    case Numeric => 1
    case Alphanumeric => 2
    case Byte => 4
    case Kanji => 8
    case Eci => 7
  }

  /** `numCharCountBits`, for versions 1 to 40. */
  function CharCountBits(m: Mode, ver: int): nat
    requires 1 <= ver <= 40
  {
    var i := (ver + 7) / 17;
    match m
    case Numeric => if i == 0 then 10 else if i == 1 then 12 else 14
    case Alphanumeric => if i == 0 then 9 else if i == 1 then 11 else 13
    case Byte => if i == 0 then 8 else 16
    case Kanji => if i == 0 then 8 else if i == 1 then 10 else 12
    case Eci => 0
  }

  datatype Segment = Segment(mode: Mode, numChars: nat, data: seq<bool>)

  type Text = seq<u8>

  predicate IsDigit(c: u8) {
    48 <= c <= 57
  }

  predicate AllDigits(t: Text) {
    forall i :: 0 <= i < |t| ==> IsDigit(t[i])
  }

  function DigitsValue(t: Text): (v: nat)
    requires AllDigits(t)
  {
    if t == [] then 0
    else
      var d: int := t[|t| - 1];
      10 * DigitsValue(t[..|t| - 1]) + (d - 48)
  }

  /** Three digits in ten bits, two in seven, one in four. */
  function NumericBits(t: Text): seq<bool>
    requires AllDigits(t)
  {
    if |t| == 0 then []
    else if |t| < 3 then BitsOf(DigitsValue(t), 3 * |t| + 1)
    else BitsOf(DigitsValue(t[..3]), 10) + NumericBits(t[3..])
  }

  /** The alphanumeric character set. */
  function AlphaChar(i: nat): u8
    requires i < 45
  {
    if i < 10 then 48 + i
    else if i < 36 then 55 + i
    else if i == 36 then 32
    else if i < 39 then i - 1
    else if i < 41 then i + 3
    else if i < 44 then i + 4
    else 58
  }

  /** The position of a character in the set, or -1. */
  function AlphaIndex(c: u8): (i: int)
    ensures -1 <= i < 45 && (i >= 0 ==> AlphaChar(i) == c)
    ensures i == -1 ==> forall k: nat :: k < 45 ==> AlphaChar(k) != c
  {
    if 48 <= c <= 57 then c - 48
    else if 65 <= c <= 90 then c - 55
    else if c == 32 then 36
    else if c == 36 || c == 37 then c + 1
    else if c == 42 || c == 43 then c - 3
    else if 45 <= c <= 47 then c - 4
    else if c == 58 then 44
    else -1
  }

  predicate AllAlpha(t: Text) {
    forall i :: 0 <= i < |t| ==> AlphaIndex(t[i]) >= 0
  }

  function AlphaValue(t: Text): (v: nat)
    requires AllAlpha(t)
  {
    if t == [] then 0 else 45 * AlphaValue(t[..|t| - 1]) + AlphaIndex(t[|t| - 1])
  }

  /** Two characters in eleven bits, one in six. */
  function AlphaBits(t: Text): seq<bool>
    requires AllAlpha(t)
  {
    if |t| == 0 then []
    else if |t| == 1 then BitsOf(AlphaValue(t), 6)
    else BitsOf(AlphaValue(t[..2]), 11) + AlphaBits(t[2..])
  }

  function ByteBits(t: Text): seq<bool> {
    if |t| == 0 then [] else BitsOf(t[0], 8) + ByteBits(t[1..])
  }

  /** A segment that carries a text. */
  ghost predicate Carries(seg: Segment, t: Text) {
    && seg.numChars == |t|
    && match seg.mode
       case Numeric => AllDigits(t) && seg.data == NumericBits(t)
       case Alphanumeric => AllAlpha(t) && seg.data == AlphaBits(t)
       case Byte => seg.data == ByteBits(t)
       case _ => false
  }

  // Whole groups so far, and the rest.

  lemma NumericUnfold(t: Text)
    requires AllDigits(t) && |t| >= 3
    ensures AllDigits(t[..3]) && AllDigits(t[3..])
    ensures NumericBits(t) == BitsOf(DigitsValue(t[..3]), 10) + NumericBits(t[3..])
  {
    hide BitsOf, DigitsValue;
  }

  lemma AlphaUnfold(t: Text)
    requires AllAlpha(t) && |t| >= 2
    ensures AllAlpha(t[..2]) && AllAlpha(t[2..])
    ensures AlphaBits(t) == BitsOf(AlphaValue(t[..2]), 11) + AlphaBits(t[2..])
  {
    hide BitsOf, AlphaValue, AlphaIndex;
  }

  lemma Slices(t: Text, w: nat, n: nat)
    requires w <= n <= |t|
    ensures t[..n][w..] == t[w..][..n - w] && t[n..] == t[w..][n - w..] && t[..n][..w] == t[..w]
  {
  }

  lemma Grouping(a: seq<bool>, b: seq<bool>, c: seq<bool>)
    ensures (a + b) + c == a + (b + c)
  {
  }

  lemma {:induction false} NumericSplit(t: Text, k: nat)
    requires AllDigits(t) && 3 * k <= |t|
    ensures NumericBits(t) == NumericBits(t[..3 * k]) + NumericBits(t[3 * k..])
  {
    if k == 0 {
      assert t[..0] == [] && t[0..] == t;
    } else {
      hide NumericBits, BitsOf, DigitsValue;
      NumericUnfold(t);
      NumericSplit(t[3..], k - 1);
      NumericUnfold(t[..3 * k]);
      Slices(t, 3, 3 * k);
      Grouping(BitsOf(DigitsValue(t[..3]), 10), NumericBits(t[3..][..3 * (k - 1)]), NumericBits(t[3 * k..]));
    }
  }

  lemma {:induction false} AlphaSplit(t: Text, k: nat)
    requires AllAlpha(t) && 2 * k <= |t|
    ensures AlphaBits(t) == AlphaBits(t[..2 * k]) + AlphaBits(t[2 * k..])
  {
    if k == 0 {
      assert t[..0] == [] && t[0..] == t;
    } else {
      hide AlphaBits, BitsOf, AlphaValue, AlphaIndex;
      AlphaUnfold(t);
      AlphaSplit(t[2..], k - 1);
      AlphaUnfold(t[..2 * k]);
      Slices(t, 2, 2 * k);
      Grouping(BitsOf(AlphaValue(t[..2]), 11), AlphaBits(t[2..][..2 * (k - 1)]), AlphaBits(t[2 * k..]));
    }
  }

  lemma {:induction false} DigitsBound(t: Text)
    requires AllDigits(t) && |t| <= 3
    ensures DigitsValue(t) < if |t| == 0 then 1 else if |t| == 1 then 10 else if |t| == 2 then 100 else 1000
  {
    if t != [] {
      assert IsDigit(t[|t| - 1]);
      DigitsBound(t[..|t| - 1]);
    }
  }

  lemma {:induction false} AlphaBound(t: Text)
    requires AllAlpha(t) && |t| <= 2
    ensures AlphaValue(t) < if |t| == 0 then 1 else if |t| == 1 then 45 else 2025
  {
    if t != [] { AlphaBound(t[..|t| - 1]); }
  }

  lemma GroupWidths()
    ensures Pow2(4) == 16 && Pow2(7) == 128 && Pow2(10) == 1024 && Pow2(6) == 64 && Pow2(11) == 2048 && Pow2(8) == 256
  {
    Pow2Values();
    assert Pow2(10) == 4 * Pow2(8) && Pow2(11) == 2 * Pow2(10);
  }

  /** A digit joins the group being collected. */
  lemma DigitJoins(t: Text, start: nat, i: nat)
    requires start <= i < |t| && AllDigits(t[start..i]) && IsDigit(t[i])
    ensures AllDigits(t[start..i + 1])
    ensures DigitsValue(t[start..i + 1]) == 10 * DigitsValue(t[start..i]) + (t[i] as int - 48)
  {
    assert t[start..i + 1] == t[start..i] + [t[i]];
    assert (t[start..i] + [t[i]])[..i - start] == t[start..i];
  }

  lemma AlphaJoins(t: Text, start: nat, i: nat)
    requires start <= i < |t| && AllAlpha(t[start..i]) && AlphaIndex(t[i]) >= 0
    ensures AllAlpha(t[start..i + 1])
    ensures AlphaValue(t[start..i + 1]) == 45 * AlphaValue(t[start..i]) + AlphaIndex(t[i])
  {
    assert t[start..i + 1] == t[start..i] + [t[i]];
    assert (t[start..i] + [t[i]])[..i - start] == t[start..i];
  }

  /** A full group of digits joins the bits. */
  lemma NumericGroup(t: Text, k: nat, i: nat)
    requires i == 3 * k + 3 <= |t| && AllDigits(t[..3 * k]) && AllDigits(t[3 * k..i])
    ensures AllDigits(t[..i]) && NumericBits(t[..i]) == NumericBits(t[..3 * k]) + BitsOf(DigitsValue(t[3 * k..i]), 10)
  {
    var s := t[..i];
    assert s == t[..3 * k] + t[3 * k..i];
    NumericSplit(s, k);
    var g := t[3 * k..i];
    assert s[..3 * k] == t[..3 * k] && s[3 * k..] == g;
    assert g[..3] == g && g[3..] == [];
  }

  lemma AlphaGroup(t: Text, k: nat, i: nat)
    requires i == 2 * k + 2 <= |t| && AllAlpha(t[..2 * k]) && AllAlpha(t[2 * k..i])
    ensures AllAlpha(t[..i]) && AlphaBits(t[..i]) == AlphaBits(t[..2 * k]) + BitsOf(AlphaValue(t[2 * k..i]), 11)
  {
    var s := t[..i];
    assert s == t[..2 * k] + t[2 * k..i];
    AlphaSplit(s, k);
    var g := t[2 * k..i];
    assert s[..2 * k] == t[..2 * k] && s[2 * k..] == g;
    assert g[..2] == g && g[2..] == [];
  }

  /** `makeNumeric`. */
  method MakeNumeric(digits: Text) returns (r: Outcome<Segment>)
    ensures r.Ok? ==> r.value.mode == Numeric && Carries(r.value, digits)
    ensures !r.Ok? ==> r == DomainError && !AllDigits(digits)
  {
    hide BitsOf, NumericBits, DigitsValue;
    var bb := new BitBuffer();
    var accumData := 0;
    var accumCount := 0;
    ghost var k := 0;
    GroupWidths();
    NoGroups(digits);
    for i := 0 to |digits|
      invariant fresh(bb) && 0 <= accumCount < 3 && i == 3 * k + accumCount
      invariant AllDigits(digits[..3 * k]) && bb.bits == NumericBits(digits[..3 * k])
      invariant AllDigits(digits[3 * k..i]) && accumData == DigitsValue(digits[3 * k..i])
    {
      var c := digits[i];
      if c < 48 || c > 57 {
        return DomainError;
      }
      DigitJoins(digits, 3 * k, i);
      accumData := accumData * 10 + (c as int - 48);
      accumCount := accumCount + 1;
      if accumCount == 3 {
        DigitsBound(digits[3 * k..i + 1]);
        NumericGroup(digits, k, i + 1);
        var ok := bb.AppendBits(accumData, 10);
        k := k + 1;
        accumData := 0;
        accumCount := 0;
        NoGroups(digits[i + 1..]);
        assert digits[3 * k..i + 1] == [];
      }
    }
    assert digits == digits[..3 * k] + digits[3 * k..];
    NumericSplit(digits, k);
    assert digits[3 * k..|digits|] == digits[3 * k..];
    if accumCount > 0 {
      DigitsBound(digits[3 * k..]);
      LastNumeric(digits[3 * k..]);
      var ok := bb.AppendBits(accumData, accumCount * 3 + 1);
    } else {
      NoGroups(digits);
      assert digits[3 * k..] == [];
    }
    return Ok(Segment(Numeric, |digits|, bb.bits));
  }

  lemma NoGroups(t: Text)
    ensures t[..0] == [] && t[0..0] == [] && NumericBits([]) == [] && DigitsValue([]) == 0
    ensures AlphaBits([]) == [] && AlphaValue([]) == 0
  {
  }

  lemma LastNumeric(t: Text)
    requires AllDigits(t) && 0 < |t| < 3
    ensures NumericBits(t) == BitsOf(DigitsValue(t), 3 * |t| + 1)
  {
  }

  lemma LastAlpha(t: Text)
    requires AllAlpha(t) && |t| == 1
    ensures AlphaBits(t) == BitsOf(AlphaValue(t), 6)
  {
  }

  /** `makeAlphanumeric`. */
  method MakeAlphanumeric(text: Text) returns (r: Outcome<Segment>)
    ensures r.Ok? ==> r.value.mode == Alphanumeric && Carries(r.value, text)
    ensures !r.Ok? ==> r == DomainError && !AllAlpha(text)
  {
    hide BitsOf, AlphaBits, AlphaValue, AlphaIndex;
    var bb := new BitBuffer();
    var accumData := 0;
    var accumCount := 0;
    ghost var k := 0;
    GroupWidths();
    NoGroups(text);
    for i := 0 to |text|
      invariant fresh(bb) && 0 <= accumCount < 2 && i == 2 * k + accumCount
      invariant AllAlpha(text[..2 * k]) && bb.bits == AlphaBits(text[..2 * k])
      invariant AllAlpha(text[2 * k..i]) && accumData == AlphaValue(text[2 * k..i])
    {
      var temp := AlphaIndex(text[i]);
      if temp < 0 {
        return DomainError;
      }
      AlphaJoins(text, 2 * k, i);
      accumData := accumData * 45 + temp;
      accumCount := accumCount + 1;
      if accumCount == 2 {
        AlphaBound(text[2 * k..i + 1]);
        AlphaGroup(text, k, i + 1);
        var ok := bb.AppendBits(accumData, 11);
        k := k + 1;
        accumData := 0;
        accumCount := 0;
        NoGroups(text[i + 1..]);
        assert text[2 * k..i + 1] == [];
      }
    }
    assert text == text[..2 * k] + text[2 * k..];
    AlphaSplit(text, k);
    assert text[2 * k..|text|] == text[2 * k..];
    if accumCount > 0 {
      AlphaBound(text[2 * k..]);
      LastAlpha(text[2 * k..]);
      var ok := bb.AppendBits(accumData, 6);
    } else {
      NoGroups(text);
      assert text[2 * k..] == [];
    }
    return Ok(Segment(Alphanumeric, |text|, bb.bits));
  }

  lemma {:induction false} ByteSnoc(t: Text, c: u8)
    ensures ByteBits(t + [c]) == ByteBits(t) + BitsOf(c, 8)
  {
    if t == [] {
      assert [c][1..] == [];
    } else {
      ByteSnoc(t[1..], c);
      assert (t + [c])[1..] == t[1..] + [c];
    }
  }

  /** `makeBytes`. */
  method MakeBytes(data: Text) returns (r: Outcome<Segment>)
    ensures r.Ok? <==> |data| <= INT_MAX
    ensures r.Ok? ==> r.value.mode == Byte && Carries(r.value, data)
  {
    hide BitsOf;
    if |data| > INT_MAX {
      return TooLong;
    }
    var bb := new BitBuffer();
    GroupWidths();
    for i := 0 to |data|
      invariant fresh(bb) && bb.bits == ByteBits(data[..i])
    {
      ByteSnoc(data[..i], data[i]);
      assert data[..i + 1] == data[..i] + [data[i]];
      var ok := bb.AppendBits(data[i], 8);
    }
    assert data[..|data|] == data;
    return Ok(Segment(Byte, |data|, bb.bits));
  }

  /** `makeSegments`: the densest single segment for the whole text, or none. */
  method MakeSegments(text: Text) returns (r: Outcome<seq<Segment>>)
    ensures |text| <= INT_MAX ==> r.Ok?
    ensures r.Ok? ==> if text == [] then r.value == [] else
      |r.value| == 1 && Carries(r.value[0], text)
      && r.value[0].mode == (if AllDigits(text) then Numeric else if AllAlpha(text) then Alphanumeric else Byte)
  {
    if text == [] {
      return Ok([]);
    }
    var numeric := IsNumeric(text);
    var alphanumeric := IsAlphanumeric(text);
    var seg;
    if numeric {
      seg := MakeNumeric(text);
    } else if alphanumeric {
      seg := MakeAlphanumeric(text);
    } else {
      seg := MakeBytes(text);
    }
    if !seg.Ok? {
      return TooLong;
    }
    return Ok([seg.value]);
  }

  method IsNumeric(text: Text) returns (r: bool)
    ensures r == AllDigits(text)
  {
    for i := 0 to |text|
      invariant AllDigits(text[..i])
    {
      if text[i] < 48 || text[i] > 57 {
        return false;
      }
    }
    return true;
  }

  method IsAlphanumeric(text: Text) returns (r: bool)
    ensures r == AllAlpha(text)
  {
    for i := 0 to |text|
      invariant AllAlpha(text[..i])
    {
      if AlphaIndex(text[i]) < 0 {
        return false;
      }
    }
    return true;
  }
}
