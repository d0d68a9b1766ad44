/** quirc's payload decoder over the data bits of a symbol, and the round trip with qrcodegen's
    segments. */
module QrPayload {
  import opened Limbs
  import opened Bytes
  import opened BitPacking
  import opened QrSegments
  import opened QrEncoding
  import opened Wrappers

  const MAX_PAYLOAD: nat := 8896

  datatype Error = Success | DataOverflow | DataUnderflow

  /** The number that bits make, most significant first. */
  function BitsValue(bits: seq<bool>): nat {
    Number(bits, 0, |bits|)
  }

  lemma ValueSnoc(bits: seq<bool>, b: bool)
    ensures BitsValue(bits + [b]) == 2 * BitsValue(bits) + (if b then 1 else 0)
  {
    NumberAppend(bits, b, 0, |bits|);
  }

  lemma {:induction false} ValueOfBits(v: nat, len: nat)
    requires v < Pow2(len)
    ensures BitsValue(BitsOf(v, len)) == v
  {
    if len > 0 {
      ValueOfBits(v / 2, len - 1);
      ValueSnoc(BitsOf(v / 2, len - 1), v % 2 == 1);
    }
  }

  /** The last n decimal digits of a number, as characters. */
  function DecimalDigits(v: nat, n: nat): (r: Text)
    ensures |r| == n
  {
    if n == 0 then [] else DecimalDigits(v / 10, n - 1) + [48 + v % 10]
  }

  lemma {:induction false} DecimalOfValue(t: Text)
    requires AllDigits(t)
    ensures DecimalDigits(DigitsValue(t), |t|) == t
  {
    if t != [] {
      var n := |t| - 1;
      assert IsDigit(t[n]);
      DecimalOfValue(t[..n]);
      assert t == t[..n] + [t[n]];
    }
  }

  /** The last n digits of a number in the alphanumeric character set. */
  function AlphaDigits(v: nat, n: nat): (r: Text)
    ensures |r| == n
  {
    if n == 0 then [] else AlphaDigits(v / 45, n - 1) + [AlphaChar(v % 45)]
  }

  lemma {:induction false} AlphaOfValue(t: Text)
    requires AllAlpha(t)
    ensures AlphaDigits(AlphaValue(t), |t|) == t
  {
    if t != [] {
      var n := |t| - 1;
      AlphaOfValue(t[..n]);
      LastDigit(AlphaValue(t[..n]), AlphaIndex(t[n]));
      assert t == t[..n] + [t[n]];
    }
  }

  lemma LastDigit(v: nat, d: nat)
    requires d < 45
    ensures (45 * v + d) / 45 == v && (45 * v + d) % 45 == d
  {
  }

  class Decoder {
    const version: int
    const data: seq<u8>
    const data_bits: nat
    var ptr: nat
    const payload: array<u8>
    var payload_len: nat
    var data_type: int
    var eci: int

    ghost predicate Valid()
      reads this`ptr, this`payload_len
    {
      && 1 <= version <= 40 && data_bits == 8 * |data| && ptr <= data_bits
      && payload.Length == MAX_PAYLOAD && payload_len <= MAX_PAYLOAD
    }

    /** The bits not read yet. */
    ghost function Remaining(): (r: seq<bool>)
      requires Valid()
      reads this`ptr, this`payload_len
      ensures |r| == data_bits - ptr
    {
      Stream(data)[ptr..]
    }

    /** The payload so far. */
    ghost function Payload(): Text
      requires Valid()
      reads this`ptr, this`payload_len, payload
    {
      payload[..payload_len]
    }

    constructor (version: int, data: seq<u8>)
      requires 1 <= version <= 40
      ensures Valid() && fresh(payload) && this.version == version && Remaining() == Stream(data) && Payload() == []
    {
      this.version, this.data, data_bits := version, data, 8 * |data|;
      ptr, payload_len, data_type, eci := 0, 0, 0, 0;
      payload := new u8[MAX_PAYLOAD](_ => 0);
    }

    method TakeBit() returns (bit: bool)
      requires Valid() && ptr < data_bits
      modifies this`ptr
      ensures Valid() && ptr == old(ptr) + 1 && bit == old(Remaining())[0] && Remaining() == old(Remaining())[1..]
    {
      bit := DataBit(data, ptr);
      ptr := ptr + 1;
    }

    /** `take_bits`: as many of len bits as there are. */
    method TakeBits(len: nat) returns (ret: nat)
      requires Valid()
      modifies this`ptr
      ensures Valid() && ptr >= old(ptr)
      ensures var k := if len <= |old(Remaining())| then len else |old(Remaining())|;
        ret == BitsValue(old(Remaining())[..k]) && Remaining() == old(Remaining())[k..]
    {
      hide Stream, BitsValue, Remaining;
      ret := 0;
      var len': nat := len;
      ghost var bits := Remaining();
      ghost var i := 0;
      NoValue(bits);
      while len' != 0 && ptr < data_bits
        invariant Valid() && ptr >= old(ptr) && i + len' == len && i <= |bits| && Remaining() == bits[i..]
        invariant ret == BitsValue(bits[..i])
        decreases len'
      {
        NextValue(bits, i);
        ret := 2 * ret;
        var bit := TakeBit();
        if bit {
          ret := ret + 1;
        }
        len' := len' - 1;
        i := i + 1;
      }
    }

    /** The next bits are those of a number. */
    lemma Starts(v: nat, len: nat, rest: seq<bool>)
      requires Valid() && Remaining() == BitsOf(v, len) + rest && v < Pow2(len)
      ensures len <= |Remaining()| && BitsValue(Remaining()[..len]) == v && Remaining()[len..] == rest
    {
      assert Remaining()[..len] == BitsOf(v, len);
      ValueOfBits(v, len);
    }

    /** The digits of a tuple, last one first. */
    method WriteDecimal(tuple: nat, digits: nat)
      requires Valid() && payload_len + digits <= MAX_PAYLOAD
      modifies this`payload_len, payload
      ensures Valid() && payload_len == old(payload_len) + digits && Payload() == old(Payload()) + DecimalDigits(tuple, digits)
      ensures Remaining() == old(Remaining())
    {
      hide DecimalDigits;
      NoDigits(0);
      var left := tuple;
      ghost var w: Text := [];
      assert DecimalDigits(tuple, digits) + w == DecimalDigits(tuple, digits);
      for i := digits downto 0
        invariant payload_len == old(payload_len) && Valid()
        invariant payload[..payload_len] == old(payload[..payload_len])
        invariant payload[payload_len + i..payload_len + digits] == w
        invariant DecimalDigits(left, i) + w == DecimalDigits(tuple, digits)
      {
        var c := left % 10 + 48;
        payload[payload_len + i] := c;
        Slot(payload[..], payload_len, i, digits);
        DecimalDigitsStep(left, i + 1, w);
        w := [c] + w;
        left := left / 10;
      }
      payload_len := payload_len + digits;
      assert payload[..payload_len] == payload[..old(payload_len)] + payload[old(payload_len)..payload_len];
    }

    method WriteAlpha(tuple: nat, digits: nat)
      requires Valid() && payload_len + digits <= MAX_PAYLOAD
      modifies this`payload_len, payload
      ensures Valid() && payload_len == old(payload_len) + digits && Payload() == old(Payload()) + AlphaDigits(tuple, digits)
      ensures Remaining() == old(Remaining())
    {
      hide AlphaChar, AlphaDigits;
      NoDigits(0);
      var left := tuple;
      ghost var w: Text := [];
      assert AlphaDigits(tuple, digits) + w == AlphaDigits(tuple, digits);
      for i := digits downto 0
        invariant payload_len == old(payload_len) && Valid()
        invariant payload[..payload_len] == old(payload[..payload_len])
        invariant payload[payload_len + i..payload_len + digits] == w
        invariant AlphaDigits(left, i) + w == AlphaDigits(tuple, digits)
      {
        var c := AlphaChar(left % 45);
        payload[payload_len + i] := c;
        Slot(payload[..], payload_len, i, digits);
        AlphaDigitsStep(left, i + 1, w);
        w := [c] + w;
        left := left / 45;
      }
      payload_len := payload_len + digits;
      assert payload[..payload_len] == payload[..old(payload_len)] + payload[old(payload_len)..payload_len];
    }

    /** `numeric_tuple`; g is what the next bits stand for, if they are well formed. */
    method NumericTuple(bits: nat, digits: nat, ghost good: bool, ghost g: Text, ghost rest: seq<bool>) returns (ok: bool)
      requires Valid() && payload_len + digits <= MAX_PAYLOAD
      requires good ==> AllDigits(g) && |g| == digits && DigitsValue(g) < Pow2(bits) && Remaining() == BitsOf(DigitsValue(g), bits) + rest
      modifies this`ptr, this`payload_len, payload
      ensures Valid() && ptr >= old(ptr)
      ensures payload_len == old(payload_len) + (if ok then digits else 0)
      ensures good ==> ok && Remaining() == rest && Payload() == old(Payload()) + g
    {
      hide BitsOf, Stream, BitsValue, DigitsValue, DecimalDigits, Remaining, AllDigits;
      if good { Starts(DigitsValue(g), bits, rest); }
      if data_bits - ptr < bits {
        return false;
      }
      var tuple := TakeBits(bits);
      WriteDecimal(tuple, digits);
      if good { DecimalOfValue(g); }
      return true;
    }

    /** `alpha_tuple`. */
    method AlphaTuple(bits: nat, digits: nat, ghost good: bool, ghost g: Text, ghost rest: seq<bool>) returns (ok: bool)
      requires Valid() && payload_len + digits <= MAX_PAYLOAD
      requires good ==> AllAlpha(g) && |g| == digits && AlphaValue(g) < Pow2(bits) && Remaining() == BitsOf(AlphaValue(g), bits) + rest
      modifies this`ptr, this`payload_len, payload
      ensures Valid() && ptr >= old(ptr)
      ensures payload_len == old(payload_len) + (if ok then digits else 0)
      ensures good ==> ok && Remaining() == rest && Payload() == old(Payload()) + g
    {
      hide BitsOf, Stream, BitsValue, AlphaValue, AlphaDigits, Remaining, AllAlpha;
      if good { Starts(AlphaValue(g), bits, rest); }
      if data_bits - ptr < bits {
        return false;
      }
      var tuple := TakeBits(bits);
      WriteAlpha(tuple, digits);
      if good { AlphaOfValue(g); }
      return true;
    }
  
    /** The whole groups of `decode_numeric`. */
    method NumericGroups(count: nat, ghost good: bool, ghost t: Text, ghost rest: seq<bool>)
      returns (err: Error, count': nat, ghost left: Text)
      requires Valid() && payload_len + count + 1 <= MAX_PAYLOAD
      requires good ==> AllDigits(t) && count == |t| && Remaining() == NumericBits(t) + rest
      modifies this`ptr, this`payload_len, payload
      ensures Valid() && ptr >= old(ptr) && count' < 3 && payload_len + count' + 1 <= MAX_PAYLOAD
      ensures good ==> err == Success && AllDigits(left) && count' == |left| && Remaining() == NumericBits(left) + rest
      ensures good ==> Payload() + left == old(Payload()) + t
    {
      hide BitsOf, Stream, NumericBits, DigitsValue, Remaining, AllDigits;
      GroupWidths();
      count' := count;
      left := t;
      while count' >= 3
        invariant Valid() && ptr >= old(ptr) && payload_len + count' + 1 <= MAX_PAYLOAD
        invariant good ==> AllDigits(left) && count' == |left| && Remaining() == NumericBits(left) + rest
        invariant good ==> Payload() + left == old(Payload()) + t
      {
        ghost var g, after := [], [];
        if good {
          NumericTake(left, rest);
          g, after := left[..3], NumericBits(left[3..]) + rest;
        }
        var ok := NumericTuple(10, 3, good, g, after);
        if !ok {
          return DataUnderflow, 0, left;
        }
        count' := count' - 3;
        if good {
          assert left == g + left[3..];
          left := left[3..];
        }
      }
      err := Success;
    }

    /** `decode_numeric`; t is the text the next bits carry, if they are well formed. */
    method DecodeNumeric(ghost good: bool, ghost t: Text, ghost rest: seq<bool>) returns (err: Error)
      requires Valid() && payload_len < MAX_PAYLOAD
      requires good ==> AllDigits(t) && |t| < Pow2(CharCountBits(Numeric, version)) && payload_len + |t| + 1 <= MAX_PAYLOAD
      requires good ==> Remaining() == BitsOf(|t|, CharCountBits(Numeric, version)) + (NumericBits(t) + rest)
      modifies this`ptr, this`payload_len, payload
      ensures Valid() && ptr >= old(ptr) && payload_len < MAX_PAYLOAD
      ensures good ==> err == Success && Remaining() == rest && Payload() == old(Payload()) + t
    {
      hide BitsOf, Stream, NumericBits, DigitsValue, Remaining, AllDigits, BitsValue;
      var bits := 14;
      if version < 10 {
        bits := 10;
      } else if version < 27 {
        bits := 12;
      }
      if good { Starts(|t|, bits, NumericBits(t) + rest); }
      var count := TakeBits(bits);
      if payload_len + count + 1 > MAX_PAYLOAD {
        return DataOverflow;
      }
      ghost var left;
      err, count, left := NumericGroups(count, good, t, rest);
      if err != Success {
        return;
      }
      err := NumericRest(count, good, left, rest);
    }

    /** The one or two digits left over. */
    method NumericRest(count: nat, ghost good: bool, ghost t: Text, ghost rest: seq<bool>) returns (err: Error)
      requires Valid() && count < 3 && payload_len + count + 1 <= MAX_PAYLOAD
      requires good ==> AllDigits(t) && count == |t| && Remaining() == NumericBits(t) + rest
      modifies this`ptr, this`payload_len, payload
      ensures Valid() && ptr >= old(ptr) && payload_len < MAX_PAYLOAD
      ensures good ==> err == Success && Remaining() == rest && Payload() == old(Payload()) + t
    {
      hide BitsOf, Stream, NumericBits, DigitsValue, Remaining, AllDigits, BitsValue;
      GroupWidths();
      if good { NumericLast(t, rest); }
      var count' := count;
      if count' >= 2 {
        var ok := NumericTuple(7, 2, good, t, rest);
        if !ok {
          return DataUnderflow;
        }
        count' := count' - 2;
      }
      if count' != 0 {
        var ok := NumericTuple(4, 1, good, t, rest);
        if !ok {
          return DataUnderflow;
        }
        count' := count' - 1;
      }
      err := Success;
    }

    /** The whole groups of `decode_alpha`. */
    method AlphaGroups(count: nat, ghost good: bool, ghost t: Text, ghost rest: seq<bool>)
      returns (err: Error, count': nat, ghost left: Text)
      requires Valid() && payload_len + count + 1 <= MAX_PAYLOAD
      requires good ==> AllAlpha(t) && count == |t| && Remaining() == AlphaBits(t) + rest
      modifies this`ptr, this`payload_len, payload
      ensures Valid() && ptr >= old(ptr) && count' < 2 && payload_len + count' + 1 <= MAX_PAYLOAD
      ensures good ==> err == Success && AllAlpha(left) && count' == |left| && Remaining() == AlphaBits(left) + rest
      ensures good ==> Payload() + left == old(Payload()) + t
    {
      hide BitsOf, Stream, AlphaBits, AlphaValue, Remaining, AllAlpha;
      GroupWidths();
      count' := count;
      left := t;
      while count' >= 2
        invariant Valid() && ptr >= old(ptr) && payload_len + count' + 1 <= MAX_PAYLOAD
        invariant good ==> AllAlpha(left) && count' == |left| && Remaining() == AlphaBits(left) + rest
        invariant good ==> Payload() + left == old(Payload()) + t
      {
        ghost var g, after := [], [];
        if good {
          AlphaTake(left, rest);
          g, after := left[..2], AlphaBits(left[2..]) + rest;
        }
        var ok := AlphaTuple(11, 2, good, g, after);
        if !ok {
          return DataUnderflow, 0, left;
        }
        count' := count' - 2;
        if good {
          assert left == g + left[2..];
          left := left[2..];
        }
      }
      err := Success;
    }

    /** `decode_alpha`. */
    method DecodeAlpha(ghost good: bool, ghost t: Text, ghost rest: seq<bool>) returns (err: Error)
      requires Valid() && payload_len < MAX_PAYLOAD
      requires good ==> AllAlpha(t) && |t| < Pow2(CharCountBits(Alphanumeric, version)) && payload_len + |t| + 1 <= MAX_PAYLOAD
      requires good ==> Remaining() == BitsOf(|t|, CharCountBits(Alphanumeric, version)) + (AlphaBits(t) + rest)
      modifies this`ptr, this`payload_len, payload
      ensures Valid() && ptr >= old(ptr) && payload_len < MAX_PAYLOAD
      ensures good ==> err == Success && Remaining() == rest && Payload() == old(Payload()) + t
    {
      hide BitsOf, Stream, AlphaBits, AlphaValue, Remaining, AllAlpha, BitsValue;
      var bits := 13;
      if version < 10 {
        bits := 9;
      } else if version < 27 {
        bits := 11;
      }
      if good { Starts(|t|, bits, AlphaBits(t) + rest); }
      var count := TakeBits(bits);
      if payload_len + count + 1 > MAX_PAYLOAD {
        return DataOverflow;
      }
      ghost var left;
      err, count, left := AlphaGroups(count, good, t, rest);
      if err != Success {
        return;
      }
      if good { AlphaLast(left, rest); }
      if count != 0 {
        var ok := AlphaTuple(6, 1, good, left, rest);
        if !ok {
          return DataUnderflow;
        }
        count := count - 1;
      }
    }

    method PutByte(b: u8)
      requires Valid() && payload_len < MAX_PAYLOAD
      modifies this`payload_len, payload
      ensures Valid() && payload_len == old(payload_len) + 1
      ensures Payload() == old(Payload()) + [b] && Remaining() == old(Remaining())
    {
      payload[payload_len] := b;
      payload_len := payload_len + 1;
      assert payload[..payload_len] == payload[..payload_len - 1] + [b];
    }

    /** `decode_byte`. */
    method DecodeByte(ghost good: bool, ghost t: Text, ghost rest: seq<bool>) returns (err: Error)
      requires Valid() && payload_len < MAX_PAYLOAD
      requires good ==> |t| < Pow2(CharCountBits(Byte, version)) && payload_len + |t| + 1 <= MAX_PAYLOAD
      requires good ==> Remaining() == BitsOf(|t|, CharCountBits(Byte, version)) + (ByteBits(t) + rest)
      modifies this`ptr, this`payload_len, payload
      ensures Valid() && ptr >= old(ptr) && payload_len < MAX_PAYLOAD
      ensures good ==> err == Success && Remaining() == rest && Payload() == old(Payload()) + t
    {
      hide BitsOf, Stream, ByteBits, Remaining, BitsValue;
      var bits := 16;
      if version < 10 {
        bits := 8;
      }
      if good { Starts(|t|, bits, ByteBits(t) + rest); }
      var count := TakeBits(bits);
      if payload_len + count + 1 > MAX_PAYLOAD {
        return DataOverflow;
      }
      if good { ByteLength(t); }
      if data_bits - ptr < count * 8 {
        if good { RemainingLength(); }
        return DataUnderflow;
      }
      ByteRun(count, good, t, rest);
      return Success;
    }

    method ByteRun(count: nat, ghost good: bool, ghost t: Text, ghost rest: seq<bool>)
      requires Valid() && payload_len + count + 1 <= MAX_PAYLOAD
      requires good ==> |t| == count && Remaining() == ByteBits(t) + rest
      modifies this`ptr, this`payload_len, payload
      ensures Valid() && ptr >= old(ptr) && payload_len < MAX_PAYLOAD
      ensures good ==> Remaining() == rest && Payload() == old(Payload()) + t
    {
      hide BitsOf, Stream, ByteBits, Remaining, BitsValue;
      ghost var left := t;
      GroupWidths();
      for i := 0 to count
        invariant Valid() && ptr >= old(ptr) && payload_len + (count - i) + 1 <= MAX_PAYLOAD
        invariant good ==> |left| == count - i && Remaining() == ByteBits(left) + rest && Payload() + left == old(Payload()) + t
      {
        if good {
          ByteTake(left, rest);
          Starts(left[0], 8, ByteBits(left[1..]) + rest);
        }
        AnyByte(Remaining());
        var b := TakeBits(8);
        PutByte(b);
        if good {
          assert left == [left[0]] + left[1..];
          left := left[1..];
        }
      }
      if good { ByteLast(left, rest); }
    }

    /** `decode_kanji`: it stays inside the payload; its text is not followed here. */
    method DecodeKanji() returns (err: Error)
      requires Valid() && payload_len < MAX_PAYLOAD
      modifies this`ptr, this`payload_len, payload
      ensures Valid() && ptr >= old(ptr) && payload_len < MAX_PAYLOAD
    {
      hide Stream, BitsValue, Remaining;
      var bits := 12;
      if version < 10 {
        bits := 8;
      } else if version < 27 {
        bits := 10;
      }
      var count := TakeBits(bits);
      if payload_len + count * 2 + 1 > MAX_PAYLOAD {
        return DataOverflow;
      }
      if data_bits - ptr < count * 13 {
        return DataUnderflow;
      }
      for i := 0 to count
        invariant Valid() && ptr >= old(ptr) && payload_len + 2 * (count - i) + 1 <= MAX_PAYLOAD
      {
        AnyKanji(Remaining());
        var d := TakeBits(13);
        var intermediate := d / 0xC0 * 0x100 + d % 0xC0;
        var sjw := if intermediate + 0x8140 <= 0x9FFC then intermediate + 0x8140 else intermediate + 0xC140;
        PutByte(sjw / 0x100);
        PutByte(sjw % 0x100);
      }
      return Success;
    }

    /** `decode_eci`. */
    method DecodeEci() returns (err: Error)
      requires Valid()
      modifies this`ptr, this`eci
      ensures Valid() && ptr >= old(ptr)
    {
      hide Stream, BitsValue, Remaining;
      if data_bits - ptr < 8 {
        return DataUnderflow;
      }
      var first := TakeBits(8);
      eci := first;
      if first / 0x40 == 2 {
        if data_bits - ptr < 8 {
          return DataUnderflow;
        }
        var low := TakeBits(8);
        eci := first * 0x100 + low;
      } else if first / 0x20 == 6 {
        if data_bits - ptr < 16 {
          return DataUnderflow;
        }
        var low := TakeBits(16);
        eci := first * 0x1_0000 + low;
      }
      return Success;
    }

    /** One segment, after its mode bits. */
    method DecodeSegment(kind: nat, ghost good: bool, ghost seg: Segment, ghost t: Text, ghost rest: seq<bool>) returns (err: Error)
      requires Valid() && payload_len < MAX_PAYLOAD && (kind == 1 || kind == 2 || kind == 4 || kind == 7 || kind == 8)
      requires good ==> Carries(seg, t) && kind == ModeBits(seg.mode) && |t| < Pow2(CharCountBits(seg.mode, version))
      requires good ==> payload_len + |t| + 1 <= MAX_PAYLOAD
      requires good ==> Remaining() == BitsOf(|t|, CharCountBits(seg.mode, version)) + (seg.data + rest)
      modifies this`ptr, this`payload_len, this`eci, payload
      ensures Valid() && ptr >= old(ptr) && payload_len < MAX_PAYLOAD
      ensures good ==> err == Success && Remaining() == rest && Payload() == old(Payload()) + t
    {
      hide BitsOf, Stream, NumericBits, AlphaBits, ByteBits, Remaining, AllDigits, AllAlpha, CharCountBits;
      match kind {
        case 1 => err := DecodeNumeric(good, t, rest);
        case 2 => err := DecodeAlpha(good, t, rest);
        case 4 => err := DecodeByte(good, t, rest);
        case 8 => err := DecodeKanji();
        case 7 => err := DecodeEci();
      }
    }

    /** `decode_payload`: on the bits of segments that carry texts, followed by a terminator or
        the end, it yields the texts. */
    method DecodePayload(ghost good: bool, ghost segs: seq<Segment>, ghost texts: seq<Text>, ghost tail: seq<bool>) returns (err: Error)
      requires Valid() && payload_len == 0
      requires good ==> CarryAll(segs, texts) && LengthsFit(segs, version) && |Join(texts)| < MAX_PAYLOAD
      requires good ==> Ends(tail) && Remaining() == Encoded(segs, version) + tail
      modifies this`ptr, this`payload_len, this`eci, this`data_type, payload
      ensures Valid() && ptr >= old(ptr) && payload_len < MAX_PAYLOAD
      ensures err == Success ==> payload[payload_len] == 0
      ensures good ==> err == Success && Payload() == Join(texts)
    {
      hide BitsOf, Stream, BitsValue, Remaining, Front, Carries, LengthsFit, ModeBits, Ends, Encoded, CharCountBits, Header;
      ghost var k := 0;
      if good { FrontStart(segs, texts, version, tail); }
      while data_bits - ptr >= 4
        invariant Valid() && payload_len < MAX_PAYLOAD
        invariant good ==> k <= |segs| == |texts| && Remaining() == Front(segs[k..], version) + tail && Payload() == Join(texts[..k])
        decreases data_bits - ptr
      {
        RemainingLength();
        ghost var more := good && k < |segs|;
        ghost var seg, t, rest := Segment(Byte, 0, []), [], [];
        if more {
          seg, t, rest := segs[k], texts[k], Front(segs[k + 1..], version) + tail;
          FrontStep(segs, texts, version, tail, k);
          Starts(ModeBits(seg.mode), 4, BitsOf(|t|, CharCountBits(seg.mode, version)) + (seg.data + rest));
          JoinPrefix(texts, k);
        } else if good {
          FrontEnd(segs, version, tail);
          assert segs[k..] == [] && texts[..k] == texts;
        }
        var kind := TakeBits(4);
        RemainingLength();
        if kind != 1 && kind != 2 && kind != 4 && kind != 7 && kind != 8 {
          if more { KnownMode(seg, t); }
          break;
        }
        if good && !more { EndsWithoutMode(tail); }
        err := DecodeSegment(kind, more, seg, t, rest);
        if err != Success {
          return;
        }
        if more {
          assert texts[..k + 1][..k] == texts[..k];
          k := k + 1;
        }
        if kind != 7 && kind > data_type {
          data_type := kind;
        }
      }
      if good {
        RemainingLength();
        if k < |segs| { FrontStep(segs, texts, version, tail, k); }
        assert k == |segs| && texts[..k] == texts;
      }
      err := Success;
      // the payload is never full here, so the guard that would step back is not needed
      assert payload_len < MAX_PAYLOAD;
      payload[payload_len] := 0;
    }

    lemma RemainingLength()
      requires Valid()
      ensures |Remaining()| == data_bits - ptr
    {
    }
  }

  lemma AnyByte(bits: seq<bool>)
    ensures BitsValue(bits[..if 8 <= |bits| then 8 else |bits|]) < 256
  {
    var k := if 8 <= |bits| then 8 else |bits|;
    NumberBound(bits[..k], 0, k);
    Pow2Values();
    Pow2Monotone(k, 8);
  }

  lemma NumericTake(t: Text, rest: seq<bool>)
    requires AllDigits(t) && |t| >= 3
    ensures AllDigits(t[..3]) && AllDigits(t[3..]) && DigitsValue(t[..3]) < 1000
    ensures NumericBits(t) + rest == BitsOf(DigitsValue(t[..3]), 10) + (NumericBits(t[3..]) + rest)
  {
    hide BitsOf, DigitsValue, NumericBits;
    NumericUnfold(t);
    DigitsBound(t[..3]);
    Grouping(BitsOf(DigitsValue(t[..3]), 10), NumericBits(t[3..]), rest);
  }

  lemma NumericLast(t: Text, rest: seq<bool>)
    requires AllDigits(t) && |t| < 3
    ensures NumericBits(t) + rest == if t == [] then rest else BitsOf(DigitsValue(t), 3 * |t| + 1) + rest
    ensures DigitsValue(t) < (if |t| == 2 then 100 else 10)
  {
    DigitsBound(t);
    hide BitsOf, DigitsValue;
  }

  lemma AlphaTake(t: Text, rest: seq<bool>)
    requires AllAlpha(t) && |t| >= 2
    ensures AllAlpha(t[..2]) && AllAlpha(t[2..]) && AlphaValue(t[..2]) < 2025
    ensures AlphaBits(t) + rest == BitsOf(AlphaValue(t[..2]), 11) + (AlphaBits(t[2..]) + rest)
  {
    hide BitsOf, AlphaValue, AlphaIndex, AlphaBits;
    AlphaBound(t[..2]);
    AlphaUnfold(t);
  }

  lemma AlphaLast(t: Text, rest: seq<bool>)
    requires AllAlpha(t) && |t| < 2
    ensures AlphaBits(t) + rest == if t == [] then rest else BitsOf(AlphaValue(t), 6) + rest
    ensures AlphaValue(t) < 45
  {
    AlphaBound(t);
    hide BitsOf, AlphaValue;
  }

  lemma ByteTake(t: Text, rest: seq<bool>)
    requires t != []
    ensures ByteBits(t) + rest == BitsOf(t[0], 8) + (ByteBits(t[1..]) + rest)
  {
    hide BitsOf;
  }

  lemma ByteLast(t: Text, rest: seq<bool>)
    requires t == []
    ensures ByteBits(t) + rest == rest
  {
  }

  lemma {:induction false} ByteLength(t: Text)
    ensures |ByteBits(t)| == 8 * |t|
  {
    if t != [] { ByteLength(t[1..]); }
  }

  lemma AnyKanji(bits: seq<bool>)
    ensures BitsValue(bits[..if 13 <= |bits| then 13 else |bits|]) < 8192
  {
    var k := if 13 <= |bits| then 13 else |bits|;
    NumberBound(bits[..k], 0, k);
    Pow2Values();
    Pow2Add(8, 5);
    Pow2Monotone(k, 13);
  }

  // -------------------------------------------------------------------------------------
  // Lists of segments

  ghost predicate CarryAll(segs: seq<Segment>, texts: seq<Text>) {
    |segs| == |texts| && forall i :: 0 <= i < |segs| ==> Carries(segs[i], texts[i])
  }

  /** The end of the bits, or bits that are no segment's mode. */
  predicate Ends(tail: seq<bool>) {
    |tail| < 4 || BitsValue(tail[..4]) == 0
  }

  lemma EndsWithoutMode(tail: seq<bool>)
    requires Ends(tail) && |tail| >= 4
    ensures BitsValue(tail[..4]) == 0
  {
  }

  lemma KnownMode(seg: Segment, t: Text)
    requires Carries(seg, t)
    ensures var m := ModeBits(seg.mode); m == 1 || m == 2 || m == 4
    ensures ModeBits(seg.mode) < Pow2(4)
  {
    Pow2Values();
  }

  /** The bits of segments, first one first. */
  ghost function Front(segs: seq<Segment>, version: int): seq<bool>
    requires 1 <= version <= 40
  {
    if segs == [] then [] else (Header(segs[0], version) + segs[0].data) + Front(segs[1..], version)
  }

  lemma {:induction false} EncodedIsFront(segs: seq<Segment>, version: int)
    requires 1 <= version <= 40
    ensures Encoded(segs, version) == Front(segs, version)
  {
    hide Header;
    if segs != [] {
      var n := |segs| - 1;
      EncodedIsFront(segs[..n], version);
      FrontSnoc(segs[..n], segs[n], version);
      assert segs == segs[..n] + [segs[n]];
    }
  }

  lemma {:induction false} FrontSnoc(segs: seq<Segment>, seg: Segment, version: int)
    requires 1 <= version <= 40
    ensures Front(segs + [seg], version) == Front(segs, version) + (Header(seg, version) + seg.data)
  {
    hide Header;
    if segs == [] {
      assert [seg][1..] == [] && [] + [seg] == [seg];
    } else {
      FrontSnoc(segs[1..], seg, version);
      assert (segs + [seg])[1..] == segs[1..] + [seg];
    }
  }

  lemma FrontStart(segs: seq<Segment>, texts: seq<Text>, version: int, tail: seq<bool>)
    requires 1 <= version <= 40
    ensures Encoded(segs, version) + tail == Front(segs[0..], version) + tail && Join(texts[..0]) == []
  {
    EncodedIsFront(segs, version);
    assert segs[0..] == segs;
  }

  lemma FrontStep(segs: seq<Segment>, texts: seq<Text>, version: int, tail: seq<bool>, k: nat)
    requires 1 <= version <= 40 && CarryAll(segs, texts) && LengthsFit(segs, version) && k < |segs|
    ensures var seg, t := segs[k], texts[k];
      && Carries(seg, t) && |t| < Pow2(CharCountBits(seg.mode, version)) && ModeBits(seg.mode) < Pow2(4)
      && Front(segs[k..], version) + tail == BitsOf(ModeBits(seg.mode), 4)
           + (BitsOf(|t|, CharCountBits(seg.mode, version)) + (seg.data + (Front(segs[k + 1..], version) + tail)))
  {
    hide BitsOf, CharCountBits, ModeBits;
    KnownMode(segs[k], texts[k]);
    assert segs[k..][1..] == segs[k + 1..];
  }

  lemma FrontEnd(segs: seq<Segment>, version: int, tail: seq<bool>)
    requires 1 <= version <= 40
    ensures Front([], version) + tail == tail
  {
  }

  lemma {:induction false} JoinPrefix(texts: seq<Text>, k: nat)
    requires k < |texts|
    ensures |Join(texts[..k])| + |texts[k]| <= |Join(texts)|
  {
    var n := |texts| - 1;
    if k < n {
      JoinPrefix(texts[..n], k);
      assert texts[..n][..k] == texts[..k];
    }
  }

  lemma DecimalDigitsStep(v: nat, n: nat, w: Text)
    requires n > 0
    ensures DecimalDigits(v, n) + w == DecimalDigits(v / 10, n - 1) + ([48 + v % 10] + w)
  {
  }

  lemma AlphaDigitsStep(v: nat, n: nat, w: Text)
    requires n > 0
    ensures AlphaDigits(v, n) + w == AlphaDigits(v / 45, n - 1) + ([AlphaChar(v % 45)] + w)
  {
    hide AlphaChar;
  }

  lemma NoDigits(v: nat)
    ensures forall u: nat :: DecimalDigits(u, 0) == [] && AlphaDigits(u, 0) == []
  {
  }

  lemma NoValue(bits: seq<bool>)
    ensures BitsValue(bits[..0]) == 0
  {
  }

  lemma NextValue(bits: seq<bool>, i: nat)
    requires i < |bits|
    ensures BitsValue(bits[..i + 1]) == 2 * BitsValue(bits[..i]) + (if bits[i] then 1 else 0)
  {
    assert bits[..i + 1] == bits[..i] + [bits[i]];
    ValueSnoc(bits[..i], bits[i]);
  }

  lemma Slot(p: seq<u8>, len: nat, i: nat, digits: nat)
    requires i < digits && len + digits <= |p|
    ensures p[len + i..len + digits] == [p[len + i]] + p[len + i + 1..len + digits]
  {
  }

  // -------------------------------------------------------------------------------------
  // Sizes

  // No mode packs more than three characters into ten bits.
  lemma {:induction false} NumericDense(t: Text)
    requires AllDigits(t)
    ensures 10 * |t| <= 3 * |NumericBits(t)|
  {
    if |t| >= 3 { NumericDense(t[3..]); }
  }

  lemma {:induction false} AlphaDense(t: Text)
    requires AllAlpha(t)
    ensures 10 * |t| <= 3 * |AlphaBits(t)|
  {
    if |t| >= 2 { AlphaDense(t[2..]); }
  }

  lemma {:induction false} TextsFit(segs: seq<Segment>, texts: seq<Text>, version: int)
    requires 1 <= version <= 40 && CarryAll(segs, texts)
    ensures 10 * |Join(texts)| <= 3 * SumBits(segs, version)
  {
    hide NumericBits, AlphaBits, ByteBits;
    if segs != [] {
      var n := |segs| - 1;
      TextsFit(segs[..n], texts[..n], version);
      assert Carries(segs[n], texts[n]);
      match segs[n].mode {
        case Numeric => NumericDense(texts[n]);
        case Alphanumeric => AlphaDense(texts[n]);
        case Byte => ByteLength(texts[n]);
      }
    }
  }

  lemma {:induction false} ZeroValue(k: nat)
    ensures BitsValue(BitsOf(0, k)) == 0
  {
    ValueOfBits(0, k);
  }

  /** After the segments comes a full terminator, or fewer than four bits. */
  lemma FilledEnds(bits: seq<bool>, encoded: seq<bool>, capacityBits: nat)
    requires IsFilled(bits, encoded, capacityBits)
    ensures bits == encoded + bits[|encoded|..] && Ends(bits[|encoded|..])
  {
    hide BitsOf, PadBits, ToByte, BitsValue;
    var t := Terminator(|encoded|, capacityBits);
    var a := ToByte(|encoded| + t);
    var n: nat :| bits == encoded + BitsOf(0, t) + BitsOf(0, a) + PadBits(n, 0xEC);
    TailStarts(encoded, BitsOf(0, t), BitsOf(0, a), PadBits(n, 0xEC));
    ZeroValue(4);
  }

  lemma TailStarts(a: seq<bool>, b: seq<bool>, c: seq<bool>, d: seq<bool>)
    ensures var s := a + b + c + d;
      s == a + s[|a|..] && s[|a|..][..|b|] == b
  {
  }

  // -------------------------------------------------------------------------------------
  // The round trip

  /** Codewords that hold segments and the encoder's filling decode to the segments' texts. */
  method DecodeText(version: int, data: seq<u8>, ghost good: bool, ghost segs: seq<Segment>, ghost texts: seq<Text>) returns (r: Option<Text>)
    requires 1 <= version <= 40
    requires good ==> CarryAll(segs, texts) && LengthsFit(segs, version) && |Join(texts)| < MAX_PAYLOAD
                      && IsFilled(Stream(data), Encoded(segs, version), 8 * |data|)
    ensures good ==> r == Some(Join(texts))
  {
    hide IsFilled, Encoded, Stream, LengthsFit, Ends, Carries;
    ghost var tail := [];
    if good {
      FilledEnds(Stream(data), Encoded(segs, version), 8 * |data|);
      tail := Stream(data)[|Encoded(segs, version)|..];
    }
    var decoder := new Decoder(version, data);
    var err := decoder.DecodePayload(good, segs, texts, tail);
    return if err == Success then Some(decoder.payload[..decoder.payload_len]) else None;
  }

  /** Any list of numeric, alphanumeric and byte segments that fits a version decodes, at that
      version, to the concatenated texts. */
  method EncodeAndDecode(segs: seq<Segment>, ghost texts: seq<Text>, ecl: Ecc, minVersion: int, maxVersion: int, boostEcl: bool,
                         capacity: Capacity)
    returns (r: Outcome<Text>)
    requires CarryAll(segs, texts) && 1 <= minVersion <= maxVersion <= 40
    requires forall v: int, e: Ecc :: capacity(v, e) <= 2956
    ensures r.Ok? ==> r.value == Join(texts)
    ensures !r.Ok? ==> r == TooLong && forall v :: minVersion <= v <= maxVersion ==> !Suits(segs, v, ecl, capacity)
  {
    hide IsFilled, Encoded, Stream, SumBits, LengthsFit, Boosted, Carries, Suits;
    var symbol := EncodeSegments(segs, ecl, minVersion, maxVersion, -1, boostEcl, capacity);
    match symbol {
      case Ok(codewords) =>
        Roomy(segs, texts, codewords, ecl, capacity);
        var text := DecodeText(codewords.version, codewords.data, true, segs, texts);
        return Ok(text.value);
      case TooLong =>
        return TooLong;
    }
  }

  lemma Roomy(segs: seq<Segment>, texts: seq<Text>, codewords: Codewords, ecl: Ecc, capacity: Capacity)
    requires 1 <= codewords.version <= 40 && CarryAll(segs, texts) && Suits(segs, codewords.version, ecl, capacity)
    requires capacity(codewords.version, ecl) <= 2956
    ensures |Join(texts)| < MAX_PAYLOAD && LengthsFit(segs, codewords.version)
  {
    TextsFit(segs, texts, codewords.version);
  }
}
