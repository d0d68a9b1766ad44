/** From text to the cells of a symbol and back: the whole of the encoder, damaged cells, and the
    whole of the decoder. */
module QrSymbol {
  import opened Limbs
  import opened ModArith
  import opened BitPacking
  import opened Zigzag
  import opened SymbolWalk
  import opened Galois256Tables
  import opened QrBlocks
  import opened QrCodestream
  import opened QrDamage
  import opened QrSegments
  import opened QrEncoding
  import opened QrVersions
  import opened QrFunctionCells
  import opened QrCapacity
  import Bytes
  import P = QrPayload
  import opened Wrappers

  // -------------------------------------------------------------------------------------
  // The parameters of a version

  function RawCodewords(version: nat): nat
    requires 1 <= version <= 40
  {
    TablesAgree(version, Low);
    RawModules(version) / 8
  }

  function BlocksOf(version: nat, ecl: Ecc): Layout
    requires 1 <= version <= 40
  {
    TablesAgree(version, ecl);
    LayoutOf(NumBlocks(version, ecl), BlockEcc(version, ecl), RawCodewords(version))
  }

  /** `getNumDataCodewords`. */
  function DataCapacity(version: int, ecl: Ecc): nat {
    if 1 <= version <= 40 then
      TablesAgree(version, ecl);
      DataCodewords(NumBlocks(version, ecl), BlockEcc(version, ecl), RawCodewords(version))
    else 0
  }

  lemma BlocksKnown(version: nat, ecl: Ecc)
    requires 1 <= version <= 40
    ensures var s := BlocksOf(version, ecl);
      && 7 <= s.npar <= 30 && s.dw + 1 + s.npar <= 153 && s.ns >= 1
      && Total(s) == RawCodewords(version) <= 3706 && DataStart(s, Count(s)) == DataCapacity(version, ecl) <= 2956
  {
    hide NumBlocks, BlockEcc, RawModules, DATA_BYTES, Total;
    TablesAgree(version, ecl);
    TotalIsRaw(NumBlocks(version, ecl), BlockEcc(version, ecl), RawCodewords(version));
    BlocksHoldCapacity(NumBlocks(version, ecl), BlockEcc(version, ecl), RawCodewords(version));
    LayoutCount(NumBlocks(version, ecl), BlockEcc(version, ecl), RawCodewords(version));
  }

  /** The cells that hold data, in the order of the walk. */
  ghost function DataCells(version: nat): seq<Cell>
    requires 1 <= version <= 40
  {
    Free(Order(Size(version)), ReservedBy(version, Centres(version)))
  }

  /** The cells show the interleaved codeword blocks of the data, but for the flipped ones. */
  ghost predicate IsSymbol(g: Symbol, version: nat, ecl: Ecc, msk: int, blocks: seq<seq<bv8>>, data: seq<u8>, flip: Cell -> bool)
    requires 1 <= version <= 40
  {
    var s := BlocksOf(version, ecl);
    && Shaped(s, blocks, Count(s)) && AllCodewords(s, blocks) && Payload(s, blocks, Count(s)) == ToElements(data)
    && Shows(g, msk, DataCells(version), FromElements(Interleave(s, blocks)), flip)
  }

  // -------------------------------------------------------------------------------------
  // qrcodegen

  lemma Walked(version: nat)
    requires 1 <= version <= 40
    ensures Size(version) % 4 == 1 && Inside(Order(Size(version)), Size(version))
    ensures 8 * RawCodewords(version) <= |DataCells(version)|
  {
    hide Order;
    RoomForData(version);
    EachCellOnce(Size(version));
  }

  /** Function patterns, codewords and mask. */
  method DrawCells(version: nat, allCodewords: seq<u8>, msk: int) returns (modules: array2<bool>)
    requires 1 <= version <= 40 && |allCodewords| == RawCodewords(version) && 0 <= msk <= 7
    ensures fresh(modules) && Square(modules, Size(version))
    ensures Shows(Grid(modules, Size(version)), msk, DataCells(version), allCodewords, c => false)
  {
    hide Shows, Marks, Drawn, Masked, Order, Free, Inside, RawCodewords, Reserved;
    var n := Size(version);
    Walked(version);
    modules := new bool[n, n]((_, _) => false);
    var isFunction := new bool[n, n]((_, _) => false);
    AllClear(isFunction, n);
    DrawFunctionPatterns(isFunction, version);
    ghost var reserved := ReservedBy(version, Centres(version));
    ghost var base := Grid(modules, n);
    var drawn := DrawCodewords(modules, isFunction, n, allCodewords, reserved);
    DrawnShows(base, Grid(modules, n), n, allCodewords, msk, reserved, drawn);
    var masked := ApplyMask(modules, isFunction, n, msk, reserved);
  }

  lemma AllClear(isFunction: array2<bool>, n: nat)
    requires Square(isFunction, n) && forall y, x :: 0 <= y < n && 0 <= x < n ==> !isFunction[y, x]
    ensures Marks(isFunction, n, c => false)
  {
  }

  /** The constructor of `QrCode`, for a given mask. */
  method DrawSymbol(version: nat, ecl: Ecc, data: seq<u8>, msk: int) returns (modules: array2<bool>, ghost blocks: seq<seq<bv8>>)
    requires 1 <= version <= 40 && |data| == DataCapacity(version, ecl) && 0 <= msk <= 7
    ensures fresh(modules) && Square(modules, Size(version))
    ensures IsSymbol(Grid(modules, Size(version)), version, ecl, msk, blocks, data, c => false)
  {
    hide Shaped, AllCodewords, Payload, Interleave, Shows, NumBlocks, BlockEcc, DATA_BYTES;
    BlocksKnown(version, ecl);
    TablesAgree(version, ecl);
    var result;
    result, blocks := AddEccAndInterleave(ToElements(data), NumBlocks(version, ecl), BlockEcc(version, ecl), RawCodewords(version));
    modules := DrawCells(version, FromElements(result.value), msk);
  }

  // -------------------------------------------------------------------------------------
  // Damage

  /** A copy of a symbol with some cells flipped. */
  method FlipCells(modules: array2<bool>, n: nat, flip: Cell -> bool) returns (code: array2<bool>)
    requires Square(modules, n)
    ensures fresh(code) && Square(code, n) && forall c :: c in Grid(modules, n) ==> Grid(code, n)[c] == (Grid(modules, n)[c] != flip(c))
  {
    code := new bool[n, n];
    for y := 0 to n
      invariant forall c: Cell :: 0 <= c.x < n && 0 <= c.y < y ==> code[c.y, c.x] == (modules[c.y, c.x] != flip(c))
    {
      for x := 0 to n
        invariant forall c: Cell :: 0 <= c.x < n && 0 <= c.y < y ==> code[c.y, c.x] == (modules[c.y, c.x] != flip(c))
        invariant forall c: Cell :: 0 <= c.x < x && c.y == y ==> code[c.y, c.x] == (modules[c.y, c.x] != flip(c))
      {
        code[y, x] := modules[y, x] != flip(Cell(x, y));
      }
    }
  }

  ghost function HitBytes(version: nat, flip: Cell -> bool): nat -> bool
    requires 1 <= version <= 40
  {
    (t: nat) => HitBy(flip, DataCells(version), t)
  }

  /** The flipped cells lie in so few bytes of every block that its code repairs them. */
  ghost predicate Readable(version: nat, ecl: Ecc, flip: Cell -> bool)
    requires 1 <= version <= 40
  {
    Bearable(BlocksOf(version, ecl), HitBytes(version, flip))
  }

  // -------------------------------------------------------------------------------------
  // quirc

  /** The bytes read from a readable symbol are repairable. */
  lemma ReadIsRepairable(g: Symbol, version: nat, ecl: Ecc, mask: int, blocks: seq<seq<bv8>>, data: seq<u8>, flip: Cell -> bool,
                         raw: seq<u8>, data_bits: nat)
    requires 1 <= version <= 40 && g.Keys == Cells(Size(version)) && Inside(Order(Size(version)), Size(version))
    requires IsSymbol(g, version, ecl, mask, blocks, data, flip) && Readable(version, ecl, flip)
    requires |raw| >= Total(BlocksOf(version, ecl))
    requires Collected(g, mask, ReservedBy(version, Centres(version)), Order(Size(version)), raw, data_bits)
    ensures AllRepairable(BlocksOf(version, ecl), blocks, ToElements(raw))
  {
    hide Shaped, AllCodewords, Payload, Interleave, Shows, Collected, Inside, BlocksOf, Order, Total, Free, Reserved, Bearable, AllRepairable, HitBy;
    var s := BlocksOf(version, ecl);
    var bytes := FromElements(Interleave(s, blocks));
    forall t: nat | t < Total(s) && !HitBytes(version, flip)(t)
      ensures ToElements(raw)[t] == Interleave(s, blocks)[t]
    {
      UnhitByte(g, Size(version), mask, ReservedBy(version, Centres(version)), bytes, flip, raw, data_bits, t);
      ElementAgain(Interleave(s, blocks)[t]);
    }
    BearableIsRepairable(s, blocks, ToElements(raw), HitBytes(version, flip));
  }

  lemma SameBlocks(version: nat, ecl: Ecc)
    requires 1 <= version <= 40
    ensures var p := Params(version, ecl);
      && |DATA_BYTES| == 41 && p.dw < p.bs <= 152 && p.bs - p.dw <= 30 && p.bs * p.ns <= DATA_BYTES[version]
      && QuircLayout(DATA_BYTES[version], p.bs, p.dw, p.ns) == BlocksOf(version, ecl)
  {
    hide NumBlocks, BlockEcc, RawModules, Params;
    TablesAgree(version, ecl);
    SameLayout(NumBlocks(version, ecl), BlockEcc(version, ecl), RawCodewords(version));
  }

  lemma RoomInRaw(version: nat, reserved: Cell -> bool)
    requires 1 <= version <= 40
    ensures |Free(Order(Size(version)), reserved)| <= 8 * P.MAX_PAYLOAD
  {
    hide Free, Order;
    RoomAtMost(Size(version), reserved);
    MulBounds(Size(version), Size(version), 177, 177);
  }

  /** The bytes of a symbol, from the cells its version's row leaves. */
  method ReadRaw(code: array2<bool>, version: nat, mask: int) returns (raw: seq<u8>, ghost data_bits: nat)
    requires 1 <= version <= 40 && Square(code, Size(version))
    ensures |APAT| == 41 && |raw| == P.MAX_PAYLOAD && Inside(Order(Size(version)), Size(version))
    ensures Collected(Grid(code, Size(version)), mask, ReservedBy(version, Listed(APAT[version])), Order(Size(version)), raw, data_bits)
  {
    hide Collected, Inside, Order, Free, Reserved, Spaced, APAT, Listed;
    ListedSpaced(version);
    var reserved := ReservedBy(version, Listed(APAT[version]));
    RoomInRaw(version, reserved);
    var bytes := new u8[P.MAX_PAYLOAD](_ => 0);
    data_bits := ReadData(code, Size(version), mask, reserved, bytes);
    raw := bytes[..];
  }

  lemma JoinedPrefix(s: Layout, raw: seq<bv8>, dst_offset: nat, fixed: seq<seq<bv8>>, data: seq<bv8>)
    requires s.npar >= 1 && |raw| >= Total(s) && Joined(s, raw, Count(s), dst_offset, fixed, data)
    ensures dst_offset <= |data| && Joined(s, raw, Count(s), dst_offset, fixed, data[..dst_offset])
  {
    hide Nearest, Shaped, Payload, Total;
    assert data[..dst_offset][..dst_offset] == data[..dst_offset];
  }

  /** The data of the corrected blocks. */
  method CorrectSymbol(raw: seq<u8>, version: nat, ecl: Ecc) returns (r: Option<seq<u8>>, ghost fixed: seq<seq<bv8>>)
    requires 1 <= version <= 40 && |raw| == P.MAX_PAYLOAD
    ensures var s := BlocksOf(version, ecl);
      && s.npar >= 1 && |raw| >= Total(s)
      && (r.None? ==> exists i: nat :: i < Count(s) && !HasNear(s, ToElements(raw), i))
      && (r.Some? ==> Joined(s, ToElements(raw), Count(s), |r.value|, fixed, ToElements(r.value)))
  {
    hide Joined, DATA_BYTES, Params, BlocksOf, QuircLayout, Total;
    ghost var s := BlocksOf(version, ecl);
    BlocksKnown(version, ecl);
    SameBlocks(version, ecl);
    var p := Params(version, ecl);
    var buffer := new bv8[P.MAX_PAYLOAD];
    var ok, data_bits;
    ok, data_bits, fixed := CodestreamEcc(ToElements(raw), DATA_BYTES[version], p.bs, p.dw, p.ns, buffer);
    if !ok {
      return None, fixed;
    }
    JoinedPrefix(s, ToElements(raw), data_bits / 8, fixed, buffer[..]);
    ElementsAgain(buffer[..data_bits / 8]);
    assert buffer[..][..data_bits / 8] == buffer[..data_bits / 8];
    r := Some(FromElements(buffer[..data_bits / 8]));
  }

  lemma NoneMissing(version: nat, ecl: Ecc, mask: int, g: Symbol, blocks: seq<seq<bv8>>, data: seq<u8>, flip: Cell -> bool, raw: seq<bv8>, i: nat)
    requires 1 <= version <= 40 && IsSymbol(g, version, ecl, mask, blocks, data, flip)
    requires var s := BlocksOf(version, ecl); s.npar >= 1 && |raw| >= Total(s) && AllRepairable(s, blocks, raw) && i < Count(s)
    ensures HasNear(BlocksOf(version, ecl), raw, i)
  {
    Restored(BlocksOf(version, ecl), blocks, raw, i);
  }

  lemma DataRead(version: nat, ecl: Ecc, mask: int, g: Symbol, blocks: seq<seq<bv8>>, data: seq<u8>, flip: Cell -> bool, raw: seq<bv8>,
                 fixed: seq<seq<bv8>>, read: seq<u8>)
    requires 1 <= version <= 40 && IsSymbol(g, version, ecl, mask, blocks, data, flip)
    requires var s := BlocksOf(version, ecl);
      && s.npar >= 1 && |raw| >= Total(s) && AllRepairable(s, blocks, raw)
      && Joined(s, raw, Count(s), |read|, fixed, ToElements(read))
    ensures read == data
  {
    hide Shows, Joined, AllRepairable, Payload, Shaped, AllCodewords, BlocksOf, FromElements, ToElements, DataCells, Interleave, Total;
    SamePayload(BlocksOf(version, ecl), blocks, raw, |read|, fixed, ToElements(read));
    assert ToElements(read)[..|read|] == ToElements(read);
    BytesAgain(data);
    BytesAgain(read);
  }

  /** Reading the codewords of a symbol and correcting them. */
  method ReadSymbol(code: array2<bool>, version: nat, ecl: Ecc, mask: int,
                    ghost blocks: seq<seq<bv8>>, ghost data: seq<u8>, ghost flip: Cell -> bool)
    returns (r: Option<seq<u8>>)
    requires 1 <= version <= 40 && Square(code, Size(version))
    ensures version != 21 && Readable(version, ecl, flip) && IsSymbol(Grid(code, Size(version)), version, ecl, mask, blocks, data, flip)
      ==> r == Some(data)
  {
    hide IsSymbol, Collected, Inside, Order, BlocksOf, Total, Readable, Reserved, Joined, AllRepairable, APAT, ToElements;
    var raw, data_bits := ReadRaw(code, version, mask);
    ghost var fixed;
    r, fixed := CorrectSymbol(raw, version, ecl);
    ghost var s, g := BlocksOf(version, ecl), Grid(code, Size(version));
    if version != 21 && Readable(version, ecl, flip) && IsSymbol(g, version, ecl, mask, blocks, data, flip) {
      CentresAgree(version);
      ReadIsRepairable(g, version, ecl, mask, blocks, data, flip, raw, data_bits);
      if r.None? {
        ghost var i: nat :| i < Count(s) && !HasNear(s, ToElements(raw), i);
        NoneMissing(version, ecl, mask, g, blocks, data, flip, ToElements(raw), i);
      } else {
        DataRead(version, ecl, mask, g, blocks, data, flip, ToElements(raw), fixed, r.value);
      }
    }
  }

  // -------------------------------------------------------------------------------------
  // From text to text

  /** Segments drawn as a symbol of any version but 21, with flipped cells in so few bytes of every
      block that its code repairs them, decode to their texts. */
  method EncodeDamageDecode(segs: seq<Segment>, ghost texts: seq<Text>, ecl: Ecc, minVersion: int, maxVersion: int, boostEcl: bool,
                            msk: int, flip: Cell -> bool)
    returns (symbol: Outcome<Codewords>, text: Option<Text>)
    requires P.CarryAll(segs, texts) && 1 <= minVersion <= maxVersion <= 40 && 0 <= msk <= 7
    ensures symbol.Ok? ==> minVersion <= symbol.value.version <= maxVersion
    ensures symbol.Ok? && symbol.value.version != 21 && Readable(symbol.value.version, symbol.value.ecl, flip) ==> text == Some(Bytes.Join(texts))
    ensures !symbol.Ok? ==> symbol == TooLong && forall v :: minVersion <= v <= maxVersion ==> !Suits(segs, v, ecl, DataCapacity)
  {
    hide IsFilled, Encoded, Stream, SumBits, LengthsFit, Boosted, Carries, Suits, IsSymbol, Readable, DataCapacity;
    text := None;
    symbol := EncodeSegments(segs, ecl, minVersion, maxVersion, msk, boostEcl, DataCapacity);
    if symbol.Ok? {
      var version, level, data := symbol.value.version, symbol.value.ecl, symbol.value.data;
      var modules, blocks := DrawSymbol(version, level, data, msk);
      var code := FlipCells(modules, Size(version), flip);
      StillSymbol(Grid(modules, Size(version)), Grid(code, Size(version)), version, level, msk, blocks, data, flip);
      var read := ReadSymbol(code, version, level, msk, blocks, data, flip);
      BlocksKnown(version, ecl);
      P.Roomy(segs, texts, symbol.value, ecl, DataCapacity);
      ghost var good := read == Some(data);
      if read.Some? {
        text := P.DecodeText(version, read.value, good, segs, texts);
      }
    }
  }

  lemma StillSymbol(g: Symbol, seen: Symbol, version: nat, ecl: Ecc, msk: int, blocks: seq<seq<bv8>>, data: seq<u8>, flip: Cell -> bool)
    requires 1 <= version <= 40 && IsSymbol(g, version, ecl, msk, blocks, data, c => false)
    requires seen.Keys == g.Keys && forall c :: c in g ==> seen[c] == (g[c] != flip(c))
    ensures IsSymbol(seen, version, ecl, msk, blocks, data, flip)
  {
    hide Shows, Shaped, AllCodewords, Payload;
    FlipShows(g, seen, msk, DataCells(version), FromElements(Interleave(BlocksOf(version, ecl), blocks)), flip);
  }

  /** Without damage every symbol is readable. */
  lemma CleanIsReadable(version: nat, ecl: Ecc)
    requires 1 <= version <= 40
    ensures Readable(version, ecl, c => false)
  {
    hide Bearable, BlocksOf;
    BlocksKnown(version, ecl);
    UnhitIsBearable(BlocksOf(version, ecl), HitBytes(version, c => false));
  }
}
