/** The version tables of the two libraries. Entry 0 stands for no version. */
module QrVersions {
  import opened ModArith
  import opened QrBlocks
  import opened QrEncoding

  /** `getNumRawDataModules`. */
  function RawModules(ver: nat): int {
    if ver < 2 then (16 * ver + 128) * ver + 64
    else
      var numAlign := ver / 7 + 2;
      (16 * ver + 128) * ver + 64 - ((25 * numAlign - 10) * numAlign - 55) - if ver >= 7 then 36 else 0
  }

  // -------------------------------------------------------------------------------------
  // qrcodegen: `ECC_CODEWORDS_PER_BLOCK` and `NUM_ERROR_CORRECTION_BLOCKS`

  const ECC_LOW: seq<nat> := [0, 7, 10, 15, 20, 26, 18, 20, 24, 30, 18, 20, 24, 26, 30, 22, 24, 28, 30, 28, 28, 28, 28, 30, 30, 26, 28, 30, 30,
    30, 30, 30, 30, 30, 30, 30, 30, 30, 30, 30, 30]
  const NUM_LOW: seq<nat> := [0, 1, 1, 1, 1, 1, 2, 2, 2, 2, 4, 4, 4, 4, 4, 6, 6, 6, 6, 7, 8, 8, 9, 9, 10, 12, 12, 12, 13, 14, 15, 16, 17, 18, 19,
    19, 20, 21, 22, 24, 25]
  const ECC_MEDIUM: seq<nat> := [0, 10, 16, 26, 18, 24, 16, 18, 22, 22, 26, 30, 22, 22, 24, 24, 28, 28, 26, 26, 26, 26, 28, 28, 28, 28, 28, 28, 28,
    28, 28, 28, 28, 28, 28, 28, 28, 28, 28, 28, 28]
  const NUM_MEDIUM: seq<nat> := [0, 1, 1, 1, 2, 2, 4, 4, 4, 5, 5, 5, 8, 9, 9, 10, 10, 11, 13, 14, 16, 17, 17, 18, 20, 21, 23, 25, 26, 28, 29, 31,
    33, 35, 37, 38, 40, 43, 45, 47, 49]
  const ECC_QUARTILE: seq<nat> := [0, 13, 22, 18, 26, 18, 24, 18, 22, 20, 24, 28, 26, 24, 20, 30, 24, 28, 28, 26, 30, 28, 30, 30, 30, 30, 28, 30, 30,
    30, 30, 30, 30, 30, 30, 30, 30, 30, 30, 30, 30]
  const NUM_QUARTILE: seq<nat> := [0, 1, 1, 2, 2, 4, 4, 6, 6, 8, 8, 8, 10, 12, 16, 12, 17, 16, 18, 21, 20, 23, 23, 25, 27, 29, 34, 34, 35, 38, 40, 43,
    45, 48, 51, 53, 56, 59, 62, 65, 68]
  const ECC_HIGH: seq<nat> := [0, 17, 28, 22, 16, 22, 28, 26, 26, 24, 28, 24, 28, 22, 24, 24, 30, 28, 28, 26, 28, 30, 24, 30, 30, 30, 30, 30, 30,
    30, 30, 30, 30, 30, 30, 30, 30, 30, 30, 30, 30]
  const NUM_HIGH: seq<nat> := [0, 1, 1, 2, 4, 4, 4, 5, 6, 8, 8, 11, 11, 16, 16, 18, 16, 19, 21, 25, 25, 25, 34, 30, 32, 35, 37, 40, 42, 45, 48,
    51, 54, 57, 60, 63, 66, 70, 74, 77, 81]

  // -------------------------------------------------------------------------------------
  // quirc: `quirc_version_db`, level by level

  const DATA_BYTES: seq<nat> := [0, 26, 44, 70, 100, 134, 172, 196, 242, 292, 346, 404, 466, 532, 581, 655, 733, 815, 901, 991, 1085, 1156, 1258,
    1364, 1474, 1588, 1706, 1828, 1921, 2051, 2185, 2323, 2465, 2611, 2761, 2876, 3034, 3196, 3362, 3532, 3706]
  const BS_LOW: seq<nat> := [0, 26, 44, 70, 100, 134, 86, 98, 121, 146, 86, 101, 116, 133, 145, 109, 122, 135, 150, 141, 135, 144, 139, 151,
    147, 132, 142, 152, 147, 146, 145, 145, 145, 145, 145, 151, 151, 152, 152, 147, 148]
  const DW_LOW: seq<nat> := [0, 19, 34, 55, 80, 108, 68, 78, 97, 116, 68, 81, 92, 107, 115, 87, 98, 107, 120, 113, 107, 116, 111, 121, 117, 106,
    114, 122, 117, 116, 115, 115, 115, 115, 115, 121, 121, 122, 122, 117, 118]
  const NS_LOW: seq<nat> := [0, 1, 1, 1, 1, 1, 2, 2, 2, 2, 2, 4, 2, 4, 3, 5, 5, 1, 5, 3, 3, 4, 2, 4, 6, 8, 10, 8, 3, 7, 5, 13, 17, 17, 13, 12,
    6, 17, 4, 20, 19]
  const BS_MEDIUM: seq<nat> := [0, 26, 44, 70, 50, 67, 43, 49, 60, 58, 69, 80, 58, 59, 64, 65, 73, 74, 69, 70, 67, 68, 74, 75, 73, 75, 74, 73, 73,
    73, 75, 74, 74, 74, 74, 75, 75, 74, 74, 75, 75]
  const DW_MEDIUM: seq<nat> := [0, 16, 28, 44, 32, 43, 27, 31, 38, 36, 43, 50, 36, 37, 40, 41, 45, 46, 43, 44, 41, 42, 46, 47, 45, 47, 46, 45, 45,
    45, 47, 46, 46, 46, 46, 47, 47, 46, 46, 47, 47]
  const NS_MEDIUM: seq<nat> := [0, 1, 1, 1, 2, 2, 4, 4, 2, 3, 4, 1, 6, 8, 4, 5, 7, 10, 9, 3, 3, 17, 17, 4, 6, 8, 19, 22, 3, 21, 19, 2, 10, 14, 14,
    12, 6, 29, 13, 40, 18]
  const BS_QUARTILE: seq<nat> := [0, 26, 44, 35, 50, 33, 43, 32, 40, 36, 43, 50, 46, 44, 36, 54, 43, 50, 50, 47, 54, 50, 54, 54, 54, 54, 50, 53, 54,
    53, 54, 54, 54, 54, 54, 54, 54, 54, 54, 54, 54]
  const DW_QUARTILE: seq<nat> := [0, 13, 22, 17, 24, 15, 19, 14, 18, 16, 19, 22, 20, 20, 16, 24, 19, 22, 22, 21, 24, 22, 24, 24, 24, 24, 22, 23, 24,
    23, 24, 24, 24, 24, 24, 24, 24, 24, 24, 24, 24]
  const NS_QUARTILE: seq<nat> := [0, 1, 1, 2, 2, 2, 4, 2, 4, 4, 6, 4, 4, 8, 11, 5, 15, 1, 17, 17, 15, 17, 7, 11, 11, 7, 28, 8, 4, 1, 15, 42, 10, 29,
    44, 39, 46, 49, 48, 43, 34]
  const BS_HIGH: seq<nat> := [0, 26, 44, 35, 25, 33, 43, 39, 40, 36, 43, 36, 42, 33, 36, 36, 45, 42, 42, 39, 43, 46, 37, 45, 46, 45, 46, 45, 45,
    45, 45, 45, 45, 45, 46, 45, 45, 45, 45, 45, 45]
  const DW_HIGH: seq<nat> := [0, 9, 16, 13, 9, 11, 15, 13, 14, 12, 15, 12, 14, 11, 12, 12, 15, 14, 14, 13, 15, 16, 13, 15, 16, 15, 16, 15, 15,
    15, 15, 15, 15, 15, 16, 15, 15, 15, 15, 15, 15]
  const NS_HIGH: seq<nat> := [0, 1, 1, 2, 4, 2, 4, 4, 4, 4, 6, 3, 7, 12, 11, 11, 3, 2, 2, 9, 15, 19, 34, 16, 30, 22, 33, 12, 11, 19, 23, 23, 19,
    11, 59, 22, 2, 24, 42, 10, 20]

  /** The row describes all blocks of the encoder: ns of bs bytes, the others of one more, raw bytes in all. */
  ghost predicate Describes(bs: nat, dw: nat, ns: nat, numBlocks: nat, blockEccLen: nat, raw: int) {
    && 0 < ns <= numBlocks && 7 <= blockEccLen <= 30 && dw + blockEccLen == bs <= 152
    && dw > 0 && bs * ns + (bs + 1) * (numBlocks - ns) == raw && raw - blockEccLen * numBlocks <= 2956
  }

  ghost predicate ByteCount(ver: nat) {
    ver < |DATA_BYTES| && DATA_BYTES[ver] == RawModules(ver) / 8 && 208 <= RawModules(ver) <= 29648
  }

  lemma BytesFrom1(ver: nat) requires 1 <= ver < 11 ensures ByteCount(ver) {}
  lemma BytesFrom11(ver: nat) requires 11 <= ver < 21 ensures ByteCount(ver) {}
  lemma BytesFrom21(ver: nat) requires 21 <= ver < 31 ensures ByteCount(ver) {}
  lemma BytesFrom31(ver: nat) requires 31 <= ver < 41 ensures ByteCount(ver) {}

  ghost predicate LowRow(ver: nat) {
    && ver < |DATA_BYTES| == |BS_LOW| == |DW_LOW| == |NS_LOW| == |NUM_LOW| == |ECC_LOW|
    && Describes(BS_LOW[ver], DW_LOW[ver], NS_LOW[ver], NUM_LOW[ver], ECC_LOW[ver], DATA_BYTES[ver])
  }

  lemma LowFrom1(ver: nat) requires 1 <= ver < 6 ensures LowRow(ver) {}
  lemma LowFrom6(ver: nat) requires 6 <= ver < 11 ensures LowRow(ver) {}
  lemma LowFrom11(ver: nat) requires 11 <= ver < 16 ensures LowRow(ver) {}
  lemma LowFrom16(ver: nat) requires 16 <= ver < 22 ensures LowRow(ver) {}
  lemma LowFrom22(ver: nat) requires 22 <= ver < 29 ensures LowRow(ver) {}
  lemma LowFrom29(ver: nat) requires 29 <= ver < 41 ensures LowRow(ver) {}

  ghost predicate MediumRow(ver: nat) {
    && ver < |DATA_BYTES| == |BS_MEDIUM| == |DW_MEDIUM| == |NS_MEDIUM| == |NUM_MEDIUM| == |ECC_MEDIUM|
    && Describes(BS_MEDIUM[ver], DW_MEDIUM[ver], NS_MEDIUM[ver], NUM_MEDIUM[ver], ECC_MEDIUM[ver], DATA_BYTES[ver])
  }

  lemma MediumFrom1(ver: nat) requires 1 <= ver < 6 ensures MediumRow(ver) {}
  lemma MediumFrom6(ver: nat) requires 6 <= ver < 11 ensures MediumRow(ver) {}
  lemma MediumFrom11(ver: nat) requires 11 <= ver < 16 ensures MediumRow(ver) {}
  lemma MediumFrom16(ver: nat) requires 16 <= ver < 22 ensures MediumRow(ver) {}
  lemma MediumFrom22(ver: nat) requires 22 <= ver < 29 ensures MediumRow(ver) {}
  lemma MediumFrom29(ver: nat) requires 29 <= ver < 41 ensures MediumRow(ver) {}

  ghost predicate QuartileRow(ver: nat) {
    && ver < |DATA_BYTES| == |BS_QUARTILE| == |DW_QUARTILE| == |NS_QUARTILE| == |NUM_QUARTILE| == |ECC_QUARTILE|
    && Describes(BS_QUARTILE[ver], DW_QUARTILE[ver], NS_QUARTILE[ver], NUM_QUARTILE[ver], ECC_QUARTILE[ver], DATA_BYTES[ver])
  }

  lemma QuartileFrom1(ver: nat) requires 1 <= ver < 6 ensures QuartileRow(ver) {}
  lemma QuartileFrom6(ver: nat) requires 6 <= ver < 11 ensures QuartileRow(ver) {}
  lemma QuartileFrom11(ver: nat) requires 11 <= ver < 16 ensures QuartileRow(ver) {}
  lemma QuartileFrom16(ver: nat) requires 16 <= ver < 22 ensures QuartileRow(ver) {}
  lemma QuartileFrom22(ver: nat) requires 22 <= ver < 29 ensures QuartileRow(ver) {}
  lemma QuartileFrom29(ver: nat) requires 29 <= ver < 41 ensures QuartileRow(ver) {}

  ghost predicate HighRow(ver: nat) {
    && ver < |DATA_BYTES| == |BS_HIGH| == |DW_HIGH| == |NS_HIGH| == |NUM_HIGH| == |ECC_HIGH|
    && Describes(BS_HIGH[ver], DW_HIGH[ver], NS_HIGH[ver], NUM_HIGH[ver], ECC_HIGH[ver], DATA_BYTES[ver])
  }

  lemma HighFrom1(ver: nat) requires 1 <= ver < 6 ensures HighRow(ver) {}
  lemma HighFrom6(ver: nat) requires 6 <= ver < 11 ensures HighRow(ver) {}
  lemma HighFrom11(ver: nat) requires 11 <= ver < 16 ensures HighRow(ver) {}
  lemma HighFrom16(ver: nat) requires 16 <= ver < 22 ensures HighRow(ver) {}
  lemma HighFrom22(ver: nat) requires 22 <= ver < 29 ensures HighRow(ver) {}
  lemma HighFrom29(ver: nat) requires 29 <= ver < 41 ensures HighRow(ver) {}

  // -------------------------------------------------------------------------------------
  // Both

  function NumBlocks(ver: nat, ecl: Ecc): nat
    requires 1 <= ver <= 40
  {
    match ecl
    case Low => NUM_LOW[ver]
    case Medium => NUM_MEDIUM[ver]
    case Quartile => NUM_QUARTILE[ver]
    case High => NUM_HIGH[ver]
  }

  function BlockEcc(ver: nat, ecl: Ecc): nat
    requires 1 <= ver <= 40
  {
    match ecl
    case Low => ECC_LOW[ver]
    case Medium => ECC_MEDIUM[ver]
    case Quartile => ECC_QUARTILE[ver]
    case High => ECC_HIGH[ver]
  }

  /** `struct quirc_rs_params`. */
  datatype RsParams = RsParams(bs: nat, dw: nat, ns: nat)

  function Params(ver: nat, ecl: Ecc): RsParams
    requires 1 <= ver <= 40
  {
    match ecl
    case Low => RsParams(BS_LOW[ver], DW_LOW[ver], NS_LOW[ver])
    case Medium => RsParams(BS_MEDIUM[ver], DW_MEDIUM[ver], NS_MEDIUM[ver])
    case Quartile => RsParams(BS_QUARTILE[ver], DW_QUARTILE[ver], NS_QUARTILE[ver])
    case High => RsParams(BS_HIGH[ver], DW_HIGH[ver], NS_HIGH[ver])
  }

  lemma AllDescribed(ver: nat, ecl: Ecc)
    requires 1 <= ver <= 40
    ensures var p := Params(ver, ecl); Describes(p.bs, p.dw, p.ns, NumBlocks(ver, ecl), BlockEcc(ver, ecl), DATA_BYTES[ver])
  {
    hide Describes;
    match ecl
    case Low => if ver < 6 { LowFrom1(ver); } else if ver < 11 { LowFrom6(ver); }
      else if ver < 16 { LowFrom11(ver); } else if ver < 22 { LowFrom16(ver); }
      else if ver < 29 { LowFrom22(ver); } else { LowFrom29(ver); }
    case Medium => if ver < 6 { MediumFrom1(ver); } else if ver < 11 { MediumFrom6(ver); }
      else if ver < 16 { MediumFrom11(ver); } else if ver < 22 { MediumFrom16(ver); }
      else if ver < 29 { MediumFrom22(ver); } else { MediumFrom29(ver); }
    case Quartile => if ver < 6 { QuartileFrom1(ver); } else if ver < 11 { QuartileFrom6(ver); }
      else if ver < 16 { QuartileFrom11(ver); } else if ver < 22 { QuartileFrom16(ver); }
      else if ver < 29 { QuartileFrom22(ver); } else { QuartileFrom29(ver); }
    case High => if ver < 6 { HighFrom1(ver); } else if ver < 11 { HighFrom6(ver); }
      else if ver < 16 { HighFrom11(ver); } else if ver < 22 { HighFrom16(ver); }
      else if ver < 29 { HighFrom22(ver); } else { HighFrom29(ver); }
  }

  lemma BytesAgree(ver: nat)
    requires 1 <= ver <= 40
    ensures |DATA_BYTES| == 41 && DATA_BYTES[ver] == RawModules(ver) / 8 && 208 <= RawModules(ver) <= 29648
  {
    if ver < 11 { BytesFrom1(ver); } else if ver < 21 { BytesFrom11(ver); } else if ver < 31 { BytesFrom21(ver); } else { BytesFrom31(ver); }
  }

  lemma FromRow(bs: nat, dw: nat, ns: nat, n: nat, ecc: nat, raw: int)
    requires Describes(bs, dw, ns, n, ecc, raw)
    ensures raw >= 0 && raw / n == bs && raw % n == n - ns && 0 < raw - ecc * n <= 2956
  {
    assert bs * ns + (bs + 1) * (n - ns) == bs * n + (n - ns);
    DivModUnique(raw, n, bs, n - ns);
    MulMono(ecc + 1, bs, n);
    assert (ecc + 1) * n == ecc * n + n;
  }

  /** For every version and level quirc's table describes exactly the blocks of qrcodegen's. */
  lemma TablesAgree(ver: nat, ecl: Ecc)
    requires 1 <= ver <= 40
    ensures |DATA_BYTES| == 41 && DATA_BYTES[ver] == RawModules(ver) / 8 && 208 <= RawModules(ver) <= 29648
    ensures var n, ecc, raw := NumBlocks(ver, ecl), BlockEcc(ver, ecl), DATA_BYTES[ver];
      && n >= 1 && 7 <= ecc <= 30 && ecc < raw / n <= 152 && 0 < DataCodewords(n, ecc, raw) <= 2956
      && Params(ver, ecl) == RsParams(raw / n, raw / n - ecc, n - raw % n)
  {
    hide NumBlocks, BlockEcc, Params, RawModules, DATA_BYTES;
    BytesAgree(ver);
    AllDescribed(ver, ecl);
    var p := Params(ver, ecl);
    FromRow(p.bs, p.dw, p.ns, NumBlocks(ver, ecl), BlockEcc(ver, ecl), DATA_BYTES[ver]);
  }
}
