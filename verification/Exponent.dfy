/** The exponent L - 2 of the modular inverse, as the bytes the ladder reads. */
module Exponent {
  import opened Limbs
  import opened Bytes
  import opened ScalarModL

  const LM2_ROW0: seq<u8> := [0xeb, 0xd3, 0xf5, 0x5c, 0x1a, 0x63, 0x12, 0x58]
  const LM2_ROW1: seq<u8> := [0xd6, 0x9c, 0xf7, 0xa2, 0xde, 0xf9, 0xde, 0x14]
  const LM2_ROW2: seq<u8> := [0x00, 0x00, 0x00, 0x00, 0x00, 0x00, 0x00, 0x00]
  const LM2_ROW3: seq<u8> := [0x00, 0x00, 0x00, 0x00, 0x00, 0x00, 0x00, 0x10]

  /** `Lm2`, row by row. */
  const LM2: seq<u8> := LM2_ROW0 + LM2_ROW1 + LM2_ROW2 + LM2_ROW3

  lemma RowValue(row: seq<u8>)
    requires |row| == 8
    ensures ByteVal(row) == Load32(row[0], row[1], row[2], row[3]) + BASE * Load32(row[4], row[5], row[6], row[7])
  {
    ByteVal4(row);
    ByteVal4(row[4..]);
  }

  lemma JoinRow(row: seq<u8>, rest: seq<u8>)
    requires |row| == 8
    ensures ByteVal(row + rest) == ByteVal(row) + 0x1_00000000_00000000 * ByteVal(rest)
  {
    hide ByteVal;
    ByteConcat(row, rest);
    assert Pow256(8) == 0x1_00000000_00000000;
  }

  lemma Lm2Value()
    ensures |LM2| == 32 && ByteVal(LM2) == ORDER - 2
  {
    hide ByteVal;
    RowValue(LM2_ROW0);
    RowValue(LM2_ROW1);
    RowValue(LM2_ROW2);
    RowValue(LM2_ROW3);
    JoinRow(LM2_ROW2, LM2_ROW3);
    JoinRow(LM2_ROW1, LM2_ROW2 + LM2_ROW3);
    JoinRow(LM2_ROW0, LM2_ROW1 + (LM2_ROW2 + LM2_ROW3));
    assert LM2 == LM2_ROW0 + (LM2_ROW1 + (LM2_ROW2 + LM2_ROW3));
  }
}
