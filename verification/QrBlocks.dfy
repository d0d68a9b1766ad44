/** How a QR symbol's codewords are split into blocks, given parity and interleaved by qrcodegen, and
    how quirc takes them apart again. The two disagree on one byte of every long block; error
    correction makes up for it. */
module QrBlocks {
  import opened ModArith
  import opened Galois
  import opened Galois256
  import opened Galois256Tables
  import opened BerlekampMassey
  import opened ReedSolomon
  import opened RsDecoder
  import opened RsEncoder
  import opened Wrappers

  /** ns short blocks of dw data bytes, then lb long ones of one byte more, all with npar parity bytes. */
  datatype Layout = Layout(dw: nat, npar: nat, ns: nat, lb: nat)

  function Count(s: Layout): nat {
    s.ns + s.lb
  }

  function DataLen(s: Layout, i: nat): nat {
    if i < s.ns then s.dw else s.dw + 1
  }

  function BlockLen(s: Layout, i: nat): nat {
    DataLen(s, i) + s.npar
  }

  /** The first n blocks have the lengths of the layout. */
  ghost predicate Shaped<T>(s: Layout, blocks: seq<seq<T>>, n: nat) {
    |blocks| == n <= Count(s) && forall i :: 0 <= i < n ==> |blocks[i]| == BlockLen(s, i)
  }

  // -------------------------------------------------------------------------------------
  // The interleaved sequence, row by row

  ghost function ByteOf<T>(s: Layout, blocks: seq<seq<T>>, i: nat, k: nat): T
    requires Shaped(s, blocks, Count(s)) && i < Count(s) && k < BlockLen(s, i)
  {
    blocks[i][k]
  }

  /** Row dw holds the extra bytes of the long blocks; parity comes behind it. */
  ghost function RowOf<T>(s: Layout, blocks: seq<seq<T>>, r: nat): (row: seq<T>)
    requires Shaped(s, blocks, Count(s)) && r < s.dw + 1 + s.npar
    ensures |row| == if r == s.dw then s.lb else Count(s)
  {
    if r < s.dw then seq(Count(s), i requires 0 <= i < Count(s) => ByteOf(s, blocks, i, r))
    else if r == s.dw then seq(s.lb, i requires 0 <= i < s.lb => ByteOf(s, blocks, s.ns + i, s.dw))
    else seq(Count(s), i requires 0 <= i < Count(s) => ByteOf(s, blocks, i, DataLen(s, i) + (r - s.dw - 1)))
  }

  function RowStart(s: Layout, r: nat): nat {
    if r <= s.dw then Stride(r, Count(s)) else Stride(s.dw, Count(s)) + s.lb + Stride(r - s.dw - 1, Count(s))
  }

  ghost function Rows<T>(s: Layout, blocks: seq<seq<T>>, n: nat): (raw: seq<T>)
    requires Shaped(s, blocks, Count(s)) && n <= s.dw + 1 + s.npar
    ensures |raw| == RowStart(s, n)
  {
    if n == 0 then [] else Rows(s, blocks, n - 1) + RowOf(s, blocks, n - 1)
  }

  function Total(s: Layout): nat {
    RowStart(s, s.dw + 1 + s.npar)
  }

  ghost function Interleave<T>(s: Layout, blocks: seq<seq<T>>): (raw: seq<T>)
    requires Shaped(s, blocks, Count(s))
    ensures |raw| == Total(s)
  {
    Rows(s, blocks, s.dw + 1 + s.npar)
  }

  /** The row in which byte k of block i lies, and its place there. */
  function RowIndex(s: Layout, i: nat, k: nat): nat {
    if k < DataLen(s, i) then k else k - DataLen(s, i) + s.dw + 1
  }

  /** Where the encoder puts byte k of block i. */
  function Slot(s: Layout, i: nat, k: nat): nat
    requires i < Count(s)
  {
    RowStart(s, RowIndex(s, i, k)) + if RowIndex(s, i, k) == s.dw then i - s.ns else i
  }

  /** Where the decoder looks for it: `j * bc + i`, or the same behind `ecc_offset`. */
  function QuircSlot(s: Layout, i: nat, k: nat): nat {
    if k < DataLen(s, i) then Stride(k, Count(s)) + i
    else Stride(s.dw, Count(s)) + s.lb + Stride(k - DataLen(s, i), Count(s)) + i
  }

  /** The two agree on every byte but the extra one of a long block, which the decoder looks for ns
      places too far. */
  lemma SlotsCompared(s: Layout, i: nat, k: nat)
    requires i < Count(s) && k < BlockLen(s, i)
    ensures QuircSlot(s, i, k) == Slot(s, i, k) + if i >= s.ns && k == s.dw then s.ns else 0
  {
  }

  lemma RowFits(s: Layout, r: nat, n: nat)
    requires r < n
    ensures RowStart(s, r) + (if r == s.dw then s.lb else Count(s)) <= RowStart(s, n)
  {
    hide Stride;
    if n <= s.dw {
      StridesApart(r, n, Count(s));
    } else if r > s.dw {
      StridesApart(r - s.dw - 1, n - s.dw - 1, Count(s));
    } else if r < s.dw {
      StridesApart(r, s.dw, Count(s));
    }
  }

  lemma {:induction false} RowsAt<T>(s: Layout, blocks: seq<seq<T>>, n: nat, r: nat, t: nat)
    requires Shaped(s, blocks, Count(s)) && r < n <= s.dw + 1 + s.npar && t < |RowOf(s, blocks, r)|
    ensures RowStart(s, r) + t < RowStart(s, n) && Rows(s, blocks, n)[RowStart(s, r) + t] == RowOf(s, blocks, r)[t]
  {
    hide RowStart, RowOf;
    RowFits(s, r, n);
    if r < n - 1 {
      RowsAt(s, blocks, n - 1, r, t);
    }
  }

  lemma RowOfAt<T>(s: Layout, blocks: seq<seq<T>>, i: nat, k: nat)
    requires Shaped(s, blocks, Count(s)) && i < Count(s) && k < BlockLen(s, i)
    ensures var r := RowIndex(s, i, k);
      var t := if r == s.dw then i - s.ns else i;
      r < s.dw + 1 + s.npar && 0 <= t < |RowOf(s, blocks, r)| && RowOf(s, blocks, r)[t] == blocks[i][k]
  {
    var row := RowOf(s, blocks, RowIndex(s, i, k));
    if k >= DataLen(s, i) {
      assert row[i] == ByteOf(s, blocks, i, DataLen(s, i) + (RowIndex(s, i, k) - s.dw - 1));
    } else if k == s.dw {
      assert row[i - s.ns] == ByteOf(s, blocks, s.ns + (i - s.ns), s.dw);
    } else {
      assert row[i] == ByteOf(s, blocks, i, k);
    }
  }

  /** Every byte lies in its slot. */
  lemma InterleaveAt<T>(s: Layout, blocks: seq<seq<T>>, i: nat, k: nat)
    requires Shaped(s, blocks, Count(s)) && i < Count(s) && k < BlockLen(s, i)
    ensures Slot(s, i, k) < Total(s) && Interleave(s, blocks)[Slot(s, i, k)] == blocks[i][k]
  {
    hide RowStart, RowOf, Stride;
    var r := RowIndex(s, i, k);
    RowOfAt(s, blocks, i, k);
    RowsAt(s, blocks, s.dw + 1 + s.npar, r, if r == s.dw then i - s.ns else i);
  }

  lemma QuircSlotFits(s: Layout, i: nat, k: nat)
    requires i < Count(s) && k < BlockLen(s, i) && s.npar >= 1
    ensures QuircSlot(s, i, k) < Total(s)
  {
    if k == s.dw && i >= s.ns {
      RowFits(s, s.dw + 1, s.dw + 1 + s.npar);
    } else {
      SlotsCompared(s, i, k);
      RowFits(s, RowIndex(s, i, k), s.dw + 1 + s.npar);
    }
  }

  /** What the decoder takes for block i. */
  ghost function ReadBlock<T>(s: Layout, raw: seq<T>, i: nat): (b: seq<T>)
    requires s.npar >= 1 && |raw| >= Total(s) && i < Count(s)
    ensures |b| == BlockLen(s, i)
  {
    seq(BlockLen(s, i), k requires 0 <= k < BlockLen(s, i) =>
      QuircSlotFits(s, i, k);
      raw[QuircSlot(s, i, k)])
  }

  /** The bytes in the slots of block i. */
  ghost function OwnBlock<T>(s: Layout, raw: seq<T>, i: nat): (b: seq<T>)
    requires |raw| >= Total(s) && i < Count(s)
    ensures |b| == BlockLen(s, i)
  {
    seq(BlockLen(s, i), k requires 0 <= k < BlockLen(s, i) =>
      RowFits(s, RowIndex(s, i, k), s.dw + 1 + s.npar);
      raw[Slot(s, i, k)])
  }

  /** A short block is read as it is; of a long one exactly the extra byte is looked for in the wrong
      place. */
  lemma ReadIsOwn<T>(s: Layout, raw: seq<T>, i: nat)
    requires s.npar >= 1 && |raw| >= Total(s) && i < Count(s)
    ensures i < s.ns ==> ReadBlock(s, raw, i) == OwnBlock(s, raw, i)
    ensures i >= s.ns ==> ReadBlock(s, raw, i) == OwnBlock(s, raw, i)[s.dw := ReadBlock(s, raw, i)[s.dw]]
  {
    hide Slot, QuircSlot;
    forall k | 0 <= k < BlockLen(s, i) && !(i >= s.ns && k == s.dw)
      ensures ReadBlock(s, raw, i)[k] == OwnBlock(s, raw, i)[k]
    {
      SlotsCompared(s, i, k);
    }
  }

  lemma OwnOfInterleaved<T>(s: Layout, blocks: seq<seq<T>>, i: nat)
    requires Shaped(s, blocks, Count(s)) && i < Count(s)
    ensures OwnBlock(s, Interleave(s, blocks), i) == blocks[i]
  {
    hide Slot, Interleave;
    forall k | 0 <= k < BlockLen(s, i)
      ensures OwnBlock(s, Interleave(s, blocks), i)[k] == blocks[i][k]
    {
      InterleaveAt(s, blocks, i, k);
    }
  }

  // -------------------------------------------------------------------------------------
  // When taking apart is the exact inverse

  ghost predicate TakenApart<T>(s: Layout, blocks: seq<seq<T>>)
    requires s.npar >= 1
  {
    Shaped(s, blocks, Count(s)) ==> forall i :: 0 <= i < Count(s) ==> ReadBlock(s, Interleave(s, blocks), i) == blocks[i]
  }

  /** All bytes a, except the extra byte b of the first long block. */
  function OneByte<T>(s: Layout, a: T, b: T): seq<seq<T>> {
    seq(Count(s), i requires 0 <= i < Count(s) => seq(BlockLen(s, i), k => if i == s.ns && k == s.dw then b else a))
  }

  lemma OneByteMissed<T>(s: Layout, a: T, b: T)
    requires s.npar >= 1 && s.ns >= 1 && s.lb >= 1 && a != b
    ensures !TakenApart(s, OneByte(s, a, b))
  {
    var blocks := OneByte(s, a, b);
    assert Shaped(s, blocks, Count(s));
    var raw := Interleave(s, blocks);
    hide Interleave, OneByte;
    assert ReadBlock(s, raw, s.ns)[s.dw] == raw[QuircSlot(s, s.ns, s.dw)];
    // the place looked at belongs to another block
    var (i, k) := if s.ns < s.lb then (2 * s.ns, s.dw) else (s.ns - s.lb, s.dw);
    assert QuircSlot(s, s.ns, s.dw) == Slot(s, i, k);
    InterleaveAt(s, blocks, i, k);
  }

  /** Taking apart inverts interleaving for all blocks if and only if there are no long blocks. */
  lemma ExactWithoutLongBlocks<T(!new)>(s: Layout, a: T, b: T)
    requires s.npar >= 1 && s.ns >= 1 && a != b
    ensures (forall blocks: seq<seq<T>> :: TakenApart(s, blocks)) <==> s.lb == 0
  {
    if s.lb == 0 {
      forall blocks: seq<seq<T>>
        ensures TakenApart(s, blocks)
      {
        if Shaped(s, blocks, Count(s)) {
          forall i | 0 <= i < Count(s)
            ensures ReadBlock(s, Interleave(s, blocks), i) == blocks[i]
          {
            ReadIsOwn(s, Interleave(s, blocks), i);
            OwnOfInterleaved(s, blocks, i);
          }
        }
      }
    } else {
      OneByteMissed(s, a, b);
    }
  }

  // -------------------------------------------------------------------------------------
  // The data in the blocks

  function DataStart(s: Layout, n: nat): nat {
    if n == 0 then 0 else DataStart(s, n - 1) + DataLen(s, n - 1)
  }

  /** The data bytes of the first n blocks, one block after the other. */
  ghost function Payload<T>(s: Layout, blocks: seq<seq<T>>, n: nat): (d: seq<T>)
    requires n <= |blocks| && forall i :: 0 <= i < n ==> |blocks[i]| == BlockLen(s, i)
    ensures |d| == DataStart(s, n)
  {
    if n == 0 then []
    else
      assert |blocks[n - 1]| == BlockLen(s, n - 1);
      Payload(s, blocks, n - 1) + blocks[n - 1][..DataLen(s, n - 1)]
  }

  lemma {:induction false} PayloadPrefix<T>(s: Layout, blocks: seq<seq<T>>, b: seq<T>, n: nat)
    requires n <= |blocks| && forall i :: 0 <= i < n ==> |blocks[i]| == BlockLen(s, i)
    ensures Payload(s, blocks + [b], n) == Payload(s, blocks, n)
  {
    if n > 0 { PayloadPrefix(s, blocks, b, n - 1); }
  }

  lemma PayloadSnoc<T>(s: Layout, blocks: seq<seq<T>>, b: seq<T>)
    requires |blocks| < Count(s) && Shaped(s, blocks, |blocks|) && |b| == BlockLen(s, |blocks|)
    ensures Shaped(s, blocks + [b], |blocks| + 1)
    ensures Payload(s, blocks + [b], |blocks| + 1) == Payload(s, blocks, |blocks|) + b[..DataLen(s, |blocks|)]
  {
    PayloadPrefix(s, blocks, b, |blocks|);
  }

  lemma {:induction false} DataStartIs(s: Layout, n: nat)
    ensures DataStart(s, n) == Stride(n, s.dw) + if n <= s.ns then 0 else n - s.ns
  {
    if n > 0 { DataStartIs(s, n - 1); }
  }

  lemma {:induction false} DataStartGrows(s: Layout, m: nat, n: nat)
    requires m < n
    ensures DataStart(s, m) + DataLen(s, m) <= DataStart(s, n)
  {
    if m < n - 1 { DataStartGrows(s, m, n - 1); }
  }

  ghost predicate AllCodewords(s: Layout, blocks: seq<seq<bv8>>) {
    forall i :: 0 <= i < |blocks| ==> IsCodeword(Gf256(), blocks[i], s.npar)
  }

  // -------------------------------------------------------------------------------------
  // qrcodegen

  /** The block lengths of `addEccAndInterleave`. */
  function LayoutOf(numBlocks: nat, blockEccLen: nat, rawCodewords: nat): Layout
    requires numBlocks >= 1 && blockEccLen <= rawCodewords / numBlocks
  {
    Layout(rawCodewords / numBlocks - blockEccLen, blockEccLen, numBlocks - rawCodewords % numBlocks, rawCodewords % numBlocks)
  }

  /** The number of data codewords of a version and level. */
  function DataCodewords(numBlocks: nat, blockEccLen: nat, rawCodewords: nat): int {
    rawCodewords - blockEccLen * numBlocks
  }

  lemma Multiply(q: nat, e: nat, n: nat)
    requires e <= q
    ensures (q - e) * n == q * n - e * n
  {
  }

  /** The blocks hold exactly the data codewords. */
  lemma BlocksHoldCapacity(numBlocks: nat, blockEccLen: nat, rawCodewords: nat)
    requires numBlocks >= 1 && blockEccLen <= rawCodewords / numBlocks
    ensures DataStart(LayoutOf(numBlocks, blockEccLen, rawCodewords), numBlocks) == DataCodewords(numBlocks, blockEccLen, rawCodewords)
  {
    var s := LayoutOf(numBlocks, blockEccLen, rawCodewords);
    DataStartIs(s, numBlocks);
    StrideIsProduct(numBlocks, s.dw);
    Multiply(rawCodewords / numBlocks, blockEccLen, numBlocks);
    assert rawCodewords == rawCodewords / numBlocks * numBlocks + rawCodewords % numBlocks;
  }

  /** A block as the encoder stores it: short ones get a byte of padding before the parity. */
  function Padded(s: Layout, b: seq<bv8>, i: nat): (r: seq<bv8>)
    requires |b| == BlockLen(s, i)
    ensures |r| == s.dw + 1 + s.npar
  {
    if i < s.ns then b[..s.dw] + [0] + b[s.dw..] else b
  }

  ghost predicate AllPadded(s: Layout, blocks: seq<seq<bv8>>, padded: seq<seq<bv8>>) {
    |padded| == |blocks| && (forall i :: 0 <= i < |blocks| ==> |blocks[i]| == BlockLen(s, i))
    && forall i :: 0 <= i < |blocks| ==> padded[i] == Padded(s, blocks[i], i)
  }

  /** One row of the interleaving loop, without the padding bytes. */
  method AppendRow(s: Layout, padded: seq<seq<bv8>>, r: nat, start: seq<bv8>, ghost blocks: seq<seq<bv8>>) returns (result: seq<bv8>)
    requires Shaped(s, blocks, Count(s)) && AllPadded(s, blocks, padded) && r < s.dw + 1 + s.npar
    ensures result == start + RowOf(s, blocks, r)
  {
    result := start;
    ghost var row := RowOf(s, blocks, r);
    for j := 0 to Count(s)
      invariant result == start + row[..if r != s.dw then j else if j <= s.ns then 0 else j - s.ns]
    {
      PaddedByte(s, blocks, padded, r, j);
      if r != s.dw || j >= s.ns {
        result := result + [padded[j][r]];
      }
    }
    assert row[..|row|] == row;
  }

  lemma PaddedByte(s: Layout, blocks: seq<seq<bv8>>, padded: seq<seq<bv8>>, r: nat, j: nat)
    requires Shaped(s, blocks, Count(s)) && AllPadded(s, blocks, padded) && r < s.dw + 1 + s.npar && j < Count(s)
    ensures |padded[j]| == s.dw + 1 + s.npar
    ensures r != s.dw ==> padded[j][r] == RowOf(s, blocks, r)[j]
    ensures r == s.dw && j >= s.ns ==> padded[j][r] == RowOf(s, blocks, r)[j - s.ns]
  {
    assert padded[j] == Padded(s, blocks[j], j);
    var row := RowOf(s, blocks, r);
    if r < s.dw {
      assert row[j] == ByteOf(s, blocks, j, r);
    } else if r > s.dw {
      assert row[j] == ByteOf(s, blocks, j, DataLen(s, j) + (r - s.dw - 1));
    } else if j >= s.ns {
      assert row[j - s.ns] == ByteOf(s, blocks, s.ns + (j - s.ns), s.dw);
    }
  }

  /** The nested interleaving loops. */
  method InterleavePadded(s: Layout, padded: seq<seq<bv8>>, ghost blocks: seq<seq<bv8>>) returns (result: seq<bv8>)
    requires Count(s) >= 1 && Shaped(s, blocks, Count(s)) && AllPadded(s, blocks, padded)
    ensures result == Interleave(s, blocks)
  {
    result := [];
    assert padded[0] == Padded(s, blocks[0], 0);
    hide AllPadded, Padded, RowOf, RowStart;
    for i := 0 to |padded[0]|
      invariant result == Rows(s, blocks, i)
    {
      result := AppendRow(s, padded, i, result, blocks);
    }
  }

  /** One block with its parity, stored with the padding byte if it is a short one. */
  method MakeBlock(s: Layout, i: nat, data: seq<bv8>, rsDiv: seq<bv8>) returns (padded: seq<bv8>, ghost block: seq<bv8>)
    requires |data| == DataLen(s, i) && |rsDiv| == s.npar >= 1 && IsDivisor(Gf256(), rsDiv)
    ensures |block| == BlockLen(s, i) && block[..DataLen(s, i)] == data && IsCodeword(Gf256(), block, s.npar)
    ensures padded == Padded(s, block, i)
  {
    hide IsDivisor, AllDivided, IsCodeword, Gf256;
    var dat := data;
    var ecc, quotient := ComputeRemainder(dat, rsDiv);
    MultipleIsCodeword(dat, ecc, quotient, rsDiv);
    block := dat + ecc;
    if i < s.ns {
      dat := dat + [0];
    }
    padded := dat + ecc;
    assert block[..DataLen(s, i)] == data && block[DataLen(s, i)..] == ecc;
  }

  lemma LayoutCount(numBlocks: nat, blockEccLen: nat, rawCodewords: nat)
    requires numBlocks >= 1 && blockEccLen <= rawCodewords / numBlocks
    ensures var s := LayoutOf(numBlocks, blockEccLen, rawCodewords); Count(s) == numBlocks && s.ns >= 1 && s.npar == blockEccLen
  {
  }

  /** The first loop of `addEccAndInterleave`. */
  method SplitIntoBlocks(s: Layout, data: seq<bv8>) returns (padded: seq<seq<bv8>>, ghost blocks: seq<seq<bv8>>)
    requires 1 <= s.npar <= 255 && |data| == DataStart(s, Count(s))
    ensures Shaped(s, blocks, Count(s)) && AllPadded(s, blocks, padded) && AllCodewords(s, blocks)
    ensures Payload(s, blocks, Count(s)) == data
  {
    hide IsDivisor, IsCodeword, Gf256, Padded, DataStart;
    var rsDiv := ComputeDivisor(s.npar);
    padded, blocks := [], [];
    var k := 0;
    NoData(s);
    for i := 0 to Count(s)
      invariant |blocks| == i && k == DataStart(s, i) <= |data|
      invariant Shaped(s, blocks, i) && AllPadded(s, blocks, padded) && AllCodewords(s, blocks)
      invariant Payload(s, blocks, i) == data[..k]
    {
      NextData(s, i, Count(s));
      var dat := data[k..k + DataLen(s, i)];
      var stored, block := MakeBlock(s, i, dat, rsDiv.value);
      PayloadSnoc(s, blocks, block);
      assert data[..k + |dat|] == data[..k] + dat;
      k := k + |dat|;
      padded := padded + [stored];
      blocks := blocks + [block];
    }
    assert data[..k] == data;
  }

  lemma NoData(s: Layout)
    ensures DataStart(s, 0) == 0 && Payload<bv8>(s, [], 0) == []
  {
  }

  lemma NextData(s: Layout, i: nat, n: nat)
    requires i < n
    ensures DataStart(s, i + 1) == DataStart(s, i) + DataLen(s, i) <= DataStart(s, n)
  {
    DataStartGrows(s, i, n);
  }

  /** `addEccAndInterleave`. */
  method AddEccAndInterleave(data: seq<bv8>, numBlocks: nat, blockEccLen: nat, rawCodewords: nat)
    returns (r: Outcome<seq<bv8>>, ghost blocks: seq<seq<bv8>>)
    requires numBlocks >= 1 && 1 <= blockEccLen <= 255 && blockEccLen <= rawCodewords / numBlocks
    ensures r == InvalidArgument <==> |data| != DataCodewords(numBlocks, blockEccLen, rawCodewords)
    ensures r.Ok? || r == InvalidArgument
    ensures var s := LayoutOf(numBlocks, blockEccLen, rawCodewords);
      r.Ok? ==> Shaped(s, blocks, Count(s)) && AllCodewords(s, blocks) && Payload(s, blocks, Count(s)) == data
                && r.value == Interleave(s, blocks)
  {
    hide LayoutOf, AllCodewords, Interleave, AllPadded, DataCodewords, Shaped;
    blocks := [];
    if |data| != DataCodewords(numBlocks, blockEccLen, rawCodewords) {
      return InvalidArgument, blocks;
    }
    BlocksHoldCapacity(numBlocks, blockEccLen, rawCodewords);
    LayoutCount(numBlocks, blockEccLen, rawCodewords);
    var s := LayoutOf(numBlocks, blockEccLen, rawCodewords);
    var padded;
    padded, blocks := SplitIntoBlocks(s, data);
    var result := InterleavePadded(s, padded, blocks);
    return Ok(result), blocks;
  }
}
