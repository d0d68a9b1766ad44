/** quirc takes a symbol's bytes apart into blocks, corrects each of them and joins their data. */
module QrCodestream {
  import opened ModArith
  import opened Galois
  import opened Galois256Tables
  import opened BerlekampMassey
  import opened RsDecoder
  import opened QrBlocks
  import opened Wrappers

  // -------------------------------------------------------------------------------------
  // Distances

  lemma {:induction false} NoDiffs<T(!new)>(gf: GaloisField<T>, code: seq<T>, n: nat)
    requires n <= |code|
    ensures DiffX(gf, code, code, n) == []
  {
    if n > 0 { NoDiffs(gf, code, n - 1); }
  }

  lemma {:induction false} OneMoreDiff<T(!new)>(gf: GaloisField<T>, code: seq<T>, recv: seq<T>, k: nat, x: T, n: nat)
    requires n <= |code| == |recv| && k < |recv|
    ensures |DiffX(gf, code, recv[k := x], n)| <= |DiffX(gf, code, recv, n)| + if n <= |code| - 1 - k then 0 else 1
  {
    if n > 0 { OneMoreDiff(gf, code, recv, k, x, n - 1); }
  }

  /** Changing one byte changes the distance by at most one. */
  lemma OneByteAway<T(!new)>(gf: GaloisField<T>, code: seq<T>, recv: seq<T>, k: nat, x: T)
    requires |code| == |recv| && k < |recv|
    ensures Distance(gf, code, recv[k := x]) <= Distance(gf, code, recv) + 1
  {
    OneMoreDiff(gf, code, recv, k, x, |code|);
  }

  /** The slots of a block hold so few errors that its code can repair them, and the byte misread in a
      long block besides. */
  ghost predicate Repairable(s: Layout, block: seq<bv8>, raw: seq<bv8>, i: nat)
    requires |raw| >= Total(s) && i < Count(s) && |block| == BlockLen(s, i)
  {
    2 * (Distance(Gf256(), block, OwnBlock(s, raw, i)) + if i < s.ns then 0 else 1) <= s.npar
  }

  lemma ReadClose(s: Layout, block: seq<bv8>, raw: seq<bv8>, i: nat)
    requires s.npar >= 1 && |raw| >= Total(s) && i < Count(s) && |block| == BlockLen(s, i) && Repairable(s, block, raw, i)
    ensures 2 * Distance(Gf256(), block, ReadBlock(s, raw, i)) <= s.npar
  {
    hide Distance, Gf256;
    ReadIsOwn(s, raw, i);
    if i >= s.ns {
      OneByteAway(Gf256(), block, OwnBlock(s, raw, i), s.dw, ReadBlock(s, raw, i)[s.dw]);
    }
  }

  // -------------------------------------------------------------------------------------
  // quirc

  /** The layout `codestream_ecc` derives from a version's row. */
  function QuircLayout(data_bytes: nat, bs: nat, dw: nat, ns: nat): Layout
    requires dw <= bs && bs * ns <= data_bytes
  {
    Layout(dw, bs - dw, ns, (data_bytes - bs * ns) / (bs + 1))
  }

  /** Gathering one block. */
  method ReadInto(s: Layout, raw: seq<bv8>, i: nat, bc: nat, ecc_offset: nat) returns (dst: array<bv8>)
    requires s.npar >= 1 && |raw| >= Total(s) && i < bc == Count(s) && ecc_offset == Stride(s.dw, bc) + s.lb
    ensures fresh(dst) && dst[..] == ReadBlock(s, raw, i)
  {
    hide QuircSlot, Total;
    var dw := if i < s.ns then s.dw else s.dw + 1;
    var num_ec := s.npar;
    dst := new bv8[dw + num_ec];
    for j := 0 to dw
      invariant forall k :: 0 <= k < j ==> dst[k] == ReadBlock(s, raw, i)[k]
    {
      DataPlace(s, i, j);
      QuircSlotFits(s, i, j);
      dst[j] := raw[j * bc + i];
    }
    for j := 0 to num_ec
      invariant forall k :: 0 <= k < dw + j ==> dst[k] == ReadBlock(s, raw, i)[k]
    {
      ParityPlace(s, i, j);
      QuircSlotFits(s, i, dw + j);
      dst[dw + j] := raw[ecc_offset + j * bc + i];
    }
  }

  lemma DataPlace(s: Layout, i: nat, j: nat)
    requires j < DataLen(s, i)
    ensures j * Count(s) >= 0 && j * Count(s) + i == QuircSlot(s, i, j)
  {
    StrideIsProduct(j, Count(s));
  }

  lemma ParityPlace(s: Layout, i: nat, j: nat)
    requires j < s.npar
    ensures j * Count(s) >= 0 && Stride(s.dw, Count(s)) + s.lb + j * Count(s) + i == QuircSlot(s, i, DataLen(s, i) + j)
  {
    StrideIsProduct(j, Count(s));
  }

  /** A codeword no further from what is read for block i than half the parity. */
  ghost predicate Near(s: Layout, raw: seq<bv8>, i: nat, code: seq<bv8>)
    requires s.npar >= 1 && |raw| >= Total(s) && i < Count(s)
  {
    |code| == BlockLen(s, i) && IsCodeword(Gf256(), code, s.npar) && 2 * Distance(Gf256(), code, ReadBlock(s, raw, i)) <= s.npar
  }

  lemma {:induction false} Triangle<T(!new)>(gf: GaloisField<T>, a: seq<T>, b: seq<T>, recv: seq<T>, n: nat)
    requires n <= |a| == |b| == |recv|
    ensures |DiffX(gf, a, b, n)| <= |DiffX(gf, a, recv, n)| + |DiffX(gf, b, recv, n)|
  {
    if n > 0 { Triangle(gf, a, b, recv, n - 1); }
  }

  /** There is at most one. */
  lemma OneNear(s: Layout, raw: seq<bv8>, i: nat, a: seq<bv8>, b: seq<bv8>)
    requires 1 <= s.npar < MAX_POLY && s.dw + 1 + s.npar <= 255 && |raw| >= Total(s) && i < Count(s)
    requires Near(s, raw, i, a) && Near(s, raw, i, b)
    ensures a == b
  {
    hide IsCodeword, DiffX, IsField;
    Gf256IsField();
    FieldSize();
    Triangle(Gf256(), a, b, ReadBlock(s, raw, i), |a|);
    CodewordsApart(Gf256(), a, b, s.npar);
  }

  lemma FieldSize()
    ensures Gf256().p == 255
  {
  }

  /** One turn of the loop: the block's nearest codeword, if there is one near enough. */
  method CorrectOne(s: Layout, raw: seq<bv8>, i: nat, bc: nat, ecc_offset: nat) returns (ok: bool, dst: array<bv8>)
    requires 1 <= s.npar < MAX_POLY && s.dw + 1 + s.npar <= 255 && |raw| >= Total(s)
    requires i < bc == Count(s) && ecc_offset == Stride(s.dw, bc) + s.lb
    ensures fresh(dst) && dst.Length == BlockLen(s, i) && ok == IsCodeword(Gf256(), dst[..], s.npar)
    ensures forall code :: Near(s, raw, i, code) ==> ok && dst[..] == code
  {
    hide IsCodeword, Distance, Gf256, IsField, ReadBlock, Total;
    dst := ReadInto(s, raw, i, bc, ecc_offset);
    ghost var code := [];
    if c :| Near(s, raw, i, c) {
      code := c;
    }
    Gf256IsField();
    FieldSize();
    ok := CorrectBlock(Gf256(), dst, s.npar, code);
    forall c | Near(s, raw, i, c)
      ensures ok && dst[..] == c
    {
      OneNear(s, raw, i, c, code);
    }
  }

  /** The bytes of dst, put into data from the offset on. */
  method Store(data: array<bv8>, dst_offset: nat, dst: array<bv8>)
    requires dst != data && dst_offset + dst.Length <= data.Length
    modifies data
    ensures data[..dst_offset] == old(data[..dst_offset]) && data[dst_offset..dst_offset + dst.Length] == dst[..]
  {
    for j := 0 to dst.Length
      invariant data[..dst_offset] == old(data[..dst_offset])
      invariant forall k :: 0 <= k < j ==> data[dst_offset + k] == dst[k]
    {
      data[dst_offset + j] := dst[j];
    }
  }

  ghost predicate HasNear(s: Layout, raw: seq<bv8>, i: nat)
    requires s.npar >= 1 && |raw| >= Total(s) && i < Count(s)
  {
    exists code :: Near(s, raw, i, code)
  }

  /** The blocks are codewords, and are the near ones wherever there are such. */
  ghost predicate Nearest(s: Layout, raw: seq<bv8>, blocks: seq<seq<bv8>>)
    requires s.npar >= 1 && |raw| >= Total(s) && |blocks| <= Count(s)
  {
    AllCodewords(s, blocks) && forall i, code :: 0 <= i < |blocks| && Near(s, raw, i, code) ==> blocks[i] == code
  }

  /** The first i blocks are corrected and their data lies in front of the offset. */
  ghost predicate Joined(s: Layout, raw: seq<bv8>, i: nat, dst_offset: nat, blocks: seq<seq<bv8>>, data: seq<bv8>)
    requires s.npar >= 1 && |raw| >= Total(s)
  {
    && dst_offset == DataStart(s, i) <= |data| && Shaped(s, blocks, i) && Nearest(s, raw, blocks)
    && data[..dst_offset] == Payload(s, blocks, i)
  }

  lemma JoinNext(s: Layout, raw: seq<bv8>, i: nat, dst_offset: nat, blocks: seq<seq<bv8>>, before: seq<bv8>, dst: seq<bv8>, after: seq<bv8>)
    requires s.npar >= 1 && |raw| >= Total(s) && i < Count(s) && Joined(s, raw, i, dst_offset, blocks, before)
    requires |dst| == BlockLen(s, i) && IsCodeword(Gf256(), dst, s.npar) && forall code :: Near(s, raw, i, code) ==> dst == code
    requires |after| >= dst_offset + |dst| && after[..dst_offset] == before[..dst_offset] && after[dst_offset..dst_offset + |dst|] == dst
    ensures Joined(s, raw, i + 1, dst_offset + DataLen(s, i), blocks + [dst], after)
  {
    hide IsCodeword, Gf256, ReadBlock, Total, Near, Payload;
    PayloadSnoc(s, blocks, dst);
    var n := DataLen(s, i);
    assert dst[..n] == after[dst_offset..dst_offset + n];
    assert after[..dst_offset + n] == after[..dst_offset] + dst[..n];
  }

  /** `codestream_ecc`: it fails only if some block has no codeword near it; otherwise data holds the
      payload of corrected blocks, which are the near codewords wherever there are such. */
  method CodestreamEcc(raw: seq<bv8>, data_bytes: nat, bs: nat, dw: nat, ns: nat, data: array<bv8>)
    returns (ok: bool, data_bits: nat, ghost blocks: seq<seq<bv8>>)
    requires dw < bs < 255 && bs - dw < MAX_POLY && bs * ns <= data_bytes
    requires var s := QuircLayout(data_bytes, bs, dw, ns);
      |raw| >= Total(s) && DataStart(s, Count(s)) + s.npar <= data.Length
    modifies data
    ensures var s := QuircLayout(data_bytes, bs, dw, ns);
      && (ok ==> Joined(s, raw, Count(s), data_bits / 8, blocks, data[..]) && data_bits % 8 == 0)
      && (!ok ==> exists i: nat :: i < Count(s) && !HasNear(s, raw, i))
  {
    hide IsCodeword, Gf256, Total, DataStart, Joined, Near;
    ghost var s := QuircLayout(data_bytes, bs, dw, ns);
    var lb_count := (data_bytes - bs * ns) / (bs + 1);
    var bc := lb_count + ns;
    StrideIsProduct(dw, bc);
    var ecc_offset := dw * bc + lb_count;
    var dst_offset := 0;
    data_bits, blocks := 0, [];
    NoneJoined(s, raw, data[..]);
    for i := 0 to bc
      invariant dst_offset == DataStart(s, i) && Joined(s, raw, i, dst_offset, blocks, data[..])
    {
      NextData(s, i, bc);
      var dst;
      ok, dst := CorrectOne(Layout(dw, bs - dw, ns, lb_count), raw, i, bc, ecc_offset);
      if !ok {
        assert !HasNear(s, raw, i);
        return;
      }
      ghost var before := data[..];
      Store(data, dst_offset, dst);
      JoinNext(s, raw, i, dst_offset, blocks, before, dst[..], data[..]);
      blocks := blocks + [dst[..]];
      dst_offset := dst_offset + if i < ns then dw else dw + 1;
    }
    ok := true;
    data_bits := dst_offset * 8;
  }

  lemma NoneJoined(s: Layout, raw: seq<bv8>, data: seq<bv8>)
    requires s.npar >= 1 && |raw| >= Total(s)
    ensures DataStart(s, 0) == 0 && Joined(s, raw, 0, 0, [], data)
  {
    NoData(s);
    assert data[..0] == [];
  }

  // -------------------------------------------------------------------------------------
  // Encoder and decoder together

  /** What is left of n blocks of q + 1 or q bytes without the short ones. */
  lemma LongBytes(q: nat, n: nat, lb: nat)
    requires lb < n
    ensures q * (n - lb) <= q * n + lb && q * n + lb - q * (n - lb) == (q + 1) * lb
  {
    MulMono(n - lb, n, q);
  }

  lemma QuotientFits(raw: nat, n: nat)
    requires n >= 1
    ensures var q, lb := raw / n, raw % n; q * (n - lb) <= raw && (raw - q * (n - lb)) / (q + 1) == lb && raw == q * n + lb
  {
    var q, lb := raw / n, raw % n;
    LongBytes(q, n, lb);
    DivModUnique((q + 1) * lb, q + 1, lb, 0);
  }

  /** The block lengths quirc derives from its tables are the encoder's, if the tables are right. */
  lemma SameLayout(numBlocks: nat, blockEccLen: nat, rawCodewords: nat)
    requires numBlocks >= 1 && blockEccLen <= rawCodewords / numBlocks
    ensures var bs, ns := rawCodewords / numBlocks, numBlocks - rawCodewords % numBlocks;
      bs * ns <= rawCodewords && QuircLayout(rawCodewords, bs, bs - blockEccLen, ns) == LayoutOf(numBlocks, blockEccLen, rawCodewords)
  {
    QuotientFits(rawCodewords, numBlocks);
  }

  /** All slots together are the whole sequence. */
  lemma TotalIsRaw(numBlocks: nat, blockEccLen: nat, rawCodewords: nat)
    requires numBlocks >= 1 && blockEccLen <= rawCodewords / numBlocks
    ensures Total(LayoutOf(numBlocks, blockEccLen, rawCodewords)) == rawCodewords
  {
    var s := LayoutOf(numBlocks, blockEccLen, rawCodewords);
    StrideIsProduct(s.dw, numBlocks);
    StrideIsProduct(s.npar, numBlocks);
    QuotientFits(rawCodewords, numBlocks);
    Rejoin(s.dw, s.npar, numBlocks);
  }

  lemma Rejoin(a: nat, b: nat, n: nat)
    ensures a * n + b * n == (a + b) * n
  {
  }

  ghost predicate AllRepairable(s: Layout, blocks: seq<seq<bv8>>, raw: seq<bv8>)
    requires |raw| >= Total(s) && Shaped(s, blocks, Count(s))
  {
    forall i :: 0 <= i < Count(s) ==> Repairable(s, blocks[i], raw, i)
  }

  /** Repairable codewords are the ones the decoder finds. */
  lemma Restored(s: Layout, blocks: seq<seq<bv8>>, raw: seq<bv8>, i: nat)
    requires s.npar >= 1 && |raw| >= Total(s) && Shaped(s, blocks, Count(s)) && AllCodewords(s, blocks)
    requires AllRepairable(s, blocks, raw) && i < Count(s)
    ensures Near(s, raw, i, blocks[i]) && HasNear(s, raw, i)
  {
    hide IsCodeword, Distance, Gf256, ReadBlock, OwnBlock, Repairable;
    ReadClose(s, blocks[i], raw, i);
  }

  /** Then the data is what the encoder was given. */
  lemma SamePayload(s: Layout, blocks: seq<seq<bv8>>, raw: seq<bv8>, dst_offset: nat, fixed: seq<seq<bv8>>, data: seq<bv8>)
    requires s.npar >= 1 && |raw| >= Total(s) && Shaped(s, blocks, Count(s)) && AllCodewords(s, blocks)
    requires AllRepairable(s, blocks, raw) && Joined(s, raw, Count(s), dst_offset, fixed, data)
    ensures dst_offset == DataStart(s, Count(s)) <= |data| && data[..dst_offset] == Payload(s, blocks, Count(s))
  {
    hide IsCodeword, Gf256, Total, DataStart, Near, AllRepairable, Payload;
    forall i | 0 <= i < Count(s)
      ensures fixed[i] == blocks[i]
    {
      Restored(s, blocks, raw, i);
    }
    assert fixed == blocks;
  }

  /** An undamaged sequence is repairable: of its long blocks only the misread byte is wrong. */
  lemma CleanIsRepairable(s: Layout, blocks: seq<seq<bv8>>)
    requires Shaped(s, blocks, Count(s)) && (s.lb == 0 || s.npar >= 2)
    ensures AllRepairable(s, blocks, Interleave(s, blocks))
  {
    hide Interleave, OwnBlock, Gf256;
    forall i | 0 <= i < Count(s)
      ensures Repairable(s, blocks[i], Interleave(s, blocks), i)
    {
      OwnOfInterleaved(s, blocks, i);
      NoDiffs(Gf256(), blocks[i], |blocks[i]|);
    }
  }
}
