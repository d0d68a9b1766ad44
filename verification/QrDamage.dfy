/** A symbol with flipped cells: how many of a block's bytes they can spoil. */
module QrDamage {
  import opened Limbs
  import opened BitPacking
  import opened Zigzag
  import opened SymbolWalk
  import opened Galois
  import opened Galois256Tables
  import opened RsDecoder
  import opened QrBlocks
  import opened QrCodestream

  // -------------------------------------------------------------------------------------
  // Bytes as field elements

  function ToElement(b: u8): (x: bv8)
    ensures x as int == b
  {
    if b == 0 then 0 else ToElement(b - 1) + 1
  }

  function FromElement(b: bv8): u8 {
    b as u8
  }

  lemma ElementAgain(b: bv8)
    ensures ToElement(FromElement(b)) == b
  {
    assert (b as int) as bv8 == b;
  }

  function ToElements(s: seq<u8>): (r: seq<bv8>)
    ensures |r| == |s| && forall i :: 0 <= i < |s| ==> r[i] == ToElement(s[i])
  {
    seq(|s|, i requires 0 <= i < |s| => ToElement(s[i]))
  }

  function FromElements(s: seq<bv8>): (r: seq<u8>)
    ensures |r| == |s| && forall i :: 0 <= i < |s| ==> r[i] == FromElement(s[i])
  {
    seq(|s|, i requires 0 <= i < |s| => FromElement(s[i]))
  }

  lemma BytesAgain(s: seq<u8>)
    ensures FromElements(ToElements(s)) == s
  {
    assert forall i :: 0 <= i < |s| ==> FromElements(ToElements(s))[i] == s[i];
  }

  lemma ElementsAgain(s: seq<bv8>)
    ensures ToElements(FromElements(s)) == s
  {
    hide FromElement, ToElement;
    forall i | 0 <= i < |s| ensures ToElements(FromElements(s))[i] == s[i] { ElementAgain(s[i]); }
  }

  // -------------------------------------------------------------------------------------
  // Bytes that were hit

  /** How many bytes of block i from byte k on lie in a slot that was hit. */
  ghost function Hits(s: Layout, i: nat, hit: nat -> bool, k: nat): nat
    requires i < Count(s) && k <= BlockLen(s, i)
    decreases BlockLen(s, i) - k
  {
    if k == BlockLen(s, i) then 0 else Hits(s, i, hit, k + 1) + if hit(Slot(s, i, k)) then 1 else 0
  }

  lemma {:induction false} HitsBound<T(!new)>(gf: GaloisField<T>, s: Layout, i: nat, hit: nat -> bool, code: seq<T>, recv: seq<T>, n: nat)
    requires i < Count(s) && n <= |code| == |recv| == BlockLen(s, i)
    requires forall k: nat :: k < |code| && !hit(Slot(s, i, k)) ==> code[k] == recv[k]
    ensures |DiffX(gf, code, recv, n)| <= Hits(s, i, hit, |code| - n)
  {
    hide Slot;
    if n > 0 { HitsBound(gf, s, i, hit, code, recv, n - 1); }
  }

  /** Every block has so few hit bytes that its code repairs them, and a misread byte besides if it
      is a long one. */
  ghost predicate Bearable(s: Layout, hit: nat -> bool) {
    forall i :: 0 <= i < Count(s) ==> 2 * (Hits(s, i, hit, 0) + if i < s.ns then 0 else 1) <= s.npar
  }

  lemma BearableIsRepairable(s: Layout, blocks: seq<seq<bv8>>, raw: seq<bv8>, hit: nat -> bool)
    requires Shaped(s, blocks, Count(s)) && |raw| >= Total(s) && Bearable(s, hit)
    requires forall t :: 0 <= t < Total(s) && !hit(t) ==> raw[t] == Interleave(s, blocks)[t]
    ensures AllRepairable(s, blocks, raw)
  {
    hide Interleave, Slot, Gf256, Total;
    forall i | 0 <= i < Count(s)
      ensures Repairable(s, blocks[i], raw, i)
    {
      var code, recv := blocks[i], OwnBlock(s, raw, i);
      forall k: nat | k < |code| && !hit(Slot(s, i, k))
        ensures code[k] == recv[k]
      {
        InterleaveAt(s, blocks, i, k);
      }
      HitsBound(Gf256(), s, i, hit, code, recv, |code|);
    }
  }

  lemma {:induction false} NoHits(s: Layout, i: nat, hit: nat -> bool, k: nat)
    requires i < Count(s) && k <= BlockLen(s, i) && forall t :: !hit(t)
    ensures Hits(s, i, hit, k) == 0
    decreases BlockLen(s, i) - k
  {
    if k < BlockLen(s, i) { NoHits(s, i, hit, k + 1); }
  }

  lemma UnhitIsBearable(s: Layout, hit: nat -> bool)
    requires s.npar >= 2 && forall t :: !hit(t)
    ensures Bearable(s, hit)
  {
    forall i | 0 <= i < Count(s)
      ensures Hits(s, i, hit, 0) == 0
    {
      NoHits(s, i, hit, 0);
    }
  }

  // -------------------------------------------------------------------------------------
  // Cells that were flipped

  /** A cell of byte t was flipped. */
  predicate HitBy(flip: Cell -> bool, cells: seq<Cell>, t: nat) {
    exists k :: 8 * t <= k < 8 * t + 8 && k < |cells| && flip(cells[k])
  }

  /** The cells hold the bits of the bytes, masked, but for the flipped ones. */
  ghost predicate Shows(g: Symbol, msk: int, cells: seq<Cell>, bytes: seq<u8>, flip: Cell -> bool) {
    8 * |bytes| <= |cells| && forall k: nat :: k < 8 * |bytes| ==>
      cells[k] in g && cells[k].x >= 0 && cells[k].y >= 0
      && (g[cells[k]] != MaskBit(msk, cells[k].y, cells[k].x)) == (DataBit(bytes, k) != flip(cells[k]))
  }

  lemma ShowsBits(g: Symbol, msk: int, cells: seq<Cell>, bytes: seq<u8>)
    requires 8 * |bytes| <= |cells| && forall c :: c in cells ==> c in g && c.x >= 0 && c.y >= 0
    requires forall k: nat :: k < 8 * |bytes| ==> ReadBits(g, msk, cells)[k] == DataBit(bytes, k)
    ensures Shows(g, msk, cells, bytes, c => false)
  {
    hide DataBit, MaskBit;
    var bits := ReadBits(g, msk, cells);
    forall k: nat | k < 8 * |bytes|
      ensures cells[k] in g && cells[k].x >= 0 && cells[k].y >= 0
      ensures (g[cells[k]] != MaskBit(msk, cells[k].y, cells[k].x)) == DataBit(bytes, k)
    {
      assert cells[k] in cells && bits[k] == DataBit(bytes, k);
    }
  }

  /** The encoder's symbol shows its codewords. */
  lemma DrawnShows(base: Symbol, g: Symbol, n: nat, bytes: seq<u8>, msk: int, reserved: Cell -> bool, drawn: nat)
    requires n % 4 == 1 && 0 <= msk <= 7 && base.Keys == Cells(n) && g.Keys == Cells(n) && Inside(Order(n), n)
    requires 8 * |bytes| <= |Free(Order(n), reserved)| && Drawn(g, base, bytes, reserved, Order(n), drawn)
    ensures Shows(Masked(g, msk, reserved), msk, Free(Order(n), reserved), bytes, c => false)
  {
    var cells := Free(Order(n), reserved);
    FreeIn(Order(n), reserved);
    WalkCells(n, n - 1, true);
    hide Free, Order, Masked, ReadBits, Shows, DataBit;
    forall k: nat | k < 8 * |bytes|
      ensures ReadBits(Masked(g, msk, reserved), msk, cells)[k] == DataBit(bytes, k)
    {
      DrawMaskRead(base, cells, bytes, msk, reserved, k);
    }
    ShowsBits(Masked(g, msk, reserved), msk, cells, bytes);
  }

  lemma FlipShows(g: Symbol, seen: Symbol, msk: int, cells: seq<Cell>, bytes: seq<u8>, flip: Cell -> bool)
    requires Shows(g, msk, cells, bytes, c => false) && seen.Keys == g.Keys && forall c :: c in g ==> seen[c] == (g[c] != flip(c))
    ensures Shows(seen, msk, cells, bytes, flip)
  {
  }

  /** What the decoder reads of a byte none of whose cells was flipped. */
  lemma UnhitByte(g: Symbol, n: nat, msk: int, reserved: Cell -> bool, bytes: seq<u8>, flip: Cell -> bool, raw: seq<u8>, data_bits: nat, t: nat)
    requires Inside(Order(n), n) && g.Keys == Cells(n) && Collected(g, msk, reserved, Order(n), raw, data_bits)
    requires Shows(g, msk, Free(Order(n), reserved), bytes, flip) && t < |bytes| <= |raw|
    requires !HitBy(flip, Free(Order(n), reserved), t)
    ensures raw[t] == bytes[t]
  {
    var cells := Free(Order(n), reserved);
    FreeIn(Order(n), reserved);
    var bits := ReadBits(g, msk, cells);
    hide Free, Order, ReadBits, Inside;
    PackDataByte(bits, bytes, t);
  }
}
