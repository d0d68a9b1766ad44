/** The order in which the data bits lie in a QR symbol, walked by qrcodegen with a pair of
    nested loops and by quirc with a turning cursor; and the masks. */
module Zigzag {
  import opened Limbs
  import opened BitPacking

  datatype Cell = Cell(x: int, y: int)

  /** A column pair's index, moved past the vertical timing pattern. */
  function Past(right: int): int {
    if right == 6 then 5 else right
  }

  function Row(n: nat, up: bool, v: int): int {
    if up then n - 1 - v else v
  }

  /** The first v rows of a column pair. */
  function Column(n: nat, right: int, up: bool, v: nat): seq<Cell> {
    if v == 0 then []
    else Column(n, right, up, v - 1) + [Cell(right, Row(n, up, v - 1)), Cell(right - 1, Row(n, up, v - 1))]
  }

  /** The walk from a column pair on, alternating upwards and downwards. */
  function Walk(n: nat, right: int, up: bool): seq<Cell>
    decreases right
  {
    if right < 1 then []
    else Column(n, Past(right), up, n) + Walk(n, Past(right) - 2, !up)
  }

  /** The whole walk over a symbol of n by n cells. */
  function Order(n: nat): seq<Cell> {
    Walk(n, n - 1, true)
  }

  ghost predicate NoRepeat(s: seq<Cell>) {
    forall i, j :: 0 <= i < j < |s| ==> s[i] != s[j]
  }

  lemma {:induction false} ColumnCells(n: nat, right: int, up: bool, v: nat)
    requires v <= n
    ensures |Column(n, right, up, v)| == 2 * v && NoRepeat(Column(n, right, up, v))
    ensures forall c :: c in Column(n, right, up, v) <==>
      (c.x == right || c.x == right - 1) && (if up then n - v <= c.y < n else 0 <= c.y < v)
  {
    if v > 0 { ColumnCells(n, right, up, v - 1); }
  }

  /** The columns a walk from a column pair on meets. */
  predicate Met(right: int, x: int)
    decreases right
  {
    right >= 1 && (x == Past(right) || x == Past(right) - 1 || Met(Past(right) - 2, x))
  }

  lemma {:induction false} MetBelow(right: int, x: int)
    requires Met(right, x)
    ensures 0 <= x <= right
    decreases right
  {
    if x != Past(right) && x != Past(right) - 1 { MetBelow(Past(right) - 2, x); }
  }

  lemma {:induction false} WalkCells(n: nat, right: int, up: bool)
    requires right < n
    ensures NoRepeat(Walk(n, right, up))
    ensures forall c :: c in Walk(n, right, up) <==> Met(right, c.x) && 0 <= c.y < n
    decreases right
  {
    if right >= 1 {
      var r := Past(right);
      ColumnCells(n, r, up, n);
      WalkCells(n, r - 2, !up);
      forall c | c in Walk(n, r - 2, !up)
        ensures c !in Column(n, r, up, n)
      {
        MetBelow(r - 2, c.x);
      }
    }
  }

  /** With an even number of columns to the left of the pair only column 6 is left out. */
  lemma {:induction false} MetColumns(right: int, x: int)
    requires (right >= 6 && right % 2 == 0) || (-1 <= right < 6 && right % 2 == 1)
    ensures Met(right, x) <==> 0 <= x <= right && (right >= 6 ==> x != 6)
    decreases right
  {
    if right >= 1 { MetColumns(Past(right) - 2, x); }
  }

  /** Every cell of a symbol outside column 6 is walked over exactly once. */
  lemma EachCellOnce(n: nat)
    requires n % 4 == 1 && n >= 9
    ensures NoRepeat(Order(n))
    ensures forall c :: c in Order(n) <==> 0 <= c.x < n && 0 <= c.y < n && c.x != 6
  {
    WalkCells(n, n - 1, true);
    forall c: Cell
      ensures Met(n - 1, c.x) <==> 0 <= c.x < n && c.x != 6
    {
      MetColumns(n - 1, c.x);
    }
  }

  // -------------------------------------------------------------------------------------
  // The cells that hold data

  /** The cells of a walk that are not reserved for function patterns. */
  function Free(s: seq<Cell>, reserved: Cell -> bool): (r: seq<Cell>)
    ensures |r| <= |s|
  {
    if s == [] then []
    else
      var c := s[|s| - 1];
      if reserved(c) then Free(s[..|s| - 1], reserved) else Free(s[..|s| - 1], reserved) + [c]
  }

  lemma FreeSnoc(s: seq<Cell>, c: Cell, reserved: Cell -> bool)
    ensures Free(s + [c], reserved) == if reserved(c) then Free(s, reserved) else Free(s, reserved) + [c]
  {
    assert (s + [c])[..|s|] == s;
  }

  lemma {:induction false} FreeIn(s: seq<Cell>, reserved: Cell -> bool)
    ensures forall c :: c in Free(s, reserved) <==> c in s && !reserved(c)
    ensures NoRepeat(s) ==> NoRepeat(Free(s, reserved))
  {
    if s != [] {
      var t, c := s[..|s| - 1], s[|s| - 1];
      FreeIn(t, reserved);
      assert s == t + [c];
      if NoRepeat(s) {
        assert NoRepeat(t);
        assert c !in t;
      }
    }
  }

  // -------------------------------------------------------------------------------------
  // Masks

  /** The condition of `applyMask`. */
  predicate Invert(msk: int, x: nat, y: nat) {
    match msk
    case 0 => (x + y) % 2 == 0
    case 1 => y % 2 == 0
    case 2 => x % 3 == 0
    case 3 => (x + y) % 3 == 0
    case 4 => (x / 3 + y / 2) % 2 == 0
    case 5 => x * y % 2 + x * y % 3 == 0
    case 6 => (x * y % 2 + x * y % 3) % 2 == 0
    case _ => ((x + y) % 2 + x * y % 3) % 2 == 0
  }

  /** `mask_bit`, with row i and column j. */
  predicate MaskBit(mask: int, i: nat, j: nat) {
    match mask
    case 0 => (i + j) % 2 == 0
    case 1 => i % 2 == 0
    case 2 => j % 3 == 0
    case 3 => (i + j) % 3 == 0
    case 4 => (i / 2 + j / 3) % 2 == 0
    case 5 => (i * j) % 2 + (i * j) % 3 == 0
    case 6 => ((i * j) % 2 + (i * j) % 3) % 2 == 0
    case 7 => ((i * j) % 3 + (i + j) % 2) % 2 == 0
    case _ => false
  }

  /** The two libraries mask the same cells. */
  lemma SameMask(mask: int, x: nat, y: nat)
    requires 0 <= mask <= 7
    ensures Invert(mask, x, y) == MaskBit(mask, y, x)
  {
    assert x * y == y * x;
  }

  // -------------------------------------------------------------------------------------
  // Symbols as values

  type Symbol = map<Cell, bool>

  ghost function Cells(n: nat): (r: set<Cell>)
    ensures forall c :: c in r <==> 0 <= c.x < n && 0 <= c.y < n
  {
    set x, y | 0 <= x < n && 0 <= y < n :: Cell(x, y)
  }

  ghost predicate Square(modules: array2<bool>, n: nat) {
    modules.Length0 == n && modules.Length1 == n
  }

  ghost function Grid(modules: array2<bool>, n: nat): (g: Symbol)
    requires Square(modules, n)
    reads modules
    ensures forall c :: c in g <==> 0 <= c.x < n && 0 <= c.y < n
    ensures forall c :: c in g ==> g[c] == modules[c.y, c.x]
  {
    map c | c in Cells(n) :: modules[c.y, c.x]
  }

  /** The symbol with the data written into the given cells, as far as the data goes. */
  ghost function Written(base: Symbol, cells: seq<Cell>, data: seq<u8>): Symbol {
    if cells == [] then base
    else
      var k := |cells| - 1;
      var before := Written(base, cells[..k], data);
      if k < 8 * |data| then before[cells[k] := DataBit(data, k)] else before
  }

  /** `applyMask`: every cell that is not reserved is inverted where the mask says so. */
  ghost function Masked(g: Symbol, msk: int, reserved: Cell -> bool): (r: Symbol)
    requires forall c :: c in g ==> c.x >= 0 && c.y >= 0
    ensures r.Keys == g.Keys
    ensures forall c :: c in g ==> r[c] == (g[c] != (Invert(msk, c.x, c.y) && !reserved(c)))
  {
    map c | c in g :: g[c] != (Invert(msk, c.x, c.y) && !reserved(c))
  }

  lemma MaskTwice(g: Symbol, msk: int, reserved: Cell -> bool)
    requires forall c :: c in g ==> c.x >= 0 && c.y >= 0
    ensures Masked(Masked(g, msk, reserved), msk, reserved) == g
  {
  }

  /** What `read_bit` sees in the given cells. */
  ghost function ReadBits(g: Symbol, mask: int, cells: seq<Cell>): (r: seq<bool>)
    requires forall c :: c in cells ==> c in g && c.x >= 0 && c.y >= 0
    ensures |r| == |cells| && forall k :: 0 <= k < |cells| ==> r[k] == (g[cells[k]] != MaskBit(mask, cells[k].y, cells[k].x))
  {
    seq(|cells|, k requires 0 <= k < |cells| => g[cells[k]] != MaskBit(mask, cells[k].y, cells[k].x))
  }

  lemma {:induction false} WrittenAt(base: Symbol, cells: seq<Cell>, data: seq<u8>, k: nat)
    requires NoRepeat(cells) && k < |cells| && k < 8 * |data|
    ensures cells[k] in Written(base, cells, data) && Written(base, cells, data)[cells[k]] == DataBit(data, k)
  {
    var n := |cells| - 1;
    if k < n {
      assert NoRepeat(cells[..n]) && cells[..n][k] == cells[k];
      WrittenAt(base, cells[..n], data, k);
    }
  }

  lemma {:induction false} WrittenKeys(base: Symbol, cells: seq<Cell>, data: seq<u8>)
    requires forall c :: c in cells ==> c in base
    ensures Written(base, cells, data).Keys == base.Keys
  {
    if cells != [] {
      var n := |cells| - 1;
      assert cells[n] in cells;
      WrittenKeys(base, cells[..n], data);
    }
  }

  /** Drawing, masking, and reading with the same mask gives the data's bits in order. */
  lemma DrawMaskRead(base: Symbol, cells: seq<Cell>, data: seq<u8>, msk: int, reserved: Cell -> bool, k: nat)
    requires NoRepeat(cells) && k < |cells| && k < 8 * |data| && 0 <= msk <= 7
    requires forall c :: c in cells ==> c in base && !reserved(c)
    requires forall c :: c in base ==> c.x >= 0 && c.y >= 0
    ensures var drawn := Written(base, cells, data);
      drawn.Keys == base.Keys && ReadBits(Masked(drawn, msk, reserved), msk, cells)[k] == DataBit(data, k)
  {
    WrittenKeys(base, cells, data);
    WrittenAt(base, cells, data, k);
    assert cells[k] in cells;
    SameMask(msk, cells[k].x, cells[k].y);
  }
}
