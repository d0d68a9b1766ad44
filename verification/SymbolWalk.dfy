/** The loops of both libraries over the data cells of a symbol, for any placement of the
    reserved cells: they follow the same order, and what one draws the other reads back. */
module SymbolWalk {
  import opened Limbs
  import opened BitPacking
  import opened Zigzag
  import opened Wrappers

  // -------------------------------------------------------------------------------------
  // qrcodegen: drawing

  /** The cells walked so far hold the first i bits of the data. */
  ghost predicate Drawn(g: Symbol, base: Symbol, data: seq<u8>, reserved: Cell -> bool, done: seq<Cell>, i: nat) {
    var free := Free(done, reserved);
    g == Written(base, free, data) && i == if |free| < 8 * |data| then |free| else 8 * |data|
  }

  ghost predicate Marks(isFunction: array2<bool>, n: nat, reserved: Cell -> bool)
    requires Square(isFunction, n)
    reads isFunction
  {
    forall c: Cell :: 0 <= c.x < n && 0 <= c.y < n ==> isFunction[c.y, c.x] == reserved(c)
  }

  method DrawCell(modules: array2<bool>, isFunction: array2<bool>, n: nat, data: seq<u8>, i: nat, x: int, y: int,
                  ghost base: Symbol, ghost reserved: Cell -> bool, ghost done: seq<Cell>)
    returns (i': nat)
    requires Square(modules, n) && Square(isFunction, n) && modules != isFunction && 0 <= x < n && 0 <= y < n
    requires Marks(isFunction, n, reserved) && Drawn(Grid(modules, n), base, data, reserved, done, i)
    modifies modules
    ensures Drawn(Grid(modules, n), base, data, reserved, done + [Cell(x, y)], i')
  {
    i' := i;
    ghost var c := Cell(x, y);
    ghost var free := Free(done, reserved);
    FreeSnoc(done, c, reserved);
    assert isFunction[c.y, c.x] == reserved(c);
    assert (free + [c])[..|free|] == free;
    if !isFunction[y, x] && i < 8 * |data| {
      modules[y, x] := DataBit(data, i);
      i' := i + 1;
    }
  }

  /** The two cells of a row. */
  method DrawRow(modules: array2<bool>, isFunction: array2<bool>, n: nat, data: seq<u8>, i: nat, right: int, y: int,
                 ghost base: Symbol, ghost reserved: Cell -> bool, ghost done: seq<Cell>)
    returns (i': nat)
    requires Square(modules, n) && Square(isFunction, n) && modules != isFunction && 1 <= right < n && 0 <= y < n
    requires Marks(isFunction, n, reserved) && Drawn(Grid(modules, n), base, data, reserved, done, i)
    modifies modules
    ensures Drawn(Grid(modules, n), base, data, reserved, done + [Cell(right, y), Cell(right - 1, y)], i')
  {
    hide Drawn, Marks;
    i' := i;
    ghost var walked := done;
    for j := 0 to 2
      invariant Drawn(Grid(modules, n), base, data, reserved, walked, i') && Marks(isFunction, n, reserved)
      invariant walked == done + (if j == 0 then [] else if j == 1 then [Cell(right, y)] else [Cell(right, y), Cell(right - 1, y)])
    {
      var x := right - j;
      i' := DrawCell(modules, isFunction, n, data, i', x, y, base, reserved, walked);
      walked := walked + [Cell(x, y)];
    }
  }

  /** One column pair. */
  method DrawColumn(modules: array2<bool>, isFunction: array2<bool>, n: nat, data: seq<u8>, i: nat, right: int, upward: bool,
                    ghost base: Symbol, ghost reserved: Cell -> bool, ghost done: seq<Cell>)
    returns (i': nat)
    requires Square(modules, n) && Square(isFunction, n) && modules != isFunction && 1 <= right < n
    requires Marks(isFunction, n, reserved) && Drawn(Grid(modules, n), base, data, reserved, done, i)
    modifies modules
    ensures Drawn(Grid(modules, n), base, data, reserved, done + Column(n, right, upward, n), i')
  {
    hide Drawn, Marks, Column, Grid;
    i' := i;
    ghost var walked := done;
    ColumnStart(n, right, upward, done);
    for vert := 0 to n
      invariant Drawn(Grid(modules, n), base, data, reserved, walked, i') && Marks(isFunction, n, reserved)
      invariant walked == done + Column(n, right, upward, vert)
    {
      var y := if upward then n - 1 - vert else vert;
      i' := DrawRow(modules, isFunction, n, data, i', right, y, base, reserved, walked);
      ColumnStep(n, right, upward, vert, done);
      walked := walked + [Cell(right, y), Cell(right - 1, y)];
    }
  }

  /** `drawCodewords`. */
  method DrawCodewords(modules: array2<bool>, isFunction: array2<bool>, n: nat, data: seq<u8>, ghost reserved: Cell -> bool)
    returns (i: nat)
    requires Square(modules, n) && Square(isFunction, n) && modules != isFunction && n % 4 == 1
    requires Marks(isFunction, n, reserved)
    modifies modules
    ensures Drawn(Grid(modules, n), old(Grid(modules, n)), data, reserved, Order(n), i)
  {
    hide Drawn, Marks, Walk, Column, Grid, Upward;
    ghost var base := Grid(modules, n);
    ghost var done: seq<Cell> := [];
    i := 0;
    NothingDrawn(base, data, reserved);
    var right: int := n - 1;
    WalkStart(n);
    while right >= 1
      invariant -1 <= right <= n - 1
      invariant Drawn(Grid(modules, n), base, data, reserved, done, i) && Marks(isFunction, n, reserved)
      invariant done + Walk(n, right, Upward(right)) == Order(n)
      decreases right
    {
      WalkStep(n, right, done);
      if right == 6 {
        right := 5;
      }
      var upward := Upward(right);
      i := DrawColumn(modules, isFunction, n, data, i, right, upward, base, reserved, done);
      done := done + Column(n, right, upward, n);
      right := right - 2;
    }
    WalkEnd(n, right, done);
  }

  lemma ColumnStart(n: nat, right: int, up: bool, done: seq<Cell>)
    ensures done + Column(n, right, up, 0) == done
  {
  }

  lemma ColumnStep(n: nat, right: int, up: bool, v: nat, done: seq<Cell>)
    ensures var y := Row(n, up, v);
      done + Column(n, right, up, v + 1) == (done + Column(n, right, up, v)) + [Cell(right, y), Cell(right - 1, y)]
  {
  }

  lemma WalkStart(n: nat)
    requires n % 4 == 1
    ensures [] + Walk(n, n - 1, Upward(n - 1)) == Order(n)
  {
  }

  lemma WalkEnd(n: nat, right: int, done: seq<Cell>)
    requires right < 1
    ensures done + Walk(n, right, Upward(right)) == done
  {
  }

  /** `((right + 1) & 2) == 0`. */
  predicate Upward(right: int) {
    (right + 1) / 2 % 2 == 0
  }

  lemma WalkStep(n: nat, right: int, done: seq<Cell>)
    requires right >= 1
    ensures var r := Past(right);
      Upward(right) == Upward(r) && Upward(r - 2) == !Upward(r)
      && done + Walk(n, right, Upward(right)) == (done + Column(n, r, Upward(r), n)) + Walk(n, r - 2, Upward(r - 2))
  {
  }

  lemma NothingDrawn(base: Symbol, data: seq<u8>, reserved: Cell -> bool)
    ensures Drawn(base, base, data, reserved, [], 0)
  {
  }

  /** `applyMask`. */
  method ApplyMask(modules: array2<bool>, isFunction: array2<bool>, n: nat, msk: int, ghost reserved: Cell -> bool)
    returns (r: Outcome<()>)
    requires Square(modules, n) && Square(isFunction, n) && modules != isFunction && Marks(isFunction, n, reserved)
    modifies modules
    ensures r == DomainError <==> msk < 0 || msk > 7
    ensures r.Ok? || r == DomainError
    ensures Grid(modules, n) == if r.Ok? then Masked(old(Grid(modules, n)), msk, reserved) else old(Grid(modules, n))
  {
    if msk < 0 || msk > 7 {
      return DomainError;
    }
    for y := 0 to n
      invariant forall c: Cell :: 0 <= c.x < n && 0 <= c.y < n ==>
        modules[c.y, c.x] == if c.y < y then old(modules[c.y, c.x]) != (Invert(msk, c.x, c.y) && !reserved(c)) else old(modules[c.y, c.x])
    {
      for x := 0 to n
        invariant forall c: Cell :: 0 <= c.x < n && 0 <= c.y < n ==>
          modules[c.y, c.x] == if c.y < y || (c.y == y && c.x < x) then old(modules[c.y, c.x]) != (Invert(msk, c.x, c.y) && !reserved(c))
                               else old(modules[c.y, c.x])
      {
        assert isFunction[y, x] == reserved(Cell(x, y));
        modules[y, x] := modules[y, x] != (Invert(msk, x, y) && !isFunction[y, x]);
      }
    }
    return Ok(());
  }

  // -------------------------------------------------------------------------------------
  // quirc: reading

  /** The bits read so far, unmasked and packed into zeroed bytes. */
  ghost predicate Collected(g: Symbol, mask: int, reserved: Cell -> bool, done: seq<Cell>, raw: seq<u8>, data_bits: nat)
    requires forall c :: c in done ==> c in g && c.x >= 0 && c.y >= 0
  {
    FreeIn(done, reserved);
    var bits := ReadBits(g, mask, Free(done, reserved));
    data_bits == |bits| && raw == Packed(bits, |raw|)
  }

  /** `read_bit`. */
  method ReadBit(code: array2<bool>, n: nat, mask: int, raw: array<u8>, data_bits: nat, y: nat, x: nat, ghost bits: seq<bool>)
    returns (data_bits': nat)
    requires Square(code, n) && x < n && y < n && data_bits < 8 * raw.Length
    requires data_bits == |bits| && raw[..] == Packed(bits, raw.Length)
    modifies raw
    ensures data_bits' == data_bits + 1
    ensures raw[..] == Packed(bits + [code[y, x] != MaskBit(mask, y, x)], raw.Length)
  {
    hide PackByte, OrBit;
    var bitpos := data_bits % 8;
    var bytepos := data_bits / 8;
    var v := code[y, x];
    if MaskBit(mask, y, x) {
      v := !v;
    }
    AppendBit(bits, v, bytepos, bitpos);
    forall j: nat | j < raw.Length && j != bytepos
      ensures PackByte(bits + [v], j) == PackByte(bits, j)
    {
      AppendElsewhere(bits, v, bytepos, j);
    }
    if v {
      raw[bytepos] := OrBit(raw[bytepos], bitpos);
    }
    data_bits' := data_bits + 1;
  }

  lemma {:induction false} FreeConcat(s: seq<Cell>, t: seq<Cell>, reserved: Cell -> bool)
    ensures Free(s + t, reserved) == Free(s, reserved) + Free(t, reserved)
  {
    if t == [] {
      assert s + t == s;
    } else {
      var k := |t| - 1;
      FreeConcat(s, t[..k], reserved);
      assert s + t == (s + t[..k]) + [t[k]];
      FreeSnoc(s + t[..k], t[k], reserved);
    }
  }

  /** The cells of the walk from row v of a column pair on. */
  ghost function Rest(n: nat, x: int, up: bool, v: nat): seq<Cell>
    requires v <= n
  {
    if x < 1 then []
    else
      ColumnCells(n, Past(x), up, n);
      Column(n, Past(x), up, n)[2 * v..] + Walk(n, Past(x) - 2, !up)
  }

  lemma {:induction false} ColumnLength(n: nat, right: int, up: bool, m: nat)
    ensures |Column(n, right, up, m)| == 2 * m
  {
    hide Row;
    if m > 0 { ColumnLength(n, right, up, m - 1); }
  }

  lemma {:induction false} ColumnRow(n: nat, right: int, up: bool, v: nat, m: nat)
    requires v < m
    ensures |Column(n, right, up, m)| == 2 * m
    ensures Column(n, right, up, m)[2 * v] == Cell(right, Row(n, up, v))
    ensures Column(n, right, up, m)[2 * v + 1] == Cell(right - 1, Row(n, up, v))
    decreases m
  {
    hide Row;
    ColumnLength(n, right, up, m - 1);
    if v < m - 1 {
      ColumnRow(n, right, up, v, m - 1);
    }
  }

  /** The cursor's two cells come next, and then the next row or, past the last one, the next
      column pair in the other direction. */
  lemma RestStep(n: nat, x: int, up: bool, v: nat)
    requires x >= 1 && v < n
    ensures var r, y := Past(x), Row(n, up, v);
      Rest(n, x, up, v) == [Cell(r, y), Cell(r - 1, y)] + (if v + 1 < n then Rest(n, r, up, v + 1) else Rest(n, r - 2, !up, 0))
  {
    var r := Past(x);
    ColumnTail(n, r, up, v);
    ColumnCells(n, r, up, n);
    hide Column, Past, Walk, Row;
    var y, tail := Row(n, up, v), Column(n, r, up, n)[2 * (v + 1)..];
    Reassociate([Cell(r, y), Cell(r - 1, y)], tail, Walk(n, r - 2, !up));
    if v + 1 == n {
      RestTurn(n, r - 2, !up);
      assert tail + Walk(n, r - 2, !up) == Walk(n, r - 2, !up);
    } else {
      PastTwice(x);
    }
  }

  lemma PastTwice(x: int)
    ensures Past(Past(x)) == Past(x) && (x >= 1 ==> Past(x) >= 1)
  {
  }

  lemma ColumnTail(n: nat, r: int, up: bool, v: nat)
    requires v < n
    ensures |Column(n, r, up, n)| == 2 * n
    ensures var col, y := Column(n, r, up, n), Row(n, up, v);
      col[2 * v..] == [Cell(r, y), Cell(r - 1, y)] + col[2 * (v + 1)..] && (v + 1 == n ==> col[2 * (v + 1)..] == [])
  {
    ColumnRow(n, r, up, v, n);
    hide Column, Row;
    var col := Column(n, r, up, n);
    assert col[2 * v..] == [col[2 * v], col[2 * v + 1]] + col[2 * v + 2..];
  }

  lemma RestTurn(n: nat, x: int, up: bool)
    ensures Rest(n, x, up, 0) == Walk(n, x, up)
  {
  }

  method ReadCell(code: array2<bool>, n: nat, mask: int, raw: array<u8>, data_bits: nat, y: int, x: int,
                  reserved: Cell -> bool, ghost done: seq<Cell>)
    returns (data_bits': nat)
    requires Square(code, n) && 0 <= x < n && 0 <= y < n
    requires Inside(done, n) && Collected(Grid(code, n), mask, reserved, done, raw[..], data_bits)
    requires |Free(done + [Cell(x, y)], reserved)| <= 8 * raw.Length
    modifies raw
    ensures Inside(done + [Cell(x, y)], n)
    ensures Collected(Grid(code, n), mask, reserved, done + [Cell(x, y)], raw[..], data_bits')
  {
    data_bits' := data_bits;
    ghost var c := Cell(x, y);
    FreeSnoc(done, c, reserved);
    FreeIn(done, reserved);
    FreeIn(done + [c], reserved);
    ghost var g := Grid(code, n);
    ghost var bits := ReadBits(g, mask, Free(done, reserved));
    hide Packed, Free, MaskBit;
    if !reserved(Cell(x, y)) {
      data_bits' := ReadBit(code, n, mask, raw, data_bits, y, x, bits);
      assert ReadBits(g, mask, Free(done, reserved) + [c]) == bits + [g[c] != MaskBit(mask, y, x)];
    }
  }

  ghost predicate Inside(s: seq<Cell>, n: nat) {
    forall c :: c in s ==> 0 <= c.x < n && 0 <= c.y < n
  }

  /** The two cells of a row. */
  method ReadRow(code: array2<bool>, n: nat, mask: int, raw: array<u8>, data_bits: nat, y: int, x: int,
                 reserved: Cell -> bool, ghost done: seq<Cell>, ghost rest: seq<Cell>)
    returns (data_bits': nat)
    requires Square(code, n) && 1 <= x < n && 0 <= y < n
    requires Inside(done, n) && Collected(Grid(code, n), mask, reserved, done, raw[..], data_bits)
    requires |Free(done + [Cell(x, y), Cell(x - 1, y)] + rest, reserved)| <= 8 * raw.Length
    modifies raw
    ensures Inside(done + [Cell(x, y), Cell(x - 1, y)], n)
    ensures Collected(Grid(code, n), mask, reserved, done + [Cell(x, y), Cell(x - 1, y)], raw[..], data_bits')
  {
    hide Collected, Free, Inside;
    ghost var one := done + [Cell(x, y)];
    FreeConcat(done + [Cell(x, y), Cell(x - 1, y)], rest, reserved);
    FreeConcat(one, [Cell(x - 1, y)], reserved);
    assert one + [Cell(x - 1, y)] == done + [Cell(x, y), Cell(x - 1, y)];
    data_bits' := ReadCell(code, n, mask, raw, data_bits, y, x, reserved, done);
    data_bits' := ReadCell(code, n, mask, raw, data_bits', y, x - 1, reserved, one);
  }

  lemma NothingCollected(g: Symbol, mask: int, reserved: Cell -> bool, raw: seq<u8>)
    requires forall k :: 0 <= k < |raw| ==> raw[k] == 0
    ensures Collected(g, mask, reserved, [], raw, 0)
  {
    forall k | 0 <= k < |raw|
      ensures PackByte([], k) == 0
    {
      NumberEmpty(8 * k, 8);
    }
  }

  /** `read_data`: the cursor turns at the top and the bottom of every column pair. */
  method ReadData(code: array2<bool>, n: nat, mask: int, reserved: Cell -> bool, raw: array<u8>) returns (data_bits: nat)
    requires Square(code, n) && n % 4 == 1
    requires |Free(Order(n), reserved)| <= 8 * raw.Length && forall k :: 0 <= k < raw.Length ==> raw[k] == 0
    modifies raw
    ensures Inside(Order(n), n) && Collected(Grid(code, n), mask, reserved, Order(n), raw[..], data_bits)
  {
    hide Collected, Free, Order, Rest;
    var y: int := n - 1;
    var x: int := n - 1;
    var dir := -1;
    data_bits := 0;
    ghost var done: seq<Cell>, v := [], 0;
    ReadStart(n);
    NothingCollected(Grid(code, n), mask, reserved, raw[..]);
    while x > 0
      invariant -1 <= x < n && 0 <= v < n && (dir == -1 || dir == 1) && y == Row(n, dir == -1, v)
      invariant done + Rest(n, x, dir == -1, v) == Order(n)
      invariant Inside(done, n) && Collected(Grid(code, n), mask, reserved, done, raw[..], data_bits)
      decreases x, n - v
    {
      RestStep(n, x, dir == -1, v);
      if x == 6 {
        x := x - 1;
      }
      ghost var rest := if v + 1 < n then Rest(n, x, dir == -1, v + 1) else Rest(n, x - 2, dir != -1, 0);
      Reassociate(done, [Cell(x, y), Cell(x - 1, y)], rest);
      data_bits := ReadRow(code, n, mask, raw, data_bits, y, x, reserved, done, rest);
      done := done + [Cell(x, y), Cell(x - 1, y)];
      v := v + 1;
      y := y + dir;
      if y < 0 || y >= n {
        dir := -dir;
        x := x - 2;
        y := y + dir;
        v := 0;
      }
    }
    RestEnd(n, x, dir == -1, v, done);
  }

  lemma Reassociate(a: seq<Cell>, b: seq<Cell>, c: seq<Cell>)
    ensures a + (b + c) == a + b + c
  {
  }

  lemma ReadStart(n: nat)
    requires n % 4 == 1
    ensures [] + Rest(n, n - 1, true, 0) == Order(n) && Inside([], n)
  {
  }

  lemma RestEnd(n: nat, x: int, up: bool, v: nat, done: seq<Cell>)
    requires x < 1 && v <= n
    ensures done + Rest(n, x, up, v) == done
  {
  }

  // -------------------------------------------------------------------------------------
  // Both

  /** A symbol drawn, masked and read back holds the data again, whatever was in it before and
      wherever its reserved cells are. */
  method DrawAndRead(modules: array2<bool>, isFunction: array2<bool>, n: nat, data: seq<u8>, msk: int,
                     reserved: Cell -> bool, raw: array<u8>)
    returns (data_bits: nat)
    requires Square(modules, n) && Square(isFunction, n) && modules != isFunction && n % 4 == 1
    requires Marks(isFunction, n, reserved) && 0 <= msk <= 7
    requires 8 * |data| <= |Free(Order(n), reserved)| <= 8 * raw.Length && forall k :: 0 <= k < raw.Length ==> raw[k] == 0
    modifies modules, raw
    ensures data_bits == |Free(Order(n), reserved)| && raw[..|data|] == data
  {
    hide Drawn, Collected, Free, Inside, Order, Masked;
    ghost var base := Grid(modules, n);
    var drawn := DrawCodewords(modules, isFunction, n, data, reserved);
    ghost var g := Grid(modules, n);
    var ok := ApplyMask(modules, isFunction, n, msk, reserved);
    data_bits := ReadData(modules, n, msk, reserved, raw);
    ReadsBack(base, g, n, data, msk, reserved, raw[..], drawn, data_bits);
  }

  lemma ReadsBack(base: Symbol, g: Symbol, n: nat, data: seq<u8>, msk: int, reserved: Cell -> bool, raw: seq<u8>, drawn: nat, data_bits: nat)
    requires n % 4 == 1 && 0 <= msk <= 7 && base.Keys == Cells(n) && g.Keys == Cells(n) && Inside(Order(n), n)
    requires 8 * |data| <= |Free(Order(n), reserved)| <= 8 * |raw|
    requires Drawn(g, base, data, reserved, Order(n), drawn)
    requires Collected(Masked(g, msk, reserved), msk, reserved, Order(n), raw, data_bits)
    ensures data_bits == |Free(Order(n), reserved)| && raw[..|data|] == data
  {
    var cells := Free(Order(n), reserved);
    FreeIn(Order(n), reserved);
    WalkCells(n, n - 1, true);
    var bits := ReadBits(Masked(g, msk, reserved), msk, cells);
    hide Free, Order, Masked, ReadBits;
    forall i: nat | i < 8 * |data|
      ensures bits[i] == DataBit(data, i)
    {
      DrawMaskRead(base, cells, data, msk, reserved, i);
    }
    forall k: nat | k < |data|
      ensures raw[k] == data[k]
    {
      PackDataByte(bits, data, k);
    }
  }
}
