/** How many data cells a symbol has: the formula of qrcodegen counts the cells that its function
    patterns leave. */
module QrCapacity {
  import opened ModArith
  import opened Zigzag
  import opened SymbolWalk
  import opened QrFunctionCells
  import opened QrVersions

  // -------------------------------------------------------------------------------------
  // Sizes of sets

  ghost function Between(a: int, b: int): (s: set<int>)
    ensures forall x :: x in s <==> a <= x < b
    decreases b - a
  {
    if b <= a then {} else Between(a, b - 1) + {b - 1}
  }

  lemma {:induction false} BetweenSize(a: int, b: int)
    requires a <= b
    ensures |Between(a, b)| == b - a
    decreases b - a
  {
    if a < b { BetweenSize(a, b - 1); }
  }

  ghost function Product(X: set<int>, Y: set<int>): (s: set<Cell>)
    ensures forall c :: c in s <==> c.x in X && c.y in Y
  {
    set x, y | x in X && y in Y :: Cell(x, y)
  }

  lemma Member<T>(s: set<T>) returns (x: T)
    requires |s| > 0
    ensures x in s
  {
    x :| x in s;
  }

  lemma {:induction false} ColumnSize(x: int, Y: set<int>)
    ensures |Product({x}, Y)| == |Y|
  {
    if |Y| > 0 {
      var y := Member(Y);
      ColumnSize(x, Y - {y});
      assert Product({x}, Y) == Product({x}, Y - {y}) + {Cell(x, y)};
    } else {
      assert Product({x}, Y) == {};
    }
  }

  lemma {:induction false} ProductSize(X: set<int>, Y: set<int>)
    ensures |Product(X, Y)| == |X| * |Y|
  {
    if |X| > 0 {
      var x := Member(X);
      ProductSize(X - {x}, Y);
      ColumnSize(x, Y);
      assert Product(X, Y) == Product(X - {x}, Y) + Product({x}, Y);
      assert X == (X - {x}) + {x};
      OneMore(|X - {x}|, |Y|);
    } else {
      assert Product(X, Y) == {};
    }
  }

  lemma OneMore(m: nat, n: nat)
    ensures (m + 1) * n == m * n + n
  {
  }

  lemma BoxSize(x0: int, x1: int, y0: int, y1: int)
    requires x0 <= x1 && y0 <= y1
    ensures |Product(Between(x0, x1), Between(y0, y1))| == (x1 - x0) * (y1 - y0)
  {
    BetweenSize(x0, x1);
    BetweenSize(y0, y1);
    ProductSize(Between(x0, x1), Between(y0, y1));
  }

  ghost function Left(s: seq<Cell>, reserved: Cell -> bool): set<Cell> {
    set c | c in s && !reserved(c)
  }

  lemma LeftSnoc(s: seq<Cell>, c: Cell, reserved: Cell -> bool)
    requires c !in s
    ensures |Left(s + [c], reserved)| == |Left(s, reserved)| + if reserved(c) then 0 else 1
  {
    assert Left(s + [c], reserved) == if reserved(c) then Left(s, reserved) else Left(s, reserved) + {c};
  }

  lemma {:induction false} FreeSize(s: seq<Cell>, reserved: Cell -> bool)
    requires NoRepeat(s)
    ensures |Free(s, reserved)| == |Left(s, reserved)|
  {
    if s == [] {
      assert Left(s, reserved) == {};
    } else {
      hide Left;
      var init, c := s[..|s| - 1], s[|s| - 1];
      assert s == init + [c] && NoRepeat(init) && c !in init;
      hide NoRepeat;
      FreeSize(init, reserved);
      LeftSnoc(init, c, reserved);
    }
  }

  // -------------------------------------------------------------------------------------
  // The fixed patterns

  /** Finder patterns with separators and format bits. */
  ghost function Corners(n: nat): set<Cell> {
    Product(Between(0, 9), Between(0, 9)) + Product(Between(n - 8, n), Between(0, 9)) + Product(Between(0, 9), Between(n - 8, n))
  }

  lemma CornersAre(n: nat)
    requires n >= 21
    ensures forall c :: c in Corners(n) <==> In(n, c) && ((c.x < 9 && c.y < 9) || (c.x >= n - 8 && c.y < 9) || (c.x < 9 && c.y >= n - 8))
  {
  }

  lemma ThreeApart(a: set<Cell>, b: set<Cell>, c: set<Cell>)
    requires a !! b && a !! c && b !! c
    ensures |a + b + c| == |a| + |b| + |c|
  {
    assert (a + b) !! c;
  }

  lemma BoxesApart(X: set<int>, Y: set<int>, Z: set<int>, W: set<int>)
    requires X !! Z || Y !! W
    ensures Product(X, Y) !! Product(Z, W)
  {
  }

  lemma CornersSize(n: nat)
    requires n >= 21
    ensures |Corners(n)| == 225
  {
    hide Between, Product;
    var low, high := Between(0, 9), Between(n - 8, n);
    assert low !! high;
    BoxSize(0, 9, 0, 9);
    BoxSize(n - 8, n, 0, 9);
    BoxSize(0, 9, n - 8, n);
    BoxesApart(low, low, high, low);
    BoxesApart(low, low, low, high);
    BoxesApart(high, low, low, high);
    ThreeApart(Product(low, low), Product(high, low), Product(low, high));
  }

  /** What the timing patterns add. */
  ghost function Timing(n: nat): (s: set<Cell>)
    requires n >= 21
    ensures forall c :: c in s <==> (c.x == 6 && 9 <= c.y < n - 8) || (c.y == 6 && 9 <= c.x < n - 8)
  {
    Product({6}, Between(9, n - 8)) + Product(Between(9, n - 8), {6})
  }

  lemma TimingSize(n: nat)
    requires n >= 21
    ensures |Timing(n)| == 2 * (n - 17)
  {
    hide Between, Product;
    BetweenSize(9, n - 8);
    ProductSize({6}, Between(9, n - 8));
    ProductSize(Between(9, n - 8), {6});
    assert Product({6}, Between(9, n - 8)) !! Product(Between(9, n - 8), {6});
  }

  /** What the version bits add. */
  ghost function VersionBits(n: nat): (s: set<Cell>)
    requires n >= 21
    ensures forall c :: c in s <==> (n - 11 <= c.x < n - 8 && 0 <= c.y < 6) || (0 <= c.x < 6 && n - 11 <= c.y < n - 8)
  {
    Product(Between(n - 11, n - 8), Between(0, 6)) + Product(Between(0, 6), Between(n - 11, n - 8))
  }

  lemma VersionSize(n: nat)
    requires n >= 21
    ensures |VersionBits(n)| == 36
  {
    hide Between, Product;
    BoxSize(n - 11, n - 8, 0, 6);
    BoxSize(0, 6, n - 11, n - 8);
    assert Product(Between(n - 11, n - 8), Between(0, 6)) !! Product(Between(0, 6), Between(n - 11, n - 8));
  }

  // -------------------------------------------------------------------------------------
  // The alignment patterns

  /** The coordinates near one of the centres l to m - 1. */
  ghost function NearAny(centres: seq<int>, l: nat, m: nat): set<int>
    requires m <= |centres|
    decreases m
  {
    if m <= l then {} else NearAny(centres, l, m - 1) + Between(centres[m - 1] - 2, centres[m - 1] + 3)
  }

  lemma {:induction false} NearAnyIs(centres: seq<int>, l: nat, m: nat, x: int)
    requires m <= |centres|
    ensures x in NearAny(centres, l, m) <==> exists a :: l <= a < m && Near(centres[a], x)
    decreases m
  {
    if l < m { NearAnyIs(centres, l, m - 1, x); }
  }

  lemma NearBelow(n: nat, centres: seq<int>, a: nat, m: nat, x: int)
    requires Spaced(n, centres) && a < m < |centres| && Near(centres[a], x)
    ensures x < centres[m] - 2
  {
  }

  lemma NearApart(n: nat, centres: seq<int>, l: nat, m: nat)
    requires Spaced(n, centres) && l <= m < |centres|
    ensures NearAny(centres, l, m) !! Between(centres[m] - 2, centres[m] + 3)
  {
    hide Spaced, Near;
    var before := NearAny(centres, l, m);
    hide NearAny, Between;
    forall x | x in before
      ensures x < centres[m] - 2
    {
      NearAnyIs(centres, l, m, x);
      var a :| l <= a < m && Near(centres[a], x);
      NearBelow(n, centres, a, m, x);
    }
  }

  lemma {:induction false} NearSize(n: nat, centres: seq<int>, l: nat, m: nat)
    requires Spaced(n, centres) && l <= m <= |centres|
    ensures |NearAny(centres, l, m)| == 5 * (m - l)
    decreases m
  {
    hide Between, Spaced, Near;
    if l < m {
      NearSize(n, centres, l, m - 1);
      BetweenSize(centres[m - 1] - 2, centres[m - 1] + 3);
      NearApart(n, centres, l, m - 1);
    }
  }

  /** The rows of an alignment pattern on a timing pattern that the timing pattern leaves. */
  ghost const EDGE: set<int> := {4, 5, 7, 8}

  ghost function Inner(centres: seq<int>): set<Cell> {
    var k := |centres|;
    if k < 2 then {} else Product(NearAny(centres, 1, k), NearAny(centres, 1, k))
  }

  ghost function OnTiming(centres: seq<int>): set<Cell> {
    var k := |centres|;
    if k < 2 then {} else Product(NearAny(centres, 1, k - 1), EDGE) + Product(EDGE, NearAny(centres, 1, k - 1))
  }

  ghost predicate Ends(n: nat, centres: seq<int>) {
    Spaced(n, centres) && (centres != [] ==> centres[|centres| - 1] == n - 7)
  }

  lemma NearInner(n: nat, centres: seq<int>, a: nat, x: int)
    requires Ends(n, centres) && a < |centres| && Near(centres[a], x)
    ensures a == 0 <==> x < 16
    ensures a == 0 ==> 4 <= x <= 8
    ensures 1 <= a < |centres| - 1 ==> x < n - 20
  {
  }

  /** Besides the fixed patterns the alignment patterns take these. */
  lemma AlignedCells(ver: nat, centres: seq<int>, c: Cell)
    requires Ends(Size(ver), centres) && In(Size(ver), c)
    ensures Aligned(centres, c) && !Fixed(ver, c) <==> c in Inner(centres) + OnTiming(centres)
  {
    hide Spaced, Ends, Near, Product, NearAny;
    var n, k := Size(ver), |centres|;
    if k >= 2 {
      NearAnyIs(centres, 1, k, c.x);
      NearAnyIs(centres, 1, k, c.y);
      NearAnyIs(centres, 1, k - 1, c.x);
      NearAnyIs(centres, 1, k - 1, c.y);
    }
    if Aligned(centres, c) && !Fixed(ver, c) {
      var a, b :| 0 <= a < k && 0 <= b < k && !FinderCorner(k, a, b) && Near(centres[a], c.x) && Near(centres[b], c.y);
      NearInner(n, centres, a, c.x);
      NearInner(n, centres, b, c.y);
    }
    if c in Inner(centres) {
      var a :| 1 <= a < k && Near(centres[a], c.x);
      var b :| 1 <= b < k && Near(centres[b], c.y);
      NearInner(n, centres, a, c.x);
      NearInner(n, centres, b, c.y);
    }
    if k >= 2 && c in Product(NearAny(centres, 1, k - 1), EDGE) {
      var a :| 1 <= a < k - 1 && Near(centres[a], c.x);
      NearInner(n, centres, a, c.x);
      NearFirst(n, centres, c.y);
      assert !FinderCorner(k, a, 0);
    }
    if k >= 2 && c in Product(EDGE, NearAny(centres, 1, k - 1)) {
      var b :| 1 <= b < k - 1 && Near(centres[b], c.y);
      NearInner(n, centres, b, c.y);
      NearFirst(n, centres, c.x);
      assert !FinderCorner(k, 0, b);
    }
  }

  lemma NearFirst(n: nat, centres: seq<int>, x: int)
    requires Ends(n, centres) && centres != [] && 4 <= x <= 8
    ensures Near(centres[0], x)
  {
  }

  lemma HighAndEdge(X: set<int>, Y: set<int>)
    requires forall x :: x in X || x in Y ==> x >= 16
    ensures Product(Y, EDGE) !! Product(EDGE, Y) && Product(X, X) !! Product(Y, EDGE) + Product(EDGE, Y)
    ensures |Product(X, X) + (Product(Y, EDGE) + Product(EDGE, Y))| == |X| * |X| + 8 * |Y|
  {
    assert |EDGE| == 4;
    assert forall x :: x in EDGE ==> x < 16;
    hide Product, EDGE;
    ProductSize(X, X);
    ProductSize(Y, EDGE);
    ProductSize(EDGE, Y);
  }

  lemma Squared(k: int)
    ensures (5 * k) * (5 * k) == 25 * (k * k)
  {
  }

  lemma AlignedSize(n: nat, centres: seq<int>)
    requires Ends(n, centres)
    ensures var k := |centres|; |Inner(centres) + OnTiming(centres)| == if k == 0 then 0 else 25 * ((k - 1) * (k - 1)) + 40 * (k - 2)
  {
    var k := |centres|;
    if k > 0 {
      var X, Y := NearAny(centres, 1, k), NearAny(centres, 1, k - 1);
      NearSize(n, centres, 1, k);
      NearSize(n, centres, 1, k - 1);
      NearHigh(n, centres, k);
      NearHigh(n, centres, k - 1);
      hide NearAny, Product, Near, Spaced, EDGE;
      HighAndEdge(X, Y);
      Squared(k - 1);
    }
  }

  lemma NearHigh(n: nat, centres: seq<int>, m: nat)
    requires Ends(n, centres) && 1 <= m <= |centres|
    ensures forall x :: x in NearAny(centres, 1, m) ==> x >= 16
  {
    hide Near, NearAny, Ends;
    forall x: int
      ensures x in NearAny(centres, 1, m) ==> x >= 16
    {
      if x in NearAny(centres, 1, m) {
        NearAnyIs(centres, 1, m, x);
        var a :| 1 <= a < m && Near(centres[a], x);
        NearInner(n, centres, a, x);
      }
    }
  }

  // -------------------------------------------------------------------------------------
  // All cells without data

  ghost function FixedCells(ver: nat): set<Cell>
    requires ver >= 1
  {
    Corners(Size(ver)) + Timing(Size(ver)) + if ver < 7 then {} else VersionBits(Size(ver))
  }

  lemma FixedSize(ver: nat)
    requires ver >= 1
    ensures |FixedCells(ver)| == 225 + 2 * (Size(ver) - 17) + if ver < 7 then 0 else 36
  {
    hide Corners, Timing, VersionBits;
    var n := Size(ver);
    CornersAre(n);
    CornersSize(n);
    TimingSize(n);
    VersionSize(n);
    assert Corners(n) !! Timing(n);
    if ver >= 7 { assert Corners(n) + Timing(n) !! VersionBits(n); }
  }

  lemma FixedIs(ver: nat, c: Cell)
    requires ver >= 1
    ensures c in FixedCells(ver) <==> In(Size(ver), c) && Fixed(ver, c)
  {
    hide Corners, Timing, VersionBits;
    CornersAre(Size(ver));
  }

  lemma AlignedInside(n: nat, centres: seq<int>, c: Cell)
    requires Ends(n, centres) && n >= 21 && c in Inner(centres) + OnTiming(centres)
    ensures In(n, c)
  {
    var k := |centres|;
    NearAnyIs(centres, 1, k, c.x);
    NearAnyIs(centres, 1, k, c.y);
    NearAnyIs(centres, 1, k - 1, c.x);
    NearAnyIs(centres, 1, k - 1, c.y);
    hide NearAny, Near, Spaced, Ends;
    NearInside(n, centres);
  }

  lemma NearInside(n: nat, centres: seq<int>)
    requires Ends(n, centres) && n >= 21
    ensures forall a, x :: 0 <= a < |centres| && Near(centres[a], x) ==> 0 <= x < n
  {
    forall a, x: int | 0 <= a < |centres| && Near(centres[a], x)
      ensures 0 <= x < n
    {
      if a > 0 { assert centres[0] < centres[a]; }
      if a < |centres| - 1 { assert centres[a] < centres[|centres| - 1]; }
    }
  }

  /** The cells without data. */
  ghost function Taken(ver: nat, centres: seq<int>): set<Cell>
    requires ver >= 1
  {
    FixedCells(ver) + (Inner(centres) + OnTiming(centres))
  }

  lemma TakenIs(ver: nat, centres: seq<int>, c: Cell)
    requires ver >= 1 && Ends(Size(ver), centres)
    ensures c in Taken(ver, centres) <==> In(Size(ver), c) && Reserved(ver, centres, c)
  {
    hide FixedCells, Fixed, Aligned, Inner, OnTiming;
    FixedIs(ver, c);
    if In(Size(ver), c) {
      AlignedCells(ver, centres, c);
    } else if c in Inner(centres) + OnTiming(centres) {
      AlignedInside(Size(ver), centres, c);
    }
  }

  lemma TakenSize(ver: nat, centres: seq<int>)
    requires ver >= 1 && Ends(Size(ver), centres)
    ensures var k := |centres|;
      |Taken(ver, centres)| == 225 + 2 * (Size(ver) - 17) + (if ver < 7 then 0 else 36)
                               + if k == 0 then 0 else 25 * ((k - 1) * (k - 1)) + 40 * (k - 2)
  {
    hide FixedCells, Fixed, Inner, OnTiming;
    FixedSize(ver);
    AlignedSize(Size(ver), centres);
    forall c | c in FixedCells(ver)
      ensures c !in Inner(centres) + OnTiming(centres)
    {
      FixedIs(ver, c);
      AlignedCells(ver, centres, c);
    }
    assert FixedCells(ver) !! Inner(centres) + OnTiming(centres);
  }

  lemma CentresEnd(ver: nat)
    requires 1 <= ver <= 40
    ensures Ends(Size(ver), Centres(ver)) && |Centres(ver)| == if ver == 1 then 0 else ver / 7 + 2
  {
    hide Centre, Spaced, Size;
    CentresSpaced(ver);
    if ver > 1 { EndCentres(ver); }
  }

  lemma Polynomial(v: int, k: int)
    ensures (4 * v + 17) * (4 * v + 17) - (225 + 2 * (4 * v)) - (25 * ((k - 1) * (k - 1)) + 40 * (k - 2))
      == (16 * v + 128) * v + 64 - ((25 * k - 10) * k - 55)
  {
  }

  /** Every cell of the symbol is data or taken. */
  lemma LeftOrTaken(n: nat, left: set<Cell>, taken: set<Cell>)
    requires forall c :: c in left <==> In(n, c) && c !in taken
    requires forall c :: c in taken ==> In(n, c)
    ensures |left| + |taken| == n * n
  {
    BoxSize(0, n, 0, n);
    hide Between, Product;
    assert left !! taken && left + taken == Product(Between(0, n), Between(0, n));
  }

  lemma LeftIs(ver: nat, c: Cell)
    requires 1 <= ver <= 40
    ensures c in Taken(ver, Centres(ver)) ==> In(Size(ver), c)
    ensures c in Left(Order(Size(ver)), ReservedBy(ver, Centres(ver))) <==> In(Size(ver), c) && c !in Taken(ver, Centres(ver))
  {
    hide Taken, Centres, Order, Aligned, Spaced, NoRepeat;
    CentresEnd(ver);
    TakenIs(ver, Centres(ver), c);
    EachCellOnce(Size(ver));
  }

  lemma LeftSize(ver: nat)
    requires 1 <= ver <= 40
    ensures |Left(Order(Size(ver)), ReservedBy(ver, Centres(ver)))| + |Taken(ver, Centres(ver))| == Size(ver) * Size(ver)
  {
    hide Taken, Centres, Order, Left, Reserved;
    forall c: Cell { LeftIs(ver, c); }
    LeftOrTaken(Size(ver), Left(Order(Size(ver)), ReservedBy(ver, Centres(ver))), Taken(ver, Centres(ver)));
  }

  lemma Formula(ver: nat)
    requires 1 <= ver <= 40
    ensures Size(ver) * Size(ver) - |Taken(ver, Centres(ver))| == RawModules(ver)
  {
    hide Taken, Centres;
    CentresEnd(ver);
    TakenSize(ver, Centres(ver));
    Polynomial(ver, ver / 7 + 2);
  }

  /** `getNumRawDataModules` counts the cells the encoder's function patterns leave. */
  lemma RoomForData(ver: nat)
    requires 1 <= ver <= 40
    ensures |Free(Order(Size(ver)), ReservedBy(ver, Centres(ver)))| == RawModules(ver)
  {
    hide Taken, Centres, Free, Order, NoRepeat, Left, RawModules;
    EachCellOnce(Size(ver));
    FreeSize(Order(Size(ver)), ReservedBy(ver, Centres(ver)));
    LeftSize(ver);
    Formula(ver);
  }

  lemma SubsetSize(a: set<Cell>, b: set<Cell>)
    requires a <= b
    ensures |a| <= |b|
  {
    assert b == a + (b - a);
  }

  /** No more cells than the symbol has. */
  lemma RoomAtMost(n: nat, reserved: Cell -> bool)
    requires n % 4 == 1 && n >= 9
    ensures |Free(Order(n), reserved)| <= n * n
  {
    hide Free, Order, NoRepeat, Left, Between;
    EachCellOnce(n);
    FreeSize(Order(n), reserved);
    LeftInside(n, reserved);
    BoxSize(0, n, 0, n);
    hide Product;
    SubsetSize(Left(Order(n), reserved), Product(Between(0, n), Between(0, n)));
  }

  lemma LeftInside(n: nat, reserved: Cell -> bool)
    requires forall c :: c in Order(n) <==> 0 <= c.x < n && 0 <= c.y < n && c.x != 6
    ensures forall c :: c in Left(Order(n), reserved) ==> 0 <= c.x < n && 0 <= c.y < n
  {
    hide Order;
  }

  /** quirc walks over the data cells of the encoder if and only if the version is not 21. */
  lemma WalksAgree(ver: nat)
    requires 1 <= ver <= 40
    ensures |APAT| == 41
    ensures Free(Order(Size(ver)), ReservedBy(ver, Listed(APAT[ver]))) == Free(Order(Size(ver)), ReservedBy(ver, Centres(ver))) <==> ver != 21
  {
    hide APAT, Listed, Centres, Reserved, Free, Order;
    if ver == 21 {
      LastCentreOf21();
      OneCellOf21();
      EachCellOnce(101);
      var c := Cell(96, 50);
      FreeIn(Order(101), ReservedBy(21, Centres(21)));
      FreeIn(Order(101), ReservedBy(21, Listed(APAT[21])));
      assert c in Order(101) && c in Free(Order(101), ReservedBy(21, Listed(APAT[21])));
    } else {
      CentresAgree(ver);
    }
  }
}
