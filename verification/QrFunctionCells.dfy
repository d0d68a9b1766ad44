/** Which cells of a symbol hold no data: qrcodegen marks them while it draws the function patterns,
    quirc works them out for one cell at a time. */
module QrFunctionCells {
  import opened ModArith
  import opened Zigzag
  import opened SymbolWalk

  function Size(ver: nat): nat {
    4 * ver + 17
  }

  ghost predicate In(n: nat, c: Cell) {
    0 <= c.x < n && 0 <= c.y < n
  }

  predicate Near(p: int, q: int) {
    -2 <= p - q <= 2
  }

  /** The three corners that have a finder pattern instead. */
  predicate FinderCorner(k: nat, i: int, j: int) {
    (i == 0 && j == 0) || (i == 0 && j == k - 1) || (i == k - 1 && j == 0)
  }

  predicate Aligned(centres: seq<int>, c: Cell) {
    exists i, j :: 0 <= i < |centres| && 0 <= j < |centres| && !FinderCorner(|centres|, i, j) && Near(centres[i], c.x) && Near(centres[j], c.y)
  }

  /** Finder patterns with their separators and format bits, timing patterns, version bits. */
  predicate Fixed(ver: nat, c: Cell) {
    var n := Size(ver);
    || (c.x < 9 && c.y < 9) || (c.x >= n - 8 && c.y < 9) || (c.x < 9 && c.y >= n - 8) || c.x == 6 || c.y == 6
    || (ver >= 7 && ((c.x >= n - 11 && c.y < 6) || (c.x < 6 && c.y >= n - 11)))
  }

  /** The cells without data, for given centres of the alignment patterns. */
  predicate Reserved(ver: nat, centres: seq<int>, c: Cell) {
    Fixed(ver, c) || Aligned(centres, c)
  }

  function ReservedBy(ver: nat, centres: seq<int>): Cell -> bool {
    c => Reserved(ver, centres, c)
  }

  // -------------------------------------------------------------------------------------
  // qrcodegen

  /** `drawFinderPattern`, as far as it marks cells. */
  method DrawFinderPattern(isFunction: array2<bool>, n: nat, x: int, y: int, ghost done: Cell -> bool)
    requires Square(isFunction, n) && Marks(isFunction, n, done)
    modifies isFunction
    ensures Marks(isFunction, n, c => done(c) || (-4 <= c.x - x <= 4 && -4 <= c.y - y <= 4))
  {
    for dy := -4 to 5
      invariant forall c: Cell :: In(n, c) ==> isFunction[c.y, c.x] == (done(c) || (-4 <= c.x - x <= 4 && -4 <= c.y - y < dy))
    {
      for dx := -4 to 5
        invariant forall c: Cell :: In(n, c) ==>
          isFunction[c.y, c.x] == (done(c) || (-4 <= c.x - x <= 4 && -4 <= c.y - y < dy) || (c.y - y == dy && -4 <= c.x - x < dx))
      {
        var xx, yy := x + dx, y + dy;
        if 0 <= xx < n && 0 <= yy < n {
          isFunction[yy, xx] := true;
        }
      }
    }
  }

  /** `drawAlignmentPattern`, as far as it marks cells. */
  method DrawAlignmentPattern(isFunction: array2<bool>, n: nat, x: int, y: int, ghost done: Cell -> bool)
    requires Square(isFunction, n) && Marks(isFunction, n, done) && 2 <= x < n - 2 && 2 <= y < n - 2
    modifies isFunction
    ensures Marks(isFunction, n, c => done(c) || (Near(x, c.x) && Near(y, c.y)))
  {
    for dy := -2 to 3
      invariant forall c: Cell :: In(n, c) ==> isFunction[c.y, c.x] == (done(c) || (-2 <= c.x - x <= 2 && -2 <= c.y - y < dy))
    {
      for dx := -2 to 3
        invariant forall c: Cell :: In(n, c) ==>
          isFunction[c.y, c.x] == (done(c) || (-2 <= c.x - x <= 2 && -2 <= c.y - y < dy) || (c.y - y == dy && -2 <= c.x - x < dx))
      {
        isFunction[y + dy, x + dx] := true;
      }
    }
  }

  predicate TimingCell(c: Cell, m: int) {
    (c.x == 6 && c.y < m) || (c.y == 6 && c.x < m)
  }

  /** The timing patterns. */
  method DrawTiming(isFunction: array2<bool>, n: nat, ghost done: Cell -> bool)
    requires Square(isFunction, n) && Marks(isFunction, n, done) && n >= 21
    modifies isFunction
    ensures Marks(isFunction, n, c => done(c) || c.x == 6 || c.y == 6)
  {
    for i := 0 to n
      invariant forall c: Cell :: In(n, c) ==> isFunction[c.y, c.x] == (done(c) || TimingCell(c, i))
    {
      isFunction[i, 6] := true;
      isFunction[6, i] := true;
    }
  }

  /** The cells of `drawFormatBits`. */
  predicate FormatCell(n: nat, c: Cell) {
    || (c.x == 8 && (0 <= c.y <= 5 || c.y == 7 || c.y == 8 || n - 8 <= c.y < n))
    || (c.y == 8 && (0 <= c.x <= 5 || c.x == 7 || n - 8 <= c.x < n))
  }

  method DrawFormatBits(isFunction: array2<bool>, n: nat, ghost done: Cell -> bool)
    requires Square(isFunction, n) && Marks(isFunction, n, done) && n >= 21
    modifies isFunction
    ensures Marks(isFunction, n, c => done(c) || FormatCell(n, c))
  {
    for i := 0 to 6
      invariant forall c: Cell :: In(n, c) ==> isFunction[c.y, c.x] == (done(c) || (c.x == 8 && c.y < i))
    {
      isFunction[i, 8] := true;
    }
    isFunction[7, 8] := true;
    isFunction[8, 8] := true;
    isFunction[8, 7] := true;
    for i := 9 to 15
      invariant forall c: Cell :: In(n, c) ==>
        isFunction[c.y, c.x] == (done(c) || (c.x == 8 && (c.y <= 5 || c.y == 7 || c.y == 8)) || (c.y == 8 && (c.x == 7 || 14 - i < c.x <= 5)))
    {
      isFunction[8, 14 - i] := true;
    }
    for i := 0 to 8
      invariant forall c: Cell :: In(n, c) ==>
        isFunction[c.y, c.x] == (done(c) || (c.x == 8 && (c.y <= 5 || c.y == 7 || c.y == 8)) || (c.y == 8 && (c.x == 7 || c.x <= 5 || n - 1 - i < c.x)))
    {
      isFunction[8, n - 1 - i] := true;
    }
    for i := 8 to 15
      invariant forall c: Cell :: In(n, c) ==>
        isFunction[c.y, c.x] == (done(c) || (c.x == 8 && (c.y <= 5 || c.y == 7 || c.y == 8 || n - 7 <= c.y < n - 15 + i))
          || (c.y == 8 && (c.x == 7 || c.x <= 5 || n - 8 <= c.x)))
    {
      isFunction[n - 15 + i, 8] := true;
    }
    isFunction[n - 8, 8] := true;
  }

  /** The cells of `drawVersion`. */
  predicate VersionCell(ver: nat, c: Cell) {
    var n := Size(ver);
    ver >= 7 && ((n - 11 <= c.x <= n - 9 && 0 <= c.y < 6) || (0 <= c.x < 6 && n - 11 <= c.y <= n - 9))
  }

  method DrawVersion(isFunction: array2<bool>, ver: nat, ghost done: Cell -> bool)
    requires Square(isFunction, Size(ver)) && Marks(isFunction, Size(ver), done)
    modifies isFunction
    ensures Marks(isFunction, Size(ver), c => done(c) || VersionCell(ver, c))
  {
    if ver < 7 {
      return;
    }
    var n := Size(ver);
    for i := 0 to 18
      invariant forall c: Cell :: In(n, c) ==>
        isFunction[c.y, c.x] == (done(c) || (VersionCell(ver, c) && (c.y < 6 ==> 3 * c.y + (c.x - (n - 11)) < i)
                                                                  && (c.x < 6 ==> 3 * c.x + (c.y - (n - 11)) < i)))
    {
      var a, b := n - 11 + i % 3, i / 3;
      isFunction[b, a] := true;
      isFunction[a, b] := true;
    }
  }

  // -------------------------------------------------------------------------------------
  // The centres of the alignment patterns

  function Step(ver: nat): int {
    var k := ver / 7 + 2;
    if ver == 32 then 26 else (ver * 4 + k * 2 + 1) / (k * 2 - 2) * 2
  }

  /** The position m steps before another. */
  function Back(top: int, step: int, m: int): int {
    top - m * step
  }

  lemma BackNext(top: int, step: int, m: int)
    ensures Back(top, step, 0) == top && Back(top, step, m + 1) == Back(top, step, m) - step
  {
  }

  function Centre(ver: nat, i: int): int {
    if i == 0 then 6 else Back(Size(ver) - 7, Step(ver), ver / 7 + 1 - i)
  }

  function Centres(ver: nat): seq<int>
    requires 1 <= ver <= 40
  {
    if ver == 1 then [] else seq(ver / 7 + 2, i => Centre(ver, i))
  }

  /** `getAlignmentPatternPositions`. */
  method GetAlignmentPatternPositions(ver: nat) returns (result: seq<int>)
    requires 1 <= ver <= 40
    ensures result == Centres(ver)
  {
    if ver == 1 {
      return [];
    }
    hide Back;
    var numAlign := ver / 7 + 2;
    var step := if ver == 32 then 26 else (ver * 4 + numAlign * 2 + 1) / (numAlign * 2 - 2) * 2;
    result := [];
    var top := Size(ver) - 7;
    var pos := top;
    BackNext(top, step, 0);
    for i := 0 to numAlign - 1
      invariant pos == Back(top, step, i)
      invariant |result| == i && forall j :: 0 <= j < i ==> result[j] == Back(top, step, i - 1 - j)
    {
      BackNext(top, step, i);
      result := [pos] + result;
      pos := pos - step;
    }
    result := [6] + result;
  }

  /** 6, then at least twelve cells further, then at least sixteen between any two. */
  ghost predicate Spaced(n: nat, centres: seq<int>) {
    && (centres != [] ==> |centres| >= 2 && centres[0] == 6 && centres[|centres| - 1] <= n - 7)
    && forall i, j :: 0 <= i < j < |centres| ==> centres[i] + (if i == 0 then 12 else 16) <= centres[j]
  }

  lemma StepBound(ver: nat)
    requires 7 <= ver <= 40
    ensures Step(ver) >= 16 && Back(Size(ver) - 7, Step(ver), ver / 7) >= 18
  {
    if ver < 14 {
    } else if ver < 21 {
    } else if ver < 28 {
    } else if ver < 35 {
    } else {
    }
  }

  lemma Steps(step: int, top: int, m: int, l: int)
    requires step >= 16 && l < m
    ensures Back(top, step, m) + 16 <= Back(top, step, l)
  {
    MulMono(l + 1, m, step);
  }

  lemma CentresApart(ver: nat, i: nat, j: nat)
    requires 7 <= ver <= 40 && i < j < ver / 7 + 2
    ensures Centre(ver, i) + (if i == 0 then 12 else 16) <= Centre(ver, j)
  {
    hide Back, Step;
    StepBound(ver);
    if i > 0 {
      Steps(Step(ver), Size(ver) - 7, ver / 7 + 1 - i, ver / 7 + 1 - j);
    } else if j > 1 {
      Steps(Step(ver), Size(ver) - 7, ver / 7, ver / 7 + 1 - j);
    }
  }

  lemma CentresSpaced(ver: nat)
    requires 1 <= ver <= 40
    ensures Spaced(Size(ver), Centres(ver))
  {
    if ver >= 7 {
      hide Centre, Size;
      EndCentres(ver);
      forall i, j | 0 <= i < j < ver / 7 + 2
        ensures Centres(ver)[i] + (if i == 0 then 12 else 16) <= Centres(ver)[j]
      {
        CentresApart(ver, i, j);
      }
    }
  }

  lemma EndCentres(ver: nat)
    requires 2 <= ver <= 40
    ensures Centre(ver, 0) == 6 && Centre(ver, ver / 7 + 1) == Size(ver) - 7
  {
  }

  // -------------------------------------------------------------------------------------
  // All function patterns

  /** The patterns of the first i rows of centres, and j of the next. */
  ghost predicate AlignedUpTo(centres: seq<int>, i: int, j: int, c: Cell) {
    exists a, b :: 0 <= a < |centres| && 0 <= b < |centres| && (a < i || (a == i && b < j))
      && !FinderCorner(|centres|, a, b) && Near(centres[a], c.x) && Near(centres[b], c.y)
  }

  lemma AlignedNext(centres: seq<int>, i: nat, j: nat, c: Cell)
    requires i < |centres| && j < |centres|
    ensures AlignedUpTo(centres, i, j + 1, c)
      <==> (AlignedUpTo(centres, i, j, c) || (!FinderCorner(|centres|, i, j) && Near(centres[i], c.x) && Near(centres[j], c.y)))
  {
    if !FinderCorner(|centres|, i, j) && Near(centres[i], c.x) && Near(centres[j], c.y) {
      assert AlignedUpTo(centres, i, j + 1, c);
    }
  }

  lemma AlignedRows(centres: seq<int>, i: nat, c: Cell)
    ensures !AlignedUpTo(centres, 0, 0, c)
    ensures AlignedUpTo(centres, i, |centres|, c) <==> AlignedUpTo(centres, i + 1, 0, c)
    ensures AlignedUpTo(centres, |centres|, 0, c) <==> Aligned(centres, c)
  {
  }

  method DrawAlignmentPatterns(isFunction: array2<bool>, n: nat, alignPatPos: seq<int>, ghost done: Cell -> bool)
    requires Square(isFunction, n) && Marks(isFunction, n, done) && n >= 21 && Spaced(n, alignPatPos)
    modifies isFunction
    ensures Marks(isFunction, n, c => done(c) || Aligned(alignPatPos, c))
  {
    hide Near, Aligned, AlignedUpTo;
    var numAlign := |alignPatPos|;
    forall c: Cell { AlignedRows(alignPatPos, 0, c); }
    for i := 0 to numAlign
      invariant Marks(isFunction, n, c => done(c) || AlignedUpTo(alignPatPos, i, 0, c))
    {
      for j := 0 to numAlign
        invariant Marks(isFunction, n, c => done(c) || AlignedUpTo(alignPatPos, i, j, c))
      {
        ghost var upTo := c => done(c) || AlignedUpTo(alignPatPos, i, j, c);
        if !((i == 0 && j == 0) || (i == 0 && j == numAlign - 1) || (i == numAlign - 1 && j == 0)) {
          DrawAlignmentPattern(isFunction, n, alignPatPos[i], alignPatPos[j], upTo);
        }
        forall c: Cell | In(n, c)
          ensures isFunction[c.y, c.x] == (done(c) || AlignedUpTo(alignPatPos, i, j + 1, c))
        {
          AlignedNext(alignPatPos, i, j, c);
        }
      }
      forall c: Cell { AlignedRows(alignPatPos, i, c); }
    }
  }

  /** `drawFunctionPatterns`: it marks exactly the cells without data. */
  method DrawFunctionPatterns(isFunction: array2<bool>, ver: nat)
    requires 1 <= ver <= 40 && Square(isFunction, Size(ver)) && Marks(isFunction, Size(ver), c => false)
    modifies isFunction
    ensures Marks(isFunction, Size(ver), ReservedBy(ver, Centres(ver)))
  {
    hide Aligned, VersionCell, FormatCell, Spaced;
    var n := Size(ver);
    ghost var P: Cell -> bool := c => false;
    DrawTiming(isFunction, n, P);
    P := (c: Cell) => c.x == 6 || c.y == 6;
    DrawFinderPattern(isFunction, n, 3, 3, P);
    P := (c: Cell) => c.x == 6 || c.y == 6 || Finder(n, 1, c);
    DrawFinderPattern(isFunction, n, n - 4, 3, P);
    P := (c: Cell) => c.x == 6 || c.y == 6 || Finder(n, 2, c);
    DrawFinderPattern(isFunction, n, 3, n - 4, P);
    P := (c: Cell) => c.x == 6 || c.y == 6 || Finder(n, 3, c);
    var alignPatPos := GetAlignmentPatternPositions(ver);
    CentresSpaced(ver);
    DrawAlignmentPatterns(isFunction, n, alignPatPos, P);
    P := (c: Cell) => c.x == 6 || c.y == 6 || Finder(n, 3, c) || Aligned(alignPatPos, c);
    DrawFormatBits(isFunction, n, P);
    P := (c: Cell) => c.x == 6 || c.y == 6 || Finder(n, 3, c) || Aligned(alignPatPos, c) || FormatCell(n, c);
    DrawVersion(isFunction, ver, P);
    forall c: Cell | In(n, c)
      ensures isFunction[c.y, c.x] == Reserved(ver, alignPatPos, c)
    {
      AllFixed(ver, c);
    }
  }

  predicate Finder(n: nat, k: nat, c: Cell) {
    (c.x < 8 && c.y < 8) || (k >= 2 && c.x >= n - 8 && c.y < 8) || (k >= 3 && c.x < 8 && c.y >= n - 8)
  }

  /** All patterns but the alignment patterns. */
  lemma AllFixed(ver: nat, c: Cell)
    requires In(Size(ver), c)
    ensures Fixed(ver, c) <==> (c.x == 6 || c.y == 6 || Finder(Size(ver), 3, c) || FormatCell(Size(ver), c) || VersionCell(ver, c))
  {
  }

  // -------------------------------------------------------------------------------------
  // quirc

  const MAX_ALIGNMENT: nat := 7

  /** The alignment centres of `quirc_version_db`. */
  const APAT: seq<seq<int>> := [
    [0, 0, 0, 0, 0, 0, 0],
    [0, 0, 0, 0, 0, 0, 0], [6, 18, 0, 0, 0, 0, 0], [6, 22, 0, 0, 0, 0, 0], [6, 26, 0, 0, 0, 0, 0],
    [6, 30, 0, 0, 0, 0, 0], [6, 34, 0, 0, 0, 0, 0], [6, 22, 38, 0, 0, 0, 0], [6, 24, 42, 0, 0, 0, 0],
    [6, 26, 46, 0, 0, 0, 0], [6, 28, 50, 0, 0, 0, 0], [6, 30, 54, 0, 0, 0, 0], [6, 32, 58, 0, 0, 0, 0],
    [6, 34, 62, 0, 0, 0, 0], [6, 26, 46, 66, 0, 0, 0], [6, 26, 48, 70, 0, 0, 0], [6, 26, 50, 74, 0, 0, 0],
    [6, 30, 54, 78, 0, 0, 0], [6, 30, 56, 82, 0, 0, 0], [6, 30, 58, 86, 0, 0, 0], [6, 34, 62, 90, 0, 0, 0],
    [6, 28, 50, 72, 92, 0, 0], [6, 26, 50, 74, 98, 0, 0], [6, 30, 54, 78, 102, 0, 0], [6, 28, 54, 80, 106, 0, 0],
    [6, 32, 58, 84, 110, 0, 0], [6, 30, 58, 86, 114, 0, 0], [6, 34, 62, 90, 118, 0, 0], [6, 26, 50, 74, 98, 122, 0],
    [6, 30, 54, 78, 102, 126, 0], [6, 26, 52, 78, 104, 130, 0], [6, 30, 56, 82, 108, 134, 0], [6, 34, 60, 86, 112, 138, 0],
    [6, 30, 58, 86, 114, 142, 0], [6, 34, 62, 90, 118, 146, 0], [6, 30, 54, 78, 102, 126, 150], [6, 24, 50, 76, 102, 128, 154],
    [6, 28, 54, 80, 106, 132, 158], [6, 32, 58, 84, 110, 136, 162], [6, 26, 54, 82, 110, 138, 166], [6, 30, 58, 86, 114, 142, 170]
  ]

  /** The entries in front of the first zero. */
  function Listed(apat: seq<int>): seq<int> {
    if apat == [] || apat[0] == 0 then [] else [apat[0]] + Listed(apat[1..])
  }

  lemma {:induction false} ListedIs(apat: seq<int>, a: nat)
    requires a <= |apat| && (forall k :: 0 <= k < a ==> apat[k] != 0) && (a == |apat| || apat[a] == 0)
    ensures Listed(apat) == apat[..a]
  {
    if a > 0 { ListedIs(apat[1..], a - 1); }
  }

  /** The last of the first a centres that is near q, or -1. */
  ghost predicate LastNear(apat: seq<int>, a: nat, q: int, last: int)
    requires a <= |apat|
  {
    -1 <= last < a && (last >= 0 ==> Near(apat[last], q)) && forall k :: last < k < a ==> !Near(apat[k], q)
  }

  lemma NearOne(n: nat, centres: seq<int>, k: nat, l: nat, q: int)
    requires Spaced(n, centres) && k < l < |centres|
    ensures !(Near(centres[k], q) && Near(centres[l], q))
  {
  }

  /** There is at most one, so the last ones decide. */
  lemma AlignedByLast(n: nat, centres: seq<int>, i: int, j: int, ai: int, aj: int)
    requires Spaced(n, centres) && LastNear(centres, |centres|, i, ai) && LastNear(centres, |centres|, j, aj)
    ensures Aligned(centres, Cell(j, i)) <==> (ai >= 0 && aj >= 0 && !FinderCorner(|centres|, aj, ai))
  {
    hide Near, Spaced, FinderCorner;
    forall k | 0 <= k < |centres|
      ensures (Near(centres[k], i) ==> k == ai) && (Near(centres[k], j) ==> k == aj)
    {
      if k < ai { NearOne(n, centres, k, ai, i); }
      if k < aj { NearOne(n, centres, k, aj, j); }
    }
  }

  /** The loop over the centres. */
  method FindAlignment(version: nat, apat: seq<int>, i: nat, j: nat) returns (ai: int, aj: int, a: nat)
    requires |apat| == MAX_ALIGNMENT && Spaced(Size(version), Listed(apat))
    ensures a == |Listed(apat)|
    ensures LastNear(Listed(apat), a, i, ai) && LastNear(Listed(apat), a, j, aj)
  {
    ai, aj, a := -1, -1, 0;
    while a < MAX_ALIGNMENT && apat[a] != 0
      invariant 0 <= a <= MAX_ALIGNMENT && forall k :: 0 <= k < a ==> apat[k] != 0
      invariant LastNear(apat, a, i, ai) && LastNear(apat, a, j, aj)
    {
      var p := apat[a];
      if -3 < p - i < 3 {
        ai := a;
      }
      if -3 < p - j < 3 {
        aj := a;
      }
      a := a + 1;
    }
    ListedIs(apat, a);
  }

  /** `reserved_cell`. */
  method ReservedCell(version: nat, apat: seq<int>, i: nat, j: nat) returns (reserved: bool)
    requires |apat| == MAX_ALIGNMENT && i < Size(version) && j < Size(version) && Spaced(Size(version), Listed(apat))
    ensures reserved == Reserved(version, Listed(apat), Cell(j, i))
  {
    var size := Size(version);
    ghost var c := Cell(j, i);
    if i < 9 && j < 9 {
      return true;
    }
    if i + 8 >= size && j < 9 {
      return true;
    }
    if i < 9 && j + 8 >= size {
      return true;
    }
    if i == 6 || j == 6 {
      return true;
    }
    if version >= 7 {
      if i < 6 && j + 11 >= size {
        return true;
      }
      if i + 11 >= size && j < 6 {
        return true;
      }
    }
    assert !Fixed(version, c);
    hide Fixed, Aligned, Spaced, LastNear, Listed;
    var ai, aj, a := FindAlignment(version, apat, i, j);
    AlignedByLast(size, Listed(apat), i, j, ai, aj);
    if ai >= 0 && aj >= 0 {
      a := a - 1;
      if 0 < ai && ai < a {
        return true;
      }
      if 0 < aj && aj < a {
        return true;
      }
      if aj == a && ai == a {
        return true;
      }
    }
    return false;
  }

  // -------------------------------------------------------------------------------------
  // Where the two agree

  /** Entry i of the encoder's list, and zeros behind it. */
  function Entry(ver: nat, i: nat): int {
    if ver == 1 || i >= ver / 7 + 2 then 0 else Centre(ver, i)
  }

  ghost predicate SameCentres(ver: nat) {
    && ver < |APAT| && |APAT[ver]| == MAX_ALIGNMENT
    && APAT[ver][0] == Entry(ver, 0) && APAT[ver][1] == Entry(ver, 1) && APAT[ver][2] == Entry(ver, 2) && APAT[ver][3] == Entry(ver, 3)
    && APAT[ver][4] == Entry(ver, 4) && APAT[ver][5] == Entry(ver, 5) && APAT[ver][6] == Entry(ver, 6)
  }

  lemma CentresFrom1() ensures SameCentres(1) && SameCentres(2) && SameCentres(3) && SameCentres(4) {}
  lemma CentresFrom5() ensures SameCentres(5) && SameCentres(6) && SameCentres(7) {}
  lemma CentresFrom8() ensures SameCentres(8) && SameCentres(9) && SameCentres(10) {}
  lemma CentresFrom11() ensures SameCentres(11) && SameCentres(12) && SameCentres(13) {}
  lemma CentresFrom14() ensures SameCentres(14) && SameCentres(15) && SameCentres(16) {}
  lemma CentresFrom17() ensures SameCentres(17) && SameCentres(18) && SameCentres(19) && SameCentres(20) {}
  lemma CentresFrom22() ensures SameCentres(22) && SameCentres(23) && SameCentres(24) && SameCentres(25) {}
  lemma CentresFrom26() ensures SameCentres(26) && SameCentres(27) && SameCentres(28) && SameCentres(29) && SameCentres(30) {}
  lemma CentresFrom31() ensures SameCentres(31) && SameCentres(32) && SameCentres(33) && SameCentres(34) && SameCentres(35) {}
  lemma CentresFrom36() ensures SameCentres(36) && SameCentres(37) && SameCentres(38) && SameCentres(39) && SameCentres(40) {}

  lemma AllSame(ver: nat)
    requires 1 <= ver <= 40 && ver != 21
    ensures SameCentres(ver)
  {
    hide SameCentres;
    if ver < 5 { CentresFrom1(); } else if ver < 8 { CentresFrom5(); } else if ver < 11 { CentresFrom8(); } else if ver < 14 { CentresFrom11(); } else if ver < 17 { CentresFrom14(); }
    else if ver < 21 { CentresFrom17(); } else if ver < 26 { CentresFrom22(); } else if ver < 31 { CentresFrom26(); } else if ver < 36 { CentresFrom31(); } else { CentresFrom36(); }
  }

  /** For every version but 21 quirc's list is qrcodegen's. */
  lemma CentresAgree(ver: nat)
    requires 1 <= ver <= 40 && ver != 21
    ensures |APAT| == 41 && |APAT[ver]| == MAX_ALIGNMENT && Listed(APAT[ver]) == Centres(ver)
  {
    AllSame(ver);
    hide Entry;
    ListedRow(ver, APAT[ver]);
  }

  lemma ListedRow(ver: nat, apat: seq<int>)
    requires 1 <= ver <= 40 && |apat| == MAX_ALIGNMENT
    requires forall i: nat :: i < MAX_ALIGNMENT ==> apat[i] == Entry(ver, i)
    ensures Listed(apat) == Centres(ver)
  {
    hide Centre, Listed, Size;
    forall i: nat | ver >= 2 && i < ver / 7 + 2
      ensures apat[i] != 0
    {
      CentresPositive(ver, i);
    }
    ListedIs(apat, if ver == 1 then 0 else ver / 7 + 2);
  }

  lemma CentresPositive(ver: nat, i: nat)
    requires 2 <= ver <= 40 && i < ver / 7 + 2
    ensures Centre(ver, i) >= 6
  {
    hide Centre;
    EndCentres(ver);
    if ver >= 7 && i > 0 { CentresApart(ver, 0, i); }
  }

  /** For version 21 the last centre is 92 there and 94 here. */
  lemma LastCentreOf21()
    ensures |APAT| == 41 && |APAT[21]| == MAX_ALIGNMENT && Listed(APAT[21]) == [6, 28, 50, 72, 92] && Centres(21) == [6, 28, 50, 72, 94]
  {
    ListedIs([6, 28, 50, 72, 92, 0, 0], 5);
    assert Centre(21, 0) == 6 && Centre(21, 1) == 28 && Centre(21, 2) == 50 && Centre(21, 3) == 72 && Centre(21, 4) == 94;
  }

  /** What `reserved_cell` demands of a row holds of every row. */
  lemma ListedSpaced(ver: nat)
    requires 1 <= ver <= 40
    ensures |APAT| == 41 && |APAT[ver]| == MAX_ALIGNMENT && Spaced(Size(ver), Listed(APAT[ver]))
  {
    hide APAT, Listed;
    if ver == 21 {
      LastCentreOf21();
    } else {
      CentresAgree(ver);
      CentresSpaced(ver);
    }
  }

  lemma OneCellOf21()
    ensures Reserved(21, [6, 28, 50, 72, 94], Cell(96, 50)) && !Reserved(21, [6, 28, 50, 72, 92], Cell(96, 50))
  {
    var here := [6, 28, 50, 72, 94];
    assert Near(here[4], 96) && Near(here[2], 50);
  }

  /** The two agree on which cells hold no data if and only if the version is not 21. */
  lemma ReservedAgree(ver: nat)
    requires 1 <= ver <= 40
    ensures |APAT| == 41
    ensures (forall c: Cell :: In(Size(ver), c) ==> Reserved(ver, Listed(APAT[ver]), c) == Reserved(ver, Centres(ver), c)) <==> ver != 21
  {
    hide APAT, Listed, Centres, Reserved;
    if ver == 21 {
      LastCentreOf21();
      OneCellOf21();
      assert In(Size(21), Cell(96, 50));
    } else {
      CentresAgree(ver);
    }
  }
}
