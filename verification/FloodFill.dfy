/** quirc's span-based flood fill with its explicit, bounded stack of resumable frames, and the
    two callers that count a region and look for its corners. */
module FloodFill {
  import opened Region

  const WHITE: nat := 0
  const BLACK: nat := 1
  const REGION: nat := 2
  const MAX_REGIONS: nat := 65534

  /** A filled row segment, as the span callback receives it. */
  datatype Span = Span(y: int, left: int, right: int)

  /** A filled row segment whose neighbours above from left_up, and below from left_down, have
      still to be looked at. */
  datatype Frame = Frame(y: int, right: int, left_up: int, left_down: int)

  predicate Covers(span: Span, p: Point) {
    p.y == span.y && span.left <= p.x <= span.right
  }

  /** How many of the reported spans contain a pixel. */
  function Reports(spans: seq<Span>, p: Point): nat {
    if spans == [] then 0
    else Reports(spans[..|spans| - 1], p) + (if Covers(spans[|spans| - 1], p) then 1 else 0)
  }

  /** What `area_count` adds up. */
  function Area(spans: seq<Span>): int {
    if spans == [] then 0
    else Area(spans[..|spans| - 1]) + (spans[|spans| - 1].right - spans[|spans| - 1].left + 1)
  }

  // -------------------------------------------------------------------------------------
  // The state of a fill

  /** Some frame still has to look above (or below) p. */
  ghost predicate Waiting(frames: seq<Frame>, p: Point, up: bool) {
    exists k :: 0 <= k < |frames| && Waits(frames[k], p, up)
  }

  predicate Waits(f: Frame, p: Point, up: bool) {
    f.y == p.y && (if up then f.left_up else f.left_down) <= p.x <= f.right
  }

  /** Every neighbour of a filled pixel is filled too, or a frame will look at it. */
  ghost predicate Explored(s: set<Point>, filled: set<Point>, frames: seq<Frame>) {
    forall p :: p in filled ==> ExploredAt(s, filled, frames, p)
  }

  ghost predicate ExploredAt(s: set<Point>, filled: set<Point>, frames: seq<Frame>, p: Point) {
    && (Point(p.y, p.x - 1) in s ==> Point(p.y, p.x - 1) in filled)
    && (Point(p.y, p.x + 1) in s ==> Point(p.y, p.x + 1) in filled)
    && (Point(p.y - 1, p.x) in s ==> Point(p.y - 1, p.x) in filled || Waiting(frames, p, true))
    && (Point(p.y + 1, p.x) in s ==> Point(p.y + 1, p.x) in filled || Waiting(frames, p, false))
  }

  /** Frames only wait on filled pixels. */
  ghost predicate FramesFilled(filled: set<Point>, frames: seq<Frame>) {
    forall k, x :: 0 <= k < |frames| && FrameHas(frames[k], x) ==> Point(frames[k].y, x) in filled
  }

  predicate FrameHas(f: Frame, x: int) {
    x <= f.right && (f.left_up <= x || f.left_down <= x)
  }

  /** A maximal run of pixels of s. */
  ghost predicate Run(s: set<Point>, span: Span) {
    && span.left <= span.right && Row(span) <= s
    && Point(span.y, span.left - 1) !in s && Point(span.y, span.right + 1) !in s
  }

  /** In rows next to each other, with a column in common. */
  predicate Touching(a: Span, b: Span) {
    (a.y == b.y + 1 || b.y == a.y + 1) && a.left <= b.right && b.left <= a.right
  }

  /** Different reported runs, the first one through the seed, each touching the one before it. */
  ghost predicate Chain(s: set<Point>, seed: Point, spans: seq<Span>, chain: seq<Span>) {
    && (forall k :: 0 <= k < |chain| ==> chain[k] in spans && Run(s, chain[k]))
    && (forall j, k :: 0 <= j < k < |chain| ==> chain[j] != chain[k])
    && (forall k :: 1 <= k < |chain| ==> Touching(chain[k - 1], chain[k]))
    && (chain != [] ==> Covers(chain[0], seed))
  }

  ghost predicate OnRun(f: Frame, span: Span) {
    f.y == span.y && f.right == span.right && f.left_up >= span.left && f.left_down >= span.left
  }

  /** The frames work on the runs of a chain. */
  ghost predicate OnChain(frames: seq<Frame>, chain: seq<Span>) {
    |chain| == |frames| && forall k :: 0 <= k < |frames| ==> OnRun(frames[k], chain[k])
  }

  ghost predicate Stacked(s: set<Point>, seed: Point, frames: seq<Frame>, spans: seq<Span>) {
    exists chain :: Chain(s, seed, spans, chain) && OnChain(frames, chain)
  }

  /** There is a chain of n runs. */
  ghost predicate Deep(s: set<Point>, seed: Point, spans: seq<Span>, n: nat) {
    exists chain :: Chain(s, seed, spans, chain) && |chain| == n
  }

  /** The invariant of a fill of the pixels s from a seed. */
  ghost predicate Filling(s: set<Point>, seed: Point, filled: set<Point>, frames: seq<Frame>, spans: seq<Span>) {
    && filled <= s && seed in filled
    && (forall p :: p in filled ==> Connected(s, seed, p))
    && Explored(s, filled, frames) && FramesFilled(filled, frames)
    && (forall p :: Reports(spans, p) == if p in filled then 1 else 0)
    && Area(spans) == |filled|
    && |frames| <= |spans| && Stacked(s, seed, frames, spans)
  }

  /** The pixels of a span. */
  ghost function Row(span: Span): (r: set<Point>)
    ensures forall p :: p in r <==> Covers(span, p)
  {
    set x | span.left <= x <= span.right :: Point(span.y, x)
  }

  lemma {:induction false} RowSize(span: Span)
    requires span.left <= span.right + 1
    ensures |Row(span)| == span.right - span.left + 1
    decreases span.right - span.left + 1
  {
    if span.left == span.right + 1 {
      assert Row(span) == {};
    } else {
      var less := Span(span.y, span.left, span.right - 1);
      RowSize(less);
      assert Row(span) == Row(less) + {Point(span.y, span.right)};
    }
  }

  /** A span found by walking left and right over pixels of s that are not filled yet. */
  ghost predicate NewSpan(s: set<Point>, filled: set<Point>, span: Span, x: int) {
    && span.left <= x <= span.right
    && Row(span) <= s && Row(span) !! filled
    && (Point(span.y, span.left - 1) in s ==> Point(span.y, span.left - 1) in filled)
    && (Point(span.y, span.right + 1) in s ==> Point(span.y, span.right + 1) in filled)
  }

  lemma {:induction false} SpanConnected(s: set<Point>, seed: Point, span: Span, x: int, z: int)
    requires span.left <= x <= span.right && span.left <= z <= span.right && Row(span) <= s
    requires Connected(s, seed, Point(span.y, x))
    ensures Connected(s, seed, Point(span.y, z))
    decreases if x < z then z - x else x - z
  {
    var p := Point(span.y, z);
    if z < x {
      SpanConnected(s, seed, span, x, z + 1);
      assert p in Row(span);
      ConnectedStep(s, seed, Point(span.y, z + 1), p);
    } else if z > x {
      SpanConnected(s, seed, span, x, z - 1);
      assert p in Row(span);
      ConnectedStep(s, seed, Point(span.y, z - 1), p);
    }
  }

  ghost function FrameOf(span: Span): Frame {
    Frame(span.y, span.right, span.left, span.left)
  }

  lemma StillWaiting(frames: seq<Frame>, f: Frame, p: Point, up: bool)
    ensures Waiting(frames, p, up) ==> Waiting(frames + [f], p, up)
  {
    if Waiting(frames, p, up) {
      var k :| 0 <= k < |frames| && Waits(frames[k], p, up);
      assert Waits((frames + [f])[k], p, up);
    }
  }

  lemma PushExplored(s: set<Point>, filled: set<Point>, frames: seq<Frame>, span: Span, x: int)
    requires Explored(s, filled, frames) && NewSpan(s, filled, span, x)
    ensures Explored(s, filled + Row(span), frames + [FrameOf(span)])
  {
    hide Waiting;
    forall p | p in filled + Row(span)
      ensures ExploredAt(s, filled + Row(span), frames + [FrameOf(span)], p)
    {
      if p in filled {
        assert ExploredAt(s, filled, frames, p);
        StillWaiting(frames, FrameOf(span), p, true);
        StillWaiting(frames, FrameOf(span), p, false);
      } else {
        TopWaits(frames, FrameOf(span), p, true);
        TopWaits(frames, FrameOf(span), p, false);
      }
    }
  }

  lemma TopWaits(frames: seq<Frame>, f: Frame, p: Point, up: bool)
    requires Waits(f, p, up)
    ensures Waiting(frames + [f], p, up)
  {
    assert Waits((frames + [f])[|frames|], p, up);
  }

  lemma PushFramesFilled(filled: set<Point>, frames: seq<Frame>, span: Span)
    requires FramesFilled(filled, frames)
    ensures FramesFilled(filled + Row(span), frames + [FrameOf(span)])
  {
    var filled', frames' := filled + Row(span), frames + [FrameOf(span)];
    forall k, x | 0 <= k < |frames'| && FrameHas(frames'[k], x)
      ensures Point(frames'[k].y, x) in filled'
    {
      if k == |frames| {
        assert Covers(span, Point(span.y, x));
      } else {
        assert FrameHas(frames[k], x);
      }
    }
  }

  lemma Smaller<T>(a: set<T>, b: set<T>)
    requires a < b
    ensures |a| < |b|
  {
    assert b == a + (b - a) && |b - a| > 0;
  }

  lemma PushSizes(s: set<Point>, filled: set<Point>, span: Span, x: int)
    requires NewSpan(s, filled, span, x)
    ensures |filled + Row(span)| == |filled| + (span.right - span.left + 1)
    ensures |s - (filled + Row(span))| < |s - filled|
  {
    RowSize(span);
    assert Covers(span, Point(span.y, x));
    assert Point(span.y, x) in s - filled;
    Smaller(s - (filled + Row(span)), s - filled);
  }

  lemma {:induction false} ReportedOnce(spans: seq<Span>, span: Span, p: Point)
    requires span in spans && Covers(span, p)
    ensures Reports(spans, p) >= 1
  {
    var n := |spans| - 1;
    if spans[n] != span {
      assert spans == spans[..n] + [spans[n]];
      ReportedOnce(spans[..n], span, p);
    }
  }

  lemma BesideFilled(s: set<Point>, filled: set<Point>, frames: seq<Frame>, p: Point, q: Point)
    requires Explored(s, filled, frames) && p in filled && q in s && q.y == p.y && (q.x == p.x - 1 || q.x == p.x + 1)
    ensures q in filled
  {
    assert ExploredAt(s, filled, frames, p);
  }

  /** A new span is a maximal run: the filled pixels are whole runs. */
  lemma NewSpanIsRun(s: set<Point>, filled: set<Point>, frames: seq<Frame>, span: Span, x: int)
    requires NewSpan(s, filled, span, x) && Explored(s, filled, frames)
    ensures Run(s, span)
  {
    hide Waiting;
    var l, r := Point(span.y, span.left - 1), Point(span.y, span.right + 1);
    assert Covers(span, Point(span.y, span.left)) && Covers(span, Point(span.y, span.right));
    assert Point(span.y, span.left) in Row(span) && Point(span.y, span.right) in Row(span);
    if l in filled { BesideFilled(s, filled, frames, l, Point(span.y, span.left)); }
    if r in filled { BesideFilled(s, filled, frames, r, Point(span.y, span.right)); }
  }

  lemma PushChain(s: set<Point>, seed: Point, frames: seq<Frame>, spans: seq<Span>, chain: seq<Span>, span: Span, x: int)
    requires Chain(s, seed, spans, chain) && OnChain(frames, chain) && Run(s, span) && span !in spans
    requires frames != [] && span.left <= x <= span.right
    requires var f := frames[|frames| - 1]; FrameHas(f, x) && (span.y == f.y - 1 || span.y == f.y + 1)
    ensures Chain(s, seed, spans + [span], chain + [span]) && OnChain(frames + [FrameOf(span)], chain + [span])
  {
    hide Run;
    var k := |frames| - 1;
    assert OnRun(frames[k], chain[k]);
    assert Touching(chain[k], span);
  }

  lemma PushStacked(s: set<Point>, seed: Point, frames: seq<Frame>, spans: seq<Span>, span: Span, x: int)
    requires Stacked(s, seed, frames, spans) && Run(s, span) && span !in spans
    requires frames != [] && span.left <= x <= span.right
    requires var f := frames[|frames| - 1]; FrameHas(f, x) && (span.y == f.y - 1 || span.y == f.y + 1)
    ensures Stacked(s, seed, frames + [FrameOf(span)], spans + [span])
  {
    hide Chain, OnChain, Run;
    var chain :| Chain(s, seed, spans, chain) && OnChain(frames, chain);
    PushChain(s, seed, frames, spans, chain, span, x);
  }

  lemma SkipStacked(s: set<Point>, seed: Point, frames: seq<Frame>, spans: seq<Span>, up: bool)
    requires Stacked(s, seed, frames, spans) && frames != []
    ensures var k := |frames| - 1; Stacked(s, seed, frames[k := Moved(frames[k], up)], spans)
  {
    hide Chain;
    var chain :| Chain(s, seed, spans, chain) && OnChain(frames, chain);
    var k := |frames| - 1;
    assert OnRun(frames[k], chain[k]);
    assert OnChain(frames[k := Moved(frames[k], up)], chain);
  }

  lemma PopStacked(s: set<Point>, seed: Point, frames: seq<Frame>, spans: seq<Span>)
    requires Stacked(s, seed, frames, spans) && frames != []
    ensures Stacked(s, seed, frames[..|frames| - 1], spans)
  {
    hide Run;
    var chain :| Chain(s, seed, spans, chain) && OnChain(frames, chain);
    var k := |frames| - 1;
    assert Chain(s, seed, spans, chain[..k]) && OnChain(frames[..k], chain[..k]);
  }

  /** The stack is as high as a chain is long. */
  lemma StackIsDeep(s: set<Point>, seed: Point, frames: seq<Frame>, spans: seq<Span>)
    requires Stacked(s, seed, frames, spans)
    ensures Deep(s, seed, spans, |frames|)
  {
    hide Chain;
  }

  /** Filling a new span and pushing its frame. */
  lemma Push(s: set<Point>, seed: Point, filled: set<Point>, frames: seq<Frame>, spans: seq<Span>, span: Span, x: int)
    requires Filling(s, seed, filled, frames, spans) && NewSpan(s, filled, span, x)
    requires Connected(s, seed, Point(span.y, x)) && frames != []
    requires var f := frames[|frames| - 1]; FrameHas(f, x) && (span.y == f.y - 1 || span.y == f.y + 1)
    ensures Filling(s, seed, filled + Row(span), frames + [FrameOf(span)], spans + [span])
    ensures |s - (filled + Row(span))| < |s - filled|
  {
    hide Connected, Explored, FramesFilled, Stacked, Run;
    NewSpanIsRun(s, filled, frames, span, x);
    assert Covers(span, Point(span.y, x));
    if span in spans { ReportedOnce(spans, span, Point(span.y, x)); }
    PushStacked(s, seed, frames, spans, span, x);
    assert (spans + [span])[..|spans|] == spans;
    forall p | p in Row(span)
      ensures Connected(s, seed, p)
    {
      SpanConnected(s, seed, span, x, p.x);
    }
    PushExplored(s, filled, frames, span, x);
    PushFramesFilled(filled, frames, span);
    PushSizes(s, filled, span, x);
  }

  ghost function Moved(f: Frame, up: bool): Frame {
    if up then f.(left_up := f.left_up + 1) else f.(left_down := f.left_down + 1)
  }

  ghost function Left(f: Frame, up: bool): int {
    if up then f.left_up else f.left_down
  }

  function Beside(p: Point, up: bool): Point {
    Point(if up then p.y - 1 else p.y + 1, p.x)
  }

  /** Moving on from a pixel whose neighbour needs no filling. */
  lemma Skip(s: set<Point>, filled: set<Point>, frames: seq<Frame>, up: bool)
    requires Explored(s, filled, frames) && FramesFilled(filled, frames) && frames != []
    requires var f := frames[|frames| - 1];
      Left(f, up) <= f.right && Beside(Point(f.y, Left(f, up)), up) !in s - filled
    ensures var k := |frames| - 1; Explored(s, filled, frames[k := Moved(frames[k], up)])
    ensures var k := |frames| - 1; FramesFilled(filled, frames[k := Moved(frames[k], up)])
  {
    var k := |frames| - 1;
    var frames' := frames[k := Moved(frames[k], up)];
    forall p | p in filled
      ensures ExploredAt(s, filled, frames', p)
    {
      assert ExploredAt(s, filled, frames, p);
      SkipWaiting(frames, p, up, up);
      SkipWaiting(frames, p, up, !up);
    }
    forall i, x | 0 <= i < |frames'| && FrameHas(frames'[i], x)
      ensures Point(frames'[i].y, x) in filled
    {
      assert FrameHas(frames[i], x);
    }
  }

  /** Only the pixel moved on from may stop waiting. */
  lemma SkipWaiting(frames: seq<Frame>, p: Point, up: bool, side: bool)
    requires frames != []
    ensures var k := |frames| - 1;
      Waiting(frames, p, side) ==>
        Waiting(frames[k := Moved(frames[k], up)], p, side) || (side == up && p == Point(frames[k].y, Left(frames[k], up)))
  {
    var k := |frames| - 1;
    if Waiting(frames, p, side) {
      var i :| 0 <= i < |frames| && Waits(frames[i], p, side);
      var frames' := frames[k := Moved(frames[k], up)];
      if i == k && side == up && p.x == Left(frames[k], up) {
      } else {
        assert Waits(frames'[i], p, side);
      }
    }
  }

  /** Dropping a frame that has nothing left to look at. */
  lemma Pop(s: set<Point>, filled: set<Point>, frames: seq<Frame>)
    requires Explored(s, filled, frames) && FramesFilled(filled, frames) && frames != []
    requires var f := frames[|frames| - 1];
      && (f.left_up > f.right || forall p :: p in s ==> p.y != f.y - 1)
      && (f.left_down > f.right || forall p :: p in s ==> p.y != f.y + 1)
    ensures Explored(s, filled, frames[..|frames| - 1]) && FramesFilled(filled, frames[..|frames| - 1])
  {
    var k := |frames| - 1;
    forall p | p in filled
      ensures ExploredAt(s, filled, frames[..k], p)
    {
      assert ExploredAt(s, filled, frames, p);
      PopWaiting(frames, p, true);
      PopWaiting(frames, p, false);
    }
    forall i, x | 0 <= i < k && FrameHas(frames[..k][i], x)
      ensures Point(frames[..k][i].y, x) in filled
    {
      assert FrameHas(frames[i], x);
    }
  }

  lemma PopWaiting(frames: seq<Frame>, p: Point, up: bool)
    requires frames != []
    ensures var k := |frames| - 1;
      Waiting(frames, p, up) ==> Waiting(frames[..k], p, up) || Waits(frames[k], p, up)
  {
    if Waiting(frames, p, up) {
      var i :| 0 <= i < |frames| && Waits(frames[i], p, up);
      if i < |frames| - 1 { assert Waits(frames[..|frames| - 1][i], p, up); }
    }
  }

  /** With no frame left the whole component is filled. */
  lemma Exhausted(s: set<Point>, seed: Point, filled: set<Point>, spans: seq<Span>)
    requires Filling(s, seed, filled, [], spans)
    ensures filled == Component(s, seed)
  {
    forall p, q | p in filled && q in s && Adjacent(p, q)
      ensures q in filled
    {
      assert ExploredAt(s, filled, [], p);
    }
    forall p | Connected(s, seed, p)
      ensures p in filled
    {
      ConnectedStaysIn(s, filled, seed, p);
    }
  }

  // -------------------------------------------------------------------------------------
  // Images

  type Image = map<Point, nat>

  ghost function All(h: nat, w: nat): (r: set<Point>)
    ensures forall p :: p in r <==> 0 <= p.y < h && 0 <= p.x < w
  {
    set y, x | 0 <= y < h && 0 <= x < w :: Point(y, x)
  }

  ghost function Of(img: Image, v: nat): (r: set<Point>)
    ensures forall p :: p in r <==> p in img && img[p] == v
  {
    set p | p in img && img[p] == v
  }

  ghost function Paint(img: Image, ps: set<Point>, v: nat): (r: Image)
    ensures r.Keys == img.Keys && forall p :: p in img ==> r[p] == if p in ps then v else img[p]
  {
    map p | p in img :: if p in ps then v else img[p]
  }

  lemma PaintTwice(img: Image, a: set<Point>, b: set<Point>, v: nat)
    ensures Paint(Paint(img, a, v), b, v) == Paint(img, a + b, v)
  {
  }

  lemma PaintOf(img: Image, ps: set<Point>, from: nat, to: nat)
    requires from != to && ps <= Of(img, from)
    ensures Of(Paint(img, ps, to), from) == Of(img, from) - ps
    ensures Of(Paint(img, ps, to), to) == Of(img, to) + ps
  {
  }

  /** The part of a frame that scanning on one side moves. */
  ghost predicate OnlyMoved(f: Frame, f': Frame, up: bool) {
    f'.y == f.y && f'.right == f.right && (if up then f'.left_down == f.left_down else f'.left_up == f.left_up)
  }

  class Quirc {
    const w: nat
    const h: nat
    const pixels: array2<nat>
    const vars: array<Frame>

    ghost predicate Shape() {
      pixels.Length0 == h && pixels.Length1 == w && vars.Length >= 1
    }

    ghost function Pixels(): (r: Image)
      requires Shape()
      reads pixels
      ensures forall p :: p in r <==> 0 <= p.y < h && 0 <= p.x < w
      ensures forall p :: p in r ==> r[p] == pixels[p.y, p.x]
    {
      map p | p in All(h, w) :: pixels[p.y, p.x]
    }

    /** The longest run of `from` around (x, y). */
    method Extent(x: int, y: int, from: nat) returns (left: int, right: int)
      requires Shape() && 0 <= y < h && 0 <= x < w && pixels[y, x] == from
      ensures 0 <= left <= x <= right < w && forall j :: left <= j <= right ==> pixels[y, j] == from
      ensures left > 0 ==> pixels[y, left - 1] != from
      ensures right < w - 1 ==> pixels[y, right + 1] != from
    {
      left, right := x, x;
      while left > 0 && pixels[y, left - 1] == from
        invariant 0 <= left <= x
        invariant forall j :: left <= j <= x ==> pixels[y, j] == from
      {
        left := left - 1;
      }
      while right < w - 1 && pixels[y, right + 1] == from
        invariant x <= right < w
        invariant forall j :: left <= j <= right ==> pixels[y, j] == from
      {
        right := right + 1;
      }
    }

    method PaintRow(y: int, left: int, right: int, to: nat)
      requires Shape() && 0 <= y < h && 0 <= left <= right < w
      modifies pixels
      ensures Pixels() == Paint(old(Pixels()), Row(Span(y, left, right)), to)
    {
      for i := left to right + 1
        invariant forall p :: p in Pixels() ==>
          pixels[p.y, p.x] == if p.y == y && left <= p.x < i then to else old(pixels[p.y, p.x])
      {
        pixels[y, i] := to;
      }
    }

    /** `flood_fill_line`. */
    method FloodFillLine(x: int, y: int, from: nat, to: nat) returns (left: int, right: int)
      requires Shape() && 0 <= y < h && 0 <= x < w && pixels[y, x] == from
      modifies pixels
      ensures NewSpan(Of(old(Pixels()), from), {}, Span(y, left, right), x)
      ensures Pixels() == Paint(old(Pixels()), Row(Span(y, left, right)), to)
    {
      left, right := Extent(x, y, from);
      PaintRow(y, left, right, to);
    }

    /** A fill of the image `base` is under way, with frames 0 to top on the stack. */
    ghost predicate State(base: Image, from: nat, to: nat, seed: Point, filled: set<Point>, top: nat, spans: seq<Span>)
      requires Shape()
      reads pixels, vars
    {
      && top < vars.Length && from != to && base.Keys == All(h, w)
      && Pixels() == Paint(base, filled, to)
      && Filling(Of(base, from), seed, filled, vars[..top + 1], spans)
    }

    /** What the top frame is about to look at. */
    lemma TopPixel(base: Image, from: nat, to: nat, seed: Point, filled: set<Point>, top: nat, spans: seq<Span>, up: bool)
      requires Shape() && State(base, from, to, seed, filled, top, spans)
      requires Left(vars[top], up) <= vars[top].right
      requires if up then vars[top].y > 0 else vars[top].y < h - 1
      ensures var f, s := vars[top], Of(base, from);
        var p := Point(f.y, Left(f, up));
        && p in filled && Connected(s, seed, p)
        && 0 <= Beside(p, up).y < h && 0 <= p.x < w
        && (pixels[Beside(p, up).y, p.x] == from <==> Beside(p, up) in s - filled)
        && Of(Pixels(), from) == s - filled
    {
      hide Explored;
      var f, s := vars[top], Of(base, from);
      TopInside(s, base, h, w, filled, vars[..top + 1], up);
      PaintOf(base, filled, from, to);
      var q := Beside(Point(f.y, Left(f, up)), up);
      assert q in Pixels();
    }

    method PushVars(top: nat, f: Frame)
      requires top + 1 < vars.Length
      modifies vars
      ensures vars[..top + 2] == old(vars[..top + 1]) + [f]
    {
      vars[top + 1] := f;
      assert vars[..top + 2] == vars[..top + 1] + [vars[top + 1]];
    }

    /** Fills the run around a pixel beside the top frame and pushes it. */
    method Descend(from: nat, to: nat, top: nat, up: bool, x: int, y: int, spans: seq<Span>,
                   ghost base: Image, ghost seed: Point, ghost filled: set<Point>)
      returns (spans': seq<Span>, ghost filled': set<Point>)
      requires Shape() && State(base, from, to, seed, filled, top, spans) && top + 1 < vars.Length
      requires Left(vars[top], up) <= vars[top].right && x == Left(vars[top], up) && y == Beside(Point(vars[top].y, x), up).y
      requires if up then vars[top].y > 0 else vars[top].y < h - 1
      requires 0 <= x < w && 0 <= y < h && pixels[y, x] == from
      modifies pixels, vars
      ensures State(base, from, to, seed, filled', top + 1, spans')
      ensures |Of(base, from) - filled'| < |Of(base, from) - filled|
    {
      hide Filling, Paint, NewSpan, Connected, Row, Of, Pixels, All, Explored, FramesFilled, Reports, Area;
      ghost var s := Of(base, from);
      ghost var frames := vars[..top + 1];
      TopPixel(base, from, to, seed, filled, top, spans, up);
      var left, right := FloodFillLine(x, y, from, to);
      spans' := spans + [Span(y, left, right)];
      filled' := filled + Row(Span(y, left, right));
      PushBeside(s, seed, filled, frames, spans, Span(y, left, right), x, up);
      PaintTwice(base, filled, Row(Span(y, left, right)), to);
      PushVars(top, Frame(y, right, left, left));
    }

    /** Moves the top frame past a pixel whose neighbour needs no filling. */
    method Advance(from: nat, to: nat, top: nat, up: bool, spans: seq<Span>,
                   ghost base: Image, ghost seed: Point, ghost filled: set<Point>)
      requires Shape() && State(base, from, to, seed, filled, top, spans)
      requires Left(vars[top], up) <= vars[top].right
      requires Beside(Point(vars[top].y, Left(vars[top], up)), up) !in Of(base, from) - filled
      modifies vars
      ensures State(base, from, to, seed, filled, top, spans) && vars[top] == Moved(old(vars[top]), up)
    {
      hide Filling, Paint;
      SkipFilling(Of(base, from), seed, filled, vars[..top + 1], spans, up);
      ghost var frames := vars[..top + 1];
      var f := vars[top];
      vars[top] := if up then f.(left_up := f.left_up + 1) else f.(left_down := f.left_down + 1);
      assert vars[..top + 1] == frames[top := Moved(f, up)];
    }

    /** `flood_fill_call_next`: looks on one side of the top frame for a pixel to fill from, and
        fills and pushes its row. */
    method CallNext(from: nat, to: nat, top: nat, up: bool, spans: seq<Span>,
                    ghost base: Image, ghost seed: Point, ghost filled: set<Point>)
      returns (next: bool, spans': seq<Span>, ghost filled': set<Point>)
      requires Shape() && State(base, from, to, seed, filled, top, spans) && top + 1 < vars.Length
      requires if up then vars[top].y > 0 else vars[top].y < h - 1
      modifies pixels, vars
      ensures State(base, from, to, seed, filled', if next then top + 1 else top, spans')
      ensures next ==> |Of(base, from) - filled'| < |Of(base, from) - filled|
      ensures !next ==> filled' == filled && OnlyMoved(old(vars[top]), vars[top], up) && Left(vars[top], up) > vars[top].right
    {
      hide Filling, Paint, Connected;
      spans', filled' := spans, filled;
      while (if up then vars[top].left_up else vars[top].left_down) <= vars[top].right
        invariant State(base, from, to, seed, filled, top, spans)
        invariant OnlyMoved(old(vars[top]), vars[top], up)
        decreases vars[top].right - Left(vars[top], up)
      {
        var x := if up then vars[top].left_up else vars[top].left_down;
        var y := if up then vars[top].y - 1 else vars[top].y + 1;
        TopPixel(base, from, to, seed, filled, top, spans, up);
        if pixels[y, x] == from {
          spans', filled' := Descend(from, to, top, up, x, y, spans, base, seed, filled);
          next := true;
          return;
        }
        Advance(from, to, top, up, spans, base, seed, filled);
      }
      next := false;
    }
  
    /** The first run, and the first frame. */
    method Start(x0: int, y0: int, from: nat, to: nat) returns (spans: seq<Span>, ghost filled: set<Point>)
      requires Shape() && 0 <= y0 < h && 0 <= x0 < w && pixels[y0, x0] == from && from != to
      modifies pixels, vars
      ensures State(old(Pixels()), from, to, Point(y0, x0), filled, 0, spans)
    {
      hide Filling, Paint, NewSpan, Connected, Row, Pixels;
      ghost var img := Pixels();
      FirstPoint(x0, y0, from);
      var left, right := FloodFillLine(x0, y0, from, to);
      spans := [Span(y0, left, right)];
      filled := Row(Span(y0, left, right));
      FirstSpan(Of(img, from), Span(y0, left, right), x0);
      vars[0] := Frame(y0, right, left, left);
      assert vars[..1] == [FrameOf(Span(y0, left, right))];
    }

    lemma FirstPoint(x0: int, y0: int, from: nat)
      requires Shape() && 0 <= y0 < h && 0 <= x0 < w && pixels[y0, x0] == from
      ensures Point(y0, x0) in Of(Pixels(), from) && Pixels().Keys == All(h, w)
    {
      assert Point(y0, x0) in Pixels();
    }

    /** The top frame has nothing left on one side. */
    ghost predicate SideDone(top: nat, up: bool)
      requires top < vars.Length
      reads vars
    {
      var f := vars[top];
      Left(f, up) > f.right || (if up then f.y <= 0 else f.y >= h - 1)
    }

    /** Leaves the top frame. */
    lemma Leave(base: Image, from: nat, to: nat, seed: Point, filled: set<Point>, top: nat, spans: seq<Span>)
      requires Shape() && State(base, from, to, seed, filled, top, spans)
      requires SideDone(top, true) && SideDone(top, false)
      ensures top < vars.Length && Pixels() == Paint(base, filled, to)
      ensures if top > 0 then State(base, from, to, seed, filled, top - 1, spans)
        else Exact(Component(Of(base, from), seed), filled, spans, true) && seed in filled
    {
      hide Explored, FramesFilled, Connected, Component, Exact, Stacked;
      assert vars[..top + 1][..top] == vars[..top];
      Pop(Of(base, from), filled, vars[..top + 1]);
      PopStacked(Of(base, from), seed, vars[..top + 1], spans);
      if top == 0 {
        Finished(Of(base, from), seed, filled, vars[..top], spans);
      }
    }

    /** Stops at the last frame. */
    lemma Cut(base: Image, from: nat, to: nat, seed: Point, filled: set<Point>, top: nat, spans: seq<Span>)
      requires Shape() && State(base, from, to, seed, filled, top, spans)
      ensures Exact(Component(Of(base, from), seed), filled, spans, false) && top + 1 <= |spans| && seed in filled
      ensures Pixels() == Paint(base, filled, to) && Deep(Of(base, from), seed, spans, top + 1)
    {
      hide Explored, FramesFilled, Stacked, Deep;
      StackIsDeep(Of(base, from), seed, vars[..top + 1], spans);
    }

    /** Looks above and then below the top frame. */
    method Visit(from: nat, to: nat, top: nat, spans: seq<Span>, ghost base: Image, ghost seed: Point, ghost filled: set<Point>)
      returns (next: bool, spans': seq<Span>, ghost filled': set<Point>)
      requires Shape() && State(base, from, to, seed, filled, top, spans) && top + 1 < vars.Length
      modifies pixels, vars
      ensures State(base, from, to, seed, filled', if next then top + 1 else top, spans')
      ensures next ==> |Of(base, from) - filled'| < |Of(base, from) - filled|
      ensures !next ==> filled' == filled && SideDone(top, true) && SideDone(top, false)
    {
      hide Filling, Paint, Of;
      spans', filled' := spans, filled;
      if vars[top].y > 0 {
        next, spans', filled' := CallNext(from, to, top, true, spans, base, seed, filled);
        if next {
          return;
        }
      }
      if vars[top].y < h - 1 {
        next, spans', filled' := CallNext(from, to, top, false, spans', base, seed, filled');
        if next {
          return;
        }
      }
      next := false;
    }

    /** `flood_fill_seed`. Without the stack limit it repaints exactly the connected component of
        the seed; the limit can only stop it when there is a chain of as many touching runs as frames. */
    method FloodFillSeed(x0: int, y0: int, from: nat, to: nat)
      returns (spans: seq<Span>, ghost filled: set<Point>, ghost complete: bool)
      requires Shape() && 0 <= y0 < h && 0 <= x0 < w && pixels[y0, x0] == from && from != to
      modifies pixels, vars
      ensures Pixels() == Paint(old(Pixels()), filled, to)
      ensures Exact(Component(Of(old(Pixels()), from), Point(y0, x0)), filled, spans, complete)
      ensures Point(y0, x0) in filled
      ensures !complete ==> |spans| >= vars.Length && Deep(Of(old(Pixels()), from), Point(y0, x0), spans, vars.Length)
    {
      hide Filling, Paint, Of, Component, Pixels, Exact, SideDone, Deep, State;
      ghost var base, seed := Pixels(), Point(y0, x0);
      spans, filled := Start(x0, y0, from, to);
      var top := 0;
      complete := true;
      while true
        invariant State(base, from, to, seed, filled, top, spans) && complete && top < vars.Length
        decreases |Of(base, from) - filled|, top
      {
        if top == vars.Length - 1 {
          // out of stack
          complete := false;
          Cut(base, from, to, seed, filled, top, spans);
          break;
        }
        var next;
        next, spans, filled := Visit(from, to, top, spans, base, seed, filled);
        if next {
          top := top + 1;
          continue;
        }
        Leave(base, from, to, seed, filled, top, spans);
        if top > 0 {
          top := top - 1;
          continue;
        }
        break;
      }
    }
  
    /** `region_code`: the region a pixel belongs to, claiming and counting a new one for a
        black pixel. */
    method RegionCode(regions: RegionTable, x: int, y: int)
      returns (code: int, ghost filled: set<Point>, ghost complete: bool)
      requires Shape() && regions.Valid()
      modifies pixels, vars, regions, regions.boxes
      ensures regions.Valid()
      ensures var p, img := Point(y, x), old(Pixels());
        if p !in img || img[p] == WHITE || (img[p] == BLACK && old(regions.num) == MAX_REGIONS) then
          code == -1 && Pixels() == img && regions.num == old(regions.num)
        else if img[p] >= REGION then
          code == img[p] && Pixels() == img && regions.num == old(regions.num)
        else
          && code == old(regions.num) && regions.num == code + 1
          && Pixels() == Paint(img, filled, code)
          && filled <= Component(Of(img, BLACK), p) && (complete ==> filled == Component(Of(img, BLACK), p))
          && (exists spans :: Flooded(Of(img, BLACK), p, filled, spans, complete, vars.Length))
          && regions.boxes[code] == Box(p, |filled|, -1)
    {
      filled, complete := {}, true;
      if x < 0 || y < 0 || x >= w || y >= h {
        return -1, filled, complete;
      }
      var pixel := pixels[y, x];
      if pixel >= REGION {
        return pixel, filled, complete;
      }
      if pixel == WHITE {
        return -1, filled, complete;
      }
      if regions.num >= MAX_REGIONS {
        return -1, filled, complete;
      }
      hide Component, Of, Paint, Reports, Area, Deep;
      var region := regions.num;
      regions.num := regions.num + 1;
      var spans;
      spans, filled, complete := FloodFillSeed(x, y, pixel, region);
      assert Flooded(Of(old(Pixels()), BLACK), Point(y, x), filled, spans, complete, vars.Length);
      var count := AreaCount(spans);
      regions.boxes[region] := Box(Point(y, x), count, -1);
      return region, filled, complete;
    }

    /** The two floods of `find_region_corners`, to black and back: what each of them paints, and what
        stopped one that ran out of stack. When neither did they leave the image as it was if and only if
        no black pixel touched the region. */
    method FindRegionCorners(rcode: nat, seed: Point)
      returns (first: seq<Span>, second: seq<Span>, ghost done: set<Point>, ghost back: set<Point>, ghost whole: bool, ghost whole': bool)
      requires Shape() && 0 <= seed.y < h && 0 <= seed.x < w && pixels[seed.y, seed.x] == rcode && rcode >= REGION
      modifies pixels, vars
      ensures Pixels() == Paint(Paint(old(Pixels()), done, BLACK), back, rcode)
      ensures Flooded(Of(old(Pixels()), rcode), seed, done, first, whole, vars.Length)
      ensures Flooded(Of(Paint(old(Pixels()), done, BLACK), BLACK), seed, back, second, whole', vars.Length)
      ensures whole && whole' ==> var region := Component(Of(old(Pixels()), rcode), seed);
        (Pixels() == old(Pixels())) == !Touches(region, Of(old(Pixels()), BLACK))
      ensures !(whole && whole') ==> |first| >= vars.Length || |second| >= vars.Length
    {
      hide Component, Of, Paint, Reports, Area, Deep;
      ghost var img := Pixels();
      FirstPoint(seed.x, seed.y, rcode);
      first, done, whole := FloodFillSeed(seed.x, seed.y, rcode, BLACK);
      SeedPainted(img, rcode, seed, done, first, whole);
      second, back, whole' := FloodFillSeed(seed.x, seed.y, BLACK, rcode);
      if whole && whole' {
        ThereAndBack(img, rcode, seed);
      }
    }
  }

  /** What one flood did: exactly the component, or part of it because a chain of n runs filled the
      stack. */
  ghost predicate Flooded(s: set<Point>, seed: Point, filled: set<Point>, spans: seq<Span>, whole: bool, n: nat) {
    Exact(Component(s, seed), filled, spans, whole) && seed in filled && (!whole ==> Deep(s, seed, spans, n))
  }

  datatype Box = Box(seed: Point, count: int, capstone: int)

  /** `q->regions` and `q->num_regions`; codes start after the two pixel colours. */
  class RegionTable {
    const boxes: array<Box>
    var num: nat

    ghost predicate Valid()
      reads this
    {
      boxes.Length == MAX_REGIONS && REGION <= num <= MAX_REGIONS
    }

    constructor ()
      ensures Valid() && fresh(boxes) && num == REGION
    {
      boxes := new Box[MAX_REGIONS](_ => Box(Point(0, 0), 0, -1));
      num := REGION;
    }
  }

  /** `area_count`, called once for every span. */
  method AreaCount(spans: seq<Span>) returns (count: int)
    ensures count == Area(spans)
  {
    count := 0;
    for i := 0 to |spans|
      invariant count == Area(spans[..i])
    {
      count := count + (spans[i].right - spans[i].left + 1);
      assert spans[..i + 1][..i] == spans[..i];
    }
    assert spans[..|spans|] == spans;
  }

  lemma SeedPainted(img: Image, rcode: nat, seed: Point, done: set<Point>, spans: seq<Span>, complete: bool)
    requires seed in Of(img, rcode) && rcode != BLACK && Exact(Component(Of(img, rcode), seed), done, spans, complete)
    requires seed in done
    ensures seed in img && Paint(img, done, BLACK)[seed] == BLACK
  {
  }

  /** Filling a region black and back from the same seed. */
  lemma ThereAndBack(img: Image, rcode: nat, seed: Point)
    requires seed in Of(img, rcode) && rcode != BLACK
    ensures var region := Component(Of(img, rcode), seed);
      var black := Paint(img, region, BLACK);
      (Paint(black, Component(Of(black, BLACK), seed), rcode) == img) == !Touches(region, Of(img, BLACK))
  {
    var region, other := Component(Of(img, rcode), seed), Of(img, BLACK);
    var black := Paint(img, region, BLACK);
    forall p | p in region
      ensures p in Of(img, rcode)
    {
      ConnectedInside(Of(img, rcode), seed, p);
    }
    PaintOf(img, region, rcode, BLACK);
    var back := Component(other + region, seed);
    assert Of(black, BLACK) == other + region;
    FillBack(Of(img, rcode), other, seed);
    forall p | p in back
      ensures p in other + region
    {
      ConnectedInside(other + region, seed, p);
    }
    Undo(img, rcode, region, other, back);
  }

  /** One region pixel with a black pixel beside it: both come back as the region. */
  lemma BlackNeighbourIsTaken()
    ensures var a, b := Point(0, 0), Point(0, 1);
      var img: Image := map[a := REGION, b := BLACK];
      var black := Paint(img, Component(Of(img, REGION), a), BLACK);
      Paint(black, Component(Of(black, BLACK), a), REGION) != img
  {
    var a, b := Point(0, 0), Point(0, 1);
    var img: Image := map[a := REGION, b := BLACK];
    ThereAndBack(img, REGION, a);
    ConnectedSelf(Of(img, REGION), a);
    assert a in Component(Of(img, REGION), a) && b in Of(img, BLACK) && Adjacent(a, b);
  }

  lemma Undo(img: Image, rcode: nat, region: set<Point>, other: set<Point>, back: set<Point>)
    requires rcode != BLACK && region <= Of(img, rcode) && other == Of(img, BLACK) && back <= other + region
    ensures Paint(Paint(img, region, BLACK), back, rcode) == img <==> back == region
  {
    var result := Paint(Paint(img, region, BLACK), back, rcode);
    if back == region {
      assert result == img;
    } else if p :| p in back && p !in region {
      assert p in other && result[p] == rcode != img[p];
    } else {
      var p :| p in region && p !in back;
      assert p in Of(img, rcode) && result[p] == BLACK != img[p];
    }
  }

  /** The pixels changed are in the component, all of it unless the fill was cut short, and each
      was reported to the callback exactly once. */
  ghost predicate Exact(component: set<Point>, filled: set<Point>, spans: seq<Span>, complete: bool) {
    && filled <= component
    && (complete ==> filled == component)
    && (forall p :: Reports(spans, p) == if p in filled then 1 else 0)
    && Area(spans) == |filled|
  }

  lemma FirstSpan(s: set<Point>, span: Span, x: int)
    requires Point(span.y, x) in s && NewSpan(s, {}, span, x)
    ensures Filling(s, Point(span.y, x), Row(span), [FrameOf(span)], [span])
  {
    hide Connected, Explored, FramesFilled, Reports, Area, Stacked;
    var seed := Point(span.y, x);
    FirstStacked(s, span, x);
    ConnectedSelf(s, seed);
    assert Covers(span, seed);
    forall p | p in Row(span)
      ensures Connected(s, seed, p)
    {
      SpanConnected(s, seed, span, x, p.x);
    }
    NothingFilled(s);
    PushExplored(s, {}, [], span, x);
    PushFramesFilled({}, [], span);
    assert [] + [FrameOf(span)] == [FrameOf(span)] && {} + Row(span) == Row(span);
    RowSize(span);
    OneSpan(span);
  }

  lemma FirstStacked(s: set<Point>, span: Span, x: int)
    requires NewSpan(s, {}, span, x)
    ensures Stacked(s, Point(span.y, x), [FrameOf(span)], [span])
  {
    assert Chain(s, Point(span.y, x), [span], [span]) && OnChain([FrameOf(span)], [span]);
  }

  lemma NothingFilled(s: set<Point>)
    ensures Explored(s, {}, []) && FramesFilled({}, [])
  {
  }

  lemma OneSpan(span: Span)
    ensures Area([span]) == span.right - span.left + 1
    ensures forall p :: Reports([span], p) == if p in Row(span) then 1 else 0
  {
    assert [span][..0] == [];
  }

  lemma Finished(s: set<Point>, seed: Point, filled: set<Point>, frames: seq<Frame>, spans: seq<Span>)
    requires Filling(s, seed, filled, frames, spans) && |frames| == 0
    ensures Exact(Component(s, seed), filled, spans, true) && seed in filled
  {
    Exhausted(s, seed, filled, spans);
  }

  /** The pixel a frame is about to look from is filled, so inside the image. */
  lemma TopInside(s: set<Point>, base: Image, h: nat, w: nat, filled: set<Point>, frames: seq<Frame>, up: bool)
    requires base.Keys == All(h, w) && s <= base.Keys && filled <= s && FramesFilled(filled, frames) && frames != []
    requires var f := frames[|frames| - 1]; Left(f, up) <= f.right
    ensures var f := frames[|frames| - 1];
      Point(f.y, Left(f, up)) in filled && 0 <= f.y < h && 0 <= Left(f, up) < w
  {
    var f := frames[|frames| - 1];
    assert FrameHas(f, Left(f, up));
    assert Point(f.y, Left(f, up)) in filled;
  }

  /** A run found beside a filled pixel is a new span that connects to the seed. */
  lemma NextSpan(s: set<Point>, seed: Point, filled: set<Point>, f: Frame, span: Span, x: int, up: bool)
    requires Point(f.y, x) in filled && Connected(s, seed, Point(f.y, x))
    requires span.y == Beside(Point(f.y, x), up).y && NewSpan(s - filled, {}, span, x)
    ensures NewSpan(s, filled, span, x) && Connected(s, seed, Point(span.y, x))
  {
    assert Covers(span, Point(span.y, x));
    ConnectedStep(s, seed, Point(f.y, x), Point(span.y, x));
  }

  lemma PushBeside(s: set<Point>, seed: Point, filled: set<Point>, frames: seq<Frame>, spans: seq<Span>, span: Span, x: int, up: bool)
    requires frames != [] && Filling(s, seed, filled, frames, spans) && NewSpan(s - filled, {}, span, x)
    requires var p := Point(frames[|frames| - 1].y, x);
      p in filled && Connected(s, seed, p) && span.y == Beside(p, up).y && FrameHas(frames[|frames| - 1], x)
    ensures Filling(s, seed, filled + Row(span), frames + [FrameOf(span)], spans + [span])
    ensures |s - (filled + Row(span))| < |s - filled|
  {
    hide Filling;
    NextSpan(s, seed, filled, frames[|frames| - 1], span, x, up);
    Push(s, seed, filled, frames, spans, span, x);
  }

  lemma SkipFilling(s: set<Point>, seed: Point, filled: set<Point>, frames: seq<Frame>, spans: seq<Span>, up: bool)
    requires Filling(s, seed, filled, frames, spans) && frames != []
    requires var f := frames[|frames| - 1];
      Left(f, up) <= f.right && Beside(Point(f.y, Left(f, up)), up) !in s - filled
    ensures var k := |frames| - 1; Filling(s, seed, filled, frames[k := Moved(frames[k], up)], spans)
  {
    hide Explored, FramesFilled, Connected, Stacked;
    Skip(s, filled, frames, up);
    SkipStacked(s, seed, frames, spans, up);
  }
}
