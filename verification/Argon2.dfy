/** Argon2's memory filling: which earlier block each block refers to, and why the segments of
    a slice can be filled in any order (section 3.4 of RFC 9106). */
module Argon2 {
  import opened ModArith
  import opened Limbs

  datatype Config = Config(algorithm: u32, nb_blocks: u32, nb_passes: u32, nb_lanes: u32)

  const ARGON2_D: u32 := 0
  const ARGON2_I: u32 := 1
  const ARGON2_ID: u32 := 2

  /** The work area: nb_lanes lanes of four segments each. */
  datatype Layout = Layout(algorithm: u32, nb_lanes: u32, segment_size: u32)

  predicate Supported(c: Layout) {
    c.nb_lanes >= 1 && c.segment_size >= 2 && 4 * c.segment_size < BASE
  }

  /** What `monocypher.h` asks of the caller makes segments of at least two blocks. */
  function LayoutOf(config: Config): (c: Layout)
    requires config.nb_lanes >= 1 && config.nb_blocks >= 8 * config.nb_lanes
    ensures Supported(c)
  {
    SegmentFits(config.nb_blocks, config.nb_lanes);
    Layout(config.algorithm, config.nb_lanes, config.nb_blocks / config.nb_lanes / 4)
  }

  lemma SegmentFits(blocks: nat, lanes: nat)
    requires lanes >= 1 && blocks >= 8 * lanes
    ensures blocks / lanes / 4 >= 2 && lanes * (4 * (blocks / lanes / 4)) <= blocks && 4 * (blocks / lanes / 4) <= blocks
  {
    var q := blocks / lanes;
    assert blocks == q * lanes + blocks % lanes;
    if q < 8 { MulMono(q, 7, lanes); }
    MulMono(4 * (q / 4), q, lanes);
    MulMono(1, lanes, q);
  }

  function LaneSize(c: Layout): nat {
    4 * c.segment_size
  }

  function Total(c: Layout): nat {
    Stride(c.nb_lanes, LaneSize(c))
  }

  /** Rounding down never needs more memory than the caller gave, and leaves less than four blocks a
      lane unused: section 3.2 of RFC 9106. */
  lemma TotalFits(config: Config)
    requires config.nb_lanes >= 1 && config.nb_blocks >= 8 * config.nb_lanes
    ensures LayoutOf(config).nb_lanes == config.nb_lanes && LayoutOf(config).algorithm == config.algorithm
    ensures Total(LayoutOf(config)) <= config.nb_blocks < Total(LayoutOf(config)) + 4 * config.nb_lanes
  {
    SegmentFits(config.nb_blocks, config.nb_lanes);
    SegmentTight(config.nb_blocks, config.nb_lanes);
    StrideIsProduct(config.nb_lanes, LaneSize(LayoutOf(config)));
  }

  lemma SegmentTight(blocks: nat, lanes: nat)
    requires lanes >= 1
    ensures blocks < lanes * (4 * (blocks / lanes / 4)) + 4 * lanes
  {
    var q := blocks / lanes;
    assert blocks == q * lanes + blocks % lanes;
    MulMono(q + 1, 4 * (q / 4) + 4, lanes);
    assert (q + 1) * lanes == q * lanes + lanes;
    assert (4 * (q / 4) + 4) * lanes == lanes * (4 * (q / 4)) + 4 * lanes;
  }

  /** The place of a lane's block in the work area. */
  function Index(c: Layout, lane: nat, p: nat): nat {
    Stride(lane, LaneSize(c)) + p
  }

  lemma IndexBound(c: Layout, lane: nat, p: nat)
    requires lane < c.nb_lanes && p < LaneSize(c)
    ensures Index(c, lane, p) < Total(c)
  {
    StridesApart(lane, c.nb_lanes, LaneSize(c));
  }

  lemma IndexUnique(c: Layout, lane: nat, p: nat, lane': nat, p': nat)
    requires p < LaneSize(c) && p' < LaneSize(c) && Index(c, lane, p) == Index(c, lane', p')
    ensures lane == lane' && p == p'
  {
    if lane < lane' { StridesApart(lane, lane', LaneSize(c)); }
    if lane' < lane { StridesApart(lane', lane, LaneSize(c)); }
  }

  lemma {:induction false} LaneOf(i: nat, size: nat, lanes: nat) returns (lane: nat, p: nat)
    requires i < Stride(lanes, size)
    ensures lane < lanes && p < size && i == Stride(lane, size) + p
  {
    if i < Stride(lanes - 1, size) {
      lane, p := LaneOf(i, size, lanes - 1);
    } else {
      lane, p := lanes - 1, i - Stride(lanes - 1, size);
    }
  }

  // -------------------------------------------------------------------------------------
  // Reference blocks

  function U32(x: int): u32 {
    x % BASE
  }

  function U64(x: int): u64 {
    x % 0x1_0000_0000_0000_0000
  }

  /** The first two blocks of a lane are filled before the first pass. */
  function PassOffset(pass: nat, slice: nat): nat {
    if pass == 0 && slice == 0 then 2 else 0
  }

  /** A block that is about to be filled. */
  predicate InSegment(c: Layout, pass: nat, slice: nat, segment: nat, block: nat) {
    Supported(c) && slice < 4 && segment < c.nb_lanes && PassOffset(pass, slice) <= block < c.segment_size
  }

  /** The segment of a position and its place there. */
  lemma Quarter(p: nat, s: nat)
    requires s >= 2 && p < 4 * s
    ensures p / s < 4 && p % s < s && p / s * s + p % s == p && (p / s == 0 <==> p < s)
  {
    if p < s {
      DivModUnique(p, s, 0, p);
    } else if p < 2 * s {
      DivModUnique(p, s, 1, p - s);
    } else if p < 3 * s {
      DivModUnique(p, s, 2, p - 2 * s);
    } else {
      DivModUnique(p, s, 3, p - 3 * s);
    }
  }

  /** Every pass fills every block of a lane, the first pass all but the first two. */
  lemma EachBlockFilled(c: Layout, pass: nat, lane: nat, p: nat)
    requires Supported(c) && lane < c.nb_lanes && p < LaneSize(c)
    ensures p / c.segment_size < 4 && Position(c, p / c.segment_size, p % c.segment_size) == p
    ensures InSegment(c, pass, p / c.segment_size, lane, p % c.segment_size) <==> pass > 0 || p >= 2
  {
    hide Stride;
    Quarter(p, c.segment_size);
    StrideIsProduct(p / c.segment_size, c.segment_size);
  }

  /** The number of candidates, in 32-bit arithmetic. */
  function WindowSize(c: Layout, pass: nat, slice: nat, block: nat, same: bool): u32
    requires Supported(c)
  {
    var nb_segments := if pass == 0 then slice else 3;
    U32(Stride(nb_segments, c.segment_size) + (if same then U32(block - 1) else if block == 0 then U32(-1) else 0))
  }

  function WindowStart(c: Layout, pass: nat, slice: nat): nat
    requires Supported(c)
  {
    if pass == 0 then 0 else Stride((slice + 1) % 4, c.segment_size)
  }

  function ReferenceLane(c: Layout, pass: nat, slice: nat, segment: nat, seed: u64): nat
    requires Supported(c)
  {
    if pass == 0 && slice == 0 then segment else seed / BASE % c.nb_lanes
  }

  /** The offset of the reference block in the window: quadratically close to its end. */
  function Offset(window_size: u32, seed: u64): u64 {
    var j1 := seed % BASE;
    var x := j1 * j1 / BASE;
    var y := window_size * x / BASE;
    U64(U32(window_size - 1) - y)
  }

  /** The reference block's position in its lane. */
  function ReferencePosition(c: Layout, pass: nat, slice: nat, segment: nat, block: nat, seed: u64): nat
    requires InSegment(c, pass, slice, segment, block)
  {
    var same := ReferenceLane(c, pass, slice, segment, seed) == segment;
    U64(WindowStart(c, pass, slice) + Offset(WindowSize(c, pass, slice, block, same), seed)) % LaneSize(c)
  }

  function Position(c: Layout, slice: nat, block: nat): nat
    requires Supported(c)
  {
    Stride(slice, c.segment_size) + block
  }

  /** The block before, which for a lane's first block is the lane's last one. */
  function Previous(c: Layout, slice: nat, block: nat): nat
    requires Supported(c) && slice < 4 && block < c.segment_size
  {
    if block == 0 && slice == 0 then LaneSize(c) - 1 else Position(c, slice, block) - 1
  }

  /** The reference set of RFC 9106: the finished blocks of the last three slices, and in the
      current lane those of the current segment; without the previous block in the current
      lane, and without the last block for the first block of a segment. */
  predicate InReferenceSet(c: Layout, pass: nat, slice: nat, block: nat, same: bool, p: int)
    requires Supported(c) && slice < 4 && block < c.segment_size
  {
    && 0 <= p < LaneSize(c)
    && (if pass == 0
        then p < Position(c, slice, if same then block else 0)
        else p < Position(c, slice, if same then block else 0) || p >= Position(c, slice + 1, 0))
    && (same || block == 0 ==> p != Previous(c, slice, block))
  }

  lemma OffsetBound(w: u32, seed: u64)
    requires w >= 1
    ensures 0 <= Offset(w, seed) < w
  {
    var j1 := seed % BASE;
    SquareHigh(j1);
    ScaleHigh(w, j1 * j1 / BASE);
  }

  lemma SquareHigh(j: nat)
    requires j < BASE
    ensures 0 <= j * j / BASE < BASE
  {
    MulBounds(j, j, BASE - 1, BASE - 1);
  }

  lemma ScaleHigh(w: nat, x: nat)
    requires 1 <= w < BASE && x < BASE
    ensures 0 <= w * x / BASE < w
  {
    MulMono(x, BASE - 1, w);
    assert w * x <= w * (BASE - 1) == w * BASE - w;
    MulMono(0, x, w);
  }

  /** The window has at least one candidate, and its size did not wrap. */
  lemma WindowExact(c: Layout, pass: nat, slice: nat, segment: nat, block: nat, same: bool)
    requires InSegment(c, pass, slice, segment, block) && (PassOffset(pass, slice) == 2 ==> same)
    ensures WindowSize(c, pass, slice, block, same)
      == Stride(if pass == 0 then slice else 3, c.segment_size) + (if same then block - 1 else if block == 0 then -1 else 0)
    ensures 1 <= WindowSize(c, pass, slice, block, same) < LaneSize(c)
  {
    var nb_segments := if pass == 0 then slice else 3;
    Multiples(nb_segments, c.segment_size);
    WrapTwice(Stride(nb_segments, c.segment_size), if same then block - 1 else if block == 0 then -1 else 0);
  }

  lemma WrapTwice(a: nat, d: int)
    requires 0 <= a + d < BASE && -1 <= d < BASE
    ensures U32(a + U32(d)) == a + d && U32(d) == if d < 0 then BASE - 1 else d
  {
  }

  lemma Multiples(k: nat, s: nat)
    requires k <= 4
    ensures Stride(k, s) == if k == 0 then 0 else if k == 1 then s else if k == 2 then 2 * s else if k == 3 then 3 * s else 4 * s
  {
    StrideIsProduct(k, s);
  }

  /** The window and the segment boundaries as plain multiples of the segment size. */
  lemma WindowBounds(c: Layout, pass: nat, slice: nat, block: nat)
    requires Supported(c) && slice < 4
    ensures var s := c.segment_size;
      && LaneSize(c) == 4 * s
      && Stride(slice, s) == (if slice == 0 then 0 else if slice == 1 then s else if slice == 2 then 2 * s else 3 * s)
      && WindowStart(c, pass, slice) == (if pass == 0 || slice == 3 then 0 else Stride(slice, s) + s)
      && Position(c, slice, block) == Stride(slice, s) + block && Position(c, slice + 1, 0) == Stride(slice, s) + s
  {
    Multiples(slice, c.segment_size);
    Multiples(slice + 1, c.segment_size);
    Multiples((slice + 1) % 4, c.segment_size);
  }

  lemma Wrap(x: nat, size: nat)
    requires x < 2 * size
    ensures x % size == Folded(x, size)
  {
    DivModUnique(x, size, if x < size then 0 else 1, if x < size then x else x - size);
  }

  function Folded(x: int, size: nat): int {
    if x < size then x else x - size
  }

  lemma InsideFolded(c: Layout, pass: nat, slice: nat, segment: nat, block: nat, same: bool, z: nat)
    requires InSegment(c, pass, slice, segment, block) && (PassOffset(pass, slice) == 2 ==> same)
    requires z < WindowSize(c, pass, slice, block, same)
    ensures WindowStart(c, pass, slice) + z < 2 * LaneSize(c)
    ensures InReferenceSet(c, pass, slice, block, same, Folded(WindowStart(c, pass, slice) + z, LaneSize(c)))
  {
    hide WindowSize, WindowStart, Stride;
    WindowExact(c, pass, slice, segment, block, same);
    WindowBounds(c, pass, slice, block);
    WindowBounds(c, pass, slice, 0);
    Multiples(3, c.segment_size);
  }

  /** Every offset into the window reaches a member of the reference set ... */
  lemma WindowInside(c: Layout, pass: nat, slice: nat, segment: nat, block: nat, same: bool, z: nat)
    requires InSegment(c, pass, slice, segment, block) && (PassOffset(pass, slice) == 2 ==> same)
    requires z < WindowSize(c, pass, slice, block, same)
    ensures InReferenceSet(c, pass, slice, block, same, (WindowStart(c, pass, slice) + z) % LaneSize(c))
  {
    hide WindowSize, WindowStart, InReferenceSet;
    InsideFolded(c, pass, slice, segment, block, same, z);
    Wrap(WindowStart(c, pass, slice) + z, LaneSize(c));
  }

  /** ... and every member is reached. */
  lemma WindowCovers(c: Layout, pass: nat, slice: nat, segment: nat, block: nat, same: bool, p: nat) returns (z: nat)
    requires InSegment(c, pass, slice, segment, block) && (PassOffset(pass, slice) == 2 ==> same)
    requires InReferenceSet(c, pass, slice, block, same, p)
    ensures z < WindowSize(c, pass, slice, block, same) && p == (WindowStart(c, pass, slice) + z) % LaneSize(c)
  {
    WindowExact(c, pass, slice, segment, block, same);
    WindowBounds(c, pass, slice, block);
    var start := WindowStart(c, pass, slice);
    z := if p >= start then p - start else p + LaneSize(c) - start;
    Wrap(start + z, LaneSize(c));
  }

  lemma LaneBound(c: Layout, pass: nat, slice: nat, segment: nat, seed: u64)
    requires Supported(c) && segment < c.nb_lanes
    ensures ReferenceLane(c, pass, slice, segment, seed) < c.nb_lanes
    ensures pass == 0 && slice == 0 ==> ReferenceLane(c, pass, slice, segment, seed) == segment
  {
  }

  /** Whatever the seed, the reference block is in the reference set of its lane. */
  lemma ReferenceInSet(c: Layout, pass: nat, slice: nat, segment: nat, block: nat, seed: u64)
    requires InSegment(c, pass, slice, segment, block)
    ensures var lane := ReferenceLane(c, pass, slice, segment, seed);
      && lane < c.nb_lanes
      && InReferenceSet(c, pass, slice, block, lane == segment, ReferencePosition(c, pass, slice, segment, block, seed))
  {
    LaneBound(c, pass, slice, segment, seed);
    hide WindowSize, Stride, Offset, InReferenceSet, ReferenceLane;
    var same := ReferenceLane(c, pass, slice, segment, seed) == segment;
    WindowExact(c, pass, slice, segment, block, same);
    var w := WindowSize(c, pass, slice, block, same);
    OffsetBound(w, seed);
    WindowBounds(c, pass, slice, block);
    NoWrap(WindowStart(c, pass, slice) + Offset(w, seed));
    WindowInside(c, pass, slice, segment, block, same, Offset(w, seed));
  }

  lemma NoWrap(x: nat)
    requires x < 2 * BASE
    ensures U64(x) == x
  {
  }

  /** The positions of a lane that hold a finished block when a given block is about to be
      filled: all of them once the first pass is over. */
  predicate Filled(c: Layout, pass: nat, slice: nat, block: nat, same: bool, p: nat)
    requires Supported(c)
  {
    p < LaneSize(c) && (pass == 0 ==> p < Position(c, slice, if same then block else 0))
  }

  /** A reference names a filled block that is neither the current nor the previous one, and
      in another lane it never lands in the slice being filled. */
  lemma ReferenceSafe(c: Layout, pass: nat, slice: nat, segment: nat, block: nat, seed: u64)
    requires InSegment(c, pass, slice, segment, block)
    ensures var lane, p := ReferenceLane(c, pass, slice, segment, seed), ReferencePosition(c, pass, slice, segment, block, seed);
      && lane < c.nb_lanes && p < LaneSize(c) && Index(c, lane, p) < Total(c)
      && Filled(c, pass, slice, block, lane == segment, p)
      && Index(c, lane, p) != Index(c, segment, Position(c, slice, block))
      && Index(c, lane, p) != Index(c, segment, Previous(c, slice, block))
      && (lane != segment ==> p < Position(c, slice, 0) || p >= Position(c, slice + 1, 0))
  {
    var lane, p := ReferenceLane(c, pass, slice, segment, seed), ReferencePosition(c, pass, slice, segment, block, seed);
    ReferenceInSet(c, pass, slice, segment, block, seed);
    WindowBounds(c, pass, slice, block);
    IndexBound(c, lane, p);
    if Index(c, lane, p) == Index(c, segment, Position(c, slice, block)) {
      IndexUnique(c, lane, p, segment, Position(c, slice, block));
    }
    if Index(c, lane, p) == Index(c, segment, Previous(c, slice, block)) {
      IndexUnique(c, lane, p, segment, Previous(c, slice, block));
    }
  }

  // -------------------------------------------------------------------------------------
  // Which member of the reference set it is

  ghost function ReferenceSet(c: Layout, pass: nat, slice: nat, block: nat, same: bool): (s: set<int>)
    requires Supported(c) && slice < 4 && block < c.segment_size
    ensures forall p :: p in s <==> InReferenceSet(c, pass, slice, block, same, p)
  {
    set p | 0 <= p < LaneSize(c) && InReferenceSet(c, pass, slice, block, same, p)
  }

  /** How many steps backwards around the lane lead from the block about to be filled to a position. */
  function Age(c: Layout, slice: nat, block: nat, p: int): int
    requires Supported(c)
  {
    var current := slice * c.segment_size + block;
    if p < current then current - p else current + 4 * c.segment_size - p
  }

  /** The members filled more recently than p. */
  ghost function Newer(c: Layout, pass: nat, slice: nat, block: nat, same: bool, p: int): set<int>
    requires Supported(c) && slice < 4 && block < c.segment_size
  {
    set q | q in ReferenceSet(c, pass, slice, block, same) && Age(c, slice, block, q) < Age(c, slice, block, p)
  }

  function WindowAt(c: Layout, pass: nat, slice: nat, z: nat): int
    requires Supported(c)
  {
    Folded(WindowStart(c, pass, slice) + z, LaneSize(c))
  }

  /** Along the window the members get newer one step at a time. */
  lemma WindowAges(c: Layout, pass: nat, slice: nat, segment: nat, block: nat, same: bool, z: nat)
    requires InSegment(c, pass, slice, segment, block) && (PassOffset(pass, slice) == 2 ==> same)
    requires z < WindowSize(c, pass, slice, block, same)
    ensures Age(c, slice, block, WindowAt(c, pass, slice, z)) == block + (if pass == 0 then slice else 3) * c.segment_size - z
  {
    hide WindowSize, WindowStart, Stride;
    WindowExact(c, pass, slice, segment, block, same);
    WindowBounds(c, pass, slice, block);
    Multiples(3, c.segment_size);
  }

  /** The positions at offsets a to b - 1. */
  ghost function Reached(c: Layout, pass: nat, slice: nat, a: nat, b: nat): set<int>
    requires Supported(c)
    decreases b
  {
    if b <= a then {} else Reached(c, pass, slice, a, b - 1) + {WindowAt(c, pass, slice, b - 1)}
  }

  lemma {:induction false} ReachedHas(c: Layout, pass: nat, slice: nat, a: nat, b: nat, p: int)
    requires Supported(c)
    ensures p in Reached(c, pass, slice, a, b) <==> exists z :: a <= z < b && p == WindowAt(c, pass, slice, z)
    decreases b
  {
    hide WindowAt;
    if a < b { ReachedHas(c, pass, slice, a, b - 1, p); }
  }

  lemma {:induction false} ReachedSize(c: Layout, pass: nat, slice: nat, segment: nat, block: nat, same: bool, a: nat, b: nat)
    requires InSegment(c, pass, slice, segment, block) && (PassOffset(pass, slice) == 2 ==> same)
    requires a <= b <= WindowSize(c, pass, slice, block, same)
    ensures |Reached(c, pass, slice, a, b)| == b - a
    decreases b
  {
    hide WindowAt, WindowSize, Age;
    if a < b {
      ReachedSize(c, pass, slice, segment, block, same, a, b - 1);
      ReachedHas(c, pass, slice, a, b - 1, WindowAt(c, pass, slice, b - 1));
      WindowAges(c, pass, slice, segment, block, same, b - 1);
      if WindowAt(c, pass, slice, b - 1) in Reached(c, pass, slice, a, b - 1) {
        var z :| a <= z < b - 1 && WindowAt(c, pass, slice, b - 1) == WindowAt(c, pass, slice, z);
        WindowAges(c, pass, slice, segment, block, same, z);
      }
    }
  }

  lemma MemberBounds(c: Layout, pass: nat, slice: nat, block: nat, same: bool, p: int)
    requires Supported(c) && slice < 4 && block < c.segment_size
    ensures InReferenceSet(c, pass, slice, block, same, p) ==> 0 <= p < LaneSize(c)
  {
  }

  lemma MemberReached(c: Layout, pass: nat, slice: nat, segment: nat, block: nat, same: bool, p: int)
    requires InSegment(c, pass, slice, segment, block) && (PassOffset(pass, slice) == 2 ==> same)
    ensures InReferenceSet(c, pass, slice, block, same, p)
      <==> exists z :: 0 <= z < WindowSize(c, pass, slice, block, same) && p == WindowAt(c, pass, slice, z)
  {
    MemberBounds(c, pass, slice, block, same, p);
    hide WindowSize, InReferenceSet, WindowStart;
    if InReferenceSet(c, pass, slice, block, same, p) {
      var z := WindowCovers(c, pass, slice, segment, block, same, p);
      InsideFolded(c, pass, slice, segment, block, same, z);
      Wrap(WindowStart(c, pass, slice) + z, LaneSize(c));
      assert p == WindowAt(c, pass, slice, z);
    }
    if z :| 0 <= z < WindowSize(c, pass, slice, block, same) && p == WindowAt(c, pass, slice, z) {
      InsideFolded(c, pass, slice, segment, block, same, z);
    }
  }

  lemma WholeWindow(c: Layout, pass: nat, slice: nat, segment: nat, block: nat, same: bool)
    requires InSegment(c, pass, slice, segment, block) && (PassOffset(pass, slice) == 2 ==> same)
    ensures |ReferenceSet(c, pass, slice, block, same)| == WindowSize(c, pass, slice, block, same)
  {
    hide WindowSize, InReferenceSet, WindowAt, Reached;
    var w := WindowSize(c, pass, slice, block, same);
    WindowExact(c, pass, slice, segment, block, same);
    ReachedSize(c, pass, slice, segment, block, same, 0, w);
    forall p: int
      ensures p in ReferenceSet(c, pass, slice, block, same) <==> p in Reached(c, pass, slice, 0, w)
    {
      ReachedHas(c, pass, slice, 0, w, p);
      MemberReached(c, pass, slice, segment, block, same, p);
    }
    assert ReferenceSet(c, pass, slice, block, same) == Reached(c, pass, slice, 0, w);
  }

  /** Behind an offset come the newer members. */
  lemma NewerBehind(c: Layout, pass: nat, slice: nat, segment: nat, block: nat, same: bool, z: nat)
    requires InSegment(c, pass, slice, segment, block) && (PassOffset(pass, slice) == 2 ==> same)
    requires z < WindowSize(c, pass, slice, block, same)
    ensures |Newer(c, pass, slice, block, same, WindowAt(c, pass, slice, z))| == WindowSize(c, pass, slice, block, same) - 1 - z
  {
    hide WindowSize, InReferenceSet, WindowAt, Reached, Age;
    var w, p := WindowSize(c, pass, slice, block, same), WindowAt(c, pass, slice, z);
    WindowExact(c, pass, slice, segment, block, same);
    ReachedSize(c, pass, slice, segment, block, same, z + 1, w);
    WindowAges(c, pass, slice, segment, block, same, z);
    forall q: int
      ensures q in Newer(c, pass, slice, block, same, p) <==> q in Reached(c, pass, slice, z + 1, w)
    {
      ReachedHas(c, pass, slice, z + 1, w, q);
      MemberReached(c, pass, slice, segment, block, same, q);
      if q in Newer(c, pass, slice, block, same, p) {
        var y :| 0 <= y < w && q == WindowAt(c, pass, slice, y);
        WindowAges(c, pass, slice, segment, block, same, y);
      }
      if q in Reached(c, pass, slice, z + 1, w) {
        var y :| z + 1 <= y < w && q == WindowAt(c, pass, slice, y);
        WindowAges(c, pass, slice, segment, block, same, y);
      }
    }
    assert Newer(c, pass, slice, block, same, p) == Reached(c, pass, slice, z + 1, w);
  }

  /** Section 3.4.2 of RFC 9106, from the seed and the set alone: of the W members of the set,
      W * (J1^2 / 2^32) / 2^32 are newer than the one taken, J1 being the seed's low half; the high half
      chooses the lane, except in the first slice of the first pass. */
  lemma ReferenceRule(c: Layout, pass: nat, slice: nat, segment: nat, block: nat, seed: u64)
    requires InSegment(c, pass, slice, segment, block)
    ensures var lane, p := ReferenceLane(c, pass, slice, segment, seed), ReferencePosition(c, pass, slice, segment, block, seed);
      var j1, all := seed % 0x1_0000_0000, ReferenceSet(c, pass, slice, block, lane == segment);
      && lane == (if pass == 0 && slice == 0 then segment else seed / 0x1_0000_0000 % c.nb_lanes)
      && p in all && |Newer(c, pass, slice, block, lane == segment, p)| == |all| * (j1 * j1 / 0x1_0000_0000) / 0x1_0000_0000
  {
    ReferenceInSet(c, pass, slice, segment, block, seed);
    var same := ReferenceLane(c, pass, slice, segment, seed) == segment;
    LaneBound(c, pass, slice, segment, seed);
    hide WindowSize, InReferenceSet, Newer, Age, Stride, WindowStart;
    var w := WindowSize(c, pass, slice, block, same);
    WindowExact(c, pass, slice, segment, block, same);
    WholeWindow(c, pass, slice, segment, block, same);
    OffsetBound(w, seed);
    OffsetIs(w, seed);
    var z := Offset(w, seed);
    InsideFolded(c, pass, slice, segment, block, same, z);
    NoWrap(WindowStart(c, pass, slice) + z);
    Wrap(WindowStart(c, pass, slice) + z, LaneSize(c));
    NewerBehind(c, pass, slice, segment, block, same, z);
  }

  lemma OffsetIs(w: u32, seed: u64)
    requires w >= 1
    ensures var j1 := seed % 0x1_0000_0000; w - 1 - Offset(w, seed) == w * (j1 * j1 / 0x1_0000_0000) / 0x1_0000_0000
  {
    var j1 := seed % BASE;
    SquareHigh(j1);
    ScaleHigh(w, j1 * j1 / BASE);
  }

  /** The previous block is the newest of all, and blocks lie lane by lane and segment by segment. */
  lemma Places(c: Layout, lane: nat, slice: nat, block: nat)
    requires Supported(c) && slice < 4 && block < c.segment_size
    ensures Age(c, slice, block, Previous(c, slice, block)) == 1
    ensures Index(c, lane, Position(c, slice, block)) == lane * (4 * c.segment_size) + slice * c.segment_size + block
  {
    StrideIsProduct(lane, LaneSize(c));
    StrideIsProduct(slice, c.segment_size);
  }

  // -------------------------------------------------------------------------------------
  // Filling the memory

  /** The operations on 1 KiB blocks: `xor_block`, `g_rounds`, a word of a block, and the block
      that deterministic indexing starts from for a given pass, segment, slice and counter. */
  datatype Mixer<!B> = Mixer(xor: (B, B) -> B, rounds: B -> B, word: (B, nat) -> u64, seeded: (nat, nat, nat, nat) -> B)

  function Shuffle<B>(m: Mixer<B>, b: B): B {
    m.xor(m.rounds(b), b)
  }

  /** The deterministic indices for a block: refreshed every 128 blocks, with a fresh counter. */
  function IndexBlock<B>(m: Mixer<B>, pass: nat, slice: nat, segment: nat, block: nat): B {
    Shuffle(m, Shuffle(m, m.seeded(pass, segment, slice, 1 + block / 128)))
  }

  /** Argon2i never looks at the memory to choose a reference, Argon2id not in the first half
      of the first pass. */
  predicate ConstantTime(c: Layout, pass: nat, slice: nat) {
    c.algorithm != ARGON2_D && (c.algorithm == ARGON2_ID ==> pass == 0 && slice < 2)
  }

  lemma BlocksInLane(c: Layout, pass: nat, slice: nat, segment: nat, block: nat)
    requires InSegment(c, pass, slice, segment, block)
    ensures Position(c, slice, block) < LaneSize(c) && Previous(c, slice, block) < LaneSize(c)
    ensures Index(c, segment, Position(c, slice, block)) < Total(c) && Index(c, segment, Previous(c, slice, block)) < Total(c)
  {
    WindowBounds(c, pass, slice, block);
    IndexBound(c, segment, Position(c, slice, block));
    IndexBound(c, segment, Previous(c, slice, block));
  }

  function Seed<B>(m: Mixer<B>, c: Layout, pass: nat, slice: nat, segment: nat, block: nat, previous: B): u64 {
    if ConstantTime(c, pass, slice) then m.word(IndexBlock(m, pass, slice, segment, block), block % 128)
    else m.word(previous, 0)
  }

  /** The new contents of a block. */
  function NewBlock<B>(m: Mixer<B>, pass: nat, current: B, previous: B, reference: B): B {
    var mixed := m.xor(previous, reference);
    m.xor(if pass == 0 then mixed else m.xor(current, mixed), m.rounds(mixed))
  }

  /** The memory after one more block of a segment. */
  function Fill<B>(m: Mixer<B>, c: Layout, mem: seq<B>, pass: nat, slice: nat, segment: nat, block: nat): (r: seq<B>)
    requires InSegment(c, pass, slice, segment, block) && |mem| == Total(c)
    ensures |r| == |mem|
  {
    BlocksInLane(c, pass, slice, segment, block);
    var current := Index(c, segment, Position(c, slice, block));
    var previous := mem[Index(c, segment, Previous(c, slice, block))];
    var seed := Seed(m, c, pass, slice, segment, block, previous);
    ReferenceSafe(c, pass, slice, segment, block, seed);
    var reference := mem[Index(c, ReferenceLane(c, pass, slice, segment, seed), ReferencePosition(c, pass, slice, segment, block, seed))];
    mem[current := NewBlock(m, pass, mem[current], previous, reference)]
  }

  /** The number of blocks a pass fills in a segment of a slice. */
  function ToFill(c: Layout, pass: nat, slice: nat): nat
    requires Supported(c)
  {
    c.segment_size - PassOffset(pass, slice)
  }

  /** The memory after a lane alone has filled its first n blocks of a slice. */
  function Alone<B>(m: Mixer<B>, c: Layout, mem: seq<B>, pass: nat, slice: nat, segment: nat, n: nat): (r: seq<B>)
    requires Supported(c) && slice < 4 && segment < c.nb_lanes && n <= ToFill(c, pass, slice) && |mem| == Total(c)
    ensures |r| == |mem|
  {
    if n == 0 then mem
    else Fill(m, c, Alone(m, c, mem, pass, slice, segment, n - 1), pass, slice, segment, PassOffset(pass, slice) + n - 1)
  }

  /** A block is written at its own place only. */
  lemma FillFrame<B>(m: Mixer<B>, c: Layout, mem: seq<B>, pass: nat, slice: nat, segment: nat, block: nat, lane: nat, p: nat)
    requires InSegment(c, pass, slice, segment, block) && |mem| == Total(c) && lane < c.nb_lanes && p < LaneSize(c)
    requires lane != segment || p < Position(c, slice, 0) || p >= Position(c, slice + 1, 0)
    ensures Index(c, lane, p) < Total(c) && Fill(m, c, mem, pass, slice, segment, block)[Index(c, lane, p)] == mem[Index(c, lane, p)]
  {
    IndexBound(c, lane, p);
    BlocksInLane(c, pass, slice, segment, block);
    WindowBounds(c, pass, slice, block);
    hide Index, Stride, Seed, ReferenceLane, ReferencePosition;
    if Index(c, lane, p) == Index(c, segment, Position(c, slice, block)) {
      IndexUnique(c, lane, p, segment, Position(c, slice, block));
    }
  }

  /** A lane writes only its own segment of the slice. */
  lemma {:induction false} AloneFrame<B>(m: Mixer<B>, c: Layout, mem: seq<B>, pass: nat, slice: nat, segment: nat, n: nat, lane: nat, p: nat)
    requires Supported(c) && slice < 4 && segment < c.nb_lanes && n <= ToFill(c, pass, slice) && |mem| == Total(c)
    requires lane < c.nb_lanes && p < LaneSize(c)
    requires lane != segment || p < Position(c, slice, 0) || p >= Position(c, slice + 1, 0)
    ensures Index(c, lane, p) < Total(c)
    ensures Alone(m, c, mem, pass, slice, segment, n)[Index(c, lane, p)] == mem[Index(c, lane, p)]
  {
    hide Fill, Index, Position, Stride, LaneSize;
    IndexBound(c, lane, p);
    if n > 0 {
      AloneFrame(m, c, mem, pass, slice, segment, n - 1, lane, p);
      FillFrame(m, c, Alone(m, c, mem, pass, slice, segment, n - 1), pass, slice, segment, PassOffset(pass, slice) + n - 1, lane, p);
    }
  }

  // -------------------------------------------------------------------------------------
  // Any interleaving of the lanes

  /** How many blocks a schedule has a lane fill. */
  function Turns(schedule: seq<nat>, lane: nat): nat {
    if schedule == [] then 0
    else Turns(schedule[..|schedule| - 1], lane) + (if schedule[|schedule| - 1] == lane then 1 else 0)
  }

  /** No lane is asked for more blocks than its segment has. */
  ghost predicate Possible(c: Layout, pass: nat, slice: nat, schedule: seq<nat>)
    requires Supported(c)
  {
    && (forall k :: 0 <= k < |schedule| ==> schedule[k] < c.nb_lanes)
    && (forall lane :: 0 <= lane < c.nb_lanes ==> Turns(schedule, lane) <= ToFill(c, pass, slice))
  }

  lemma Shorter(c: Layout, pass: nat, slice: nat, schedule: seq<nat>)
    requires Supported(c) && schedule != [] && Possible(c, pass, slice, schedule)
    ensures var before, lane := schedule[..|schedule| - 1], schedule[|schedule| - 1];
      Possible(c, pass, slice, before) && lane < c.nb_lanes && Turns(before, lane) < ToFill(c, pass, slice)
  {
    var before, lane := schedule[..|schedule| - 1], schedule[|schedule| - 1];
    assert Turns(schedule, lane) == Turns(before, lane) + 1;
    forall l | 0 <= l < c.nb_lanes
      ensures Turns(before, l) <= ToFill(c, pass, slice)
    {
      assert Turns(before, l) <= Turns(schedule, l);
    }
  }

  /** The shared memory after a schedule: each turn fills the next block of a lane. */
  ghost function Run<B>(m: Mixer<B>, c: Layout, mem: seq<B>, pass: nat, slice: nat, schedule: seq<nat>): (r: seq<B>)
    requires Supported(c) && slice < 4 && |mem| == Total(c) && Possible(c, pass, slice, schedule)
    ensures |r| == |mem|
    decreases |schedule|
  {
    if schedule == [] then mem
    else
      Shorter(c, pass, slice, schedule);
      var before, lane := schedule[..|schedule| - 1], schedule[|schedule| - 1];
      Fill(m, c, Run(m, c, mem, pass, slice, before), pass, slice, lane, PassOffset(pass, slice) + Turns(before, lane))
  }

  ghost predicate SameAt<B>(c: Layout, one: seq<B>, two: seq<B>, lane: nat, p: nat)
    requires Supported(c)
  {
    var i := Index(c, lane, p);
    i < |one| && i < |two| && one[i] == two[i]
  }

  /** The positions that filling a segment may look at. */
  predicate Visible(c: Layout, slice: nat, segment: nat, lane: nat, p: nat)
    requires Supported(c)
  {
    lane < c.nb_lanes && p < LaneSize(c) && (lane == segment || p < Position(c, slice, 0) || p >= Position(c, slice + 1, 0))
  }

  ghost predicate Agree<B>(c: Layout, one: seq<B>, two: seq<B>, slice: nat, segment: nat)
    requires Supported(c)
  {
    forall lane: nat, p: nat :: Visible(c, slice, segment, lane, p) ==> SameAt(c, one, two, lane, p)
  }

  /** One block comes out the same in two memories that agree on its lane, and elsewhere
      outside the slice. */
  lemma FillAgrees<B>(m: Mixer<B>, c: Layout, one: seq<B>, two: seq<B>, pass: nat, slice: nat, segment: nat, block: nat)
    requires InSegment(c, pass, slice, segment, block) && |one| == |two| == Total(c)
    requires Agree(c, one, two, slice, segment)
    ensures forall p :: 0 <= p < LaneSize(c) ==>
      SameAt(c, Fill(m, c, one, pass, slice, segment, block), Fill(m, c, two, pass, slice, segment, block), segment, p)
  {
    BlocksInLane(c, pass, slice, segment, block);
    assert SameAt(c, one, two, segment, Previous(c, slice, block));
    assert SameAt(c, one, two, segment, Position(c, slice, block));
    var previous := one[Index(c, segment, Previous(c, slice, block))];
    var seed := Seed(m, c, pass, slice, segment, block, previous);
    ReferenceSafe(c, pass, slice, segment, block, seed);
    assert SameAt(c, one, two, ReferenceLane(c, pass, slice, segment, seed), ReferencePosition(c, pass, slice, segment, block, seed));
    forall p | 0 <= p < LaneSize(c)
      ensures SameAt(c, Fill(m, c, one, pass, slice, segment, block), Fill(m, c, two, pass, slice, segment, block), segment, p)
    {
      assert SameAt(c, one, two, segment, p);
    }
  }

  /** Under any schedule every lane's part of the memory is what that lane makes alone. */
  lemma {:induction false} RunIsAlone<B>(m: Mixer<B>, c: Layout, mem: seq<B>, pass: nat, slice: nat, schedule: seq<nat>, lane: nat, p: nat)
    requires Supported(c) && slice < 4 && |mem| == Total(c) && Possible(c, pass, slice, schedule)
    requires lane < c.nb_lanes && p < LaneSize(c)
    ensures SameAt(c, Run(m, c, mem, pass, slice, schedule), Alone(m, c, mem, pass, slice, lane, Turns(schedule, lane)), lane, p)
    decreases |schedule|
  {
    hide NewBlock, Seed, ReferencePosition, ReferenceLane, Stride, LaneSize;
    IndexBound(c, lane, p);
    if schedule != [] {
      Shorter(c, pass, slice, schedule);
      var before, l := schedule[..|schedule| - 1], schedule[|schedule| - 1];
      var n := Turns(before, l);
      var block := PassOffset(pass, slice) + n;
      var shared, alone := Run(m, c, mem, pass, slice, before), Alone(m, c, mem, pass, slice, l, n);
      if lane == l {
        forall lane': nat, p': nat | Visible(c, slice, l, lane', p')
          ensures SameAt(c, shared, alone, lane', p')
        {
          RunIsAlone(m, c, mem, pass, slice, before, lane', p');
          if lane' != l {
            AloneFrame(m, c, mem, pass, slice, lane', Turns(before, lane'), lane', p');
            AloneFrame(m, c, mem, pass, slice, l, n, lane', p');
          }
        }
        FillAgrees(m, c, shared, alone, pass, slice, l, block);
      } else {
        RunIsAlone(m, c, mem, pass, slice, before, lane, p);
        BlocksInLane(c, pass, slice, l, block);
        if Index(c, lane, p) == Index(c, l, Position(c, slice, block)) {
          IndexUnique(c, lane, p, l, Position(c, slice, block));
        }
      }
    }
  }

  /** Every lane's segment is filled. */
  ghost predicate Complete(c: Layout, pass: nat, slice: nat, schedule: seq<nat>)
    requires Supported(c)
  {
    && Possible(c, pass, slice, schedule)
    && (forall lane :: 0 <= lane < c.nb_lanes ==> Turns(schedule, lane) == ToFill(c, pass, slice))
  }

  /** However the lanes of a slice take turns, the memory ends up the same. */
  lemma AnyOrder<B>(m: Mixer<B>, c: Layout, mem: seq<B>, pass: nat, slice: nat, one: seq<nat>, two: seq<nat>)
    requires Supported(c) && slice < 4 && |mem| == Total(c)
    requires Complete(c, pass, slice, one) && Complete(c, pass, slice, two)
    ensures Run(m, c, mem, pass, slice, one) == Run(m, c, mem, pass, slice, two)
  {
    var r, r' := Run(m, c, mem, pass, slice, one), Run(m, c, mem, pass, slice, two);
    forall i | 0 <= i < |mem|
      ensures r[i] == r'[i]
    {
      var lane, p := LaneOf(i, LaneSize(c), c.nb_lanes);
      RunIsAlone(m, c, mem, pass, slice, one, lane, p);
      RunIsAlone(m, c, mem, pass, slice, two, lane, p);
      assert i == Index(c, lane, p);
    }
  }

  /** The memory after the first k lanes have filled their segments one after the other. */
  function FillLanes<B>(m: Mixer<B>, c: Layout, mem: seq<B>, pass: nat, slice: nat, k: nat): (r: seq<B>)
    requires Supported(c) && slice < 4 && k <= c.nb_lanes && |mem| == Total(c)
    ensures |r| == |mem|
  {
    if k == 0 then mem
    else Alone(m, c, FillLanes(m, c, mem, pass, slice, k - 1), pass, slice, k - 1, ToFill(c, pass, slice))
  }

  /** A schedule with n more turns of one lane. */
  function More(schedule: seq<nat>, lane: nat, n: nat): seq<nat> {
    if n == 0 then schedule else More(schedule, lane, n - 1) + [lane]
  }

  lemma {:induction false} MoreTurns(schedule: seq<nat>, lane: nat, n: nat, l: nat)
    ensures Turns(More(schedule, lane, n), l) == Turns(schedule, l) + (if l == lane then n else 0)
  {
    if n > 0 {
      MoreTurns(schedule, lane, n - 1, l);
      assert More(schedule, lane, n)[..|More(schedule, lane, n)| - 1] == More(schedule, lane, n - 1);
    }
  }

  lemma MorePossible(c: Layout, pass: nat, slice: nat, schedule: seq<nat>, lane: nat, n: nat)
    requires Supported(c) && Possible(c, pass, slice, schedule)
    requires lane < c.nb_lanes && Turns(schedule, lane) + n <= ToFill(c, pass, slice)
    ensures Possible(c, pass, slice, More(schedule, lane, n))
    decreases n
  {
    hide ToFill;
    if n > 0 {
      MorePossible(c, pass, slice, schedule, lane, n - 1);
    }
    forall l | 0 <= l < c.nb_lanes
      ensures Turns(More(schedule, lane, n), l) <= ToFill(c, pass, slice)
    {
      MoreTurns(schedule, lane, n, l);
    }
  }

  lemma {:induction false} RunMore<B>(m: Mixer<B>, c: Layout, mem: seq<B>, pass: nat, slice: nat, schedule: seq<nat>, lane: nat, n: nat)
    requires Supported(c) && slice < 4 && |mem| == Total(c) && Possible(c, pass, slice, schedule)
    requires lane < c.nb_lanes && Turns(schedule, lane) == 0 && n <= ToFill(c, pass, slice)
    ensures Possible(c, pass, slice, More(schedule, lane, n))
    ensures Run(m, c, mem, pass, slice, More(schedule, lane, n))
      == Alone(m, c, Run(m, c, mem, pass, slice, schedule), pass, slice, lane, n)
  {
    hide Fill, Stride, Total, Possible, Turns;
    MorePossible(c, pass, slice, schedule, lane, n);
    if n > 0 {
      RunMore(m, c, mem, pass, slice, schedule, lane, n - 1);
      MoreTurns(schedule, lane, n - 1, lane);
      var more := More(schedule, lane, n);
      assert more[..|more| - 1] == More(schedule, lane, n - 1) && more[|more| - 1] == lane;
    }
  }

  /** The first k lanes one after the other, as a schedule. */
  function LaneByLane(c: Layout, pass: nat, slice: nat, k: nat): seq<nat>
    requires Supported(c)
  {
    if k == 0 then [] else More(LaneByLane(c, pass, slice, k - 1), k - 1, ToFill(c, pass, slice))
  }

  lemma {:induction false} LaneByLaneTurns(c: Layout, pass: nat, slice: nat, k: nat, lane: nat)
    requires Supported(c)
    ensures Turns(LaneByLane(c, pass, slice, k), lane) == if lane < k then ToFill(c, pass, slice) else 0
  {
    hide ToFill;
    if k > 0 {
      LaneByLaneTurns(c, pass, slice, k - 1, lane);
      MoreTurns(LaneByLane(c, pass, slice, k - 1), k - 1, ToFill(c, pass, slice), lane);
    }
  }

  lemma RunNothing<B>(m: Mixer<B>, c: Layout, mem: seq<B>, pass: nat, slice: nat)
    requires Supported(c) && slice < 4 && |mem| == Total(c)
    ensures Possible(c, pass, slice, LaneByLane(c, pass, slice, 0))
    ensures Run(m, c, mem, pass, slice, LaneByLane(c, pass, slice, 0)) == FillLanes(m, c, mem, pass, slice, 0)
  {
  }

  lemma {:induction false} RunLaneByLane<B>(m: Mixer<B>, c: Layout, mem: seq<B>, pass: nat, slice: nat, k: nat)
    requires Supported(c) && slice < 4 && k <= c.nb_lanes && |mem| == Total(c)
    ensures Possible(c, pass, slice, LaneByLane(c, pass, slice, k))
    ensures Run(m, c, mem, pass, slice, LaneByLane(c, pass, slice, k)) == FillLanes(m, c, mem, pass, slice, k)
  {
    if k == 0 {
      hide *;
      RunNothing(m, c, mem, pass, slice);
    } else {
      hide Alone, Total, Possible, Turns, Run, More, ToFill, Stride, LaneSize;
      RunLaneByLane(m, c, mem, pass, slice, k - 1);
      LaneByLaneTurns(c, pass, slice, k - 1, k - 1);
      RunMore(m, c, mem, pass, slice, LaneByLane(c, pass, slice, k - 1), k - 1, ToFill(c, pass, slice));
    }
  }

  /** Filling the lanes of a slice one after the other, as the code does, gives the memory that
      any number of threads taking turns in any order would give. */
  lemma SegmentsCommute<B>(m: Mixer<B>, c: Layout, mem: seq<B>, pass: nat, slice: nat, schedule: seq<nat>)
    requires Supported(c) && slice < 4 && |mem| == Total(c) && Complete(c, pass, slice, schedule)
    ensures Run(m, c, mem, pass, slice, schedule) == FillLanes(m, c, mem, pass, slice, c.nb_lanes)
  {
    hide Run, FillLanes, LaneByLane, Turns;
    RunLaneByLane(m, c, mem, pass, slice, c.nb_lanes);
    forall lane | 0 <= lane < c.nb_lanes
      ensures Turns(LaneByLane(c, pass, slice, c.nb_lanes), lane) == ToFill(c, pass, slice)
    {
      LaneByLaneTurns(c, pass, slice, c.nb_lanes, lane);
    }
    AnyOrder(m, c, mem, pass, slice, schedule, LaneByLane(c, pass, slice, c.nb_lanes));
  }

  // -------------------------------------------------------------------------------------
  // The filling loops

  function FillSlices<B>(m: Mixer<B>, c: Layout, mem: seq<B>, pass: nat, n: nat): (r: seq<B>)
    requires Supported(c) && n <= 4 && |mem| == Total(c)
    ensures |r| == |mem|
  {
    if n == 0 then mem else FillLanes(m, c, FillSlices(m, c, mem, pass, n - 1), pass, n - 1, c.nb_lanes)
  }

  function FillPasses<B>(m: Mixer<B>, c: Layout, mem: seq<B>, n: nat): (r: seq<B>)
    requires Supported(c) && |mem| == Total(c)
    ensures |r| == |mem|
  {
    if n == 0 then mem else FillSlices(m, c, FillPasses(m, c, mem, n - 1), n - 1, 4)
  }

  /** One block, from its indices word or the previous block's first word. */
  method FillBlock<B>(m: Mixer<B>, c: Layout, blocks: array<B>, pass: nat, slice: nat, segment: nat, block: nat, index_seed: u64)
    requires InSegment(c, pass, slice, segment, block) && blocks.Length == Total(c)
    requires Index(c, segment, Previous(c, slice, block)) < Total(c)
    requires index_seed == Seed(m, c, pass, slice, segment, block, blocks[Index(c, segment, Previous(c, slice, block))])
    modifies blocks
    ensures blocks[..] == Fill(m, c, old(blocks[..]), pass, slice, segment, block)
  {
    BlocksInLane(c, pass, slice, segment, block);
    ReferenceSafe(c, pass, slice, segment, block, index_seed);
    hide Index, Position, Previous, ReferencePosition, ReferenceLane, Stride, Seed, LaneSize;
    var current := Index(c, segment, Position(c, slice, block));
    var previous := Index(c, segment, Previous(c, slice, block));
    var reference := Index(c, ReferenceLane(c, pass, slice, segment, index_seed),
                              ReferencePosition(c, pass, slice, segment, block, index_seed));
    var tmp := m.xor(blocks[previous], blocks[reference]);
    blocks[current] := if pass == 0 then tmp else m.xor(blocks[current], tmp);
    blocks[current] := m.xor(blocks[current], m.rounds(tmp));
  }

  /** The deterministic indices are refreshed with one more use of the counter. */
  lemma Refreshes(pass: nat, slice: nat, block: nat, index_ctr: nat)
    requires block >= PassOffset(pass, slice)
    requires index_ctr == if block == PassOffset(pass, slice) then 1 else 2 + (block - 1) / 128
    ensures block == PassOffset(pass, slice) || block % 128 == 0 ==> index_ctr == 1 + block / 128
    ensures block != PassOffset(pass, slice) && block % 128 != 0 ==> (block - 1) / 128 == block / 128
    ensures 2 + block / 128 == if block == PassOffset(pass, slice) || block % 128 == 0 then index_ctr + 1 else index_ctr
  {
  }

  /** The inner loop: one segment. */
  method FillSegment<B(0)>(m: Mixer<B>, c: Layout, blocks: array<B>, pass: nat, slice: nat, segment: nat, constant_time: bool)
    requires Supported(c) && slice < 4 && segment < c.nb_lanes && blocks.Length == Total(c)
    requires constant_time == ConstantTime(c, pass, slice)
    modifies blocks
    ensures blocks[..] == Alone(m, c, old(blocks[..]), pass, slice, segment, ToFill(c, pass, slice))
  {
    hide Fill, Index, Stride, Position, Previous, Total;
    var pass_offset := PassOffset(pass, slice);
    var index_block: B := *;
    var index_ctr := 1;
    for block := pass_offset to c.segment_size
      invariant blocks[..] == Alone(m, c, old(blocks[..]), pass, slice, segment, block - pass_offset)
      invariant constant_time ==> index_ctr == if block == pass_offset then 1 else 2 + (block - 1) / 128
      invariant constant_time && block > pass_offset ==> index_block == IndexBlock(m, pass, slice, segment, block - 1)
    {
      BlocksInLane(c, pass, slice, segment, block);
      var index_seed;
      if constant_time {
        Refreshes(pass, slice, block, index_ctr);
        if block == pass_offset || block % 128 == 0 {
          index_block := m.seeded(pass, segment, slice, index_ctr);
          index_ctr := index_ctr + 1;
          var tmp := index_block;
          index_block := m.xor(m.rounds(index_block), tmp);
          tmp := index_block;
          index_block := m.xor(m.rounds(index_block), tmp);
        }
        index_seed := m.word(index_block, block % 128);
      } else {
        index_seed := m.word(blocks[Index(c, segment, Previous(c, slice, block))], 0);
      }
      FillBlock(m, c, blocks, pass, slice, segment, block, index_seed);
    }
  }

  /** All segments of a slice. */
  method FillSlice<B(0)>(m: Mixer<B>, c: Layout, blocks: array<B>, pass: nat, slice: nat, constant_time: bool)
    requires Supported(c) && slice < 4 && blocks.Length == Total(c)
    requires constant_time == ConstantTime(c, pass, slice)
    modifies blocks
    ensures blocks[..] == FillLanes(m, c, old(blocks[..]), pass, slice, c.nb_lanes)
  {
    hide Alone, Stride;
    for segment := 0 to c.nb_lanes
      invariant blocks[..] == FillLanes(m, c, old(blocks[..]), pass, slice, segment)
    {
      FillSegment(m, c, blocks, pass, slice, segment, constant_time);
    }
  }

  /** All passes. Deterministic indexing is switched off for good at the third slice of the
      first pass of Argon2id. */
  method FillMemory<B(0)>(m: Mixer<B>, config: Config, blocks: array<B>)
    requires config.nb_lanes >= 1 && config.nb_blocks >= 8 * config.nb_lanes
    requires blocks.Length == Total(LayoutOf(config))
    modifies blocks
    ensures blocks[..] == FillPasses(m, LayoutOf(config), old(blocks[..]), config.nb_passes)
  {
    hide FillLanes, Stride, Total;
    var c := LayoutOf(config);
    var constant_time := c.algorithm != ARGON2_D;
    for pass := 0 to config.nb_passes
      invariant blocks[..] == FillPasses(m, c, old(blocks[..]), pass)
      invariant constant_time == ConstantTime(c, pass, 0)
    {
      ghost var before := blocks[..];
      for slice := 0 to 4
        invariant blocks[..] == FillSlices(m, c, before, pass, slice)
        invariant constant_time == if slice == 0 then ConstantTime(c, pass, 0) else ConstantTime(c, pass, slice - 1)
      {
        if slice == 2 && c.algorithm == ARGON2_ID {
          constant_time := false;
        }
        FillSlice(m, c, blocks, pass, slice, constant_time);
      }
    }
  }
}
