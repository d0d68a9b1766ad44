/** Connected sets of pixels: the specification of a flood fill. */
module Region {

  datatype Point = Point(y: int, x: int)

  /** 4-neighbours. */
  predicate Adjacent(p: Point, q: Point) {
    || (p.y == q.y && (p.x == q.x + 1 || q.x == p.x + 1))
    || (p.x == q.x && (p.y == q.y + 1 || q.y == p.y + 1))
  }

  ghost predicate IsPath(s: set<Point>, path: seq<Point>, a: Point, b: Point) {
    && path != [] && path[0] == a && path[|path| - 1] == b
    && (forall k :: 0 <= k < |path| ==> path[k] in s)
    && (forall k :: 0 < k < |path| ==> Adjacent(path[k - 1], path[k]))
  }

  /** b can be reached from a through pixels of s. */
  ghost predicate Connected(s: set<Point>, a: Point, b: Point) {
    exists path: seq<Point> :: IsPath(s, path, a, b)
  }

  lemma ConnectedSelf(s: set<Point>, a: Point)
    requires a in s
    ensures Connected(s, a, a)
  {
    assert IsPath(s, [a], a, a);
  }

  lemma ConnectedStep(s: set<Point>, a: Point, b: Point, c: Point)
    requires Connected(s, a, b) && Adjacent(b, c) && c in s
    ensures Connected(s, a, c)
  {
    var path: seq<Point> :| IsPath(s, path, a, b);
    assert IsPath(s, path + [c], a, c);
  }

  /** A set that no step of s leaves. */
  ghost predicate Closed(s: set<Point>, t: set<Point>) {
    forall p, q :: p in t && q in s && Adjacent(p, q) ==> q in t
  }

  lemma {:induction false} PathStaysIn(s: set<Point>, t: set<Point>, path: seq<Point>, a: Point, b: Point)
    requires IsPath(s, path, a, b) && a in t && Closed(s, t)
    ensures b in t
    decreases |path|
  {
    if |path| > 1 {
      var n := |path| - 1;
      assert IsPath(s, path[..n], a, path[n - 1]);
      PathStaysIn(s, t, path[..n], a, path[n - 1]);
      assert Adjacent(path[n - 1], path[n]);
    }
  }

  lemma ConnectedStaysIn(s: set<Point>, t: set<Point>, a: Point, b: Point)
    requires Connected(s, a, b) && a in t && Closed(s, t)
    ensures b in t
  {
    var path: seq<Point> :| IsPath(s, path, a, b);
    PathStaysIn(s, t, path, a, b);
  }

  lemma ConnectedInside(s: set<Point>, a: Point, b: Point)
    requires Connected(s, a, b)
    ensures a in s && b in s
  {
    var path: seq<Point> :| IsPath(s, path, a, b);
    assert path[0] in s && path[|path| - 1] in s;
  }

  /** The connected component of a in s. */
  ghost function Component(s: set<Point>, a: Point): (c: set<Point>)
    ensures forall p :: p in c <==> Connected(s, a, p)
  {
    forall p | Connected(s, a, p)
      ensures p in s
    {
      ConnectedInside(s, a, p);
    }
    set p | p in s && Connected(s, a, p)
  }

  lemma ComponentClosed(s: set<Point>, a: Point)
    ensures Closed(s, Component(s, a))
  {
    forall p, q | p in Component(s, a) && q in s && Adjacent(p, q)
      ensures q in Component(s, a)
    {
      ConnectedStep(s, a, p, q);
    }
  }

  ghost predicate Touches(s: set<Point>, t: set<Point>) {
    exists p, q :: p in s && q in t && Adjacent(p, q)
  }

  /** Repainting the component of a in `region` with the colour of the pixels `other` and
      filling back from a repaints exactly that component if and only if no pixel of `other`
      touches it. */
  lemma FillBack(region: set<Point>, other: set<Point>, a: Point)
    requires a in region && region !! other
    ensures (Component(other + Component(region, a), a) == Component(region, a)) == !Touches(Component(region, a), other)
  {
    var c := Component(region, a);
    var both := other + c;
    ConnectedSelf(region, a);
    ConnectedSelf(both, a);
    if !Touches(c, other) {
      assert Closed(both, c) by { ComponentClosed(region, a); }
      forall p | p in Component(both, a)
        ensures p in c
      {
        ConnectedStaysIn(both, c, a, p);
      }
      forall p | p in c
        ensures p in Component(both, a)
      {
        var path: seq<Point> :| IsPath(region, path, a, p);
        PathInComponent(region, a, path, p);
        assert IsPath(both, path, a, p);
      }
    } else {
      var p, q :| p in c && q in other && Adjacent(p, q);
      var path: seq<Point> :| IsPath(region, path, a, p);
      PathInComponent(region, a, path, p);
      assert IsPath(both, path, a, p);
      ConnectedStep(both, a, p, q);
      assert q in Component(both, a) && q !in c by {
        if q in c { ConnectedInside(region, a, q); }
      }
    }
  }

  lemma {:induction false} PathInComponent(s: set<Point>, a: Point, path: seq<Point>, b: Point)
    requires IsPath(s, path, a, b)
    ensures forall k :: 0 <= k < |path| ==> path[k] in Component(s, a)
  {
    forall k | 0 <= k < |path|
      ensures path[k] in Component(s, a)
    {
      assert IsPath(s, path[..k + 1], a, path[k]);
    }
  }
}
