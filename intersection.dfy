/**
  What `do_intersect` decides, stated without orientations: the two closed
  segments have a point of the plane in common. Points of a segment are
  written a + s (b - a) with a real s between 0 and 1, so the common point
  may have non-integer coordinates.
 */
module Intersection {
  import opened Geometry

  /** A point of the plane with real coordinates. */
  datatype RPoint = RPoint(x: real, y: real)

  /** An integer point seen as a point of the plane. */
  function AsReal(p: Point): RPoint
  {
    RPoint(p.x as real, p.y as real)
  }

  /** The point a + s (b - a) of the line through a and b. */
  function Along(a: Point, b: Point, s: real): RPoint
  {
    RPoint(a.x as real + s * (b.x - a.x) as real, a.y as real + s * (b.y - a.y) as real)
  }

  /** The closed segments p1q1 and p2q2 have a point in common. */
  ghost predicate SegmentsMeet(p1: Point, q1: Point, p2: Point, q2: Point)
  {
    exists s: real, t: real :: 0.0 <= s <= 1.0 && 0.0 <= t <= 1.0 && Along(p1, q1, s) == Along(p2, q2, t)
  }

  /** Det with a real third point: zero exactly on the line through a and b. */
  function Side(a: Point, b: Point, x: RPoint): real
  {
    (b.x - a.x) as real * (x.y - a.y as real) - (b.y - a.y) as real * (x.x - a.x as real)
  }

  predicate RBetween(a: real, v: real, b: real)
  {
    (a <= v <= b) || (b <= v <= a)
  }

  // ---------------------------------------------------------------------------
  // algebra of Along and Side

  lemma SideAtPoint(a: Point, b: Point, c: Point)
    ensures Side(a, b, AsReal(c)) == Det(a, b, c) as real
  {
  }

  lemma SideOnOwnLine(a: Point, b: Point, s: real)
    ensures Side(a, b, Along(a, b, s)) == 0.0
  {
    var u, v := (b.x - a.x) as real, (b.y - a.y) as real;
    assert Side(a, b, Along(a, b, s)) == u * (s * v) - v * (s * u);
  }

  /** Side is affine along any segment. */
  lemma SideAlong(a: Point, b: Point, c: Point, d: Point, t: real)
    ensures Side(a, b, Along(c, d, t)) == (1.0 - t) * Det(a, b, c) as real + t * Det(a, b, d) as real
  {
    var u, v := (b.x - a.x) as real, (b.y - a.y) as real;
    var cx, cy := (c.x - a.x) as real, (c.y - a.y) as real;
    var ex, ey := (d.x - c.x) as real, (d.y - c.y) as real;
    assert Det(a, b, c) as real == u * cy - v * cx;
    assert Det(a, b, d) as real == u * (cy + ey) - v * (cx + ex);
    assert Side(a, b, Along(c, d, t)) == u * (cy + t * ey) - v * (cx + t * ex);
  }

  lemma AlongEnds(a: Point, b: Point)
    ensures Along(a, b, 0.0) == AsReal(a) && Along(a, b, 1.0) == AsReal(b)
  {
  }

  /** Along keeps the betweenness of its parameters, coordinate by coordinate. */
  lemma AlongBetween(p: Point, q: Point, a: real, u: real, b: real)
    requires RBetween(a, u, b)
    ensures RBetween(Along(p, q, a).x, Along(p, q, u).x, Along(p, q, b).x)
    ensures RBetween(Along(p, q, a).y, Along(p, q, u).y, Along(p, q, b).y)
  {
    Scaled(a, u, b, (q.x - p.x) as real);
    Scaled(a, u, b, (q.y - p.y) as real);
  }

  lemma Scaled(a: real, u: real, b: real, w: real)
    requires RBetween(a, u, b)
    ensures RBetween(a * w, u * w, b * w)
  {
    var lo, hi := if a <= u <= b then a else b, if a <= u <= b then b else a;
    assert lo <= u <= hi;
    if w >= 0.0 {
      assert (u - lo) * w >= 0.0 && (hi - u) * w >= 0.0;
    } else {
      assert (u - lo) * w <= 0.0 && (hi - u) * w <= 0.0;
    }
  }

  /** A convex combination of two values of the same strict sign has that sign. */
  lemma MixSigns(d1: real, d2: real, t: real)
    requires 0.0 <= t <= 1.0
    ensures d1 > 0.0 && d2 > 0.0 ==> (1.0 - t) * d1 + t * d2 > 0.0
    ensures d1 < 0.0 && d2 < 0.0 ==> (1.0 - t) * d1 + t * d2 < 0.0
  {
    if d1 > 0.0 && d2 > 0.0 {
      assert (1.0 - t) * d1 >= 0.0 && t * d2 >= 0.0;
      assert t == 0.0 || t * d2 > 0.0;
    } else if d1 < 0.0 && d2 < 0.0 {
      assert (1.0 - t) * d1 <= 0.0 && t * d2 <= 0.0;
      assert t == 0.0 || t * d2 < 0.0;
    }
  }

  /** A point on the line through two distinct points a and b has a parameter there. */
  lemma OnLineAt(a: Point, b: Point, c: Point) returns (u: real)
    requires a != b && Det(a, b, c) == 0
    ensures Along(a, b, u) == AsReal(c)
  {
    var w, v := (b.x - a.x) as real, (b.y - a.y) as real;
    var cx, cy := (c.x - a.x) as real, (c.y - a.y) as real;
    assert w * cy == v * cx;
    if w != 0.0 {
      u := cx / w;
      assert u * w == cx;
      assert w * (u * v) == w * cy;
    } else {
      u := cy / v;
      assert u * v == cy;
      assert v * (u * w) == v * cx;
    }
  }

  lemma UnitFromScaled(u: real, w: real)
    requires w != 0.0 && RBetween(0.0, u * w, w)
    ensures 0.0 <= u <= 1.0
  {
    if w > 0.0 {
      assert u * w >= 0.0 && (1.0 - u) * w >= 0.0;
    } else {
      assert u * w <= 0.0 && (1.0 - u) * w <= 0.0;
    }
  }

  /**
    A point collinear with a and b and inside their rectangle lies on the
    segment ab: the collinear special cases of `do_intersect` are sound.
   */
  lemma CollinearOnSegment(a: Point, b: Point, c: Point) returns (u: real)
    requires Det(a, b, c) == 0 && OnSegment(a, c, b)
    ensures 0.0 <= u <= 1.0 && Along(a, b, u) == AsReal(c)
  {
    if a == b {
      u := 0.0;
    } else {
      u := OnLineAt(a, b, c);
      if b.x != a.x {
        UnitFromScaled(u, (b.x - a.x) as real);
      } else {
        UnitFromScaled(u, (b.y - a.y) as real);
      }
    }
  }

  /** Along is one-to-one on a non-degenerate segment. */
  lemma AlongInjective(a: Point, b: Point, s: real, u: real)
    requires a != b && Along(a, b, s) == Along(a, b, u)
    ensures s == u
  {
    var w, v := (b.x - a.x) as real, (b.y - a.y) as real;
    assert s * w == u * w && s * v == u * v;
    if w != 0.0 {
      assert (s - u) * w == 0.0;
    } else {
      assert (s - u) * v == 0.0;
    }
  }

  /** Two lines that are not parallel meet in at most one point. */
  lemma CrossingPointUnique(p1: Point, q1: Point, p2: Point, q2: Point, x: RPoint, y: RPoint)
    requires Det(p1, q1, p2) != Det(p1, q1, q2)
    requires Side(p1, q1, x) == 0.0 && Side(p1, q1, y) == 0.0
    requires Side(p2, q2, x) == 0.0 && Side(p2, q2, y) == 0.0
    ensures x == y
  {
    var ux, uy := (q1.x - p1.x) as real, (q1.y - p1.y) as real;
    var vx, vy := (q2.x - p2.x) as real, (q2.y - p2.y) as real;
    var wx, wy := x.x - y.x, x.y - y.y;
    var c := ux * vy - uy * vx;
    assert Det(p1, q1, q2) as real - Det(p1, q1, p2) as real == c;
    var cuw := ux * wy - uy * wx;
    var cvw := vx * wy - vy * wx;
    assert cuw == Side(p1, q1, x) - Side(p1, q1, y);
    assert cvw == Side(p2, q2, x) - Side(p2, q2, y);
    assert c * wx == ux * cvw - vx * cuw;
    assert c * wy == uy * cvw - vy * cuw;
  }

  /** A segment between two points of the line ab is a piece of that line. */
  lemma AlongCompose(p1: Point, q1: Point, p2: Point, q2: Point, a: real, b: real, t: real)
    requires Along(p1, q1, a) == AsReal(p2) && Along(p1, q1, b) == AsReal(q2)
    ensures Along(p2, q2, t) == Along(p1, q1, a + t * (b - a))
  {
    var w, v := (q1.x - p1.x) as real, (q1.y - p1.y) as real;
    assert (q2.x - p2.x) as real == (b - a) * w;
    assert (q2.y - p2.y) as real == (b - a) * v;
  }

  /** If p2 and q2 lie on the line through p1 != q1, then p1 and q1 lie on the line through p2 and q2. */
  lemma CollinearBothWays(p1: Point, q1: Point, p2: Point, q2: Point)
    requires p1 != q1 && Det(p1, q1, p2) == 0 && Det(p1, q1, q2) == 0
    ensures Det(p2, q2, p1) == 0 && Det(p2, q2, q1) == 0
  {
    var vx, vy := q1.x - p1.x, q1.y - p1.y;
    var ax, ay := p2.x - p1.x, p2.y - p1.y;
    var cx, cy := q2.x - p1.x, q2.y - p1.y;
    var k := ax * cy - ay * cx;
    assert vx * ay - vy * ax == 0 && vx * cy - vy * cx == 0;
    assert vx * k == ax * (vx * cy - vy * cx) - cx * (vx * ay - vy * ax);
    assert vy * k == ay * (vx * cy - vy * cx) - cy * (vx * ay - vy * ax);
    assert k == 0;
    assert Det(p2, q2, p1) == (cx - ax) * (0 - ay) - (cy - ay) * (0 - ax);
    assert Det(p2, q2, p1) == k;
    assert Det(p2, q2, q1) == (cx - ax) * (vy - ay) - (cy - ay) * (vx - ax);
    assert Det(p2, q2, q1) == k - (vx * cy - vy * cx) + (vx * ay - vy * ax);
  }

  /** The value of Det(a, b, c) / (Det(a, b, c) - Det(a, b, d)) when the two Dets differ in sign. */
  lemma RootInUnit(d1: real, d2: real)
    requires d1 != d2 && !(d1 > 0.0 && d2 > 0.0) && !(d1 < 0.0 && d2 < 0.0)
    ensures 0.0 <= d1 / (d1 - d2) <= 1.0
    ensures d1 / (d1 - d2) * (d1 - d2) == d1
  {
    UnitFromScaled(d1 / (d1 - d2), d1 - d2);
  }

  /** A segment whose ends lie on different sides of (or on) the line p1q1 reaches that line. */
  lemma SegmentReachesLine(p1: Point, q1: Point, p2: Point, q2: Point) returns (t: real)
    requires Orientation(p1, q1, p2) != Orientation(p1, q1, q2)
    ensures 0.0 <= t <= 1.0 && Side(p1, q1, Along(p2, q2, t)) == 0.0
  {
    var d1, d2 := Det(p1, q1, p2) as real, Det(p1, q1, q2) as real;
    RootInUnit(d1, d2);
    t := d1 / (d1 - d2);
    SideAlong(p1, q1, p2, q2, t);
    assert (1.0 - t) * d1 + t * d2 == d1 - t * (d1 - d2);
  }

  /**
    Conversely, a segment that touches the line p1q1 has its ends on different
    sides of that line, or both on it.
   */
  lemma SegmentTouchesLine(p1: Point, q1: Point, p2: Point, q2: Point, t: real)
    requires 0.0 <= t <= 1.0 && Side(p1, q1, Along(p2, q2, t)) == 0.0
    ensures Orientation(p1, q1, p2) != Orientation(p1, q1, q2) || (Det(p1, q1, p2) == 0 && Det(p1, q1, q2) == 0)
  {
    SideAlong(p1, q1, p2, q2, t);
    MixSigns(Det(p1, q1, p2) as real, Det(p1, q1, q2) as real, t);
  }

  /** The general case of `do_intersect`: the segments cross at the meeting point of their lines. */
  lemma GeneralCaseMeets(p1: Point, q1: Point, p2: Point, q2: Point)
    requires Orientation(p1, q1, p2) != Orientation(p1, q1, q2)
    requires Orientation(p2, q2, p1) != Orientation(p2, q2, q1)
    ensures SegmentsMeet(p1, q1, p2, q2)
  {
    var t := SegmentReachesLine(p1, q1, p2, q2);
    var s := SegmentReachesLine(p2, q2, p1, q1);
    var x, y := Along(p2, q2, t), Along(p1, q1, s);
    SideOnOwnLine(p2, q2, t);
    SideOnOwnLine(p1, q1, s);
    CrossingPointUnique(p1, q1, p2, q2, x, y);
    assert 0.0 <= s <= 1.0 && 0.0 <= t <= 1.0 && Along(p1, q1, s) == Along(p2, q2, t);
  }

  /** Whenever `do_intersect` answers true, the two segments have a common point. */
  lemma DoIntersectSound(p1: Point, q1: Point, p2: Point, q2: Point)
    requires DoIntersect(p1, q1, p2, q2)
    ensures SegmentsMeet(p1, q1, p2, q2)
  {
    var o1 := Orientation(p1, q1, p2);
    var o2 := Orientation(p1, q1, q2);
    var o3 := Orientation(p2, q2, p1);
    var o4 := Orientation(p2, q2, q1);
    AlongEnds(p1, q1);
    AlongEnds(p2, q2);
    if o1 != o2 && o3 != o4 {
      GeneralCaseMeets(p1, q1, p2, q2);
    } else if o1 == Collinear && OnSegment(p1, p2, q1) {
      var s := CollinearOnSegment(p1, q1, p2);
      assert Along(p1, q1, s) == Along(p2, q2, 0.0);
    } else if o2 == Collinear && OnSegment(p1, q2, q1) {
      var s := CollinearOnSegment(p1, q1, q2);
      assert Along(p1, q1, s) == Along(p2, q2, 1.0);
    } else if o3 == Collinear && OnSegment(p2, p1, q2) {
      var t := CollinearOnSegment(p2, q2, p1);
      assert Along(p1, q1, 0.0) == Along(p2, q2, t);
    } else {
      var t := CollinearOnSegment(p2, q2, q1);
      assert Along(p1, q1, 1.0) == Along(p2, q2, t);
    }
  }

  /** A point of a segment satisfies `on_segment` for it, collinearly. */
  lemma PointOfSegment(p2: Point, q2: Point, c: Point, t: real)
    requires 0.0 <= t <= 1.0 && Along(p2, q2, t) == AsReal(c)
    ensures Det(p2, q2, c) == 0 && OnSegment(p2, c, q2)
  {
    AlongEnds(p2, q2);
    SideOnOwnLine(p2, q2, t);
    SideAtPoint(p2, q2, c);
    AlongBetween(p2, q2, 0.0, t, 1.0);
  }

  /**
    Two intervals [0, 1] and [a, b] (in either order) of the line through p1
    and q1 that share the value s: an end of [a, b] lies in [0, 1], or else
    [a, b] contains 0.
   */
  lemma IntervalsOverlap(p1: Point, q1: Point, p2: Point, q2: Point, a: real, b: real, s: real)
    requires Along(p1, q1, a) == AsReal(p2) && Along(p1, q1, b) == AsReal(q2)
    requires 0.0 <= s <= 1.0 && RBetween(a, s, b)
    ensures OnSegment(p1, p2, q1) || OnSegment(p1, q2, q1) || OnSegment(p2, p1, q2)
  {
    AlongEnds(p1, q1);
    if RBetween(0.0, a, 1.0) {
      AlongBetween(p1, q1, 0.0, a, 1.0);
      assert OnSegment(p1, p2, q1);
    } else if RBetween(0.0, b, 1.0) {
      AlongBetween(p1, q1, 0.0, b, 1.0);
      assert OnSegment(p1, q2, q1);
    } else {
      AlongBetween(p1, q1, a, 0.0, b);
    }
  }

  /**
    Collinear segments with a common point: one of the four collinear special
    cases of `do_intersect` applies.
   */
  lemma CollinearMeet(p1: Point, q1: Point, p2: Point, q2: Point, s: real, t: real)
    requires Det(p1, q1, p2) == 0 && Det(p1, q1, q2) == 0
    requires 0.0 <= s <= 1.0 && 0.0 <= t <= 1.0 && Along(p1, q1, s) == Along(p2, q2, t)
    ensures DoIntersect(p1, q1, p2, q2)
  {
    if p1 == q1 {
      AlongEnds(p1, q1);
      PointOfSegment(p2, q2, p1, t);
    } else {
      var a := OnLineAt(p1, q1, p2);
      var b := OnLineAt(p1, q1, q2);
      AlongCompose(p1, q1, p2, q2, a, b, t);
      AlongInjective(p1, q1, s, a + t * (b - a));
      Scaled(0.0, t, 1.0, b - a);
      CollinearBothWays(p1, q1, p2, q2);
      IntervalsOverlap(p1, q1, p2, q2, a, b, s);
    }
  }

  /** For segments with a common point, p1 and q1 on the line p2q2 puts p2 and q2 on the line p1q1. */
  lemma CollinearTransfer(p1: Point, q1: Point, p2: Point, q2: Point, s: real, t: real)
    requires Det(p2, q2, p1) == 0 && Det(p2, q2, q1) == 0
    requires Along(p1, q1, s) == Along(p2, q2, t)
    ensures Det(p1, q1, p2) == 0 && Det(p1, q1, q2) == 0
  {
    if p2 != q2 {
      CollinearBothWays(p2, q2, p1, q1);
    } else {
      AlongEnds(p2, q2);
      assert Along(p1, q1, s) == AsReal(p2);
      SideOnOwnLine(p1, q1, s);
      SideAtPoint(p1, q1, p2);
    }
  }

  /** Whenever the two segments have a common point, `do_intersect` answers true. */
  lemma DoIntersectComplete(p1: Point, q1: Point, p2: Point, q2: Point)
    requires SegmentsMeet(p1, q1, p2, q2)
    ensures DoIntersect(p1, q1, p2, q2)
  {
    var s: real, t: real :| 0.0 <= s <= 1.0 && 0.0 <= t <= 1.0 && Along(p1, q1, s) == Along(p2, q2, t);
    SideOnOwnLine(p1, q1, s);
    SegmentTouchesLine(p1, q1, p2, q2, t);
    SideOnOwnLine(p2, q2, t);
    SegmentTouchesLine(p2, q2, p1, q1, s);
    if Orientation(p1, q1, p2) == Orientation(p1, q1, q2) || Orientation(p2, q2, p1) == Orientation(p2, q2, q1) {
      if Orientation(p2, q2, p1) == Orientation(p2, q2, q1) {
        CollinearTransfer(p1, q1, p2, q2, s, t);
      }
      CollinearMeet(p1, q1, p2, q2, s, t);
    }
  }

  /** `do_intersect` answers true exactly when the two closed segments have a common point. */
  lemma DoIntersectIffMeet(p1: Point, q1: Point, p2: Point, q2: Point)
    ensures DoIntersect(p1, q1, p2, q2) <==> SegmentsMeet(p1, q1, p2, q2)
  {
    if DoIntersect(p1, q1, p2, q2) {
      DoIntersectSound(p1, q1, p2, q2);
    }
    if SegmentsMeet(p1, q1, p2, q2) {
      DoIntersectComplete(p1, q1, p2, q2);
    }
  }
}
