/**
  Integer plane geometry behind the segment-based crossing test:
  the orientation of an ordered triple, the collinear bounding-box test and
  the segment-intersection predicate built from the two.
  Coordinates are pixel coordinates; y grows downwards as in image space.
  The names Clockwise and CounterClockwise are the labels `orientation`
  itself gives its answers 1 and 2. They describe the turn as seen with y
  growing upwards; on the screen, where y grows downwards, the turn a
  viewer sees goes the other way.
 */
module Geometry {

  /** An integer pixel coordinate. */
  datatype Point = Point(x: int, y: int)

  /** The three answers of `orientation`. */
  const Collinear := 0
  const Clockwise := 1
  const CounterClockwise := 2

  /** The quantity `orientation` classifies: (q.y - p.y)(r.x - q.x) - (q.x - p.x)(r.y - q.y). */
  function Turn(p: Point, q: Point, r: Point): int
  {
    (q.y - p.y) * (r.x - q.x) - (q.x - p.x) * (r.y - q.y)
  }

  /**
    The textbook determinant of the vectors q - p and r - p: twice the signed
    area of the triangle p, q, r. It serves as the independent reference for
    what `orientation` computes.
   */
  function Det(p: Point, q: Point, r: Point): int
  {
    (q.x - p.x) * (r.y - p.y) - (q.y - p.y) * (r.x - p.x)
  }

  lemma TurnIsNegatedDet(p: Point, q: Point, r: Point)
    ensures Turn(p, q, r) == -Det(p, q, r)
  {
    var a, b := q.x - p.x, q.y - p.y;
    var c, d := r.x - q.x, r.y - q.y;
    assert r.x - p.x == a + c && r.y - p.y == b + d;
    calc {
      Det(p, q, r);
      a * (b + d) - b * (a + c);
      { assert a * (b + d) == a * b + a * d; assert b * (a + c) == b * a + b * c; }
      a * d - b * c;
      -Turn(p, q, r);
    }
  }

  /**
    `orientation(p, q, r)`: 0 when the three points are collinear, 1 when the
    turn p -> q -> r is clockwise (negative determinant), 2 when it is
    counter-clockwise (positive determinant).
   */
  function Orientation(p: Point, q: Point, r: Point): (o: int)
    ensures o == Collinear || o == Clockwise || o == CounterClockwise
    ensures o == Collinear <==> Det(p, q, r) == 0
    ensures o == Clockwise <==> Det(p, q, r) < 0
    ensures o == CounterClockwise <==> Det(p, q, r) > 0
  {
    TurnIsNegatedDet(p, q, r);
    var v := Turn(p, q, r);
    if v == 0 then Collinear else if v > 0 then Clockwise else CounterClockwise
  }

  /** Exchanges the two turning directions and keeps Collinear. */
  function Mirror(o: int): int
  {
    if o == Clockwise then CounterClockwise else if o == CounterClockwise then Clockwise else o
  }

  lemma DetSwap(p: Point, q: Point, r: Point)
    ensures Det(p, r, q) == -Det(p, q, r)
  {
    var a, b := q.x - p.x, q.y - p.y;
    var c, d := r.x - p.x, r.y - p.y;
    assert Det(p, q, r) == a * d - b * c;
    assert Det(p, r, q) == c * b - d * a;
  }

  lemma DetRotate(p: Point, q: Point, r: Point)
    ensures Det(q, r, p) == Det(p, q, r)
  {
    var a, b := q.x - p.x, q.y - p.y;
    var c, d := r.x - p.x, r.y - p.y;
    calc {
      Det(q, r, p);
      (c - a) * (0 - b) - (d - b) * (0 - a);
      { assert (c - a) * (0 - b) == a * b - c * b; assert (d - b) * (0 - a) == a * b - d * a; }
      d * a - c * b;
      a * d - b * c;
      Det(p, q, r);
    }
  }

  /** Swapping the last two points reverses the turn. */
  lemma OrientationSwap(p: Point, q: Point, r: Point)
    ensures Orientation(p, r, q) == Mirror(Orientation(p, q, r))
  {
    DetSwap(p, q, r);
  }

  /** Rotating the triple does not change the turn. */
  lemma OrientationRotate(p: Point, q: Point, r: Point)
    ensures Orientation(q, r, p) == Orientation(p, q, r)
  {
    DetRotate(p, q, r);
  }

  /** Swapping the first two points reverses the turn. */
  lemma OrientationSwapFirst(p: Point, q: Point, r: Point)
    ensures Orientation(q, p, r) == Mirror(Orientation(p, q, r))
  {
    OrientationRotate(p, r, q);
    OrientationSwap(p, q, r);
  }

  function Max(a: int, b: int): int { if a >= b then a else b }
  function Min(a: int, b: int): int { if a <= b then a else b }

  /** v lies between a and b, in either order. */
  predicate Between(a: int, v: int, b: int)
  {
    (a <= v <= b) || (b <= v <= a)
  }

  /**
    `on_segment(p, q, r)`: q lies in the closed axis-aligned rectangle spanned
    by p and r (for collinear points: on the segment pr).
   */
  function OnSegment(p: Point, q: Point, r: Point): (b: bool)
    ensures b <==> Between(p.x, q.x, r.x) && Between(p.y, q.y, r.y)
  {
    q.x <= Max(p.x, r.x) && q.x >= Min(p.x, r.x) &&
    q.y <= Max(p.y, r.y) && q.y >= Min(p.y, r.y)
  }

  lemma OnSegmentSymmetric(p: Point, q: Point, r: Point)
    ensures OnSegment(p, q, r) == OnSegment(r, q, p)
  {
  }

  lemma OnSegmentAtEndpoints(p: Point, r: Point)
    ensures OnSegment(p, p, r) && OnSegment(p, r, r)
  {
  }

  /**
    `do_intersect(p1, q1, p2, q2)`: the general case (each segment's endpoints
    lie on different sides of, or on, the other's line), then the four
    collinear special cases in the order of the source.
   */
  function DoIntersect(p1: Point, q1: Point, p2: Point, q2: Point): bool
  {
    var o1 := Orientation(p1, q1, p2);
    var o2 := Orientation(p1, q1, q2);
    var o3 := Orientation(p2, q2, p1);
    var o4 := Orientation(p2, q2, q1);
    if o1 != o2 && o3 != o4 then true
    else if o1 == Collinear && OnSegment(p1, p2, q1) then true
    else if o2 == Collinear && OnSegment(p1, q2, q1) then true
    else if o3 == Collinear && OnSegment(p2, p1, q2) then true
    else if o4 == Collinear && OnSegment(p2, q1, q2) then true
    else false
  }

  /** The test does not depend on which segment is given first. */
  lemma DoIntersectSymmetric(p1: Point, q1: Point, p2: Point, q2: Point)
    ensures DoIntersect(p1, q1, p2, q2) == DoIntersect(p2, q2, p1, q1)
  {
  }

  /** Reversing the first segment leaves the answer unchanged. */
  lemma DoIntersectReverseFirst(p1: Point, q1: Point, p2: Point, q2: Point)
    ensures DoIntersect(q1, p1, p2, q2) == DoIntersect(p1, q1, p2, q2)
  {
    OrientationSwapFirst(p1, q1, p2);
    OrientationSwapFirst(p1, q1, q2);
    OnSegmentSymmetric(p1, p2, q1);
    OnSegmentSymmetric(p1, q2, q1);
  }

  /** Reversing the second segment leaves the answer unchanged. */
  lemma DoIntersectReverseSecond(p1: Point, q1: Point, p2: Point, q2: Point)
    ensures DoIntersect(p1, q1, q2, p2) == DoIntersect(p1, q1, p2, q2)
  {
    DoIntersectSymmetric(p1, q1, q2, p2);
    DoIntersectReverseFirst(p2, q2, p1, q1);
    DoIntersectSymmetric(p2, q2, p1, q1);
  }

  /** Segments that share an endpoint always intersect. */
  lemma DoIntersectSharedEndpoint(p1: Point, q1: Point, p2: Point, q2: Point)
    requires p1 == p2 || p1 == q2 || q1 == p2 || q1 == q2
    ensures DoIntersect(p1, q1, p2, q2)
  {
    if p1 == p2 {
      assert Det(p1, q1, p2) == 0;
    } else if p1 == q2 {
      assert Det(p1, q1, q2) == 0;
    } else if q1 == p2 {
      DetRotate(p1, q1, p2);
      assert Det(q1, p2, p1) == 0;
    } else {
      DetRotate(p1, q1, q2);
      assert Det(q1, q2, p1) == 0;
    }
  }

  /**
    A zero-length counting line (p2 == q2) whose single point lies on the path
    segment is reported as an intersection, by the first special case.
   */
  lemma DegenerateLineOnPath(p1: Point, q1: Point, c: Point)
    requires Det(p1, q1, c) == 0 && OnSegment(p1, c, q1)
    ensures DoIntersect(p1, q1, c, c)
  {
  }

  /** A zero-length counting line off the path's line is never crossed. */
  lemma DegenerateLineOffPath(p1: Point, q1: Point, c: Point)
    requires Det(p1, q1, c) != 0
    ensures !DoIntersect(p1, q1, c, c)
  {
    DetRotate(p1, q1, c);
    assert Det(c, c, p1) == 0 && Det(c, c, q1) == 0;
  }

  /** The vertical path (10,40)->(10,60) crosses the line (0,50)-(100,50). */
  lemma PathAcrossLine()
    ensures DoIntersect(Point(10, 40), Point(10, 60), Point(0, 50), Point(100, 50))
  {
  }

  /** The path (10,40)->(10,45) stops short of the line (0,50)-(100,50). */
  lemma PathShortOfLine()
    ensures !DoIntersect(Point(10, 40), Point(10, 45), Point(0, 50), Point(100, 50))
  {
  }
}
