/**
  Points, rectangles and the distance notions the quadtree is built on.

  Coordinates are exact reals (the source uses doubles; rounding is not modelled).
  Euclidean distances are compared through their squares, so no square root is needed.
 */
module Geometry {

  datatype Option<T> = None | Some(value: T)

  /** A stored point: only its two coordinates matter (point_class.cpp). */
  datatype Pt = Pt(x: real, y: real)

  /** A node's region, with the field order of the Node constructor: x range, then y range. */
  datatype Rect = Rect(xMin: real, xMax: real, yMin: real, yMax: real)

  /** Node::isInBoundary: the region is closed on all four sides. */
  predicate InBoundary(r: Rect, p: Pt)
  {
    r.xMin <= p.x <= r.xMax && r.yMin <= p.y <= r.yMax
  }

  /** The strict test used by the range and circle queries: the edges are excluded. */
  predicate StrictlyInside(r: Rect, p: Pt)
  {
    r.xMin < p.x < r.xMax && r.yMin < p.y < r.yMax
  }

  /** Clipping a query rectangle to a node's region, branch for branch as the queries do it.
      Under the strict test, a clipped rectangle is exactly the intersection. */
  function Clip(q: Rect, r: Rect): (c: Rect)
    ensures forall p :: StrictlyInside(c, p) <==> StrictlyInside(q, p) && StrictlyInside(r, p)
  {
    Rect(if q.xMin < r.xMin then r.xMin else q.xMin,
         if q.xMax > r.xMax then r.xMax else q.xMax,
         if q.yMin < r.yMin then r.yMin else q.yMin,
         if q.yMax > r.yMax then r.yMax else q.yMax)
  }

  /** The four quadrants of a split, in child order: 0 top-left, 1 top-right,
      2 bottom-left, 3 bottom-right. Neighbours share their midpoint edges. */
  function Quadrant(r: Rect, i: int): Rect
    requires 0 <= i < 4
  {
    var xMid := (r.xMin + r.xMax) / 2.0;
    var yMid := (r.yMin + r.yMax) / 2.0;
    if i == 0 then Rect(r.xMin, xMid, yMid, r.yMax)
    else if i == 1 then Rect(xMid, r.xMax, yMid, r.yMax)
    else if i == 2 then Rect(r.xMin, xMid, r.yMin, yMid)
    else Rect(xMid, r.xMax, r.yMin, yMid)
  }

  /** The first quadrant, in child order, whose closed region holds p; 4 when there is none.
      Every point of the closed parent region has one, and no point outside it has one. */
  function FirstQuadrant(r: Rect, p: Pt): (i: int)
    ensures 0 <= i <= 4
    ensures i < 4 <==> InBoundary(r, p)
    ensures i < 4 ==> InBoundary(Quadrant(r, i), p)
    ensures forall j :: 0 <= j < i && j < 4 ==> !InBoundary(Quadrant(r, j), p)
  {
    if InBoundary(Quadrant(r, 0), p) then 0
    else if InBoundary(Quadrant(r, 1), p) then 1
    else if InBoundary(Quadrant(r, 2), p) then 2
    else if InBoundary(Quadrant(r, 3), p) then 3
    else 4
  }

  /** Squared Euclidean distance from p to (x, y) (Point::distanceToPoint, squared). */
  function DistSq(p: Pt, x: real, y: real): real
  {
    (x - p.x) * (x - p.x) + (y - p.y) * (y - p.y)
  }

  /** `distanceToPoint(x, y) < radius`, stated without the square root. */
  predicate WithinRadius(p: Pt, x: real, y: real, radius: real)
  {
    radius > 0.0 && DistSq(p, x, y) < radius * radius
  }

  /** The default candidate (M_PI, M_E) of Node::findNearest, as the exact binary64 values. */
  const Sentinel: Pt := Pt(3.141592653589793115997963468544185161590576171875,
                           2.718281828459045090795598298427648842334747314453125)

  function Abs(a: real): real
  {
    if a < 0.0 then -a else a
  }

  function Max(a: real, b: real): real
  {
    if a < b then b else a
  }

  /** Chebyshev distance between two points. */
  function Cheb(a: Pt, b: Pt): real
  {
    Max(Abs(a.x - b.x), Abs(a.y - b.y))
  }

  /** The longer side of a region. */
  function MaxSide(r: Rect): real
  {
    Max(r.xMax - r.xMin, r.yMax - r.yMin)
  }

  /** Every two different points of s are at least d apart in Chebyshev distance. */
  ghost predicate Separated(s: seq<Pt>, d: real)
  {
    forall a, b :: a in s && b in s && a != b ==> Cheb(a, b) >= d
  }

  /** A positive separation bound for the points of a sequence. */
  function SepBound(s: seq<Pt>): (d: real)
    ensures d > 0.0 && Separated(s, d)
    decreases |s|
  {
    if s == [] then 1.0
    else
      var rest := SepBound(s[1..]);
      var own := SepTo(s[0], s[1..]);
      var d := if rest < own then rest else own;
      assert forall a :: a in s ==> a == s[0] || a in s[1..];
      d
  }

  /** A positive lower bound on the Chebyshev distance from e to the points of s other than e. */
  function SepTo(e: Pt, s: seq<Pt>): (d: real)
    ensures d > 0.0
    ensures forall b :: b in s && b != e ==> Cheb(e, b) >= d && Cheb(b, e) >= d
    decreases |s|
  {
    if s == [] then 1.0
    else
      var rest := SepTo(e, s[1..]);
      var own := if s[0] == e then 1.0 else Cheb(e, s[0]);
      assert s[0] != e ==> own > 0.0;
      assert forall b :: b in s ==> b == s[0] || b in s[1..];
      if rest < own then rest else own
  }

  /** Two different points in one closed region span at least their separation:
      the region's longer side is at least d. */
  lemma {:induction false} SpanOfTwoPoints(r: Rect, a: Pt, b: Pt, d: real)
    requires InBoundary(r, a) && InBoundary(r, b) && a != b && Cheb(a, b) >= d
    ensures MaxSide(r) >= d
  {
  }

  /** How many times s can be halved before dropping below d: the termination
      measure of the split cascade. */
  function Halvings(s: real, d: real): nat
    requires d > 0.0
    decreases if s < d then 0 else (s / d).Floor
  {
    if s < d then 0
    else
      HalvingDecreases(s, d);
      1 + Halvings(s / 2.0, d)
  }

  lemma {:induction false} HalvingDecreases(s: real, d: real)
    requires d > 0.0 && s >= d
    ensures (s / d).Floor >= 1
    ensures s / 2.0 >= d ==> 0 <= (s / 2.0 / d).Floor < (s / d).Floor
  {
    var u := s / d;
    assert u >= 1.0;
    assert s / 2.0 / d == u / 2.0;
    if s / 2.0 >= d {
      assert u * d == s;
      assert u >= 2.0;
      assert (u / 2.0).Floor as real <= u / 2.0;
      assert u / 2.0 <= u - 1.0;
      assert u.Floor as real > u - 1.0;
    }
  }

  /** The measure of a region. */
  function H(r: Rect, d: real): nat
    requires d > 0.0
  {
    Halvings(MaxSide(r), d)
  }

  /** A quadrant has half the longer side, so its measure never exceeds the parent's,
      and is smaller when the parent's side is at least d. */
  lemma {:induction false} QuadrantMeasure(r: Rect, i: int, d: real)
    requires 0 <= i < 4 && d > 0.0
    ensures H(Quadrant(r, i), d) <= H(r, d)
    ensures MaxSide(r) >= d ==> H(Quadrant(r, i), d) < H(r, d)
  {
    assert MaxSide(Quadrant(r, i)) == MaxSide(r) / 2.0;
    if MaxSide(r) < d {
      assert MaxSide(r) / 2.0 < d;
    }
  }
}
