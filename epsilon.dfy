/**
 * The tolerance predicates of the library (Epsilon.kt), over exact reals.
 * Every comparison of points in the sweep and the chainer goes through them.
 */
module Epsilon {
  import opened Wrappers

  datatype Point = Point(x: real, y: real)

  /** A tolerance is strictly positive; the library's default is 1e-10. */
  type Tolerance = e: real | e > 0.0 witness 0.0000000001

  function Abs(r: real): real {
    if r < 0.0 then -r else r
  }

  /** z-component of the cross product of (b - a) and (c - a). */
  function Orient(a: Point, b: Point, c: Point): real {
    (b.x - a.x) * (c.y - a.y) - (b.y - a.y) * (c.x - a.x)
  }

  /** `point` lies on or above the directed line left -> right, within tolerance. */
  function PointAboveOrOnLine(eps: Tolerance, point: Point, left: Point, right: Point): (r: bool)
    ensures r <==> Orient(left, right, point) >= -(eps as real)
    ensures point == left || point == right ==> r
  {
    var ax := left.x;
    var ay := left.y;
    var bx := right.x;
    var bY := right.y;
    var cx := point.x;
    var cy := point.y;
    (bx - ax) * (cy - ay) - (bY - ay) * (cx - ax) >= -(eps as real)
  }

  /** Dot product of (point - left) and (right - left). */
  function Projection(point: Point, left: Point, right: Point): real {
    (point.x - left.x) * (right.x - left.x) + (point.y - left.y) * (right.y - left.y)
  }

  /** Squared length of right - left. */
  function SquaredLength(left: Point, right: Point): real {
    (right.x - left.x) * (right.x - left.x) + (right.y - left.y) * (right.y - left.y)
  }

  /**
   * `point` (assumed collinear with left -> right) projects strictly inside the
   * segment, at least eps away from both ends.
   */
  function PointBetween(eps: Tolerance, point: Point, left: Point, right: Point): (r: bool)
    ensures r ==> 0.0 < Projection(point, left, right) < SquaredLength(left, right)
    ensures point == left || point == right || left == right ==> !r
  {
    var dPyLy := point.y - left.y;
    var dRxLx := right.x - left.x;
    var dPxLx := point.x - left.x;
    var dRyLy := right.y - left.y;
    var dot := dPxLx * dRxLx + dPyLy * dRyLy;
    assert dot == Projection(point, left, right);
    if dot < eps then
      false
    else
      var length := dRxLx * dRxLx + dRyLy * dRyLy;
      assert length == SquaredLength(left, right);
      dot - length <= -(eps as real)
  }

  predicate PointsSameX(eps: Tolerance, p: Point, q: Point) {
    Abs(p.x - q.x) < eps
  }

  predicate PointsSameY(eps: Tolerance, p: Point, q: Point) {
    Abs(p.y - q.y) < eps
  }

  /** Both coordinates differ by less than eps. */
  function PointsSame(eps: Tolerance, p: Point, q: Point): (r: bool)
    ensures r <==> PointsSameX(eps, p, q) && PointsSameY(eps, p, q)
    ensures p == q ==> r
  {
    PointsSameX(eps, p, q) && PointsSameY(eps, p, q)
  }

  lemma PointsSameSymmetric(eps: Tolerance, p: Point, q: Point)
    ensures PointsSame(eps, p, q) == PointsSame(eps, q, p)
  {
  }

  /**
   * Lexicographic comparison, x first, then y, each with tolerance:
   * -1 when p comes first, 1 when q comes first, 0 when they are the same point.
   */
  function PointsCompare(eps: Tolerance, p: Point, q: Point): (r: int)
    ensures r == -1 || r == 0 || r == 1
    ensures r == 0 <==> PointsSame(eps, p, q)
    ensures r == -1 ==> p.x < q.x || (PointsSameX(eps, p, q) && p.y < q.y)
    ensures r == 1 ==> q.x < p.x || (PointsSameX(eps, p, q) && q.y < p.y)
  {
    if PointsSameX(eps, p, q) then
      if PointsSameY(eps, p, q) then 0 else if p.y < q.y then -1 else 1
    else
      if p.x < q.x then -1 else 1
  }

  /** Swapping the arguments negates the comparison. */
  lemma PointsCompareAntisymmetric(eps: Tolerance, p: Point, q: Point)
    ensures PointsCompare(eps, p, q) == -PointsCompare(eps, q, p)
  {
  }

  /** Cross product of (pt1 - pt2) and (pt2 - pt3). */
  function Turn(pt1: Point, pt2: Point, pt3: Point): real {
    (pt1.x - pt2.x) * (pt2.y - pt3.y) - (pt2.x - pt3.x) * (pt1.y - pt2.y)
  }

  /** pt1 -> pt2 -> pt3 is a straight line within tolerance. */
  function PointsCollinear(eps: Tolerance, pt1: Point, pt2: Point, pt3: Point): (r: bool)
    ensures r <==> Abs(Turn(pt1, pt2, pt3)) < eps
    ensures pt1 == pt2 || pt2 == pt3 || pt1 == pt3 ==> r
  {
    var dx1 := pt1.x - pt2.x;
    var dy1 := pt1.y - pt2.y;
    var dx2 := pt2.x - pt3.x;
    var dy2 := pt2.y - pt3.y;
    Abs(dx1 * dy2 - dx2 * dy1) < eps
  }

  /** Collinearity does not depend on the direction the three points are read in. */
  lemma {:induction false} PointsCollinearReversed(eps: Tolerance, pt1: Point, pt2: Point, pt3: Point)
    ensures PointsCollinear(eps, pt1, pt2, pt3) == PointsCollinear(eps, pt3, pt2, pt1)
  {
    assert Turn(pt3, pt2, pt1) == -Turn(pt1, pt2, pt3);
  }

  /**
   * Where a line parameter t falls relative to a segment parameterised over [0, 1]:
   * -2 before the start, -1 at the start, 0 strictly inside, 1 at the end, 2 after the end.
   */
  function Along(eps: Tolerance, t: real): (r: int)
    ensures -2 <= r <= 2
    ensures r == -2 <==> t <= -(eps as real)
    ensures r == -1 <==> -(eps as real) < t < eps
    ensures r == 0 <==> eps <= t <= 1.0 - eps
    ensures r == 1 <==> eps <= t && 1.0 - eps < t < 1.0 + eps
    ensures r == 2 <==> 1.0 + eps <= t
  {
    if t <= -(eps as real) then -2
    else if t < eps then -1
    else if t - 1.0 <= -(eps as real) then 0
    else if t - 1.0 < eps then 1
    else 2
  }

  /** The classification never decreases as the parameter grows. */
  lemma AlongMonotonic(eps: Tolerance, s: real, t: real)
    requires s <= t
    ensures Along(eps, s) <= Along(eps, t)
  {
  }

  /** The record returned by linesIntersect (EpsilonIntersectionResult.kt). */
  datatype Intersection = Intersection(alongA: int, alongB: int, pt: Point)

  /** a0 + t * (a1 - a0). */
  function PointAt(a0: Point, a1: Point, t: real): Point {
    Point(a0.x + t * (a1.x - a0.x), a0.y + t * (a1.y - a0.y))
  }

  /** Determinant of the 2x2 system: cross product of the two direction vectors. */
  function Det(a0: Point, a1: Point, b0: Point, b1: Point): real {
    (a1.x - a0.x) * (b1.y - b0.y) - (a1.y - a0.y) * (b1.x - b0.x)
  }

  /** Parameter of the crossing along a0 -> a1. */
  function ParamA(a0: Point, a1: Point, b0: Point, b1: Point): real
    requires Det(a0, a1, b0, b1) != 0.0
  {
    ((b1.x - b0.x) * (a0.y - b0.y) - (b1.y - b0.y) * (a0.x - b0.x)) / Det(a0, a1, b0, b1)
  }

  /** Parameter of the crossing along b0 -> b1. */
  function ParamB(a0: Point, a1: Point, b0: Point, b1: Point): real
    requires Det(a0, a1, b0, b1) != 0.0
  {
    ((a1.x - a0.x) * (a0.y - b0.y) - (a1.y - a0.y) * (a0.x - b0.x)) / Det(a0, a1, b0, b1)
  }

  /**
   * Intersection of the lines a0 -> a1 and b0 -> b1: None when they are parallel
   * or coincident (|det| < eps); otherwise the crossing point, computed along A,
   * and where it falls along each of the two segments.
   */
  function LinesIntersect(eps: Tolerance, a0: Point, a1: Point, b0: Point, b1: Point): (r: Option<Intersection>)
    ensures r.None? <==> Abs(Det(a0, a1, b0, b1)) < eps
    ensures r.Some? ==> -2 <= r.value.alongA <= 2 && -2 <= r.value.alongB <= 2
  {
    var axb := Det(a0, a1, b0, b1);
    if Abs(axb) < eps then
      None
    else
      var a := ParamA(a0, a1, b0, b1);
      var b := ParamB(a0, a1, b0, b1);
      Some(Intersection(Along(eps, a), Along(eps, b), PointAt(a0, a1, a)))
  }

  /** The crossing found by LinesIntersect is the point of both lines at the reported parameters. */
  lemma LinesIntersectCrossing(eps: Tolerance, a0: Point, a1: Point, b0: Point, b1: Point)
    requires LinesIntersect(eps, a0, a1, b0, b1).Some?
    ensures var r := LinesIntersect(eps, a0, a1, b0, b1).value;
            && Det(a0, a1, b0, b1) != 0.0
            && r.alongA == Along(eps, ParamA(a0, a1, b0, b1))
            && r.alongB == Along(eps, ParamB(a0, a1, b0, b1))
            && r.pt == PointAt(a0, a1, ParamA(a0, a1, b0, b1))
            && r.pt == PointAt(b0, b1, ParamB(a0, a1, b0, b1))
  {
    CrossingOnBothLines(a0, a1, b0, b1);
  }

  /** A quotient by d, multiplied back by d. */
  lemma QuotientTimes(n: real, d: real)
    requires d != 0.0
    ensures (n / d) * d == n
  {
  }

  /** Cancelling a non-zero factor. */
  lemma CancelFactor(x: real, y: real, d: real)
    requires d != 0.0 && x * d == y * d
    ensures x == y
  {
    assert (x - y) * d == 0.0;
  }

  /** The polynomial identities behind the crossing, one per coordinate. */
  lemma CrossingIdentities(adx: real, ady: real, bdx: real, bdy: real, dx: real, dy: real)
    ensures (bdx * dy - bdy * dx) * adx - (adx * dy - ady * dx) * bdx == -dx * (adx * bdy - ady * bdx)
    ensures (bdx * dy - bdy * dx) * ady - (adx * dy - ady * dx) * bdy == -dy * (adx * bdy - ady * bdx)
  {
  }

  /**
   * The crossing in coordinates: when ta and tb solve the 2x2 system (by
   * Cramer's rule, multiplied out), p + ta * ad equals q + tb * bd.
   */
  lemma CrossingAlgebra(px: real, py: real, adx: real, ady: real, qx: real, qy: real, bdx: real, bdy: real, ta: real, tb: real)
    requires adx * bdy - ady * bdx != 0.0
    requires ta * (adx * bdy - ady * bdx) == bdx * (py - qy) - bdy * (px - qx)
    requires tb * (adx * bdy - ady * bdx) == adx * (py - qy) - ady * (px - qx)
    ensures px + ta * adx == qx + tb * bdx && py + ta * ady == qy + tb * bdy
  {
    var dx, dy := px - qx, py - qy;
    var d := adx * bdy - ady * bdx;
    CrossingIdentities(adx, ady, bdx, bdy, dx, dy);
    assert (ta * adx - tb * bdx) * d == (ta * d) * adx - (tb * d) * bdx;
    CancelFactor(ta * adx - tb * bdx, qx - px, d);
    assert (ta * ady - tb * bdy) * d == (ta * d) * ady - (tb * d) * bdy;
    CancelFactor(ta * ady - tb * bdy, qy - py, d);
  }

  /**
   * Over exact reals the crossing point lies on both lines: computing it along B
   * gives the same point as along A.
   */
  lemma {:induction false} CrossingOnBothLines(a0: Point, a1: Point, b0: Point, b1: Point)
    requires Det(a0, a1, b0, b1) != 0.0
    ensures PointAt(a0, a1, ParamA(a0, a1, b0, b1)) == PointAt(b0, b1, ParamB(a0, a1, b0, b1))
  {
    var d := Det(a0, a1, b0, b1);
    var na := (b1.x - b0.x) * (a0.y - b0.y) - (b1.y - b0.y) * (a0.x - b0.x);
    var nb := (a1.x - a0.x) * (a0.y - b0.y) - (a1.y - a0.y) * (a0.x - b0.x);
    var ta, tb := ParamA(a0, a1, b0, b1), ParamB(a0, a1, b0, b1);
    assert ta == na / d && tb == nb / d;
    QuotientTimes(na, d);
    QuotientTimes(nb, d);
    CrossingAlgebra(a0.x, a0.y, a1.x - a0.x, a1.y - a0.y, b0.x, b0.y, b1.x - b0.x, b1.y - b0.y, ta, tb);
  }
}
