/**
 * The PolyBool entry points (PolyBool.kt): each operation runs both polygons
 * through the self-intersection sweep, combines the two results in the
 * two-polygon sweep, keeps the segments the operation's table selects and
 * chains them into the result's regions.
 */
module PolyBool {
  import opened Wrappers
  import opened Epsilon
  import opened Segments
  import opened SegmentSelector
  import opened SegmentChainer
  import opened SelfIntersecting
  import opened NonSelfIntersecting

  /** A polygon: closed regions of points, and whether it is inverted (covers the outside). */
  datatype Polygon = Polygon(regions: seq<seq<Point>>, inverted: bool)

  /** Segments: the segments of one polygon with its inverted flag. */
  datatype PolygonSegments = PolygonSegments(segments: seq<Segment>, inverted: bool)

  /** Combined: the segments of both polygons with both inverted flags. */
  datatype Combined = Combined(combined: seq<Segment>, inverted1: bool, inverted2: bool)

  /** Every segment's own fill is known on both sides. */
  predicate FillsKnown(segments: seq<Segment>) {
    forall s :: s in segments ==> s.myFill.above.Some? && s.myFill.below.Some?
  }

  /**
   * segments: every region of the polygon enters the self-intersection sweep,
   * which is then run with the polygon's inverted flag. A polygon with an
   * empty region fails. The segments that come out have both sides of their
   * own fill known and no other fill.
   */
  method PolygonSegmentsOf(eps: Tolerance, polygon: Polygon, fuel: nat) returns (res: Result<PolygonSegments, Error>)
    ensures (exists i :: 0 <= i < |polygon.regions| && polygon.regions[i] == []) ==> res == Failure(EmptyRegion)
    ensures res.Success? ==> res.value.inverted == polygon.inverted
    ensures res.Success? ==> FillsKnown(res.value.segments)
    ensures res.Success? ==> forall s :: s in res.value.segments ==> s.otherFill.None?
  {
    var intersecter := new SelfIntersecter(eps);
    for i := 0 to |polygon.regions|
      invariant intersecter.Valid() && fresh(intersecter.core) && fresh(intersecter.core.queue)
      invariant forall j :: 0 <= j < i ==> polygon.regions[j] != []
    {
      var added := intersecter.AddRegion(polygon.regions[i]);
      if added.Failure? {
        return Failure(added.error);
      }
    }
    var calculated := intersecter.Calculate(polygon.inverted, fuel);
    if calculated.Failure? {
      return Failure(calculated.error);
    }
    return Success(PolygonSegments(calculated.value, polygon.inverted));
  }

  /**
   * combine: the two-polygon sweep over the segments of both polygons, the
   * first as primary; both inverted flags are carried along, and every
   * segment that comes out knows the other polygon's fill.
   */
  method CombineSegments(eps: Tolerance, first: PolygonSegments, second: PolygonSegments, fuel: nat)
    returns (res: Result<Combined, Error>)
    ensures res.Success? ==> res.value.inverted1 == first.inverted && res.value.inverted2 == second.inverted
    ensures res.Success? ==> forall s :: s in res.value.combined ==> s.otherFill.Some?
  {
    var intersecter := new NonSelfIntersecter(eps);
    var calculated := intersecter.Calculate(first.segments, first.inverted, second.segments, second.inverted, fuel);
    if calculated.Failure? {
      return Failure(calculated.error);
    }
    return Success(Combined(calculated.value, first.inverted, second.inverted));
  }

  /** selectUnion: the union's boundary; the result is inverted when either polygon is. */
  method SelectUnion(combined: Combined) returns (r: PolygonSegments)
    ensures r.segments == Boundary(Union, combined.combined)
    ensures r.inverted == Combine(Union, combined.inverted1, combined.inverted2)
  {
    var segments := UnionSelect(combined.combined);
    r := PolygonSegments(segments, combined.inverted1 || combined.inverted2);
  }

  /** selectIntersect: the intersection's boundary; the result is inverted when both polygons are. */
  method SelectIntersect(combined: Combined) returns (r: PolygonSegments)
    ensures r.segments == Boundary(Intersect, combined.combined)
    ensures r.inverted == Combine(Intersect, combined.inverted1, combined.inverted2)
  {
    var segments := IntersectSelect(combined.combined);
    r := PolygonSegments(segments, combined.inverted1 && combined.inverted2);
  }

  /** selectDifference: the difference's boundary; inverted when the first is and the second is not. */
  method SelectDifference(combined: Combined) returns (r: PolygonSegments)
    ensures r.segments == Boundary(Difference, combined.combined)
    ensures r.inverted == Combine(Difference, combined.inverted1, combined.inverted2)
  {
    var segments := DifferenceSelect(combined.combined);
    r := PolygonSegments(segments, combined.inverted1 && !combined.inverted2);
  }

  /** selectDifferenceRev: the reversed difference's boundary; inverted when the second is and the first is not. */
  method SelectDifferenceRev(combined: Combined) returns (r: PolygonSegments)
    ensures r.segments == Boundary(DifferenceRev, combined.combined)
    ensures r.inverted == Combine(DifferenceRev, combined.inverted1, combined.inverted2)
  {
    var segments := DifferenceRevSelect(combined.combined);
    r := PolygonSegments(segments, !combined.inverted1 && combined.inverted2);
  }

  /** selectXor: the symmetric difference's boundary; inverted when exactly one polygon is. */
  method SelectXor(combined: Combined) returns (r: PolygonSegments)
    ensures r.segments == Boundary(Xor, combined.combined)
    ensures r.inverted == Combine(Xor, combined.inverted1, combined.inverted2)
  {
    var segments := XorSelect(combined.combined);
    r := PolygonSegments(segments, combined.inverted1 != combined.inverted2);
  }

  /** The selector an operation passes to operate. */
  method Selector(op: Operation, combined: Combined) returns (r: PolygonSegments)
    ensures r.segments == Boundary(op, combined.combined)
    ensures r.inverted == Combine(op, combined.inverted1, combined.inverted2)
  {
    match op
    case Union => r := SelectUnion(combined);
    case Intersect => r := SelectIntersect(combined);
    case Difference => r := SelectDifference(combined);
    case DifferenceRev => r := SelectDifferenceRev(combined);
    case Xor => r := SelectXor(combined);
  }

  /**
   * polygon: the regions are the chains of the selected segments, and the
   * inverted flag is the selection's. It fails exactly when some segment has
   * no length.
   */
  method ToPolygon(eps: Tolerance, segments: PolygonSegments) returns (res: Result<Polygon, Error>)
    ensures res.Failure? <==> exists i :: 0 <= i < |segments.segments| &&
                                PointsSame(eps, segments.segments[i].start, segments.segments[i].end)
    ensures res.Success? ==> res.value.inverted == segments.inverted
    ensures res.Success? ==> |res.value.regions| <= |segments.segments|
  {
    var regions := Chain(segments.segments, eps);
    if regions.Failure? {
      return Failure(regions.error);
    }
    return Success(Polygon(regions.value, segments.inverted));
  }

  /**
   * operate: both polygons' segments, combined, selected by the operation and
   * chained. The result is inverted exactly when the operation applied to the
   * two polygons' inverted flags says so. Either polygon having an empty
   * region makes the operation fail, the first with that error.
   */
  method Operate(eps: Tolerance, first: Polygon, second: Polygon, op: Operation, fuel: nat)
    returns (res: Result<Polygon, Error>)
    ensures (exists i :: 0 <= i < |first.regions| && first.regions[i] == []) ==> res == Failure(EmptyRegion)
    ensures (exists i :: 0 <= i < |second.regions| && second.regions[i] == []) ==> res.Failure?
    ensures res.Success? ==> res.value.inverted == Combine(op, first.inverted, second.inverted)
  {
    var firstSegments := PolygonSegmentsOf(eps, first, fuel);
    if firstSegments.Failure? {
      return Failure(firstSegments.error);
    }
    var secondSegments := PolygonSegmentsOf(eps, second, fuel);
    if secondSegments.Failure? {
      return Failure(secondSegments.error);
    }
    var combined := CombineSegments(eps, firstSegments.value, secondSegments.value, fuel);
    if combined.Failure? {
      return Failure(combined.error);
    }
    var selected := Selector(op, combined.value);
    res := ToPolygon(eps, selected);
  }

  /** union: the region covered by either polygon. */
  method PolygonUnion(eps: Tolerance, first: Polygon, second: Polygon, fuel: nat) returns (res: Result<Polygon, Error>)
    ensures res.Success? ==> res.value.inverted == (first.inverted || second.inverted)
  {
    res := Operate(eps, first, second, Union, fuel);
  }

  /** intersect: the region covered by both polygons. */
  method PolygonIntersect(eps: Tolerance, first: Polygon, second: Polygon, fuel: nat) returns (res: Result<Polygon, Error>)
    ensures res.Success? ==> res.value.inverted == (first.inverted && second.inverted)
  {
    res := Operate(eps, first, second, Intersect, fuel);
  }

  /** difference: the region covered by the first polygon and not the second. */
  method PolygonDifference(eps: Tolerance, first: Polygon, second: Polygon, fuel: nat) returns (res: Result<Polygon, Error>)
    ensures res.Success? ==> res.value.inverted == (first.inverted && !second.inverted)
  {
    res := Operate(eps, first, second, Difference, fuel);
  }

  /** differenceRev: the region covered by the second polygon and not the first. */
  method PolygonDifferenceRev(eps: Tolerance, first: Polygon, second: Polygon, fuel: nat) returns (res: Result<Polygon, Error>)
    ensures res.Success? ==> res.value.inverted == (!first.inverted && second.inverted)
  {
    res := Operate(eps, first, second, DifferenceRev, fuel);
  }

  /** xor: the region covered by exactly one of the polygons. */
  method PolygonXor(eps: Tolerance, first: Polygon, second: Polygon, fuel: nat) returns (res: Result<Polygon, Error>)
    ensures res.Success? ==> res.value.inverted == (first.inverted != second.inverted)
  {
    res := Operate(eps, first, second, Xor, fuel);
  }
}
