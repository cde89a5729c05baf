/**
 * The self-intersection driver (internal/SelfIntersecter.kt): the edges of
 * the regions of one polygon enter the sweep as primary segments, and the
 * sweep settles each segment's own fill.
 */
module SelfIntersecting {
  import opened Wrappers
  import opened Epsilon
  import opened Segments
  import opened Intersecter

  /**
   * The segment of the edge between a and b, oriented so that it starts at the
   * lesser point, with its fill unknown; None for an edge whose points compare
   * equal.
   */
  function Edge(eps: Tolerance, a: Point, b: Point): (r: Option<Segment>)
    ensures r.None? <==> PointsSame(eps, a, b)
    ensures r.Some? ==> PointsCompare(eps, r.value.start, r.value.end) == -1
    ensures r.Some? ==> (r.value.start, r.value.end) == (a, b) || (r.value.start, r.value.end) == (b, a)
    ensures r.Some? ==> r.value.myFill == UnknownFill && r.value.otherFill.None?
  {
    var forward := PointsCompare(eps, a, b);
    PointsCompareAntisymmetric(eps, a, b);
    if forward == 0 then None
    else Some(Segment(if forward < 0 then a else b, if forward < 0 then b else a, UnknownFill, None))
  }

  /** The segments of the edges prev-pts[0], pts[0]-pts[1], ..., in that order. */
  function EdgesFrom(eps: Tolerance, prev: Point, pts: seq<Point>): (r: seq<Segment>)
    ensures |r| <= |pts|
    ensures forall i :: 0 <= i < |r| ==>
              PointsCompare(eps, r[i].start, r[i].end) == -1 && r[i].myFill == UnknownFill && r[i].otherFill.None?
    decreases |pts|
  {
    if pts == [] then []
    else
      var first := match Edge(eps, prev, pts[0]) case Some(s) => [s] case None => [];
      first + EdgesFrom(eps, pts[0], pts[1..])
  }

  /** The point before the one at i in the closed region: the last one for i = 0. */
  function Before(region: seq<Point>, i: nat): Point
    requires i < |region|
  {
    if i == 0 then region[|region| - 1] else region[i - 1]
  }

  /** The segments addRegion adds for a region: the closing edge first, then the edges in order. */
  function RegionSegments(eps: Tolerance, region: seq<Point>): (r: seq<Segment>)
    requires region != []
    ensures |r| <= |region|
    ensures forall s :: s in r ==> PointsCompare(eps, s.start, s.end) == -1 && s.myFill == UnknownFill
    ensures forall s :: s in r ==> s.otherFill.None?
  {
    EdgesFrom(eps, region[|region| - 1], region)
  }

  /** The last point of prev followed by pts. */
  function LastOf(prev: Point, pts: seq<Point>): Point {
    if pts == [] then prev else pts[|pts| - 1]
  }

  /** Extending the point list by one point adds that one edge at the end. */
  lemma {:induction false} EdgesFromSnoc(eps: Tolerance, prev: Point, pts: seq<Point>, p: Point)
    ensures EdgesFrom(eps, prev, pts + [p]) ==
              EdgesFrom(eps, prev, pts) + match Edge(eps, LastOf(prev, pts), p) case Some(s) => [s] case None => []
    decreases |pts|
  {
    if pts != [] {
      assert (pts + [p])[1..] == pts[1..] + [p];
      EdgesFromSnoc(eps, pts[0], pts[1..], p);
      assert LastOf(pts[0], pts[1..]) == LastOf(prev, pts);
    }
  }

  /** The point before the one at i in prev followed by pts. */
  function PointBefore(prev: Point, pts: seq<Point>, i: nat): Point
    requires i < |pts|
  {
    if i == 0 then prev else pts[i - 1]
  }

  /**
   * With no zero-length edge every edge yields a segment, the one at i being
   * the edge from the point before the i-th to the i-th.
   */
  lemma {:induction false} EdgesFromAll(eps: Tolerance, prev: Point, pts: seq<Point>)
    requires forall i :: 0 <= i < |pts| ==> !PointsSame(eps, PointBefore(prev, pts, i), pts[i])
    ensures |EdgesFrom(eps, prev, pts)| == |pts|
    ensures forall i :: 0 <= i < |pts| ==> EdgesFrom(eps, prev, pts)[i] == Edge(eps, PointBefore(prev, pts, i), pts[i]).value
    decreases |pts|
  {
    if pts != [] {
      var rest := pts[1..];
      forall i | 0 <= i < |rest| ensures !PointsSame(eps, PointBefore(pts[0], rest, i), rest[i]) {
        assert PointBefore(pts[0], rest, i) == PointBefore(prev, pts, i + 1) && rest[i] == pts[i + 1];
      }
      EdgesFromAll(eps, pts[0], rest);
      assert !PointsSame(eps, PointBefore(prev, pts, 0), pts[0]);
      assert EdgesFrom(eps, prev, pts) == [Edge(eps, prev, pts[0]).value] + EdgesFrom(eps, pts[0], rest);
      forall i | 0 < i < |pts|
        ensures EdgesFrom(eps, prev, pts)[i] == Edge(eps, PointBefore(prev, pts, i), pts[i]).value
      {
        assert PointBefore(pts[0], rest, i - 1) == PointBefore(prev, pts, i) && rest[i - 1] == pts[i];
      }
    }
  }

  /** Every edge of a region, the closing one included, gives a segment when none has zero length. */
  lemma RegionSegmentsAll(eps: Tolerance, region: seq<Point>)
    requires region != []
    requires forall i :: 0 <= i < |region| ==> !PointsSame(eps, Before(region, i), region[i])
    ensures |RegionSegments(eps, region)| == |region|
    ensures forall i :: 0 <= i < |region| ==> RegionSegments(eps, region)[i] == Edge(eps, Before(region, i), region[i]).value
  {
    var last := region[|region| - 1];
    forall i | 0 <= i < |region| ensures PointBefore(last, region, i) == Before(region, i) {
    }
    EdgesFromAll(eps, last, region);
  }

  /**
   * SelfIntersecter: an Intersecter in self-intersection mode. The source's
   * subclass is modelled by holding the engine.
   */
  class SelfIntersecter {
    const core: Intersecter

    ghost predicate Valid()
      reads this, core, core.queue
    {
      core.selfIntersection && core.Valid() && core.Unswept()
    }

    constructor (eps: Tolerance)
      ensures Valid() && core.eps == eps && core.segs == [] && fresh(core) && fresh(core.queue)
    {
      core := new Intersecter(true, eps);
    }

    /** addRegion: adds the segments of every edge of the closed region. */
    method AddRegion(region: seq<Point>) returns (res: Result<(), Error>)
      requires Valid()
      modifies core, core.queue
      ensures Valid()
      ensures region == [] ==> res == Failure(EmptyRegion) && core.segs == old(core.segs)
      ensures region != [] ==> res == Success(()) && core.segs == old(core.segs) + RegionSegments(core.eps, region)
      // two new events per segment, all of them queued
      ensures |core.queue.next| == old(|core.queue.next|) + 2 * (|core.segs| - old(|core.segs|))
      ensures forall n :: n in core.queue.Elems <==> n in old(core.queue.Elems) || old(|core.queue.next|) <= n < |core.queue.next|
    {
      if region == [] {
        return Failure(EmptyRegion);
      }
      var firstPoint: Point;
      var secondPoint := region[|region| - 1];
      for i := 0 to |region|
        invariant Valid()
        invariant core.segs == old(core.segs) + EdgesFrom(core.eps, region[|region| - 1], region[..i])
        invariant secondPoint == LastOf(region[|region| - 1], region[..i])
        invariant |core.queue.next| == old(|core.queue.next|) + 2 * (|core.segs| - old(|core.segs|))
        invariant forall n :: n in core.queue.Elems <==> n in old(core.queue.Elems) || old(|core.queue.next|) <= n < |core.queue.next|
      {
        firstPoint := secondPoint;
        secondPoint := region[i];
        EdgesFromSnoc(core.eps, region[|region| - 1], region[..i], region[i]);
        assert region[..i + 1] == region[..i] + [region[i]];
        var edge := Edge(core.eps, firstPoint, secondPoint);
        if edge.Some? {
          AddSegment(edge.value);
        }
      }
      assert region[..|region|] == region;
      return Success(());
    }

    /** eventAddSegment for a primary segment of unknown fill, keeping the sweep unstarted. */
    method AddSegment(seg: Segment)
      requires Valid() && seg.otherFill.None?
      modifies core, core.queue
      ensures Valid() && core.segs == old(core.segs) + [seg]
      // its start and end events, partnered, join the queue
      ensures |core.queue.next| == old(|core.queue.next|) + 2
      ensures core.queue.content == old(core.queue.content) +
                [Event(true, seg.start, |old(core.segs)|, true, old(|core.queue.next|) + 1, None),
                 Event(false, seg.end, |old(core.segs)|, true, old(|core.queue.next|), None)]
      ensures forall n :: n in core.queue.Elems <==> n in old(core.queue.Elems) || old(|core.queue.next|) <= n < |core.queue.next|
    {
      var start := core.EventAddSegment(seg, true);
    }

    /** calculate: the sweep with the polygon's inverted flag for the primary polygon and false for the other. */
    method Calculate(inverted: bool, fuel: nat) returns (res: Result<seq<Segment>, Error>)
      requires Valid()
      modifies core, core.queue
      ensures core.Valid()
      ensures res.Success? ==> forall s :: s in res.value ==>
                s.myFill.above.Some? && s.myFill.below.Some? && s.otherFill.None?
    {
      res := core.BaseCalculate(inverted, false, fuel);
    }
  }
}
