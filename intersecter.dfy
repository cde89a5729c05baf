/**
 * The sweep-line engine shared by the self-intersection and the combination
 * phases (internal/AbstractIntersecter.kt).
 *
 * The event queue is a LinkedList of Event records; the status list is a
 * LinkedList whose contents are queue nodes of start events. The Segment
 * objects of the source, shared by a start and an end event and updated in
 * place, live in the arena `segs` of the Intersecter; an event names its
 * segment by index.
 */
module Intersecter {
  import opened Wrappers
  import opened Epsilon
  import opened Segments
  import opened LinkedLists

  /** IntersecterContent: one endpoint event of a segment. */
  datatype Event = Event(
    isStart: bool,
    point: Point,
    seg: nat,              // index into the segment arena
    primary: bool,         // whether the segment belongs to the primary polygon
    other: nat,            // queue node of the partner event
    status: Option<nat>)   // end events: the status node of the segment once it is in the status

  /** segmentCopy: a fresh segment over [start, end] carrying a copy of seg's own fill only. */
  function SegmentCopy(start: Point, end: Point, seg: Segment): (r: Segment)
    ensures r.start == start && r.end == end
    ensures r.myFill == seg.myFill && r.otherFill.None?
  {
    Segment(start, end, Fill(seg.myFill.above, seg.myFill.below), None)
  }

  // ---------------------------------------------------------------------------
  // Event order
  // ---------------------------------------------------------------------------

  /**
   * eventCompare: the order of the event queue. Events are ordered by their own
   * point; at the same point an end event comes before a start event; two
   * events of the same kind are ordered by whether the first one's other point
   * lies above or on the second one's segment.
   */
  function EventCompare(eps: Tolerance, p1IsStart: bool, p1x1: Point, p1x2: Point,
                        p2IsStart: bool, p2x1: Point, p2x2: Point): (r: int)
    ensures r == -1 || r == 0 || r == 1
    ensures !PointsSame(eps, p1x1, p2x1) ==> r == PointsCompare(eps, p1x1, p2x1)
    ensures r == 0 <==> PointsSame(eps, p1x1, p2x1) && PointsSame(eps, p1x2, p2x2)
    ensures PointsSame(eps, p1x1, p2x1) && !PointsSame(eps, p1x2, p2x2) && p1IsStart != p2IsStart ==>
              (r == 1 <==> p1IsStart)
    ensures PointsSame(eps, p1x1, p2x1) && !PointsSame(eps, p1x2, p2x2) && p1IsStart == p2IsStart ==>
              (r == 1 <==> Orient(if p2IsStart then p2x1 else p2x2, if p2IsStart then p2x2 else p2x1, p1x2) >= -(eps as real))
  {
    var comparison := PointsCompare(eps, p1x1, p2x1);
    if comparison != 0 then comparison
    else if PointsSame(eps, p1x2, p2x2) then 0
    else if p1IsStart != p2IsStart then (if p1IsStart then 1 else -1)
    else if PointAboveOrOnLine(eps, p1x2, if p2IsStart then p2x1 else p2x2, if p2IsStart then p2x2 else p2x1) then 1
    else -1
  }

  /** An event compares equal to itself. */
  lemma EventCompareReflexive(eps: Tolerance, isStart: bool, p: Point, q: Point)
    ensures EventCompare(eps, isStart, p, q, isStart, p, q) == 0
  {
  }

  /**
   * Where the order is decided by the points or by the kinds of event, swapping
   * the two events negates the comparison.
   */
  lemma {:induction false} EventCompareAntisymmetric(eps: Tolerance, s1: bool, p1: Point, q1: Point,
                                                      s2: bool, p2: Point, q2: Point)
    requires !PointsSame(eps, p1, p2) || PointsSame(eps, q1, q2) || s1 != s2
    ensures EventCompare(eps, s1, p1, q1, s2, p2, q2) == -EventCompare(eps, s2, p2, q2, s1, p1, q1)
  {
    PointsSameSymmetric(eps, p1, p2);
    PointsSameSymmetric(eps, q1, q2);
    PointsCompareAntisymmetric(eps, p1, p2);
  }

  /** At one point, an end event is processed before a start event of a different segment. */
  lemma EndBeforeStart(eps: Tolerance, endPt: Point, endOther: Point, startPt: Point, startOther: Point)
    requires PointsSame(eps, endPt, startPt) && !PointsSame(eps, endOther, startOther)
    ensures EventCompare(eps, false, endPt, endOther, true, startPt, startOther) == -1
    ensures EventCompare(eps, true, startPt, startOther, false, endPt, endOther) == 1
  {
    PointsSameSymmetric(eps, endPt, startPt);
    PointsSameSymmetric(eps, endOther, startOther);
  }

  /**
   * The check eventAdd hands to insertBefore: the new event `ev`, whose partner
   * is at otherPt, goes before the queue node `here` when it compares lower.
   * The closure reads the node contents c of the moment it is built.
   */
  function InsertCheck(eps: Tolerance, c: seq<Event>, ev: nat, otherPt: Point): nat -> bool {
    (here: nat) =>
      && 1 <= ev <= |c| && 1 <= here <= |c| && 1 <= c[here - 1].other <= |c|
      && EventCompare(eps, c[ev - 1].isStart, c[ev - 1].point, otherPt,
                      c[here - 1].isStart, c[here - 1].point, c[c[here - 1].other - 1].point) < 0
  }

  /** Where eventAdd puts the new event ev relative to the queued event here: by points first, then by kinds. */
  lemma InsertCheckOrder(eps: Tolerance, c: seq<Event>, ev: nat, otherPt: Point, here: nat)
    requires 1 <= ev <= |c| && 1 <= here <= |c| && 1 <= c[here - 1].other <= |c|
    // events at other points: ev goes before here exactly when its point is lower
    ensures !PointsSame(eps, c[ev - 1].point, c[here - 1].point) ==>
              (InsertCheck(eps, c, ev, otherPt)(here) <==> PointsCompare(eps, c[ev - 1].point, c[here - 1].point) < 0)
    // at the same point, with different other ends, end events go before start events
    ensures PointsSame(eps, c[ev - 1].point, c[here - 1].point) && !PointsSame(eps, otherPt, c[c[here - 1].other - 1].point)
            && c[ev - 1].isStart != c[here - 1].isStart ==>
              (InsertCheck(eps, c, ev, otherPt)(here) <==> !c[ev - 1].isStart)
    // an equal event is passed over: ev goes after the events equal to it
    ensures PointsSame(eps, c[ev - 1].point, c[here - 1].point) && PointsSame(eps, otherPt, c[c[here - 1].other - 1].point) ==>
              !InsertCheck(eps, c, ev, otherPt)(here)
  {
  }

  /** The event order on queue nodes: x goes before y when it compares lower, each with its partner's point. */
  function EventBefore(eps: Tolerance, c: seq<Event>): (nat, nat) -> bool {
    (x: nat, y: nat) =>
      1 <= x <= |c| && 1 <= c[x - 1].other <= |c| && InsertCheck(eps, c, x, c[c[x - 1].other - 1].point)(y)
  }

  /**
   * The queued events x and y are ordered by their points or by their kinds,
   * not by the line test: their points differ, their partners' points agree,
   * or one starts and the other ends.
   */
  predicate OrderDecided(eps: Tolerance, c: seq<Event>, x: nat, y: nat) {
    && 1 <= x <= |c| && 1 <= c[x - 1].other <= |c| && 1 <= y <= |c| && 1 <= c[y - 1].other <= |c|
    && (|| !PointsSame(eps, c[x - 1].point, c[y - 1].point)
        || PointsSame(eps, c[c[x - 1].other - 1].point, c[c[y - 1].other - 1].point)
        || c[x - 1].isStart != c[y - 1].isStart)
  }

  /** Where the order is so decided, two events never each go before the other. */
  lemma EventBeforeAsymmetric(eps: Tolerance, c: seq<Event>, x: nat, y: nat)
    requires OrderDecided(eps, c, x, y)
    ensures EventBefore(eps, c)(x, y) ==> !EventBefore(eps, c)(y, x)
  {
    var px, qx, py, qy := c[x - 1].point, c[c[x - 1].other - 1].point, c[y - 1].point, c[c[y - 1].other - 1].point;
    EventCompareAntisymmetric(eps, c[x - 1].isStart, px, qx, c[y - 1].isStart, py, qy);
    assert EventBefore(eps, c)(x, y) == InsertCheck(eps, c, x, qx)(y);
    assert InsertCheck(eps, c, x, qx)(y) == (EventCompare(eps, c[x - 1].isStart, px, qx, c[y - 1].isStart, py, qy) < 0);
    assert EventBefore(eps, c)(y, x) == InsertCheck(eps, c, y, qy)(x);
    assert InsertCheck(eps, c, y, qy)(x) == (EventCompare(eps, c[y - 1].isStart, py, qy, c[x - 1].isStart, px, qx) < 0);
  }

  /**
   * Under the tolerance the line test is not antisymmetric: with eps = 1 each of
   * these two start events at nearly the same point compares lower than the other.
   */
  lemma EventCompareToleranceCounterexample()
    ensures EventCompare(1.0, true, Point(0.0, 0.0), Point(10.0, 0.0), true, Point(0.0, 0.5), Point(20.0, -0.2)) == -1
    ensures EventCompare(1.0, true, Point(0.0, 0.5), Point(20.0, -0.2), true, Point(0.0, 0.0), Point(10.0, 0.0)) == -1
  {
  }

  /** No queued event of s should go before its predecessor. */
  ghost predicate QueueOrdered(eps: Tolerance, c: seq<Event>, s: seq<nat>) {
    NoInversion(s, EventBefore(eps, c))
  }

  /**
   * The conditions under which eventAdd keeps the queue s ordered: it is
   * ordered, otherPt is the point of ev's partner, and the order of ev against
   * every queued event is decided by points or kinds.
   */
  ghost predicate AddOrdered(eps: Tolerance, c: seq<Event>, s: seq<nat>, ev: nat, otherPt: Point) {
    && 1 <= ev <= |c| && 1 <= c[ev - 1].other <= |c| && otherPt == c[c[ev - 1].other - 1].point
    && QueueOrdered(eps, c, s)
    && forall i :: 0 <= i < |s| ==> OrderDecided(eps, c, ev, s[i])
  }

  /**
   * eventAdd keeps a queue in which no event should go before its predecessor
   * so, when the order of the new event ev against every queued event is
   * decided by points or by kinds.
   */
  lemma {:induction false} EventAddKeepsOrder(eps: Tolerance, c: seq<Event>, s: seq<nat>, ev: nat, otherPt: Point)
    requires AddOrdered(eps, c, s, ev, otherPt)
    ensures QueueOrdered(eps, c, InsertAt(s, FirstTrue(s, InsertCheck(eps, c, ev, otherPt)), ev))
  {
    var before := EventBefore(eps, c);
    var check := InsertCheck(eps, c, ev, otherPt);
    var k := FirstTrue(s, check);
    forall j | 0 <= j < |s|
      ensures before(ev, s[j]) == check(s[j])
    {
    }
    FirstTrueAt(s, (e: nat) => before(ev, e), k);
    forall i | 0 <= i < |s|
      ensures before(ev, s[i]) ==> !before(s[i], ev)
    {
      EventBeforeAsymmetric(eps, c, ev, s[i]);
    }
    InsertionKeepsOrder(s, ev, before);
  }

  // ---------------------------------------------------------------------------
  // Status order
  // ---------------------------------------------------------------------------

  /**
   * statusCompare: 1 when segment a lies above segment b at the sweep line,
   * judged by a's start or, when that lies on b's line, by a's end. It is never 0.
   */
  function StatusCompare(eps: Tolerance, a: Segment, b: Segment): (r: int)
    ensures r == 1 || r == -1
    ensures !PointsCollinear(eps, a.start, b.start, b.end) ==>
              (r == 1 <==> Orient(b.start, b.end, a.start) >= -(eps as real))
    ensures PointsCollinear(eps, a.start, b.start, b.end) ==>
              (r == 1 <==> PointsCollinear(eps, a.end, b.start, b.end) || Orient(b.start, b.end, a.end) >= -(eps as real))
  {
    if PointsCollinear(eps, a.start, b.start, b.end) then
      if PointsCollinear(eps, a.end, b.start, b.end) then 1
      else if PointAboveOrOnLine(eps, a.end, b.start, b.end) then 1 else -1
    else if PointAboveOrOnLine(eps, a.start, b.start, b.end) then 1 else -1
  }

  /** A segment lying on b's line is put above b: a copy of b is inserted before b in the status. */
  lemma StatusCompareOnLine(eps: Tolerance, a: Segment, b: Segment)
    requires PointsCollinear(eps, a.start, b.start, b.end) && PointsCollinear(eps, a.end, b.start, b.end)
    ensures StatusCompare(eps, a, b) == 1
  {
  }

  /** In particular every segment compares above itself. */
  lemma StatusCompareSelf(eps: Tolerance, a: Segment)
    ensures StatusCompare(eps, a, a) == 1
  {
    StatusCompareOnLine(eps, a, a);
  }

  /**
   * The check of statusFindSurrounding: the start event ev goes before the
   * status node `here` when its segment compares above here's segment.
   */
  function StatusCheck(eps: Tolerance, qc: seq<Event>, segs: seq<Segment>, sc: seq<nat>, ev: nat): nat -> bool {
    (here: nat) =>
      && 1 <= ev <= |qc| && qc[ev - 1].seg < |segs|
      && 1 <= here <= |sc| && 1 <= sc[here - 1] <= |qc| && qc[sc[here - 1] - 1].seg < |segs|
      && StatusCompare(eps, segs[qc[ev - 1].seg], segs[qc[sc[here - 1] - 1].seg]) > 0
  }

  /** Where statusFindSurrounding puts the segment of ev relative to the segment of the status node here. */
  lemma StatusCheckOrder(eps: Tolerance, qc: seq<Event>, segs: seq<Segment>, sc: seq<nat>, ev: nat, here: nat)
    requires 1 <= ev <= |qc| && qc[ev - 1].seg < |segs|
    requires 1 <= here <= |sc| && 1 <= sc[here - 1] <= |qc| && qc[sc[here - 1] - 1].seg < |segs|
    // a segment starting off here's line goes before here exactly when its start lies above or on that line
    ensures var a, b := segs[qc[ev - 1].seg], segs[qc[sc[here - 1] - 1].seg];
            !PointsCollinear(eps, a.start, b.start, b.end) ==>
              (StatusCheck(eps, qc, segs, sc, ev)(here) <==> Orient(b.start, b.end, a.start) >= -(eps as real))
    // a segment lying along here's line goes before here
    ensures var a, b := segs[qc[ev - 1].seg], segs[qc[sc[here - 1] - 1].seg];
            PointsCollinear(eps, a.start, b.start, b.end) && PointsCollinear(eps, a.end, b.start, b.end) ==>
              StatusCheck(eps, qc, segs, sc, ev)(here)
  {
  }

  // ---------------------------------------------------------------------------
  // Intersection plan
  // ---------------------------------------------------------------------------

  /** One eventDivide call: split the first (ev1) or the second (ev2) segment at pt. */
  datatype Division = Division(first: bool, pt: Point)

  /**
   * What checkIntersection does to two segments: the divisions it performs, in
   * order, and whether it reports the second segment as coincident with the first.
   */
  datatype Plan = Plan(divisions: seq<Division>, coincident: bool)

  /** The division of an along value: at the start (-1), at the crossing (0), at the end (1). */
  function AlongDivision(first: bool, along: int, start: Point, crossing: Point, end: Point): (r: seq<Division>)
    ensures |r| <= 1
    ensures |r| == 1 <==> -1 <= along <= 1
    ensures forall d :: d in r ==> d.first == first
  {
    if along == -1 then [Division(first, start)]
    else if along == 0 then [Division(first, crossing)]
    else if along == 1 then [Division(first, end)]
    else []
  }

  /**
   * The decisions of checkIntersection for segment A = (a1, a2) and B = (b1, b2).
   * They depend only on the four endpoints as they are on entry.
   */
  function PlanIntersection(eps: Tolerance, a1: Point, a2: Point, b1: Point, b2: Point): (r: Plan)
    ensures |r.divisions| <= 2
    // the second segment is reported exactly when the two lie on one line, do not
    // merely touch end to start, and start at the same point
    ensures r.coincident <==>
              && LinesIntersect(eps, a1, a2, b1, b2).None?
              && PointsCollinear(eps, a1, a2, b1)
              && !PointsSame(eps, a1, b2) && !PointsSame(eps, a2, b1)
              && PointsSame(eps, a1, b1)
    // parallel lines, and collinear segments that only touch, are left alone
    ensures LinesIntersect(eps, a1, a2, b1, b2).None? && !PointsCollinear(eps, a1, a2, b1) ==> r == Plan([], false)
    ensures LinesIntersect(eps, a1, a2, b1, b2).None? && (PointsSame(eps, a1, b2) || PointsSame(eps, a2, b1)) ==>
              r.divisions == []
    // equal segments are reported without dividing
    ensures (&& LinesIntersect(eps, a1, a2, b1, b2).None? && PointsCollinear(eps, a1, a2, b1)
             && !PointsSame(eps, a1, b2) && !PointsSame(eps, a2, b1)
             && PointsSame(eps, a1, b1) && PointsSame(eps, a2, b2)) ==> r == Plan([], true)
    // a shared start: the longer segment is cut at the shorter one's end
    ensures r.coincident && !PointsSame(eps, a2, b2) ==>
              |r.divisions| == 1 && (r.divisions[0].first ==> r.divisions[0].pt == b2)
              && (!r.divisions[0].first ==> r.divisions[0].pt == a2)
    // a partial overlap with a1 strictly inside B: the ends are made equal first,
    // cutting B at a2 when a2 lies inside B and A at b2 otherwise, and then B is cut at a1
    ensures (&& LinesIntersect(eps, a1, a2, b1, b2).None? && PointsCollinear(eps, a1, a2, b1)
             && !PointsSame(eps, a1, b2) && !PointsSame(eps, a2, b1)
             && !PointsSame(eps, a1, b1) && PointBetween(eps, a1, b1, b2)) ==>
              && !r.coincident
              && r.divisions == (if PointsSame(eps, a2, b2) then []
                                 else if PointBetween(eps, a2, b1, b2) then [Division(false, a2)]
                                 else [Division(true, b2)]) + [Division(false, a1)]
    // a collinear overlap in which a1 is outside B and differs from b1 is left alone here
    ensures (&& LinesIntersect(eps, a1, a2, b1, b2).None? && PointsCollinear(eps, a1, a2, b1)
             && !PointsSame(eps, a1, b1) && !PointBetween(eps, a1, b1, b2)) ==> r == Plan([], false)
    // crossing lines: a segment is cut only where the crossing is strictly inside it,
    // at the other segment's endpoint or at the crossing point
    ensures LinesIntersect(eps, a1, a2, b1, b2).Some? ==>
              var i := LinesIntersect(eps, a1, a2, b1, b2).value;
              && !r.coincident
              && (forall d :: d in r.divisions && d.first ==> i.alongA == 0 && d.pt in {b1, i.pt, b2})
              && (forall d :: d in r.divisions && !d.first ==> i.alongB == 0 && d.pt in {a1, i.pt, a2})
              && (i.alongA == 0 && -1 <= i.alongB <= 1 ==> exists d :: d in r.divisions && d.first)
              && (i.alongB == 0 && -1 <= i.alongA <= 1 ==> exists d :: d in r.divisions && !d.first)
  {
    match LinesIntersect(eps, a1, a2, b1, b2)
    case None =>
      if !PointsCollinear(eps, a1, a2, b1) then Plan([], false)
      else if PointsSame(eps, a1, b2) || PointsSame(eps, a2, b1) then Plan([], false)
      else
        var a1EquB1 := PointsSame(eps, a1, b1);
        var a2EquB2 := PointsSame(eps, a2, b2);
        if a1EquB1 && a2EquB2 then Plan([], true)
        else
          var a1Between := !a1EquB1 && PointBetween(eps, a1, b1, b2);
          var a2Between := !a2EquB2 && PointBetween(eps, a2, b1, b2);
          // make the two ends equal: cut B at a2 when a2 lies inside B, else cut A at b2
          var trim := if a2Between then Division(false, a2) else Division(true, b2);
          if a1EquB1 then Plan([trim], true)
          else if a1Between then Plan((if !a2EquB2 then [trim] else []) + [Division(false, a1)], false)
          else Plan([], false)
    case Some(i) =>
      var onA := if i.alongA == 0 then AlongDivision(true, i.alongB, b1, i.pt, b2) else [];
      var onB := if i.alongB == 0 then AlongDivision(false, i.alongA, a1, i.pt, a2) else [];
      assert forall d :: d in onA + onB <==> d in onA || d in onB;
      Plan(onA + onB, false)
  }

  /**
   * Two segments crossing strictly inside both are cut at one point, which lies
   * on both of them.
   */
  lemma {:induction false} PlanCrossing(eps: Tolerance, a1: Point, a2: Point, b1: Point, b2: Point)
    requires LinesIntersect(eps, a1, a2, b1, b2).Some?
    requires LinesIntersect(eps, a1, a2, b1, b2).value.alongA == 0
    requires LinesIntersect(eps, a1, a2, b1, b2).value.alongB == 0
    ensures var p := LinesIntersect(eps, a1, a2, b1, b2).value.pt;
            && PlanIntersection(eps, a1, a2, b1, b2).divisions == [Division(true, p), Division(false, p)]
            && p == PointAt(a1, a2, ParamA(a1, a2, b1, b2))
            && p == PointAt(b1, b2, ParamB(a1, a2, b1, b2))
  {
    CrossingOnBothLines(a1, a2, b1, b2);
  }

  // ---------------------------------------------------------------------------
  // Fill rules
  // ---------------------------------------------------------------------------

  /** A segment is toggling when it is new (nothing known below) or its two sides differ. */
  function SelfToggle(f: Fill): (r: bool)
    ensures f.below.None? ==> r
    ensures f.below.Some? ==> (r <==> f.above != f.below)
  {
    f.below.None? || f.above != f.below
  }

  /**
   * The self-intersection fill of a start event: the side below is the
   * inversion flag when nothing is below, else the fill above the segment
   * below; the side above is the side below, flipped when the segment toggles.
   */
  function SelfFill(f: Fill, below: Option<Fill>, inverted: bool): (r: Fill)
    ensures r.below == if below.None? then Some(inverted) else below.value.above
    ensures r.above != r.below <==> SelfToggle(f)
    ensures below.None? || below.value.above.Some? ==> r.above.Some? && r.below.Some?
  {
    var newBelow := if below.None? then Some(inverted) else below.value.above;
    var newAbove := if SelfToggle(f) then Some(!newBelow.GetOr(false)) else newBelow;
    Fill(newAbove, newBelow)
  }

  /**
   * Once computed, a fill keeps its toggling: a segment divided later recomputes
   * the same toggle from the copy of its fill.
   */
  lemma SelfFillKeepsToggle(f: Fill, below: Option<Fill>, inverted: bool)
    requires below.None? || below.value.above.Some?
    ensures SelfToggle(SelfFill(f, below, inverted)) == SelfToggle(f)
  {
  }

  /**
   * Merging a coincident segment of the same polygon into the survivor: the
   * survivor's side above flips when the discarded segment toggles.
   */
  function MergeSelf(survivor: Fill, discarded: Fill): (r: Fill)
    ensures r.below == survivor.below
    ensures r.above == survivor.above <==> !SelfToggle(discarded)
    ensures survivor.above.Some? ==> r.above.Some?
  {
    if SelfToggle(discarded) then survivor.(above := Some(!survivor.above.GetOr(false))) else survivor
  }

  /** Two coincident toggling copies of one edge cancel each other out. */
  lemma MergeSelfTwice(survivor: Fill, discarded: Fill)
    requires survivor.above.Some?
    ensures MergeSelf(MergeSelf(survivor, discarded), discarded) == survivor
  {
  }

  /** The segment below a start event in the status, as the combine rule sees it. */
  datatype Neighbour = Neighbour(primary: bool, seg: Segment)

  /** The fill of the polygon other than `viewer`'s, as recorded on a neighbour. */
  function OtherPolygonFill(viewer: bool, n: Neighbour): Option<Fill> {
    if n.primary == viewer then n.seg.otherFill else Some(n.seg.myFill)
  }

  /**
   * Whether a start event of polygon `primary` lies inside the other polygon:
   * with nothing below, when the other polygon is inverted; otherwise, when the
   * other polygon fills the side above the segment below.
   */
  function CombineInside(primary: bool, below: Option<Neighbour>, inverted1: bool, inverted2: bool): (r: bool)
    requires below.Some? && below.value.primary == primary ==> below.value.seg.otherFill.Some?
    ensures below.None? ==> r == if primary then inverted2 else inverted1
    ensures below.Some? ==> r == (OtherPolygonFill(primary, below.value).value.above == Some(true))
  {
    if below.None? then (if primary then inverted2 else inverted1)
    else if primary == below.value.primary then below.value.seg.otherFill.value.above.GetOr(false)
    else below.value.seg.myFill.above.GetOr(false)
  }

  /** The rule does not depend on which polygon is called primary. */
  lemma CombineInsideRelabel(primary: bool, below: Option<Neighbour>, inverted1: bool, inverted2: bool)
    requires below.Some? && below.value.primary == primary ==> below.value.seg.otherFill.Some?
    ensures var swapped := if below.Some? then Some(below.value.(primary := !below.value.primary)) else None;
            CombineInside(primary, below, inverted1, inverted2) == CombineInside(!primary, swapped, inverted2, inverted1)
  {
  }

  /** The combined segment reported for an end event: myFill is always the primary polygon's fill. */
  function OutputSegment(primary: bool, s: Segment): (r: Segment)
    requires !primary ==> s.otherFill.Some?
    ensures r.start == s.start && r.end == s.end
    ensures primary ==> r == s
    ensures !primary ==> r.myFill == s.otherFill.value && r.otherFill == Some(s.myFill)
  {
    if primary then s else s.(myFill := s.otherFill.value, otherFill := Some(s.myFill))
  }

  /** Re-labelling a secondary segment twice restores it. */
  lemma OutputSegmentTwice(s: Segment)
    requires s.otherFill.Some?
    ensures OutputSegment(false, OutputSegment(false, s)) == s
  {
  }

  // ---------------------------------------------------------------------------
  // Sweep state
  // ---------------------------------------------------------------------------

  /**
   * A segment whose fill the sweep has settled: in the self-intersection phase
   * both of its own sides are known, in the combination phase the other
   * polygon's fill is known.
   */
  predicate Resolved(selfIntersection: bool, s: Segment) {
    if selfIntersection then s.myFill.above.Some? && s.myFill.below.Some? else s.otherFill.Some?
  }

  /** A segment as the sweep reports it. */
  predicate Reported(selfIntersection: bool, s: Segment) {
    Resolved(selfIntersection, s) && (selfIntersection ==> s.otherFill.None?)
  }

  /** The start event at i shares its segment with its partner end event. */
  ghost predicate PartnerShares(c: seq<Event>, i: int) {
    0 <= i < |c| && c[i].isStart && 1 <= c[i].other <= |c| ==> c[c[i].other - 1].seg == c[i].seg
  }

  /**
   * The queue contents c are well formed over an arena of nsegs segments:
   * partners and segments exist, a start event shares its segment with its
   * partner, and the self-intersection phase has only the primary polygon.
   */
  ghost predicate EventsWellFormed(c: seq<Event>, nsegs: nat, selfIntersection: bool) {
    && (forall i :: 0 <= i < |c| ==>
          && 1 <= c[i].other <= |c| && c[i].seg < nsegs
          && (selfIntersection ==> c[i].primary))
    && (forall i {:trigger PartnerShares(c, i)} :: 0 <= i < |c| ==> PartnerShares(c, i))
  }

  /** Appending the two events of a new last segment keeps the contents well formed. */
  lemma AppendSegmentEvents(c: seq<Event>, nsegs: nat, selfIntersection: bool, start: Event, end: Event)
    requires EventsWellFormed(c, nsegs, selfIntersection)
    requires start == Event(true, start.point, nsegs, start.primary, |c| + 2, None)
    requires end == Event(false, end.point, nsegs, start.primary, |c| + 1, None)
    requires selfIntersection ==> start.primary
    ensures EventsWellFormed(c + [start, end], nsegs + 1, selfIntersection)
  {
    var c' := c + [start, end];
    forall i | 0 <= i < |c'|
      ensures PartnerShares(c', i)
    {
      if i < |c| {
        assert PartnerShares(c, i);
        assert c'[i] == c[i] && c'[c[i].other - 1] == c[c[i].other - 1];
      }
    }
  }

  /** Changing only the points and status links of events keeps the contents well formed. */
  lemma RetouchEvents(c: seq<Event>, c': seq<Event>, nsegs: nat, selfIntersection: bool)
    requires EventsWellFormed(c, nsegs, selfIntersection)
    requires |c'| == |c|
    requires forall i :: 0 <= i < |c| ==> c'[i] == c[i].(point := c'[i].point, status := c'[i].status)
    ensures EventsWellFormed(c', nsegs, selfIntersection)
  {
    forall i | 0 <= i < |c'|
      ensures PartnerShares(c', i)
    {
      assert PartnerShares(c, i);
      assert c'[i].other == c[i].other;
    }
  }

  /** Old events only ever change their point; new ones are not in the status. */
  ghost predicate EventsKept(oc: seq<Event>, nc: seq<Event>) {
    && |oc| <= |nc|
    && (forall i :: 0 <= i < |oc| ==> nc[i] == oc[i].(point := nc[i].point))
    && (forall i :: |oc| <= i < |nc| ==> nc[i].status.None?)
  }

  /** The fills of the old segments are untouched. */
  ghost predicate FillsKept(os: seq<Segment>, ns: seq<Segment>) {
    && |os| <= |ns|
    && (forall i :: 0 <= i < |os| ==> ns[i].myFill == os[i].myFill && ns[i].otherFill == os[i].otherFill)
  }

  /** The event ev of the contents c names a partner event and a segment of segs. */
  predicate Names(c: seq<Event>, segs: seq<Segment>, ev: nat) {
    1 <= ev <= |c| && 1 <= c[ev - 1].other <= |c| && c[ev - 1].seg < |segs|
  }

  /**
   * The event contents and segments after eventDivide splits the segment of
   * the start event ev at pt: the segment ends at pt and so does its end event;
   * a copy [pt, old end] with a copy of its own fill joins the arena, with a
   * start event (node |c| + 1) and an end event (node |c| + 2) of its own.
   */
  function DivideState(c: seq<Event>, segs: seq<Segment>, ev: nat, pt: Point): (r: (seq<Event>, seq<Segment>))
    ensures Names(c, segs, ev) ==> |r.0| == |c| + 2 && |r.1| == |segs| + 1
    ensures !Names(c, segs, ev) ==> r == (c, segs)
  {
    if !Names(c, segs, ev) then (c, segs)
    else
      var e := c[ev - 1];
      var s := segs[e.seg];
      var ns := |c| + 1;
      (c[e.other - 1 := c[e.other - 1].(point := pt)]
         + [Event(true, pt, |segs|, e.primary, ns + 1, None), Event(false, s.end, |segs|, e.primary, ns, None)],
       segs[e.seg := s.(end := pt)] + [SegmentCopy(pt, s.end, s)])
  }

  /**
   * What a division means: the segment and its copy meet at pt and together
   * run from the old start to the old end with the same own fill, the two new
   * events are partners of the copy with the primary flag of ev, and the old
   * end event now sits at pt.
   */
  lemma DivideStatePieces(c: seq<Event>, segs: seq<Segment>, ev: nat, pt: Point)
    requires Names(c, segs, ev)
    ensures var e, r := c[ev - 1], DivideState(c, segs, ev, pt);
            var s, ns := segs[e.seg], |c| + 1;
            && r.1[e.seg].start == s.start && r.1[e.seg].end == pt && r.1[e.seg].myFill == s.myFill
            && r.1[|segs|].start == pt && r.1[|segs|].end == s.end && r.1[|segs|].myFill == s.myFill
            && r.1[|segs|].otherFill.None?
            && r.0[ns - 1].isStart && r.0[ns - 1].point == pt && r.0[ns - 1].other == ns + 1
            && !r.0[ns].isStart && r.0[ns].point == s.end && r.0[ns].other == ns
            && r.0[ns - 1].seg == |segs| == r.0[ns].seg
            && r.0[ns - 1].primary == e.primary == r.0[ns].primary
            && r.0[e.other - 1].point == pt
            && (forall i :: 0 <= i < |segs| && i != e.seg ==> r.1[i] == segs[i])
  {
  }

  /**
   * The state after the divisions ds in order, each splitting the segment of
   * ev1 (a division marked first) or of ev2.
   */
  function DivideAll(c: seq<Event>, segs: seq<Segment>, ev1: nat, ev2: nat, ds: seq<Division>): (r: (seq<Event>, seq<Segment>))
    // divisions only move the points of old events, and never shrink the arena
    ensures |c| <= |r.0| && FillsKept(segs, r.1)
    ensures forall i :: 0 <= i < |c| ==> r.0[i] == c[i].(point := r.0[i].point)
    decreases |ds|
  {
    if ds == [] then (c, segs)
    else
      var m := DivideState(c, segs, if ds[0].first then ev1 else ev2, ds[0].pt);
      DivideAll(m.0, m.1, ev1, ev2, ds[1..])
  }

  /** The plan of checkIntersection for the segments of the events ev1 and ev2. */
  function PlanOf(eps: Tolerance, c: seq<Event>, segs: seq<Segment>, ev1: nat, ev2: nat): Plan {
    if Names(c, segs, ev1) && Names(c, segs, ev2) then
      var a := segs[c[ev1 - 1].seg];
      var b := segs[c[ev2 - 1].seg];
      PlanIntersection(eps, a.start, a.end, b.start, b.end)
    else Plan([], false)
  }

  /** The state after checkIntersection(ev1, ev2) has carried out its divisions. */
  function Intersected(eps: Tolerance, c: seq<Event>, segs: seq<Segment>, ev1: nat, ev2: nat): (seq<Event>, seq<Segment>) {
    DivideAll(c, segs, ev1, ev2, PlanOf(eps, c, segs, ev1, ev2).divisions)
  }

  /**
   * The state after the neighbours prev and next of a leaving status node
   * (status contents sc) are checked against each other: Intersected of their
   * events when both exist, and no change otherwise.
   */
  function Rechecked(eps: Tolerance, c: seq<Event>, segs: seq<Segment>, sc: seq<nat>, prev: Option<nat>, next: Option<nat>)
    : (seq<Event>, seq<Segment>)
  {
    if prev.Some? && next.Some? && 1 <= prev.value <= |sc| && 1 <= next.value <= |sc| then
      Intersected(eps, c, segs, sc[prev.value - 1], sc[next.value - 1])
    else (c, segs)
  }

  /**
   * The events of the status entries on either side of position k of the
   * status order es (contents sc): the one above (before) and the one below
   * (after) a segment inserted there.
   */
  function Surrounding(sc: seq<nat>, es: seq<nat>, k: nat): (Option<nat>, Option<nat>) {
    (if 0 < k <= |es| && 1 <= es[k - 1] <= |sc| then Some(sc[es[k - 1] - 1]) else None,
     if k < |es| && 1 <= es[k] <= |sc| then Some(sc[es[k] - 1]) else None)
  }

  /** statusFindSurrounding's neighbours are the entries on either side of the transition k. */
  lemma SurroundingAt(sc: seq<nat>, es: seq<nat>, k: nat, before: Option<nat>, after: Option<nat>, above: Option<nat>, below: Option<nat>)
    requires k <= |es|
    requires before == (if k == 0 then None else Some(es[k - 1])) && after == (if k < |es| then Some(es[k]) else None)
    requires before.Some? ==> 1 <= before.value <= |sc|
    requires after.Some? ==> 1 <= after.value <= |sc|
    requires above == (if before.Some? then Some(sc[before.value - 1]) else None)
    requires below == (if after.Some? then Some(sc[after.value - 1]) else None)
    ensures (above, below) == Surrounding(sc, es, k)
  {
  }

  /**
   * The state and the coincident event after checkBothIntersections for the
   * start event ev: the event above is checked first, and the event below,
   * on the state that check left, only when above was not coincident.
   */
  function BothChecked(eps: Tolerance, c: seq<Event>, segs: seq<Segment>, ev: nat, above: Option<nat>, below: Option<nat>)
    : (seq<Event>, seq<Segment>, Option<nat>)
  {
    var mid := if above.Some? then Intersected(eps, c, segs, ev, above.value) else (c, segs);
    if above.Some? && PlanOf(eps, c, segs, ev, above.value).coincident then (mid.0, mid.1, above)
    else if below.Some? then
      var fin := Intersected(eps, mid.0, mid.1, ev, below.value);
      (fin.0, fin.1, if PlanOf(eps, mid.0, mid.1, ev, below.value).coincident then below else None)
    else (mid.0, mid.1, None)
  }

  /**
   * The segments once the start event ev is merged into the coincident event
   * eve (contents c): in the self phase eve's segment toggles by ev's fill, in
   * the combination phase it learns ev's fill as the other polygon's.
   */
  function Merged(selfIntersection: bool, c: seq<Event>, segs: seq<Segment>, ev: nat, eve: nat): seq<Segment> {
    if 1 <= ev <= |c| && 1 <= eve <= |c| && c[ev - 1].seg < |segs| && c[eve - 1].seg < |segs| then
      var survivor, discarded := c[eve - 1].seg, c[ev - 1].seg;
      if selfIntersection
      then segs[survivor := segs[survivor].(myFill := MergeSelf(segs[survivor].myFill, segs[discarded].myFill))]
      else segs[survivor := segs[survivor].(otherFill := Some(segs[discarded].myFill))]
    else segs
  }

  /** The queue node q holds an event whose segment is resolved. */
  ghost predicate ResolvedEvent(selfIntersection: bool, qc: seq<Event>, segs: seq<Segment>, q: nat) {
    1 <= q <= |qc| && qc[q - 1].seg < |segs| && Resolved(selfIntersection, segs[qc[q - 1].seg])
  }

  /**
   * The sweep invariant over the queue contents qc, the segments and the status
   * list (contents sc, elements sElems, sSize nodes): status nodes name queue
   * nodes, the segments in the status are resolved, and so are the segments
   * whose end events know their status node.
   */
  ghost predicate SweepData(selfIntersection: bool, qc: seq<Event>, segs: seq<Segment>,
                            sc: seq<nat>, sElems: seq<nat>, sSize: nat) {
    && (forall j :: 0 <= j < |sc| ==> 1 <= sc[j] <= |qc|)
    && (forall m :: m in sElems ==> 1 <= m <= |sc| && ResolvedEvent(selfIntersection, qc, segs, sc[m - 1]))
    && (forall j :: 0 <= j < |qc| && qc[j].status.Some? ==>
          1 <= qc[j].status.value < sSize && qc[j].seg < |segs| && Resolved(selfIntersection, segs[qc[j].seg]))
  }

  /** Resolved segments stay resolved. */
  ghost predicate ResolvedKept(selfIntersection: bool, os: seq<Segment>, ns: seq<Segment>) {
    && |os| <= |ns|
    && (forall i :: 0 <= i < |os| && Resolved(selfIntersection, os[i]) ==> Resolved(selfIntersection, ns[i]))
  }

  /** The invariant survives queue and segment changes that keep events and resolved fills. */
  lemma SweepDataKept(selfIntersection: bool, qc: seq<Event>, segs: seq<Segment>, sc: seq<nat>, sElems: seq<nat>,
                      sSize: nat, qc': seq<Event>, segs': seq<Segment>)
    requires SweepData(selfIntersection, qc, segs, sc, sElems, sSize)
    requires EventsKept(qc, qc') && ResolvedKept(selfIntersection, segs, segs')
    ensures SweepData(selfIntersection, qc', segs', sc, sElems, sSize)
  {
    forall m | m in sElems
      ensures 1 <= m <= |sc| && ResolvedEvent(selfIntersection, qc', segs', sc[m - 1])
    {
      assert ResolvedEvent(selfIntersection, qc, segs, sc[m - 1]);
      assert qc'[sc[m - 1] - 1].seg == qc[sc[m - 1] - 1].seg;
    }
    forall j | 0 <= j < |qc'| && qc'[j].status.Some?
      ensures 1 <= qc'[j].status.value < sSize && qc'[j].seg < |segs'| && Resolved(selfIntersection, segs'[qc'[j].seg])
    {
      assert j < |qc|;
      assert qc'[j].status == qc[j].status && qc'[j].seg == qc[j].seg;
    }
  }

  /**
   * The fill flags settled for the start event ev, the segments going from os
   * to ns: only ev's segment changes, and only in its fills. In the
   * self-intersection phase myFill follows SelfFill from the fill of the
   * segment below; in the combination phase a segment that does not know the
   * other polygon yet gets, on both sides, whether it lies inside that
   * polygon, judged from the segment below; one that knows it stays as it is.
   */
  ghost predicate FillSettled(selfIntersection: bool, qc: seq<Event>, os: seq<Segment>, ns: seq<Segment>,
                              ev: nat, below: Option<nat>, inverted1: bool, inverted2: bool) {
    && 1 <= ev <= |qc| && qc[ev - 1].seg < |os|
    && (below.Some? ==> ResolvedEvent(selfIntersection, qc, os, below.value))
    && var s := qc[ev - 1].seg;
       var belowSeg := if below.Some? then Some(os[qc[below.value - 1].seg]) else None;
       && |ns| == |os|
       && (forall i :: 0 <= i < |ns| && i != s ==> ns[i] == os[i])
       && ns[s].start == os[s].start && ns[s].end == os[s].end
       && (selfIntersection ==>
             ns[s].myFill == SelfFill(os[s].myFill, if below.Some? then Some(belowSeg.value.myFill) else None, inverted1))
       && (!selfIntersection && os[s].otherFill.None? ==>
             var inside := CombineInside(qc[ev - 1].primary,
                                         if below.Some? then Some(Neighbour(qc[below.value - 1].primary, belowSeg.value)) else None,
                                         inverted1, inverted2);
             ns[s].otherFill == Some(Fill(Some(inside), Some(inside))))
       && (!selfIntersection ==> ns[s].myFill == os[s].myFill)
       && (!selfIntersection && os[s].otherFill.Some? ==> ns[s] == os[s])
  }

  /** The contents c once the end event of the start event ev knows its status node st. */
  function StatusRecorded(c: seq<Event>, ev: nat, st: nat): seq<Event> {
    if 1 <= ev <= |c| && 1 <= c[ev - 1].other <= |c| then
      var o := c[ev - 1].other;
      c[o - 1 := c[o - 1].(status := Some(st))]
    else c
  }

  class Intersecter {
    const selfIntersection: bool
    const eps: Tolerance
    /** eventRoot: the event queue. */
    const queue: LinkedList<Event>
    /** The segment objects the events refer to. */
    var segs: seq<Segment>

    ghost predicate Valid()
      reads this, queue
    {
      && queue.Valid()
      && EventsWellFormed(queue.content, |segs|, selfIntersection)
      && (selfIntersection ==> forall i :: 0 <= i < |segs| ==> segs[i].otherFill.None?)
    }

    /** No event knows a status node yet: the sweep has not started. */
    ghost predicate Unswept()
      reads this, queue
    {
      forall i :: 0 <= i < |queue.content| ==> queue.content[i].status.None?
    }

    /** The sweep invariant for the status list `status`. */
    ghost predicate SweepInv(status: LinkedList<nat>)
      reads this, queue, status
    {
      && status.Valid()
      && SweepData(selfIntersection, queue.content, segs, status.content, status.Elems, |status.next|)
    }

    constructor (selfIntersection: bool, eps: Tolerance)
      ensures this.selfIntersection == selfIntersection && this.eps == eps
      ensures Valid() && Unswept() && fresh(queue)
      ensures queue.Elems == [] && queue.content == [] && segs == []
    {
      this.selfIntersection := selfIntersection;
      this.eps := eps;
      queue := new LinkedList<Event>();
      segs := [];
    }

    /** eventAdd: links the detached event node ev into the queue at its place in the event order. */
    method EventAdd(ev: nat, otherPt: Point)
      requires Valid() && 1 <= ev < |queue.next| && ev !in queue.Elems
      modifies queue
      ensures Valid() && queue.content == old(queue.content) && |queue.next| == old(|queue.next|)
      ensures queue.Elems ==
                InsertAt(old(queue.Elems), FirstTrue(old(queue.Elems), InsertCheck(eps, old(queue.content), ev, otherPt)), ev)
      ensures forall n :: n in queue.Elems <==> n in old(queue.Elems) || n == ev
      // the queue stays in event order when ev's order against every queued event is decided by points or kinds
      ensures AddOrdered(eps, old(queue.content), old(queue.Elems), ev, otherPt) ==>
                QueueOrdered(eps, queue.content, queue.Elems)
    {
      ghost var s, c := queue.Elems, queue.content;
      InsertAtMembers(s, FirstTrue(s, InsertCheck(eps, c, ev, otherPt)), ev);
      if AddOrdered(eps, c, s, ev, otherPt) {
        EventAddKeepsOrder(eps, c, s, ev, otherPt);
      }
      queue.InsertBefore(ev, InsertCheck(eps, queue.content, ev, otherPt));
    }

    /**
     * The nodes of a new segment's events (eventAddSegmentStart and
     * eventAddSegmentEnd before they call eventAdd): seg joins the arena and two
     * detached event nodes, each naming the other, are allocated.
     */
    method NewSegmentNodes(seg: Segment, primary: bool) returns (start: nat)
      requires Valid()
      requires selfIntersection ==> primary && seg.otherFill.None?
      modifies this, queue
      ensures Valid() && queue.Elems == old(queue.Elems)
      ensures segs == old(segs) + [seg]
      ensures start == old(|queue.next|) && |queue.next| == old(|queue.next|) + 2
      ensures queue.content == old(queue.content) + [Event(true, seg.start, |old(segs)|, primary, start + 1, None),
                                                     Event(false, seg.end, |old(segs)|, primary, start, None)]
    {
      var s := |segs|;
      var n := |queue.next|;
      AppendSegmentEvents(queue.content, s, selfIntersection,
                          Event(true, seg.start, s, primary, n + 1, None), Event(false, seg.end, s, primary, n, None));
      segs := segs + [seg];
      start := queue.NewNode(Event(true, seg.start, s, primary, n + 1, None));
      var end := queue.NewNode(Event(false, seg.end, s, primary, start, None));
      assert queue.content == old(queue.content) + [Event(true, seg.start, s, primary, n + 1, None),
                                                    Event(false, seg.end, s, primary, n, None)];
    }

    /**
     * eventAddSegment: adds seg to the arena and its start and end events to the
     * queue, each linked to the other; returns the start event's node.
     */
    method EventAddSegment(seg: Segment, primary: bool) returns (start: nat)
      requires Valid()
      requires selfIntersection ==> primary && seg.otherFill.None?
      modifies this, queue
      ensures Valid()
      ensures segs == old(segs) + [seg]
      ensures start == old(|queue.next|) && |queue.next| == old(|queue.next|) + 2
      ensures queue.content == old(queue.content) + [Event(true, seg.start, |old(segs)|, primary, start + 1, None),
                                                     Event(false, seg.end, |old(segs)|, primary, start, None)]
      ensures forall n :: n in queue.Elems <==> n in old(queue.Elems) || n == start || n == start + 1
    {
      start := NewSegmentNodes(seg, primary);
      EventAddBoth(start, seg);
    }

    /** The eventAdd calls of eventAddSegmentStart and eventAddSegmentEnd: both new events join the queue. */
    method EventAddBoth(start: nat, seg: Segment)
      requires Valid() && 1 <= start && start + 1 < |queue.next|
      requires start !in queue.Elems && start + 1 !in queue.Elems
      modifies queue
      ensures Valid() && queue.content == old(queue.content) && |queue.next| == old(|queue.next|)
      ensures forall n :: n in queue.Elems <==> n in old(queue.Elems) || n == start || n == start + 1
    {
      EventAdd(start, seg.end);
      assert start + 1 !in queue.Elems;
      EventAdd(start + 1, seg.start);
    }

    /**
     * The first half of eventUpdateEnd: the end event of the start event ev
     * leaves the queue, and it and ev's segment take the new end point.
     */
    method DetachEnd(ev: nat, end: Point) returns (o: nat)
      requires Valid() && 1 <= ev < |queue.next|
      modifies this, queue
      ensures Valid() && o == old(queue.content[ev - 1]).other && 1 <= o < |queue.next|
      ensures var s := old(queue.content[ev - 1]).seg;
              segs == old(segs)[s := old(segs[s]).(end := end)]
      ensures queue.content == old(queue.content)[o - 1 := old(queue.content[o - 1]).(point := end)]
      ensures |queue.next| == old(|queue.next|) && o !in queue.Elems
      ensures forall n :: n in queue.Elems <==> n in old(queue.Elems) && n != o
    {
      o := queue.Content(ev).other;
      queue.Remove(o);
      var s := queue.Content(ev).seg;
      segs := segs[s := segs[s].(end := end)];
      ghost var c := queue.content;
      queue.SetContent(o, queue.Content(o).(point := end));
      RetouchEvents(c, queue.content, |segs|, selfIntersection);
    }

    /**
     * eventUpdateEnd: slides the end of the segment of the start event ev back
     * to `end`, moving its end event to its new place in the queue.
     */
    method EventUpdateEnd(ev: nat, end: Point) returns (o: nat)
      requires Valid() && 1 <= ev < |queue.next|
      modifies this, queue
      ensures Valid() && o == old(queue.content[ev - 1]).other && 1 <= o < |queue.next|
      ensures var s := old(queue.content[ev - 1]).seg;
              segs == old(segs)[s := old(segs[s]).(end := end)]
      ensures queue.content == old(queue.content)[o - 1 := old(queue.content[o - 1]).(point := end)]
      ensures |queue.next| == old(|queue.next|)
      ensures forall n :: n in queue.Elems <==> n in old(queue.Elems) || n == o
    {
      o := DetachEnd(ev, end);
      EventAdd(o, queue.Content(ev).point);
    }

    /**
     * eventDivide: splits the segment of the start event ev at pt. The segment
     * keeps [start, pt]; a copy of its fill goes to a new segment [pt, old end]
     * whose events are added; returns the new start event.
     */
    method EventDivide(ev: nat, pt: Point) returns (ns: nat)
      requires Valid() && 1 <= ev < |queue.next|
      modifies this, queue
      ensures Valid()
      ensures var s := old(queue.content[ev - 1]).seg;
              segs == old(segs)[s := old(segs[s]).(end := pt)] + [SegmentCopy(pt, old(segs[s]).end, old(segs[s]))]
      ensures (queue.content, segs) == DivideState(old(queue.content), old(segs), ev, pt)
      ensures ns == old(|queue.next|) && |queue.next| == old(|queue.next|) + 2
      ensures EventsKept(old(queue.content), queue.content)
      // the moved end event is queued again, next to the two new events
      ensures forall n :: n in queue.Elems <==>
                n in old(queue.Elems) || n == old(queue.content[ev - 1]).other || n == ns || n == ns + 1
    {
      var e := queue.Content(ev);
      var copy := SegmentCopy(pt, segs[e.seg].end, segs[e.seg]);
      var o := EventUpdateEnd(ev, pt);
      ns := EventAddSegment(copy, queue.Content(ev).primary);
    }

    /** Carries out one planned division. */
    method Divide(ev1: nat, ev2: nat, d: Division)
      requires Valid() && 1 <= ev1 < |queue.next| && 1 <= ev2 < |queue.next|
      modifies this, queue
      ensures Valid() && |queue.next| == old(|queue.next|) + 2
      ensures (queue.content, segs) == DivideState(old(queue.content), old(segs), if d.first then ev1 else ev2, d.pt)
      ensures EventsKept(old(queue.content), queue.content) && FillsKept(old(segs), segs)
      ensures forall n :: n in queue.Elems <==>
                || n in old(queue.Elems) || n == old(queue.content[(if d.first then ev1 else ev2) - 1]).other
                || n == old(|queue.next|) || n == old(|queue.next|) + 1
    {
      var piece := EventDivide(if d.first then ev1 else ev2, d.pt);
    }

    /**
     * checkIntersection: carries out the planned divisions of the segments of
     * the start events ev1 and ev2 and returns ev2 when the two coincide.
     */
    method CheckIntersection(ev1: nat, ev2: nat) returns (r: Option<nat>)
      requires Valid() && 1 <= ev1 < |queue.next| && 1 <= ev2 < |queue.next|
      modifies this, queue
      ensures Valid() && |queue.next| >= old(|queue.next|)
      ensures r == if PlanOf(eps, old(queue.content), old(segs), ev1, ev2).coincident then Some(ev2) else None
      ensures (queue.content, segs) == Intersected(eps, old(queue.content), old(segs), ev1, ev2)
      ensures EventsKept(old(queue.content), queue.content) && FillsKept(old(segs), segs)
      ensures forall n :: n in old(queue.Elems) ==> n in queue.Elems
      ensures PlanOf(eps, old(queue.content), old(segs), ev1, ev2).divisions == [] ==> queue.Elems == old(queue.Elems)
    {
      var a := segs[queue.Content(ev1).seg];
      var b := segs[queue.Content(ev2).seg];
      var plan := PlanIntersection(eps, a.start, a.end, b.start, b.end);
      assert plan == PlanOf(eps, queue.content, segs, ev1, ev2);
      ApplyDivisions(ev1, ev2, plan.divisions);
      r := if plan.coincident then Some(ev2) else None;
    }

    /** The divisions of a plan, carried out in order. */
    method ApplyDivisions(ev1: nat, ev2: nat, ds: seq<Division>)
      requires Valid() && 1 <= ev1 < |queue.next| && 1 <= ev2 < |queue.next| && |ds| <= 2
      modifies this, queue
      ensures Valid() && |queue.next| >= old(|queue.next|)
      ensures (queue.content, segs) == DivideAll(old(queue.content), old(segs), ev1, ev2, ds)
      ensures EventsKept(old(queue.content), queue.content) && FillsKept(old(segs), segs)
      ensures forall n :: n in old(queue.Elems) ==> n in queue.Elems
      ensures ds == [] ==> queue.Elems == old(queue.Elems)
    {
      if |ds| > 0 {
        ghost var c0, s0 := queue.content, segs;
        Divide(ev1, ev2, ds[0]);
        ghost var c1, s1 := queue.content, segs;
        assert DivideAll(c0, s0, ev1, ev2, ds) == DivideAll(c1, s1, ev1, ev2, ds[1..]);
        if |ds| > 1 {
          Divide(ev1, ev2, ds[1]);
          assert ds[1..][0] == ds[1] && ds[1..][1..] == [];
          assert DivideAll(c1, s1, ev1, ev2, ds[1..]) == (queue.content, segs);
        } else {
          assert ds[1..] == [];
        }
      }
    }

    /** The event held by the optional status node n. */
    function NodeEvent(status: LinkedList<nat>, n: Option<nat>): (e: Option<nat>)
      reads this, queue, status
      requires SweepInv(status) && (n.Some? ==> n.value in status.Elems)
      ensures n.Some? ==> 1 <= n.value <= |status.content|
      ensures e == if n.Some? then Some(status.content[n.value - 1]) else None
      ensures e.Some? ==> ResolvedEvent(selfIntersection, queue.content, segs, e.value)
    {
      if n.Some? then Some(status.Content(n.value)) else None
    }

    /**
     * statusFindSurrounding: the place of the start event ev in the status,
     * with the events of the status nodes above (before) and below (after) it.
     */
    method FindSurrounding(status: LinkedList<nat>, ev: nat)
      returns (t: Transition, ghost k: nat, above: Option<nat>, below: Option<nat>)
      requires SweepInv(status)
      ensures k == FirstTrue(status.Elems, StatusCheck(eps, queue.content, segs, status.content, ev))
      ensures k <= |status.Elems| && t.prev == (if k == 0 then Root else status.Elems[k - 1])
      ensures t.before == if k == 0 then None else Some(status.Elems[k - 1])
      ensures t.after == if k < |status.Elems| then Some(status.Elems[k]) else None
      ensures t.before.Some? ==> 1 <= t.before.value <= |status.content|
      ensures t.after.Some? ==> 1 <= t.after.value <= |status.content|
      ensures above == if t.before.Some? then Some(status.content[t.before.value - 1]) else None
      ensures below == if t.after.Some? then Some(status.content[t.after.value - 1]) else None
      ensures above.Some? ==> ResolvedEvent(selfIntersection, queue.content, segs, above.value)
      ensures below.Some? ==> ResolvedEvent(selfIntersection, queue.content, segs, below.value)
    {
      t, k := Locate(status, ev);
      above, below := NodeEvent(status, t.before), NodeEvent(status, t.after);
    }

    /** The transition of the status for the start event ev. */
    method Locate(status: LinkedList<nat>, ev: nat) returns (t: Transition, ghost k: nat)
      requires status.Valid()
      ensures k == FirstTrue(status.Elems, StatusCheck(eps, queue.content, segs, status.content, ev))
      ensures k <= |status.Elems| && t.prev == (if k == 0 then Root else status.Elems[k - 1])
      ensures t.before == if k == 0 then None else Some(status.Elems[k - 1])
      ensures t.after == if k < |status.Elems| then Some(status.Elems[k]) else None
    {
      var check := StatusCheck(eps, queue.content, segs, status.content, ev);
      t := status.FindTransition(check);
      k := FirstTrue(status.Elems, check);
    }

    /** checkBothIntersections: the neighbour above first; the one below only when that found nothing. */
    method CheckBothIntersections(status: LinkedList<nat>, ev: nat, above: Option<nat>, below: Option<nat>)
      returns (eve: Option<nat>)
      requires Valid() && SweepInv(status) && 1 <= ev < |queue.next|
      requires above.Some? ==> ResolvedEvent(selfIntersection, queue.content, segs, above.value)
      requires below.Some? ==> ResolvedEvent(selfIntersection, queue.content, segs, below.value)
      modifies this, queue
      ensures Valid() && SweepInv(status) && |queue.next| >= old(|queue.next|)
      ensures EventsKept(old(queue.content), queue.content) && FillsKept(old(segs), segs)
      ensures eve.Some? ==> eve == above || eve == below
      // the check against above comes first; below is checked, on the state it left, only when above is not coincident
      ensures forall n :: n in old(queue.Elems) ==> n in queue.Elems
      ensures (queue.content, segs, eve) == BothChecked(eps, old(queue.content), old(segs), ev, above, below)
      ensures below.Some? ==> ResolvedEvent(selfIntersection, queue.content, segs, below.value)
      ensures eve.Some? ==> ResolvedEvent(selfIntersection, queue.content, segs, eve.value)
    {
      eve := None;
      if above.Some? {
        ghost var qc, ss := queue.content, segs;
        eve := CheckIntersection(ev, above.value);
        SweepDataKept(selfIntersection, qc, ss, status.content, status.Elems, |status.next|, queue.content, segs);
        assert qc[above.value - 1].seg == queue.content[above.value - 1].seg;
        if eve.Some? {
          return;
        }
      }
      if below.Some? {
        ghost var qc, ss := queue.content, segs;
        eve := CheckIntersection(ev, below.value);
        SweepDataKept(selfIntersection, qc, ss, status.content, status.Elems, |status.next|, queue.content, segs);
        assert qc[below.value - 1].seg == queue.content[below.value - 1].seg;
      }
    }

    /**
     * Merging the start event ev into the coincident eve: ev's fill goes into
     * eve's segment and both events of ev leave the queue.
     */
    method MergeInto(status: LinkedList<nat>, ev: nat, eve: nat)
      requires Valid() && SweepInv(status) && 1 <= ev < |queue.next| && 1 <= eve < |queue.next|
      modifies this, queue
      ensures Valid() && SweepInv(status)
      ensures segs == Merged(selfIntersection, old(queue.content), old(segs), ev, eve)
      ensures queue.content == old(queue.content) && ev !in queue.Elems
      ensures forall n :: n in queue.Elems <==> n in old(queue.Elems) && n != ev && n != old(queue.content[ev - 1]).other
    {
      var survivor := queue.Content(eve).seg;
      var discarded := queue.Content(ev).seg;
      ghost var ss := segs;
      if selfIntersection {
        segs := segs[survivor := segs[survivor].(myFill := MergeSelf(segs[survivor].myFill, segs[discarded].myFill))];
      } else {
        segs := segs[survivor := segs[survivor].(otherFill := Some(segs[discarded].myFill))];
      }
      SweepDataKept(selfIntersection, queue.content, ss, status.content, status.Elems, |status.next|, queue.content, segs);
      queue.Remove(queue.Content(ev).other);
      queue.Remove(ev);
    }

    /** The fill flags of the start event ev, from the event below it in the status. */
    method SettleFill(status: LinkedList<nat>, ev: nat, below: Option<nat>, inverted1: bool, inverted2: bool)
      requires Valid() && SweepInv(status) && 1 <= ev < |queue.next|
      requires below.Some? ==> ResolvedEvent(selfIntersection, queue.content, segs, below.value)
      modifies this
      ensures Valid() && SweepInv(status)
      ensures ResolvedEvent(selfIntersection, queue.content, segs, ev)
      ensures FillSettled(selfIntersection, queue.content, old(segs), segs, ev, below, inverted1, inverted2)
    {
      var s := queue.Content(ev).seg;
      ghost var ss := segs;
      if selfIntersection {
        var belowFill := if below.Some? then Some(segs[queue.Content(below.value).seg].myFill) else None;
        segs := segs[s := segs[s].(myFill := SelfFill(segs[s].myFill, belowFill, inverted1))];
      } else if segs[s].otherFill.None? {
        var neighbour := if below.Some? then Some(Neighbour(queue.Content(below.value).primary,
                                                            segs[queue.Content(below.value).seg])) else None;
        var inside := CombineInside(queue.Content(ev).primary, neighbour, inverted1, inverted2);
        segs := segs[s := segs[s].(otherFill := Some(Fill(Some(inside), Some(inside))))];
      }
      SweepDataKept(selfIntersection, queue.content, ss, status.content, status.Elems, |status.next|, queue.content, segs);
    }

    /** Links a new status node holding the start event ev at position k of the status. */
    method StatusInsert(status: LinkedList<nat>, t: Transition, ghost k: nat, ev: nat) returns (st: nat)
      requires Valid() && SweepInv(status) && 1 <= ev < |queue.next|
      requires ResolvedEvent(selfIntersection, queue.content, segs, ev)
      requires k <= |status.Elems| && t.prev == (if k == 0 then Root else status.Elems[k - 1])
      requires t.after == if k < |status.Elems| then Some(status.Elems[k]) else None
      modifies status
      ensures SweepInv(status) && st == old(|status.next|) && 1 <= st < |status.next|
      ensures status.content == old(status.content) + [ev]
      ensures status.Elems == InsertAt(old(status.Elems), k, st)
    {
      var node := status.NewNode(ev);
      InsertAtMembers(status.Elems, k, node);
      st := status.InsertTransition(t, node, k);
    }

    /** Records the status node st on the end event of the start event ev. */
    method RecordStatus(status: LinkedList<nat>, ev: nat, st: nat)
      requires Valid() && SweepInv(status) && 1 <= ev < |queue.next| && queue.content[ev - 1].isStart
      requires ResolvedEvent(selfIntersection, queue.content, segs, ev) && 1 <= st < |status.next|
      modifies queue
      ensures Valid() && SweepInv(status) && queue.Elems == old(queue.Elems)
      ensures queue.content == StatusRecorded(old(queue.content), ev, st)
    {
      var o := queue.Content(ev).other;
      assert PartnerShares(queue.content, ev - 1);
      ghost var c := queue.content;
      queue.SetContent(o, queue.Content(o).(status := Some(st)));
      RetouchEvents(c, queue.content, |segs|, selfIntersection);
    }

    /** Inserts the start event ev into the status at position k and records the node on its end event. */
    method InsertStatus(status: LinkedList<nat>, t: Transition, ghost k: nat, ev: nat)
      requires Valid() && SweepInv(status) && 1 <= ev < |queue.next| && queue.content[ev - 1].isStart
      requires ResolvedEvent(selfIntersection, queue.content, segs, ev)
      requires k <= |status.Elems| && t.prev == (if k == 0 then Root else status.Elems[k - 1])
      requires t.after == if k < |status.Elems| then Some(status.Elems[k]) else None
      modifies queue, status
      ensures Valid() && SweepInv(status)
      ensures queue.Elems == old(queue.Elems) && status.content == old(status.content) + [ev]
      ensures status.Elems == InsertAt(old(status.Elems), k, |old(status.next)|)
      ensures queue.content == StatusRecorded(old(queue.content), ev, |old(status.next)|)
    {
      var st := StatusInsert(status, t, k, ev);
      RecordStatus(status, ev, st);
    }

    /**
     * The start-event branch of the main loop for the queue head ev: find the
     * neighbours in the status, check both for intersections, merge a
     * coincident segment, and, when ev is still the head, settle its fill and
     * insert it into the status. Success(false) is the source's `continue`.
     */
    method ProcessStart(status: LinkedList<nat>, ev: nat, inverted1: bool, inverted2: bool)
      returns (res: Result<bool, Error>, ghost above: Option<nat>, ghost below: Option<nat>, ghost eve: Option<nat>,
               ghost c0: seq<Event>, ghost s0: seq<Segment>, ghost e0: seq<nat>)
      requires Valid() && SweepInv(status)
      requires queue.Elems != [] && ev == queue.Elems[0] && queue.content[ev - 1].isStart
      modifies this, queue, status
      ensures Valid() && SweepInv(status)
      // the neighbours at the located position, and the events, segments and queue order the two checks leave
      ensures (above, below) == Surrounding(old(status.content), old(status.Elems),
                                            FirstTrue(old(status.Elems), StatusCheck(eps, old(queue.content), old(segs), old(status.content), ev)))
      ensures (c0, s0, eve) == BothChecked(eps, old(queue.content), old(segs), ev, above, below)
      ensures forall n :: n in old(queue.Elems) ==> n in e0
      // a coincident segment: ev's fill goes into it, and ev and its partner leave the queue
      ensures eve.Some? ==>
                && segs == Merged(selfIntersection, c0, s0, ev, eve.value) && queue.content == c0
                && (forall n :: n in queue.Elems <==> n in e0 && n != ev && n != old(queue.content[ev - 1]).other)
      // otherwise the queue order is the one the checks left; ev settles exactly when it is still the head
      ensures eve.None? ==> queue.Elems == e0
      ensures res == if eve.Some? then (if queue.Elems == [] then Failure(EmptyQueue) else Success(false))
                     else if e0 == [] then Failure(EmptyQueue) else Success(e0[0] == ev)
      ensures eve.None? && res != Success(true) ==> queue.content == c0 && segs == s0
      // settled: the fill is settled against the event below, and ev has entered the status where statusFindSurrounding placed it
      ensures res == Success(true) ==>
                && FillSettled(selfIntersection, c0, s0, segs, ev, below, inverted1, inverted2)
                && queue.content == StatusRecorded(c0, ev, |old(status.next)|)
                && status.content == old(status.content) + [ev]
                && status.Elems == InsertAt(old(status.Elems),
                                            FirstTrue(old(status.Elems), StatusCheck(eps, old(queue.content), old(segs), old(status.content), ev)),
                                            |old(status.next)|)
      // otherwise the status is untouched and the loop goes on: ev was merged away or is no longer the head
      ensures res != Success(true) ==> unchanged(status)
      ensures res == Success(false) ==> queue.Elems != [] && (ev !in queue.Elems || queue.Elems[0] != ev)
      ensures res.Failure? ==> res.error == EmptyQueue && queue.Elems == []
    {
      var t, k, ab, bl, e := Prepare(status, ev);
      above, below := ab, bl;
      eve, c0, s0, e0 := e, queue.content, segs, queue.Elems;
      res := Conclude(status, ev, e, t, k, bl, inverted1, inverted2);
    }

    /**
     * The first half of the start-event branch: the neighbours at the located
     * position, and the intersection checks against them.
     */
    method Prepare(status: LinkedList<nat>, ev: nat)
      returns (t: Transition, ghost k: nat, above: Option<nat>, below: Option<nat>, eve: Option<nat>)
      requires Valid() && SweepInv(status)
      requires queue.Elems != [] && ev == queue.Elems[0] && queue.content[ev - 1].isStart
      modifies this, queue
      ensures Valid() && SweepInv(status) && 1 <= ev < |queue.next| && queue.content[ev - 1].isStart
      ensures queue.content[ev - 1].other == old(queue.content[ev - 1]).other
      ensures k == FirstTrue(old(status.Elems), StatusCheck(eps, old(queue.content), old(segs), old(status.content), ev))
      ensures (above, below) == Surrounding(old(status.content), old(status.Elems), k)
      ensures (queue.content, segs, eve) == BothChecked(eps, old(queue.content), old(segs), ev, above, below)
      ensures forall n :: n in old(queue.Elems) ==> n in queue.Elems
      ensures eve.Some? ==> 1 <= eve.value < |queue.next|
      ensures below.Some? ==> ResolvedEvent(selfIntersection, queue.content, segs, below.value)
      ensures k <= |old(status.Elems)| && t.prev == (if k == 0 then Root else old(status.Elems)[k - 1])
      ensures t.after == if k < |old(status.Elems)| then Some(old(status.Elems)[k]) else None
    {
      t, k, above, below := FindSurrounding(status, ev);
      SurroundingAt(status.content, status.Elems, k, t.before, t.after, above, below);
      eve := CheckBothIntersections(status, ev, above, below);
    }

    /**
     * The rest of the start-event branch once both checks are done: merge into
     * a coincident event eve, or go on when ev is no longer the head, or settle.
     */
    method Conclude(status: LinkedList<nat>, ev: nat, eve: Option<nat>, t: Transition, ghost k: nat, below: Option<nat>,
                    inverted1: bool, inverted2: bool) returns (res: Result<bool, Error>)
      requires Valid() && SweepInv(status) && 1 <= ev < |queue.next| && queue.content[ev - 1].isStart
      requires eve.Some? ==> 1 <= eve.value < |queue.next|
      requires below.Some? ==> ResolvedEvent(selfIntersection, queue.content, segs, below.value)
      requires k <= |status.Elems| && t.prev == (if k == 0 then Root else status.Elems[k - 1])
      requires t.after == if k < |status.Elems| then Some(status.Elems[k]) else None
      modifies this, queue, status
      ensures Valid() && SweepInv(status)
      ensures eve.Some? ==>
                && segs == Merged(selfIntersection, old(queue.content), old(segs), ev, eve.value) && queue.content == old(queue.content)
                && (forall n :: n in queue.Elems <==> n in old(queue.Elems) && n != ev && n != old(queue.content[ev - 1]).other)
      ensures eve.None? ==> queue.Elems == old(queue.Elems)
      ensures res == if eve.Some? then (if queue.Elems == [] then Failure(EmptyQueue) else Success(false))
                     else if old(queue.Elems) == [] then Failure(EmptyQueue) else Success(old(queue.Elems)[0] == ev)
      ensures eve.None? && res != Success(true) ==> queue.content == old(queue.content) && segs == old(segs)
      ensures res == Success(true) ==>
                && FillSettled(selfIntersection, old(queue.content), old(segs), segs, ev, below, inverted1, inverted2)
                && queue.content == StatusRecorded(old(queue.content), ev, |old(status.next)|)
                && status.content == old(status.content) + [ev]
                && status.Elems == InsertAt(old(status.Elems), k, |old(status.next)|)
      ensures res != Success(true) ==> unchanged(status)
    {
      if eve.Some? {
        // ev and eve are equal: keep eve and throw away ev
        res := MergeStep(status, ev, eve.value);
        return;
      }
      if queue.IsEmpty() {
        return Failure(EmptyQueue);
      }
      if queue.GetHead() != ev {
        // something was inserted before ev: process it first
        return Success(false);
      }
      Settle(status, ev, t, k, below, inverted1, inverted2);
      return Success(true);
    }

    /**
     * After merging ev into eve the head check of the main loop fails, since ev
     * has left the queue: the loop continues, or fails on an empty queue.
     */
    method MergeStep(status: LinkedList<nat>, ev: nat, eve: nat) returns (res: Result<bool, Error>)
      requires Valid() && SweepInv(status) && 1 <= ev < |queue.next| && 1 <= eve < |queue.next|
      modifies this, queue
      ensures Valid() && SweepInv(status) && ev !in queue.Elems
      ensures segs == Merged(selfIntersection, old(queue.content), old(segs), ev, eve) && queue.content == old(queue.content)
      ensures forall n :: n in queue.Elems <==> n in old(queue.Elems) && n != ev && n != old(queue.content[ev - 1]).other
      ensures res == if queue.Elems == [] then Failure(EmptyQueue) else Success(false)
    {
      MergeInto(status, ev, eve);
      if queue.IsEmpty() {
        return Failure(EmptyQueue);
      }
      assert queue.GetHead() != ev;
      return Success(false);
    }

    /** The start event ev, which stays, gets its fill and enters the status at position k. */
    method Settle(status: LinkedList<nat>, ev: nat, t: Transition, ghost k: nat, below: Option<nat>,
                  inverted1: bool, inverted2: bool)
      requires Valid() && SweepInv(status) && 1 <= ev < |queue.next| && queue.content[ev - 1].isStart
      requires below.Some? ==> ResolvedEvent(selfIntersection, queue.content, segs, below.value)
      requires k <= |status.Elems| && t.prev == (if k == 0 then Root else status.Elems[k - 1])
      requires t.after == if k < |status.Elems| then Some(status.Elems[k]) else None
      modifies this, queue, status
      ensures Valid() && SweepInv(status) && queue.Elems == old(queue.Elems)
      ensures FillSettled(selfIntersection, old(queue.content), old(segs), segs, ev, below, inverted1, inverted2)
      ensures status.content == old(status.content) + [ev]
      ensures status.Elems == InsertAt(old(status.Elems), k, |old(status.next)|)
      ensures queue.content == StatusRecorded(old(queue.content), ev, |old(status.next)|)
    {
      SettleFill(status, ev, below, inverted1, inverted2);
      InsertStatus(status, t, k, ev);
    }

    /**
     * Before the status node `node` leaves the status, the segments of its two
     * neighbours, when both exist, are checked against each other.
     */
    method RecheckNeighbours(status: LinkedList<nat>, node: nat)
      requires Valid() && SweepInv(status) && 1 <= node < |status.next|
      modifies this, queue
      ensures Valid() && SweepInv(status) && |queue.next| >= old(|queue.next|)
      ensures EventsKept(old(queue.content), queue.content) && FillsKept(old(segs), segs)
      ensures forall n :: n in old(queue.Elems) ==> n in queue.Elems
      ensures var prev, next := old(status.prev[node]), old(status.next[node]);
              status.Exists(prev) && status.Exists(next) ==>
                (queue.content, segs) ==
                  Intersected(eps, old(queue.content), old(segs), old(status.content[prev.value - 1]), old(status.content[next.value - 1]))
      ensures !status.Exists(status.prev[node]) || !status.Exists(status.next[node]) ==>
                queue.content == old(queue.content) && segs == old(segs) && queue.Elems == old(queue.Elems)
      ensures (queue.content, segs) == Rechecked(eps, old(queue.content), old(segs), old(status.content), old(status.prev[node]), old(status.next[node]))
    {
      var prev := status.GetPrev(node);
      var next := status.GetNext(node);
      if status.Exists(prev) && status.Exists(next) {
        CheckPair(status, node);
      }
    }

    /** checkIntersection on the events of the two status neighbours of `node`, whose result is not needed. */
    method CheckPair(status: LinkedList<nat>, node: nat)
      requires Valid() && SweepInv(status) && 1 <= node < |status.next|
      requires status.Exists(status.prev[node]) && status.Exists(status.next[node])
      modifies this, queue
      ensures Valid() && SweepInv(status) && |queue.next| >= old(|queue.next|)
      ensures EventsKept(old(queue.content), queue.content) && FillsKept(old(segs), segs)
      ensures forall n :: n in old(queue.Elems) ==> n in queue.Elems
      ensures var prev, next := old(status.prev[node]), old(status.next[node]);
              (queue.content, segs) ==
                Intersected(eps, old(queue.content), old(segs), old(status.content[prev.value - 1]), old(status.content[next.value - 1]))
    {
      ghost var qc, ss := queue.content, segs;
      var p, q := status.prev[node].value, status.next[node].value;
      var ignored := CheckIntersection(status.Content(p), status.Content(q));
      SweepDataKept(selfIntersection, qc, ss, status.content, status.Elems, |status.next|, queue.content, segs);
    }

    /**
     * The end-event branch of the main loop: the segment leaves the status, its
     * former neighbours are checked against each other, and the segment is
     * reported with myFill meaning the primary polygon.
     */
    method ProcessEnd(status: LinkedList<nat>, ev: nat) returns (res: Result<Segment, Error>)
      requires Valid() && SweepInv(status) && 1 <= ev < |queue.next|
      modifies this, queue, status
      ensures Valid() && SweepInv(status)
      ensures res.Failure? <==> old(queue.content[ev - 1]).status.None?
      ensures res.Failure? ==> res.error == ZeroLengthSegment
      ensures res.Failure? ==> segs == old(segs) && queue.content == old(queue.content) && queue.Elems == old(queue.Elems)
      ensures res.Success? ==> Reported(selfIntersection, res.value)
      // the segment reported is ev's own, with the fills it had on entry, relabelled for the primary polygon
      ensures res.Success? ==>
                var e := old(queue.content[ev - 1]);
                var s := old(segs[e.seg]);
                && e.seg < |segs| && segs[e.seg] == res.value
                && (e.primary ==> res.value.myFill == s.myFill && res.value.otherFill == s.otherFill)
                && (!e.primary ==> Some(res.value.myFill) == s.otherFill && res.value.otherFill == Some(s.myFill))
      // and its status node has left the status, the other nodes keeping their order and contents
      ensures res.Success? ==>
                forall m :: m in status.Elems <==> m in old(status.Elems) && m != old(queue.content[ev - 1]).status.value
      ensures status.content == old(status.content)
      ensures res.Success? ==>
                forall k :: 0 <= k < |old(status.Elems)| && old(status.Elems)[k] == old(queue.content[ev - 1]).status.value ==>
                  status.Elems == Without(old(status.Elems), k)
      // before that, the former neighbours were checked against each other (Intersected of their events when
      // both exist); the other segments and the events are as that check left them
      ensures res.Success? ==>
                var e := old(queue.content[ev - 1]);
                var r := Rechecked(eps, old(queue.content), old(segs), old(status.content),
                                   old(status.prev[e.status.value]), old(status.next[e.status.value]));
                queue.content == r.0 && segs == r.1[e.seg := res.value]
    {
      var st := queue.Content(ev).status;
      if st.None? {
        return Failure(ZeroLengthSegment);
      }
      RecheckNeighbours(status, st.value);
      var e := queue.Content(ev);
      assert e.status == st;
      StatusRemove(status, st.value);
      var s := ReleaseSegment(status, e.seg, e.primary);
      return Success(s);
    }

    /** The status node `node` leaves the status list. */
    method StatusRemove(status: LinkedList<nat>, node: nat)
      requires SweepInv(status) && node < |status.next|
      modifies status
      ensures SweepInv(status)
      ensures forall m :: m in status.Elems <==> m in old(status.Elems) && m != node
      // the remaining nodes keep their order, and every node its event
      ensures status.content == old(status.content)
      ensures forall k :: 0 <= k < |old(status.Elems)| && old(status.Elems)[k] == node ==> status.Elems == Without(old(status.Elems), k)
    {
      status.Remove(node);
    }

    /**
     * The resolved segment i is reported; a segment of the secondary polygon
     * has its two fills swapped so that myFill means the primary polygon.
     */
    method ReleaseSegment(status: LinkedList<nat>, i: nat, primary: bool) returns (s: Segment)
      requires Valid() && SweepInv(status) && i < |segs| && Resolved(selfIntersection, segs[i])
      requires selfIntersection ==> primary
      modifies this
      ensures Valid() && SweepInv(status) && Reported(selfIntersection, s)
      ensures s == OutputSegment(primary, old(segs[i])) && segs == old(segs)[i := s]
    {
      ghost var ss := segs;
      segs := segs[i := OutputSegment(primary, segs[i])];
      SweepDataKept(selfIntersection, queue.content, ss, status.content, status.Elems, |status.next|, queue.content, segs);
      s := segs[i];
    }

    /**
     * One turn of the main loop: the head event is processed as a start or an
     * end event; a settled event leaves the queue. An end event yields the
     * segment it reports.
     */
    method SweepStep(status: LinkedList<nat>, inverted1: bool, inverted2: bool)
      returns (res: Result<Option<Segment>, Error>, ghost settled: bool)
      requires Valid() && SweepInv(status) && queue.Elems != []
      modifies this, queue, status
      ensures Valid() && SweepInv(status)
      ensures res.Success? && res.value.Some? ==> Reported(selfIntersection, res.value.value)
      // a turn reports a segment exactly when the head was an end event: its own segment, fills as on entry
      ensures var e := old(queue.content[queue.Elems[0] - 1]);
              res.Success? ==> (res.value.Some? <==> !e.isStart)
      ensures var e := old(queue.content[queue.Elems[0] - 1]);
              var s := old(segs[e.seg]);
              res.Success? && res.value.Some? ==>
                && (e.primary ==> res.value.value.myFill == s.myFill && res.value.value.otherFill == s.otherFill)
                && (!e.primary ==> Some(res.value.value.myFill) == s.otherFill && res.value.value.otherFill == Some(s.myFill))
                && e.status.Some? && e.status.value !in status.Elems
      // a start event at the head reports nothing; when it settles it enters the status and leaves the queue
      ensures settled ==> old(queue.content[queue.Elems[0] - 1]).isStart && res == Success(None)
      ensures var h := old(queue.Elems[0]);
              settled ==>
                && h !in queue.Elems
                && status.content == old(status.content) + [h]
                && status.Elems == InsertAt(old(status.Elems),
                                            FirstTrue(old(status.Elems), StatusCheck(eps, old(queue.content), old(segs), old(status.content), h)),
                                            |old(status.next)|)
      ensures old(queue.content[queue.Elems[0] - 1]).isStart && !settled ==> unchanged(status)
      ensures res.Failure? ==> res.error == EmptyQueue || (res.error == ZeroLengthSegment && !old(queue.content[queue.Elems[0] - 1]).isStart)
    {
      settled := false;
      var ev := queue.GetHead();
      if queue.Content(ev).isStart {
        res, settled := StartTurn(status, ev, inverted1, inverted2);
        return;
      }
      var r := ProcessEnd(status, ev);
      if r.Failure? {
        return Failure(r.error), false;
      }
      var removed := RemoveHead(status);
      if removed.Failure? {
        return Failure(removed.error), false;
      }
      return Success(Some(r.value)), false;
    }

    /**
     * A turn whose head ev is a start event: it reports nothing, and when ev
     * settles, ev enters the status and leaves the queue.
     */
    method StartTurn(status: LinkedList<nat>, ev: nat, inverted1: bool, inverted2: bool)
      returns (res: Result<Option<Segment>, Error>, ghost settled: bool)
      requires Valid() && SweepInv(status)
      requires queue.Elems != [] && ev == queue.Elems[0] && queue.content[ev - 1].isStart
      modifies this, queue, status
      ensures Valid() && SweepInv(status)
      ensures res.Success? ==> res.value.None?
      ensures res.Failure? ==> res.error == EmptyQueue
      ensures settled ==>
                && res == Success(None) && ev !in queue.Elems
                && status.content == old(status.content) + [ev]
                && status.Elems == InsertAt(old(status.Elems),
                                            FirstTrue(old(status.Elems), StatusCheck(eps, old(queue.content), old(segs), old(status.content), ev)),
                                            |old(status.next)|)
      ensures !settled ==> unchanged(status)
    {
      var r, _, _, _, _, _, _ := ProcessStart(status, ev, inverted1, inverted2);
      if r.Failure? {
        return Failure(r.error), false;
      }
      if r.value {
        res := RemoveHead(status);
        return res, true;
      }
      return Success(None), false;
    }

    /** The head removal at the end of a turn; an empty queue there is an error. */
    method RemoveHead(status: LinkedList<nat>) returns (res: Result<Option<Segment>, Error>)
      requires Valid() && SweepInv(status)
      modifies queue
      ensures Valid() && SweepInv(status)
      ensures res == if old(queue.Elems) == [] then Failure(EmptyQueue) else Success(None)
      ensures queue.content == old(queue.content) && queue.Elems == if old(queue.Elems) == [] then [] else old(queue.Elems)[1..]
    {
      if queue.IsEmpty() {
        return Failure(EmptyQueue);
      }
      queue.Remove(queue.GetHead());
      assert Without(old(queue.Elems), 0) == old(queue.Elems)[1..];
      return Success(None);
    }

    /**
     * baseCalculate: runs the sweep until the queue is empty and returns the
     * segments in the order their end events were processed. `fuel` bounds the
     * number of loop iterations.
     */
    method BaseCalculate(inverted1: bool, inverted2: bool, fuel: nat) returns (res: Result<seq<Segment>, Error>)
      requires Valid() && Unswept()
      modifies this, queue
      ensures Valid()
      ensures res.Success? ==> forall s :: s in res.value ==> Reported(selfIntersection, s)
    {
      var status := new LinkedList<nat>();
      var segments: seq<Segment> := [];
      var steps := fuel;
      while !queue.IsEmpty()
        invariant Valid() && SweepInv(status) && fresh(status)
        invariant forall s :: s in segments ==> Reported(selfIntersection, s)
        decreases steps
      {
        if steps == 0 {
          return Failure(OutOfFuel);
        }
        steps := steps - 1;
        var r, _ := SweepStep(status, inverted1, inverted2);
        if r.Failure? {
          return Failure(r.error);
        }
        if r.value.Some? {
          segments := segments + [r.value.value];
        }
      }
      return Success(segments);
    }
  }
}
