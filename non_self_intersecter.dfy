/**
 * The combination driver (internal/NonSelfIntersecter.kt): the segments of
 * two self-intersected polygons enter one sweep, the first as primary and the
 * second as secondary, and the sweep settles each segment's other fill.
 */
module NonSelfIntersecting {
  import opened Wrappers
  import opened Epsilon
  import opened Segments
  import opened Intersecter

  /** The copies segmentCopy makes of a list of segments, one per segment, in order. */
  function Copies(segments: seq<Segment>): (r: seq<Segment>)
    ensures |r| == |segments|
    ensures forall i :: 0 <= i < |r| ==>
              && r[i].start == segments[i].start && r[i].end == segments[i].end
              && r[i].myFill == segments[i].myFill && r[i].otherFill.None?
  {
    seq(|segments|, i requires 0 <= i < |segments| => SegmentCopy(segments[i].start, segments[i].end, segments[i]))
  }

  /** Copying one more segment adds its copy at the end. */
  lemma CopiesSnoc(segments: seq<Segment>, s: Segment)
    ensures Copies(segments + [s]) == Copies(segments) + [SegmentCopy(s.start, s.end, s)]
  {
  }

  /**
   * NonSelfIntersecter: an Intersecter in combination mode. The source's
   * subclass is modelled by holding the engine.
   */
  class NonSelfIntersecter {
    const core: Intersecter

    ghost predicate Valid()
      reads this, core, core.queue
    {
      !core.selfIntersection && core.Valid() && core.Unswept()
    }

    constructor (eps: Tolerance)
      ensures Valid() && core.eps == eps && core.segs == [] && core.queue.content == []
      ensures fresh(core) && fresh(core.queue)
    {
      core := new Intersecter(false, eps);
    }

    /** The first or the second loop of calculate: copies of the segments join the queue. */
    method AddCopies(segments: seq<Segment>, primary: bool)
      requires Valid()
      modifies core, core.queue
      ensures Valid() && core.segs == old(core.segs) + Copies(segments)
      ensures |core.queue.content| == old(|core.queue.content|) + 2 * |segments|
      ensures core.queue.content[..old(|core.queue.content|)] == old(core.queue.content)
      ensures forall i :: old(|core.queue.content|) <= i < |core.queue.content| ==> core.queue.content[i].primary == primary
      // every new event is queued
      ensures forall n :: n in core.queue.Elems <==> n in old(core.queue.Elems) || old(|core.queue.next|) <= n < |core.queue.next|
    {
      for i := 0 to |segments|
        invariant Valid() && core.segs == old(core.segs) + Copies(segments[..i])
        invariant |core.queue.content| == old(|core.queue.content|) + 2 * i
        invariant core.queue.content[..old(|core.queue.content|)] == old(core.queue.content)
        invariant forall j :: old(|core.queue.content|) <= j < |core.queue.content| ==> core.queue.content[j].primary == primary
        invariant forall n :: n in core.queue.Elems <==> n in old(core.queue.Elems) || old(|core.queue.next|) <= n < |core.queue.next|
      {
        var seg := segments[i];
        CopiesSnoc(segments[..i], seg);
        assert segments[..i + 1] == segments[..i] + [seg];
        AddSegment(SegmentCopy(seg.start, seg.end, seg), primary);
      }
      assert segments[..|segments|] == segments;
    }

    /** eventAddSegment for a copied segment, keeping the sweep unstarted. */
    method AddSegment(seg: Segment, primary: bool)
      requires Valid()
      modifies core, core.queue
      ensures Valid() && core.segs == old(core.segs) + [seg]
      ensures |core.queue.content| == old(|core.queue.content|) + 2
      ensures core.queue.content[..old(|core.queue.content|)] == old(core.queue.content)
      ensures core.queue.content[|core.queue.content| - 2].primary == primary
      ensures core.queue.content[|core.queue.content| - 1].primary == primary
      // its start and end events, partnered, join the queue
      ensures core.queue.content == old(core.queue.content) +
                [Event(true, seg.start, |old(core.segs)|, primary, old(|core.queue.next|) + 1, None),
                 Event(false, seg.end, |old(core.segs)|, primary, old(|core.queue.next|), None)]
      ensures forall n :: n in core.queue.Elems <==> n in old(core.queue.Elems) || old(|core.queue.next|) <= n < |core.queue.next|
    {
      var start := core.EventAddSegment(seg, primary);
    }

    /**
     * calculate: copies of segments1 as the primary polygon and of segments2
     * as the secondary one, then the sweep with the two inverted flags.
     */
    method Calculate(segments1: seq<Segment>, inverted1: bool, segments2: seq<Segment>, inverted2: bool, fuel: nat)
      returns (res: Result<seq<Segment>, Error>)
      requires Valid()
      modifies core, core.queue
      ensures core.Valid()
      ensures res.Success? ==> forall s :: s in res.value ==> s.otherFill.Some?
    {
      AddCopies(segments1, true);
      AddCopies(segments2, false);
      res := core.BaseCalculate(inverted1, inverted2, fuel);
    }
  }
}
