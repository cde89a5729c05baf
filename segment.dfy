/** The segment record of the sweep (models/Segment.kt). */
module Segments {
  import opened Wrappers
  import opened Epsilon

  /** Tri-state fill of the two sides of a segment: None is "not known yet". */
  datatype Fill = Fill(above: Option<bool>, below: Option<bool>)

  const UnknownFill: Fill := Fill(None, None)

  /** A directed edge with its own fill and, once combined, the other polygon's fill. */
  datatype Segment = Segment(start: Point, end: Point, myFill: Fill, otherFill: Option<Fill>)

  /** The fatal conditions the library raises. */
  datatype Error =
    | ZeroLengthSegment   // an end event whose segment never entered the status
    | EmptyQueue          // getHead() on an empty event queue (a null dereference in the source)
    | OutOfFuel           // the sweep did not finish within the step bound of the model
    | EmptyRegion         // a region without points (an index out of bounds in the source)
}
