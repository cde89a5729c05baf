/**
 * The segment selector (internal/SegmentSelector.kt): after the combination
 * sweep every segment knows, for the primary and for the secondary polygon,
 * whether the region above it and the region below it are inside. A boolean
 * operation keeps the segments that separate the inside of its result from
 * the outside, as a 16-entry table indexed by those four flags says.
 */
module SegmentSelector {
  import opened Wrappers
  import opened Segments

  /** The five boolean operations. */
  datatype Operation = Union | Intersect | Difference | DifferenceRev | Xor

  /** The operator an operation applies to "inside the primary polygon" and "inside the secondary polygon". */
  function Combine(op: Operation, primary: bool, secondary: bool): bool {
    match op
    case Union => primary || secondary
    case Intersect => primary && secondary
    case Difference => primary && !secondary
    case DifferenceRev => !primary && secondary
    case Xor => primary != secondary
  }

  // The tables as the source writes them: 0 drops a segment, 1 keeps it
  // filled above, 2 keeps it filled below.
  const UnionTable: seq<int> := [0, 2, 1, 0, 2, 2, 0, 0, 1, 0, 1, 0, 0, 0, 0, 0]
  const IntersectTable: seq<int> := [0, 0, 0, 0, 0, 2, 0, 2, 0, 0, 1, 1, 0, 2, 1, 0]
  const DifferenceTable: seq<int> := [0, 0, 0, 0, 2, 0, 2, 0, 1, 1, 0, 0, 0, 1, 2, 0]
  const DifferenceRevTable: seq<int> := [0, 2, 1, 0, 0, 0, 1, 1, 0, 2, 0, 2, 0, 0, 0, 0]
  const XorTable: seq<int> := [0, 2, 1, 0, 2, 0, 0, 1, 1, 0, 0, 2, 0, 1, 2, 0]

  function Table(op: Operation): (t: seq<int>)
    ensures |t| == 16
    ensures forall i :: 0 <= i < 16 ==> 0 <= t[i] <= 2
  {
    match op
    case Union => UnionTable
    case Intersect => IntersectTable
    case Difference => DifferenceTable
    case DifferenceRev => DifferenceRevTable
    case Xor => XorTable
  }

  // The four flags of a table index: above1, below1, above2, below2.
  predicate Above1(i: nat) { (i / 8) % 2 == 1 }
  predicate Below1(i: nat) { (i / 4) % 2 == 1 }
  predicate Above2(i: nat) { (i / 2) % 2 == 1 }
  predicate Below2(i: nat) { i % 2 == 1 }

  /**
   * The entry an operator calls for: 1 when the result's inside lies only
   * above the segment, 2 when it lies only below, 0 when the segment does not
   * separate inside from outside.
   */
  function Entry(op: Operation, i: nat): (v: int)
    ensures v == 1 <==> Combine(op, Above1(i), Above2(i)) && !Combine(op, Below1(i), Below2(i))
    ensures v == 2 <==> !Combine(op, Above1(i), Above2(i)) && Combine(op, Below1(i), Below2(i))
    ensures v == 0 <==> Combine(op, Above1(i), Above2(i)) == Combine(op, Below1(i), Below2(i))
  {
    var above := Combine(op, Above1(i), Above2(i));
    var below := Combine(op, Below1(i), Below2(i));
    if above && !below then 1 else if below && !above then 2 else 0
  }

  /** Each literal table is the one its operator calls for, entry by entry. */
  lemma {:induction false} TableEncodesOperator(op: Operation, i: nat)
    requires i < 16
    ensures Table(op)[i] == Entry(op, i)
  {
    assert i == 0 || i == 1 || i == 2 || i == 3 || i == 4 || i == 5 || i == 6 || i == 7 ||
           i == 8 || i == 9 || i == 10 || i == 11 || i == 12 || i == 13 || i == 14 || i == 15;
  }

  /** The index of the same flags with the two polygons' roles exchanged. */
  function SwapIndex(i: nat): (j: nat)
    requires i < 16
    ensures j < 16
    ensures Above1(j) == Above2(i) && Below1(j) == Below2(i) && Above2(j) == Above1(i) && Below2(j) == Below1(i)
  {
    assert i == 0 || i == 1 || i == 2 || i == 3 || i == 4 || i == 5 || i == 6 || i == 7 ||
           i == 8 || i == 9 || i == 10 || i == 11 || i == 12 || i == 13 || i == 14 || i == 15;
    (i % 4) * 4 + i / 4
  }

  /** Union, intersection and exclusive or do not depend on which polygon is the primary one. */
  lemma TableSymmetric(op: Operation, i: nat)
    requires op == Union || op == Intersect || op == Xor
    requires i < 16
    ensures Table(op)[SwapIndex(i)] == Table(op)[i]
  {
    TableEncodesOperator(op, i);
    TableEncodesOperator(op, SwapIndex(i));
  }

  /** The reverse difference is the difference with the two polygons exchanged. */
  lemma DifferenceSwapped(i: nat)
    requires i < 16
    ensures Table(DifferenceRev)[i] == Table(Difference)[SwapIndex(i)]
  {
    TableEncodesOperator(DifferenceRev, i);
    TableEncodesOperator(Difference, SwapIndex(i));
  }

  /** A tri-state flag as the selector reads it: unknown counts as false. */
  predicate IsTrue(b: Option<bool>) { b == Some(true) }

  /** The table index of a segment: 8·above1 + 4·below1 + 2·above2 + below2. */
  function Index(s: Segment): (i: nat)
    ensures i < 16
    ensures Above1(i) == IsTrue(s.myFill.above) && Below1(i) == IsTrue(s.myFill.below)
    ensures Above2(i) == (s.otherFill.Some? && IsTrue(s.otherFill.value.above))
    ensures Below2(i) == (s.otherFill.Some? && IsTrue(s.otherFill.value.below))
    ensures s.otherFill.None? ==> i % 4 == 0
  {
    (if IsTrue(s.myFill.above) then 8 else 0) +
    (if IsTrue(s.myFill.below) then 4 else 0) +
    (if s.otherFill.Some? && IsTrue(s.otherFill.value.above) then 2 else 0) +
    (if s.otherFill.Some? && IsTrue(s.otherFill.value.below) then 1 else 0)
  }

  /** The copy select emits for a kept segment with table value v. */
  function Kept(s: Segment, v: int): Segment {
    Segment(s.start, s.end, Fill(Some(v == 1), Some(v == 2)), None)
  }

  /** What select returns: the kept segments, in order. */
  function Selected(segments: seq<Segment>, selection: seq<int>): (r: seq<Segment>)
    requires |selection| == 16
    ensures |r| <= |segments|
    ensures forall s :: s in r ==> s.otherFill.None? && s.myFill.above.Some? && s.myFill.below.Some?
    ensures (forall i :: 0 <= i < 16 ==> 0 <= selection[i] <= 2) ==>
              forall s :: s in r ==> s.myFill.above.value != s.myFill.below.value
  {
    if segments == [] then []
    else
      var v := selection[Index(segments[0])];
      (if v != 0 then [Kept(segments[0], v)] else []) + Selected(segments[1..], selection)
  }

  /**
   * The reference meaning of an operation on the combined segments: a segment
   * stays when the result is inside on exactly one of its sides, and it is
   * filled on that side.
   */
  function Boundary(op: Operation, segments: seq<Segment>): seq<Segment> {
    if segments == [] then []
    else
      var s := segments[0];
      var above := Combine(op, IsTrue(s.myFill.above), s.otherFill.Some? && IsTrue(s.otherFill.value.above));
      var below := Combine(op, IsTrue(s.myFill.below), s.otherFill.Some? && IsTrue(s.otherFill.value.below));
      (if above != below then [Segment(s.start, s.end, Fill(Some(above), Some(below)), None)] else [])
        + Boundary(op, segments[1..])
  }

  /** Selecting with an operation's table yields exactly its boundary. */
  lemma {:induction false} SelectedIsBoundary(op: Operation, segments: seq<Segment>)
    ensures Selected(segments, Table(op)) == Boundary(op, segments)
    decreases |segments|
  {
    if segments != [] {
      TableEncodesOperator(op, Index(segments[0]));
      SelectedIsBoundary(op, segments[1..]);
    }
  }

  /** One step of the selection: the segment at k is kept or dropped in front of the rest. */
  lemma SelectedStep(segments: seq<Segment>, selection: seq<int>, k: nat)
    requires |selection| == 16 && k < |segments|
    ensures var v := selection[Index(segments[k])];
            Selected(segments[k..], selection) ==
              (if v != 0 then [Kept(segments[k], v)] else []) + Selected(segments[k + 1..], selection)
  {
    assert segments[k..][1..] == segments[k + 1..];
  }

  /** select: the loop over the segments that copies the kept ones to the result. */
  method Select(segments: seq<Segment>, selection: seq<int>) returns (result: seq<Segment>)
    requires |selection| == 16
    ensures result == Selected(segments, selection)
  {
    result := [];
    for k := 0 to |segments|
      invariant result + Selected(segments[k..], selection) == Selected(segments, selection)
    {
      var seg := segments[k];
      var index := Index(seg);
      SelectedStep(segments, selection, k);
      ghost var rest := Selected(segments[k + 1..], selection);
      if selection[index] != 0 {
        assert result + [Kept(seg, selection[index])] + rest == result + ([Kept(seg, selection[index])] + rest);
        result := result + [Kept(seg, selection[index])];
      } else {
        assert [] + rest == rest;
      }
    }
    assert segments[|segments|..] == [];
  }

  method UnionSelect(segments: seq<Segment>) returns (r: seq<Segment>)
    ensures r == Selected(segments, UnionTable) && r == Boundary(Union, segments)
  {
    r := Select(segments, UnionTable);
    SelectedIsBoundary(Union, segments);
  }

  method IntersectSelect(segments: seq<Segment>) returns (r: seq<Segment>)
    ensures r == Selected(segments, IntersectTable) && r == Boundary(Intersect, segments)
  {
    r := Select(segments, IntersectTable);
    SelectedIsBoundary(Intersect, segments);
  }

  method DifferenceSelect(segments: seq<Segment>) returns (r: seq<Segment>)
    ensures r == Selected(segments, DifferenceTable) && r == Boundary(Difference, segments)
  {
    r := Select(segments, DifferenceTable);
    SelectedIsBoundary(Difference, segments);
  }

  method DifferenceRevSelect(segments: seq<Segment>) returns (r: seq<Segment>)
    ensures r == Selected(segments, DifferenceRevTable) && r == Boundary(DifferenceRev, segments)
  {
    r := Select(segments, DifferenceRevTable);
    SelectedIsBoundary(DifferenceRev, segments);
  }

  method XorSelect(segments: seq<Segment>) returns (r: seq<Segment>)
    ensures r == Selected(segments, XorTable) && r == Boundary(Xor, segments)
  {
    r := Select(segments, XorTable);
    SelectedIsBoundary(Xor, segments);
  }
}
