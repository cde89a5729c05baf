# polybool-kotlin in Dafny

A model of the core of polybool-kotlin, a library for boolean operations on
polygons (union, intersection, difference, reverse difference, exclusive or).
A polygon is a list of regions, each region a list of points, plus an
"inverted" flag meaning the polygon covers the outside of its regions.

An operation runs in four phases. Each phase is a Dafny module named after its
Kotlin file:

- **Self-intersection sweep** (`SelfIntersecting` over `Intersecter`). Each
  polygon's regions become segments. A sweep line then splits the segments
  wherever they cross or overlap. It also works out, for every segment,
  whether the polygon is filled above it and below it.
- **Combination sweep** (`NonSelfIntersecting` over `Intersecter`). The same
  sweep runs over the segments of both polygons. It splits them against each
  other and records, for every segment, the fill of the *other* polygon on
  both sides.
- **Selection** (`SegmentSelector`). Each segment's four fill bits index a
  16-entry table per operation. The table decides whether the segment bounds
  the result and on which side the result's inside lies.
- **Chaining** (`SegmentChainer`). The selected segments are joined end to
  end into chains. A chain whose ends meet becomes a region. Points in the
  middle of a straight run are pruned.

`PolyBool` strings the phases together.

Supporting modules:

- `Epsilon` holds the tolerance-based geometric predicates.
- `LinkedLists` is the doubly linked list that serves as both the event queue
  and the sweep status.
- `Segments` is the segment record.
- `Wrappers` holds Option and Result.

Modelling choices:

- **Linked list.** `LinkedLists.LinkedList` is a class over an arena of nodes.
  Node 0 is the root. The `next` and `prev` links are sequences of optional
  node numbers, and the ghost sequence `Elems` gives the list's order. The
  insertion check closures of the source become functions from node numbers
  to booleans, over a snapshot of the node contents.
- **Segment arena.** The sweep's Segment objects update their fills and ends
  in place, and a start event and an end event share each one. They live in
  an arena `segs` of the `Intersecter` class, and an event names its segment
  by index.
- **Chains.** The chainer's mutable lists of chains and regions are sequence
  values, passed in and returned.
- **Results proved.** The sweep keeps its linked structures well formed. Every
  segment it reports has its fills resolved (self phase) or carries the other
  polygon's fill (combination phase). Every selection table is the one its
  boolean operator calls for. The chainer fails exactly on a zero-length
  segment. Each operation's result gets the inverted flag its operator
  prescribes.

Coordinates and the tolerance are real numbers (`Epsilon.Tolerance` is a
positive real).

The errors the library raises by `error(...)`, and the null dereferences it
would hit, are modelled as `Failure` values of `Segments.Error`.

## Model

| member | source | states |
|---|---|---|
| Epsilon.PointAboveOrOnLine | src/commonMain/kotlin/de/stefan_oltmann/polybool/Epsilon.kt:19-33 | true exactly when the cross product of left→right with left→point is at least −eps; a point equal to either end of the line is always above-or-on |
| Epsilon.PointBetween | src/commonMain/kotlin/de/stefan_oltmann/polybool/Epsilon.kt:35-58 | true only when the point's projection on left→right lies strictly between 0 and the squared length; the two endpoints, and any point of a degenerate line, are never between |
| Epsilon.PointsSame | src/commonMain/kotlin/de/stefan_oltmann/polybool/Epsilon.kt:60-76 | points are the same iff both coordinates differ by less than eps; every point is the same as itself |
| Epsilon.PointsSameSymmetric | src/commonMain/kotlin/de/stefan_oltmann/polybool/Epsilon.kt:60-76 | sameness does not depend on argument order |
| Epsilon.PointsCompare | src/commonMain/kotlin/de/stefan_oltmann/polybool/Epsilon.kt:78-91 | the result is −1, 0 or 1; 0 exactly when the points are the same; −1 only when the first point lies to the left, or in the same column and lower; 1 symmetrically |
| Epsilon.PointsCompareAntisymmetric | src/commonMain/kotlin/de/stefan_oltmann/polybool/Epsilon.kt:78-91 | swapping the arguments negates the comparison |
| Epsilon.PointsCollinear | src/commonMain/kotlin/de/stefan_oltmann/polybool/Epsilon.kt:93-110 | collinear iff the absolute cross product of pt1→pt2 and pt2→pt3 is below eps; three points with a repeat are always collinear |
| Epsilon.PointsCollinearReversed | src/commonMain/kotlin/de/stefan_oltmann/polybool/Epsilon.kt:93-110 | collinearity of pt1, pt2, pt3 equals that of pt3, pt2, pt1 |
| Epsilon.Along | src/commonMain/kotlin/de/stefan_oltmann/polybool/Epsilon.kt:157-169 | the five-way classification of a line parameter: −2 before the first point, −1 on it, 0 strictly between, 1 on the second point, 2 after, each case characterised by its eps bounds |
| Epsilon.AlongMonotonic | src/commonMain/kotlin/de/stefan_oltmann/polybool/Epsilon.kt:157-169 | a larger parameter never gets a smaller classification |
| Epsilon.LinesIntersect | src/commonMain/kotlin/de/stefan_oltmann/polybool/Epsilon.kt:139-172 | no result exactly when the absolute determinant of the two directions is below eps; otherwise both along-values are in −2..2 |
| Epsilon.LinesIntersectCrossing | src/commonMain/kotlin/de/stefan_oltmann/polybool/Epsilon.kt:139-172 | when a result exists the determinant is non-zero, alongA and alongB classify the two line parameters, and the point computed lies on line A and on line B |
| Epsilon.CrossingOnBothLines | src/commonMain/kotlin/de/stefan_oltmann/polybool/Epsilon.kt:150-171 | the point at parameter a on A equals the point at parameter b on B, i.e. the computed point is the crossing of both lines |
| Intersecter.SegmentCopy | src/commonMain/kotlin/de/stefan_oltmann/polybool/internal/AbstractIntersecter.kt:34-35 | the copy spans the given start and end, keeps the segment's own fill and carries no other fill |
| Intersecter.EventCompare | src/commonMain/kotlin/de/stefan_oltmann/polybool/internal/AbstractIntersecter.kt:37-63 | three-valued; orders first by the selected points; 0 exactly when both pairs of points are the same; an end event sorts before a start event at the same point; otherwise the first event is later exactly when its other point is above-or-on the second event's segment |
| Intersecter.EventCompareReflexive | src/commonMain/kotlin/de/stefan_oltmann/polybool/internal/AbstractIntersecter.kt:37-63 | an event compares equal with itself |
| Intersecter.EventCompareAntisymmetric | src/commonMain/kotlin/de/stefan_oltmann/polybool/internal/AbstractIntersecter.kt:37-63 | swapping the two events negates the result, except for two same-kind events on one point whose other points differ |
| Intersecter.EndBeforeStart | src/commonMain/kotlin/de/stefan_oltmann/polybool/internal/AbstractIntersecter.kt:52-53 | at a shared point, an end event always sorts before a start event (both argument orders) |
| Intersecter.InsertCheckOrder | src/commonMain/kotlin/de/stefan_oltmann/polybool/internal/AbstractIntersecter.kt:70-83 | the eventAdd check accepts a queued event exactly when the new event's point is lower; at the same point with different other ends and kinds exactly when the new event is the end event; never when both ends are the same |
| Intersecter.EventBeforeAsymmetric | src/commonMain/kotlin/de/stefan_oltmann/polybool/internal/AbstractIntersecter.kt:37-63 | where the two events' order is decided (points apart, other ends the same, or different kinds) an event that goes before another does not also go after it |
| Intersecter.EventCompareToleranceCounterexample | src/commonMain/kotlin/de/stefan_oltmann/polybool/internal/AbstractIntersecter.kt:37-63 | with eps 1 the start events at (0, 0) towards (10, 0) and at (0, 0.5) towards (20, −0.2) each compare below the other |
| Intersecter.EventAddKeepsOrder | src/commonMain/kotlin/de/stefan_oltmann/polybool/internal/AbstractIntersecter.kt:65-84 | inserting at the eventAdd position keeps a queue without inversions free of them when the new event's order against every queued event is decided |
| Intersecter.StatusCompare | src/commonMain/kotlin/de/stefan_oltmann/polybool/internal/AbstractIntersecter.kt:183-202 | ±1; when a's start is not on b's line, 1 iff a's start is above-or-on b; when it is, 1 iff a's end is on b's line or above-or-on it |
| Intersecter.StatusCompareOnLine | src/commonMain/kotlin/de/stefan_oltmann/polybool/internal/AbstractIntersecter.kt:193-196 | a segment lying on b's line compares as above b |
| Intersecter.StatusCompareSelf | src/commonMain/kotlin/de/stefan_oltmann/polybool/internal/AbstractIntersecter.kt:183-202 | a segment compares as above itself |
| Intersecter.StatusCheckOrder | src/commonMain/kotlin/de/stefan_oltmann/polybool/internal/AbstractIntersecter.kt:204-212 | for a segment whose start is off an entry's line, the status check accepts the entry exactly when that start is above or on the line; a segment lying along the entry's line is always accepted |
| Intersecter.AlongDivision | src/commonMain/kotlin/de/stefan_oltmann/polybool/internal/AbstractIntersecter.kt:293-320 | one division exactly when the other segment's along-value is −1, 0 or 1, on the given side |
| Intersecter.PlanIntersection | src/commonMain/kotlin/de/stefan_oltmann/polybool/internal/AbstractIntersecter.kt:214-324 | at most two divisions; the second segment is reported as equal exactly when the lines are coincident, collinear, do not merely touch end to start and share the start point; parallel lines and touching collinear segments are left alone; equal segments are reported undivided; with a shared start the longer segment is cut at the shorter one's end; with a1 strictly inside B the ends are first made equal (B cut at a2 inside B, else A cut at b2) and then B is cut at a1; a1 outside B and apart from b1 leaves both alone; crossing lines cut a segment only when the crossing is strictly inside it, and then always, at the other segment's endpoint or the crossing point |
| Intersecter.PlanCrossing | src/commonMain/kotlin/de/stefan_oltmann/polybool/internal/AbstractIntersecter.kt:293-320 | two segments crossing strictly inside both are both cut at the crossing point, which lies on both lines |
| Intersecter.DivideStatePieces | src/commonMain/kotlin/de/stefan_oltmann/polybool/internal/AbstractIntersecter.kt:154-168 | after a division the segment and its copy meet at pt and run from the old start to the old end with the same own fill; the two new events are the copy's partnered start and end with the primary flag kept; the old end event sits at pt; no other segment changes |
| Intersecter.DivideAll | src/commonMain/kotlin/de/stefan_oltmann/polybool/internal/AbstractIntersecter.kt:257-318 | applying divisions in order only moves the points of old events, keeps the fills of old segments and never shrinks the arena |
| Intersecter.SelfFill | src/commonMain/kotlin/de/stefan_oltmann/polybool/internal/AbstractIntersecter.kt:407-432 | the fill below is the inverted flag when nothing is below, else the segment below's fill above; the new fill toggles between its sides exactly when the old one was a toggling edge; both sides become known |
| Intersecter.SelfFillKeepsToggle | src/commonMain/kotlin/de/stefan_oltmann/polybool/internal/AbstractIntersecter.kt:407-432 | computing the fill keeps whether the edge toggles |
| Intersecter.MergeSelf | src/commonMain/kotlin/de/stefan_oltmann/polybool/internal/AbstractIntersecter.kt:368-384 | merging keeps the survivor's fill below and flips its fill above exactly when the discarded segment toggles |
| Intersecter.MergeSelfTwice | src/commonMain/kotlin/de/stefan_oltmann/polybool/internal/AbstractIntersecter.kt:368-384 | merging the same segment in twice restores the survivor's fill |
| Intersecter.SelfToggle | src/commonMain/kotlin/de/stefan_oltmann/polybool/internal/AbstractIntersecter.kt:370-376 | a segment toggles when its fill below is unknown, otherwise exactly when its fills above and below differ (also at :409-415) |
| Intersecter.CombineInside | src/commonMain/kotlin/de/stefan_oltmann/polybool/internal/AbstractIntersecter.kt:438-463 | with nothing below, inside is the other polygon's inverted flag; otherwise it is the segment below's fill above for the other polygon (its other fill when both belong to one polygon, its own fill otherwise) |
| Intersecter.CombineInsideRelabel | src/commonMain/kotlin/de/stefan_oltmann/polybool/internal/AbstractIntersecter.kt:438-463 | swapping which polygon is primary, together with the two inverted flags, gives the same answer |
| Intersecter.OutputSegment | src/commonMain/kotlin/de/stefan_oltmann/polybool/internal/AbstractIntersecter.kt:490-498 | a primary segment is reported as is; a secondary one has its two fills swapped, endpoints kept |
| Intersecter.OutputSegmentTwice | src/commonMain/kotlin/de/stefan_oltmann/polybool/internal/AbstractIntersecter.kt:490-498 | swapping the fills twice gives back the segment |
| Intersecter.AppendSegmentEvents | src/commonMain/kotlin/de/stefan_oltmann/polybool/internal/AbstractIntersecter.kt:86-136 | appending a segment's start and end events, each naming the other, keeps every event pointing at its partner and at a segment that exists |
| Intersecter.RetouchEvents | src/commonMain/kotlin/de/stefan_oltmann/polybool/internal/AbstractIntersecter.kt:138-152 | changing events' points and status links keeps the event records well formed |
| Intersecter.SweepDataKept | src/commonMain/kotlin/de/stefan_oltmann/polybool/internal/AbstractIntersecter.kt:331-505 | the relation between queue, status and segments survives updates that keep the events and the resolved segments |
| Intersecter.Intersecter.constructor | src/commonMain/kotlin/de/stefan_oltmann/polybool/internal/AbstractIntersecter.kt:18-32 | an empty event queue over an empty segment arena |
| Intersecter.Intersecter.EventAdd | src/commonMain/kotlin/de/stefan_oltmann/polybool/internal/AbstractIntersecter.kt:65-84 | the event is inserted before the first queued event its eventAdd check accepts, and nothing else changes; when the queue has no inversion and the new event's order against every queued event is decided, the queue still has no inversion |
| Intersecter.Intersecter.NewSegmentNodes | src/commonMain/kotlin/de/stefan_oltmann/polybool/internal/AbstractIntersecter.kt:86-124 | two new queue nodes hold the start and end events of the segment, each naming the other as partner |
| Intersecter.Intersecter.EventAddSegment | src/commonMain/kotlin/de/stefan_oltmann/polybool/internal/AbstractIntersecter.kt:126-136 | the segment joins the arena and its two events join the queue; the start node is returned |
| Intersecter.Intersecter.EventAddBoth | src/commonMain/kotlin/de/stefan_oltmann/polybool/internal/AbstractIntersecter.kt:100-123 | the start event is queued, then the end event; the queue then holds exactly the old events and these two |
| Intersecter.Intersecter.DetachEnd | src/commonMain/kotlin/de/stefan_oltmann/polybool/internal/AbstractIntersecter.kt:147-149 | the partner end event leaves the queue, and both its point and the segment's end become the new end |
| Intersecter.Intersecter.EventUpdateEnd | src/commonMain/kotlin/de/stefan_oltmann/polybool/internal/AbstractIntersecter.kt:138-152 | the segment is shortened to the new end and its end event re-queued at that point |
| Intersecter.Intersecter.EventDivide | src/commonMain/kotlin/de/stefan_oltmann/polybool/internal/AbstractIntersecter.kt:154-168 | the new events and segments are exactly DivideState: the segment ends at pt, its end event moves to pt and is re-queued, and a copy [pt, old end] with the same own fill and primary flag joins with two new queued events |
| Intersecter.Intersecter.Divide | src/commonMain/kotlin/de/stefan_oltmann/polybool/internal/AbstractIntersecter.kt:257-318 | the new state is DivideState of the event the division names (the first or the second segment) at the division point; the queue gains exactly the re-queued end event and the two new events |
| Intersecter.Intersecter.CheckIntersection | src/commonMain/kotlin/de/stefan_oltmann/polybool/internal/AbstractIntersecter.kt:214-324 | returns the second event exactly when the plan says the segments are equal; the new events and segments are Intersected, the plan's divisions applied in order; an empty plan changes nothing |
| Intersecter.Intersecter.ApplyDivisions | src/commonMain/kotlin/de/stefan_oltmann/polybool/internal/AbstractIntersecter.kt:293-320 | the divisions of a plan, applied one after the other, give DivideAll; no division changes nothing |
| Intersecter.Intersecter.NodeEvent | src/commonMain/kotlin/de/stefan_oltmann/polybool/internal/AbstractIntersecter.kt:339-341 | the event held by a status node, which is a resolved start event |
| Intersecter.Intersecter.Locate | src/commonMain/kotlin/de/stefan_oltmann/polybool/internal/AbstractIntersecter.kt:204-212 | the status transition where the event's segment belongs: after every status entry it is not above |
| Intersecter.Intersecter.FindSurrounding | src/commonMain/kotlin/de/stefan_oltmann/polybool/internal/AbstractIntersecter.kt:337-341 | the transition plus the events above and below it, both resolved |
| Intersecter.Intersecter.CheckBothIntersections | src/commonMain/kotlin/de/stefan_oltmann/polybool/internal/AbstractIntersecter.kt:343-357 | the event above is checked first; a coincidence there is returned with only that check applied; otherwise the event below is checked against the state after the first check, and its coincidence, if any, is returned (BothChecked); every queued event stays queued |
| Intersecter.Intersecter.MergeInto | src/commonMain/kotlin/de/stefan_oltmann/polybool/internal/AbstractIntersecter.kt:361-395 | the survivor takes the discarded segment's fill (toggle merge in the self phase, other fill in the combination phase); the queue keeps exactly its old events except the discarded event and its partner |
| Intersecter.Intersecter.SettleFill | src/commonMain/kotlin/de/stefan_oltmann/polybool/internal/AbstractIntersecter.kt:404-464 | the event's segment gets its fill from SelfFill or CombineInside as the phase requires, leaves an already known other fill alone, and changes no other segment (FillSettled) |
| Intersecter.Intersecter.StatusInsert | src/commonMain/kotlin/de/stefan_oltmann/polybool/internal/AbstractIntersecter.kt:466-468 | a new status node for the event is inserted at the located position |
| Intersecter.Intersecter.RecordStatus | src/commonMain/kotlin/de/stefan_oltmann/polybool/internal/AbstractIntersecter.kt:467-468 | the partner end event remembers the status node and no other event changes (StatusRecorded) |
| Intersecter.Intersecter.InsertStatus | src/commonMain/kotlin/de/stefan_oltmann/polybool/internal/AbstractIntersecter.kt:466-468 | status node inserted at the located position, and only the end event's status record changes (StatusRecorded) |
| Intersecter.Intersecter.ProcessStart | src/commonMain/kotlin/de/stefan_oltmann/polybool/internal/AbstractIntersecter.kt:335-468 | the events above and below are the status neighbours at the located position (Surrounding), and the checks leave the state BothChecked gives; on a coincidence the fill is merged (Merged) and the queue keeps exactly the events it had after the checks except ev and its partner; otherwise ev settles exactly when it is still the head, and then its fill is settled against the event below (FillSettled) and it enters the status at the located position; otherwise the status is untouched and ev has left the head; failure only on an emptied queue |
| Intersecter.Intersecter.Prepare | src/commonMain/kotlin/de/stefan_oltmann/polybool/internal/AbstractIntersecter.kt:337-359 | the neighbours at the position statusFindSurrounding locates (Surrounding), the state after checking ev against above and then below (BothChecked), every queued event still queued, and ev's partner unchanged |
| Intersecter.Intersecter.Conclude | src/commonMain/kotlin/de/stefan_oltmann/polybool/internal/AbstractIntersecter.kt:361-468 | a coincident event takes ev's fill (Merged) and ev and its partner leave the queue; otherwise the turn goes on without change while ev is not the head, or fails on an empty queue; otherwise the fill is settled (FillSettled), ev enters the status at the located position and only the partner's status record changes |
| Intersecter.Intersecter.MergeStep | src/commonMain/kotlin/de/stefan_oltmann/polybool/internal/AbstractIntersecter.kt:361-402 | the surviving segment takes the merged fill (Merged), the event contents are unchanged, and the queue keeps exactly its events except ev and its partner; the turn then goes on, or fails on an emptied queue, the source's null head |
| Intersecter.Intersecter.Settle | src/commonMain/kotlin/de/stefan_oltmann/polybool/internal/AbstractIntersecter.kt:404-468 | the fill is settled as SettleFill states (FillSettled), the status gains the event at the located position, and only the partner's status record changes in the queue |
| Intersecter.Intersecter.RecheckNeighbours | src/commonMain/kotlin/de/stefan_oltmann/polybool/internal/AbstractIntersecter.kt:479-483 | when both status neighbours exist, the new state is Intersected of their two events; otherwise nothing changes; both cases together as Rechecked |
| Intersecter.Intersecter.CheckPair | src/commonMain/kotlin/de/stefan_oltmann/polybool/internal/AbstractIntersecter.kt:482-483 | the two neighbours are checked against each other: the new state is Intersected of their events |
| Intersecter.Intersecter.ProcessEnd | src/commonMain/kotlin/de/stefan_oltmann/polybool/internal/AbstractIntersecter.kt:470-501 | fails with the zero-length error exactly when the end event has no status node, changing nothing; otherwise the two former status neighbours have been checked against each other (Rechecked: Intersected of their events when both exist, no change otherwise), the events are as that check left them and so are the segments except the reported one, which is the event's segment with the fills it had on entry, swapped for a secondary segment; the status keeps its contents and loses exactly the segment's node, the other nodes in order (Without) |
| Intersecter.Intersecter.StatusRemove | src/commonMain/kotlin/de/stefan_oltmann/polybool/internal/AbstractIntersecter.kt:486 | the status node leaves the status list; the contents are unchanged and the remaining nodes keep their order (Without) |
| Intersecter.Intersecter.ReleaseSegment | src/commonMain/kotlin/de/stefan_oltmann/polybool/internal/AbstractIntersecter.kt:490-500 | the reported segment is the output form (fills swapped for a secondary segment) |
| Intersecter.Intersecter.SweepStep | src/commonMain/kotlin/de/stefan_oltmann/polybool/internal/AbstractIntersecter.kt:333-504 | a segment is reported exactly for an end event, and it is that event's segment with the fills it had, swapped for a secondary segment, its status node gone from the status; a start event reports nothing, and when it settles it has left the queue and entered the status at its located position, otherwise the status is untouched; failures are an empty queue or the zero-length error of an end event |
| Intersecter.Intersecter.StartTurn | src/commonMain/kotlin/de/stefan_oltmann/polybool/internal/AbstractIntersecter.kt:335-468 | a turn on a start event reports nothing; when the event settles, it leaves the queue with the head removal (:504) and enters the status at its located position; otherwise the status is untouched; failure only on an empty queue |
| Intersecter.Intersecter.RemoveHead | src/commonMain/kotlin/de/stefan_oltmann/polybool/internal/AbstractIntersecter.kt:504 | the queue loses its head and keeps the rest in order, the contents unchanged; an empty queue is the source's null head |
| Intersecter.Intersecter.BaseCalculate | src/commonMain/kotlin/de/stefan_oltmann/polybool/internal/AbstractIntersecter.kt:170-508 | every reported segment has both own fills known (self phase) or an other fill (combination phase) |
| LinkedLists.FirstTrue | src/commonMain/kotlin/de/stefan_oltmann/polybool/internal/LinkedList.kt:41-69 | the first position whose element passes the check, or the length: all before it fail |
| LinkedLists.InsertAtMembers | src/commonMain/kotlin/de/stefan_oltmann/polybool/internal/LinkedList.kt:41-69 | inserting adds exactly the new node |
| LinkedLists.LinkedDistinct | src/commonMain/kotlin/de/stefan_oltmann/polybool/internal/LinkedList.kt:23-24 | a list linked by next pointers has no repeated node |
| LinkedLists.SpliceWellLinked | src/commonMain/kotlin/de/stefan_oltmann/polybool/internal/LinkedList.kt:51-57 | rewiring prev and next around a detached node inserts it at position k and keeps the list well linked |
| LinkedLists.UnlinkWellLinked | src/commonMain/kotlin/de/stefan_oltmann/polybool/internal/LinkedList.kt:106-119 | unlinking the node at position k removes exactly it and keeps the list well linked |
| LinkedLists.RemoveWellLinked | src/commonMain/kotlin/de/stefan_oltmann/polybool/internal/LinkedList.kt:106-119 | removing a non-root node by its own links keeps the list well linked; members are the old ones minus the node; a detached node changes nothing |
| LinkedLists.FirstTrueAt | src/commonMain/kotlin/de/stefan_oltmann/polybool/internal/LinkedList.kt:71-83 | a position that passes the check with all before it failing is the first true position |
| LinkedLists.InsertionKeepsOrder | src/commonMain/kotlin/de/stefan_oltmann/polybool/internal/AbstractIntersecter.kt:65-84 | inserting before the first element it precedes keeps a list free of inversions, for any order that is asymmetric between the new element and the list's elements |
| LinkedLists.LinkedList.constructor | src/commonMain/kotlin/de/stefan_oltmann/polybool/internal/LinkedList.kt:127 | an empty list holding only its root |
| LinkedLists.LinkedList.NewNode | src/commonMain/kotlin/de/stefan_oltmann/polybool/internal/LinkedList.kt:129 | a fresh detached node carrying the content |
| LinkedLists.LinkedList.SetContent | src/commonMain/kotlin/de/stefan_oltmann/polybool/internal/IntersecterContent.kt:15-22 | one node's content changes to the given record, which Content then returns; the links do not change |
| LinkedLists.LinkedList.Content | src/commonMain/kotlin/de/stefan_oltmann/polybool/internal/LinkedList.kt:121-123 | the content stored at a non-root node |
| LinkedLists.LinkedList.Exists | src/commonMain/kotlin/de/stefan_oltmann/polybool/internal/LinkedList.kt:26-27 | true iff the node is present and not the root |
| LinkedLists.LinkedList.IsEmpty | src/commonMain/kotlin/de/stefan_oltmann/polybool/internal/LinkedList.kt:29-30 | true iff the list has no elements |
| LinkedLists.LinkedList.GetHead | src/commonMain/kotlin/de/stefan_oltmann/polybool/internal/LinkedList.kt:32-33 | the first element |
| LinkedLists.LinkedList.GetPrev | src/commonMain/kotlin/de/stefan_oltmann/polybool/internal/LinkedList.kt:35-36 | a node in the arena; none for a detached node |
| LinkedLists.LinkedList.GetNext | src/commonMain/kotlin/de/stefan_oltmann/polybool/internal/LinkedList.kt:38-39 | a node in the arena; none for a detached node |
| LinkedLists.LinkedList.Neighbours | src/commonMain/kotlin/de/stefan_oltmann/polybool/internal/LinkedList.kt:35-39 | an element's prev is the element before it (the root for the head) and its next the element after it (none for the last) |
| LinkedLists.LinkedList.NeighboursExist | src/commonMain/kotlin/de/stefan_oltmann/polybool/internal/LinkedList.kt:26-39 | an element's prev exists iff it is not the head; its next exists iff it is not the last |
| LinkedLists.LinkedList.Link | src/commonMain/kotlin/de/stefan_oltmann/polybool/internal/LinkedList.kt:91-102 | linking a node between a position's predecessor and successor inserts it there |
| LinkedLists.LinkedList.InsertBefore | src/commonMain/kotlin/de/stefan_oltmann/polybool/internal/LinkedList.kt:41-69 | the node is inserted before the first element passing the check, or at the end |
| LinkedLists.LinkedList.FindTransition | src/commonMain/kotlin/de/stefan_oltmann/polybool/internal/LinkedList.kt:71-104 | before and after are the elements around the first position passing the check (before is none at the head) |
| LinkedLists.LinkedList.InsertTransition | src/commonMain/kotlin/de/stefan_oltmann/polybool/internal/LinkedList.kt:91-102 | the transition's insert places the node at that position and returns it |
| LinkedLists.LinkedList.Remove | src/commonMain/kotlin/de/stefan_oltmann/polybool/internal/LinkedList.kt:106-119 | the root is left alone; any other node is detached and removed from the list, the rest keep their order |
| SelfIntersecting.Edge | src/commonMain/kotlin/de/stefan_oltmann/polybool/internal/SelfIntersecter.kt:33-47 | no segment exactly when the two points are the same; otherwise the segment runs from the smaller point to the larger, over the given pair, with unknown fill |
| SelfIntersecting.EdgesFrom | src/commonMain/kotlin/de/stefan_oltmann/polybool/internal/SelfIntersecter.kt:31-48 | at most one segment per point, each directed left to right with unknown fill and no other fill |
| SelfIntersecting.RegionSegments | src/commonMain/kotlin/de/stefan_oltmann/polybool/internal/SelfIntersecter.kt:21-49 | a region's segments start with the closing edge from the last point; at most one per point, all directed and unfilled |
| SelfIntersecting.EdgesFromSnoc | src/commonMain/kotlin/de/stefan_oltmann/polybool/internal/SelfIntersecter.kt:31-48 | one more point adds exactly the edge from the previous point, unless the two are the same |
| SelfIntersecting.EdgesFromAll | src/commonMain/kotlin/de/stefan_oltmann/polybool/internal/SelfIntersecter.kt:31-48 | without repeated consecutive points every point contributes its edge, in order |
| SelfIntersecting.RegionSegmentsAll | src/commonMain/kotlin/de/stefan_oltmann/polybool/internal/SelfIntersecter.kt:28-48 | without repeated consecutive points (cyclically) segment i is the edge into point i |
| SelfIntersecting.SelfIntersecter.constructor | src/commonMain/kotlin/de/stefan_oltmann/polybool/internal/SelfIntersecter.kt:16-19 | an empty sweep in self mode |
| SelfIntersecting.SelfIntersecter.AddRegion | src/commonMain/kotlin/de/stefan_oltmann/polybool/internal/SelfIntersecter.kt:21-49 | an empty region fails; otherwise the region's segments are added in order; each new segment brings two new events, and exactly the old and the new events are queued |
| SelfIntersecting.SelfIntersecter.AddSegment | src/commonMain/kotlin/de/stefan_oltmann/polybool/internal/SelfIntersecter.kt:41-47 | one primary segment added; its start and end events, each naming the other, are appended and join the queue |
| SelfIntersecting.SelfIntersecter.Calculate | src/commonMain/kotlin/de/stefan_oltmann/polybool/internal/SelfIntersecter.kt:51-55 | the engine stays valid, and every result segment has both own fills known and no other fill |
| NonSelfIntersecting.Copies | src/commonMain/kotlin/de/stefan_oltmann/polybool/internal/NonSelfIntersecter.kt:35-39 | one copy per segment, same endpoints and own fill, no other fill |
| NonSelfIntersecting.CopiesSnoc | src/commonMain/kotlin/de/stefan_oltmann/polybool/internal/NonSelfIntersecter.kt:35-39 | copies of a longer list extend the copies of the shorter |
| NonSelfIntersecting.NonSelfIntersecter.constructor | src/commonMain/kotlin/de/stefan_oltmann/polybool/internal/NonSelfIntersecter.kt:15-20 | an empty sweep in combination mode |
| NonSelfIntersecting.NonSelfIntersecter.AddCopies | src/commonMain/kotlin/de/stefan_oltmann/polybool/internal/NonSelfIntersecter.kt:35-39 | the copies of all segments join the arena, two events each, marked with the polygon; exactly the old and the new events are queued |
| NonSelfIntersecting.NonSelfIntersecter.AddSegment | src/commonMain/kotlin/de/stefan_oltmann/polybool/internal/NonSelfIntersecter.kt:36 | one segment added; its start and end events, each naming the other and marked with the polygon, are appended and join the queue |
| NonSelfIntersecting.NonSelfIntersecter.Calculate | src/commonMain/kotlin/de/stefan_oltmann/polybool/internal/NonSelfIntersecter.kt:22-42 | the engine stays valid, and every result segment carries the other polygon's fill |
| SegmentSelector.Table | src/commonMain/kotlin/de/stefan_oltmann/polybool/internal/SegmentSelector.kt:48-193 | each table has sixteen entries, each 0, 1 or 2 |
| SegmentSelector.Entry | src/commonMain/kotlin/de/stefan_oltmann/polybool/internal/SegmentSelector.kt:50-67 | 1 when the operator's result is inside above the segment only, 2 when inside below only, 0 when both sides agree |
| SegmentSelector.TableEncodesOperator | src/commonMain/kotlin/de/stefan_oltmann/polybool/internal/SegmentSelector.kt:48-193 | every entry of the union, intersect, difference, reverse difference and xor tables is the entry of its operator (or, and, and-not, not-and, xor) |
| SegmentSelector.SwapIndex | src/commonMain/kotlin/de/stefan_oltmann/polybool/internal/SegmentSelector.kt:23-27 | the index with the two polygons' fill bits exchanged |
| SegmentSelector.TableSymmetric | src/commonMain/kotlin/de/stefan_oltmann/polybool/internal/SegmentSelector.kt:48-193 | the union, intersect and xor tables do not depend on which polygon is which |
| SegmentSelector.DifferenceSwapped | src/commonMain/kotlin/de/stefan_oltmann/polybool/internal/SegmentSelector.kt:110-164 | the reverse difference table is the difference table with the polygons exchanged |
| SegmentSelector.Index | src/commonMain/kotlin/de/stefan_oltmann/polybool/internal/SegmentSelector.kt:23-27 | the four bits of the index are above1, below1, above2 and below2, a missing other fill counting as false |
| SegmentSelector.Selected | src/commonMain/kotlin/de/stefan_oltmann/polybool/internal/SegmentSelector.kt:18-45 | at most one kept segment per input, each with both own fills known and no other fill; with a valid table the two sides always differ |
| SegmentSelector.SelectedIsBoundary | src/commonMain/kotlin/de/stefan_oltmann/polybool/internal/SegmentSelector.kt:18-193 | selecting with an operator's table keeps exactly the segments on the boundary of the operator's result, filled on the inside side |
| SegmentSelector.SelectedStep | src/commonMain/kotlin/de/stefan_oltmann/polybool/internal/SegmentSelector.kt:22-42 | one loop step keeps the current segment exactly when its entry is non-zero |
| SegmentSelector.Select | src/commonMain/kotlin/de/stefan_oltmann/polybool/internal/SegmentSelector.kt:18-45 | the loop produces the selection for the table |
| SegmentSelector.UnionSelect | src/commonMain/kotlin/de/stefan_oltmann/polybool/internal/SegmentSelector.kt:48-76 | the boundary of the union |
| SegmentSelector.IntersectSelect | src/commonMain/kotlin/de/stefan_oltmann/polybool/internal/SegmentSelector.kt:79-107 | the boundary of the intersection |
| SegmentSelector.DifferenceSelect | src/commonMain/kotlin/de/stefan_oltmann/polybool/internal/SegmentSelector.kt:110-136 | the boundary of first minus second |
| SegmentSelector.DifferenceRevSelect | src/commonMain/kotlin/de/stefan_oltmann/polybool/internal/SegmentSelector.kt:139-165 | the boundary of second minus first |
| SegmentSelector.XorSelect | src/commonMain/kotlin/de/stefan_oltmann/polybool/internal/SegmentSelector.kt:168-194 | the boundary of the exclusive or |
| SegmentChainer.RemoveAt | src/commonMain/kotlin/de/stefan_oltmann/polybool/internal/SegmentChainer.kt:131 | chains without the one at i, the rest in order |
| SegmentChainer.RemoveAtWf | src/commonMain/kotlin/de/stefan_oltmann/polybool/internal/SegmentChainer.kt:131 | removing a chain keeps every chain at least two points long |
| SegmentChainer.ChainMatch | src/commonMain/kotlin/de/stefan_oltmann/polybool/internal/SegmentChainer.kt:72-89 | a match names the chain and an end of it that is the same as pt1 or pt2, tried head-pt1, head-pt2, tail-pt1, tail-pt2; none exactly when neither end is the same as either point |
| SegmentChainer.MatchesBelow | src/commonMain/kotlin/de/stefan_oltmann/polybool/internal/SegmentChainer.kt:66-90 | the matches among the first n chains, in increasing chain order, at most one per chain |
| SegmentChainer.MatchesBelowSound | src/commonMain/kotlin/de/stefan_oltmann/polybool/internal/SegmentChainer.kt:66-90 | every listed match is the match of its chain |
| SegmentChainer.MatchesBelowComplete | src/commonMain/kotlin/de/stefan_oltmann/polybool/internal/SegmentChainer.kt:66-90 | every chain that matches is listed |
| SegmentChainer.MatchesBelowPrefix | src/commonMain/kotlin/de/stefan_oltmann/polybool/internal/SegmentChainer.kt:66-90 | the matches among fewer chains are a prefix of those among more |
| SegmentChainer.FindMatches | src/commonMain/kotlin/de/stefan_oltmann/polybool/internal/SegmentChainer.kt:40-90 | the scan stops after the second match: the first two matches in chain order |
| SegmentChainer.Reverse | src/commonMain/kotlin/de/stefan_oltmann/polybool/internal/SegmentChainer.kt:160-162 | the chain in reverse order |
| SegmentChainer.ReverseEnds | src/commonMain/kotlin/de/stefan_oltmann/polybool/internal/SegmentChainer.kt:160-162 | reversing exchanges the two ends |
| SegmentChainer.ReverseReverse | src/commonMain/kotlin/de/stefan_oltmann/polybool/internal/SegmentChainer.kt:160-162 | reversing twice gives back the chain |
| SegmentChainer.Join | src/commonMain/kotlin/de/stefan_oltmann/polybool/internal/SegmentChainer.kt:164-190 | the concatenation loses at most the first chain's tail and the second chain's head, and keeps the far ends |
| SegmentChainer.JoinKeeps | src/commonMain/kotlin/de/stefan_oltmann/polybool/internal/SegmentChainer.kt:164-190 | all of the first chain except its tail, and all of the second except its head, survive in place |
| SegmentChainer.ReverseChain | src/commonMain/kotlin/de/stefan_oltmann/polybool/internal/SegmentChainer.kt:160-162 | only the chain at index is reversed |
| SegmentChainer.AppendChain | src/commonMain/kotlin/de/stefan_oltmann/polybool/internal/SegmentChainer.kt:164-193 | the joined chain replaces index1, index2 is removed, one chain fewer |
| SegmentChainer.OthersKeepFirst | src/commonMain/kotlin/de/stefan_oltmann/polybool/internal/SegmentChainer.kt:191-192 | replacing the first chain and removing the second leaves the others alone |
| SegmentChainer.OthersKeepSecond | src/commonMain/kotlin/de/stefan_oltmann/polybool/internal/SegmentChainer.kt:191-192 | replacing the second chain and removing the first leaves the others alone |
| SegmentChainer.OthersAgree | src/commonMain/kotlin/de/stefan_oltmann/polybool/internal/SegmentChainer.kt:191-192 | lists that agree outside two positions agree once those two are removed |
| SegmentChainer.SplicedEnds | src/commonMain/kotlin/de/stefan_oltmann/polybool/internal/SegmentChainer.kt:195-257 | the combined chain runs between the two matched chains' far ends and loses at most two points |
| SegmentChainer.Splice | src/commonMain/kotlin/de/stefan_oltmann/polybool/internal/SegmentChainer.kt:195-257 | the two matched chains are replaced by their combination (the shorter reversed when the ends require it), the other chains unchanged, one chain fewer |
| SegmentChainer.ExtendOrClose | src/commonMain/kotlin/de/stefan_oltmann/polybool/internal/SegmentChainer.kt:102-156 | with one match, the other point is added at the matched end (the old end pruned when collinear); if it is the same as the opposite end the chain is closed instead, pruned at both ends when collinear, and moved to the regions |
| SegmentChainer.Chain | src/commonMain/kotlin/de/stefan_oltmann/polybool/internal/SegmentChainer.kt:24-261 | fails with the zero-length error exactly when some segment's endpoints are the same; otherwise returns at most one region per segment |
| PolyBool.PolygonSegmentsOf | src/commonMain/kotlin/de/stefan_oltmann/polybool/PolyBool.kt:34-48 | a polygon with an empty region fails; otherwise the segments keep the inverted flag, have both own fills known and no other fill |
| PolyBool.CombineSegments | src/commonMain/kotlin/de/stefan_oltmann/polybool/PolyBool.kt:50-64 | the combined segments carry both inverted flags and the other polygon's fill |
| PolyBool.SelectUnion | src/commonMain/kotlin/de/stefan_oltmann/polybool/PolyBool.kt:66-70 | the union's boundary, inverted when either polygon is |
| PolyBool.SelectIntersect | src/commonMain/kotlin/de/stefan_oltmann/polybool/PolyBool.kt:72-76 | the intersection's boundary, inverted when both are |
| PolyBool.SelectDifference | src/commonMain/kotlin/de/stefan_oltmann/polybool/PolyBool.kt:78-82 | the difference's boundary, inverted when the first is and the second is not |
| PolyBool.SelectDifferenceRev | src/commonMain/kotlin/de/stefan_oltmann/polybool/PolyBool.kt:84-88 | the reverse difference's boundary, inverted when the second is and the first is not |
| PolyBool.SelectXor | src/commonMain/kotlin/de/stefan_oltmann/polybool/PolyBool.kt:90-94 | the exclusive or's boundary, inverted when exactly one is |
| PolyBool.Selector | src/commonMain/kotlin/de/stefan_oltmann/polybool/PolyBool.kt:104-119 | the selector of the operation: its boundary and its inverted flag |
| PolyBool.ToPolygon | src/commonMain/kotlin/de/stefan_oltmann/polybool/PolyBool.kt:96-100 | fails exactly on a zero-length segment; otherwise at most one region per segment and the inverted flag kept |
| PolyBool.Operate | src/commonMain/kotlin/de/stefan_oltmann/polybool/PolyBool.kt:104-119 | an empty region in the first polygon fails with the empty-region error, one in the second fails; a result's inverted flag is the operator applied to the two flags |
| PolyBool.PolygonUnion | src/commonMain/kotlin/de/stefan_oltmann/polybool/PolyBool.kt:121-122 | a result is inverted iff either polygon is |
| PolyBool.PolygonIntersect | src/commonMain/kotlin/de/stefan_oltmann/polybool/PolyBool.kt:124-125 | a result is inverted iff both are |
| PolyBool.PolygonDifference | src/commonMain/kotlin/de/stefan_oltmann/polybool/PolyBool.kt:127-128 | a result is inverted iff the first is and the second is not |
| PolyBool.PolygonDifferenceRev | src/commonMain/kotlin/de/stefan_oltmann/polybool/PolyBool.kt:130-131 | a result is inverted iff the second is and the first is not |
| PolyBool.PolygonXor | src/commonMain/kotlin/de/stefan_oltmann/polybool/PolyBool.kt:133-134 | a result is inverted iff exactly one is |

## Left out

- Floating point: coordinates are real numbers, so IEEE rounding of the source's `Double` arithmetic is not modelled.
- Intersecter.Intersecter.BaseCalculate: the main loop runs on a `fuel` step bound and fails with `OutOfFuel` when it runs out, because termination of the sweep (divisions add events) is not proved.
- Geometric correctness of the output as a whole is not stated. That means the reported segments do not overlap and the regions bound the true set. The model proves the local rules each phase applies, not the global theorem.
- Polygon.kt is not part of this model. Its polygon type (regions plus inverted flag) is `PolyBool.Polygon`.
- The library's test suite is not part of this model.
- EpsilonIntersectionResult's `equals` and `hashCode` are left out, because the core never compares intersection results.
- The default epsilon (1e-10) and the public `Epsilon` data class are left out. The tolerance is a parameter of every predicate.
- Intersecter.Intersecter.SweepStep: after an end event, the contract does not say which node the final head removal takes. Checking the neighbours of an ending segment may queue new events ahead of it, and the source then removes whatever is at the head.
- Intersecter.Intersecter.EventAdd: keeping the queue sorted is not an invariant under the tolerance. With eps 1 the start events at (0, 0) towards (10, 0) and at (0, 0.5) towards (20, −0.2) each compare below the other (EventCompareToleranceCounterexample), so the queue order is proved kept only when the new event's order against every queued event is decided (EventAddKeepsOrder).
- SegmentChainer.FindMatches: the `setMatch` closure and its two mutable match slots are a loop that collects up to two matches in order.
- SegmentChainer.Chain: the chains and regions are values, so the sharing of one mutable list between `chains` and `regions` is not modelled. The source never mutates a chain after moving it to the regions.
- SegmentChainer.Chain: the contract does not state the shape of the regions (that each is a closed loop of the segments). It states the error condition and the region count.
- Errors: Kotlin's `error(...)` and the null dereferences of `!!` and `getHead()` on an empty queue are modelled as `Failure` results, not exceptions.
- PolyBool.Operate: for an empty region in the second polygon the contract states only that the call fails. The first polygon may fail first with another error.
- The Fill objects of the source are updated in place. In the self phase they are never shared. In the combination phase an aliased fill (`otherFill = ev.seg.myFill`) is never updated again, so value semantics are exact.
- Linked-list nodes are numbers into an arena, not object references. The sharing of one node by the queue and by the status contents is expressed by node numbers.
