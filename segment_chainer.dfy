/**
 * The segment chainer (internal/SegmentChainer.kt): the selected segments are
 * joined end to end into open chains; a chain whose ends meet is closed and
 * becomes a region. Points in the middle of a straight run are pruned.
 */
module SegmentChainer {
  import opened Wrappers
  import opened Epsilon
  import opened Segments

  /** SegmentChainerMatch: the chain at index meets the new segment at its head or tail, at pt1 or pt2. */
  datatype Match = Match(index: nat, matchesHead: bool, matchesPt1: bool)

  /** Every open chain has at least two points. */
  predicate ChainsWf(chains: seq<seq<Point>>) {
    forall j :: 0 <= j < |chains| ==> |chains[j]| >= 2
  }

  /** chains without the one at i. */
  function RemoveAt(chains: seq<seq<Point>>, i: nat): (r: seq<seq<Point>>)
    requires i < |chains|
    ensures |r| == |chains| - 1
    ensures forall j :: 0 <= j < i ==> r[j] == chains[j]
    ensures forall j :: i <= j < |r| ==> r[j] == chains[j + 1]
  {
    chains[..i] + chains[i + 1..]
  }

  lemma RemoveAtWf(chains: seq<seq<Point>>, i: nat)
    requires ChainsWf(chains) && i < |chains|
    ensures ChainsWf(RemoveAt(chains, i))
  {
    var r := RemoveAt(chains, i);
    forall j | 0 <= j < |r| ensures |r[j]| >= 2 {
      if j < i { assert r[j] == chains[j]; } else { assert r[j] == chains[j + 1]; }
    }
  }

  /** The end of a chain at its head or at its tail. */
  function EndOf(chain: seq<Point>, head: bool): Point
    requires chain != []
  {
    if head then chain[0] else chain[|chain| - 1]
  }

  /**
   * The `when` of the scan over the chains: how the chain at index meets the
   * segment pt1-pt2, trying head-pt1, head-pt2, tail-pt1 and tail-pt2 in turn.
   */
  function ChainMatch(eps: Tolerance, chain: seq<Point>, index: nat, pt1: Point, pt2: Point): (r: Option<Match>)
    requires chain != []
    ensures r.Some? ==> r.value.index == index
    ensures r.Some? ==> PointsSame(eps, EndOf(chain, r.value.matchesHead), if r.value.matchesPt1 then pt1 else pt2)
    ensures r.None? <==> !PointsSame(eps, chain[0], pt1) && !PointsSame(eps, chain[0], pt2) &&
                         !PointsSame(eps, chain[|chain| - 1], pt1) && !PointsSame(eps, chain[|chain| - 1], pt2)
  {
    var head := chain[0];
    var tail := chain[|chain| - 1];
    if PointsSame(eps, head, pt1) then Some(Match(index, true, true))
    else if PointsSame(eps, head, pt2) then Some(Match(index, true, false))
    else if PointsSame(eps, tail, pt1) then Some(Match(index, false, true))
    else if PointsSame(eps, tail, pt2) then Some(Match(index, false, false))
    else None
  }

  /** The matches among the first n chains, in order: at most one per chain. */
  function MatchesBelow(eps: Tolerance, chains: seq<seq<Point>>, pt1: Point, pt2: Point, n: nat): (r: seq<Match>)
    requires n <= |chains| && ChainsWf(chains)
    ensures |r| <= n
    ensures forall k :: 0 <= k < |r| ==> r[k].index < n
    ensures forall k :: 0 <= k < |r| - 1 ==> r[k].index < r[k + 1].index
  {
    if n == 0 then []
    else
      MatchesBelow(eps, chains, pt1, pt2, n - 1) +
        match ChainMatch(eps, chains[n - 1], n - 1, pt1, pt2) case Some(m) => [m] case None => []
  }

  /** m is how the chain at m.index meets the segment pt1-pt2. */
  predicate Found(eps: Tolerance, chains: seq<seq<Point>>, pt1: Point, pt2: Point, m: Match)
    requires ChainsWf(chains)
  {
    m.index < |chains| && ChainMatch(eps, chains[m.index], m.index, pt1, pt2) == Some(m)
  }

  /** Every match found is how its chain meets the segment. */
  lemma {:induction false} MatchesBelowSound(eps: Tolerance, chains: seq<seq<Point>>, pt1: Point, pt2: Point, n: nat)
    requires n <= |chains| && ChainsWf(chains)
    ensures forall k :: 0 <= k < |MatchesBelow(eps, chains, pt1, pt2, n)| ==>
              Found(eps, chains, pt1, pt2, MatchesBelow(eps, chains, pt1, pt2, n)[k])
  {
    if n > 0 {
      MatchesBelowSound(eps, chains, pt1, pt2, n - 1);
      var prev := MatchesBelow(eps, chains, pt1, pt2, n - 1);
      var r := MatchesBelow(eps, chains, pt1, pt2, n);
      var m := ChainMatch(eps, chains[n - 1], n - 1, pt1, pt2);
      forall k | 0 <= k < |r| ensures Found(eps, chains, pt1, pt2, r[k]) {
        if k < |prev| {
          assert r[k] == prev[k];
          assert Found(eps, chains, pt1, pt2, prev[k]);
        } else {
          assert m.Some? && r[k] == m.value && m.value.index == n - 1;
        }
      }
    }
  }

  /** A chain the segment meets yields a match among those below any later bound. */
  lemma {:induction false} MatchesBelowComplete(eps: Tolerance, chains: seq<seq<Point>>, pt1: Point, pt2: Point, n: nat, j: nat)
    requires n <= |chains| && ChainsWf(chains) && j < n
    requires ChainMatch(eps, chains[j], j, pt1, pt2).Some?
    ensures ChainMatch(eps, chains[j], j, pt1, pt2).value in MatchesBelow(eps, chains, pt1, pt2, n)
  {
    if j < n - 1 {
      MatchesBelowComplete(eps, chains, pt1, pt2, n - 1, j);
    }
  }

  /** The matches among fewer chains are a prefix of those among more. */
  lemma {:induction false} MatchesBelowPrefix(eps: Tolerance, chains: seq<seq<Point>>, pt1: Point, pt2: Point, n: nat, m: nat)
    requires n <= m <= |chains| && ChainsWf(chains)
    ensures |MatchesBelow(eps, chains, pt1, pt2, n)| <= |MatchesBelow(eps, chains, pt1, pt2, m)|
    ensures MatchesBelow(eps, chains, pt1, pt2, n) ==
              MatchesBelow(eps, chains, pt1, pt2, m)[..|MatchesBelow(eps, chains, pt1, pt2, n)|]
    decreases m - n
  {
    if n < m {
      MatchesBelowPrefix(eps, chains, pt1, pt2, n, m - 1);
      var a := MatchesBelow(eps, chains, pt1, pt2, n);
      var b := MatchesBelow(eps, chains, pt1, pt2, m - 1);
      assert MatchesBelow(eps, chains, pt1, pt2, m)[..|b|] == b;
      assert b[..|a|] == a;
    }
  }

  /** At most the first two of a list of matches: the scan stops after the second. */
  function FirstTwo(ms: seq<Match>): seq<Match> {
    if |ms| <= 2 then ms else ms[..2]
  }

  /**
   * The scan over the chains with setMatch: the first two matches, which lie
   * on two different chains.
   */
  method FindMatches(eps: Tolerance, chains: seq<seq<Point>>, pt1: Point, pt2: Point) returns (matches: seq<Match>)
    requires ChainsWf(chains)
    ensures matches == FirstTwo(MatchesBelow(eps, chains, pt1, pt2, |chains|))
    ensures |matches| <= 2 && (|matches| == 2 ==> matches[0].index < matches[1].index < |chains|)
  {
    matches := [];
    var index := 0;
    while index < |chains|
      invariant index <= |chains| && matches == MatchesBelow(eps, chains, pt1, pt2, index) && |matches| < 2
    {
      var m := ChainMatch(eps, chains[index], index, pt1, pt2);
      if m.Some? {
        matches := matches + [m.value];
        if |matches| == 2 {
          // matched twice: done
          MatchesBelowPrefix(eps, chains, pt1, pt2, index + 1, |chains|);
          return;
        }
      }
      index := index + 1;
    }
  }

  /** The list in reverse order (MutableList.reverse). */
  function Reverse(chain: seq<Point>): (r: seq<Point>)
    ensures |r| == |chain|
    ensures forall i :: 0 <= i < |r| ==> r[i] == chain[|chain| - 1 - i]
  {
    if chain == [] then [] else Reverse(chain[1..]) + [chain[0]]
  }

  /** A reversed chain starts at the old tail and ends at the old head. */
  lemma ReverseEnds(chain: seq<Point>)
    requires chain != []
    ensures Reverse(chain)[0] == chain[|chain| - 1] && Reverse(chain)[|chain| - 1] == chain[0]
    ensures |Reverse(chain)| == |chain|
  {
  }

  /** Reversing twice gives the chain back. */
  lemma ReverseReverse(chain: seq<Point>)
    ensures Reverse(Reverse(chain)) == chain
  {
    assert forall i :: 0 <= i < |chain| ==> Reverse(Reverse(chain))[i] == chain[i];
  }

  /**
   * The chain appendChain builds: chain1 followed by chain2, where chain1's
   * tail is dropped when it lies on the line from its neighbour to chain2's
   * head, and chain2's head is dropped when it lies on the line from the
   * (new) tail to its neighbour.
   */
  function Join(eps: Tolerance, chain1: seq<Point>, chain2: seq<Point>): (r: seq<Point>)
    requires |chain1| >= 2 && |chain2| >= 2
    ensures |chain1| + |chain2| - 2 <= |r| <= |chain1| + |chain2|
    ensures r[0] == chain1[0] && r[|r| - 1] == chain2[|chain2| - 1]
  {
    var tail := chain1[|chain1| - 1];
    var tail2 := chain1[|chain1| - 2];
    var head := chain2[0];
    var head2 := chain2[1];
    var dropTail := PointsCollinear(eps, tail2, tail, head);
    var kept1 := if dropTail then chain1[..|chain1| - 1] else chain1;
    var newTail := if dropTail then tail2 else tail;
    var kept2 := if PointsCollinear(eps, newTail, head, head2) then chain2[1..] else chain2;
    kept1 + kept2
  }

  /** The join keeps all of chain1 but its tail, then all of chain2 but its head. */
  lemma JoinKeeps(eps: Tolerance, chain1: seq<Point>, chain2: seq<Point>)
    requires |chain1| >= 2 && |chain2| >= 2
    ensures var r := Join(eps, chain1, chain2);
            r[..|chain1| - 1] == chain1[..|chain1| - 1] && r[|r| - (|chain2| - 1)..] == chain2[1..]
  {
  }

  /** reverseChain: the chain at index is reversed in place; the others stay. */
  function ReverseChain(chains: seq<seq<Point>>, index: nat): (r: seq<seq<Point>>)
    requires ChainsWf(chains) && index < |chains|
    ensures ChainsWf(r) && |r| == |chains| && r[index] == Reverse(chains[index])
    ensures forall j :: 0 <= j < |r| && j != index ==> r[j] == chains[j]
  {
    chains[index := Reverse(chains[index])]
  }

  /**
   * appendChain: the chain at index1 gets the one at index2 appended, and the
   * one at index2 leaves; the joined chain ends up where index1 was, one place
   * earlier when index2 came before it.
   */
  function AppendChain(eps: Tolerance, chains: seq<seq<Point>>, index1: nat, index2: nat): (r: seq<seq<Point>>)
    requires ChainsWf(chains) && index1 < |chains| && index2 < |chains| && index1 != index2
    ensures ChainsWf(r) && |r| == |chains| - 1
    ensures r[if index1 < index2 then index1 else index1 - 1] == Join(eps, chains[index1], chains[index2])
  {
    var joined := chains[index1 := Join(eps, chains[index1], chains[index2])];
    RemoveAtWf(joined, index2);
    RemoveAt(joined, index2)
  }

  /** The chains other than those at i < j, in order. */
  function Others(chains: seq<seq<Point>>, i: nat, j: nat): (r: seq<seq<Point>>)
    requires i < j < |chains|
    ensures |r| == |chains| - 2
  {
    RemoveAt(RemoveAt(chains, j), i)
  }

  /** Replacing the chain at i and dropping the one at j leaves the others in place. */
  lemma OthersKeepFirst(chains: seq<seq<Point>>, i: nat, j: nat, x: seq<Point>)
    requires i < j < |chains|
    ensures RemoveAt(RemoveAt(chains[i := x], j), i) == Others(chains, i, j)
  {
    var a := RemoveAt(RemoveAt(chains[i := x], j), i);
    forall k | 0 <= k < |a| ensures a[k] == Others(chains, i, j)[k] {}
  }

  /** Replacing the chain at j and dropping the one at i leaves the others in place. */
  lemma OthersKeepSecond(chains: seq<seq<Point>>, i: nat, j: nat, x: seq<Point>)
    requires i < j < |chains|
    ensures RemoveAt(RemoveAt(chains[j := x], i), j - 1) == Others(chains, i, j)
  {
    var a := RemoveAt(RemoveAt(chains[j := x], i), j - 1);
    forall k | 0 <= k < |a| ensures a[k] == Others(chains, i, j)[k] {}
  }

  /** Chains that agree away from i and j leave the same others. */
  lemma OthersAgree(chains1: seq<seq<Point>>, chains2: seq<seq<Point>>, i: nat, j: nat)
    requires i < j < |chains1| == |chains2|
    requires forall k :: 0 <= k < |chains1| && k != i && k != j ==> chains1[k] == chains2[k]
    ensures Others(chains1, i, j) == Others(chains2, i, j)
  {
    var a, b := Others(chains1, i, j), Others(chains2, i, j);
    forall k | 0 <= k < |a| ensures a[k] == b[k] {
      if k < i {
      } else if k < j - 1 {
        assert a[k] == chains1[k + 1] && b[k] == chains2[k + 1];
      } else {
        assert a[k] == chains1[k + 2] && b[k] == chains2[k + 2];
      }
    }
  }

  /**
   * The chain the two-match case builds from the chains f and s it joins:
   * the shorter one is reversed where their directions clash.
   */
  function Spliced(eps: Tolerance, f: seq<Point>, s: seq<Point>, headF: bool, headS: bool): seq<Point>
    requires |f| >= 2 && |s| >= 2
  {
    if headF == headS then
      if |f| < |s| then
        (if headF then Join(eps, Reverse(f), s) else Join(eps, s, Reverse(f)))
      else
        (if headF then Join(eps, Reverse(s), f) else Join(eps, f, Reverse(s)))
    else if headF then Join(eps, s, f)
    else Join(eps, f, s)
  }

  /**
   * The spliced chain runs from the far end of one chain to the far end of
   * the other and loses at most the two joint points.
   */
  lemma SplicedEnds(eps: Tolerance, f: seq<Point>, s: seq<Point>, headF: bool, headS: bool)
    requires |f| >= 2 && |s| >= 2
    ensures var j := Spliced(eps, f, s, headF, headS);
            && |f| + |s| - 2 <= |j| <= |f| + |s|
            && ((j[0] == EndOf(f, !headF) && j[|j| - 1] == EndOf(s, !headS)) ||
                (j[0] == EndOf(s, !headS) && j[|j| - 1] == EndOf(f, !headF)))
  {
    var j := Spliced(eps, f, s, headF, headS);
    if headF == headS {
      if |f| < |s| {
        ReverseEnds(f);
        var rf := Reverse(f);
        if headF {
          assert j == Join(eps, rf, s);
        } else {
          assert j == Join(eps, s, rf);
        }
      } else {
        ReverseEnds(s);
        var rs := Reverse(s);
        if headF {
          assert j == Join(eps, rs, f);
        } else {
          assert j == Join(eps, f, rs);
        }
      }
    }
  }

  /**
   * The two-match case: the chains at first.index and second.index are
   * spliced into one, which takes position at; every other chain stays, in
   * order.
   */
  method Splice(eps: Tolerance, chains: seq<seq<Point>>, first: Match, second: Match)
    returns (chains': seq<seq<Point>>, ghost at: nat)
    requires ChainsWf(chains) && first.index < second.index < |chains|
    ensures ChainsWf(chains') && |chains'| == |chains| - 1
    ensures at < |chains'| && (at == first.index || at == second.index - 1)
    ensures chains'[at] == Spliced(eps, chains[first.index], chains[second.index], first.matchesHead, second.matchesHead)
    ensures RemoveAt(chains', at) == Others(chains, first.index, second.index)
  {
    var f := first.index;
    var s := second.index;
    var reverseF := |chains[f]| < |chains[s]|;
    var before := chains;
    var into, from;
    ghost var spliced := Spliced(eps, chains[f], chains[s], first.matchesHead, second.matchesHead);
    if first.matchesHead {
      if second.matchesHead {
        // head to head: the shorter chain is reversed
        if reverseF {
          before := ReverseChain(chains, f);
          into, from := f, s;
          assert spliced == Join(eps, before[into], before[from]);
        } else {
          before := ReverseChain(chains, s);
          into, from := s, f;
          assert spliced == Join(eps, before[into], before[from]);
        }
      } else {
        // tail of second to head of first
        into, from := s, f;
        assert spliced == Join(eps, before[into], before[from]);
      }
    } else {
      if second.matchesHead {
        // tail of first to head of second
        into, from := f, s;
        assert spliced == Join(eps, before[into], before[from]);
      } else {
        // tail to tail: the shorter chain is reversed
        if reverseF {
          before := ReverseChain(chains, f);
          into, from := s, f;
          assert spliced == Join(eps, before[into], before[from]);
        } else {
          before := ReverseChain(chains, s);
          into, from := f, s;
          assert spliced == Join(eps, before[into], before[from]);
        }
      }
    }
    chains' := AppendChain(eps, before, into, from);
    assert chains' == RemoveAt(before[into := Join(eps, before[into], before[from])], from);
    OthersAgree(before, chains, f, s);
    if into == f {
      at := f;
      OthersKeepFirst(before, f, s, Join(eps, before[f], before[s]));
    } else {
      at := s - 1;
      OthersKeepSecond(before, f, s, Join(eps, before[s], before[f]));
    }
  }

  /** The neighbour of a chain's end at its head or tail. */
  function NextToEnd(chain: seq<Point>, head: bool): Point
    requires |chain| >= 2
  {
    if head then chain[1] else chain[|chain| - 2]
  }

  /**
   * The single-match case: the chain at m.index meets the segment at one end.
   * pt, the other point of the segment, is added at that end, where the old
   * end is dropped when it lies on the line from its neighbour to pt. When pt
   * is the same as the chain's opposite end, the chain is closed instead: it
   * leaves the open chains and becomes a region, also dropping the opposite
   * end when that lies on the line from its neighbour to the growing end.
   */
  method ExtendOrClose(eps: Tolerance, chains: seq<seq<Point>>, regions: seq<seq<Point>>, m: Match, pt1: Point, pt2: Point)
    returns (chains': seq<seq<Point>>, regions': seq<seq<Point>>)
    requires ChainsWf(chains) && m.index < |chains|
    ensures ChainsWf(chains')
    ensures var c, head := chains[m.index], m.matchesHead;
            var pt := if m.matchesPt1 then pt2 else pt1;
            var g := if PointsCollinear(eps, NextToEnd(c, head), EndOf(c, head), pt) then 1 else 0;
            var grow := if g == 1 then NextToEnd(c, head) else EndOf(c, head);
            var o := if PointsCollinear(eps, NextToEnd(c, !head), EndOf(c, !head), grow) then 1 else 0;
            if PointsSame(eps, EndOf(c, !head), pt) then
              && chains' == RemoveAt(chains, m.index)
              && regions' == regions + [if head then c[g..|c| - o] else c[o..|c| - g]]
            else
              && regions' == regions
              && chains' == chains[m.index := if head then [pt] + c[g..] else c[..|c| - g] + [pt]]
              && EndOf(chains'[m.index], head) == pt
              && EndOf(chains'[m.index], !head) == EndOf(c, !head)
  {
    var index := m.index;
    var pt := if m.matchesPt1 then pt2 else pt1;
    var addToHead := m.matchesHead;
    var chain := chains[index];
    var grow := if addToHead then chain[0] else chain[|chain| - 1];
    var grow2 := if addToHead then chain[1] else chain[|chain| - 2];
    var oppo := if addToHead then chain[|chain| - 1] else chain[0];
    var oppo2 := if addToHead then chain[|chain| - 2] else chain[1];
    ghost var c := chain;
    ghost var g := 0;
    if PointsCollinear(eps, grow2, grow, pt) {
      // grow lies between grow2 and pt
      chain := if addToHead then chain[1..] else chain[..|chain| - 1];
      grow := grow2;
      g := 1;
    }
    assert chain == if addToHead then c[g..] else c[..|c| - g];
    if PointsSame(eps, oppo, pt) {
      // closing the loop
      RemoveAtWf(chains, index);
      chains' := RemoveAt(chains, index);
      ghost var o := 0;
      if PointsCollinear(eps, oppo2, oppo, grow) {
        // oppo lies between oppo2 and grow
        chain := if addToHead then chain[..|chain| - 1] else chain[1..];
        o := 1;
      }
      assert chain == if addToHead then c[g..|c| - o] else c[o..|c| - g];
      regions' := regions + [chain];
      return;
    }
    chain := if addToHead then [pt] + chain else chain + [pt];
    chains' := chains[index := chain];
    regions' := regions;
  }

  /**
   * chain: every segment in turn starts a new chain, grows or closes the one
   * it meets, or splices the two it meets. It fails exactly when some segment
   * has the same start and end; otherwise the regions are the closed chains,
   * at most one per segment.
   */
  method Chain(segments: seq<Segment>, eps: Tolerance) returns (res: Result<seq<seq<Point>>, Error>)
    ensures res.Failure? <==> exists i :: 0 <= i < |segments| && PointsSame(eps, segments[i].start, segments[i].end)
    ensures res.Failure? ==> res.error == ZeroLengthSegment
    ensures res.Success? ==> |res.value| <= |segments|
  {
    var chains: seq<seq<Point>> := [];
    var regions: seq<seq<Point>> := [];
    for k := 0 to |segments|
      invariant ChainsWf(chains) && |chains| + |regions| <= k
      invariant forall i :: 0 <= i < k ==> !PointsSame(eps, segments[i].start, segments[i].end)
    {
      var pt1 := segments[k].start;
      var pt2 := segments[k].end;
      if PointsSame(eps, pt1, pt2) {
        return Failure(ZeroLengthSegment);
      }
      var matches := FindMatches(eps, chains, pt1, pt2);
      if |matches| == 0 {
        // no match: a new chain
        chains := chains + [[pt1, pt2]];
      } else if |matches| == 1 {
        chains, regions := ExtendOrClose(eps, chains, regions, matches[0], pt1, pt2);
      } else {
        ghost var at;
        chains, at := Splice(eps, chains, matches[0], matches[1]);
      }
    }
    return Success(regions);
  }
}
