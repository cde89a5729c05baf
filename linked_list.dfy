/**
 * The sentinel-rooted doubly linked list (internal/LinkedList.kt), used as the
 * event queue and as the status list of the sweep.
 *
 * Nodes live in an arena: node n has the links next[n] and prev[n] (None is the
 * source's null) and, for n >= 1, the content content[n - 1]. Node 0 is the
 * root sentinel. The ghost sequence Elems lists the nodes from the head to the
 * tail; a node that is not in Elems is detached and has no links.
 */
module LinkedLists {
  import opened Wrappers

  const Root: nat := 0

  /** The index of the first element of s for which check holds, or |s| if none does. */
  function FirstTrue(s: seq<nat>, check: nat -> bool): (k: nat)
    ensures k <= |s|
    ensures forall j {:trigger check(s[j])} :: 0 <= j < k ==> !check(s[j])
    ensures k < |s| ==> check(s[k])
  {
    if s == [] then 0
    else if check(s[0]) then 0
    else 1 + FirstTrue(s[1..], check)
  }

  /** s with x inserted at position k. */
  function InsertAt(s: seq<nat>, k: nat, x: nat): (r: seq<nat>)
    requires k <= |s|
  {
    s[..k] + [x] + s[k..]
  }

  /** Inserting adds exactly x to the members. */
  lemma InsertAtMembers(s: seq<nat>, k: nat, x: nat)
    requires k <= |s|
    ensures forall n :: n in InsertAt(s, k, x) <==> n in s || n == x
  {
    assert s == s[..k] + s[k..];
  }

  /** The boundary found by findTransition, together with what its insert closure captured. */
  datatype Transition = Transition(
    before: Option<nat>,  // the element before the boundary, None when that is the root
    after: Option<nat>,   // the first element satisfying the check, None when none does
    prev: nat)            // the node the closure links after (the root or `before`)

  function First(e: seq<nat>): Option<nat> {
    if e == [] then None else Some(e[0])
  }

  /** The predecessor link the element at i must have: the root for the head. */
  function PrevOf(e: seq<nat>, i: nat): nat
    requires i < |e|
  {
    if i == 0 then Root else e[i - 1]
  }

  ghost predicate Distinct(e: seq<nat>) {
    forall i, j :: 0 <= i < j < |e| ==> e[i] != e[j]
  }

  /** Every link points into the arena. */
  ghost predicate LinksInRange(l: seq<Option<nat>>) {
    forall n :: 0 <= n < |l| && l[n].Some? ==> l[n].value < |l|
  }

  /** Every element is a non-root node of an arena of `size` nodes. */
  ghost predicate InArena(e: seq<nat>, size: nat) {
    forall i :: 0 <= i < |e| ==> 1 <= e[i] < size
  }

  /** The next links follow e; the tail's is null. */
  ghost predicate NextLinked(next: seq<Option<nat>>, e: seq<nat>)
    requires InArena(e, |next|)
  {
    && (forall i {:trigger next[e[i]]} :: 0 <= i < |e| - 1 ==> next[e[i]] == Some(e[i + 1]))
    && (e != [] ==> next[e[|e| - 1]] == None)
  }

  /** The prev links follow e backwards; the head's is the root. */
  ghost predicate PrevLinked(prev: seq<Option<nat>>, e: seq<nat>)
    requires InArena(e, |prev|)
  {
    && (forall i {:trigger prev[e[i]]} :: 0 < i < |e| ==> prev[e[i]] == Some(e[i - 1]))
    && (e != [] ==> prev[e[0]] == Some(Root))
  }

  /** A node that is not an element has no links. */
  ghost predicate Detached(next: seq<Option<nat>>, prev: seq<Option<nat>>, e: seq<nat>)
    requires |next| == |prev|
  {
    forall n :: 1 <= n < |next| && n !in e ==> next[n] == None && prev[n] == None
  }

  /**
   * Following next links from two equal elements visits equal elements, and one
   * of the two walks reaches the tail's null link while the other still has a
   * successor: the elements threaded by next links are distinct.
   */
  lemma {:induction false} NoRepeat(next: seq<Option<nat>>, e: seq<nat>, i: nat, j: nat)
    requires InArena(e, |next|) && NextLinked(next, e) && i < j < |e|
    decreases |e| - j
    ensures e[i] != e[j]
  {
    if e[i] == e[j] {
      assert next[e[i]] == Some(e[i + 1]);
      if j + 1 < |e| {
        assert next[e[j]] == Some(e[j + 1]);
        NoRepeat(next, e, i + 1, j + 1);
      }
    }
  }

  lemma LinkedDistinct(next: seq<Option<nat>>, e: seq<nat>)
    requires InArena(e, |next|) && NextLinked(next, e)
    ensures Distinct(e)
  {
    forall i, j | 0 <= i < j < |e| ensures e[i] != e[j] {
      NoRepeat(next, e, i, j);
    }
  }

  /**
   * The links next and prev of an arena thread exactly the nodes e, in order,
   * from the root; every other node is detached.
   */
  ghost predicate WellLinked(next: seq<Option<nat>>, prev: seq<Option<nat>>, e: seq<nat>) {
    && |next| == |prev| >= 1
    && LinksInRange(next) && LinksInRange(prev)
    && InArena(e, |next|)
    && next[Root] == First(e)
    && prev[Root] == None
    && NextLinked(next, e)
    && PrevLinked(prev, e)
    && Detached(next, prev, e)
  }

  /**
   * next' and prev' are next and prev with `node` linked between p and the
   * optional h, stated link by link.
   */
  ghost predicate Spliced(next: seq<Option<nat>>, prev: seq<Option<nat>>, p: nat, node: nat, h: Option<nat>,
                          next': seq<Option<nat>>, prev': seq<Option<nat>>)
    requires p < |next| && node < |next| && |prev| == |next|
  {
    && |next'| == |next| && |prev'| == |prev|
    && next'[p] == Some(node) && next'[node] == h && prev'[node] == Some(p)
    && (h.Some? ==> h.value < |prev| && prev'[h.value] == Some(node))
    && (forall m :: 0 <= m < |next| && m != p && m != node ==> next'[m] == next[m])
    && (forall m :: 0 <= m < |prev| && m != node && h != Some(m) ==> prev'[m] == prev[m])
  }

  /** The position of a member of a sequence. */
  lemma IndexOf(e: seq<nat>, n: nat) returns (i: nat)
    requires n in e
    ensures i < |e| && e[i] == n
  {
    i :| 0 <= i < |e| && e[i] == n;
  }

  /** e' is e with node inserted at position k, stated index by index. */
  ghost predicate Inserted(e: seq<nat>, k: nat, node: nat, e': seq<nat>) {
    && k <= |e| && |e'| == |e| + 1 && e'[k] == node
    && (forall i :: 0 <= i < k ==> e'[i] == e[i])
    && (forall i :: k < i < |e'| ==> e'[i] == e[i - 1])
  }

  lemma InsertAtInserted(e: seq<nat>, k: nat, node: nat)
    requires k <= |e|
    ensures Inserted(e, k, node, InsertAt(e, k, node))
  {
  }

  lemma InsertedMembers(e: seq<nat>, k: nat, node: nat, e': seq<nat>)
    requires Inserted(e, k, node, e')
    ensures forall m :: m in e' <==> m in e || m == node
  {
    forall m ensures m in e' <==> m in e || m == node {
      if m in e {
        var j := IndexOf(e, m);
        if j < k { assert e'[j] == m; } else { assert e'[j + 1] == m; }
      }
      if m in e' {
        var j := IndexOf(e', m);
        if j < k { assert e[j] == m; } else if j > k { assert e[j - 1] == m; }
      }
    }
  }

  /** The element at k, when there is one, occurs nowhere else in e. */
  ghost predicate UniqueAt(e: seq<nat>, k: int) {
    0 <= k < |e| ==> forall i :: 0 <= i < |e| && i != k ==> e[i] != e[k]
  }

  lemma LinkedUnique(next: seq<Option<nat>>, e: seq<nat>, k: int)
    requires InArena(e, |next|) && NextLinked(next, e)
    ensures UniqueAt(e, k)
  {
    if 0 <= k < |e| {
      forall i | 0 <= i < |e| && i != k ensures e[i] != e[k] {
        if i < k {
          NoRepeat(next, e, i, k);
        } else {
          NoRepeat(next, e, k, i);
        }
      }
    }
  }

  lemma SpliceNext(next: seq<Option<nat>>, prev: seq<Option<nat>>, e: seq<nat>, k: nat, node: nat,
                   next': seq<Option<nat>>, prev': seq<Option<nat>>, e': seq<nat>)
    requires |next| == |prev| && InArena(e, |next|) && NextLinked(next, e) && UniqueAt(e, k - 1)
    requires 1 <= node < |next| && node !in e && Inserted(e, k, node, e')
    requires Spliced(next, prev, if k == 0 then Root else e[k - 1], node,
                     if k < |e| then Some(e[k]) else None, next', prev')
    ensures InArena(e', |next'|) && NextLinked(next', e')
  {
    forall i | 0 <= i < |e'| - 1 ensures next'[e'[i]] == Some(e'[i + 1]) {
      if i + 1 < k {
        assert e[i] in e;
        assert next[e[i]] == Some(e[i + 1]);
      } else if i + 1 == k {
        assert e'[i] == e[k - 1];
      } else if i == k {
        assert e'[i + 1] == e[k];
      } else {
        assert e[i - 1] in e;
        assert next[e[i - 1]] == Some(e[i]);
      }
    }
    if k < |e| {
      assert e[|e| - 1] in e;
      assert e'[|e'| - 1] == e[|e| - 1];
    }
  }

  /** The prev links of the elements before the inserted node are untouched. */
  lemma SplicePrevBelow(next: seq<Option<nat>>, prev: seq<Option<nat>>, e: seq<nat>, k: nat, node: nat,
                   next': seq<Option<nat>>, prev': seq<Option<nat>>, e': seq<nat>)
    requires |next| == |prev| && InArena(e, |next|) && PrevLinked(prev, e) && UniqueAt(e, k)
    requires 1 <= node < |next| && node !in e && Inserted(e, k, node, e')
    requires Spliced(next, prev, if k == 0 then Root else e[k - 1], node,
                     if k < |e| then Some(e[k]) else None, next', prev')
    ensures forall i :: 0 < i < k ==> prev'[e'[i]] == Some(e'[i - 1])
  {
    forall i | 0 < i < k ensures prev'[e'[i]] == Some(e'[i - 1]) {
      assert e[i] in e;
      assert prev[e[i]] == Some(e[i - 1]);
    }
  }

  /** The prev links of the elements after the inserted node's successor are untouched. */
  lemma SplicePrevAbove(next: seq<Option<nat>>, prev: seq<Option<nat>>, e: seq<nat>, k: nat, node: nat,
                   next': seq<Option<nat>>, prev': seq<Option<nat>>, e': seq<nat>)
    requires |next| == |prev| && InArena(e, |next|) && PrevLinked(prev, e) && UniqueAt(e, k)
    requires 1 <= node < |next| && node !in e && Inserted(e, k, node, e')
    requires Spliced(next, prev, if k == 0 then Root else e[k - 1], node,
                     if k < |e| then Some(e[k]) else None, next', prev')
    ensures forall i :: k + 1 < i < |e'| ==> prev'[e'[i]] == Some(e'[i - 1])
  {
    forall i | k + 1 < i < |e'| ensures prev'[e'[i]] == Some(e'[i - 1]) {
      assert e[i - 1] in e;
      assert prev[e[i - 1]] == Some(e[i - 2]);
    }
  }

  lemma SplicePrev(next: seq<Option<nat>>, prev: seq<Option<nat>>, e: seq<nat>, k: nat, node: nat,
                   next': seq<Option<nat>>, prev': seq<Option<nat>>, e': seq<nat>)
    requires |next| == |prev| && InArena(e, |next|) && PrevLinked(prev, e) && UniqueAt(e, k)
    requires 1 <= node < |next| && node !in e && Inserted(e, k, node, e')
    requires Spliced(next, prev, if k == 0 then Root else e[k - 1], node,
                     if k < |e| then Some(e[k]) else None, next', prev')
    ensures InArena(e', |prev'|) && PrevLinked(prev', e')
  {
    SplicePrevBelow(next, prev, e, k, node, next', prev', e');
    SplicePrevAbove(next, prev, e, k, node, next', prev', e');
    forall i | 0 < i < |e'| && k <= i <= k + 1 ensures prev'[e'[i]] == Some(e'[i - 1]) {
      if i == k {
        assert e'[i - 1] == e[k - 1];
      } else {
        assert e'[i] == e[k];
      }
    }
    if k > 0 {
      assert e[0] in e;
      assert e'[0] == e[0];
    }
  }

  lemma SpliceDetached(next: seq<Option<nat>>, prev: seq<Option<nat>>, e: seq<nat>, k: nat, node: nat,
                   next': seq<Option<nat>>, prev': seq<Option<nat>>, e': seq<nat>)
    requires |next| == |prev| && InArena(e, |next|) && Detached(next, prev, e)
    requires 1 <= node < |next| && node !in e && Inserted(e, k, node, e')
    requires Spliced(next, prev, if k == 0 then Root else e[k - 1], node,
                     if k < |e| then Some(e[k]) else None, next', prev')
    ensures Detached(next', prev', e')
  {
    InsertedMembers(e, k, node, e');
    forall n | 1 <= n < |next'| && n !in e' ensures next'[n] == None && prev'[n] == None {
      assert k > 0 ==> e[k - 1] in e;
      assert k < |e| ==> e[k] in e;
    }
  }

  /** Linking `node` between the element at k - 1 (or the root) and the element at k. */
  lemma SpliceWellLinked(next: seq<Option<nat>>, prev: seq<Option<nat>>, e: seq<nat>, k: nat, node: nat,
                         next': seq<Option<nat>>, prev': seq<Option<nat>>)
    requires WellLinked(next, prev, e) && k <= |e| && 1 <= node < |next| && node !in e
    requires Spliced(next, prev, if k == 0 then Root else e[k - 1], node,
                     if k < |e| then Some(e[k]) else None, next', prev')
    ensures WellLinked(next', prev', InsertAt(e, k, node))
  {
    var e' := InsertAt(e, k, node);
    InsertAtInserted(e, k, node);
    LinkedUnique(next, e, k - 1);
    LinkedUnique(next, e, k);
    SpliceNext(next, prev, e, k, node, next', prev', e');
    SplicePrev(next, prev, e, k, node, next', prev', e');
    SpliceDetached(next, prev, e, k, node, next', prev', e');
    assert k > 0 ==> e'[0] == e[0];
  }

  /** next' and prev' are next and prev with n unlinked from between p and the optional h. */
  ghost predicate Unlinked(next: seq<Option<nat>>, prev: seq<Option<nat>>, p: nat, n: nat, h: Option<nat>,
                           next': seq<Option<nat>>, prev': seq<Option<nat>>)
    requires p < |next| && n < |next| && |prev| == |next|
  {
    && |next'| == |next| && |prev'| == |prev|
    && next'[p] == h && next'[n] == None && prev'[n] == None
    && (h.Some? ==> h.value < |prev| && prev'[h.value] == Some(p))
    && (forall m :: 0 <= m < |next| && m != p && m != n ==> next'[m] == next[m])
    && (forall m :: 0 <= m < |prev| && m != n && h != Some(m) ==> prev'[m] == prev[m])
  }

  /** e without its element at k. */
  function Without(e: seq<nat>, k: nat): seq<nat>
    requires k < |e|
  {
    e[..k] + e[k + 1..]
  }

  /** e' is e without its element at k, stated index by index. */
  ghost predicate Removed(e: seq<nat>, k: nat, e': seq<nat>) {
    && k < |e| && |e'| == |e| - 1
    && (forall i :: 0 <= i < k ==> e'[i] == e[i])
    && (forall i :: k <= i < |e'| ==> e'[i] == e[i + 1])
  }

  lemma WithoutRemoved(e: seq<nat>, k: nat)
    requires k < |e|
    ensures Removed(e, k, Without(e, k))
  {
  }

  /** Removing the element at k, which occurs nowhere else, removes exactly its value. */
  lemma RemovedMembers(e: seq<nat>, k: nat, e': seq<nat>)
    requires Removed(e, k, e') && UniqueAt(e, k)
    ensures forall m :: m in e' <==> m in e && m != e[k]
  {
    forall m ensures m in e' <==> m in e && m != e[k] {
      if m in e && m != e[k] {
        var j := IndexOf(e, m);
        if j < k { assert e'[j] == m; } else { assert e'[j - 1] == m; }
      }
      if m in e' {
        var j := IndexOf(e', m);
        if j < k { assert e[j] == m; } else { assert e[j + 1] == m; }
      }
    }
  }

  lemma UnlinkNext(next: seq<Option<nat>>, prev: seq<Option<nat>>, e: seq<nat>, k: nat,
                   next': seq<Option<nat>>, prev': seq<Option<nat>>, e': seq<nat>)
    requires |next| == |prev| && InArena(e, |next|) && NextLinked(next, e)
    requires UniqueAt(e, k - 1) && UniqueAt(e, k)
    requires Removed(e, k, e')
    requires Unlinked(next, prev, if k == 0 then Root else e[k - 1], e[k],
                      if k + 1 < |e| then Some(e[k + 1]) else None, next', prev')
    ensures InArena(e', |next'|) && NextLinked(next', e')
  {
    forall i | 0 <= i < |e'| - 1 ensures next'[e'[i]] == Some(e'[i + 1]) {
      if i + 1 < k {
        assert next[e[i]] == Some(e[i + 1]);
      } else if i + 1 == k {
        assert e'[i] == e[k - 1] && e'[i + 1] == e[k + 1];
      } else {
        assert next[e[i + 1]] == Some(e[i + 2]);
      }
    }
    if e' != [] {
      if k + 1 < |e| {
        assert e'[|e'| - 1] == e[|e| - 1];
      } else {
        assert e'[|e'| - 1] == e[k - 1];
      }
    }
  }

  lemma UnlinkPrev(next: seq<Option<nat>>, prev: seq<Option<nat>>, e: seq<nat>, k: nat,
                   next': seq<Option<nat>>, prev': seq<Option<nat>>, e': seq<nat>)
    requires |next| == |prev| && InArena(e, |next|) && PrevLinked(prev, e)
    requires UniqueAt(e, k) && UniqueAt(e, k + 1)
    requires Removed(e, k, e')
    requires Unlinked(next, prev, if k == 0 then Root else e[k - 1], e[k],
                      if k + 1 < |e| then Some(e[k + 1]) else None, next', prev')
    ensures InArena(e', |prev'|) && PrevLinked(prev', e')
  {
    forall i | 0 < i < |e'| ensures prev'[e'[i]] == Some(e'[i - 1]) {
      if i < k {
        assert prev[e[i]] == Some(e[i - 1]);
      } else if i == k {
        assert e'[i] == e[k + 1] && e'[i - 1] == e[k - 1];
      } else {
        assert prev[e[i + 1]] == Some(e[i]);
      }
    }
    if e' != [] {
      if k > 0 {
        assert e'[0] == e[0];
      } else {
        assert e'[0] == e[1];
      }
    }
  }

  lemma UnlinkDetached(next: seq<Option<nat>>, prev: seq<Option<nat>>, e: seq<nat>, k: nat,
                   next': seq<Option<nat>>, prev': seq<Option<nat>>, e': seq<nat>)
    requires |next| == |prev| && InArena(e, |next|) && Detached(next, prev, e) && UniqueAt(e, k)
    requires Removed(e, k, e')
    requires Unlinked(next, prev, if k == 0 then Root else e[k - 1], e[k],
                      if k + 1 < |e| then Some(e[k + 1]) else None, next', prev')
    ensures Detached(next', prev', e')
  {
    RemovedMembers(e, k, e');
    forall n | 1 <= n < |next'| && n !in e' ensures next'[n] == None && prev'[n] == None {
      if n != e[k] {
        assert n !in e;
        assert k > 0 ==> e[k - 1] in e;
        assert k + 1 < |e| ==> e[k + 1] in e;
      }
    }
  }

  /** Removing the element at k: its neighbours are linked to each other. */
  lemma UnlinkWellLinked(next: seq<Option<nat>>, prev: seq<Option<nat>>, e: seq<nat>, k: nat,
                         next': seq<Option<nat>>, prev': seq<Option<nat>>)
    requires WellLinked(next, prev, e) && k < |e|
    requires Unlinked(next, prev, if k == 0 then Root else e[k - 1], e[k],
                      if k + 1 < |e| then Some(e[k + 1]) else None, next', prev')
    ensures WellLinked(next', prev', Without(e, k))
    ensures forall m :: m in Without(e, k) <==> m in e && m != e[k]
  {
    var e' := Without(e, k);
    WithoutRemoved(e, k);
    LinkedUnique(next, e, k - 1);
    LinkedUnique(next, e, k);
    LinkedUnique(next, e, k + 1);
    RemovedMembers(e, k, e');
    UnlinkNext(next, prev, e, k, next', prev', e');
    UnlinkPrev(next, prev, e, k, next', prev', e');
    UnlinkDetached(next, prev, e, k, next', prev', e');
    if k > 0 {
      assert e'[0] == e[0];
    } else if e' != [] {
      assert e'[0] == e[1];
    }
  }

  class LinkedList<T> {
    var next: seq<Option<nat>>
    var prev: seq<Option<nat>>
    var content: seq<T>
    ghost var Elems: seq<nat>

    ghost predicate Valid()
      reads this
    {
      |next| == |content| + 1 && WellLinked(next, prev, Elems)
    }

    /** LinkedList.create(): an empty list holding only its root. */
    constructor ()
      ensures Valid() && Elems == [] && content == []
    {
      next, prev, content := [None], [None], [];
      Elems := [];
    }

    /** LinkedList.node(content): a fresh detached node of this list's arena. */
    method NewNode(c: T) returns (n: nat)
      requires Valid()
      modifies this
      ensures Valid() && Elems == old(Elems)
      ensures n == old(|next|) && content == old(content) + [c]
      ensures next == old(next) + [None] && prev == old(prev) + [None]
    {
      n := |next|;
      next, prev, content := next + [None], prev + [None], content + [c];
    }

    /** getContent() of a non-root node. */
    function Content(n: nat): (r: T)
      reads this
      requires Valid() && 1 <= n < |next|
      ensures r == content[n - 1]
    {
      content[n - 1]
    }

    /** Assigning fields of a node's content object, which the source does in place. */
    method SetContent(n: nat, c: T)
      requires Valid() && 1 <= n < |next|
      modifies this
      ensures Valid() && Elems == old(Elems) && next == old(next) && prev == old(prev)
      ensures content == old(content)[n - 1 := c] && Content(n) == c
    {
      content := content[n - 1 := c];
    }

    /** exists(node): node is non-null and not this list's root. */
    function Exists(node: Option<nat>): (r: bool)
      ensures r <==> node.Some? && node.value != Root
    {
      node.Some? && node.value != Root
    }

    function IsEmpty(): (r: bool)
      reads this
      requires Valid()
      ensures r <==> Elems == []
    {
      next[Root].None?
    }

    function GetHead(): (r: nat)
      reads this
      requires Valid() && Elems != []
      ensures r == Elems[0] && 1 <= r < |next|
    {
      next[Root].value
    }

    function GetPrev(n: nat): (r: Option<nat>)
      reads this
      requires Valid() && n < |next|
      ensures r.Some? ==> r.value < |next|
      ensures 0 < n && n !in Elems ==> r.None?
    {
      prev[n]
    }

    function GetNext(n: nat): (r: Option<nat>)
      reads this
      requires Valid() && n < |next|
      ensures r.Some? ==> r.value < |next|
      ensures 0 < n && n !in Elems ==> r.None?
    {
      next[n]
    }

    /** The links of the element at i are its neighbours in Elems (the root before the head). */
    lemma Neighbours(i: nat)
      requires Valid() && i < |Elems|
      ensures GetPrev(Elems[i]) == Some(PrevOf(Elems, i))
      ensures GetNext(Elems[i]) == if i + 1 < |Elems| then Some(Elems[i + 1]) else None
    {
    }

    /** The neighbours of an element exist exactly when it is not at that end of the list. */
    lemma NeighboursExist(i: nat)
      requires Valid() && i < |Elems|
      ensures Exists(GetPrev(Elems[i])) <==> i > 0
      ensures Exists(GetNext(Elems[i])) <==> i + 1 < |Elems|
    {
      Neighbours(i);
      if i > 0 {
        assert Elems[i - 1] != Root;
      }
    }

    /**
     * The linking step shared by insertBefore and the insert closure of
     * findTransition: `node` goes between p and the optional h, which must be the
     * nodes around position k.
     */
    method Link(p: nat, node: nat, h: Option<nat>, ghost k: nat)
      requires Valid() && 1 <= node < |next| && node !in Elems
      requires k <= |Elems| && p == (if k == 0 then Root else Elems[k - 1])
      requires h == if k < |Elems| then Some(Elems[k]) else None
      modifies this
      ensures Valid() && content == old(content) && |next| == old(|next|)
      ensures Elems == InsertAt(old(Elems), k, node)
    {
      var next', prev' := next, prev;
      prev' := prev'[node := Some(p)];
      next' := next'[node := h];
      next' := next'[p := Some(node)];
      if h.Some? {
        prev' := prev'[h.value := Some(node)];
      }
      SpliceWellLinked(next, prev, Elems, k, node, next', prev');
      next, prev := next', prev';
      Elems := InsertAt(Elems, k, node);
    }

    /**
     * insertBefore(node, check): links the detached `node` immediately before the
     * first element for which check holds, or at the tail when none does.
     */
    method InsertBefore(node: nat, check: nat -> bool)
      requires Valid() && 1 <= node < |next| && node !in Elems
      modifies this
      ensures Valid() && content == old(content) && |next| == old(|next|)
      ensures Elems == InsertAt(old(Elems), FirstTrue(old(Elems), check), node)
    {
      var last: nat := Root;
      var here := next[Root];
      ghost var k: nat := 0;
      while here.Some? && here.value != Root
        invariant Valid() && unchanged(this)
        invariant k <= |Elems| && FirstTrue(Elems, check) >= k
        invariant last == if k == 0 then Root else Elems[k - 1]
        invariant here == if k < |Elems| then Some(Elems[k]) else None
        decreases |Elems| - k
      {
        var h := here.value;
        Neighbours(k);
        if check(h) {
          FirstTrueAt(Elems, check, k);
          Link(prev[h].value, node, here, k);
          return;
        }
        last := h;
        here := next[h];
        k := k + 1;
      }
      FirstTrueAt(Elems, check, k);
      Link(last, node, None, k);
    }

    /**
     * findTransition(check): the boundary before the first element for which
     * check holds. Only reads the list.
     */
    method FindTransition(check: nat -> bool) returns (t: Transition)
      requires Valid()
      ensures var k := FirstTrue(Elems, check);
              && t.after == (if k < |Elems| then Some(Elems[k]) else None)
              && t.before == (if k == 0 then None else Some(Elems[k - 1]))
              && t.prev == (if k == 0 then Root else Elems[k - 1])
    {
      var last: nat := Root;
      var here := next[Root];
      ghost var k: nat := 0;
      while here.Some?
        invariant k <= |Elems| && FirstTrue(Elems, check) >= k
        invariant last == if k == 0 then Root else Elems[k - 1]
        invariant here == if k < |Elems| then Some(Elems[k]) else None
        decreases |Elems| - k
      {
        Neighbours(k);
        if check(here.value) {
          break;
        }
        last := here.value;
        here := next[here.value];
        k := k + 1;
      }
      FirstTrueAt(Elems, check, k);
      t := Transition(if last == Root then None else Some(last), here, last);
    }

    /**
     * The insert closure of findTransition: links the detached `node` between the
     * captured nodes and returns it. `t` must still describe position k.
     */
    method InsertTransition(t: Transition, node: nat, ghost k: nat) returns (r: nat)
      requires Valid() && 1 <= node < |next| && node !in Elems
      requires k <= |Elems| && t.prev == (if k == 0 then Root else Elems[k - 1])
      requires t.after == if k < |Elems| then Some(Elems[k]) else None
      modifies this
      ensures Valid() && content == old(content) && |next| == old(|next|)
      ensures Elems == InsertAt(old(Elems), k, node) && r == node
    {
      Link(t.prev, node, t.after, k);
      r := node;
    }

    /**
     * remove() of node n: a no-op on the root; otherwise n leaves the sequence,
     * its neighbours are linked to each other and n's own links are cleared.
     */
    method Remove(n: nat)
      requires Valid() && n < |next|
      modifies this
      ensures Valid() && content == old(content) && |next| == old(|next|)
      ensures n == Root ==> Elems == old(Elems) && next == old(next) && prev == old(prev)
      ensures n != Root ==> next[n] == None && prev[n] == None
      ensures n !in old(Elems) ==> Elems == old(Elems)
      ensures forall k :: 0 <= k < |old(Elems)| && old(Elems)[k] == n ==> Elems == Without(old(Elems), k)
      ensures forall m :: m in Elems <==> m in old(Elems) && m != n
    {
      if n == Root {
        return;
      }
      var next', prev' := next, prev;
      if prev[n].Some? {
        next' := next'[prev[n].value := next[n]];
      }
      if next[n].Some? {
        prev' := prev'[next[n].value := prev[n]];
      }
      prev' := prev'[n := None];
      next' := next'[n := None];
      ghost var e := RemoveWellLinked(next, prev, Elems, n, next', prev');
      next, prev := next', prev';
      Elems := e;
    }
  }

  /**
   * The links remove() leaves behind: n's neighbours joined, n's own links
   * cleared. They thread e without n.
   */
  lemma RemoveWellLinked(next: seq<Option<nat>>, prev: seq<Option<nat>>, e: seq<nat>, n: nat,
                         next': seq<Option<nat>>, prev': seq<Option<nat>>) returns (e': seq<nat>)
    requires WellLinked(next, prev, e) && 1 <= n < |next|
    requires next' == (if prev[n].Some? then next[prev[n].value := next[n]] else next)[n := None]
    requires prev' == (if next[n].Some? then prev[next[n].value := prev[n]] else prev)[n := None]
    ensures WellLinked(next', prev', e')
    ensures forall m :: m in e' <==> m in e && m != n
    ensures n !in e ==> e' == e
    ensures forall k :: 0 <= k < |e| && e[k] == n ==> e' == Without(e, k)
  {
    if n in e {
      var k := IndexOf(e, n);
      assert prev[n] == Some(PrevOf(e, k));
      if k > 0 {
        NoRepeat(next, e, k - 1, k);
      }
      if k + 1 < |e| {
        NoRepeat(next, e, k, k + 1);
      }
      UnlinkWellLinked(next, prev, e, k, next', prev');
      e' := Without(e, k);
      forall j: nat | j < |e| && j != k ensures e[j] != e[k] {
        if j < k {
          NoRepeat(next, e, j, k);
        } else {
          NoRepeat(next, e, k, j);
        }
      }
    } else {
      ClearLink(next, n);
      ClearLink(prev, n);
      e' := e;
    }
  }

  /** Clearing a link that is already null changes nothing. */
  lemma ClearLink(l: seq<Option<nat>>, n: nat)
    requires n < |l| && l[n].None?
    ensures l[n := None] == l
  {
  }

  /** FirstTrue is the position k once check fails before k and holds at k (or k is the end). */
  lemma {:induction false} FirstTrueAt(s: seq<nat>, check: nat -> bool, k: nat)
    requires k <= |s| && forall j :: 0 <= j < k ==> !check(s[j])
    requires k < |s| ==> check(s[k])
    ensures FirstTrue(s, check) == k
  {
    if s != [] && k > 0 {
      FirstTrueAt(s[1..], check, k - 1);
    }
  }

  /**
   * An ordering check "x goes before e" inserts x so that no element ends up
   * right before a node it should follow, provided the order is asymmetric:
   * a sequence in which no element should go before its predecessor stays so.
   */
  ghost predicate NoInversion(s: seq<nat>, before: (nat, nat) -> bool) {
    forall i :: 0 < i < |s| ==> !before(s[i], s[i - 1])
  }

  lemma {:induction false} InsertionKeepsOrder(s: seq<nat>, x: nat, before: (nat, nat) -> bool)
    requires NoInversion(s, before)
    requires forall i :: 0 <= i < |s| ==> (before(x, s[i]) ==> !before(s[i], x))
    ensures NoInversion(InsertAt(s, FirstTrue(s, (e: nat) => before(x, e)), x), before)
  {
    var k := FirstTrue(s, (e: nat) => before(x, e));
    var r := InsertAt(s, k, x);
    forall i | 0 < i < |r|
      ensures !before(r[i], r[i - 1])
    {
      if i < k {
        assert r[i] == s[i] && r[i - 1] == s[i - 1];
      } else if i == k {
        assert r[i] == x && r[i - 1] == s[k - 1];
        assert !((e: nat) => before(x, e))(s[k - 1]);
      } else if i == k + 1 {
        assert r[i] == s[k] && r[i - 1] == x;
        assert ((e: nat) => before(x, e))(s[k]);
      } else {
        assert r[i] == s[i - 1] && r[i - 1] == s[i - 2];
      }
    }
  }
}
