/** The range that `bottomUpMergeSortRange` (include/FreeList.hpp) sorts: how
    it is cut out of the list, what the passes over it keep, and how it is
    linked back in. The method itself is `FreeList.SortRange`; here the arena
    is a value and each stage is a lemma about it. */
module Ranges {
  import opened Slots
  import opened Chains
  import opened MergeSpec
  import opened Runs
  import opened Arena

  /** A stretch `live[a..b]` of a chain is a chain of its own when its slots
      keep their links along `live` except that the first has no predecessor
      and the last no successor. */
  lemma LinkedStretch<T>(n2: seq<Node<T>>, live: seq<nat>, a: nat, b: nat)
    requires InBounds(live, |n2|) && a <= b <= |live|
    requires forall k :: a <= k < b ==>
      n2[live[k]].next == (if k == b - 1 then NONE else NextOf(live, k)) &&
      n2[live[k]].prev == (if k == a then NONE else PrevOf(live, k))
    ensures Linked(n2, live[a..b])
  {
    var s := live[a..b];
    forall k | 0 <= k < |s|
      ensures At(n2, s, k).next == NextOf(s, k) && At(n2, s, k).prev == PrevOf(s, k)
    {
      assert n2[live[a + k]].next == (if a + k == b - 1 then NONE else NextOf(live, a + k));
    }
  }

  /** Disconnecting the range in `bottomUpMergeSortRange`: the slot before the
      range loses its successor, `start` its predecessor, the slot after the
      range its predecessor and `end` its successor, in that order. */
  ghost function Detached<T>(nodes: seq<Node<T>>, before: nat, start: nat, after: nat, end: nat): (r: seq<Node<T>>)
    requires start < |nodes| && end < |nodes|
    requires before != NONE ==> before < |nodes|
    requires after != NONE ==> after < |nodes|
    ensures |r| == |nodes|
  {
    var n1 := if before != NONE then nodes[before := nodes[before].(next := NONE)] else nodes;
    var n2 := n1[start := n1[start].(prev := NONE)];
    var n3 := if after != NONE then n2[after := n2[after].(prev := NONE)] else n2;
    n3[end := n3[end].(next := NONE)]
  }

  /** Disconnecting changes links only, and only at the four slots named. */
  lemma DetachedFrame<T>(nodes: seq<Node<T>>, before: nat, start: nat, after: nat, end: nat)
    requires start < |nodes| && end < |nodes|
    requires before != NONE ==> before < |nodes|
    requires after != NONE ==> after < |nodes|
    ensures var d := Detached(nodes, before, start, after, end);
      forall x :: 0 <= x < |nodes| ==>
        d[x].data == nodes[x].data && d[x].nextFree == nodes[x].nextFree &&
        (x != before && x != start && x != after && x != end ==> d[x] == nodes[x])
  {
  }

  /** What disconnecting `live[i..j]` leaves at the slot of position `k`. */
  lemma DetachedAt<T>(nodes: seq<Node<T>>, live: seq<nat>, i: nat, j: nat, k: nat)
    requires |nodes| < NONE && Linked(nodes, live) && Distinct(live) && i < j <= |live| && k < |live|
    ensures PrevOf(live, i) != NONE ==> PrevOf(live, i) < |nodes|
    ensures NextOf(live, j - 1) != NONE ==> NextOf(live, j - 1) < |nodes|
    ensures var d := Detached(nodes, PrevOf(live, i), live[i], NextOf(live, j - 1), live[j - 1]);
      d[live[k]].next == (if k == i - 1 || k == j - 1 then NONE else NextOf(live, k)) &&
      d[live[k]].prev == (if k == i || k == j then NONE else PrevOf(live, k))
  {
    assert At(nodes, live, k).next == NextOf(live, k);
    assert At(nodes, live, k).prev == PrevOf(live, k);
    if i > 0 { DistinctAt(live, k, i - 1); }
    DistinctAt(live, k, i);
    if j < |live| { DistinctAt(live, k, j); }
    DistinctAt(live, k, j - 1);
  }

  /** Disconnecting `live[i..j]` leaves the links of position `a` to `b`
      of `live` as `LinkedStretch` asks when no position strictly between
      them is cut. */
  lemma DetachStretch<T>(nodes: seq<Node<T>>, live: seq<nat>, i: nat, j: nat, a: nat, b: nat)
    requires |nodes| < NONE && Linked(nodes, live) && Distinct(live) && i < j <= |live|
    requires (a, b) == (0, i) || (a, b) == (i, j) || (a, b) == (j, |live|)
    ensures PrevOf(live, i) != NONE ==> PrevOf(live, i) < |nodes|
    ensures NextOf(live, j - 1) != NONE ==> NextOf(live, j - 1) < |nodes|
    ensures Linked(Detached(nodes, PrevOf(live, i), live[i], NextOf(live, j - 1), live[j - 1]), live[a..b])
  {
    DetachedAt(nodes, live, i, j, i);
    var d := Detached(nodes, PrevOf(live, i), live[i], NextOf(live, j - 1), live[j - 1]);
    forall k | a <= k < b
      ensures d[live[k]].next == (if k == b - 1 then NONE else NextOf(live, k))
      ensures d[live[k]].prev == (if k == a then NONE else PrevOf(live, k))
    {
      DetachedAt(nodes, live, i, j, k);
    }
    LinkedStretch(d, live, a, b);
  }

  /** Disconnecting `live[i..j]` leaves three chains: the slots before the
      range, the range, and the slots after it. Only links of `live` change. */
  lemma DetachLinks<T>(nodes: seq<Node<T>>, live: seq<nat>, i: nat, j: nat)
    requires |nodes| < NONE && Linked(nodes, live) && Distinct(live) && i < j <= |live|
    ensures PrevOf(live, i) != NONE ==> PrevOf(live, i) < |nodes|
    ensures NextOf(live, j - 1) != NONE ==> NextOf(live, j - 1) < |nodes|
    ensures var d := Detached(nodes, PrevOf(live, i), live[i], NextOf(live, j - 1), live[j - 1]);
      Linked(d, live[..i]) && Linked(d, live[i..j]) && Linked(d, live[j..]) &&
      RelinkedWithin(nodes, d, live)
    ensures Distinct(live[i..j])
  {
    assert live == live[..i] + live[i..j] + live[j..];
    DistinctSplit(live[..i] + live[i..j], live[j..]);
    DistinctSplit(live[..i], live[i..j]);
    DetachPieces(nodes, live, i, j);
    DetachKeeps(nodes, live, i, j);
  }

  /** The three chains that disconnecting `live[i..j]` leaves. */
  lemma DetachPieces<T>(nodes: seq<Node<T>>, live: seq<nat>, i: nat, j: nat)
    requires |nodes| < NONE && Linked(nodes, live) && Distinct(live) && i < j <= |live|
    ensures PrevOf(live, i) != NONE ==> PrevOf(live, i) < |nodes|
    ensures NextOf(live, j - 1) != NONE ==> NextOf(live, j - 1) < |nodes|
    ensures var d := Detached(nodes, PrevOf(live, i), live[i], NextOf(live, j - 1), live[j - 1]);
      Linked(d, live[..i]) && Linked(d, live[i..j]) && Linked(d, live[j..])
  {
    DetachStretch(nodes, live, i, j, 0, i);
    DetachStretch(nodes, live, i, j, i, j);
    DetachStretch(nodes, live, i, j, j, |live|);
    assert live[..i] == live[0..i];
    assert live[j..] == live[j..|live|];
  }

  /** Disconnecting `live[i..j]` changes links of slots of `live` only. */
  lemma DetachKeeps<T>(nodes: seq<Node<T>>, live: seq<nat>, i: nat, j: nat)
    requires |nodes| < NONE && Linked(nodes, live) && i < j <= |live|
    requires PrevOf(live, i) != NONE ==> PrevOf(live, i) < |nodes|
    requires NextOf(live, j - 1) != NONE ==> NextOf(live, j - 1) < |nodes|
    ensures RelinkedWithin(nodes, Detached(nodes, PrevOf(live, i), live[i], NextOf(live, j - 1), live[j - 1]), live)
  {
    DetachedFrame(nodes, PrevOf(live, i), live[i], NextOf(live, j - 1), live[j - 1]);
    if i > 0 { assert live[i - 1] in live; }
    if j < |live| { assert live[j] in live; }
    assert live[i] in live && live[j - 1] in live;
  }

  /** Reconnecting the sorted range: `before` is linked to `start` and `end`
      to `after`, each only when there is such a neighbour. */
  ghost function Reattached<T>(nodes: seq<Node<T>>, before: nat, start: nat, after: nat, end: nat): (r: seq<Node<T>>)
    requires start < |nodes| && end < |nodes|
    requires before != NONE ==> before < |nodes|
    requires after != NONE ==> after < |nodes|
    ensures |r| == |nodes|
  {
    var n1 := if before != NONE then nodes[before := nodes[before].(next := start)] else nodes;
    var n2 := if before != NONE then n1[start := n1[start].(prev := before)] else n1;
    var n3 := if after != NONE then n2[end := n2[end].(next := after)] else n2;
    if after != NONE then n3[after := n3[after].(prev := end)] else n3
  }

  /** Reconnecting the three chains gives one chain again. */
  lemma ReattachLinks<T>(nodes: seq<Node<T>>, pre: seq<nat>, t: seq<nat>, post: seq<nat>)
    requires |nodes| < NONE && Linked(nodes, pre) && Linked(nodes, t) && Linked(nodes, post)
    requires t != [] && Distinct(pre + t + post)
    ensures Last(pre) != NONE ==> Last(pre) < |nodes|
    ensures First(post) != NONE ==> First(post) < |nodes|
    ensures var r := Reattached(nodes, Last(pre), t[0], First(post), Last(t));
      Linked(r, pre + t + post) && RelinkedWithin(nodes, r, pre + t + post)
  {
    DistinctSplit(pre + t, post);
    AppendedLinked(nodes, pre, t);
    var n1 := Appended(nodes, pre, t);
    KeepLinked(nodes, n1, pre + t, post);
    if post == [] {
      assert pre + t + post == pre + t;
    } else {
      AppendedLinked(n1, pre + t, post);
      RelinkTrans(nodes, n1, Appended(n1, pre + t, post), pre + t, pre + t + post, pre + t + post);
    }
  }

  /** The invariant of the outer loop of `bottomUpMergeSortRange`: `t` is the
      range as the passes so far have left it, a chain in `nodes`, and the
      passes still to come sort it as the whole sort would sort the range
      `mid` as it was in `d`. */
  ghost predicate Sorting<T>(d: seq<Node<T>>, nodes: seq<Node<T>>, mid: seq<nat>, vals: seq<T>,
                             comp: (T, T) -> bool, t: seq<nat>, w: nat)
  {
    |d| < NONE && |d| == |vals| && InBounds(mid, |d|) && InBounds(t, |d|) && w >= 1 && |t| == |mid| &&
    forall k: nat {:trigger Sealed(k, w)} :: Sealed(k, w) ==> SortingAt(d, nodes, mid, vals, comp, t, k)
  }

  /** What `Sorting` says beyond its bounds, unfolded. */
  ghost predicate SortingAt<T>(d: seq<Node<T>>, nodes: seq<Node<T>>, mid: seq<nat>, vals: seq<T>,
                               comp: (T, T) -> bool, t: seq<nat>, w: nat)
    requires |d| == |vals| && InBounds(mid, |d|) && InBounds(t, |d|) && w >= 1 && |t| == |mid|
  {
    Holds(d, vals) && Linked(nodes, t) && Distinct(t) && multiset(t) == multiset(mid) &&
    RelinkedWithin(d, nodes, mid) && Holds(nodes, vals) && SameOutcome(mid, t, w, vals, comp)
  }

  /** A turn of the outer loop starts from a chain `t` of its own. */
  lemma SortingTurn<T>(d: seq<Node<T>>, nodes: seq<Node<T>>, mid: seq<nat>, vals: seq<T>,
                       comp: (T, T) -> bool, t: seq<nat>, w: nat)
    requires Sorting(d, nodes, mid, vals, comp, t, w)
    ensures |nodes| < NONE && Holds(nodes, vals) && Linked(nodes, t) && Distinct(t)
  {
    assert Sealed(w, w);
  }

  /** Sorting `mid` from width 1 and sorting `t` from width `w` end alike.
      Stated behind `Sealed` so that the sort is unfolded only where a proof
      asks for it. */
  ghost predicate SameOutcome<T>(mid: seq<nat>, t: seq<nat>, w: nat, vals: seq<T>, comp: (T, T) -> bool)
    requires InBounds(mid, |vals|) && InBounds(t, |vals|)
  {
    forall v {:trigger Sealed(v, w)} :: Sealed(v, w) && v >= 1 ==>
      BottomUp(mid, 1, vals, comp) == BottomUp(t, v, vals, comp)
  }

  lemma SortingStarts<T>(d: seq<Node<T>>, mid: seq<nat>, vals: seq<T>, comp: (T, T) -> bool)
    requires |d| < NONE && Holds(d, vals) && Linked(d, mid) && Distinct(mid)
    ensures Sorting(d, d, mid, vals, comp, mid, 1)
  {
    assert Sealed(1, 1);
  }

  /** A pass of width `w` moves the loop to width `2 * w`. */
  lemma SortingStep<T>(d: seq<Node<T>>, na: seq<Node<T>>, nb: seq<Node<T>>, mid: seq<nat>, vals: seq<T>,
                       comp: (T, T) -> bool, t: seq<nat>, w: nat)
    requires Sorting(d, na, mid, vals, comp, t, w) && w < |t|
    requires Linked(nb, MergePass(t, w, vals, comp)) && RelinkedWithin(na, nb, t)
    ensures Sorting(d, nb, mid, vals, comp, MergePass(t, w, vals, comp), 2 * w)
  {
    assert Sealed(w, w);
    var t' := MergePass(t, w, vals, comp);
    PassPermutes(t, w, vals, comp);
    DistinctMultiset(t', t);
    SameMembers(t, mid);
    RelinkTrans(d, na, nb, mid, t, mid);
    OutcomeStep(mid, t, w, vals, comp);
  }

  /** A pass of width `w` over `t` is the first step of sorting `t` from width `w`. */
  lemma OutcomeStep<T>(mid: seq<nat>, t: seq<nat>, w: nat, vals: seq<T>, comp: (T, T) -> bool)
    requires InBounds(mid, |vals|) && InBounds(t, |vals|) && 1 <= w < |t|
    requires SameOutcome(mid, t, w, vals, comp)
    ensures SameOutcome(mid, MergePass(t, w, vals, comp), 2 * w, vals, comp)
  {
    SameOutcomeElim(mid, t, w, vals, comp);
    BottomUpStep(t, w, vals, comp);
    SameOutcomeIntro(mid, MergePass(t, w, vals, comp), 2 * w, vals, comp);
  }

  lemma SameOutcomeElim<T>(mid: seq<nat>, t: seq<nat>, w: nat, vals: seq<T>, comp: (T, T) -> bool)
    requires InBounds(mid, |vals|) && InBounds(t, |vals|) && w >= 1
    requires SameOutcome(mid, t, w, vals, comp)
    ensures BottomUp(mid, 1, vals, comp) == BottomUp(t, w, vals, comp)
  {
    assert Sealed(w, w);
  }

  lemma SameOutcomeIntro<T>(mid: seq<nat>, t: seq<nat>, w: nat, vals: seq<T>, comp: (T, T) -> bool)
    requires InBounds(mid, |vals|) && InBounds(t, |vals|) && w >= 1
    requires BottomUp(mid, 1, vals, comp) == BottomUp(t, w, vals, comp)
    ensures SameOutcome(mid, t, w, vals, comp)
  {
    forall v | Sealed(v, w) && v >= 1
      ensures BottomUp(mid, 1, vals, comp) == BottomUp(t, v, vals, comp)
    {
      assert v == w;
    }
  }

  /** A sort from width `w` that is shorter than the range starts with a pass. */
  lemma BottomUpStep<T>(t: seq<nat>, w: nat, vals: seq<T>, comp: (T, T) -> bool)
    requires InBounds(t, |vals|) && 1 <= w < |t|
    ensures BottomUp(t, w, vals, comp) == BottomUp(MergePass(t, w, vals, comp), 2 * w, vals, comp)
  {
  }


  /** Once the width reaches the range's length, the range is in the order
      the sort gives. */
  lemma SortingEnds<T>(d: seq<Node<T>>, nodes: seq<Node<T>>, mid: seq<nat>, vals: seq<T>,
                       comp: (T, T) -> bool, t: seq<nat>, w: nat)
    requires Sorting(d, nodes, mid, vals, comp, t, w) && |t| <= w
    ensures SortsTo(mid, vals, comp, t) && multiset(t) == multiset(mid)
    ensures Linked(nodes, t) && RelinkedWithin(d, nodes, mid)
  {
    assert Sealed(w, w);
  }

  /** Linking a rearrangement `t` of the cut-out range `live[i..j]` back in
      gives one chain `live[..i] + t + live[j..]` holding the slots of `live`. */
  lemma RangeRelinked<T>(n0: seq<Node<T>>, live: seq<nat>, i: nat, j: nat, nf: seq<Node<T>>, t: seq<nat>)
    requires |n0| < NONE && Linked(n0, live) && Distinct(live) && i < j <= |live|
    requires PrevOf(live, i) != NONE ==> PrevOf(live, i) < |n0|
    requires NextOf(live, j - 1) != NONE ==> NextOf(live, j - 1) < |n0|
    requires RelinkedWithin(Detached(n0, PrevOf(live, i), live[i], NextOf(live, j - 1), live[j - 1]), nf, live[i..j])
    requires Linked(nf, t) && multiset(t) == multiset(live[i..j])
    ensures t != [] && |nf| == |n0|
    ensures multiset(live[..i] + t + live[j..]) == multiset(live)
    ensures var r := Reattached(nf, PrevOf(live, i), t[0], NextOf(live, j - 1), Last(t));
      Linked(r, live[..i] + t + live[j..]) && RelinkedWithin(n0, r, live)
  {
    var pre, mid, post := live[..i], live[i..j], live[j..];
    assert live == pre + mid + post;
    DistinctSplit(pre + mid, post);
    DistinctSplit(pre, mid);
    DetachLinks(n0, live, i, j);
    var d := Detached(n0, PrevOf(live, i), live[i], NextOf(live, j - 1), live[j - 1]);
    KeepLinked(d, nf, mid, pre);
    KeepLinked(d, nf, mid, post);
    assert |t| == |mid| by {
      assert |multiset(t)| == |multiset(mid)|;
    }
    var l' := pre + t + post;
    assert multiset(l') == multiset(live);
    DistinctMultiset(l', live);
    assert Last(pre) == PrevOf(live, i);
    assert First(post) == NextOf(live, j - 1);
    ReattachLinks(nf, pre, t, post);
    var r := Reattached(nf, PrevOf(live, i), t[0], NextOf(live, j - 1), Last(t));
    SameMembers(l', live);
    RelinkTrans(n0, d, nf, live, mid, live);
    RelinkTrans(n0, nf, r, live, l', live);
  }

  /** The state in the middle of `bottomUpMergeSortRange`: the arena `n0`
      satisfied the invariant for `live` and held `vals`; the range
      `live[i..j]` has been cut out and relinked, giving `nf`, into the chain
      `t` that the sort leaves. Stated behind `Sealed`, like `SortsTo`. */
  ghost predicate SortedCut<T>(n0: seq<Node<T>>, head: nat, tail: nat, freeHead: nat, count: nat,
                               live: seq<nat>, free: seq<nat>, i: nat, j: nat, nf: seq<Node<T>>, t: seq<nat>,
                               vals: seq<T>, comp: (T, T) -> bool)
  {
    forall k: nat {:trigger Sealed(k, i)} :: Sealed(k, i) ==>
      Inv(n0, head, tail, freeHead, count, live, free) && Holds(n0, vals) && k < j <= |live| &&
      live[k] < |n0| && live[j - 1] < |n0| &&
      (PrevOf(live, k) != NONE ==> PrevOf(live, k) < |n0|) &&
      (NextOf(live, j - 1) != NONE ==> NextOf(live, j - 1) < |n0|) &&
      RelinkedWithin(Detached(n0, PrevOf(live, k), live[k], NextOf(live, j - 1), live[j - 1]), nf, live[k..j]) &&
      Linked(nf, t) && multiset(t) == multiset(live[k..j]) &&
      |t| == j - k && InBounds(live, |vals|) && SortsTo(live[k..j], vals, comp, t)
  }

  /** Reaching the middle state of `bottomUpMergeSortRange`. */
  lemma SortedCutIntro<T>(n0: seq<Node<T>>, head: nat, tail: nat, freeHead: nat, count: nat,
                          live: seq<nat>, free: seq<nat>, i: nat, j: nat, nf: seq<Node<T>>, t: seq<nat>,
                          vals: seq<T>, comp: (T, T) -> bool)
    requires Inv(n0, head, tail, freeHead, count, live, free) && Holds(n0, vals) && i < j <= |live|
    requires PrevOf(live, i) != NONE ==> PrevOf(live, i) < |n0|
    requires NextOf(live, j - 1) != NONE ==> NextOf(live, j - 1) < |n0|
    requires RelinkedWithin(Detached(n0, PrevOf(live, i), live[i], NextOf(live, j - 1), live[j - 1]), nf, live[i..j])
    requires Linked(nf, t) && multiset(t) == multiset(live[i..j])
    requires |t| == j - i && InBounds(live[i..j], |vals|) && SortsTo(live[i..j], vals, comp, t)
    ensures SortedCut(n0, head, tail, freeHead, count, live, free, i, j, nf, t, vals, comp)
  {
    assert InBounds(live, |vals|);
  }

  /** What `RangeSorted` concludes, from the sealed middle state. */
  lemma SortedCutEnds<T>(n0: seq<Node<T>>, head: nat, tail: nat, freeHead: nat, count: nat,
                         live: seq<nat>, free: seq<nat>, i: nat, j: nat, nf: seq<Node<T>>, t: seq<nat>,
                         vals: seq<T>, comp: (T, T) -> bool)
    requires SortedCut(n0, head, tail, freeHead, count, live, free, i, j, nf, t, vals, comp)
    ensures i < j <= |live| && InBounds(live, |vals|) && t != [] && First(t) < |nf| && Last(t) < |nf|
    ensures PrevOf(live, i) != NONE ==> PrevOf(live, i) < |nf|
    ensures NextOf(live, j - 1) != NONE ==> NextOf(live, j - 1) < |nf|
    ensures var before, after := PrevOf(live, i), NextOf(live, j - 1);
      var r := Reattached(nf, before, First(t), after, Last(t));
      Inv(r, if before == NONE then First(t) else head, if after == NONE then Last(t) else tail,
          freeHead, count, live[..i] + t + live[j..], free) &&
      Holds(r, vals)
    ensures SortedWithin(live, live[..i] + t + live[j..], i, j, vals, comp)
  {
    assert Sealed(i, i);
    RangeSorted(n0, head, tail, freeHead, count, live, free, i, j, nf, t, vals, comp);
  }

  /** Sorting `live[i..j]` into `t` and linking it back in restores the
      arena invariant for the list `live[..i] + t + live[j..]`, in which only
      the range has moved; `head` and `tail` move only where the range
      reached an end of the list, and every slot keeps its value. */
  lemma RangeSorted<T>(n0: seq<Node<T>>, head: nat, tail: nat, freeHead: nat, count: nat,
                       live: seq<nat>, free: seq<nat>, i: nat, j: nat, nf: seq<Node<T>>, t: seq<nat>,
                       vals: seq<T>, comp: (T, T) -> bool)
    requires Inv(n0, head, tail, freeHead, count, live, free) && Holds(n0, vals) && i < j <= |live|
    requires PrevOf(live, i) != NONE ==> PrevOf(live, i) < |n0|
    requires NextOf(live, j - 1) != NONE ==> NextOf(live, j - 1) < |n0|
    requires RelinkedWithin(Detached(n0, PrevOf(live, i), live[i], NextOf(live, j - 1), live[j - 1]), nf, live[i..j])
    requires Linked(nf, t) && multiset(t) == multiset(live[i..j])
    requires |t| == j - i && InBounds(live, |vals|) && SortsTo(live[i..j], vals, comp, t)
    ensures t != [] && |nf| == |n0| && First(t) < |nf| && Last(t) < |nf|
    ensures var before, after := PrevOf(live, i), NextOf(live, j - 1);
      var r := Reattached(nf, before, First(t), after, Last(t));
      Inv(r, if before == NONE then First(t) else head, if after == NONE then Last(t) else tail,
          freeHead, count, live[..i] + t + live[j..], free) &&
      Holds(r, vals)
    ensures SortedWithin(live, live[..i] + t + live[j..], i, j, vals, comp)
  {
    RangeRelinked(n0, live, i, j, nf, t);
    var l' := live[..i] + t + live[j..];
    var r := Reattached(nf, PrevOf(live, i), t[0], NextOf(live, j - 1), Last(t));
    FreeLinkedFrame(n0, r, free);
    PartitionPermute(live, l', free, |n0|);
    RangeEnds(live, i, j, t);
    if i > 0 { assert live[i - 1] < |n0|; }
    if j < |live| { assert live[j] < |n0|; }
    assert t[0] in multiset(live[i..j]) && Last(t) in multiset(live[i..j]);
    HoldsKept(n0, r, live, vals);
    RangeSpliced(live, i, j, t, vals, comp);
  }

  /** Replacing `live[i..j]` by a non-empty `t` of the same length changes
      the first slot only when `i` is 0 and the last only when `j` is the end. */
  lemma RangeEnds(live: seq<nat>, i: nat, j: nat, t: seq<nat>)
    requires i < j <= |live| && |t| == j - i
    ensures var l' := live[..i] + t + live[j..];
      |l'| == |live| &&
      First(l') == (if i == 0 then t[0] else First(live)) &&
      Last(l') == (if j == |live| then Last(t) else Last(live))
  {
    var l' := live[..i] + t + live[j..];
    if i > 0 {
      assert l'[0] == live[0];
    }
    if j < |live| {
      assert l'[|l'| - 1] == live[|live| - 1];
    } else {
      assert l'[|l'| - 1] == t[|t| - 1];
    }
  }

  /** `l'` is `live` with its range `live[i..j]` put in the order the sort
      leaves it, and nothing else moved. */
  ghost predicate SortedWithin<T>(live: seq<nat>, l': seq<nat>, i: nat, j: nat, vals: seq<T>, comp: (T, T) -> bool)
    requires i <= j <= |live| && InBounds(live, |vals|)
  {
    |l'| == |live| && l' == live[..i] + l'[i..j] + live[j..] && SortsTo(live[i..j], vals, comp, l'[i..j])
  }

  /** Putting the sorted order `t` of `live[i..j]` in its place leaves the
      rest of `live` where it was and holds `t` at positions `i..j`. */
  lemma RangeSpliced<T>(live: seq<nat>, i: nat, j: nat, t: seq<nat>, vals: seq<T>, comp: (T, T) -> bool)
    requires i < j <= |live| && |t| == j - i && InBounds(live, |vals|)
    requires SortsTo(live[i..j], vals, comp, t)
    ensures SortedWithin(live, live[..i] + t + live[j..], i, j, vals, comp)
  {
    SpliceParts(live[..i], t, live[j..]);
  }

  /** Sorting the range that spans the whole list, positions 0 up to its
      length, sorts the list: the slots are the same, and with a strict weak
      order they are ordered. */
  lemma WholeListSorted<T(!new)>(l0: seq<nat>, l: seq<nat>, vals: seq<T>, comp: (T, T) -> bool)
    requires InBounds(l0, |vals|) && |l| == |l0| && SortsTo(l0[0..|l0|], vals, comp, l[0..|l|])
    ensures SortsTo(l0, vals, comp, l) && multiset(l) == multiset(l0)
    ensures InBounds(l, |vals|) && (StrictWeakOrder(comp) ==> Ordered(l, vals, comp))
  {
    assert l0[0..|l0|] == l0 && l[0..|l|] == l;
    SortsToPermutes(l0, vals, comp, l);
    SortsToSorted(l0, vals, comp, l);
    if StrictWeakOrder(comp) {
      SortsToOrdered(l0, vals, comp, l);
    }
  }
}
