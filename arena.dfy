/** The invariant of a `FreeList` stated on plain values (the arena and the
    four index fields), and one lemma per linking step of the source saying
    what that step does to the list and that it keeps the invariant. The
    class in module FreeLists performs the steps on its fields and calls
    these lemmas. */
module Arena {
  import opened Slots
  import opened Chains

  /** The links of `nodes` spell out the list `live` from `head` to `tail` and
      the free chain `free` from `freeHead`; the two use every slot once and
      `count` (`size_`) is the length of the list. */
  ghost predicate Inv<T>(nodes: seq<Node<T>>, head: nat, tail: nat, freeHead: nat, count: nat,
                         live: seq<nat>, free: seq<nat>)
  {
    |nodes| < NONE &&
    Linked(nodes, live) && head == First(live) && tail == Last(live) &&
    FreeLinked(nodes, free) && freeHead == First(free) &&
    Partition(live, free, |nodes|) && count == |live|
  }

  /** Right after `allocateNode`: slot `x` is counted and holds its value but
      is in neither chain, and its links are SIZE_MAX. */
  ghost predicate PendingInv<T>(nodes: seq<Node<T>>, head: nat, tail: nat, freeHead: nat, count: nat,
                                live: seq<nat>, free: seq<nat>, x: nat)
  {
    |nodes| < NONE && x < |nodes| &&
    Linked(nodes, live) && head == First(live) && tail == Last(live) &&
    FreeLinked(nodes, free) && freeHead == First(free) &&
    Partition(live + [x], free, |nodes|) && count == |live| + 1 &&
    nodes[x].next == NONE && nodes[x].prev == NONE
  }

  /** The slots that `m` calls of `allocateNode` take, in order: the free
      chain `free` from its first slot, then new slots appended to an arena
      of `n` slots. */
  function Taken(free: seq<nat>, n: nat, m: nat): (r: seq<nat>)
    ensures |r| == m
  {
    if m <= |free| then free[..m] else free + seq(m - |free|, k => n + k)
  }

  /** The free chain left after `m` calls of `allocateNode`. */
  function FreeAfter(free: seq<nat>, m: nat): seq<nat> {
    if m <= |free| then free[m..] else []
  }

  /** The arena size after `m` calls of `allocateNode` on an arena of `n` slots. */
  function GrownTo(free: seq<nat>, n: nat, m: nat): nat {
    if m <= |free| then n else n + (m - |free|)
  }

  /** One more allocation takes the first slot of the free chain left so
      far, or, once that is empty, the slot at the end of the arena. */
  lemma TakenStep(free: seq<nat>, n: nat, m: nat)
    ensures var rest := FreeAfter(free, m);
      var x := if rest != [] then rest[0] else GrownTo(free, n, m);
      Taken(free, n, m + 1) == Taken(free, n, m) + [x] &&
      FreeAfter(free, m + 1) == (if rest != [] then rest[1..] else rest) &&
      GrownTo(free, n, m + 1) == (if rest != [] then GrownTo(free, n, m) else GrownTo(free, n, m) + 1)
  {
    if m < |free| {
      assert free[..m + 1] == free[..m] + [free[m]];
    } else if m == |free| {
      assert free[..m] == free;
      assert seq(1, k => n + k) == [n];
    } else {
      var a, b := seq(m - |free|, k => n + k), seq(m + 1 - |free|, k => n + k);
      assert b == a + [n + (m - |free|)];
    }
  }

  /** An index field is SIZE_MAX exactly when its chain is empty. */
  lemma EndsOfChains<T>(nodes: seq<Node<T>>, head: nat, tail: nat, freeHead: nat, count: nat,
                        live: seq<nat>, free: seq<nat>)
    requires Inv(nodes, head, tail, freeHead, count, live, free)
    ensures head == NONE <==> live == []
    ensures tail == NONE <==> live == []
    ensures freeHead == NONE <==> free == []
  {
    if live != [] {
      assert live[0] < |nodes| && live[|live| - 1] < |nodes|;
    }
    if free != [] {
      assert free[0] < |nodes|;
    }
  }

  /** `allocateNode` with a free slot: the first free slot is reused and the
      free chain continues at its `nextFree`. */
  lemma AllocateReused<T>(nodes: seq<Node<T>>, head: nat, tail: nat, freeHead: nat, count: nat,
                          live: seq<nat>, free: seq<nat>, data: T)
    requires Inv(nodes, head, tail, freeHead, count, live, free) && freeHead != NONE
    ensures free != [] && freeHead == free[0] && freeHead < |nodes|
    ensures PendingInv(nodes[freeHead := Fresh(data)], head, tail, nodes[freeHead].nextFree,
                       count + 1, live, free[1..], freeHead)
    ensures Project(nodes[freeHead := Fresh(data)], live) == Project(nodes, live)
  {
    EndsOfChains(nodes, head, tail, freeHead, count, live, free);
    var n1 := nodes[freeHead := Fresh(data)];
    PartitionTake(live, free, |nodes|);
    assert freeHead !in live;
    FreeLinkedTail(nodes, free);
    assert At(nodes, free, 0).nextFree == NextOf(free, 0);
    assert freeHead !in free[1..] by {
      assert (live + [free[0]])[|live|] == free[0];
    }
    FreeLinkedFrame(nodes, n1, free[1..]);
    LinkedFrame(nodes, n1, live);
    ProjectFrame(nodes, n1, live);
  }

  /** `allocateNode` with no free slot: the arena grows by one slot. */
  lemma AllocateAppended<T>(nodes: seq<Node<T>>, head: nat, tail: nat, freeHead: nat, count: nat,
                            live: seq<nat>, free: seq<nat>, data: T)
    requires Inv(nodes, head, tail, freeHead, count, live, free) && freeHead == NONE
    requires |nodes| + 1 < NONE
    ensures free == []
    ensures PendingInv(nodes + [Fresh(data)], head, tail, freeHead, count + 1, live, free, |nodes|)
    ensures Project(nodes + [Fresh(data)], live) == Project(nodes, live)
  {
    EndsOfChains(nodes, head, tail, freeHead, count, live, free);
    var n1 := nodes + [Fresh(data)];
    PartitionGrow(live, |nodes|);
    LinkedFrame(nodes, n1, live);
    ProjectFrame(nodes, n1, live);
  }

  /** Slot `x`, in no chain and with SIZE_MAX links, linked in after the last slot of `live`. */
  lemma LastLinked<T>(nodes: seq<Node<T>>, live: seq<nat>, x: nat)
    requires Linked(nodes, live) && Distinct(live) && x < |nodes| && x !in live
    requires nodes[x].next == NONE && nodes[x].prev == NONE
    ensures var t := Last(live);
      var n2 := if live == [] then nodes
                else var n1 := nodes[t := nodes[t].(next := x)]; n1[x := n1[x].(prev := t)];
      Linked(n2, live + [x]) && LinksOnly(nodes, n2)
  {
    var t := Last(live);
    if live != [] {
      var n1 := nodes[t := nodes[t].(next := x)];
      var n2 := n1[x := n1[x].(prev := t)];
      forall i | 0 <= i < |live| ensures live[i] == t <==> i == |live| - 1 {
        DistinctAt(live, i, |live| - 1);
      }
      LinkedInsert(nodes, n2, live, |live|, x);
    } else {
      LinkedInsert(nodes, nodes, live, 0, x);
    }
    assert live[..|live|] + [x] + live[|live|..] == live + [x];
  }

  /** The tail-linking code of `push_back`: `x` becomes the last slot. */
  lemma LinkLastCorrect<T>(nodes: seq<Node<T>>, after: seq<Node<T>>, head: nat, tail: nat, freeHead: nat, count: nat,
                           live: seq<nat>, free: seq<nat>, x: nat)
    requires PendingInv(nodes, head, tail, freeHead, count, live, free, x)
    requires head == NONE <==> tail == NONE
    requires after == if head == NONE then nodes
                      else var n1 := nodes[tail := nodes[tail].(next := x)]; n1[x := n1[x].(prev := tail)]
    ensures Inv(after, if head == NONE then x else head, x, freeHead, count, live + [x], free)
    ensures Project(after, live + [x]) == Project(nodes, live) + [nodes[x].data]
  {
    PartitionInsert(live, free, |nodes|, |live|, x);
    assert live[..|live|] + [x] + live[|live|..] == live + [x];
    assert head == NONE <==> live == [] by {
      if live != [] { assert live[0] < |nodes|; }
    }
    LastLinked(nodes, live, x);
    LinksOnlyKeeps(nodes, after, live + [x], free);
    ProjectInsert(nodes, live, |live|, x);
  }

  /** While a slot is pending, `head` and `tail` are SIZE_MAX together. */
  lemma PendingEnds<T>(nodes: seq<Node<T>>, head: nat, tail: nat, freeHead: nat, count: nat,
                       live: seq<nat>, free: seq<nat>, x: nat)
    requires PendingInv(nodes, head, tail, freeHead, count, live, free, x)
    ensures head == NONE <==> live == []
    ensures tail == NONE <==> live == []
    ensures head != NONE ==> head < |nodes| && tail < |nodes| && head != x && tail != x
    ensures x !in live && Distinct(live)
  {
    PartitionInsert(live, free, |nodes|, |live|, x);
    if live != [] {
      assert live[0] < |nodes| && live[|live| - 1] < |nodes|;
      assert live[0] in live && live[|live| - 1] in live;
    }
  }

  /** Slot `x`, in no chain and with SIZE_MAX links, linked in before the first slot of `live`. */
  lemma FirstLinked<T>(nodes: seq<Node<T>>, live: seq<nat>, x: nat)
    requires Linked(nodes, live) && Distinct(live) && x < |nodes| && x !in live
    requires nodes[x].next == NONE && nodes[x].prev == NONE
    ensures var h := First(live);
      var n2 := if live == [] then nodes
                else var n1 := nodes[x := nodes[x].(next := h)]; n1[h := n1[h].(prev := x)];
      Linked(n2, [x] + live) && LinksOnly(nodes, n2)
  {
    var h := First(live);
    if live != [] {
      var n1 := nodes[x := nodes[x].(next := h)];
      var n2 := n1[h := n1[h].(prev := x)];
      forall i | 0 <= i < |live| ensures live[i] == h <==> i == 0 {
        DistinctAt(live, i, 0);
      }
      LinkedInsert(nodes, n2, live, 0, x);
    } else {
      LinkedInsert(nodes, nodes, live, 0, x);
    }
    assert live[..0] + [x] + live[0..] == [x] + live;
  }

  /** The head-linking code of `push_front`: `x` becomes the first slot. */
  lemma LinkFirstCorrect<T>(nodes: seq<Node<T>>, after: seq<Node<T>>, head: nat, tail: nat, freeHead: nat, count: nat,
                            live: seq<nat>, free: seq<nat>, x: nat)
    requires PendingInv(nodes, head, tail, freeHead, count, live, free, x)
    requires head == NONE <==> tail == NONE
    requires after == if head == NONE then nodes
                      else var n1 := nodes[x := nodes[x].(next := head)]; n1[head := n1[head].(prev := x)]
    ensures Inv(after, x, if tail == NONE then x else tail, freeHead, count, [x] + live, free)
    ensures Project(after, [x] + live) == [nodes[x].data] + Project(nodes, live)
  {
    PartitionInsert(live, free, |nodes|, 0, x);
    assert live[..0] + [x] + live[0..] == [x] + live;
    assert head == NONE <==> live == [] by {
      if live != [] { assert live[0] < |nodes|; }
    }
    assert tail == NONE <==> live == [] by {
      if live != [] { assert live[|live| - 1] < |nodes|; }
    }
    FirstLinked(nodes, live, x);
    LinksOnlyKeeps(nodes, after, [x] + live, free);
    ProjectInsert(nodes, live, 0, x);
  }

  /** The arena after the code of `insert` links `x` in before slot `c`. */
  function InsertedBefore<T>(nodes: seq<Node<T>>, x: nat, c: nat): (r: seq<Node<T>>)
    requires x < |nodes| && c < |nodes|
    ensures |r| == |nodes|
  {
    var n1 := nodes[x := nodes[x].(next := c)];
    var n2 := n1[x := n1[x].(prev := n1[c].prev)];
    var p := n2[c].prev;
    var n3 := if p != NONE && p < |n2| then n2[p := n2[p].(next := x)] else n2;
    n3[c := n3[c].(prev := x)]
  }

  /** Link by link, what `InsertedBefore` does to the slots of the chain. */
  lemma InsertedBeforePointwise<T>(nodes: seq<Node<T>>, live: seq<nat>, x: nat, k: nat)
    requires Linked(nodes, live) && Distinct(live) && |nodes| < NONE && x < |nodes| && x !in live && k < |live|
    ensures var n4 := InsertedBefore(nodes, x, live[k]);
      n4[x].next == live[k] && n4[x].prev == PrevOf(live, k) &&
      (forall i :: 0 <= i < |live| ==> n4[live[i]].next == (if i + 1 == k then x else nodes[live[i]].next)) &&
      (forall i :: 0 <= i < |live| ==> n4[live[i]].prev == (if i == k then x else nodes[live[i]].prev))
  {
    var c := live[k];
    assert At(nodes, live, k).prev == PrevOf(live, k);
    var p := PrevOf(live, k);
    var n4 := InsertedBefore(nodes, x, c);
    forall i | 0 <= i < |live|
      ensures n4[live[i]].next == (if i + 1 == k then x else nodes[live[i]].next)
      ensures n4[live[i]].prev == (if i == k then x else nodes[live[i]].prev)
    {
      assert live[i] != x;
      DistinctAt(live, i, k);
      if k > 0 {
        DistinctAt(live, i, k - 1);
      }
    }
  }

  /** Slot `x`, in no chain and with SIZE_MAX links, linked in before `live[k]`. */
  lemma BeforeLinked<T>(nodes: seq<Node<T>>, live: seq<nat>, x: nat, k: nat)
    requires Linked(nodes, live) && Distinct(live) && |nodes| < NONE && x < |nodes| && x !in live && k < |live|
    requires nodes[x].next == NONE && nodes[x].prev == NONE
    ensures var n4 := InsertedBefore(nodes, x, live[k]);
      Linked(n4, live[..k] + [x] + live[k..]) && LinksOnly(nodes, n4) &&
      (nodes[live[k]].prev == NONE <==> k == 0)
  {
    assert At(nodes, live, k).prev == PrevOf(live, k);
    InsertedBeforePointwise(nodes, live, x, k);
    LinkedInsert(nodes, InsertedBefore(nodes, x, live[k]), live, k, x);
  }

  /** Any relinking that puts the pending slot `x` at position `k` of the
      list, and changes nothing but links, restores the invariant. */
  lemma InsertKeepsInv<T>(nodes: seq<Node<T>>, n2: seq<Node<T>>, head: nat, tail: nat, freeHead: nat, count: nat,
                          live: seq<nat>, free: seq<nat>, x: nat, k: nat)
    requires PendingInv(nodes, head, tail, freeHead, count, live, free, x) && k <= |live|
    requires LinksOnly(nodes, n2) && Linked(n2, live[..k] + [x] + live[k..])
    ensures Inv(n2, First(live[..k] + [x] + live[k..]), Last(live[..k] + [x] + live[k..]), freeHead, count,
                live[..k] + [x] + live[k..], free)
    ensures Project(n2, live[..k] + [x] + live[k..]) == Project(nodes, live)[..k] + [nodes[x].data] + Project(nodes, live)[k..]
  {
    var r := live[..k] + [x] + live[k..];
    PartitionInsert(live, free, |nodes|, k, x);
    LinksOnlyKeeps(nodes, n2, r, free);
    ProjectInsert(nodes, live, k, x);
  }

  /** The slot before `live[k]`, which the code of `insert` reads. */
  lemma BeforeNeighbour<T>(nodes: seq<Node<T>>, live: seq<nat>, x: nat, k: nat)
    requires Linked(nodes, live) && x !in live && k < |live|
    ensures nodes[live[k]].prev == PrevOf(live, k) && live[k] != x
    ensures nodes[live[k]].prev == NONE || nodes[live[k]].prev < |nodes|
  {
    assert At(nodes, live, k).prev == PrevOf(live, k);
  }

  /** The code of `insert` before the live slot `live[k]`: `x` takes over its
      predecessor, which (or `head`) now points at `x`, and it points back at `x`. */
  lemma LinkBeforeCorrect<T>(nodes: seq<Node<T>>, after: seq<Node<T>>, head: nat, tail: nat, freeHead: nat, count: nat,
                             live: seq<nat>, free: seq<nat>, x: nat, k: nat)
    requires PendingInv(nodes, head, tail, freeHead, count, live, free, x) && k < |live|
    requires after == InsertedBefore(nodes, x, live[k])
    ensures Inv(after, if nodes[live[k]].prev != NONE then head else x, tail, freeHead, count,
                live[..k] + [x] + live[k..], free)
    ensures Project(after, live[..k] + [x] + live[k..]) ==
            Project(nodes, live)[..k] + [nodes[x].data] + Project(nodes, live)[k..]
  {
    var r := live[..k] + [x] + live[k..];
    assert x !in live && Distinct(live) by {
      PartitionInsert(live, free, |nodes|, k, x);
    }
    BeforeLinked(nodes, live, x, k);
    InsertKeepsInv(nodes, after, head, tail, freeHead, count, live, free, x, k);
    assert First(r) == (if k == 0 then x else live[0]);
    assert Last(r) == live[|live| - 1];
  }

  /** The arena after the code of `remove` makes the neighbours of slot `i`
      point at each other; a SIZE_MAX neighbour is left alone. */
  function Unlinked<T>(nodes: seq<Node<T>>, i: nat): (r: seq<Node<T>>)
    requires i < |nodes|
    ensures |r| == |nodes|
  {
    var nx := nodes[i].next;
    var pv := nodes[i].prev;
    var n1 := if pv != NONE && pv < |nodes| then nodes[pv := nodes[pv].(next := nx)] else nodes;
    if nx != NONE && nx < |n1| then n1[nx := n1[nx].(prev := pv)] else n1
  }

  /** `Unlinked`, followed by pushing slot `i` onto the free chain. */
  function Removed<T>(nodes: seq<Node<T>>, i: nat, freeHead: nat): (r: seq<Node<T>>)
    requires i < |nodes|
    ensures |r| == |nodes|
  {
    var n2 := Unlinked(nodes, i);
    n2[i := n2[i].(nextFree := freeHead)]
  }

  /** Link by link, what `Unlinked` does to the slots of the chain. */
  lemma UnlinkedPointwise<T>(nodes: seq<Node<T>>, live: seq<nat>, k: nat)
    requires Linked(nodes, live) && Distinct(live) && |nodes| < NONE && k < |live|
    ensures nodes[live[k]].next == NextOf(live, k) && nodes[live[k]].prev == PrevOf(live, k)
    ensures var n2 := Unlinked(nodes, live[k]);
      (forall j :: 0 <= j < |live| && j != k ==>
        n2[live[j]].next == (if j + 1 == k then nodes[live[k]].next else nodes[live[j]].next)) &&
      (forall j :: 0 <= j < |live| && j != k ==>
        n2[live[j]].prev == (if j == k + 1 then nodes[live[k]].prev else nodes[live[j]].prev))
  {
    var i := live[k];
    assert At(nodes, live, k).next == NextOf(live, k) && At(nodes, live, k).prev == PrevOf(live, k);
    var nx := nodes[i].next;
    var pv := nodes[i].prev;
    var n2 := Unlinked(nodes, i);
    forall j | 0 <= j < |live| && j != k
      ensures n2[live[j]].next == (if j + 1 == k then nx else nodes[live[j]].next)
      ensures n2[live[j]].prev == (if j == k + 1 then pv else nodes[live[j]].prev)
    {
      if k > 0 {
        DistinctAt(live, j, k - 1);
      }
      if k + 1 < |live| {
        DistinctAt(live, j, k + 1);
      }
    }
  }

  /** Unlinking `live[k]`: its neighbours point at each other. */
  lemma RemoveLinked<T>(nodes: seq<Node<T>>, live: seq<nat>, k: nat)
    requires Linked(nodes, live) && Distinct(live) && |nodes| < NONE && k < |live|
    ensures Linked(Unlinked(nodes, live[k]), live[..k] + live[k + 1..])
    ensures LinksOnly(nodes, Unlinked(nodes, live[k]))
    ensures nodes[live[k]].next == NextOf(live, k) && nodes[live[k]].prev == PrevOf(live, k)
  {
    UnlinkedPointwise(nodes, live, k);
    LinkedRemove(nodes, Unlinked(nodes, live[k]), live, k);
  }

  /** The new ends of the list after `remove`. */
  lemma RemoveEnds(live: seq<nat>, n: nat, k: nat)
    requires InBounds(live, n) && n < NONE && k < |live|
    ensures var rest := live[..k] + live[k + 1..];
      First(rest) == (if PrevOf(live, k) == NONE then NextOf(live, k) else First(live)) &&
      Last(rest) == (if NextOf(live, k) == NONE then PrevOf(live, k) else Last(live))
  {
    var rest := live[..k] + live[k + 1..];
    if rest != [] {
      assert rest[0] == (if k == 0 then live[1] else live[0]);
      assert rest[|rest| - 1] == (if k == |live| - 1 then live[k - 1] else live[|live| - 1]);
    }
  }

  /** Any relinking that takes slot `live[k]` out of the list, and changes
      nothing but links, followed by pushing that slot onto the free chain,
      restores the invariant. */
  lemma RemoveKeepsInv<T>(nodes: seq<Node<T>>, n2: seq<Node<T>>, head: nat, tail: nat, freeHead: nat, count: nat,
                          live: seq<nat>, free: seq<nat>, k: nat)
    requires Inv(nodes, head, tail, freeHead, count, live, free) && k < |live|
    requires LinksOnly(nodes, n2) && Linked(n2, live[..k] + live[k + 1..])
    ensures var n3 := n2[live[k] := n2[live[k]].(nextFree := freeHead)];
      Inv(n3, First(live[..k] + live[k + 1..]), Last(live[..k] + live[k + 1..]), live[k], count - 1,
          live[..k] + live[k + 1..], [live[k]] + free) &&
      Project(n3, live[..k] + live[k + 1..]) == Project(nodes, live)[..k] + Project(nodes, live)[k + 1..]
  {
    var i := live[k];
    var rest := live[..k] + live[k + 1..];
    var n3 := n2[i := n2[i].(nextFree := freeHead)];
    DistinctRemove(live, k);
    LinkedFrame(n2, n3, rest);
    LinksOnlyKeeps(nodes, n2, rest, free);
    PartitionRemove(live, free, |nodes|, k);
    assert i !in free;
    FreeLinkedFrame(n2, n3, free);
    FreeLinkedPush(n3, free, i);
    ProjectRemove(nodes, live, k);
    ProjectFrame(n2, n3, rest);
  }

  /** The neighbours `remove` reads from slot `live[k]`. */
  lemma RemoveNeighbours<T>(nodes: seq<Node<T>>, live: seq<nat>, k: nat)
    requires Linked(nodes, live) && k < |live|
    ensures nodes[live[k]].next == NextOf(live, k) && nodes[live[k]].prev == PrevOf(live, k)
    ensures nodes[live[k]].next == NONE || nodes[live[k]].next < |nodes|
    ensures nodes[live[k]].prev == NONE || nodes[live[k]].prev < |nodes|
  {
    assert At(nodes, live, k).next == NextOf(live, k) && At(nodes, live, k).prev == PrevOf(live, k);
  }

  /** The code of `remove` for the live slot `live[k]`: its neighbours (or
      `head`/`tail`) are joined, and it is pushed onto the free chain. */
  lemma RemoveCorrect<T>(nodes: seq<Node<T>>, after: seq<Node<T>>, head: nat, tail: nat, freeHead: nat, count: nat,
                         live: seq<nat>, free: seq<nat>, k: nat)
    requires Inv(nodes, head, tail, freeHead, count, live, free) && k < |live|
    requires after == Removed(nodes, live[k], freeHead)
    ensures var i := live[k];
      Inv(after, if nodes[i].prev == NONE then nodes[i].next else head,
          if nodes[i].next == NONE then nodes[i].prev else tail, i, count - 1,
          live[..k] + live[k + 1..], [i] + free) &&
      Project(after, live[..k] + live[k + 1..]) == Project(nodes, live)[..k] + Project(nodes, live)[k + 1..]
  {
    RemoveNeighbours(nodes, live, k);
    RemoveLinked(nodes, live, k);
    RemoveKeepsInv(nodes, Unlinked(nodes, live[k]), head, tail, freeHead, count, live, free, k);
    RemoveEnds(live, |nodes|, k);
  }
}
