/** `FreeList<T>` (include/FreeList.hpp): a doubly-linked list whose nodes live
    in one growing arena and refer to each other by slot index. Slots that no
    longer hold a value form a singly-linked free chain and are reused before
    the arena grows.

    The ghost sequence `live` lists the slots of the list in order and `free`
    lists the free chain from `freeHead`; `Valid()` says that the index
    fields spell out exactly these two chains and that together they use
    every slot once. An iterator is its slot index, with NONE for `end()`.
    Each method performs the source's field updates step by step and calls
    the lemma of module Arena that says what those steps do. */
module FreeLists {
  import opened Slots
  import opened Chains
  import opened Arena
  import opened MergeSpec
  import opened Runs
  import opened Ranges

  class FreeList<T(==, !new)> {
    var nodes: seq<Node<T>>
    var head: nat
    var tail: nat
    var freeHead: nat
    /** `size_` */
    var count: nat
    ghost var live: seq<nat>
    ghost var free: seq<nat>

    ghost predicate Valid()
      reads this
    {
      Inv(nodes, head, tail, freeHead, count, live, free)
    }

    /** Between `allocateNode` and the linking code that follows it: slot `x`
        holds the new value and is counted, but is in no chain yet. */
    ghost predicate Pending(x: nat)
      reads this
    {
      PendingInv(nodes, head, tail, freeHead, count, live, free, x)
    }

    /** The values of the list, front to back. */
    ghost function Values(): seq<T>
      reads this
      requires Valid()
    {
      Project(nodes, live)
    }

    /** How many more values fit: free slots, plus the slots the arena can
        still grow by while SIZE_MAX stays outside it. */
    ghost function Room(): int
      reads this
    {
      |free| + (NONE - 1 - |nodes|)
    }

    /** The position an iterator stands at: its slot's position in the list,
        or the length of the list for `end()`. */
    ghost function Position(it: nat): (p: nat)
      reads this
      requires it == NONE || it in live
      ensures it == NONE ==> p == |live|
      ensures it != NONE ==> p < |live| && live[p] == it
    {
      if it == NONE then |live| else IndexOf(live, it)
    }

    constructor()
      ensures Valid() && live == [] && free == [] && nodes == []
    {
      nodes := [];
      head := NONE;
      tail := NONE;
      freeHead := NONE;
      count := 0;
      live := [];
      free := [];
    }

    /** `allocateNode`: reuse the first free slot, or append one to the arena. */
    method AllocateNode(data: T) returns (index: nat)
      requires Valid() && Room() > 0
      modifies this`nodes, this`freeHead, this`count, this`free
      ensures Pending(index) && nodes[index] == Fresh(data) && count == old(count) + 1
      ensures old(freeHead) != NONE ==>
        index == old(freeHead) && freeHead == old(nodes[freeHead].nextFree) &&
        free == old(free)[1..] && |nodes| == old(|nodes|)
      ensures old(freeHead) == NONE ==> index == old(|nodes|) && free == [] && |nodes| == old(|nodes|) + 1
      ensures Room() == old(Room()) - 1
      ensures Project(nodes, live) == old(Values())
    {
      if freeHead != NONE {
        AllocateReused(nodes, head, tail, freeHead, count, live, free, data);
        index := freeHead;
        freeHead := nodes[freeHead].nextFree;
        nodes := nodes[index := Fresh(data)];
        free := free[1..];
      } else {
        AllocateAppended(nodes, head, tail, freeHead, count, live, free, data);
        index := |nodes|;
        nodes := nodes + [Fresh(data)];
      }
      count := count + 1;
    }

    /** `remove`: an index outside the arena is ignored; otherwise the slot
        is unlinked from the list and pushed onto the free chain. The source
        does not check that the slot is live; callers must pass a live one. */
    method Remove(index: nat)
      requires Valid() && (index < |nodes| ==> index in live)
      modifies this`nodes, this`head, this`tail, this`freeHead, this`count, this`live, this`free
      ensures Valid() && |nodes| == old(|nodes|)
      ensures index >= |nodes| ==>
        nodes == old(nodes) && head == old(head) && tail == old(tail) && live == old(live) && free == old(free)
      ensures index < |nodes| ==>
        var k := IndexOf(old(live), index);
        live == old(live)[..k] + old(live)[k + 1..] && free == [index] + old(free) &&
        Values() == old(Values())[..k] + old(Values())[k + 1..]
    {
      if index >= |nodes| {
        return;
      }
      RemoveAt(index, IndexOf(live, index));
    }

    /** The body of `remove` for the live slot `index` at position `k`. */
    method RemoveAt(index: nat, ghost k: nat)
      requires Valid() && k < |live| && live[k] == index
      modifies this`nodes, this`head, this`tail, this`freeHead, this`count, this`live, this`free
      ensures Valid() && |nodes| == old(|nodes|)
      ensures live == old(live)[..k] + old(live)[k + 1..] && free == [index] + old(free)
      ensures Values() == old(Values())[..k] + old(Values())[k + 1..]
    {
      RemoveNeighbours(nodes, live, k);
      var arena, newHead, newTail := nodes, head, tail;
      var nextIndex := arena[index].next;
      var prevIndex := arena[index].prev;

      if prevIndex == NONE {
        newHead := nextIndex;
      } else {
        arena := arena[prevIndex := arena[prevIndex].(next := nextIndex)];
      }
      if nextIndex == NONE {
        newTail := prevIndex;
      } else {
        arena := arena[nextIndex := arena[nextIndex].(prev := prevIndex)];
      }
      arena := arena[index := arena[index].(nextFree := freeHead)];

      RemoveCorrect(nodes, arena, head, tail, freeHead, count, live, free, k);
      nodes, head, tail, freeHead, count := arena, newHead, newTail, index, count - 1;
      live, free := live[..k] + live[k + 1..], [index] + free;
    }

    /** The tail-linking code of `push_back` and `emplace_back`: the empty
        case is recognised by `head`. */
    method LinkLast(x: nat)
      requires Pending(x)
      modifies this`nodes, this`head, this`tail, this`live
      ensures Valid() && live == old(live) + [x] && tail == x && |nodes| == old(|nodes|)
      ensures Values() == old(Project(nodes, live)) + [old(nodes[x].data)]
    {
      PendingEnds(nodes, head, tail, freeHead, count, live, free, x);
      var arena, newHead, newTail := nodes, head, tail;
      if newHead == NONE {
        newHead := x;
        newTail := x;
      } else {
        arena := arena[newTail := arena[newTail].(next := x)];
        arena := arena[x := arena[x].(prev := newTail)];
        newTail := x;
      }
      LinkLastCorrect(nodes, arena, head, tail, freeHead, count, live, free, x);
      nodes, head, tail := arena, newHead, newTail;
      live := live + [x];
    }

    /** The tail-linking code of `insert` at `end()`: the empty case is
        recognised by `tail`. */
    method LinkAtEnd(x: nat)
      requires Pending(x)
      modifies this`nodes, this`head, this`tail, this`live
      ensures Valid() && live == old(live) + [x] && tail == x && |nodes| == old(|nodes|)
      ensures Values() == old(Project(nodes, live)) + [old(nodes[x].data)]
    {
      PendingEnds(nodes, head, tail, freeHead, count, live, free, x);
      var arena, newHead := nodes, head;
      if tail != NONE {
        arena := arena[tail := arena[tail].(next := x)];
        arena := arena[x := arena[x].(prev := tail)];
      } else {
        newHead := x;
      }
      LinkLastCorrect(nodes, arena, head, tail, freeHead, count, live, free, x);
      nodes, head, tail := arena, newHead, x;
      live := live + [x];
    }

    /** The linking code of `insert` and `emplace` before a live slot `c`:
        `x` takes over `c`'s predecessor and becomes it. */
    method LinkBefore(x: nat, c: nat, ghost k: nat)
      requires Pending(x) && k < |live| && live[k] == c
      modifies this`nodes, this`head, this`live
      ensures Valid() && |nodes| == old(|nodes|)
      ensures
        live == old(live)[..k] + [x] + old(live)[k..] &&
        Values() == old(Project(nodes, live))[..k] + [old(nodes[x].data)] + old(Project(nodes, live))[k..]
    {
      PendingEnds(nodes, head, tail, freeHead, count, live, free, x);
      BeforeNeighbour(nodes, live, x, k);
      var arena, newHead := nodes, head;
      arena := arena[x := arena[x].(next := c)];
      arena := arena[x := arena[x].(prev := arena[c].prev)];
      if arena[c].prev != NONE {
        arena := arena[arena[c].prev := arena[arena[c].prev].(next := x)];
      } else {
        newHead := x;
      }
      arena := arena[c := arena[c].(prev := x)];
      LinkBeforeCorrect(nodes, arena, head, tail, freeHead, count, live, free, x, k);
      nodes, head := arena, newHead;
      live := live[..k] + [x] + live[k..];
    }

    /** `push_front`: the new value becomes the first. */
    method PushFront(data: T)
      requires Valid() && Room() > 0
      modifies this`nodes, this`head, this`tail, this`freeHead, this`count, this`live, this`free
      ensures Valid() && Values() == [data] + old(Values())
      ensures head == (if old(freeHead) != NONE then old(freeHead) else old(|nodes|))
      ensures live == [head] + old(live)
      ensures free == if old(freeHead) != NONE then old(free)[1..] else old(free)
    {
      var index := AllocateNode(data);
      PendingEnds(nodes, head, tail, freeHead, count, live, free, index);
      var arena, newHead, newTail := nodes, head, tail;
      if newHead != NONE {
        arena := arena[index := arena[index].(next := newHead)];
        arena := arena[newHead := arena[newHead].(prev := index)];
      }
      newHead := index;
      if newTail == NONE {
        newTail := index;
      }
      LinkFirstCorrect(nodes, arena, head, tail, freeHead, count, live, free, index);
      nodes, head, tail := arena, newHead, newTail;
      live := [index] + live;
    }

    /** `push_back`: the new value becomes the last; it goes into the slot
        freed most recently, if there is one. */
    method PushBack(data: T)
      requires Valid() && Room() > 0
      modifies this`nodes, this`head, this`tail, this`freeHead, this`count, this`live, this`free
      ensures Valid() && Values() == old(Values()) + [data]
      ensures tail == (if old(freeHead) != NONE then old(freeHead) else old(|nodes|))
      ensures live == old(live) + [tail]
      ensures free == if old(freeHead) != NONE then old(free)[1..] else old(free)
    {
      var index := AllocateNode(data);
      LinkLast(index);
    }

    /** `emplace_back`: as `push_back`, and gives access to the new slot. */
    method EmplaceBack(data: T) returns (index: nat)
      requires Valid() && Room() > 0
      modifies this`nodes, this`head, this`tail, this`freeHead, this`count, this`live, this`free
      ensures Valid() && Values() == old(Values()) + [data]
      ensures index == tail && index < |nodes| && nodes[index].data == data
      ensures index == (if old(freeHead) != NONE then old(freeHead) else old(|nodes|))
      ensures live == old(live) + [index]
      ensures free == if old(freeHead) != NONE then old(free)[1..] else old(free)
    {
      index := AllocateNode(data);
      LinkLast(index);
      assert nodes[live[|live| - 1]].data == Values()[|live| - 1];
    }

    /** The body of `insert(it, value)`, also the body of the loop of the
        range `insert`: allocate a slot for the value, then link it in before
        the live slot `cur` (at position `k`), or at the back when `cur` is
        `end()`. */
    method InsertAt(cur: nat, data: T, ghost k: nat) returns (x: nat)
      requires Valid() && Room() > 0
      requires if cur == NONE then k == |live| else k < |live| && live[k] == cur
      modifies this`nodes, this`head, this`tail, this`freeHead, this`count, this`live, this`free
      ensures Valid() && Room() == old(Room()) - 1
      ensures live == old(live)[..k] + [x] + old(live)[k..]
      ensures Values() == old(Values())[..k] + [data] + old(Values())[k..]
      ensures x == (if old(freeHead) != NONE then old(freeHead) else old(|nodes|))
      ensures x < |nodes| < NONE
      ensures var f := old(free);
        x == (if f != [] then f[0] else old(|nodes|)) &&
        free == (if f != [] then f[1..] else f) &&
        |nodes| == (if f != [] then old(|nodes|) else old(|nodes|) + 1)
    {
      x := AllocateNode(data);
      if cur != NONE {
        LinkBefore(x, cur, k);
      } else {
        LinkAtEnd(x);
        assert old(live)[..k] == old(live) && old(live)[k..] == [];
      }
    }

    /** `insert(it, value)`: the value goes right before the slot `it`, or at
        the back for `end()`; the result is the new slot. */
    method Insert(it: nat, data: T) returns (r: nat)
      requires Valid() && Room() > 0 && (it == NONE || it in live)
      modifies this`nodes, this`head, this`tail, this`freeHead, this`count, this`live, this`free
      ensures Valid()
      ensures var p := old(Position(it));
        live == old(live)[..p] + [r] + old(live)[p..] &&
        Values() == old(Values())[..p] + [data] + old(Values())[p..]
      ensures r == (if old(freeHead) != NONE then old(freeHead) else old(|nodes|))
      ensures free == if old(freeHead) != NONE then old(free)[1..] else old(free)
    {
      r := InsertAt(it, data, Position(it));
    }

    /** `emplace(pos, value)`: at `end()` it is `insert(end(), value)`;
        otherwise it repeats the code of `insert` before a live slot. */
    method Emplace(pos: nat, data: T) returns (r: nat)
      requires Valid() && Room() > 0 && (pos == NONE || pos in live)
      modifies this`nodes, this`head, this`tail, this`freeHead, this`count, this`live, this`free
      ensures Valid()
      ensures var p := old(Position(pos));
        live == old(live)[..p] + [r] + old(live)[p..] &&
        Values() == old(Values())[..p] + [data] + old(Values())[p..]
      ensures r == (if old(freeHead) != NONE then old(freeHead) else old(|nodes|))
      ensures free == if old(freeHead) != NONE then old(free)[1..] else old(free)
    {
      if pos == NONE {
        r := Insert(NONE, data);
        return;
      }
      r := InsertAt(pos, data, Position(pos));
    }

    /** `insert(pos, first, last)`: each value of `src` is inserted in turn.
        At `end()` they are appended in order. Before a live slot each one
        is linked in before the one inserted just before it, so they land in
        reverse order. The result is the slot of `src[0]`, or NONE when
        `src` is empty. */
    method InsertRange(pos: nat, src: seq<T>) returns (r: nat)
      requires Valid() && |src| <= Room() && (pos == NONE || pos in live)
      modifies this`nodes, this`head, this`tail, this`freeHead, this`count, this`live, this`free
      ensures Valid()
      ensures var p := old(Position(pos));
        var a := Taken(old(free), old(|nodes|), |src|);
        live == old(live)[..p] + (if pos == NONE then a else Reverse(a)) + old(live)[p..] &&
        (src != [] ==> r == a[0])
      ensures var p := old(Position(pos));
        Values() == old(Values())[..p] + (if pos == NONE then src else Reverse(src)) + old(Values())[p..]
      ensures free == FreeAfter(old(free), |src|) && |nodes| == GrownTo(old(free), old(|nodes|), |src|)
      ensures src == [] ==> r == NONE && live == old(live) && nodes == old(nodes) && free == old(free)
    {
      ghost var p := Position(pos);
      ghost var l0, v0, room0, f0, n0 := live, Values(), Room(), free, |nodes|;
      ghost var ins: seq<nat> := [];
      var currentIndex := pos;
      var firstNewIndex := NONE;
      var i := 0;
      InsertingStarts(l0, v0, room0, f0, n0, p, pos, src);
      while i < |src|
        invariant Inserting(l0, v0, room0, f0, n0, p, pos, src, i, ins, currentIndex, firstNewIndex)
        invariant i == 0 ==> nodes == old(nodes)
        decreases |src| - i
      {
        var newIndex;
        newIndex, ins := InsertNext(l0, v0, room0, f0, n0, p, pos, src, i, ins, currentIndex, firstNewIndex);
        if firstNewIndex == NONE {
          firstNewIndex := newIndex;
        }
        if currentIndex != NONE {
          currentIndex := newIndex;
        }
        i := i + 1;
      }
      InsertingEnds(l0, v0, room0, f0, n0, p, pos, src, ins, currentIndex, firstNewIndex);
      InsertingSlots(l0, v0, room0, f0, n0, p, pos, src, ins, currentIndex, firstNewIndex);
      if src == [] {
        assert f0[0..] == f0;
      }
      r := firstNewIndex;
    }

    /** The state of the range `insert` after the first `i` values of `src`
        are inserted, at position `p` of the list `l0`, into the slots `ins`,
        which are the first `i` slots allocation takes from the free chain
        `f0` and the arena of `n0` slots; `cur` is where the next one goes
        and `firstNew` the result so far. Stated behind `Sealed`, so that
        only the members below unfold it. */
    ghost predicate Inserting(l0: seq<nat>, v0: seq<T>, room0: int, f0: seq<nat>, n0: nat, p: nat, pos: nat,
                              src: seq<T>, i: nat, ins: seq<nat>, cur: nat, firstNew: nat)
      reads this
    {
      i <= |src| && p <= |l0| && |v0| == |l0| &&
      forall k: nat {:trigger Sealed(k, i)} :: Sealed(k, i) ==>
        InsertingAt(l0, v0, room0, f0, n0, p, pos, src, k, ins, cur, firstNew)
    }

    /** What `Inserting` says, unfolded. */
    ghost predicate InsertingAt(l0: seq<nat>, v0: seq<T>, room0: int, f0: seq<nat>, n0: nat, p: nat, pos: nat,
                                src: seq<T>, i: nat, ins: seq<nat>, cur: nat, firstNew: nat)
      reads this
    {
      Valid() && i <= |src| && |ins| == i && Room() == room0 - i && |src| <= room0 &&
      p <= |l0| && |v0| == |l0| &&
      live == l0[..p] + ins + l0[p..] &&
      Values() == v0[..p] + (if pos == NONE then src[..i] else Reverse(src[..i])) + v0[p..] &&
      (pos == NONE ==> cur == NONE && p == |l0|) &&
      (pos != NONE ==> p < |live| && cur == live[p]) &&
      (i == 0 <==> firstNew == NONE) &&
      (i > 0 ==> firstNew == ins[if pos == NONE then 0 else i - 1]) &&
      ins == (if pos == NONE then Taken(f0, n0, i) else Reverse(Taken(f0, n0, i))) &&
      free == FreeAfter(f0, i) && |nodes| == GrownTo(f0, n0, i)
    }

    lemma InsertingStarts(l0: seq<nat>, v0: seq<T>, room0: int, f0: seq<nat>, n0: nat, p: nat, pos: nat, src: seq<T>)
      requires Valid() && l0 == live && v0 == Values() && room0 == Room() && |src| <= room0
      requires f0 == free && n0 == |nodes|
      requires pos == NONE ==> p == |live|
      requires pos != NONE ==> p < |live| && live[p] == pos
      ensures Inserting(l0, v0, room0, f0, n0, p, pos, src, 0, [], pos, NONE)
    {
      assert f0[0..] == f0;
      assert src[..0] == [] && Reverse(src[..0]) == [];
      assert l0 == l0[..p] + [] + l0[p..];
      assert v0 == v0[..p] + [] + v0[p..];
    }

    /** One turn of the loop of the range `insert`: the value `src[i]` goes
        in before `cur`, or at the back. */
    method InsertNext(ghost l0: seq<nat>, ghost v0: seq<T>, ghost room0: int, ghost f0: seq<nat>, ghost n0: nat,
                      ghost p: nat, pos: nat, src: seq<T>, i: nat,
                      ghost ins: seq<nat>, cur: nat, firstNew: nat) returns (x: nat, ghost ins': seq<nat>)
      requires Inserting(l0, v0, room0, f0, n0, p, pos, src, i, ins, cur, firstNew) && i < |src|
      modifies this`nodes, this`head, this`tail, this`freeHead, this`count, this`live, this`free
      ensures Inserting(l0, v0, room0, f0, n0, p, pos, src, i + 1, ins', if cur != NONE then x else cur,
                        if firstNew == NONE then x else firstNew)
    {
      assert Sealed(i, i);
      ghost var lb := live;
      ghost var k := if pos == NONE then |live| else p;
      x := InsertAt(cur, src[i], k);
      TakeOneMore(src, i);
      SpliceStep(l0[..p], ins, l0[p..], x, k, pos != NONE);
      SpliceStep(v0[..p], if pos == NONE then src[..i] else Reverse(src[..i]), v0[p..], src[i], k, pos != NONE);
      ins' := if pos != NONE then [x] + ins else ins + [x];
      TakenStep(f0, n0, i);
      ReverseSnoc(Taken(f0, n0, i), x);
    }

    lemma InsertingEnds(l0: seq<nat>, v0: seq<T>, room0: int, f0: seq<nat>, n0: nat, p: nat, pos: nat,
                        src: seq<T>, ins: seq<nat>, cur: nat, firstNew: nat)
      requires Inserting(l0, v0, room0, f0, n0, p, pos, src, |src|, ins, cur, firstNew)
      ensures Valid() && |ins| == |src| && live == l0[..p] + ins + l0[p..]
      ensures Values() == v0[..p] + (if pos == NONE then src else Reverse(src)) + v0[p..]
      ensures src != [] ==> firstNew == ins[if pos == NONE then 0 else |src| - 1]
      ensures src == [] ==> firstNew == NONE && live == l0
    {
      assert Sealed(|src|, |src|);
      assert src[..|src|] == src;
      if src == [] {
        assert l0 == l0[..p] + [] + l0[p..];
      }
    }

    /** At the end of the range `insert`, the new slots are the ones
        allocation takes, in that order at `end()` and reversed before a
        live slot, and the free chain and the arena are what is left. */
    lemma InsertingSlots(l0: seq<nat>, v0: seq<T>, room0: int, f0: seq<nat>, n0: nat, p: nat, pos: nat,
                         src: seq<T>, ins: seq<nat>, cur: nat, firstNew: nat)
      requires Inserting(l0, v0, room0, f0, n0, p, pos, src, |src|, ins, cur, firstNew)
      ensures ins == (if pos == NONE then Taken(f0, n0, |src|) else Reverse(Taken(f0, n0, |src|)))
      ensures free == FreeAfter(f0, |src|) && |nodes| == GrownTo(f0, n0, |src|)
    {
      assert Sealed(|src|, |src|);
    }

    /** `erase(pos)`: the successor of `pos` is read first, then `pos` is
        removed; the result is that successor, `end()` after the last. */
    method Erase(pos: nat) returns (next: nat)
      requires Valid() && pos in live
      modifies this`nodes, this`head, this`tail, this`freeHead, this`count, this`live, this`free
      ensures Valid()
      ensures var k := old(Position(pos));
        live == old(live)[..k] + old(live)[k + 1..] &&
        Values() == old(Values())[..k] + old(Values())[k + 1..] &&
        free == [pos] + old(free) &&
        next == (if k < |live| then live[k] else NONE)
    {
      next := EraseAt(pos, Position(pos));
    }

    /** The body of `erase(pos)`, also the body of the loop of the range
        `erase`, for the slot `pos` at position `k`. */
    method EraseAt(pos: nat, ghost k: nat) returns (next: nat)
      requires Valid() && k < |live| && live[k] == pos
      modifies this`nodes, this`head, this`tail, this`freeHead, this`count, this`live, this`free
      ensures Valid()
      ensures live == old(live)[..k] + old(live)[k + 1..]
      ensures Values() == old(Values())[..k] + old(Values())[k + 1..]
      ensures free == [pos] + old(free)
      ensures next == (if k < |live| then live[k] else NONE)
    {
      assert At(nodes, live, k).next == NextOf(live, k);
      next := nodes[pos].next;
      RemoveAt(pos, k);
    }

    /** `erase(first, last)`: erases one slot at a time until `first` meets
        `last`; the result is `last`. The freed slots are pushed onto the
        free chain one by one, so they end up on it in reverse order. */
    method EraseRange(first: nat, last: nat) returns (r: nat)
      requires Valid() && (first == NONE || first in live) && (last == NONE || last in live)
      requires Position(first) <= Position(last)
      modifies this`nodes, this`head, this`tail, this`freeHead, this`count, this`live, this`free
      ensures Valid() && r == last
      ensures var i := old(Position(first));
        var j := old(Position(last));
        live == old(live)[..i] + old(live)[j..] &&
        Values() == old(Values())[..i] + old(Values())[j..] &&
        free == Reverse(old(live)[i..j]) + old(free)
    {
      ghost var i := Position(first);
      ghost var j := Position(last);
      ghost var l0 := live;
      ghost var v0 := Values();
      ghost var f0 := free;
      ghost var m := i;
      var it := first;
      ErasingStarts(l0, v0, f0, i, j, it, last);
      while it != last
        invariant Erasing(l0, v0, f0, i, j, m, it, last)
        decreases j - m
      {
        it := EraseNext(l0, v0, f0, i, j, m, it, last);
        m := m + 1;
      }
      ErasingEnds(l0, v0, f0, i, j, m, it, last);
      r := last;
    }

    /** The state of the range `erase` after the slots at positions `i` to
        `m - 1` of the list `l0` are erased; `it` is the next to erase.
        Stated behind `Sealed`, so that only the members below unfold it. */
    ghost predicate Erasing(l0: seq<nat>, v0: seq<T>, f0: seq<nat>, i: nat, j: nat, m: nat, it: nat, last: nat)
      reads this
    {
      i <= m <= j <= |l0| && |v0| == |l0| &&
      forall k: nat {:trigger Sealed(k, m)} :: Sealed(k, m) ==> ErasingAt(l0, v0, f0, i, j, k, it, last)
    }

    /** What `Erasing` says, unfolded. */
    ghost predicate ErasingAt(l0: seq<nat>, v0: seq<T>, f0: seq<nat>, i: nat, j: nat, m: nat, it: nat, last: nat)
      reads this
    {
      Valid() && Distinct(l0) && InBounds(l0, NONE) && i <= m <= j <= |l0| && |v0| == |l0| &&
      last == (if j < |l0| then l0[j] else NONE) &&
      live == l0[..i] + l0[m..] && Values() == v0[..i] + v0[m..] &&
      free == Reverse(l0[i..m]) + f0 &&
      it == (if m < |l0| then l0[m] else NONE)
    }

    lemma ErasingStarts(l0: seq<nat>, v0: seq<T>, f0: seq<nat>, i: nat, j: nat, first: nat, last: nat)
      requires Valid() && i <= j <= |live| && l0 == live && v0 == Values() && f0 == free
      requires first == (if i < |live| then live[i] else NONE)
      requires last == (if j < |live| then live[j] else NONE)
      ensures Erasing(l0, v0, f0, i, j, i, first, last)
    {
      assert l0 == l0[..i] + l0[i..] && v0 == v0[..i] + v0[i..];
      assert l0[i..i] == [] && Reverse<nat>([]) == [];
    }

    /** One turn of the loop of the range `erase`. */
    method EraseNext(ghost l0: seq<nat>, ghost v0: seq<T>, ghost f0: seq<nat>, ghost i: nat, ghost j: nat, ghost m: nat,
      it: nat, last: nat) returns (next: nat)
      requires Erasing(l0, v0, f0, i, j, m, it, last) && it != last
      modifies this`nodes, this`head, this`tail, this`freeHead, this`count, this`live, this`free
      ensures m < j && Erasing(l0, v0, f0, i, j, m + 1, next, last)
    {
      assert Sealed(m, m);
      ErasingStep(l0, v0, f0, i, j, m, last);
      next := EraseAt(it, i);
    }

    lemma ErasingEnds(l0: seq<nat>, v0: seq<T>, f0: seq<nat>, i: nat, j: nat, m: nat, it: nat, last: nat)
      requires Erasing(l0, v0, f0, i, j, m, it, last) && it == last
      ensures Valid()
      ensures live == l0[..i] + l0[j..] && Values() == v0[..i] + v0[j..] && free == Reverse(l0[i..j]) + f0
    {
      assert Sealed(m, m);
      if m < j && j < |l0| {
        DistinctAt(l0, m, j);
      }
    }

    /** `insert(it, v)` followed by `erase` of the iterator it returns: the
        list is as before, and `erase` hands back `it`. */
    method InsertThenErase(it: nat, data: T) returns (next: nat)
      requires Valid() && Room() > 0 && (it == NONE || it in live)
      modifies this`nodes, this`head, this`tail, this`freeHead, this`count, this`live, this`free
      ensures Valid() && live == old(live) && Values() == old(Values()) && next == it
    {
      ghost var p := Position(it);
      ghost var l0, v0 := live, Values();
      var r := Insert(it, data);
      SpliceDrop(l0, p, r);
      SpliceDrop(v0, p, data);
      DistinctIndexOf(live, p);
      next := Erase(r);
    }

    /** `erase(pos)` followed by `push_back(v)`: the new value goes into the
        slot `pos` that the erase freed. */
    method EraseThenPushBack(pos: nat, data: T)
      requires Valid() && pos in live
      modifies this`nodes, this`head, this`tail, this`freeHead, this`count, this`live, this`free
      ensures Valid() && tail == pos
      ensures var k := old(Position(pos));
        Values() == old(Values())[..k] + old(Values())[k + 1..] + [data]
    {
      var next := Erase(pos);
      PushBack(data);
    }

    /** `find`: the first slot from the front holding `v`, or `end()`. */
    method Find(v: T) returns (it: nat)
      requires Valid()
      ensures it == NONE <==> v !in Values()
      ensures it != NONE ==> it in live && nodes[it].data == v && v !in Values()[..IndexOf(live, it)]
    {
      ghost var m := 0;
      it := head;
      while it != NONE
        invariant m <= |live| && it == (if m < |live| then live[m] else NONE)
        invariant v !in Values()[..m]
        decreases |live| - m
      {
        assert At(nodes, live, m).next == NextOf(live, m);
        if nodes[it].data == v {
          assert Values()[m] == v;
          DistinctIndexOf(live, m);
          return;
        }
        assert Values()[..m + 1] == Values()[..m] + [nodes[it].data];
        m := m + 1;
        it := nodes[it].next;
      }
      assert Values()[..m] == Values();
    }

    /** `pop_front`: removes the first value; nothing on an empty list. */
    method PopFront()
      requires Valid()
      modifies this`nodes, this`head, this`tail, this`freeHead, this`count, this`live, this`free
      ensures Valid()
      ensures Values() == if old(Values()) == [] then [] else old(Values())[1..]
      ensures old(live) == [] ==>
        nodes == old(nodes) && head == old(head) && tail == old(tail) && live == old(live) && free == old(free)
      ensures old(live) != [] ==> live == old(live)[1..] && free == [old(head)] + old(free)
    {
      if head == NONE {
        return;
      }
      Remove(head);
    }

    /** `pop_back`: removes the last value; nothing on an empty list. */
    method PopBack()
      requires Valid()
      modifies this`nodes, this`head, this`tail, this`freeHead, this`count, this`live, this`free
      ensures Valid()
      ensures Values() == if old(Values()) == [] then [] else old(Values())[..|old(Values())| - 1]
      ensures old(live) == [] ==>
        nodes == old(nodes) && head == old(head) && tail == old(tail) && live == old(live) && free == old(free)
      ensures old(live) != [] ==> live == old(live)[..|old(live)| - 1] && free == [old(tail)] + old(free)
    {
      if tail == NONE {
        return;
      }
      EndsOfChains(nodes, head, tail, freeHead, count, live, free);
      DistinctIndexOf(live, |live| - 1);
      Remove(tail);
    }

    /** `clear`: every index field back to SIZE_MAX and an empty arena. */
    method Clear()
      modifies this`nodes, this`head, this`tail, this`freeHead, this`count, this`live, this`free
      ensures Valid() && Values() == [] && nodes == [] && free == []
    {
      head := NONE;
      tail := NONE;
      freeHead := NONE;
      count := 0;
      nodes := [];
      live := [];
      free := [];
    }

    /** `empty`: both ends are SIZE_MAX. */
    function Empty(): (r: bool)
      reads this
      requires Valid()
      ensures r <==> Values() == []
    {
      head == NONE && tail == NONE
    }

    /** `size`: the counter kept by every operation. */
    function Size(): (r: nat)
      reads this
      requires Valid()
      ensures r == |Values()|
    {
      count
    }

    /** `front`: the value in the `head` slot. */
    function Front(): (r: T)
      reads this
      requires Valid() && live != []
      ensures r == Values()[0]
    {
      nodes[head].data
    }

    /** `back`: the value in the `tail` slot. */
    function Back(): (r: T)
      reads this
      requires Valid() && live != []
      ensures r == Values()[|Values()| - 1]
    {
      nodes[tail].data
    }

    /** `begin`: the `head` slot, which is `end()` on an empty list. */
    function Begin(): (r: nat)
      reads this
      requires Valid()
      ensures r == NONE <==> Values() == []
      ensures r != NONE ==> r in live && Position(r) == 0
    {
      head
    }

    /** `operator*`: the value in the iterator's slot. */
    function Get(it: nat): (r: T)
      reads this
      requires Valid() && it in live
      ensures r == Values()[Position(it)]
    {
      nodes[it].data
    }

    /** `operator++`: follows `next`; from the last slot it reaches `end()`. */
    function Succ(it: nat): (r: nat)
      reads this
      requires Valid() && it in live
      ensures r == NONE || r in live
      ensures Position(r) == Position(it) + 1
    {
      LinksAt(Position(it));
      nodes[it].next
    }

    /** `operator--`: from `end()` it goes to `tail`, otherwise follows
        `prev`; from the first slot it reaches SIZE_MAX, that is `end()`. */
    function Pred(it: nat): (r: nat)
      reads this
      requires Valid() && (it == NONE || it in live)
      ensures r == NONE || r in live
      ensures Position(it) > 0 ==> Position(r) == Position(it) - 1
      ensures Position(it) == 0 ==> r == NONE
    {
      if it == NONE then
        EndsOfChains(nodes, head, tail, freeHead, count, live, free);
        if tail != NONE then LinksAt(|live| - 1); tail else tail
      else
        LinksAt(Position(it));
        nodes[it].prev
    }

    /** The value each slot of the arena holds, slot by slot. */
    ghost function Data(): (vals: seq<T>)
      reads this
      ensures Holds(nodes, vals)
    {
      var n := nodes;
      seq(|n|, x requires 0 <= x < |n| => n[x].data)
    }

    /** `mergeIterative`: merges the chains `ls` and `rs` that start at
        `left` and `right` into the order `Merged` describes, relinking their
        slots, and returns the first slot; `tailOut` gets the last one. When
        one chain is empty the other is returned as it is and `tailOut` is
        left alone. The `size_t*` named `current` is kept as the slot whose
        `next` it points at, NONE while it points at `dummy_head`. */
    method MergeRuns(left: nat, right: nat, tailIn: nat, comp: (T, T) -> bool,
                     ghost ls: seq<nat>, ghost rs: seq<nat>, ghost vals: seq<T>)
      returns (merged: nat, tailOut: nat)
      requires MergeInput(nodes, ls, rs, vals) && left == First(ls) && right == First(rs)
      modifies this`nodes
      ensures RelinkedWithin(old(nodes), nodes, ls + rs)
      ensures ForwardLinked(nodes, Merged(ls, rs, vals, comp))
      ensures merged == First(Merged(ls, rs, vals, comp))
      ensures ls != [] && rs != [] ==>
        Linked(nodes, Merged(ls, rs, vals, comp)) && tailOut == Last(Merged(ls, rs, vals, comp))
      ensures ls == [] || rs == [] ==> nodes == old(nodes) && tailOut == tailIn
    {
      assert ls != [] ==> At(nodes, ls, 0).next == NextOf(ls, 0);
      assert rs != [] ==> At(nodes, rs, 0).next == NextOf(rs, 0);
      if left == NONE {
        return right, tailIn;
      }
      if right == NONE {
        return left, tailIn;
      }
      ghost var n0 := nodes;
      var dummyHead := NONE;
      var current := NONE;
      var leftPtr := left;
      var rightPtr := right;
      ghost var a, b, out := 0, 0, [];
      MergingStarts(nodes, ls, rs, vals, comp);
      while leftPtr != NONE && rightPtr != NONE
        invariant Merging(n0, nodes, ls, rs, vals, comp, a, b, out, leftPtr, rightPtr, current, dummyHead)
        decreases |ls| + |rs| - a - b
      {
        MergeTake(n0, nodes, ls, rs, vals, comp, a, b, out, leftPtr, rightPtr, current, dummyHead,
                  comp(nodes[leftPtr].data, nodes[rightPtr].data));
        if comp(nodes[leftPtr].data, nodes[rightPtr].data) {
          if current == NONE {
            dummyHead := leftPtr;
          } else {
            nodes := nodes[current := nodes[current].(next := leftPtr)];
          }
          current := leftPtr;
          leftPtr := nodes[leftPtr].next;
          a := a + 1;
        } else {
          if current == NONE {
            dummyHead := rightPtr;
          } else {
            nodes := nodes[current := nodes[current].(next := rightPtr)];
          }
          current := rightPtr;
          rightPtr := nodes[rightPtr].next;
          b := b + 1;
        }
        out := out + [current];
      }

      MergeAttach(n0, nodes, ls, rs, vals, comp, a, b, out, leftPtr, rightPtr, current, dummyHead);
      nodes := nodes[current := nodes[current].(next := if leftPtr != NONE then leftPtr else rightPtr)];

      tailOut := FixLinks(dummyHead, n0, ls + rs, Merged(ls, rs, vals, comp));
      merged := dummyHead;
    }

    /** The second loop of `mergeIterative`: walks the merged chain `ms`
        from `first` along `next`, setting each slot's `prev` to the slot
        visited before it, and returns the last slot. */
    method FixLinks(first: nat, ghost n0: seq<Node<T>>, ghost r: seq<nat>, ghost ms: seq<nat>)
      returns (last: nat)
      requires Fixing(n0, nodes, r, ms, 0, NONE, first)
      modifies this`nodes
      ensures Linked(nodes, ms) && last == Last(ms) && RelinkedWithin(n0, nodes, r)
    {
      var prev := NONE;
      var curr := first;
      ghost var i := 0;
      while curr != NONE
        invariant Fixing(n0, nodes, r, ms, i, prev, curr)
        decreases |ms| - i
      {
        FixStep(n0, nodes, r, ms, i, prev, curr);
        nodes := nodes[curr := nodes[curr].(prev := prev)];
        prev := curr;
        curr := nodes[curr].next;
        i := i + 1;
      }
      FixEnds(n0, nodes, r, ms, i, prev);
      last := prev;
    }

    /** Extracting a sublist in `bottomUpMergeSortRange`: from `h`, the first
        slot of the chain `t`, follow at most `w - 1` links to the sublist's
        last slot; the slot after it is returned as `remaining`, and when
        there is one the chain is cut there. */
    method SplitRun(h: nat, w: nat, ghost t: seq<nat>) returns (runTail: nat, remaining: nat)
      requires |nodes| < NONE && Linked(nodes, t) && Distinct(t) && t != [] && h == t[0] && w >= 1
      modifies this`nodes
      ensures var n := RunLength(|t|, w);
        runTail == t[n - 1] && remaining == First(t[n..]) &&
        Linked(nodes, t[..n]) && Linked(nodes, t[n..]) && RelinkedWithin(old(nodes), nodes, t)
    ensures remaining == NONE <==> |t| <= w
    {
      runTail := h;
      var i := 1;
      while i < w && nodes[runTail].next != NONE
        invariant 1 <= i <= |t| && i <= w && runTail == t[i - 1]
        decreases w - i
      {
        assert At(nodes, t, i - 1).next == NextOf(t, i - 1);
        runTail := nodes[runTail].next;
        i := i + 1;
      }
      assert At(nodes, t, i - 1).next == NextOf(t, i - 1);
      CutRun(nodes, t, i);
      remaining := nodes[runTail].next;
      if remaining != NONE {
        nodes := nodes[runTail := nodes[runTail].(next := NONE)];
        nodes := nodes[remaining := nodes[remaining].(prev := NONE)];
      }
    }

    /** Appending a sublist to the result of a pass in
        `bottomUpMergeSortRange`: the chain `b` (first slot `h`, last slot
        `tl`) becomes the result when nothing has been merged yet, and is
        linked after `curTail` otherwise. */
    method AppendChain(curHead: nat, curTail: nat, h: nat, tl: nat, ghost out: seq<nat>, ghost b: seq<nat>)
      returns (newHead: nat, newTail: nat)
      requires (curHead == NONE) == (out == []) && curTail == Last(out)
      requires b != [] && h == b[0] && tl == Last(b)
      requires out != [] ==> Last(out) < |nodes| && b[0] < |nodes|
      modifies this`nodes
      ensures nodes == Appended(old(nodes), out, b)
      ensures newHead == (if out == [] then b[0] else curHead) && newTail == Last(b)
    {
      if curHead == NONE {
        newHead := h;
      } else {
        nodes := nodes[curTail := nodes[curTail].(next := h)];
        nodes := nodes[h := nodes[h].(prev := curTail)];
        newHead := curHead;
      }
      newTail := tl;
    }

    /** A turn of a pass of `bottomUpMergeSortRange` that found at most `w`
        slots left: they form the last sublist, cut off already, which is
        appended to the chain built so far unmerged. */
    method LoneTurn(list1Head: nat, list1Tail: nat, curHead: nat, curTail: nat, w: nat,
                    comp: (T, T) -> bool, ghost n0: seq<Node<T>>, ghost na: seq<Node<T>>,
                    ghost s: seq<nat>, ghost vals: seq<T>, ghost pos: nat, ghost out: seq<nat>)
      returns (newHead: nat, newTail: nat)
      requires pos < |s| && |s| - pos <= w
      requires Passing(n0, na, s, w, vals, comp, pos, out, curHead, curTail, First(s[pos..]))
      requires var t := s[pos..]; var n := RunLength(|t|, w);
        Linked(nodes, t[..n]) && RelinkedWithin(na, nodes, t) && list1Head == t[0] && list1Tail == t[n - 1]
      modifies this`nodes
      ensures Passing(n0, nodes, s, w, vals, comp, |s|, out + s[pos..], newHead, newTail, NONE)
    {
      PassLone(n0, na, nodes, s, w, vals, comp, pos, out, curHead, curTail);
      newHead, newTail := AppendChain(curHead, curTail, list1Head, list1Tail, out, s[pos..]);
    }

    /** A turn of a pass of `bottomUpMergeSortRange` that found more than
        `w` slots left: the first sublist `s[pos..pos + w]` is already cut
        off; the second is cut off, the two are merged and the result is
        appended to the chain built so far. Returns the new first and last
        slots of that chain and the first slot of what is left. */
    method MergeTurn(list1Head: nat, list2Head: nat, curHead: nat, curTail: nat, w: nat,
                     comp: (T, T) -> bool, ghost n0: seq<Node<T>>, ghost na: seq<Node<T>>,
                     ghost s: seq<nat>, ghost vals: seq<T>, ghost pos: nat, ghost out: seq<nat>)
      returns (newHead: nat, newTail: nat, remaining: nat)
      requires pos + w < |s|
      requires Passing(n0, na, s, w, vals, comp, pos, out, curHead, curTail, First(s[pos..]))
      requires Linked(nodes, s[pos..][..w]) && Linked(nodes, s[pos..][w..]) && RelinkedWithin(na, nodes, s[pos..])
      requires list1Head == s[pos..][0] && list2Head == s[pos..][w..][0]
      modifies this`nodes
      ensures var e := PairEnd(|s|, pos, w);
        Passing(n0, nodes, s, w, vals, comp, e, out + Merged(s[pos..pos + w], s[pos + w..e], vals, comp),
                newHead, newTail, remaining)
    {
      ghost var t := s[pos..];
      ghost var nb := nodes;
      ghost var e := PairEnd(|s|, pos, w);
      PairSlices(s, pos, w);
      PassTurn(n0, na, s, w, vals, comp, pos, out, curHead, curTail, First(s[pos..]));
      DistinctSuffix(t, w);
      var list2Tail;
      list2Tail, remaining := SplitRun(list2Head, w, t[w..]);
      PassPairReady(n0, na, nb, nodes, s, w, vals, comp, pos, out, curHead, curTail);

      ghost var nc := nodes;
      ghost var ms := Merged(s[pos..pos + w], s[pos + w..e], vals, comp);
      var mergedHead, mergedTail := MergeRuns(list1Head, list2Head, NONE, comp,
                                              s[pos..pos + w], s[pos + w..e], vals);
      PassPairDone(n0, nc, nodes, s, w, vals, comp, pos, out, curHead, curTail);
      newHead, newTail := AppendChain(curHead, curTail, mergedHead, mergedTail, out, ms);
    }

    /** One turn of a pass of `bottomUpMergeSortRange`: the sublist that
        starts at `remaining` is cut off and, when another one follows, that
        one too, and both are merged. Moves the pass from position `pos` of
        `s` to `pos'`. */
    method PassStep(remaining: nat, curHead: nat, curTail: nat, w: nat, comp: (T, T) -> bool,
                    ghost n0: seq<Node<T>>, ghost s: seq<nat>, ghost vals: seq<T>,
                    ghost pos: nat, ghost out: seq<nat>)
      returns (newHead: nat, newTail: nat, rest: nat, ghost pos': nat, ghost out': seq<nat>)
      requires Passing(n0, nodes, s, w, vals, comp, pos, out, curHead, curTail, remaining)
      requires remaining != NONE
      modifies this`nodes
      ensures Passing(n0, nodes, s, w, vals, comp, pos', out', newHead, newTail, rest)
      ensures pos < pos'
    {
      PassTurn(n0, nodes, s, w, vals, comp, pos, out, curHead, curTail, remaining);
      ghost var t := s[pos..];
      ghost var na := nodes;
      var list1Head := remaining;
      var list1Tail;
      list1Tail, rest := SplitRun(list1Head, w, t);
      if rest == NONE {
        newHead, newTail := LoneTurn(list1Head, list1Tail, curHead, curTail, w, comp,
                                     n0, na, s, vals, pos, out);
        pos', out' := |s|, out + t;
      } else {
        assert t[..RunLength(|t|, w)] == t[..w];
        newHead, newTail, rest := MergeTurn(list1Head, rest, curHead, curTail, w, comp,
                                            n0, na, s, vals, pos, out);
        pos' := PairEnd(|s|, pos, w);
        out' := out + Merged(s[pos..pos + w], s[pos + w..pos'], vals, comp);
      }
    }

    /** One pass of the outer loop of `bottomUpMergeSortRange` over the
        chain `s` that starts at `start`: sublists of `w` slots are extracted
        in pairs and merged, and each result is appended to the chain built
        so far; a lone last sublist is appended as it is. Returns the first
        and last slots of the new chain (`current_head`, `current_tail`). */
    method SortPass(start: nat, w: nat, comp: (T, T) -> bool, ghost s: seq<nat>, ghost vals: seq<T>)
      returns (curHead: nat, curTail: nat)
      requires |nodes| < NONE && Holds(nodes, vals) && Linked(nodes, s) && Distinct(s) && w >= 1
      requires start == First(s)
      modifies this`nodes
      ensures Linked(nodes, MergePass(s, w, vals, comp)) && RelinkedWithin(old(nodes), nodes, s)
      ensures curHead == First(MergePass(s, w, vals, comp)) && curTail == Last(MergePass(s, w, vals, comp))
    {
      curHead := NONE;
      curTail := NONE;
      var remaining := start;
      ghost var n0 := nodes;
      ghost var pos, out := 0, [];
      PassStarts(nodes, s, w, vals, comp);
      while remaining != NONE
        invariant Passing(n0, nodes, s, w, vals, comp, pos, out, curHead, curTail, remaining)
        decreases |s| - pos
      {
        curHead, curTail, remaining, pos, out :=
          PassStep(remaining, curHead, curTail, w, comp, n0, s, vals, pos, out);
      }
      PassEnds(n0, nodes, s, w, vals, comp, pos, out, curHead, curTail);
    }

    /** `bottomUpMergeSortRange`: sorts the part of the list from `startIdx`
        to `endIdx` (to the end when `endIdx` is SIZE_MAX) by relinking its
        slots: the range is cut out of the list, sorted by passes of doubling
        width, and linked back in. Callers must not name an `endIdx` that
        comes before `startIdx`. */
    method SortRange(startIdx: nat, endIdx: nat, comp: (T, T) -> bool)
      requires Valid()
      requires startIdx == NONE || startIdx in live
      requires endIdx == NONE || endIdx in live
      requires startIdx != NONE && endIdx != NONE ==> Position(startIdx) <= Position(endIdx)
      modifies this`nodes, this`head, this`tail, this`live
      ensures Valid() && Data() == old(Data())
      ensures startIdx == NONE ==> live == old(live)
      ensures startIdx != NONE ==>
        var i := old(Position(startIdx));
        var j := if endIdx == NONE then |old(live)| else old(Position(endIdx)) + 1;
        |live| == |old(live)| && live == old(live)[..i] + live[i..j] + old(live)[j..] &&
        SortsTo(old(live)[i..j], old(Data()), comp, live[i..j])
    {
      if Empty() || startIdx == NONE || (startIdx == endIdx && endIdx != NONE) {
        if startIdx != NONE {
          OneSlotSorted(Position(startIdx), comp);
        }
        return;
      }

      var end := if endIdx == NONE then tail else endIdx;
      TailAt();
      SortSpan(startIdx, end, comp, Position(startIdx), Position(end) + 1);
    }

    /** A range of one slot is already in the order the sort gives. */
    lemma OneSlotSorted(i: nat, comp: (T, T) -> bool)
      requires Valid() && i < |live|
      ensures live == live[..i] + live[i..i + 1] + live[i + 1..]
      ensures SortsTo(live[i..i + 1], Data(), comp, live[i..i + 1])
    {
      SortsToShort(live[i..i + 1], Data(), comp);
      assert live == live[..i] + live[i..i + 1] + live[i + 1..];
    }

    /** `tail` is the last slot of a non-empty list. */
    lemma TailAt()
      requires Valid() && live != []
      ensures tail == live[|live| - 1] && Position(tail) == |live| - 1
    {
      LinksAt(|live| - 1);
    }

    /** The work of `bottomUpMergeSortRange` once the range is known to hold
        at least two slots: `live[i..j]`, from `start` to `end`, is cut out,
        sorted and linked back in. */
    method SortSpan(start: nat, end: nat, comp: (T, T) -> bool, ghost i: nat, ghost j: nat)
      requires Valid() && i < j <= |live| && start == live[i] && end == live[j - 1]
      modifies this`nodes, this`head, this`tail, this`live
      ensures Valid() && Data() == old(Data())
      ensures |live| == |old(live)| && live == old(live)[..i] + live[i..j] + old(live)[j..]
      ensures SortsTo(old(live)[i..j], old(Data()), comp, live[i..j])
    {
      ghost var n0, vals := nodes, Data();
      var beforeRange, afterRange, newStart, newEnd, t := CutAndSort(start, end, comp, i, j);
      LinkBack(beforeRange, afterRange, newStart, newEnd, comp, n0, vals, i, j, t);
      HoldsUnique(nodes, Data(), vals);
    }

    /** Reconnecting the sorted range `t` in place of `live[i..j]`, which
        was cut out of the arena `n0` and sorted, and updating `live`. */
    method LinkBack(beforeRange: nat, afterRange: nat, newStart: nat, newEnd: nat, comp: (T, T) -> bool,
                    ghost n0: seq<Node<T>>, ghost vals: seq<T>, ghost i: nat, ghost j: nat, ghost t: seq<nat>)
      requires SortedCut(n0, head, tail, freeHead, count, live, free, i, j, nodes, t, vals, comp)
      requires i < j && beforeRange == PrevOf(live, i) && afterRange == NextOf(live, j - 1)
      requires newStart == First(t) && newEnd == Last(t)
      modifies this`nodes, this`head, this`tail, this`live
      ensures Valid() && Holds(nodes, vals) && i < j <= |old(live)| && InBounds(old(live), |vals|)
      ensures SortedWithin(old(live), live, i, j, vals, comp)
    {
      SortedCutEnds(n0, head, tail, freeHead, count, live, free, i, j, nodes, t, vals, comp);
      Reconnect(beforeRange, afterRange, newStart, newEnd);
      live := live[..i] + t + live[j..];
    }

    /** Disconnecting, counting and sorting the range `live[i..j]` in
        `bottomUpMergeSortRange`. Returns the slots around the range and the
        first and last slots of the sorted range, which is still cut out. */
    method CutAndSort(start: nat, end: nat, comp: (T, T) -> bool, ghost i: nat, ghost j: nat)
      returns (beforeRange: nat, afterRange: nat, newStart: nat, newEnd: nat, ghost t: seq<nat>)
      requires Valid() && i < j <= |live| && start == live[i] && end == live[j - 1]
      modifies this`nodes
      ensures beforeRange == PrevOf(live, i) && afterRange == NextOf(live, j - 1)
      ensures newStart == First(t) && newEnd == Last(t)
      ensures SortedCut(old(nodes), head, tail, freeHead, count, live, free, i, j, nodes, t, old(Data()), comp)
    {
      ghost var n0, vals := nodes, Data();
      ghost var mid := live[i..j];
      beforeRange, afterRange := Disconnect(start, end, i, j);
      HoldsKept(n0, nodes, live, vals);
      var rangeSize := CountRange(start, end, mid);
      newStart, newEnd, t := SortChain(start, end, rangeSize, comp, mid, vals);
      SortedCutIntro(n0, head, tail, freeHead, count, live, free, i, j, nodes, t, vals, comp);
    }

    /** Reconnecting the sorted range in `bottomUpMergeSortRange`: `start`
        goes after `beforeRange`, or becomes `head` when there is none, and
        `end` goes before `afterRange`, or becomes `tail`. */
    method Reconnect(beforeRange: nat, afterRange: nat, start: nat, end: nat)
      requires start < |nodes| && end < |nodes|
      requires beforeRange != NONE ==> beforeRange < |nodes|
      requires afterRange != NONE ==> afterRange < |nodes|
      modifies this`nodes, this`head, this`tail
      ensures nodes == Reattached(old(nodes), beforeRange, start, afterRange, end)
      ensures head == (if beforeRange == NONE then start else old(head))
      ensures tail == (if afterRange == NONE then end else old(tail))
    {
      if beforeRange != NONE {
        nodes := nodes[beforeRange := nodes[beforeRange].(next := start)];
        nodes := nodes[start := nodes[start].(prev := beforeRange)];
      } else {
        head := start;
      }
      if afterRange != NONE {
        nodes := nodes[end := nodes[end].(next := afterRange)];
        nodes := nodes[afterRange := nodes[afterRange].(prev := end)];
      } else {
        tail := end;
      }
    }

    /** Disconnecting the range `live[i..j]` in `bottomUpMergeSortRange`:
        returns the slots around it (`before_range`, `after_range`) and cuts
        the links to them, leaving three chains. */
    method Disconnect(start: nat, end: nat, ghost i: nat, ghost j: nat) returns (beforeRange: nat, afterRange: nat)
      requires Valid() && i < j <= |live| && start == live[i] && end == live[j - 1]
      modifies this`nodes
      ensures beforeRange == PrevOf(live, i) && afterRange == NextOf(live, j - 1)
      ensures Linked(nodes, live[..i]) && Linked(nodes, live[i..j]) && Linked(nodes, live[j..])
      ensures Distinct(live[i..j]) && RelinkedWithin(old(nodes), nodes, live)
      ensures beforeRange != NONE ==> beforeRange < |old(nodes)|
      ensures afterRange != NONE ==> afterRange < |old(nodes)|
      ensures nodes == Detached(old(nodes), beforeRange, start, afterRange, end)
    {
      LinksAt(i);
      LinksAt(j - 1);
      beforeRange := nodes[start].prev;
      afterRange := nodes[end].next;
      DetachLinks(nodes, live, i, j);
      if beforeRange != NONE {
        nodes := nodes[beforeRange := nodes[beforeRange].(next := NONE)];
      }
      nodes := nodes[start := nodes[start].(prev := NONE)];
      if afterRange != NONE {
        nodes := nodes[afterRange := nodes[afterRange].(prev := NONE)];
      }
      nodes := nodes[end := nodes[end].(next := NONE)];
    }

    /** Counting the range in `bottomUpMergeSortRange`: walks from `start` to
        `end` along `next` and returns how many slots it visited. */
    method CountRange(start: nat, end: nat, ghost mid: seq<nat>) returns (rangeSize: nat)
      requires Linked(nodes, mid) && Distinct(mid) && mid != [] && start == mid[0] && end == Last(mid)
      ensures rangeSize == |mid|
    {
      rangeSize := 1;
      var curr := start;
      while curr != end
        invariant 1 <= rangeSize <= |mid| && curr == mid[rangeSize - 1]
        decreases |mid| - rangeSize
      {
        assert At(nodes, mid, rangeSize - 1).next == NextOf(mid, rangeSize - 1);
        DistinctAt(mid, rangeSize - 1, |mid| - 1);
        rangeSize := rangeSize + 1;
        curr := nodes[curr].next;
      }
      DistinctAt(mid, rangeSize - 1, |mid| - 1);
    }

    /** The outer loop of `bottomUpMergeSortRange` on the cut-out chain `mid`
        of `rangeSize` slots: passes of width 1, 2, 4, ... until the width
        reaches the length. Returns the first and last slots of the result
        `t`, which is `mid` in the order the sort gives. */
    method SortChain(start: nat, end: nat, rangeSize: nat, comp: (T, T) -> bool,
                     ghost mid: seq<nat>, ghost vals: seq<T>)
      returns (newStart: nat, newEnd: nat, ghost t: seq<nat>)
      requires |nodes| < NONE && Holds(nodes, vals) && Linked(nodes, mid) && Distinct(mid)
      requires mid != [] && start == mid[0] && end == Last(mid) && rangeSize == |mid|
      modifies this`nodes
      ensures SortsTo(mid, vals, comp, t) && |t| == |mid| && multiset(t) == multiset(mid)
      ensures Linked(nodes, t) && RelinkedWithin(old(nodes), nodes, mid)
      ensures newStart == First(t) && newEnd == Last(t)
    {
      ghost var d := nodes;
      SortingStarts(d, mid, vals, comp);
      newStart, newEnd := start, end;
      var sublistSize := 1;
      t := mid;
      while sublistSize < rangeSize
        invariant Sorting(d, nodes, mid, vals, comp, t, sublistSize)
        invariant newStart == First(t) && newEnd == Last(t)
        decreases rangeSize - sublistSize
      {
        newStart, newEnd, t := SortStep(newStart, sublistSize, comp, d, mid, vals, t);
        sublistSize := sublistSize * 2;
      }
      SortingEnds(d, nodes, mid, vals, comp, t, sublistSize);
    }

    /** One round of the outer loop of `bottomUpMergeSortRange`: a pass of
        width `w` over the chain `t` that starts at `start`. */
    method SortStep(start: nat, w: nat, comp: (T, T) -> bool, ghost d: seq<Node<T>>,
                    ghost mid: seq<nat>, ghost vals: seq<T>, ghost t: seq<nat>)
      returns (newStart: nat, newEnd: nat, ghost t': seq<nat>)
      requires Sorting(d, nodes, mid, vals, comp, t, w) && w < |t| && start == First(t)
      modifies this`nodes
      ensures Sorting(d, nodes, mid, vals, comp, t', 2 * w)
      ensures newStart == First(t') && newEnd == Last(t')
    {
      ghost var na := nodes;
      SortingTurn(d, nodes, mid, vals, comp, t, w);
      newStart, newEnd := SortPass(start, w, comp, t, vals);
      SortingStep(d, na, nodes, mid, vals, comp, t, w);
      t' := MergePass(t, w, vals, comp);
    }

    /** `sort`: the whole list, from `head` to `tail`, when it is not empty.
        Afterwards the list holds the same slots, each with its value, in the
        order the sort gives (`SortedSlots`); when `comp` is a strict weak
        order that order is non-decreasing under `comp`. */
    method Sort(comp: (T, T) -> bool)
      requires Valid()
      modifies this`nodes, this`head, this`tail, this`live
      ensures Valid() && Data() == old(Data())
      ensures SortsTo(old(live), old(Data()), comp, live)
      ensures multiset(live) == multiset(old(live))
      ensures StrictWeakOrder(comp) ==> Ordered(live, Data(), comp)
    {
      ghost var l0, vals := live, Data();
      if Empty() {
        SortsToShort(l0, vals, comp);
        return;
      }
      LinksAt(0);
      LinksAt(|live| - 1);
      SortRange(head, tail, comp);
      WholeListSorted(l0, live, vals, comp);
    }

    /** The links of the slot at position `k` lead to the positions next to `k`. */
    lemma LinksAt(k: nat)
      requires Valid() && k < |live|
      ensures nodes[live[k]].next == NextOf(live, k) && nodes[live[k]].prev == PrevOf(live, k)
      ensures Position(live[k]) == k
      ensures k + 1 < |live| ==> Position(live[k + 1]) == k + 1
      ensures 0 < k ==> Position(live[k - 1]) == k - 1
    {
      RemoveNeighbours(nodes, live, k);
      DistinctIndexOf(live, k);
      if k + 1 < |live| {
        DistinctIndexOf(live, k + 1);
      }
      if 0 < k {
        DistinctIndexOf(live, k - 1);
      }
    }
  }

  /** What one erasure does to the sequences the range `erase` tracks: the
      slot at position `i` of `l0[..i] + l0[m..]` is `l0[m]`, dropping it
      advances `m`, and pushing it on the free chain extends the reversed
      erased part. */
  lemma ErasingStep<T>(l0: seq<nat>, v0: seq<T>, f0: seq<nat>, i: nat, j: nat, m: nat, last: nat)
    requires Distinct(l0) && i <= m <= j <= |l0| && |v0| == |l0|
    requires last == (if j < |l0| then l0[j] else NONE)
    requires (if m < |l0| then l0[m] else NONE) != last
    ensures m < j
    ensures (l0[..i] + l0[m..])[i] == l0[m]
    ensures (l0[..i] + l0[m..])[..i] + (l0[..i] + l0[m..])[i + 1..] == l0[..i] + l0[m + 1..]
    ensures (v0[..i] + v0[m..])[..i] + (v0[..i] + v0[m..])[i + 1..] == v0[..i] + v0[m + 1..]
    ensures [l0[m]] + (Reverse(l0[i..m]) + f0) == Reverse(l0[i..m + 1]) + f0
  {
    DropStep(l0[..i], l0[m..]);
    DropStep(v0[..i], v0[m..]);
    ReverseSliceStep(l0, i, m, f0);
  }
}
