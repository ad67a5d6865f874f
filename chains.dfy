/** The arena of `FreeList` (include/FreeList.hpp): a vector of nodes, each
    holding a value, the two links of the live chain and the link of the free
    chain. A chain is described by the sequence of slot indices met when
    following its links; the predicates below say when the links of an arena
    spell out a given chain. */
module Chains {
  import opened Slots

  /** One slot of the arena (`FreeList::Node`). */
  datatype Node<T> = Node(data: T, next: nat, prev: nat, nextFree: nat)

  /** The node `Node(data)` builds: every link is SIZE_MAX. */
  function Fresh<T>(data: T): (n: Node<T>)
    ensures n.data == data && n.next == NONE && n.prev == NONE && n.nextFree == NONE
  {
    Node(data, NONE, NONE, NONE)
  }

  ghost function At<T>(nodes: seq<Node<T>>, s: seq<nat>, k: nat): Node<T>
    requires k < |s| && s[k] < |nodes|
  {
    nodes[s[k]]
  }

  /** Following `next` from `s[0]` visits `s` and then reaches SIZE_MAX. */
  ghost predicate ForwardLinked<T>(nodes: seq<Node<T>>, s: seq<nat>) {
    InBounds(s, |nodes|) &&
    forall k {:trigger At(nodes, s, k)} :: 0 <= k < |s| ==> At(nodes, s, k).next == NextOf(s, k)
  }

  /** Following `prev` from the last slot visits `s` backwards and then reaches SIZE_MAX. */
  ghost predicate BackLinked<T>(nodes: seq<Node<T>>, s: seq<nat>) {
    InBounds(s, |nodes|) &&
    forall k {:trigger At(nodes, s, k)} :: 0 <= k < |s| ==> At(nodes, s, k).prev == PrevOf(s, k)
  }

  /** `s` is a doubly-linked chain: `next` and `prev` are mutual inverses along it. */
  ghost predicate Linked<T>(nodes: seq<Node<T>>, s: seq<nat>) {
    ForwardLinked(nodes, s) && BackLinked(nodes, s)
  }

  /** Following `nextFree` from `s[0]` visits `s` and then reaches SIZE_MAX. */
  ghost predicate FreeLinked<T>(nodes: seq<Node<T>>, s: seq<nat>) {
    InBounds(s, |nodes|) &&
    forall k {:trigger At(nodes, s, k)} :: 0 <= k < |s| ==> At(nodes, s, k).nextFree == NextOf(s, k)
  }

  /** The live and the free slots partition the arena `[0, n)`. */
  ghost predicate Partition(live: seq<nat>, free: seq<nat>, n: nat) {
    Distinct(live) && Distinct(free) &&
    InBounds(live, n) && InBounds(free, n) &&
    (forall x :: x in live ==> x !in free) &&
    |live| + |free| == n
  }

  /** The values held by the slots of `s`, in order. */
  ghost function Project<T>(nodes: seq<Node<T>>, s: seq<nat>): (vs: seq<T>)
    requires InBounds(s, |nodes|)
  {
    seq(|s|, k requires 0 <= k < |s| => nodes[s[k]].data)
  }

  /** The values along a chain depend only on the values of its slots. */
  lemma ProjectFrame<T>(n1: seq<Node<T>>, n2: seq<Node<T>>, s: seq<nat>)
    requires InBounds(s, |n1|) && InBounds(s, |n2|)
    requires forall k :: 0 <= k < |s| ==> n2[s[k]].data == n1[s[k]].data
    ensures Project(n2, s) == Project(n1, s)
  {
  }

  /** Forward half of `LinkedInsert`. */
  lemma ForwardInsert<T>(n1: seq<Node<T>>, n2: seq<Node<T>>, s: seq<nat>, k: nat, x: nat)
    requires ForwardLinked(n1, s) && k <= |s| && x < |n2|
    requires n2[x].next == (if k < |s| then s[k] else NONE)
    requires forall i :: 0 <= i < |s| ==>
      s[i] < |n2| && n2[s[i]].next == (if i + 1 == k then x else n1[s[i]].next)
    ensures ForwardLinked(n2, s[..k] + [x] + s[k..])
  {
    var r := s[..k] + [x] + s[k..];
    forall j | 0 <= j < |r| ensures r[j] < |n2| && At(n2, r, j).next == NextOf(r, j) {
      if j < k {
        assert r[j] == s[j];
        assert At(n1, s, j).next == NextOf(s, j);
        if j + 1 < k { assert r[j + 1] == s[j + 1]; } else { assert r[j + 1] == x; }
      } else if j == k {
        if k < |s| { assert r[k + 1] == s[k]; }
      } else {
        assert r[j] == s[j - 1];
        assert At(n1, s, j - 1).next == NextOf(s, j - 1);
        if j + 1 < |r| { assert r[j + 1] == s[j]; }
      }
    }
  }

  /** Backward half of `LinkedInsert`. */
  lemma BackInsert<T>(n1: seq<Node<T>>, n2: seq<Node<T>>, s: seq<nat>, k: nat, x: nat)
    requires BackLinked(n1, s) && k <= |s| && x < |n2|
    requires n2[x].prev == (if k == 0 then NONE else s[k - 1])
    requires forall i :: 0 <= i < |s| ==>
      s[i] < |n2| && n2[s[i]].prev == (if i == k then x else n1[s[i]].prev)
    ensures BackLinked(n2, s[..k] + [x] + s[k..])
  {
    var r := s[..k] + [x] + s[k..];
    forall j | 0 <= j < |r| ensures r[j] < |n2| && At(n2, r, j).prev == PrevOf(r, j) {
      if j < k {
        assert r[j] == s[j];
        assert At(n1, s, j).prev == PrevOf(s, j);
        if j > 0 { assert r[j - 1] == s[j - 1]; }
      } else if j == k {
        if k > 0 { assert r[k - 1] == s[k - 1]; }
      } else {
        assert r[j] == s[j - 1];
        assert At(n1, s, j - 1).prev == PrevOf(s, j - 1);
        if j - 1 == k { assert r[j - 1] == x; } else { assert r[j - 1] == s[j - 2]; }
      }
    }
  }

  /** Linking a slot `x` that is in no chain into position `k` of chain `s`:
      `x` points at its two neighbours and they point back at it. */
  lemma LinkedInsert<T>(n1: seq<Node<T>>, n2: seq<Node<T>>, s: seq<nat>, k: nat, x: nat)
    requires Linked(n1, s) && k <= |s| && x < |n2| && |n2| == |n1|
    requires n2[x].next == (if k < |s| then s[k] else NONE)
    requires n2[x].prev == (if k == 0 then NONE else s[k - 1])
    requires forall i :: 0 <= i < |s| ==> n2[s[i]].next == (if i + 1 == k then x else n1[s[i]].next)
    requires forall i :: 0 <= i < |s| ==> n2[s[i]].prev == (if i == k then x else n1[s[i]].prev)
    ensures Linked(n2, s[..k] + [x] + s[k..])
  {
    ForwardInsert(n1, n2, s, k, x);
    BackInsert(n1, n2, s, k, x);
  }

  /** Forward half of `LinkedRemove`. */
  lemma ForwardRemove<T>(n1: seq<Node<T>>, n2: seq<Node<T>>, s: seq<nat>, k: nat)
    requires ForwardLinked(n1, s) && k < |s|
    requires forall i :: 0 <= i < |s| && i != k ==>
      s[i] < |n2| && n2[s[i]].next == (if i + 1 == k then n1[s[k]].next else n1[s[i]].next)
    ensures ForwardLinked(n2, s[..k] + s[k + 1..])
  {
    var r := s[..k] + s[k + 1..];
    forall j | 0 <= j < |r| ensures r[j] < |n2| && At(n2, r, j).next == NextOf(r, j) {
      if j < k {
        assert r[j] == s[j];
        assert At(n1, s, j).next == NextOf(s, j);
        if j + 1 == k {
          assert At(n1, s, k).next == NextOf(s, k);
          if j + 1 < |r| { assert r[j + 1] == s[k + 1]; }
        } else if j + 1 < |r| {
          assert r[j + 1] == s[j + 1];
        }
      } else {
        assert r[j] == s[j + 1];
        assert At(n1, s, j + 1).next == NextOf(s, j + 1);
        if j + 1 < |r| { assert r[j + 1] == s[j + 2]; }
      }
    }
  }

  /** Backward half of `LinkedRemove`. */
  lemma BackRemove<T>(n1: seq<Node<T>>, n2: seq<Node<T>>, s: seq<nat>, k: nat)
    requires BackLinked(n1, s) && k < |s|
    requires forall i :: 0 <= i < |s| && i != k ==>
      s[i] < |n2| && n2[s[i]].prev == (if i == k + 1 then n1[s[k]].prev else n1[s[i]].prev)
    ensures BackLinked(n2, s[..k] + s[k + 1..])
  {
    var r := s[..k] + s[k + 1..];
    forall j | 0 <= j < |r| ensures r[j] < |n2| && At(n2, r, j).prev == PrevOf(r, j) {
      if j < k {
        assert r[j] == s[j];
        assert At(n1, s, j).prev == PrevOf(s, j);
        if j > 0 { assert r[j - 1] == s[j - 1]; }
      } else {
        assert r[j] == s[j + 1];
        assert At(n1, s, j + 1).prev == PrevOf(s, j + 1);
        if j == k {
          assert At(n1, s, k).prev == PrevOf(s, k);
          if j > 0 { assert r[j - 1] == s[k - 1]; }
        } else {
          assert r[j - 1] == s[j];
        }
      }
    }
  }

  /** Unlinking the slot at position `k` of chain `s`: its neighbours point
      at each other. */
  lemma LinkedRemove<T>(n1: seq<Node<T>>, n2: seq<Node<T>>, s: seq<nat>, k: nat)
    requires Linked(n1, s) && k < |s| && |n2| == |n1|
    requires forall i :: 0 <= i < |s| && i != k ==>
      n2[s[i]].next == (if i + 1 == k then n1[s[k]].next else n1[s[i]].next)
    requires forall i :: 0 <= i < |s| && i != k ==>
      n2[s[i]].prev == (if i == k + 1 then n1[s[k]].prev else n1[s[i]].prev)
    ensures Linked(n2, s[..k] + s[k + 1..])
  {
    ForwardRemove(n1, n2, s, k);
    BackRemove(n1, n2, s, k);
  }

  /** Cutting chain `a + b` between `a` and `b` leaves `a` a chain of its own. */
  lemma LinkedCutPrefix<T>(n1: seq<Node<T>>, n2: seq<Node<T>>, a: seq<nat>, b: seq<nat>)
    requires Linked(n1, a + b) && a != [] && b != []
    requires |n2| == |n1|
    requires forall j :: 0 <= j < |a| ==>
      a[j] < |n1| && n2[a[j]].next == (if j == |a| - 1 then NONE else n1[a[j]].next) && n2[a[j]].prev == n1[a[j]].prev
    ensures Linked(n2, a)
  {
    var s := a + b;
    forall j | 0 <= j < |a|
      ensures a[j] < |n2|
      ensures At(n2, a, j).next == NextOf(a, j)
      ensures At(n2, a, j).prev == PrevOf(a, j)
    {
      assert s[j] == a[j];
      assert At(n1, s, j).next == NextOf(s, j) && At(n1, s, j).prev == PrevOf(s, j);
      if j + 1 < |a| { assert s[j + 1] == a[j + 1]; }
      if j > 0 { assert s[j - 1] == a[j - 1]; }
    }
    assert ForwardLinked(n2, a) && BackLinked(n2, a);
  }

  /** Cutting chain `a + b` between `a` and `b` leaves `b` a chain of its own. */
  lemma LinkedCutSuffix<T>(n1: seq<Node<T>>, n2: seq<Node<T>>, a: seq<nat>, b: seq<nat>)
    requires Linked(n1, a + b) && a != [] && b != []
    requires |n2| == |n1|
    requires forall j :: 0 <= j < |b| ==>
      b[j] < |n1| && n2[b[j]].next == n1[b[j]].next && n2[b[j]].prev == (if j == 0 then NONE else n1[b[j]].prev)
    ensures Linked(n2, b)
  {
    var s := a + b;
    forall j | 0 <= j < |b|
      ensures b[j] < |n2|
      ensures At(n2, b, j).next == NextOf(b, j)
      ensures At(n2, b, j).prev == PrevOf(b, j)
    {
      var i := |a| + j;
      assert s[i] == b[j];
      assert At(n1, s, i).next == NextOf(s, i) && At(n1, s, i).prev == PrevOf(s, i);
      if j + 1 < |b| { assert s[i + 1] == b[j + 1]; }
      if j > 0 { assert s[i - 1] == b[j - 1]; }
    }
    assert ForwardLinked(n2, b) && BackLinked(n2, b);
  }

  /** Joining chain `a` to chain `b` gives one chain. */
  lemma LinkedJoin<T>(n1: seq<Node<T>>, n2: seq<Node<T>>, a: seq<nat>, b: seq<nat>)
    requires Linked(n1, a) && Linked(n1, b) && a != [] && b != []
    requires |n2| == |n1|
    requires forall x :: x in a + b ==> n2[x].next == (if x == a[|a| - 1] then b[0] else n1[x].next)
    requires forall x :: x in a + b ==> n2[x].prev == (if x == b[0] then a[|a| - 1] else n1[x].prev)
    requires Distinct(a + b)
    ensures Linked(n2, a + b)
  {
    var s := a + b;
    assert forall j :: 0 <= j < |a| ==> s[j] == a[j];
    assert forall j :: 0 <= j < |b| ==> s[|a| + j] == b[j];
    assert InBounds(s, |n2|) by {
      forall j | 0 <= j < |s| ensures s[j] < |n2| {
        if j < |a| { assert s[j] == a[j]; } else { assert s[j] == b[j - |a|]; }
      }
    }
    forall j | 0 <= j < |s|
      ensures At(n2, s, j).next == NextOf(s, j)
      ensures At(n2, s, j).prev == PrevOf(s, j)
    {
      assert s[j] in s;
      assert s[|a| - 1] == a[|a| - 1] && s[|a|] == b[0];
      if j < |a| - 1 {
        assert Apart(s, j, |a| - 1);
      } else if j > |a| - 1 {
        assert Apart(s, |a| - 1, j);
      }
      if j < |a| {
        assert Apart(s, j, |a|);
      } else if j > |a| {
        assert Apart(s, |a|, j);
      }
      if j < |a| {
        assert s[j] == a[j];
        assert At(n1, a, j).next == NextOf(a, j) && At(n1, a, j).prev == PrevOf(a, j);
        if j + 1 < |a| { assert s[j + 1] == a[j + 1]; }
        if j > 0 { assert s[j - 1] == a[j - 1]; }
      } else {
        var i := j - |a|;
        assert s[j] == b[i];
        assert At(n1, b, i).next == NextOf(b, i) && At(n1, b, i).prev == PrevOf(b, i);
        if i + 1 < |b| { assert s[j + 1] == b[i + 1]; }
        if i > 0 { assert s[j - 1] == b[i - 1]; }
      }
    }
    assert ForwardLinked(n2, s) && BackLinked(n2, s);
  }

  /** A chain whose slots keep their links is still a chain. */
  lemma LinkedFrame<T>(n1: seq<Node<T>>, n2: seq<Node<T>>, s: seq<nat>)
    requires Linked(n1, s) && InBounds(s, |n2|)
    requires forall x :: x in s ==> n2[x].next == n1[x].next && n2[x].prev == n1[x].prev
    ensures Linked(n2, s)
  {
    forall j | 0 <= j < |s| ensures At(n2, s, j).next == NextOf(s, j) && At(n2, s, j).prev == PrevOf(s, j) {
      assert s[j] in s;
      assert At(n1, s, j).next == NextOf(s, j) && At(n1, s, j).prev == PrevOf(s, j);
    }
    assert ForwardLinked(n2, s) && BackLinked(n2, s);
  }

  /** Putting a slot that is in neither sequence into the live one keeps the partition. */
  lemma PartitionInsert(live: seq<nat>, free: seq<nat>, n: nat, k: nat, x: nat)
    requires Partition(live + [x], free, n) && k <= |live|
    ensures Partition(live[..k] + [x] + live[k..], free, n)
    ensures x !in live && Distinct(live)
  {
    var l := live + [x];
    assert l[|live|] == x;
    assert forall i :: 0 <= i < |live| ==> l[i] == live[i];
    forall i | 0 <= i < |live| ensures live[i] != x {
      assert Apart(l, i, |live|);
    }
    forall i, j | 0 <= i < j < |live| ensures Apart(live, i, j) {
      assert Apart(l, i, j);
    }
    DistinctInsert(live, k, x);
    var r := live[..k] + [x] + live[k..];
    assert live == live[..k] + live[k..];
    assert forall y :: y in r <==> y in l;
    assert InBounds(r, n) by {
      forall j | 0 <= j < |r| ensures r[j] < n { assert r[j] in l; }
    }
  }

  /** Moving the live slot at position `k` onto the front of the free sequence keeps the partition. */
  lemma PartitionRemove(live: seq<nat>, free: seq<nat>, n: nat, k: nat)
    requires Partition(live, free, n) && k < |live|
    ensures Partition(live[..k] + live[k + 1..], [live[k]] + free, n)
  {
    DistinctRemove(live, k);
    var r := live[..k] + live[k + 1..];
    var f := [live[k]] + free;
    assert Distinct(f) by {
      forall i, j | 0 <= i < j < |f| ensures Apart(f, i, j) {
        assert f[j] == free[j - 1] && live[k] in live;
        if i > 0 { assert f[i] == free[i - 1] && Apart(free, i - 1, j - 1); }
      }
    }
    assert forall x :: x in f <==> x == live[k] || x in free;
    assert InBounds(r, n) by {
      forall j | 0 <= j < |r| ensures r[j] < n { assert r[j] in live; }
    }
    assert InBounds(f, n) by {
      forall j | 0 <= j < |f| ensures f[j] < n { if j > 0 { assert f[j] == free[j - 1]; } }
    }
  }

  /** Reordering the live slots keeps the partition. */
  lemma PartitionPermute(live: seq<nat>, live': seq<nat>, free: seq<nat>, n: nat)
    requires Partition(live, free, n) && multiset(live') == multiset(live)
    ensures Partition(live', free, n)
  {
    DistinctMultiset(live', live);
    assert forall x :: x in live' <==> x in live by {
      forall x ensures x in live' <==> x in live {
        assert x in live' <==> x in multiset(live');
        assert x in live <==> x in multiset(live);
      }
    }
    assert InBounds(live', n) by {
      forall j | 0 <= j < |live'| ensures live'[j] < n { assert live'[j] in live; }
    }
  }

  /** A free chain whose slots keep their `nextFree` links is still a free chain. */
  lemma FreeLinkedFrame<T>(n1: seq<Node<T>>, n2: seq<Node<T>>, s: seq<nat>)
    requires FreeLinked(n1, s) && InBounds(s, |n2|)
    requires forall x :: x in s ==> n2[x].nextFree == n1[x].nextFree
    ensures FreeLinked(n2, s)
  {
    forall j | 0 <= j < |s| ensures At(n2, s, j).nextFree == NextOf(s, j) {
      assert s[j] in s;
      assert At(n1, s, j).nextFree == NextOf(s, j);
    }
  }

  /** Dropping the first slot of a free chain leaves a free chain. */
  lemma FreeLinkedTail<T>(nodes: seq<Node<T>>, s: seq<nat>)
    requires FreeLinked(nodes, s) && s != []
    ensures FreeLinked(nodes, s[1..])
  {
    forall j | 0 <= j < |s| - 1 ensures nodes[s[1..][j]].nextFree == NextOf(s[1..], j) {
      assert s[1..][j] == s[j + 1];
      assert At(nodes, s, j + 1).nextFree == NextOf(s, j + 1);
    }
  }

  /** Pushing slot `x` on a free chain: `x` points at the old first slot. */
  lemma FreeLinkedPush<T>(nodes: seq<Node<T>>, s: seq<nat>, x: nat)
    requires FreeLinked(nodes, s) && x < |nodes| && nodes[x].nextFree == First(s)
    ensures FreeLinked(nodes, [x] + s)
  {
    var r := [x] + s;
    forall j | 0 <= j < |r| ensures r[j] < |nodes| && At(nodes, r, j).nextFree == NextOf(r, j) {
      if j > 0 {
        assert r[j] == s[j - 1];
        assert At(nodes, s, j - 1).nextFree == NextOf(s, j - 1);
      }
    }
  }

  /** The values along `s` with slot `x` put at position `k`. */
  lemma ProjectInsert<T>(nodes: seq<Node<T>>, s: seq<nat>, k: nat, x: nat)
    requires InBounds(s, |nodes|) && x < |nodes| && k <= |s|
    ensures InBounds(s[..k] + [x] + s[k..], |nodes|)
    ensures Project(nodes, s[..k] + [x] + s[k..]) == Project(nodes, s)[..k] + [nodes[x].data] + Project(nodes, s)[k..]
  {
    var r := s[..k] + [x] + s[k..];
    assert forall j :: 0 <= j < |r| ==> r[j] == (if j < k then s[j] else if j == k then x else s[j - 1]);
  }

  /** The values along `s` without the slot at position `k`. */
  lemma ProjectRemove<T>(nodes: seq<Node<T>>, s: seq<nat>, k: nat)
    requires InBounds(s, |nodes|) && k < |s|
    ensures InBounds(s[..k] + s[k + 1..], |nodes|)
    ensures Project(nodes, s[..k] + s[k + 1..]) == Project(nodes, s)[..k] + Project(nodes, s)[k + 1..]
  {
    var r := s[..k] + s[k + 1..];
    assert forall j :: 0 <= j < |r| ==> r[j] == (if j < k then s[j] else s[j + 1]);
  }

  /** Taking the first free slot for a new value keeps the partition (the
      value is counted live before it is linked in). */
  lemma PartitionTake(live: seq<nat>, free: seq<nat>, n: nat)
    requires Partition(live, free, n) && free != []
    ensures Partition(live + [free[0]], free[1..], n)
  {
    var l := live + [free[0]];
    var f := free[1..];
    assert free == [free[0]] + f;
    assert free[0] !in live;
    assert free[0] !in f by {
      forall j | 0 <= j < |f| ensures f[j] != free[0] { assert f[j] == free[j + 1] && Apart(free, 0, j + 1); }
    }
    assert Distinct(l) by {
      forall i, j | 0 <= i < j < |l| ensures Apart(l, i, j) {
        if j == |live| { assert l[i] == live[i]; } else { assert l[i] == live[i] && l[j] == live[j] && Apart(live, i, j); }
      }
    }
    assert Distinct(f) by {
      forall i, j | 0 <= i < j < |f| ensures Apart(f, i, j) { assert f[i] == free[i + 1] && f[j] == free[j + 1] && Apart(free, i + 1, j + 1); }
    }
    assert forall x :: x in l <==> x in live || x == free[0];
    assert forall x :: x in free <==> x == free[0] || x in f;
    assert InBounds(l, n) by {
      forall j | 0 <= j < |l| ensures l[j] < n { if j < |live| { assert l[j] == live[j]; } }
    }
    assert InBounds(f, n) by {
      forall j | 0 <= j < |f| ensures f[j] < n { assert f[j] == free[j + 1]; }
    }
  }

  /** Appending a slot to an arena with no free slot keeps the partition. */
  lemma PartitionGrow(live: seq<nat>, n: nat)
    requires Partition(live, [], n)
    ensures Partition(live + [n], [], n + 1)
  {
    var l := live + [n];
    assert n !in live;
    assert Distinct(l) by {
      forall i, j | 0 <= i < j < |l| ensures Apart(l, i, j) {
        if j == |live| { assert l[i] == live[i]; } else { assert l[i] == live[i] && l[j] == live[j] && Apart(live, i, j); }
      }
    }
    assert InBounds(l, n + 1) by {
      forall j | 0 <= j < |l| ensures l[j] < n + 1 { if j < |live| { assert l[j] == live[j]; } }
    }
  }

  /** Going from `n1` to `n2` changed only `next` and `prev` links. */
  ghost predicate LinksOnly<T>(n1: seq<Node<T>>, n2: seq<Node<T>>) {
    |n2| == |n1| &&
    forall i :: 0 <= i < |n1| ==> n2[i].data == n1[i].data && n2[i].nextFree == n1[i].nextFree
  }

  /** Changing only `next` and `prev` links keeps the free chain and the values along any chain. */
  lemma LinksOnlyKeeps<T>(n1: seq<Node<T>>, n2: seq<Node<T>>, live: seq<nat>, free: seq<nat>)
    requires LinksOnly(n1, n2) && FreeLinked(n1, free) && InBounds(live, |n1|)
    ensures FreeLinked(n2, free) && Project(n2, live) == Project(n1, live)
  {
    FreeLinkedFrame(n1, n2, free);
    ProjectFrame(n1, n2, live);
  }
}
