/** The chains that `mergeIterative` and `bottomUpMergeSortRange`
    (include/FreeList.hpp) work on while the range being sorted is cut out of
    the list, and what each of their steps does to the arena's links. The
    loops of those two functions are methods of `FreeList`; the predicates
    here are their loop invariants, stated on the arena as a value, and the
    lemmas say that each step of a loop keeps its invariant. */
module Runs {
  import opened Slots
  import opened Chains
  import opened MergeSpec

  /** Every slot `x` of the arena holds `vals[x]`. */
  ghost predicate Holds<T>(nodes: seq<Node<T>>, vals: seq<T>) {
    |nodes| == |vals| && forall x :: 0 <= x < |vals| ==> nodes[x].data == vals[x]
  }

  /** Going from `n1` to `n2` changed only the `next` and `prev` links of the
      slots of `s`: values, free links and every other slot are as they were. */
  ghost predicate RelinkedWithin<T>(n1: seq<Node<T>>, n2: seq<Node<T>>, s: seq<nat>) {
    |n2| == |n1| &&
    forall x :: 0 <= x < |n1| ==>
      n2[x].data == n1[x].data && n2[x].nextFree == n1[x].nextFree &&
      (x !in s ==> n2[x] == n1[x])
  }

  /** Relinking a slot of `s` keeps the arena relinked within `s`. */
  lemma RelinkOne<T>(n0: seq<Node<T>>, nodes: seq<Node<T>>, s: seq<nat>, c: nat, node: Node<T>)
    requires RelinkedWithin(n0, nodes, s) && c < |nodes| && c in s
    requires node.data == nodes[c].data && node.nextFree == nodes[c].nextFree
    ensures RelinkedWithin(n0, nodes[c := node], s)
  {
  }

  /** Following `next` from `s[0]` visits `s`; the link out of its last slot is not set yet. */
  ghost predicate ForwardOpen<T>(nodes: seq<Node<T>>, s: seq<nat>) {
    InBounds(s, |nodes|) &&
    forall k {:trigger At(nodes, s, k)} :: 0 <= k < |s| - 1 ==> At(nodes, s, k).next == s[k + 1]
  }

  /** A write to a slot outside a chain leaves the chain as it was. */
  lemma ForwardLinkedWrite<T>(nodes: seq<Node<T>>, s: seq<nat>, c: nat, node: Node<T>)
    requires ForwardLinked(nodes, s) && c < |nodes| && c !in s
    ensures ForwardLinked(nodes[c := node], s)
  {
    var n1 := nodes[c := node];
    forall k | 0 <= k < |s| ensures At(n1, s, k).next == NextOf(s, k) {
      assert s[k] in s;
      assert At(nodes, s, k).next == NextOf(s, k);
    }
  }

  /** The first link of a chain leads to the rest of the chain. */
  lemma ForwardLinkedTail<T>(nodes: seq<Node<T>>, s: seq<nat>)
    requires ForwardLinked(nodes, s) && s != []
    ensures ForwardLinked(nodes, s[1..]) && s[0] < |nodes| && nodes[s[0]].next == First(s[1..])
  {
    assert At(nodes, s, 0).next == NextOf(s, 0);
    forall k | 0 <= k < |s| - 1 ensures At(nodes, s[1..], k).next == NextOf(s[1..], k) {
      assert At(nodes, s, k + 1).next == NextOf(s, k + 1);
    }
  }

  /** Pointing the last slot of an open chain at `x` extends it by `x`; for an
      empty chain there is no slot to write (the source writes its dummy head). */
  lemma ForwardOpenSnoc<T>(nodes: seq<Node<T>>, out: seq<nat>, x: nat)
    requires ForwardOpen(nodes, out) && Distinct(out) && x < |nodes|
    ensures out != [] ==> Last(out) < |nodes|
    ensures ForwardOpen(if out == [] then nodes else nodes[Last(out) := nodes[Last(out)].(next := x)], out + [x])
  {
    var n1 := if out == [] then nodes else nodes[Last(out) := nodes[Last(out)].(next := x)];
    var r := out + [x];
    forall k | 0 <= k < |r| - 1 ensures At(n1, r, k).next == r[k + 1] {
      assert r[k] == out[k];
      if k < |out| - 1 {
        DistinctAt(out, k, |out| - 1);
        assert At(nodes, out, k).next == out[k + 1];
      }
    }
    assert InBounds(r, |n1|);
  }

  /** A slot at the head of one of the two chains being merged is in neither
      chain further on. */
  lemma HeadAhead(ls: seq<nat>, rs: seq<nat>, a: nat, b: nat, left: bool)
    requires Distinct(ls + rs) && a <= |ls| && b <= |rs|
    requires if left then a < |ls| else b < |rs|
    ensures var x := if left then ls[a] else rs[b];
      x in ls + rs &&
      x !in (if left then ls[a + 1..] else ls[a..]) &&
      x !in (if left then rs[b..] else rs[b + 1..])
  {
    var u := ls + rs;
    var p := if left then a else |ls| + b;
    forall i | 0 <= i < |ls| && i != p ensures ls[i] != u[p] {
      assert u[i] == ls[i];
      DistinctAt(u, i, p);
    }
    forall j | 0 <= j < |rs| && |ls| + j != p ensures rs[j] != u[p] {
      assert u[|ls| + j] == rs[j];
      DistinctAt(u, |ls| + j, p);
    }
    assert u[p] in u;
  }

  /** A prefix of a sequence without repeats has none. */
  lemma DistinctPrefix(s: seq<nat>, n: nat)
    requires Distinct(s) && n <= |s|
    ensures Distinct(s[..n])
  {
    forall i, j | 0 <= i < j < n ensures Apart(s[..n], i, j) {
      assert Apart(s, i, j);
    }
  }

  /** What `mergeIterative` needs of its two chains: each is linked by `next`
      up to SIZE_MAX, and no slot is in both. */
  ghost predicate MergeInput<T>(nodes: seq<Node<T>>, ls: seq<nat>, rs: seq<nat>, vals: seq<T>) {
    |nodes| < NONE && Holds(nodes, vals) &&
    ForwardLinked(nodes, ls) && ForwardLinked(nodes, rs) && Distinct(ls + rs)
  }

  /** The first loop of `mergeIterative`, after `a` slots of `ls` and `b` of
      `rs` were taken, in the order `out`. `lp` and `rp` are `left_ptr` and
      `right_ptr`; `cur` is the slot whose `next` the `size_t*` `current` names,
      NONE while it names `dummy_head`, which is `dummy`. */
  ghost predicate Merging<T>(n0: seq<Node<T>>, nodes: seq<Node<T>>, ls: seq<nat>, rs: seq<nat>,
                             vals: seq<T>, comp: (T, T) -> bool,
                             a: nat, b: nat, out: seq<nat>, lp: nat, rp: nat, cur: nat, dummy: nat)
  {
    MergeInput(n0, ls, rs, vals) && RelinkedWithin(n0, nodes, ls + rs) &&
    a <= |ls| && b <= |rs| && lp == First(ls[a..]) && rp == First(rs[b..]) &&
    Merged(ls, rs, vals, comp) == out + Merged(ls[a..], rs[b..], vals, comp) &&
    Distinct(Merged(ls, rs, vals, comp)) &&
    dummy == First(out) && cur == Last(out) &&
    (out == [] ==> a == 0 && b == 0) &&
    (out != [] ==> cur in ls + rs && cur !in ls[a..] && cur !in rs[b..]) &&
    ForwardOpen(nodes, out) && ForwardLinked(nodes, ls[a..]) && ForwardLinked(nodes, rs[b..])
  }

  lemma MergingStarts<T>(nodes: seq<Node<T>>, ls: seq<nat>, rs: seq<nat>, vals: seq<T>, comp: (T, T) -> bool)
    requires MergeInput(nodes, ls, rs, vals) && ls != [] && rs != []
    ensures Merging(nodes, nodes, ls, rs, vals, comp, 0, 0, [], ls[0], rs[0], NONE, NONE)
  {
    assert ls[0..] == ls && rs[0..] == rs;
    MergedPermutes(ls, rs, vals, comp);
    DistinctMultiset(Merged(ls, rs, vals, comp), ls + rs);
  }

  /** Taking the head that `mergeIterative` takes moves one slot from what is
      left to merge to the end of what is merged. */
  lemma MergedStep<T>(ls: seq<nat>, rs: seq<nat>, vals: seq<T>, comp: (T, T) -> bool,
                      a: nat, b: nat, out: seq<nat>)
    requires InBounds(ls, |vals|) && InBounds(rs, |vals|) && a < |ls| && b < |rs|
    requires Merged(ls, rs, vals, comp) == out + Merged(ls[a..], rs[b..], vals, comp)
    requires Distinct(Merged(ls, rs, vals, comp))
    ensures var left := comp(vals[ls[a]], vals[rs[b]]);
      var x := if left then ls[a] else rs[b];
      var a', b' := if left then a + 1 else a, if left then b else b + 1;
      Merged(ls, rs, vals, comp) == (out + [x]) + Merged(ls[a'..], rs[b'..], vals, comp) &&
      Distinct(out + [x]) && Distinct(out)
  {
    var left := comp(vals[ls[a]], vals[rs[b]]);
    var x := if left then ls[a] else rs[b];
    var a', b' := if left then a + 1 else a, if left then b else b + 1;
    MergedUnfold(ls, rs, vals, comp, a, b);
    TakeHead(Merged(ls, rs, vals, comp), out, x, Merged(ls[a'..], rs[b'..], vals, comp));
  }

  /** Moving the head `x` of what follows `out` in a sequence without repeats
      to the end of `out`. */
  lemma TakeHead(whole: seq<nat>, out: seq<nat>, x: nat, rest: seq<nat>)
    requires whole == out + ([x] + rest) && Distinct(whole)
    ensures whole == (out + [x]) + rest && Distinct(out + [x]) && Distinct(out)
  {
    assert whole[..|out| + 1] == out + [x] && whole[..|out|] == out;
    DistinctPrefix(whole, |out| + 1);
    DistinctPrefix(whole, |out|);
  }

  /** What is left to merge loses the head that `mergeIterative` takes. */
  lemma MergedUnfold<T>(ls: seq<nat>, rs: seq<nat>, vals: seq<T>, comp: (T, T) -> bool, a: nat, b: nat)
    requires InBounds(ls, |vals|) && InBounds(rs, |vals|) && a < |ls| && b < |rs|
    ensures var left := comp(vals[ls[a]], vals[rs[b]]);
      Merged(ls[a..], rs[b..], vals, comp) ==
        if left then [ls[a]] + Merged(ls[a + 1..], rs[b..], vals, comp)
        else [rs[b]] + Merged(ls[a..], rs[b + 1..], vals, comp)
  {
    assert ls[a..][0] == ls[a] && rs[b..][0] == rs[b];
    assert ls[a..][1..] == ls[a + 1..] && rs[b..][1..] == rs[b + 1..];
  }

  /** One turn of the first loop of `mergeIterative`: the head of the left
      chain is taken when `left`, that is when its value goes strictly before
      the right head's, and the right head otherwise. */
  lemma MergeTake<T>(n0: seq<Node<T>>, nodes: seq<Node<T>>, ls: seq<nat>, rs: seq<nat>,
                     vals: seq<T>, comp: (T, T) -> bool,
                     a: nat, b: nat, out: seq<nat>, lp: nat, rp: nat, cur: nat, dummy: nat, left: bool)
    requires Merging(n0, nodes, ls, rs, vals, comp, a, b, out, lp, rp, cur, dummy)
    requires lp != NONE && rp != NONE
    ensures lp < |nodes| && rp < |nodes| && (cur != NONE ==> cur < |nodes|)
    ensures left == comp(nodes[lp].data, nodes[rp].data) ==>
      var x := if left then lp else rp;
      var n1 := if cur == NONE then nodes else nodes[cur := nodes[cur].(next := x)];
      x < |n1| &&
      Merging(n0, n1, ls, rs, vals, comp, if left then a + 1 else a, if left then b else b + 1,
              out + [x], if left then n1[x].next else lp, if left then rp else n1[x].next,
              x, if cur == NONE then x else dummy)
  {
    assert a < |ls| && b < |rs|;
    assert ls[a..][0] == ls[a] && rs[b..][0] == rs[b];
    assert At(n0, ls, a).data == vals[lp] && At(n0, rs, b).data == vals[rp];
    if left == comp(nodes[lp].data, nodes[rp].data) {
      var x := if left then lp else rp;
      var n1 := if cur == NONE then nodes else nodes[cur := nodes[cur].(next := x)];
      var a', b' := if left then a + 1 else a, if left then b else b + 1;
      MergedStep(ls, rs, vals, comp, a, b, out);
      HeadAhead(ls, rs, a, b, left);
      ForwardOpenSnoc(nodes, out, x);
      if left {
        ForwardLinkedTail(nodes, ls[a..]);
        assert ls[a..][1..] == ls[a'..];
      } else {
        ForwardLinkedTail(nodes, rs[b..]);
        assert rs[b..][1..] == rs[b'..];
      }
      if cur != NONE {
        assert x != cur by {
          assert Apart(out + [x], |out| - 1, |out|);
        }
        var node := nodes[cur].(next := x);
        assert forall y :: y in ls[a'..] ==> y in ls[a..];
        assert forall y :: y in rs[b'..] ==> y in rs[b..];
        ForwardLinkedWrite(nodes, ls[a'..], cur, node);
        ForwardLinkedWrite(nodes, rs[b'..], cur, node);
        RelinkOne(n0, nodes, ls + rs, cur, node);
      }
    }
  }

  /** Pointing the last slot of an open chain at the first slot of a chain
      that does not contain it joins the two. */
  lemma ForwardClose<T>(nodes: seq<Node<T>>, out: seq<nat>, rem: seq<nat>)
    requires ForwardOpen(nodes, out) && Distinct(out) && out != []
    requires ForwardLinked(nodes, rem) && Last(out) !in rem
    ensures Last(out) < |nodes|
    ensures ForwardLinked(nodes[Last(out) := nodes[Last(out)].(next := First(rem))], out + rem)
  {
    var c := Last(out);
    assert out[|out| - 1] == c;
    var n1 := nodes[c := nodes[c].(next := First(rem))];
    var r := out + rem;
    forall k | 0 <= k < |r| ensures r[k] < |n1| && At(n1, r, k).next == NextOf(r, k) {
      if k < |out| - 1 {
        assert r[k] == out[k] && r[k + 1] == out[k + 1];
        DistinctAt(out, k, |out| - 1);
        assert At(nodes, out, k).next == out[k + 1];
      } else if k == |out| - 1 {
        assert r[k] == c;
        if rem != [] { assert r[k + 1] == rem[0]; }
      } else {
        var j := k - |out|;
        assert r[k] == rem[j] && rem[j] in rem;
        assert At(nodes, rem, j).next == NextOf(rem, j);
        if j + 1 < |rem| { assert r[k + 1] == rem[j + 1]; }
      }
    }
  }

  /** The second loop of `mergeIterative`, walking the merged chain `ms`:
      the first `i` slots have their `prev` set, `prev` is the last of them
      and `curr` the slot after it. Only slots of `r` were relinked since `n0`. */
  ghost predicate Fixing<T>(n0: seq<Node<T>>, nodes: seq<Node<T>>, r: seq<nat>, ms: seq<nat>,
                            i: nat, prev: nat, curr: nat)
  {
    |nodes| < NONE && RelinkedWithin(n0, nodes, r) && (forall x :: x in ms ==> x in r) &&
    Distinct(ms) && ForwardLinked(nodes, ms) &&
    i <= |ms| && curr == First(ms[i..]) && prev == PrevOf(ms, i) &&
    forall k {:trigger At(nodes, ms, k)} :: 0 <= k < i ==> At(nodes, ms, k).prev == PrevOf(ms, k)
  }

  /** After the first loop one chain is used up; `*current` gets the rest of
      the other, and the whole merged chain is linked by `next`. */
  lemma MergeAttach<T>(n0: seq<Node<T>>, nodes: seq<Node<T>>, ls: seq<nat>, rs: seq<nat>,
                       vals: seq<T>, comp: (T, T) -> bool,
                       a: nat, b: nat, out: seq<nat>, lp: nat, rp: nat, cur: nat, dummy: nat)
    requires Merging(n0, nodes, ls, rs, vals, comp, a, b, out, lp, rp, cur, dummy)
    requires ls != [] && rs != [] && (lp == NONE || rp == NONE)
    ensures cur < |nodes| && dummy == First(Merged(ls, rs, vals, comp))
    ensures Fixing(n0, nodes[cur := nodes[cur].(next := if lp != NONE then lp else rp)],
                   ls + rs, Merged(ls, rs, vals, comp), 0, NONE, dummy)
  {
    assert ls[0] < |n0| && rs[0] < |n0|;
    assert out != [];
    var ms := Merged(ls, rs, vals, comp);
    var rem := MergedRest(ls, rs, vals, comp, a, b, out, lp == NONE);
    ForwardClose(nodes, out, rem);
    RelinkOne(n0, nodes, ls + rs, cur, nodes[cur].(next := if lp != NONE then lp else rp));
    MergedMembers(ls, rs, vals, comp);
    assert ms[0..] == ms;
  }

  /** Once one of the two chains is used up, what is left to merge is the
      rest of the other. */
  lemma MergedRest<T>(ls: seq<nat>, rs: seq<nat>, vals: seq<T>, comp: (T, T) -> bool,
                      a: nat, b: nat, out: seq<nat>, leftDone: bool) returns (rem: seq<nat>)
    requires InBounds(ls, |vals|) && InBounds(rs, |vals|) && a <= |ls| && b <= |rs| && out != []
    requires if leftDone then a == |ls| else b == |rs|
    requires Merged(ls, rs, vals, comp) == out + Merged(ls[a..], rs[b..], vals, comp)
    requires Distinct(Merged(ls, rs, vals, comp))
    ensures rem == (if leftDone then rs[b..] else ls[a..])
    ensures Merged(ls, rs, vals, comp) == out + rem && Distinct(out)
    ensures Merged(ls, rs, vals, comp)[0] == out[0]
  {
    rem := if leftDone then rs[b..] else ls[a..];
    if leftDone {
      assert ls[a..] == [];
    } else {
      assert rs[b..] == [];
    }
    var ms := Merged(ls, rs, vals, comp);
    assert ms[..|out|] == out;
    DistinctPrefix(ms, |out|);
  }

  /** Every slot of a merged chain comes from one of the two chains. */
  lemma MergedMembers<T>(ls: seq<nat>, rs: seq<nat>, vals: seq<T>, comp: (T, T) -> bool)
    requires InBounds(ls, |vals|) && InBounds(rs, |vals|)
    ensures forall x :: x in Merged(ls, rs, vals, comp) ==> x in ls + rs
  {
    MergedPermutes(ls, rs, vals, comp);
    forall x | x in Merged(ls, rs, vals, comp) ensures x in ls + rs {
      assert x in multiset(Merged(ls, rs, vals, comp));
    }
  }

  /** One turn of the second loop of `mergeIterative`: `nodes[curr].prev = prev`. */
  lemma FixStep<T>(n0: seq<Node<T>>, nodes: seq<Node<T>>, r: seq<nat>, ms: seq<nat>,
                   i: nat, prev: nat, curr: nat)
    requires Fixing(n0, nodes, r, ms, i, prev, curr) && curr != NONE
    ensures curr < |nodes|
    ensures Fixing(n0, nodes[curr := nodes[curr].(prev := prev)], r, ms, i + 1, curr, nodes[curr].next)
  {
    assert i < |ms| && ms[i..][0] == ms[i] && ms[i] in ms;
    var n1 := nodes[curr := nodes[curr].(prev := prev)];
    assert At(nodes, ms, i).next == NextOf(ms, i);
    assert ms[i + 1..] == ms[i..][1..];
    forall k | 0 <= k < |ms| ensures At(n1, ms, k).next == NextOf(ms, k) {
      assert At(nodes, ms, k).next == NextOf(ms, k);
    }
    forall k | 0 <= k < i + 1 ensures At(n1, ms, k).prev == PrevOf(ms, k) {
      if k < i {
        DistinctAt(ms, k, i);
        assert At(nodes, ms, k).prev == PrevOf(ms, k);
      }
    }
    RelinkOne(n0, nodes, r, curr, nodes[curr].(prev := prev));
  }

  /** When the walk reaches SIZE_MAX every `prev` is set and `prev` is the tail. */
  lemma FixEnds<T>(n0: seq<Node<T>>, nodes: seq<Node<T>>, r: seq<nat>, ms: seq<nat>, i: nat, prev: nat)
    requires Fixing(n0, nodes, r, ms, i, prev, NONE)
    ensures Linked(nodes, ms) && prev == Last(ms) && RelinkedWithin(n0, nodes, r)
  {
    if i < |ms| {
      assert false;
    }
  }

  /** How many slots a sublist of at most `w` slots takes from a chain of `n`. */
  function RunLength(n: nat, w: nat): nat {
    if n < w then n else w
  }

  /** Two parts of a sequence without repeats have none and share no slot. */
  lemma DistinctSplit(a: seq<nat>, b: seq<nat>)
    requires Distinct(a + b)
    ensures Distinct(a) && Distinct(b) && forall x :: x in a ==> x !in b
  {
    var u := a + b;
    forall i, j | 0 <= i < j < |a| ensures Apart(a, i, j) {
      assert Apart(u, i, j);
    }
    forall i, j | 0 <= i < j < |b| ensures Apart(b, i, j) {
      assert Apart(u, |a| + i, |a| + j);
    }
    forall x | x in a ensures x !in b {
      var i :| 0 <= i < |a| && a[i] == x;
      forall j | 0 <= j < |b| ensures b[j] != x {
        assert Apart(u, i, |a| + j);
      }
    }
  }

  /** Relinking only slots of `r` leaves a chain that shares no slot with `r`. */
  lemma KeepLinked<T>(n1: seq<Node<T>>, n2: seq<Node<T>>, r: seq<nat>, c: seq<nat>)
    requires Linked(n1, c) && RelinkedWithin(n1, n2, r) && forall x :: x in c ==> x !in r
    ensures Linked(n2, c)
  {
    LinkedFrame(n1, n2, c);
  }

  /** Relinking within `r`, then within `q`, both inside `s`, is relinking within `s`. */
  lemma RelinkTrans<T>(n1: seq<Node<T>>, n2: seq<Node<T>>, n3: seq<Node<T>>, r: seq<nat>, q: seq<nat>, s: seq<nat>)
    requires RelinkedWithin(n1, n2, r) && RelinkedWithin(n2, n3, q)
    requires forall x :: x in r ==> x in s
    requires forall x :: x in q ==> x in s
    ensures RelinkedWithin(n1, n3, s)
  {
  }

  /** The arena after cutting chain `t` between positions `n - 1` and `n`:
      `nodes[t[n - 1]].next` and `nodes[t[n]].prev` become SIZE_MAX. */
  ghost function Cut<T>(nodes: seq<Node<T>>, t: seq<nat>, n: nat): seq<Node<T>>
    requires 0 < n < |t| && InBounds(t, |nodes|)
  {
    var c1 := nodes[t[n - 1] := nodes[t[n - 1]].(next := NONE)];
    c1[t[n] := c1[t[n]].(prev := NONE)]
  }

  /** Cutting chain `t` after its first `n` slots, as `bottomUpMergeSortRange`
      does when it extracts a sublist: the last slot kept points at SIZE_MAX
      and the first slot left over has no predecessor. */
  lemma CutRun<T>(nodes: seq<Node<T>>, t: seq<nat>, n: nat)
    requires Linked(nodes, t) && Distinct(t) && 0 < n <= |t| && |nodes| < NONE
    ensures t[n - 1] < |nodes| && nodes[t[n - 1]].next == First(t[n..])
    ensures n == |t| ==> Linked(nodes, t[..n]) && Linked(nodes, t[n..]) && RelinkedWithin(nodes, nodes, t)
    ensures n < |t| ==>
      Linked(Cut(nodes, t, n), t[..n]) && Linked(Cut(nodes, t, n), t[n..]) &&
      RelinkedWithin(nodes, Cut(nodes, t, n), t)
  {
    assert At(nodes, t, n - 1).next == NextOf(t, n - 1);
    if n == |t| {
      assert t[..n] == t && t[n..] == [];
    } else {
      assert t[n..][0] == t[n];
      assert t == t[..n] + t[n..];
      CutPrefix(nodes, t, n);
      CutSuffix(nodes, t, n);
      assert t[n - 1] in t && t[n] in t;
    }
  }

  lemma CutPrefix<T>(nodes: seq<Node<T>>, t: seq<nat>, n: nat)
    requires Linked(nodes, t) && Distinct(t) && 0 < n < |t|
    ensures Linked(Cut(nodes, t, n), t[..n])
  {
    var a, b := t[..n], t[n..];
    assert t == a + b;
    var c2 := Cut(nodes, t, n);
    forall j | 0 <= j < |a| ensures
      a[j] < |nodes| && c2[a[j]].next == (if j == |a| - 1 then NONE else nodes[a[j]].next) &&
      c2[a[j]].prev == nodes[a[j]].prev
    {
      assert t[j] == a[j];
      DistinctAt(t, j, n);
      if j < |a| - 1 { DistinctAt(t, j, n - 1); }
    }
    LinkedCutPrefix(nodes, c2, a, b);
  }

  lemma CutSuffix<T>(nodes: seq<Node<T>>, t: seq<nat>, n: nat)
    requires Linked(nodes, t) && Distinct(t) && 0 < n < |t|
    ensures Linked(Cut(nodes, t, n), t[n..])
  {
    var a, b := t[..n], t[n..];
    assert t == a + b;
    var c2 := Cut(nodes, t, n);
    forall j | 0 <= j < |b| ensures
      b[j] < |nodes| && c2[b[j]].next == nodes[b[j]].next &&
      c2[b[j]].prev == (if j == 0 then NONE else nodes[b[j]].prev)
    {
      assert t[n + j] == b[j];
      DistinctAt(t, n + j, n - 1);
      if j > 0 { DistinctAt(t, n + j, n); }
    }
    LinkedCutSuffix(nodes, c2, a, b);
  }

  /** Linking chain `b` after chain `a`, as `bottomUpMergeSortRange` appends
      a sublist to what it has merged so far; with nothing merged yet there
      is nothing to link, and nothing to link to an empty chain. */
  ghost function Appended<T>(nodes: seq<Node<T>>, a: seq<nat>, b: seq<nat>): seq<Node<T>>
    requires a != [] && b != [] ==> Last(a) < |nodes| && b[0] < |nodes|
  {
    if a == [] || b == [] then nodes
    else
      var j := nodes[Last(a) := nodes[Last(a)].(next := b[0])];
      j[b[0] := j[b[0]].(prev := Last(a))]
  }

  /** Appending a chain to a chain that shares no slot with it gives one chain. */
  lemma AppendedLinked<T>(nodes: seq<Node<T>>, a: seq<nat>, b: seq<nat>)
    requires Linked(nodes, a) && Linked(nodes, b) && b != [] && Distinct(a + b)
    ensures a != [] ==> Last(a) < |nodes| && b[0] < |nodes|
    ensures Linked(Appended(nodes, a, b), a + b) && RelinkedWithin(nodes, Appended(nodes, a, b), a + b)
    ensures First(a + b) == (if a == [] then b[0] else a[0]) && Last(a + b) == Last(b)
  {
    if a == [] {
      assert a + b == b;
    } else {
      var x, y := a[|a| - 1], b[0];
      assert x in a + b && y in a + b;
      var n2 := Appended(nodes, a, b);
      DistinctSplit(a, b);
      assert x != y;
      LinkedJoin(nodes, n2, a, b);
    }
  }

  /** A suffix of a sequence without repeats has none. */
  lemma DistinctSuffix(s: seq<nat>, n: nat)
    requires Distinct(s) && n <= |s|
    ensures Distinct(s[n..])
  {
    forall i, j | 0 <= i < j < |s| - n ensures Apart(s[n..], i, j) {
      assert Apart(s, n + i, n + j);
    }
  }

  /** Relinking keeps every value where it was. */
  lemma HoldsKept<T>(n0: seq<Node<T>>, n1: seq<Node<T>>, r: seq<nat>, vals: seq<T>)
    requires Holds(n0, vals) && RelinkedWithin(n0, n1, r)
    ensures Holds(n1, vals)
  {
  }

  /** An arena holds one value per slot. */
  lemma HoldsUnique<T>(nodes: seq<Node<T>>, a: seq<T>, b: seq<T>)
    requires Holds(nodes, a) && Holds(nodes, b)
    ensures a == b
  {
  }

  /** Slots in a sequence holding the same slots as `s` are slots of `s`. */
  lemma SameMembers(a: seq<nat>, s: seq<nat>)
    requires multiset(a) == multiset(s)
    ensures forall x :: x in a ==> x in s
  {
    forall x | x in a ensures x in s {
      assert x in multiset(a);
    }
  }

  /** The inner loop of `bottomUpMergeSortRange` in the pass with sublists of
      `w` slots over the chain `s`, which was linked on its own in `n0`: the
      slots before position `pos` are merged into the chain `out`, which runs
      from `curHead` to `curTail`; the rest of `s` is still a chain of its
      own, starting at `remaining`. All but its bounds is stated behind
      `Sealed`, so that only the lemmas below unfold it. */
  ghost predicate Passing<T>(n0: seq<Node<T>>, nodes: seq<Node<T>>, s: seq<nat>, w: nat,
                             vals: seq<T>, comp: (T, T) -> bool,
                             pos: nat, out: seq<nat>, curHead: nat, curTail: nat, remaining: nat)
  {
    |n0| < NONE && |n0| == |vals| && InBounds(s, |n0|) && w >= 1 && pos <= |s| &&
    forall k: nat {:trigger Sealed(k, pos)} :: Sealed(k, pos) ==>
      PassingAt(n0, nodes, s, w, vals, comp, k, out, curHead, curTail, remaining)
  }

  /** What `Passing` says, unfolded. */
  ghost predicate PassingAt<T>(n0: seq<Node<T>>, nodes: seq<Node<T>>, s: seq<nat>, w: nat,
                               vals: seq<T>, comp: (T, T) -> bool,
                               pos: nat, out: seq<nat>, curHead: nat, curTail: nat, remaining: nat)
  {
    |n0| < NONE && Holds(n0, vals) && InBounds(s, |n0|) && Distinct(s) && w >= 1 &&
    RelinkedWithin(n0, nodes, s) && pos <= |s| &&
    MergePass(s, w, vals, comp) == out + MergePass(s[pos..], w, vals, comp) &&
    multiset(out + s[pos..]) == multiset(s) && Distinct(out + s[pos..]) &&
    Linked(nodes, out) && Linked(nodes, s[pos..]) &&
    curHead == First(out) && curTail == Last(out) && remaining == First(s[pos..])
  }

  lemma PassStarts<T>(nodes: seq<Node<T>>, s: seq<nat>, w: nat, vals: seq<T>, comp: (T, T) -> bool)
    requires |nodes| < NONE && Holds(nodes, vals) && Linked(nodes, s) && Distinct(s) && w >= 1
    ensures Passing(nodes, nodes, s, w, vals, comp, 0, [], NONE, NONE, First(s))
  {
    assert s[0..] == s && [] + s == s;
  }

  /** At the start of a turn the rest of the chain is what a sublist is extracted from. */
  lemma PassTurn<T>(n0: seq<Node<T>>, nodes: seq<Node<T>>, s: seq<nat>, w: nat,
                    vals: seq<T>, comp: (T, T) -> bool,
                    pos: nat, out: seq<nat>, curHead: nat, curTail: nat, remaining: nat)
    requires Passing(n0, nodes, s, w, vals, comp, pos, out, curHead, curTail, remaining)
    requires remaining != NONE
    ensures pos < |s| && |nodes| < NONE && Linked(nodes, s[pos..]) && Distinct(s[pos..])
    ensures remaining == s[pos..][0]
  {
    assert Sealed(pos, pos);
    DistinctSplit(out, s[pos..]);
  }

  /** When `remaining` is SIZE_MAX the pass is over and `out` is what it computes. */
  lemma PassEnds<T>(n0: seq<Node<T>>, nodes: seq<Node<T>>, s: seq<nat>, w: nat,
                    vals: seq<T>, comp: (T, T) -> bool,
                    pos: nat, out: seq<nat>, curHead: nat, curTail: nat)
    requires Passing(n0, nodes, s, w, vals, comp, pos, out, curHead, curTail, NONE)
    ensures out == MergePass(s, w, vals, comp) && Linked(nodes, out) && RelinkedWithin(n0, nodes, s)
    ensures curHead == First(out) && curTail == Last(out)
  {
    assert Sealed(pos, pos);
    if pos < |s| {
      assert false;
    }
    assert s[pos..] == [];
  }

  /** A turn that finds at most `w` slots left appends them unmerged and ends the pass. */
  lemma PassLone<T>(n0: seq<Node<T>>, na: seq<Node<T>>, nb: seq<Node<T>>, s: seq<nat>, w: nat,
                    vals: seq<T>, comp: (T, T) -> bool,
                    pos: nat, out: seq<nat>, curHead: nat, curTail: nat)
    requires pos < |s| && |s| - pos <= w
    requires Passing(n0, na, s, w, vals, comp, pos, out, curHead, curTail, First(s[pos..]))
    requires var t := s[pos..]; var n := RunLength(|t|, w);
      Linked(nb, t[..n]) && RelinkedWithin(na, nb, t)
    ensures out != [] ==> Last(out) < |nb| && s[pos] < |nb|
    ensures (curHead == NONE) == (out == []) && curTail == Last(out)
    ensures s[pos..][0] == s[pos] && s[pos..][RunLength(|s[pos..]|, w) - 1] == Last(s)
    ensures Passing(n0, Appended(nb, out, s[pos..]), s, w, vals, comp, |s|, out + s[pos..],
                    if out == [] then s[pos] else curHead, Last(s), NONE)
  {
    assert Sealed(pos, pos);
    var t := s[pos..];
    assert t[..RunLength(|t|, w)] == t;
    assert t[0] == s[pos] && t[|t| - 1] == s[|s| - 1];
    DistinctSplit(out, t);
    KeepLinked(na, nb, t, out);
    AppendedLinked(nb, out, t);
    var app := Appended(nb, out, t);
    assert s[|s|..] == [] && out + t + [] == out + t;
    SameMembers(out + t, s);
    RelinkTrans(n0, na, nb, s, t, s);
    RelinkTrans(n0, nb, app, s, out + t, s);
  }

  /** Where the second sublist of a turn that starts at `pos` ends. */
  function PairEnd(n: nat, pos: nat, w: nat): nat {
    if n < pos + 2 * w then n else pos + 2 * w
  }

  /** A turn of the inner loop after both sublists were extracted: `out`, the
      two sublists and the rest of the chain are four chains of their own. */
  ghost predicate PairCut<T>(n0: seq<Node<T>>, nodes: seq<Node<T>>, s: seq<nat>, w: nat,
                             vals: seq<T>, comp: (T, T) -> bool,
                             pos: nat, out: seq<nat>, curHead: nat, curTail: nat)
  {
    |n0| < NONE && Holds(n0, vals) && InBounds(s, |n0|) && Distinct(s) && w >= 1 &&
    RelinkedWithin(n0, nodes, s) && pos + w < |s| &&
    var e := PairEnd(|s|, pos, w);
    var l1, l2, rest := s[pos..pos + w], s[pos + w..e], s[e..];
    MergePass(s, w, vals, comp) == out + Merged(l1, l2, vals, comp) + MergePass(rest, w, vals, comp) &&
    multiset(out + l1 + l2 + rest) == multiset(s) && Distinct(out + l1 + l2 + rest) &&
    Linked(nodes, out) && Linked(nodes, l1) && Linked(nodes, l2) && Linked(nodes, rest) &&
    curHead == First(out) && curTail == Last(out)
  }

  /** The pieces a turn cuts the rest `s[pos..]` of the chain into. */
  lemma PairSlices(s: seq<nat>, pos: nat, w: nat)
    requires w >= 1 && pos + w < |s|
    ensures var t := s[pos..]; var t2 := t[w..]; var n2 := RunLength(|t2|, w); var e := PairEnd(|s|, pos, w);
      t[..w] == s[pos..pos + w] && t2[..n2] == s[pos + w..e] && t2[n2..] == s[e..] &&
      t == s[pos..pos + w] + t2 && t2 == s[pos + w..e] + s[e..] &&
      t == s[pos..pos + w] + s[pos + w..e] + s[e..] &&
      s[pos..pos + w][0] == t[0] && s[pos + w..e][0] == t2[0] && pos + w < e
  {
  }

  /** A turn with more than `w` slots left merges the next two sublists. */
  lemma PairSpec<T>(s: seq<nat>, w: nat, vals: seq<T>, comp: (T, T) -> bool, pos: nat, out: seq<nat>)
    requires w >= 1 && pos + w < |s| && InBounds(s, |vals|)
    requires MergePass(s, w, vals, comp) == out + MergePass(s[pos..], w, vals, comp)
    ensures var e := PairEnd(|s|, pos, w);
      MergePass(s, w, vals, comp) ==
        out + Merged(s[pos..pos + w], s[pos + w..e], vals, comp) + MergePass(s[e..], w, vals, comp)
  {
    PairSlices(s, pos, w);
  }

  lemma Regroup(a: seq<nat>, b: seq<nat>, c: seq<nat>, d: seq<nat>)
    ensures a + b + c + d == a + (b + c + d)
  {
  }

  /** After both sublists of a turn were extracted they are ready to merge. */
  lemma PassPairReady<T>(n0: seq<Node<T>>, na: seq<Node<T>>, nb: seq<Node<T>>, nc: seq<Node<T>>,
                         s: seq<nat>, w: nat, vals: seq<T>, comp: (T, T) -> bool,
                         pos: nat, out: seq<nat>, curHead: nat, curTail: nat)
    requires pos + w < |s|
    requires Passing(n0, na, s, w, vals, comp, pos, out, curHead, curTail, First(s[pos..]))
    requires Linked(nb, s[pos..][..w]) && Linked(nb, s[pos..][w..]) && RelinkedWithin(na, nb, s[pos..])
    requires var t2 := s[pos..][w..]; var n2 := RunLength(|t2|, w);
      Linked(nc, t2[..n2]) && Linked(nc, t2[n2..]) && RelinkedWithin(nb, nc, t2)
    ensures var e := PairEnd(|s|, pos, w);
      MergeInput(nc, s[pos..pos + w], s[pos + w..e], vals) &&
      s[pos..pos + w][0] == s[pos..][0] && s[pos + w..e][0] == s[pos..][w..][0] &&
      PairCut(n0, nc, s, w, vals, comp, pos, out, curHead, curTail)
  {
    assert Sealed(pos, pos);
    var t := s[pos..];
    var t2 := t[w..];
    var e := PairEnd(|s|, pos, w);
    var l1, l2, rest := s[pos..pos + w], s[pos + w..e], s[e..];
    PairSlices(s, pos, w);
    PairSpec(s, w, vals, comp, pos, out);
    Regroup(out, l1, l2, rest);
    DistinctSplit(out, t);
    DistinctSplit(l1, t2);
    KeepLinked(na, nb, t, out);
    assert forall x :: x in t2 ==> x in t;
    KeepLinked(nb, nc, t2, out);
    KeepLinked(nb, nc, t2, l1);
    SameMembers(out + t, s);
    RelinkTrans(n0, na, nb, s, t, s);
    RelinkTrans(n0, nb, nc, s, t2, s);
    HoldsKept(n0, nc, s, vals);
    DistinctSplit(l1 + l2, rest);
  }

  /** Appending the merge of the two sublists ends the turn. */
  lemma PassPairDone<T>(n0: seq<Node<T>>, nc: seq<Node<T>>, nd: seq<Node<T>>,
                        s: seq<nat>, w: nat, vals: seq<T>, comp: (T, T) -> bool,
                        pos: nat, out: seq<nat>, curHead: nat, curTail: nat)
    requires PairCut(n0, nc, s, w, vals, comp, pos, out, curHead, curTail)
    requires var e := PairEnd(|s|, pos, w);
      var l1, l2 := s[pos..pos + w], s[pos + w..e];
      Linked(nd, Merged(l1, l2, vals, comp)) && RelinkedWithin(nc, nd, l1 + l2)
    ensures var e := PairEnd(|s|, pos, w);
      var ms := Merged(s[pos..pos + w], s[pos + w..e], vals, comp);
      ms != [] && (out != [] ==> Last(out) < |nd| && ms[0] < |nd|) &&
      (curHead == NONE) == (out == []) &&
      Passing(n0, Appended(nd, out, ms), s, w, vals, comp, e, out + ms,
              if out == [] then ms[0] else curHead, Last(ms), First(s[e..]))
  {
    var e := PairEnd(|s|, pos, w);
    var l1, l2, rest := s[pos..pos + w], s[pos + w..e], s[e..];
    var ms := Merged(l1, l2, vals, comp);
    DistinctSplit(out + l1 + l2, rest);
    DistinctSplit(out + l1, l2);
    DistinctSplit(out, l1);
    KeepLinked(nc, nd, l1 + l2, out);
    KeepLinked(nc, nd, l1 + l2, rest);
    MergedPermutes(l1, l2, vals, comp);
    PairDoneParts(out, l1, l2, rest, ms, s);
    DistinctSplit(out + ms, rest);
    AppendedLinked(nd, out, ms);
    var app := Appended(nd, out, ms);
    KeepLinked(nd, app, out + ms, rest);
    SameMembers(out + l1 + l2 + rest, s);
    SameMembers(out + ms + rest, s);
    RelinkTrans(n0, nc, nd, s, l1 + l2, s);
    RelinkTrans(n0, nd, app, s, out + ms, s);
  }

  lemma PairDoneParts(out: seq<nat>, l1: seq<nat>, l2: seq<nat>, rest: seq<nat>, ms: seq<nat>, s: seq<nat>)
    requires multiset(ms) == multiset(l1) + multiset(l2)
    requires multiset(out + l1 + l2 + rest) == multiset(s) && Distinct(s)
    ensures multiset(out + ms + rest) == multiset(s) && Distinct(out + ms + rest)
  {
    assert multiset(out + ms + rest) == multiset(out + l1 + l2 + rest);
    DistinctMultiset(out + ms + rest, s);
  }
}
