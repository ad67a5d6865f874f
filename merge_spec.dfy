/** What the in-place bottom-up merge sort computes, stated on sequences of
    slot indices. The sort only relinks slots, so the order it produces is a
    sequence of slot indices; `vals[i]` is the value held by slot `i`, which
    the sort never changes. */
module MergeSpec {
  import opened Slots

  /** The comparator is a strict weak order, as the source's default std::less:
      asymmetric, and "not before" is transitive. */
  ghost predicate StrictWeakOrder<T(!new)>(comp: (T, T) -> bool) {
    (forall a, b :: comp(a, b) ==> !comp(b, a)) &&
    (forall a, b, c :: comp(a, c) ==> comp(a, b) || comp(b, c))
  }

  /** Along `s`, no slot's value goes strictly before its predecessor's:
      the values are non-decreasing under `comp`. */
  ghost predicate Ordered<T>(s: seq<nat>, vals: seq<T>, comp: (T, T) -> bool)
    requires InBounds(s, |vals|)
  {
    forall k :: 0 <= k < |s| - 1 ==> !comp(vals[s[k + 1]], vals[s[k]])
  }

  /** `mergeIterative`: while both chains are non-empty, take the head of the
      left chain if its value goes strictly before the right head's, otherwise
      the right head; then attach what is left. */
  function Merged<T>(ls: seq<nat>, rs: seq<nat>, vals: seq<T>, comp: (T, T) -> bool): (ms: seq<nat>)
    requires InBounds(ls, |vals|) && InBounds(rs, |vals|)
    ensures |ms| == |ls| + |rs|
    ensures InBounds(ms, |vals|)
    decreases |ls| + |rs|
  {
    if ls == [] then rs
    else if rs == [] then ls
    else if comp(vals[ls[0]], vals[rs[0]]) then [ls[0]] + Merged(ls[1..], rs, vals, comp)
    else [rs[0]] + Merged(ls, rs[1..], vals, comp)
  }

  /** One pass of the outer loop of `bottomUpMergeSortRange`: cut the chain
      into runs of `w` slots and merge them pairwise; a lone last run is kept. */
  function MergePass<T>(s: seq<nat>, w: nat, vals: seq<T>, comp: (T, T) -> bool): (r: seq<nat>)
    requires w >= 1 && InBounds(s, |vals|)
    ensures |r| == |s|
    ensures InBounds(r, |vals|)
    decreases |s|
  {
    if |s| <= w then s
    else
      var rest := s[w..];
      var n2 := if |rest| < w then |rest| else w;
      var p := MergePass(rest[n2..], w, vals, comp);
      assert s == s[..w] + rest[..n2] + rest[n2..];
      Merged(s[..w], rest[..n2], vals, comp) + p
  }

  /** The outer loop: passes with run lengths 1, 2, 4, ... while a run is
      shorter than the whole range. */
  function BottomUp<T>(s: seq<nat>, w: nat, vals: seq<T>, comp: (T, T) -> bool): (r: seq<nat>)
    requires w >= 1 && InBounds(s, |vals|)
    ensures |r| == |s|
    ensures InBounds(r, |vals|)
    decreases if w < |s| then |s| - w else 0
  {
    if |s| <= w then s else BottomUp(MergePass(s, w, vals, comp), 2 * w, vals, comp)
  }

  /** The order in which the sort leaves the slots of a range. */
  function SortedSlots<T>(s: seq<nat>, vals: seq<T>, comp: (T, T) -> bool): seq<nat>
    requires InBounds(s, |vals|)
  {
    BottomUp(s, 1, vals, comp)
  }

  /** Every run of `w` slots (and the last, shorter one) is ordered. */
  ghost predicate RunsOrdered<T>(s: seq<nat>, w: nat, vals: seq<T>, comp: (T, T) -> bool)
    requires w >= 1 && InBounds(s, |vals|)
    decreases |s|
  {
    if |s| <= w then Ordered(s, vals, comp)
    else Ordered(s[..w], vals, comp) && RunsOrdered(s[w..], w, vals, comp)
  }

  lemma {:induction false} MergedHead<T>(ls: seq<nat>, rs: seq<nat>, vals: seq<T>, comp: (T, T) -> bool)
    requires InBounds(ls, |vals|) && InBounds(rs, |vals|)
    requires ls != [] || rs != []
    ensures |Merged(ls, rs, vals, comp)| > 0
    ensures Merged(ls, rs, vals, comp)[0] == (
      if ls == [] then rs[0]
      else if rs == [] then ls[0]
      else if comp(vals[ls[0]], vals[rs[0]]) then ls[0]
      else rs[0])
  {
  }

  /** Merging two ordered chains gives an ordered chain. */
  lemma {:induction false} MergedOrdered<T(!new)>(ls: seq<nat>, rs: seq<nat>, vals: seq<T>, comp: (T, T) -> bool)
    requires StrictWeakOrder(comp)
    requires InBounds(ls, |vals|) && InBounds(rs, |vals|)
    requires Ordered(ls, vals, comp) && Ordered(rs, vals, comp)
    ensures Ordered(Merged(ls, rs, vals, comp), vals, comp)
    decreases |ls| + |rs|
  {
    if ls == [] || rs == [] {
    } else if comp(vals[ls[0]], vals[rs[0]]) {
      var m := Merged(ls[1..], rs, vals, comp);
      MergedOrdered(ls[1..], rs, vals, comp);
      if m != [] {
        MergedHead(ls[1..], rs, vals, comp);
      }
      assert Merged(ls, rs, vals, comp) == [ls[0]] + m;
    } else {
      var m := Merged(ls, rs[1..], vals, comp);
      MergedOrdered(ls, rs[1..], vals, comp);
      MergedHead(ls, rs[1..], vals, comp);
      assert Merged(ls, rs, vals, comp) == [rs[0]] + m;
    }
  }

  /** A single slot is ordered, so every chain is made of ordered runs of 1. */
  lemma {:induction false} RunsOfOne<T>(s: seq<nat>, vals: seq<T>, comp: (T, T) -> bool)
    requires InBounds(s, |vals|)
    ensures RunsOrdered(s, 1, vals, comp)
    decreases |s|
  {
    if |s| > 1 {
      RunsOfOne(s[1..], vals, comp);
    }
  }

  /** A pass over ordered runs of `w` leaves ordered runs of `2 * w`. */
  lemma {:induction false} PassDoublesRuns<T(!new)>(s: seq<nat>, w: nat, vals: seq<T>, comp: (T, T) -> bool)
    requires StrictWeakOrder(comp)
    requires w >= 1 && InBounds(s, |vals|)
    requires RunsOrdered(s, w, vals, comp)
    ensures RunsOrdered(MergePass(s, w, vals, comp), 2 * w, vals, comp)
    decreases |s|
  {
    if |s| > w {
      var rest := s[w..];
      var n2 := if |rest| < w then |rest| else w;
      var l2 := rest[..n2];
      assert Ordered(l2, vals, comp) by {
        if |rest| > w { assert l2 == rest[..w]; }
      }
      var m := Merged(s[..w], l2, vals, comp);
      MergedOrdered(s[..w], l2, vals, comp);
      var p := MergePass(rest[n2..], w, vals, comp);
      assert MergePass(s, w, vals, comp) == m + p;
      assert |m| == |multiset(m)| == w + n2;
      if n2 < w {
        assert rest[n2..] == [];
        assert m + p == m;
      } else if rest[n2..] == [] {
        assert m + p == m;
      } else {
        PassDoublesRuns(rest[n2..], w, vals, comp);
        RunsJoin(m, p, w, vals, comp);
      }
    }
  }

  /** An ordered run of `2 * w` slots in front of ordered runs of `2 * w`
      gives ordered runs of `2 * w`. */
  lemma RunsJoin<T>(m: seq<nat>, p: seq<nat>, w: nat, vals: seq<T>, comp: (T, T) -> bool)
    requires w >= 1 && InBounds(m, |vals|) && InBounds(p, |vals|) && |m| == 2 * w && p != []
    requires Ordered(m, vals, comp) && RunsOrdered(p, 2 * w, vals, comp)
    ensures RunsOrdered(m + p, 2 * w, vals, comp)
  {
    assert (m + p)[..2 * w] == m;
    assert (m + p)[2 * w..] == p;
  }

  /** Once runs of `w` are ordered, the remaining passes leave the chain ordered. */
  lemma {:induction false} BottomUpOrdered<T(!new)>(s: seq<nat>, w: nat, vals: seq<T>, comp: (T, T) -> bool)
    requires StrictWeakOrder(comp)
    requires w >= 1 && InBounds(s, |vals|)
    requires RunsOrdered(s, w, vals, comp)
    ensures Ordered(BottomUp(s, w, vals, comp), vals, comp)
    decreases if w < |s| then |s| - w else 0
  {
    if |s| > w {
      var p := MergePass(s, w, vals, comp);
      PassDoublesRuns(s, w, vals, comp);
      assert |p| == |multiset(p)| == |s|;
      BottomUpOrdered(p, 2 * w, vals, comp);
    }
  }

  /** Merging takes every slot of both chains, each once. */
  lemma {:induction false} MergedPermutes<T>(ls: seq<nat>, rs: seq<nat>, vals: seq<T>, comp: (T, T) -> bool)
    requires InBounds(ls, |vals|) && InBounds(rs, |vals|)
    ensures multiset(Merged(ls, rs, vals, comp)) == multiset(ls) + multiset(rs)
    decreases |ls| + |rs|
  {
    if ls == [] || rs == [] {
    } else if comp(vals[ls[0]], vals[rs[0]]) {
      MergedPermutes(ls[1..], rs, vals, comp);
      ConsPermutes(ls, Merged(ls[1..], rs, vals, comp), multiset(rs));
    } else {
      MergedPermutes(ls, rs[1..], vals, comp);
      ConsPermutes(rs, Merged(ls, rs[1..], vals, comp), multiset(ls));
    }
  }

  /** Putting the head of `s` in front of a rearrangement of its tail and
      the slots `other` gives a rearrangement of `s` and `other`. */
  lemma ConsPermutes(s: seq<nat>, m: seq<nat>, other: multiset<nat>)
    requires s != [] && multiset(m) == multiset(s[1..]) + other
    ensures multiset([s[0]] + m) == multiset(s) + other
  {
    assert s == [s[0]] + s[1..];
  }

  /** A pass only reorders the slots of the chain. */
  lemma {:induction false} PassPermutes<T>(s: seq<nat>, w: nat, vals: seq<T>, comp: (T, T) -> bool)
    requires w >= 1 && InBounds(s, |vals|)
    ensures multiset(MergePass(s, w, vals, comp)) == multiset(s)
    decreases |s|
  {
    if |s| > w {
      var rest := s[w..];
      var n2 := if |rest| < w then |rest| else w;
      var m := Merged(s[..w], rest[..n2], vals, comp);
      var p := MergePass(rest[n2..], w, vals, comp);
      MergedPermutes(s[..w], rest[..n2], vals, comp);
      PassPermutes(rest[n2..], w, vals, comp);
      JoinPermutes(s, w, n2, m, p);
    }
  }

  /** A rearrangement of the first two parts of `s` followed by one of the
      third is a rearrangement of `s`. */
  lemma JoinPermutes(s: seq<nat>, w: nat, n2: nat, m: seq<nat>, p: seq<nat>)
    requires w + n2 <= |s|
    requires multiset(m) == multiset(s[..w]) + multiset(s[w..][..n2])
    requires multiset(p) == multiset(s[w..][n2..])
    ensures multiset(m + p) == multiset(s)
  {
    assert s == s[..w] + s[w..][..n2] + s[w..][n2..];
  }

  /** The passes from run length `w` on only reorder the slots of the chain. */
  lemma {:induction false} BottomUpPermutes<T>(s: seq<nat>, w: nat, vals: seq<T>, comp: (T, T) -> bool)
    requires w >= 1 && InBounds(s, |vals|)
    ensures multiset(BottomUp(s, w, vals, comp)) == multiset(s)
    decreases if w < |s| then |s| - w else 0
  {
    if |s| > w {
      PassPermutes(s, w, vals, comp);
      BottomUpPermutes(MergePass(s, w, vals, comp), 2 * w, vals, comp);
    }
  }

  /** The sort leaves a range ordered and holding the same slots. */
  lemma SortedSlotsCorrect<T(!new)>(s: seq<nat>, vals: seq<T>, comp: (T, T) -> bool)
    requires StrictWeakOrder(comp)
    requires InBounds(s, |vals|)
    ensures Ordered(SortedSlots(s, vals, comp), vals, comp)
    ensures multiset(SortedSlots(s, vals, comp)) == multiset(s)
  {
    RunsOfOne(s, vals, comp);
    BottomUpOrdered(s, 1, vals, comp);
    BottomUpPermutes(s, 1, vals, comp);
  }

  /** `v` equals the key `w` (a run length, a position, a loop counter).
      Used as the trigger of a quantifier over `v`, it keeps what the
      quantifier says about `w` folded away except where a proof names
      `Sealed(w, w)`. */
  ghost predicate Sealed(v: nat, w: nat) {
    v == w
  }

  /** `t` is the order in which the sort leaves the slots `s`, that is
      `SortedSlots(s, vals, comp)`; stated behind `Sealed`. */
  ghost predicate SortsTo<T>(s: seq<nat>, vals: seq<T>, comp: (T, T) -> bool, t: seq<nat>)
    requires InBounds(s, |vals|)
  {
    forall v {:trigger Sealed(v, 1)} :: Sealed(v, 1) ==> BottomUp(s, v, vals, comp) == t
  }

  lemma SortsToSorted<T>(s: seq<nat>, vals: seq<T>, comp: (T, T) -> bool, t: seq<nat>)
    requires InBounds(s, |vals|)
    ensures SortsTo(s, vals, comp, t) <==> t == SortedSlots(s, vals, comp)
  {
    assert Sealed(1, 1);
  }

  /** The sort leaves a range holding the same slots, whatever `comp` is. */
  lemma SortsToPermutes<T>(s: seq<nat>, vals: seq<T>, comp: (T, T) -> bool, t: seq<nat>)
    requires InBounds(s, |vals|) && SortsTo(s, vals, comp, t)
    ensures multiset(t) == multiset(s)
  {
    assert Sealed(1, 1);
    BottomUpPermutes(s, 1, vals, comp);
  }

  /** With a strict weak order the sort leaves a range ordered. */
  lemma SortsToOrdered<T(!new)>(s: seq<nat>, vals: seq<T>, comp: (T, T) -> bool, t: seq<nat>)
    requires StrictWeakOrder(comp) && InBounds(s, |vals|) && SortsTo(s, vals, comp, t)
    ensures InBounds(t, |vals|) && Ordered(t, vals, comp)
  {
    assert Sealed(1, 1);
    SortedSlotsCorrect(s, vals, comp);
  }

  /** A range of at most one slot is left as it is. */
  lemma SortsToShort<T>(s: seq<nat>, vals: seq<T>, comp: (T, T) -> bool)
    requires InBounds(s, |vals|) && |s| <= 1
    ensures SortsTo(s, vals, comp, s)
  {
    assert Sealed(1, 1);
  }

  /** Ordered means ordered pairwise: no later value goes strictly before an
      earlier one. */
  lemma {:induction false} OrderedPairwise<T(!new)>(s: seq<nat>, vals: seq<T>, comp: (T, T) -> bool)
    requires StrictWeakOrder(comp)
    requires InBounds(s, |vals|) && Ordered(s, vals, comp)
    ensures forall i, j :: 0 <= i < j < |s| ==> !comp(vals[s[j]], vals[s[i]])
    decreases |s|
  {
    if |s| > 1 {
      OrderedPairwise(s[1..], vals, comp);
      forall j | 1 < j < |s| ensures !comp(vals[s[j]], vals[s[0]]) {
        assert !comp(vals[s[j]], vals[s[1]]) by { assert s[j] == s[1..][j - 1]; }
      }
    }
  }

  /** The merge is not stable: when the two heads are equivalent it takes the
      right one first, so an element of the right run overtakes an equal
      element of the left run. */
  lemma MergeTieTakesRight<T>(ls: seq<nat>, rs: seq<nat>, vals: seq<T>, comp: (T, T) -> bool)
    requires InBounds(ls, |vals|) && InBounds(rs, |vals|)
    requires ls != [] && rs != []
    requires !comp(vals[ls[0]], vals[rs[0]]) && !comp(vals[rs[0]], vals[ls[0]])
    ensures Merged(ls, rs, vals, comp)[0] == rs[0]
    ensures Merged(ls, rs, vals, comp)[..1] + Merged(ls, rs[1..], vals, comp) == Merged(ls, rs, vals, comp)
  {
  }

  /** Sorting two slots is one comparison: the left one stays first only if
      its value goes strictly before the right one's. */
  lemma SortPair<T>(s: seq<nat>, vals: seq<T>, comp: (T, T) -> bool)
    requires |s| == 2 && InBounds(s, |vals|)
    ensures SortedSlots(s, vals, comp) == if comp(vals[s[0]], vals[s[1]]) then s else [s[1], s[0]]
  {
    var p := MergePass(s, 1, vals, comp);
    PassOfTwoRuns(s, 1, vals, comp);
    assert s[..1] == [s[0]] && s[1..] == [s[1]];
    MergedPair(s[0], s[1], vals, comp);
    assert p == if comp(vals[s[0]], vals[s[1]]) then s else [s[1], s[0]];
    assert |p| == 2 && BottomUp(p, 2, vals, comp) == p;
    assert BottomUp(s, 1, vals, comp) == BottomUp(p, 2, vals, comp);
  }

  lemma MergedPair<T>(a: nat, b: nat, vals: seq<T>, comp: (T, T) -> bool)
    requires a < |vals| && b < |vals|
    ensures Merged([a], [b], vals, comp) == if comp(vals[a], vals[b]) then [a, b] else [b, a]
  {
    assert [a][1..] == [] && [b][1..] == [];
  }

  /** A pass over a chain of more than one and at most two runs merges the two. */
  lemma PassOfTwoRuns<T>(s: seq<nat>, w: nat, vals: seq<T>, comp: (T, T) -> bool)
    requires w >= 1 && w < |s| <= 2 * w && InBounds(s, |vals|)
    ensures MergePass(s, w, vals, comp) == Merged(s[..w], s[w..], vals, comp)
  {
    var rest := s[w..];
    assert rest[..|rest|] == rest && rest[|rest|..] == [];
  }

  /** Sorting two slots that hold equal integers swaps them: slots 0 and 1 both
      hold 7 and come out as 1 then 0, so sorting an already sorted list can
      change which slot comes first. */
  lemma SortSwapsEqualPair()
    ensures SortedSlots([0, 1], [7, 7], (a: int, b: int) => a < b) == [1, 0]
  {
    SortPair([0, 1], [7, 7], (a: int, b: int) => a < b);
  }
}
