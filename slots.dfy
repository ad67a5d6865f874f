/** Sequences of slot indices: the vocabulary shared by the arena model and
    the sort specification. A slot index is a `size_t` in the source; SIZE_MAX
    stands for "no slot". */
module Slots {

  /** SIZE_MAX on a 64-bit target: the index that names no slot. */
  const NONE: nat := 0xFFFF_FFFF_FFFF_FFFF

  /** No slot index occurs twice. */
  ghost predicate Distinct(s: seq<nat>) {
    forall i, j {:trigger Apart(s, i, j)} :: 0 <= i < j < |s| ==> Apart(s, i, j)
  }

  /** Positions `i` and `j` of `s` hold different slots. Stated apart so that
      `Distinct` is used only where a proof asks about a pair of positions. */
  ghost predicate Apart(s: seq<nat>, i: nat, j: nat)
    requires i < |s| && j < |s|
  {
    s[i] != s[j]
  }

  /** Every index of `s` names a slot of an arena of `n` slots. */
  ghost predicate InBounds(s: seq<nat>, n: nat) {
    forall k :: 0 <= k < |s| ==> s[k] < n
  }

  /** In a sequence without repeats, two positions hold the same slot only if they are one. */
  lemma DistinctAt(s: seq<nat>, i: nat, j: nat)
    requires Distinct(s) && i < |s| && j < |s|
    ensures s[i] == s[j] <==> i == j
  {
    if i != j {
      var lo, hi := if i < j then i else j, if i < j then j else i;
      assert Apart(s, lo, hi);
    }
  }

  /** The first slot of a chain, or NONE for an empty chain (how `head` is kept). */
  function First(s: seq<nat>): nat {
    if s == [] then NONE else s[0]
  }

  /** The last slot of a chain, or NONE for an empty chain (how `tail` is kept). */
  function Last(s: seq<nat>): nat {
    if s == [] then NONE else s[|s| - 1]
  }

  /** The slot after position `k` of chain `s`, or NONE at its end. */
  function NextOf(s: seq<nat>, k: nat): nat {
    if k + 1 < |s| then s[k + 1] else NONE
  }

  /** The slot before position `k` of chain `s`, or NONE at its start. */
  function PrevOf(s: seq<nat>, k: nat): nat {
    if 0 < k <= |s| then s[k - 1] else NONE
  }

  /** The position of the first occurrence of `x` in `s`. */
  function IndexOf(s: seq<nat>, x: nat): (k: nat)
    requires x in s
    ensures k < |s| && s[k] == x
  {
    if s[0] == x then 0 else IndexOf(s[1..], x) + 1
  }

  lemma DistinctIndexOf(s: seq<nat>, k: nat)
    requires Distinct(s) && k < |s|
    ensures IndexOf(s, s[k]) == k
  {
    DistinctAt(s, IndexOf(s, s[k]), k);
  }

  /** The elements of a sequence in reverse order. */
  function Reverse<A>(s: seq<A>): (r: seq<A>)
    ensures |r| == |s|
    ensures forall k :: 0 <= k < |s| ==> r[k] == s[|s| - 1 - k]
  {
    if s == [] then [] else Reverse(s[1..]) + [s[0]]
  }

  /** Reversing a sequence with one more element at its end puts that element first. */
  lemma ReverseSnoc<A>(s: seq<A>, x: A)
    ensures Reverse(s + [x]) == [x] + Reverse(s)
  {
    var r := Reverse(s + [x]);
    assert forall k :: 0 < k < |r| ==> r[k] == Reverse(s)[k - 1];
  }

  /** Putting `x` right after a prefix `a` of `a + m + c` extends the middle part. */
  lemma SpliceAfter<A>(a: seq<A>, m: seq<A>, c: seq<A>, x: A)
    ensures (a + m + c)[..|a|] + [x] + (a + m + c)[|a|..] == a + ([x] + m) + c
  {
    assert (a + m + c)[..|a|] == a;
    assert (a + m + c)[|a|..] == m + c;
  }

  /** One step of a range insert: putting `x` at position `k` of `a + m + c`,
      right after `a` or right before `c`, grows the middle part at its front
      or at its back. */
  lemma SpliceStep<A>(a: seq<A>, m: seq<A>, c: seq<A>, x: A, k: nat, atFront: bool)
    requires if atFront then k == |a| else k == |a| + |m| && c == []
    ensures (a + m + c)[..k] + [x] + (a + m + c)[k..] ==
      a + (if atFront then [x] + m else m + [x]) + c
  {
    if atFront {
      SpliceAfter(a, m, c, x);
    } else {
      assert (a + m + c)[..k] == a + m;
    }
  }

  /** Taking one more element of `s` adds it at the back, and at the front
      of the reversed prefix. */
  lemma TakeOneMore<A>(s: seq<A>, i: nat)
    requires i < |s|
    ensures s[..i + 1] == s[..i] + [s[i]]
    ensures Reverse(s[..i + 1]) == [s[i]] + Reverse(s[..i])
  {
    assert s[..i + 1] == s[..i] + [s[i]];
    ReverseSnoc(s[..i], s[i]);
  }

  /** Putting `x` at position `k` and then dropping position `k` again gives
      back the sequence; `x` sits at `k` in between. */
  lemma SpliceDrop<A>(s: seq<A>, k: nat, x: A)
    requires k <= |s|
    ensures var r := s[..k] + [x] + s[k..];
      |r| == |s| + 1 && r[k] == x && r[..k] + r[k + 1..] == s
  {
    var r := s[..k] + [x] + s[k..];
    assert r[..k] == s[..k] && r[k + 1..] == s[k..];
  }

  /** The parts of `a + t + c` can be sliced back out of it. */
  lemma SpliceParts<A>(a: seq<A>, t: seq<A>, c: seq<A>)
    ensures var s := a + t + c;
      s[|a|..|a| + |t|] == t && s == a + s[|a|..|a| + |t|] + c
  {
    var s := a + t + c;
    assert s[|a|..|a| + |t|] == t;
  }

  /** One step of a range erase: dropping the element right after `a` from
      `a + c` drops the first element of `c`. */
  lemma DropStep<A>(a: seq<A>, c: seq<A>)
    requires c != []
    ensures (a + c)[..|a|] + (a + c)[|a| + 1..] == a + c[1..]
  {
    assert (a + c)[..|a|] == a;
    assert (a + c)[|a| + 1..] == c[1..];
  }

  /** Extending a slice by one element puts that element first in its reverse. */
  lemma ReverseSliceStep<A>(s: seq<A>, i: nat, m: nat, f: seq<A>)
    requires i <= m < |s|
    ensures Reverse(s[i..m + 1]) + f == [s[m]] + (Reverse(s[i..m]) + f)
  {
    assert s[i..m + 1] == s[i..m] + [s[m]];
    ReverseSnoc(s[i..m], s[m]);
  }

  /** Removing one position keeps a sequence distinct, and drops exactly that slot. */
  lemma DistinctRemove(s: seq<nat>, k: nat)
    requires Distinct(s) && k < |s|
    ensures Distinct(s[..k] + s[k + 1..])
    ensures forall x :: x in s[..k] + s[k + 1..] <==> x in s && x != s[k]
  {
    var r := s[..k] + s[k + 1..];
    forall i, j | 0 <= i < j < |r| ensures Apart(r, i, j) {
      var i', j' := if i < k then i else i + 1, if j < k then j else j + 1;
      assert r[i] == s[i'] && r[j] == s[j'] && Apart(s, i', j');
    }
    forall x | x in r ensures x in s && x != s[k] {
      var i :| 0 <= i < |r| && r[i] == x;
      if i < k {
        assert r[i] == s[i] && Apart(s, i, k);
      } else {
        assert r[i] == s[i + 1] && Apart(s, k, i + 1);
      }
    }
    forall x | x in s && x != s[k] ensures x in r {
      var i :| 0 <= i < |s| && s[i] == x;
      if i < k { assert r[i] == x; } else { assert r[i - 1] == x; }
    }
  }

  /** Inserting a fresh slot anywhere keeps a sequence distinct. */
  lemma DistinctInsert(s: seq<nat>, k: nat, x: nat)
    requires Distinct(s) && k <= |s| && x !in s
    ensures Distinct(s[..k] + [x] + s[k..])
  {
    var r := s[..k] + [x] + s[k..];
    forall i, j | 0 <= i < j < |r| ensures Apart(r, i, j) {
      if j < k {
        assert r[i] == s[i] && r[j] == s[j] && Apart(s, i, j);
      } else if i < k && k < j {
        assert r[i] == s[i] && r[j] == s[j - 1] && Apart(s, i, j - 1);
      } else if k < i {
        assert r[i] == s[i - 1] && r[j] == s[j - 1] && Apart(s, i - 1, j - 1);
      } else if i == k {
        assert r[j] == s[j - 1];
      } else {
        assert r[i] == s[i];
      }
    }
  }

  /** In a sequence without repeats every slot occurs at most once. */
  lemma {:induction false} DistinctCount(s: seq<nat>, x: nat)
    requires Distinct(s)
    ensures multiset(s)[x] <= 1
    decreases |s|
  {
    if s != [] {
      assert s == [s[0]] + s[1..];
      assert Distinct(s[1..]) by {
        forall i, j | 0 <= i < j < |s| - 1 ensures Apart(s[1..], i, j) {
          assert Apart(s, i + 1, j + 1);
        }
      }
      DistinctCount(s[1..], x);
      if x == s[0] {
        assert x !in s[1..] by {
          forall i | 0 <= i < |s| - 1 ensures s[1..][i] != x { assert Apart(s, 0, i + 1); }
        }
      }
    }
  }

  /** A sequence holding the same slots as a sequence without repeats has no repeats. */
  lemma DistinctMultiset(a: seq<nat>, b: seq<nat>)
    requires multiset(a) == multiset(b) && Distinct(b)
    ensures Distinct(a)
  {
    forall i, j | 0 <= i < j < |a| ensures Apart(a, i, j) {
      DistinctCount(b, a[i]);
      assert a == a[..j] + [a[j]] + a[j + 1..];
      assert a[i] in a[..j];
    }
  }

  /** Two parts of a sequence without repeats share no slot. */
  lemma DisjointParts(a: seq<nat>, b: seq<nat>, c: seq<nat>)
    requires multiset(a) + multiset(b) == multiset(c) && Distinct(c)
    ensures forall x :: x in a ==> x !in b
  {
    forall x | x in a ensures x !in b {
      DistinctCount(c, x);
    }
  }
}
