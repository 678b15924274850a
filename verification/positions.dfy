/** Index sequences that pick elements out of a list in order: what a
    Python list comprehension with an `if` keeps. */
module Positions {

  /** Strictly increasing positions. */
  predicate Increasing(idx: seq<nat>) {
    forall j, k :: 0 <= j < k < |idx| ==> idx[j] < idx[k]
  }

  /** Every position moved one place to the right, as when a list loses
      its first element. */
  function Shift(idx: seq<nat>): (r: seq<nat>)
    ensures |r| == |idx|
    ensures forall j :: 0 <= j < |idx| ==> r[j] == idx[j] + 1
  {
    seq(|idx|, j requires 0 <= j < |idx| => idx[j] + 1)
  }

  /** Shifting keeps the order and moves membership by one. */
  lemma ShiftFacts(idx: seq<nat>)
    requires Increasing(idx)
    ensures Increasing(Shift(idx))
    ensures Increasing([0] + Shift(idx))
    ensures 0 !in Shift(idx)
    ensures forall i: nat :: i + 1 in Shift(idx) <==> i in idx
  {
    var r := Shift(idx);
    forall i: nat ensures i + 1 in r <==> i in idx {
      if i in idx {
        var j :| 0 <= j < |idx| && idx[j] == i;
        assert r[j] == i + 1;
      }
      if i + 1 in r {
        var j :| 0 <= j < |r| && r[j] == i + 1;
        assert idx[j] == i;
      }
    }
    var z := [0] + r;
    forall j, k | 0 <= j < k < |z| ensures z[j] < z[k] {
      if j > 0 {
        assert z[j] == r[j - 1] && z[k] == r[k - 1];
      }
    }
  }

  /** `r` reads `xs` at the positions `idx`. */
  ghost predicate ReadsAt<T>(idx: seq<nat>, xs: seq<T>, r: seq<T>) {
    |idx| == |r| && forall j :: 0 <= j < |idx| ==> idx[j] < |xs| && r[j] == xs[idx[j]]
  }

  /** Positions into the tail of a list, shifted, are positions into the
      list; with the head in front they read the head first. */
  lemma ReadsAtShift<T>(xs: seq<T>, rest: seq<nat>, r: seq<T>)
    requires xs != [] && ReadsAt(rest, xs[1..], r)
    ensures ReadsAt(Shift(rest), xs, r)
    ensures ReadsAt([0] + Shift(rest), xs, [xs[0]] + r)
  {
    var sh := Shift(rest);
    forall j | 0 <= j < |sh| ensures sh[j] < |xs| && r[j] == xs[sh[j]] {
      assert xs[1..][rest[j]] == xs[rest[j] + 1];
    }
    var z := [0] + sh;
    forall j | 0 < j < |z| ensures z[j] < |xs| && ([xs[0]] + r)[j] == xs[z[j]] {
      assert z[j] == sh[j - 1];
    }
  }
}
