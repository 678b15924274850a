/** Physical Intelligence team page: `member_compare`. Members are the
    names on the page; the result lists the names that appeared and the
    names that vanished, each sorted as Python sorts strings, and the store
    keeps the crawled list as it came. */
module Members {
  import opened Wrappers
  import opened Records

  /** Python's `a < b` on `str`: lexicographic by code point, a proper
      prefix coming first. */
  predicate Below(a: string, b: string)
    decreases |a|
  {
    |b| > 0 && (|a| == 0 || a[0] < b[0] || (a[0] == b[0] && Below(a[1..], b[1..])))
  }

  lemma {:induction false} BelowIrreflexive(a: string)
    ensures !Below(a, a)
    decreases |a|
  {
    if |a| > 0 {
      BelowIrreflexive(a[1..]);
    }
  }

  lemma {:induction false} BelowTransitive(a: string, b: string, c: string)
    requires Below(a, b) && Below(b, c)
    ensures Below(a, c)
    decreases |a|
  {
    if |a| > 0 && a[0] == b[0] && b[0] == c[0] {
      BelowTransitive(a[1..], b[1..], c[1..]);
    }
  }

  lemma {:induction false} BelowTotal(a: string, b: string)
    requires a != b
    ensures Below(a, b) || Below(b, a)
    decreases |a|
  {
    if |a| > 0 && |b| > 0 && a[0] == b[0] {
      assert a == [a[0]] + a[1..] && b == [b[0]] + b[1..];
      BelowTotal(a[1..], b[1..]);
    }
  }

  /** Strictly increasing, hence free of duplicates. */
  predicate Ascending(s: seq<string>) {
    forall i, j :: 0 <= i < j < |s| ==> Below(s[i], s[j])
  }

  /** `sorted(list(names))` for a set of names: the ascending list of
      exactly those names. */
  ghost predicate IsSortedListOf(r: seq<string>, names: set<string>) {
    Ascending(r) && forall y :: y in r <==> y in names
  }

  /** Inserts `x` into an ascending list, keeping it ascending and without
      duplicates. */
  function Insert(x: string, s: seq<string>): (r: seq<string>)
    requires Ascending(s)
    ensures Ascending(r)
    ensures forall y :: y in r <==> y == x || y in s
    decreases |s|
  {
    if s == [] then [x]
    else if x == s[0] then s
    else if Below(x, s[0]) then
      assert Ascending([x] + s) by {
        forall j | 0 < j < |s| ensures Below(x, s[j]) {
          BelowTransitive(x, s[0], s[j]);
        }
      }
      [x] + s
    else
      BelowTotal(x, s[0]);
      var t := Insert(x, s[1..]);
      assert forall j :: 0 <= j < |t| ==> Below(s[0], t[j]) by {
        forall j | 0 <= j < |t| ensures Below(s[0], t[j]) {
          assert t[j] == x || t[j] in s[1..];
        }
      }
      [s[0]] + t
  }

  /** The distinct names of `xs`, in ascending order. */
  function SortUnique(xs: seq<string>): (r: seq<string>)
    ensures Ascending(r)
    ensures forall y :: y in r <==> y in xs
    decreases |xs|
  {
    if xs == [] then []
    else
      var n := |xs| - 1;
      assert xs == xs[..n] + [xs[n]];
      Insert(xs[n], SortUnique(xs[..n]))
  }

  /** The names of `a` that are not in `b`, in order, repeats kept. */
  function Difference(a: seq<string>, b: seq<string>): (r: seq<string>)
    ensures forall y :: y in r <==> y in a && y !in b
    decreases |a|
  {
    if a == [] then []
    else (if a[0] in b then [] else [a[0]]) + Difference(a[1..], b)
  }

  /** Two ascending lists of the same names are the same list. */
  lemma {:induction false} AscendingUnique(r: seq<string>, t: seq<string>)
    requires Ascending(r) && Ascending(t)
    requires forall y :: y in r <==> y in t
    ensures r == t
    decreases |r|
  {
    if r != [] {
      assert r[0] in t;
      assert t != [] && t[0] in r;
      if r[0] != t[0] {
        var i :| 0 <= i < |r| && r[i] == t[0];
        var j :| 0 <= j < |t| && t[j] == r[0];
        assert Below(r[0], t[0]);
        assert Below(t[0], r[0]);
        BelowTransitive(r[0], t[0], r[0]);
        BelowIrreflexive(r[0]);
        assert false;
      }
      forall y ensures y in r[1..] <==> y in t[1..] {
        if y in r[1..] {
          var i :| 1 <= i < |r| && r[i] == y;
          BelowIrreflexive(y);
          assert y in r;
          var j :| 0 <= j < |t| && t[j] == y;
          assert j != 0;
          assert t[1..][j - 1] == y;
        }
        if y in t[1..] {
          var j :| 1 <= j < |t| && t[j] == y;
          BelowIrreflexive(y);
          assert y in t;
          var i :| 0 <= i < |r| && r[i] == y;
          assert i != 0;
          assert r[1..][i - 1] == y;
        }
      }
      AscendingUnique(r[1..], t[1..]);
      assert r == [r[0]] + r[1..] && t == [t[0]] + t[1..];
    } else {
      NoNames(t);
    }
  }

  /** The result record: `added` and `removed` are lists of names. */
  datatype MemberReport = MemberReport(status: Status, added: seq<string>, removed: seq<string>)

  datatype MemberOutcome = MemberOutcome(report: MemberReport, snapshot: Snapshot<string>)

  /** `member_compare(curr_members)` against the store contents `snap`. A
      store that does not parse raises; the saved list is the crawl as it
      came, with its order and repeats. */
  function Compare(curr: seq<string>, snap: Snapshot<string>): (r: Result<MemberOutcome, Error>)
    ensures snap.Absent? ==>
      r == Success(MemberOutcome(MemberReport(Initialized, [], []), Present(curr)))
    ensures snap.Corrupt? ==> r == Failure(DecodeError)
    ensures snap.Present? ==>
      && r.Success?
      && r.value.report.status == Updated
      && r.value.snapshot == Present(curr)
      && Ascending(r.value.report.added)
      && Ascending(r.value.report.removed)
  {
    match snap
    case Absent => Success(MemberOutcome(MemberReport(Initialized, [], []), Present(curr)))
    case Corrupt => Failure(DecodeError)
    case Present(prev) =>
      var added := SortUnique(Difference(curr, prev));
      var removed := SortUnique(Difference(prev, curr));
      Success(MemberOutcome(MemberReport(Updated, added, removed), Present(curr)))
  }

  ghost function Names(xs: seq<string>): set<string> {
    set y | y in xs
  }

  /** A list is what `sorted(list(curr_set - prev_set))` returns exactly
      when it is the `added` of the model, and likewise for `removed`:
      whatever order Python lists the set difference in, sorting it gives
      the model's list. */
  lemma ListsAreSortedDifferences(curr: seq<string>, prev: seq<string>, xs: seq<string>)
    ensures var rep := Compare(curr, Present(prev)).value.report;
      && (IsSortedListOf(xs, Names(curr) - Names(prev)) <==> xs == rep.added)
      && (IsSortedListOf(xs, Names(prev) - Names(curr)) <==> xs == rep.removed)
  {
    var rep := Compare(curr, Present(prev)).value.report;
    if IsSortedListOf(xs, Names(curr) - Names(prev)) {
      AscendingUnique(xs, rep.added);
    }
    if IsSortedListOf(xs, Names(prev) - Names(curr)) {
      AscendingUnique(xs, rep.removed);
    }
  }

  /** Only the set of names matters: reordering or repeating names in the
      crawl or in the store does not change the report. */
  lemma OrderAndRepeatsIgnored(curr: seq<string>, curr2: seq<string>, prev: seq<string>, prev2: seq<string>)
    requires forall y :: y in curr <==> y in curr2
    requires forall y :: y in prev <==> y in prev2
    ensures Compare(curr, Present(prev)).value.report == Compare(curr2, Present(prev2)).value.report
  {
    var a := Compare(curr, Present(prev)).value.report;
    var b := Compare(curr2, Present(prev2)).value.report;
    AscendingUnique(a.added, b.added);
    AscendingUnique(a.removed, b.removed);
  }

  /** No name is both added and removed; an added name was not stored
      before and a removed name is not on the page now. */
  lemma AddedRemovedDisjoint(curr: seq<string>, prev: seq<string>)
    ensures var rep := Compare(curr, Present(prev)).value.report;
      && (forall y :: y in rep.added ==> y !in rep.removed && y !in prev)
      && (forall y :: y in rep.removed ==> y !in curr)
  {
  }

  /** When the page shows the same names as before, in any order, both
      lists are empty; and only then. */
  lemma QuietIffSameNames(curr: seq<string>, prev: seq<string>)
    ensures var rep := Compare(curr, Present(prev)).value.report;
      rep.added == [] && rep.removed == [] <==> forall y :: y in curr <==> y in prev
  {
    var rep := Compare(curr, Present(prev)).value.report;
    if !(forall y :: y in curr <==> y in prev) {
      var y :| !(y in curr <==> y in prev);
      if y in curr {
        assert y in rep.added;
      } else {
        assert y in rep.removed;
      }
    } else {
      NoNames(rep.added);
      NoNames(rep.removed);
    }
  }

  lemma NoNames(s: seq<string>)
    requires forall y :: y !in s
    ensures s == []
  {
    FirstIn(s);
  }

  lemma FirstIn(s: seq<string>)
    ensures |s| > 0 ==> s[0] in s
  {
  }
}
