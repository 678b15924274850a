/** `normalize_id` of the DYNA and Skild AI position crawlers (the two copies
    are identical): `re.sub(r"[^a-z0-9]+", "-", s.lower()).strip("-")`. */
module Slug {
  import opened Ascii

  predicate IsSlugChar(c: char) { IsLower(c) || IsDigit(c) }

  /** Drops the leading run of characters outside `[a-z0-9]`. */
  function DropRun(s: string): (r: string)
    ensures |r| <= |s| && r == s[|s| - |r|..]
    ensures r == [] || IsSlugChar(r[0])
    decreases |s|
  {
    if s == [] || IsSlugChar(s[0]) then s else DropRun(s[1..])
  }

  /** `re.sub(r"[^a-z0-9]+", "-", s)`: every maximal run of characters
      outside `[a-z0-9]` becomes one hyphen. */
  function Collapse(s: string): string
    decreases |s|
  {
    if s == [] then []
    else if IsSlugChar(s[0]) then [s[0]] + Collapse(s[1..])
    else "-" + Collapse(DropRun(s[1..]))
  }

  /** A letter or digit at the front is kept, and only the empty string
      collapses to the empty string. */
  lemma CollapseHead(s: string)
    ensures s != [] && IsSlugChar(s[0]) ==> Collapse(s) != [] && Collapse(s)[0] == s[0]
    ensures s != [] ==> Collapse(s) != []
  {
  }

  /** `s.lstrip("-")` */
  function TrimLeft(s: string): string
    decreases |s|
  {
    if s != [] && s[0] == '-' then TrimLeft(s[1..]) else s
  }

  /** `lstrip("-")` cuts off exactly the leading hyphens. */
  lemma {:induction false} TrimLeftSpec(s: string)
    ensures var r := TrimLeft(s);
      && |r| <= |s| && r == s[|s| - |r|..]
      && (r == [] || r[0] != '-')
      && forall i :: 0 <= i < |s| - |r| ==> s[i] == '-'
    decreases |s|
  {
    if s != [] && s[0] == '-' {
      TrimLeftSpec(s[1..]);
      var r := TrimLeft(s[1..]);
      assert s[1..][|s| - 1 - |r|..] == s[|s| - |r|..];
      forall i | 0 <= i < |s| - |r| ensures s[i] == '-' {
        if i > 0 {
          assert s[i] == s[1..][i - 1];
        }
      }
    }
  }

  /** `s.rstrip("-")` */
  function TrimRight(s: string): string
    decreases |s|
  {
    if s != [] && s[|s| - 1] == '-' then TrimRight(s[..|s| - 1]) else s
  }

  /** `rstrip("-")` cuts off exactly the trailing hyphens. */
  lemma {:induction false} TrimRightSpec(s: string)
    ensures var r := TrimRight(s);
      && |r| <= |s| && r == s[..|r|]
      && (r == [] || r[|r| - 1] != '-')
      && forall i :: |r| <= i < |s| ==> s[i] == '-'
    decreases |s|
  {
    if s != [] && s[|s| - 1] == '-' {
      var n := |s| - 1;
      TrimRightSpec(s[..n]);
      var r := TrimRight(s[..n]);
      assert s[..n][..|r|] == s[..|r|];
      forall i | |r| <= i < |s| ensures s[i] == '-' {
        if i < n {
          assert s[i] == s[..n][i];
        }
      }
    }
  }

  /** `s.strip("-")` */
  function TrimHyphens(s: string): string {
    TrimRight(TrimLeft(s))
  }

  function NormalizeId(s: string): string {
    TrimHyphens(Collapse(Lower(s)))
  }

  /** Only `a-z`, `0-9` and `-`. */
  predicate InAlphabet(t: string) {
    forall i :: 0 <= i < |t| ==> IsSlugChar(t[i]) || t[i] == '-'
  }

  predicate NoDoubleHyphen(t: string) {
    forall i :: 0 <= i < |t| - 1 ==> !(t[i] == '-' && t[i + 1] == '-')
  }

  predicate NoEdgeHyphen(t: string) {
    t == [] || (t[0] != '-' && t[|t| - 1] != '-')
  }

  /** A well-formed id: kebab-case over `[a-z0-9]`. */
  predicate IsSlug(t: string) {
    InAlphabet(t) && NoDoubleHyphen(t) && NoEdgeHyphen(t)
  }

  /** The letters and digits of `s`, in order. */
  function Alnums(s: string): (r: string)
    decreases |s|
  {
    if s == [] then []
    else (if IsSlugChar(s[0]) then [s[0]] else []) + Alnums(s[1..])
  }

  lemma {:induction false} AlnumsAppend(a: string, b: string)
    ensures Alnums(a + b) == Alnums(a) + Alnums(b)
    decreases |a|
  {
    if a != [] {
      assert (a + b)[1..] == a[1..] + b;
      AlnumsAppend(a[1..], b);
    } else {
      assert a + b == b;
    }
  }

  lemma {:induction false} DropRunAlnums(s: string)
    ensures Alnums(DropRun(s)) == Alnums(s)
    decreases |s|
  {
    if s != [] && !IsSlugChar(s[0]) {
      DropRunAlnums(s[1..]);
    }
  }

  lemma {:induction false} CollapseShape(s: string)
    ensures InAlphabet(Collapse(s))
    ensures NoDoubleHyphen(Collapse(s))
    ensures Alnums(Collapse(s)) == Alnums(s)
    decreases |s|
  {
    if s == [] {
    } else if IsSlugChar(s[0]) {
      CollapseShape(s[1..]);
      AlnumsAppend([s[0]], Collapse(s[1..]));
    } else {
      var d := DropRun(s[1..]);
      CollapseShape(d);
      DropRunAlnums(s[1..]);
      AlnumsAppend("-", Collapse(d));
      CollapseHead(d);
    }
  }

  lemma SliceKeepsShape(t: string, a: nat, b: nat)
    requires InAlphabet(t) && NoDoubleHyphen(t) && a <= b <= |t|
    ensures InAlphabet(t[a..b]) && NoDoubleHyphen(t[a..b])
  {
    var u := t[a..b];
    forall i | 0 <= i < |u| - 1 ensures !(u[i] == '-' && u[i + 1] == '-') {
      assert u[i] == t[a + i] && u[i + 1] == t[a + i + 1];
    }
  }

  lemma TrimHyphensShape(t: string)
    requires InAlphabet(t) && NoDoubleHyphen(t)
    ensures IsSlug(TrimHyphens(t))
    ensures Alnums(TrimHyphens(t)) == Alnums(t)
  {
    var l := TrimLeft(t);
    var r := TrimRight(l);
    TrimLeftSpec(t);
    TrimRightSpec(l);
    var a := |t| - |l|;
    var b := a + |r|;
    assert l == t[a..];
    assert r == t[a..b];
    SliceKeepsShape(t, a, b);
    assert r != [] ==> r[0] == l[0];
    TrimHyphensAlnums(t);
  }

  lemma TrimHyphensAlnums(t: string)
    ensures Alnums(TrimHyphens(t)) == Alnums(t)
  {
    TrimLeftAlnums(t);
    TrimRightAlnums(TrimLeft(t));
  }

  lemma {:induction false} TrimLeftAlnums(s: string)
    ensures Alnums(TrimLeft(s)) == Alnums(s)
    decreases |s|
  {
    if s != [] && s[0] == '-' {
      TrimLeftAlnums(s[1..]);
    }
  }

  lemma {:induction false} TrimRightAlnums(s: string)
    ensures Alnums(TrimRight(s)) == Alnums(s)
    decreases |s|
  {
    if s != [] && s[|s| - 1] == '-' {
      var n := |s| - 1;
      TrimRightAlnums(s[..n]);
      assert s == s[..n] + [s[n]];
      AlnumsAppend(s[..n], [s[n]]);
    }
  }

  /** Every id `normalize_id` produces is well formed: only `a-z`, `0-9`
      and `-`, no hyphen at either end, never two hyphens in a row; and it
      keeps exactly the ASCII letters and digits of the input, lower-cased,
      in their original order. */
  lemma NormalizeIdShape(s: string)
    ensures IsSlug(NormalizeId(s))
    ensures Alnums(NormalizeId(s)) == Alnums(Lower(s))
  {
    CollapseShape(Lower(s));
    TrimHyphensShape(Collapse(Lower(s)));
  }

  lemma {:induction false} CollapseOfWellFormed(t: string)
    requires InAlphabet(t) && NoDoubleHyphen(t)
    ensures Collapse(t) == t
    decreases |t|
  {
    if t != [] {
      CollapseOfWellFormed(t[1..]);
      if !IsSlugChar(t[0]) {
        assert DropRun(t[1..]) == t[1..];
      }
    }
  }

  lemma LowerOfSlug(t: string)
    requires InAlphabet(t)
    ensures Lower(t) == t
  {
  }

  /** Normalising an id again changes nothing. */
  lemma NormalizeIdIdempotent(s: string)
    ensures NormalizeId(NormalizeId(s)) == NormalizeId(s)
  {
    var t := NormalizeId(s);
    NormalizeIdShape(s);
    LowerOfSlug(t);
    CollapseOfWellFormed(t);
  }

  /** ASCII case does not matter. */
  lemma NormalizeIdIgnoresCase(s: string)
    ensures NormalizeId(Upper(s)) == NormalizeId(s)
  {
    LowerUpper(s);
  }

  /** A string without ASCII letters or digits normalises to the empty id,
      and only such a string does. */
  lemma NormalizeIdEmpty(s: string)
    ensures NormalizeId(s) == [] <==> (forall i :: 0 <= i < |s| ==> !IsAlnum(s[i]))
  {
    var t := NormalizeId(s);
    NormalizeIdShape(s);
    NoAlnumsIff(Lower(s));
    forall i | 0 <= i < |s| ensures IsSlugChar(Lower(s)[i]) <==> IsAlnum(s[i]) {
      assert Lower(s)[i] == ToLower(s[i]);
    }
    assert t == [] <==> Alnums(t) == [] by {
      if t != [] {
        assert IsSlugChar(t[0]);
        assert Alnums(t) == [t[0]] + Alnums(t[1..]);
      }
    }
  }

  lemma {:induction false} NoAlnumsIff(s: string)
    ensures Alnums(s) == [] <==> (forall i :: 0 <= i < |s| ==> !IsSlugChar(s[i]))
    decreases |s|
  {
    if s != [] {
      NoAlnumsIff(s[1..]);
      assert forall i :: 1 <= i < |s| ==> s[i] == s[1..][i - 1];
    }
  }

  lemma CollapseSlugChar(s: string)
    requires s != [] && IsSlugChar(s[0])
    ensures Collapse(s) == [s[0]] + Collapse(s[1..])
  {
  }

  lemma {:induction false} DropRunOver(run: string, t: string)
    requires forall i :: 0 <= i < |run| ==> !IsSlugChar(run[i])
    requires t == [] || IsSlugChar(t[0])
    ensures DropRun(run + t) == t
    decreases |run|
  {
    if run == [] {
      assert run + t == t;
    } else {
      assert (run + t)[1..] == run[1..] + t;
      DropRunOver(run[1..], t);
    }
  }

  /** A maximal run of other characters becomes a single hyphen. */
  lemma CollapseRun(run: string, t: string)
    requires run != [] && forall i :: 0 <= i < |run| ==> !IsSlugChar(run[i])
    requires t == [] || IsSlugChar(t[0])
    ensures Collapse(run + t) == "-" + Collapse(t)
  {
    assert (run + t)[1..] == run[1..] + t;
    DropRunOver(run[1..], t);
  }

  /** The `"__"` separator is collapsed like any other gap: for letters or
      digits `x` and `y`, title `"x y"` with an empty location and title
      `"x"` with location `"y"` both give the id `"x-y"`. */
  lemma SeparatorCollapses(x: char, y: char)
    requires IsSlugChar(x) && IsSlugChar(y)
    ensures NormalizeId([x, ' ', y] + "__" + "") == [x, '-', y]
    ensures NormalizeId([x] + "__" + [y]) == [x, '-', y]
  {
    var spaced := [x, ' ', y, '_', '_'];
    var joined := [x, '_', '_', y];
    assert [x, ' ', y] + "__" + "" == spaced;
    assert [x] + "__" + [y] == joined;
    LowerNoUpper(spaced);
    LowerNoUpper(joined);
    CollapseSpaced(x, y);
    CollapseJoined(x, y);
    TrimEdges(x, y);
  }

  lemma LowerNoUpper(s: string)
    requires forall i :: 0 <= i < |s| ==> !IsUpper(s[i])
    ensures Lower(s) == s
  {
  }

  lemma CollapseSpaced(x: char, y: char)
    requires IsSlugChar(x) && IsSlugChar(y)
    ensures Collapse([x, ' ', y, '_', '_']) == [x, '-', y, '-']
  {
    CollapseGapFirst(y);
    var s := [x, ' ', y, '_', '_'];
    CollapseSlugChar(s);
    assert s[1..] == [' ', y, '_', '_'];
    assert [x] + ['-', y, '-'] == [x, '-', y, '-'];
  }

  lemma CollapseGapFirst(y: char)
    requires IsSlugChar(y)
    ensures Collapse([' ', y, '_', '_']) == ['-', y, '-']
  {
    var tail := [y, '_', '_'];
    CollapseTrailing(y);
    assert [' ', y, '_', '_'][1..] == tail;
    assert DropRun(tail) == tail;
    assert "-" + [y, '-'] == ['-', y, '-'];
  }

  lemma CollapseTrailing(y: char)
    requires IsSlugChar(y)
    ensures Collapse([y, '_', '_']) == [y, '-']
  {
    CollapseRun("__", []);
    assert "__" + [] == "__";
    CollapseSlugChar([y, '_', '_']);
    assert [y, '_', '_'][1..] == "__";
  }

  lemma CollapseJoined(x: char, y: char)
    requires IsSlugChar(x) && IsSlugChar(y)
    ensures Collapse([x, '_', '_', y]) == [x, '-', y]
  {
    CollapseSlugChar([y]);
    assert [y][1..] == [];
    CollapseRun("__", [y]);
    assert "__" + [y] == ['_', '_', y];
    CollapseSlugChar([x, '_', '_', y]);
    assert [x, '_', '_', y][1..] == "__" + [y];
  }

  lemma TrimEdges(x: char, y: char)
    requires IsSlugChar(x) && IsSlugChar(y)
    ensures TrimHyphens([x, '-', y, '-']) == [x, '-', y]
    ensures TrimHyphens([x, '-', y]) == [x, '-', y]
  {
    assert TrimLeft([x, '-', y, '-']) == [x, '-', y, '-'];
    assert [x, '-', y, '-'][..3] == [x, '-', y];
    assert TrimRight([x, '-', y]) == [x, '-', y];
    assert TrimRight([x, '-', y, '-']) == [x, '-', y];
  }

  /** Worked example: an empty title and location give the empty id. */
  lemma NormalizeIdExampleEmpty()
    ensures NormalizeId("__") == ""
  {
    assert Lower("__") == "__";
    CollapseRun("__", "");
    assert "__" == "__" + "";
    assert TrimLeft("-") == "";
  }
}
