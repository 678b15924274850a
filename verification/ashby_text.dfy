/** `_clean_ashby_text` of the Physical Intelligence crawler: split the
    visible text of the embedded job page into lines, strip each, drop the
    blank ones and the page chrome, and join the rest with blank lines. */
module AshbyText {
  import opened Ascii
  import opened Positions

  /** The line boundaries of `str.splitlines()`. */
  predicate IsLineBreak(c: char) {
    || c == '\n' || c == '\r' || c == '\U{0B}' || c == '\U{0C}'
    || c == '\U{1C}' || c == '\U{1D}' || c == '\U{1E}'
    || c == '\U{85}' || c == '\U{2028}' || c == '\U{2029}'
  }

  predicate NoBreaks(s: string) {
    forall i :: 0 <= i < |s| ==> !IsLineBreak(s[i])
  }

  /** Index of the first line boundary, or `|s|` when there is none. */
  function FirstBreak(s: string): (n: nat)
    ensures n <= |s|
    ensures forall i :: 0 <= i < n ==> !IsLineBreak(s[i])
    ensures n < |s| ==> IsLineBreak(s[n])
    decreases |s|
  {
    if s == [] || IsLineBreak(s[0]) then 0
    else
      var m := FirstBreak(s[1..]);
      assert forall i :: 1 <= i < 1 + m ==> s[i] == s[1..][i - 1];
      1 + m
  }

  /** `s.splitlines()`: `\r\n` counts as one boundary, and a boundary at
      the very end does not start another line. */
  function SplitLines(s: string): (r: seq<string>)
    ensures forall i :: 0 <= i < |r| ==> NoBreaks(r[i])
    ensures s == [] <==> r == []
    decreases |s|
  {
    if s == [] then []
    else
      var n := FirstBreak(s);
      if n == |s| then [s]
      else
        var w := if s[n] == '\r' && n + 1 < |s| && s[n + 1] == '\n' then 2 else 1;
        [s[..n]] + SplitLines(s[n + w..])
  }

  /** `sep.join(lines)` */
  function Join(sep: string, lines: seq<string>): string
    decreases |lines|
  {
    if lines == [] then ""
    else if |lines| == 1 then lines[0]
    else lines[0] + sep + Join(sep, lines[1..])
  }

  lemma {:induction false} FirstBreakAt(x: string, t: string)
    requires NoBreaks(x) && t != [] && IsLineBreak(t[0])
    ensures FirstBreak(x + t) == |x|
    decreases |x|
  {
    if x != [] {
      assert (x + t)[1..] == x[1..] + t;
      FirstBreakAt(x[1..], t);
    } else {
      assert x + t == t;
    }
  }

  /** Lines without boundaries, joined with `"\n"`, split back into the
      same lines, provided the last one is not empty (a trailing empty line
      leaves no trace in the text). */
  lemma {:induction false} SplitJoin(lines: seq<string>)
    requires forall i :: 0 <= i < |lines| ==> NoBreaks(lines[i])
    requires lines == [] || lines[|lines| - 1] != ""
    ensures SplitLines(Join("\n", lines)) == lines
    decreases |lines|
  {
    if |lines| == 1 {
      assert FirstBreak(lines[0]) == |lines[0]|;
    } else if |lines| > 1 {
      var x := lines[0];
      var rest := Join("\n", lines[1..]);
      var s := x + "\n" + rest;
      assert s == x + ("\n" + rest);
      FirstBreakAt(x, "\n" + rest);
      assert s[..|x|] == x;
      assert s[|x| + 1..] == rest;
      SplitJoin(lines[1..]);
      assert [x] + lines[1..] == lines;
    }
  }

  /** The lines `_clean_ashby_text` drops although they are not blank:
      buttons and the company name around the job description. */
  const Blacklist: set<string> := {"Apply", "Back", "Apply for this job", "Physical Intelligence"}

  predicate Keep(line: string) {
    line != "" && line !in Blacklist
  }

  /** `[l.strip() for l in lines]` */
  function StripEach(lines: seq<string>): (r: seq<string>)
    ensures |r| == |lines|
    ensures forall i :: 0 <= i < |lines| ==> r[i] == Strip(lines[i])
  {
    seq(|lines|, i requires 0 <= i < |lines| => Strip(lines[i]))
  }

  /** The two list filters: blank lines, then blacklisted ones. */
  function Filter(lines: seq<string>): seq<string>
    decreases |lines|
  {
    if lines == [] then []
    else if Keep(lines[0]) then [lines[0]] + Filter(lines[1..])
    else Filter(lines[1..])
  }

  /** A line survives the filters exactly when it is non-blank and not
      page chrome. */
  lemma {:induction false} FilterMembership(lines: seq<string>, x: string)
    ensures x in Filter(lines) <==> x in lines && Keep(x)
    decreases |lines|
  {
    if lines != [] {
      FilterMembership(lines[1..], x);
      assert lines == [lines[0]] + lines[1..];
    }
  }

  /** `r` is `lines` read at the increasing positions of exactly the
      lines that pass the filters. */
  ghost predicate KeptAt(idx: seq<nat>, lines: seq<string>, r: seq<string>) {
    && Increasing(idx) && ReadsAt(idx, lines, r)
    && forall i :: 0 <= i < |lines| ==> (i in idx <==> Keep(lines[i]))
  }

  /** The filters keep the surviving lines in their original order and
      with their repetitions. */
  lemma {:induction false} FilterIndices(lines: seq<string>) returns (idx: seq<nat>)
    ensures KeptAt(idx, lines, Filter(lines))
    decreases |lines|
  {
    if lines == [] {
      idx := [];
    } else {
      var rest := FilterIndices(lines[1..]);
      ShiftFacts(rest);
      ReadsAtShift(lines, rest, Filter(lines[1..]));
      KeptTail(lines, rest);
      if Keep(lines[0]) {
        idx := [0] + Shift(rest);
        FilterKeep(lines);
      } else {
        idx := Shift(rest);
        FilterDrop(lines);
      }
    }
  }

  lemma KeptTail(lines: seq<string>, rest: seq<nat>)
    requires lines != [] && forall i :: 0 <= i < |lines| - 1 ==> (i in rest <==> Keep(lines[1..][i]))
    requires forall i: nat :: i + 1 in Shift(rest) <==> i in rest
    ensures forall i :: 0 < i < |lines| ==> (i in Shift(rest) <==> Keep(lines[i]))
  {
    forall i | 0 < i < |lines| ensures i in Shift(rest) <==> Keep(lines[i]) {
      assert lines[1..][i - 1] == lines[i];
      assert (i - 1) + 1 == i;
    }
  }

  /** Filtering a concatenation filters each part: the filters decide
      line by line, so no line moves past another. */
  lemma {:induction false} FilterConcat(a: seq<string>, b: seq<string>)
    ensures Filter(a + b) == Filter(a) + Filter(b)
    decreases |a|
  {
    if a == [] {
      assert a + b == b;
    } else {
      FilterConcat(a[1..], b);
      assert (a + b)[1..] == a[1..] + b;
    }
  }

  /** A single line survives alone or not at all. */
  lemma FilterSingle(x: string)
    ensures Filter([x]) == if Keep(x) then [x] else []
  {
    assert [x][1..] == [];
  }

  /** The lines that end up in the description. */
  function CleanedLines(text: string): seq<string> {
    Filter(StripEach(SplitLines(text)))
  }

  /** `_clean_ashby_text(text)` */
  function Clean(text: string): string {
    Join("\n\n", CleanedLines(text))
  }

  /** A cleaned line is one stripped, non-blank line of the input that is
      not page chrome: every kept line has that shape, and every line of
      that shape is kept. */
  lemma CleanedLinesMembership(text: string, x: string)
    ensures x in CleanedLines(text) <==>
      Keep(x) && exists l :: l in SplitLines(text) && Strip(l) == x
  {
    var ls := SplitLines(text);
    var ss := StripEach(ls);
    if exists l :: l in ls && Strip(l) == x {
      var l :| l in ls && Strip(l) == x;
      var i :| 0 <= i < |ls| && ls[i] == l;
      assert ss[i] == x;
    }
    if x in ss {
      var i :| 0 <= i < |ss| && ss[i] == x;
      assert ls[i] in ls;
    }
    FilterMembership(ss, x);
  }

  /** The cleaned lines are the stripped input lines that pass the
      filters, in their input order and with their repetitions. */
  lemma CleanedLinesInOrder(text: string) returns (idx: seq<nat>)
    ensures KeptAt(idx, StripEach(SplitLines(text)), CleanedLines(text))
  {
    idx := FilterIndices(StripEach(SplitLines(text)));
  }

  /** Each cleaned line is non-blank, has no surrounding whitespace, holds
      no line boundary and is not page chrome. */
  lemma CleanedLinesShape(text: string)
    ensures forall i :: 0 <= i < |CleanedLines(text)| ==>
      var x := CleanedLines(text)[i];
      Keep(x) && IsStripped(x) && NoBreaks(x)
  {
    var ls := SplitLines(text);
    forall i | 0 <= i < |CleanedLines(text)|
      ensures Keep(CleanedLines(text)[i]) && IsStripped(CleanedLines(text)[i]) && NoBreaks(CleanedLines(text)[i])
    {
      var x := CleanedLines(text)[i];
      assert x in CleanedLines(text);
      CleanedLinesMembership(text, x);
      var l :| l in ls && Strip(l) == x;
      StrippedLine(l);
    }
  }

  lemma StrippedLine(l: string)
    requires NoBreaks(l)
    ensures IsStripped(Strip(l)) && NoBreaks(Strip(l))
  {
    var l1 := LStrip(l);
    var x := RStrip(l1);
    StripSpec(l);
    LStripSpec(l);
    RStripSpec(l1);
    var a := |l| - |l1|;
    assert x == l[a..a + |x|];
    SliceNoBreaks(l, a, a + |x|);
  }

  lemma SliceNoBreaks(l: string, i: nat, j: nat)
    requires NoBreaks(l) && i <= j <= |l|
    ensures NoBreaks(l[i..j])
  {
    forall k | 0 <= k < j - i ensures !IsLineBreak(l[i..j][k]) {
      assert l[i..j][k] == l[i + k];
    }
  }

  /** The description is empty exactly when no line survives. */
  lemma CleanEmpty(text: string)
    ensures Clean(text) == "" <==> CleanedLines(text) == []
  {
    var c := CleanedLines(text);
    if c != [] {
      assert c[0] in c;
      FilterMembership(StripEach(SplitLines(text)), c[0]);
      assert |Clean(text)| >= |c[0]|;
    }
  }

  /** The cleaned lines with an empty line after each but the last: what
      `splitlines` makes of the `"\n\n"`-joined description. */
  function Spread(lines: seq<string>): (r: seq<string>)
    ensures lines != [] ==> r != [] && r[|r| - 1] == lines[|lines| - 1]
    ensures forall i :: 0 <= i < |r| ==> r[i] == "" || r[i] in lines
    decreases |lines|
  {
    if |lines| <= 1 then lines else [lines[0], ""] + Spread(lines[1..])
  }

  lemma {:induction false} JoinSpread(lines: seq<string>)
    ensures Join("\n\n", lines) == Join("\n", Spread(lines))
    decreases |lines|
  {
    if |lines| > 1 {
      JoinSpread(lines[1..]);
      SpreadCons(lines);
      var rest := Spread(lines[1..]);
      var j := Join("\n", rest);
      var tail := [""] + rest;
      JoinCons("\n", [lines[0]] + tail);
      assert ([lines[0]] + tail)[1..] == tail;
      JoinCons("\n", tail);
      assert tail[1..] == rest;
      JoinCons("\n\n", lines);
      SeparatorPair(lines[0], j);
    }
  }

  lemma SeparatorPair(x: string, j: string)
    ensures x + "\n" + ("" + "\n" + j) == x + "\n\n" + j
  {
    assert "" + "\n" + j == "\n" + j;
    assert "\n\n" == "\n" + "\n";
  }

  lemma JoinCons(sep: string, lines: seq<string>)
    requires |lines| > 1
    ensures Join(sep, lines) == lines[0] + sep + Join(sep, lines[1..])
  {
  }

  /** Stripping changes no line that is already stripped. */
  lemma StripEachOfStripped(lines: seq<string>)
    requires forall i :: 0 <= i < |lines| ==> IsStripped(lines[i])
    ensures StripEach(lines) == lines
  {
    forall i | 0 <= i < |lines| ensures Strip(lines[i]) == lines[i] {
      StripOfStripped(lines[i]);
    }
  }

  /** Filtering the spread lines gives back the lines. */
  lemma {:induction false} FilterSpread(lines: seq<string>)
    requires forall i :: 0 <= i < |lines| ==> Keep(lines[i])
    ensures Filter(Spread(lines)) == lines
    decreases |lines|
  {
    if |lines| > 1 {
      FilterSpread(lines[1..]);
      SpreadCons(lines);
      FilterSpreadStep(lines, Spread(lines[1..]));
    }
  }

  /** One step of `FilterSpread`: a kept line, a blank line, then lines
      that filter to the rest. */
  lemma FilterSpreadStep(lines: seq<string>, rest: seq<string>)
    requires lines != [] && Keep(lines[0])
    requires Filter(rest) == lines[1..]
    ensures Filter([lines[0]] + ([""] + rest)) == lines
  {
    var tail := [""] + rest;
    var sp := [lines[0]] + tail;
    assert sp[1..] == tail;
    FilterKeep(sp);
    assert tail[1..] == rest;
    FilterDrop(tail);
    assert [lines[0]] + lines[1..] == lines;
  }

  lemma SpreadCons(lines: seq<string>)
    requires |lines| > 1
    ensures Spread(lines) == [lines[0]] + ([""] + Spread(lines[1..]))
  {
    assert [lines[0], ""] == [lines[0]] + [""];
  }

  lemma FilterKeep(lines: seq<string>)
    requires lines != [] && Keep(lines[0])
    ensures Filter(lines) == [lines[0]] + Filter(lines[1..])
  {
  }

  lemma FilterDrop(lines: seq<string>)
    requires lines != [] && !Keep(lines[0])
    ensures Filter(lines) == Filter(lines[1..])
  {
  }

  /** Cleaning a cleaned description gives back the same lines, so
      cleaning is idempotent. */
  lemma CleanIdempotent(text: string)
    ensures CleanedLines(Clean(text)) == CleanedLines(text)
    ensures Clean(Clean(text)) == Clean(text)
  {
    var c := CleanedLines(text);
    CleanedLinesShape(text);
    JoinSpread(c);
    var sp := Spread(c);
    assert forall i :: 0 <= i < |sp| ==> NoBreaks(sp[i]) && IsStripped(sp[i]) by {
      forall i | 0 <= i < |sp| ensures NoBreaks(sp[i]) && IsStripped(sp[i]) {
        if sp[i] != "" {
          var j :| 0 <= j < |c| && c[j] == sp[i];
        }
      }
    }
    SplitJoin(sp);
    StripEachOfStripped(sp);
    FilterSpread(c);
  }

  /** Whitespace around a line does not save it from the blacklist. */
  lemma {:induction false} StripPadded(x: string)
    requires x != [] && IsStripped(x)
    ensures Strip(" " + x + " ") == x
  {
    var s := " " + x + " ";
    assert s[1..] == x + " ";
    assert LStrip(x + " ") == x + " ";
    assert (x + " ")[..|x|] == x;
    assert RStrip(x) == x;
  }

  /** Page chrome is matched after stripping and with its exact case: a
      padded "Apply" button is dropped, a line reading "apply" is kept. */
  lemma BlacklistIsExact()
    ensures !Keep(Strip(" Apply "))
    ensures Keep("apply")
  {
    assert " Apply " == " " + "Apply" + " ";
    StripPadded("Apply");
  }
}
