/** The DYNA research page: `parse_date`, which turns a card's date text
    such as `JUN 15 '25` into `2025-06-15`, and the record built for each
    card with its md5 id. */
module DynaResearch {
  import opened Wrappers
  import opened Ascii
  import opened Records

  /** The groups of a match of `([A-Z]{3})\s+(\d{1,2})\s+'(\d{2})`. */
  datatype DateMatch = DateMatch(month: string, day: string, year: string)

  predicate AllUpper(s: string) { forall i :: 0 <= i < |s| ==> IsUpper(s[i]) }

  predicate AllDigits(s: string) { forall i :: 0 <= i < |s| ==> IsDigit(s[i]) }

  /** The day group: two digits when there are two, else one. */
  function DayLength(t: string): (d: nat)
    ensures d <= 2 && d <= |t| && AllDigits(t[..d])
    ensures d < 2 && d < |t| ==> !IsDigit(t[d])
  {
    if |t| >= 2 && IsDigit(t[0]) && IsDigit(t[1]) then 2
    else if |t| >= 1 && IsDigit(t[0]) then 1
    else 0
  }

  /** One `\s+`: the text after a non-empty run of whitespace. */
  function SkipSpace(s: string): (r: Option<string>)
    ensures r.Some? ==> |r.value| < |s| && r.value == s[|s| - |r.value|..]
    ensures r.Some? ==> r.value == [] || !IsSpace(r.value[0])
    ensures r.Some? ==> AllSpace(s[..|s| - |r.value|])
  {
    var t := LStrip(s);
    LStripSpec(s);
    if |t| == |s| then None else Some(t)
  }

  /** `'(\d{2})` */
  function MatchYear(u: string): (r: Option<string>)
    ensures r.Some? ==> |r.value| == 2 && AllDigits(r.value)
  {
    if |u| >= 3 && u[0] == '\'' && IsDigit(u[1]) && IsDigit(u[2]) then Some(u[1..3]) else None
  }

  /** `(\d{1,2})\s+'(\d{2})` */
  function MatchDayYear(t: string): (r: Option<(string, string)>)
    ensures r.Some? ==> 1 <= |r.value.0| <= 2 && AllDigits(r.value.0)
    ensures r.Some? ==> |r.value.1| == 2 && AllDigits(r.value.1)
  {
    var d := DayLength(t);
    if d == 0 then None
    else
      var u :- SkipSpace(t[d..]);
      var y :- MatchYear(u);
      Some((t[..d], y))
  }

  /** `re.match(pattern, s)`: the pattern anchored at the start of `s`,
      with nothing required after the year. Each `\s+` takes the whole run
      of whitespace and the day takes two digits when it can; backtracking
      never finds another match, because what follows each of them cannot
      be whitespace or a digit. */
  function MatchDate(s: string): (r: Option<DateMatch>)
    ensures r.Some? ==> |r.value.month| == 3 && AllUpper(r.value.month)
    ensures r.Some? ==> 1 <= |r.value.day| <= 2 && AllDigits(r.value.day)
    ensures r.Some? ==> |r.value.year| == 2 && AllDigits(r.value.year)
  {
    if |s| < 3 || !AllUpper(s[..3]) then None
    else
      var t :- SkipSpace(s[3..]);
      var dy :- MatchDayYear(t);
      Some(DateMatch(s[..3], dy.0, dy.1))
  }

  /** The month abbreviations `parse_date` knows, with their numbers. */
  const Months: map<string, string> := map[
    "JAN" := "01", "FEB" := "02", "MAR" := "03", "APR" := "04",
    "MAY" := "05", "JUN" := "06", "JUL" := "07", "AUG" := "08",
    "SEP" := "09", "OCT" := "10", "NOV" := "11", "DEC" := "12"]

  /** `months.get(month_str, "01")` */
  function MonthNumber(month: string): (mm: string)
    ensures |mm| == 2 && AllDigits(mm)
  {
    if month in Months then Months[month] else "01"
  }

  /** The twelve abbreviations give `01` to `12` in calendar order; three
      capitals outside the table give `01`. */
  lemma MonthTable()
    ensures MonthNumber("JAN") == "01" && MonthNumber("FEB") == "02" && MonthNumber("MAR") == "03"
    ensures MonthNumber("APR") == "04" && MonthNumber("MAY") == "05" && MonthNumber("JUN") == "06"
    ensures MonthNumber("JUL") == "07" && MonthNumber("AUG") == "08" && MonthNumber("SEP") == "09"
    ensures MonthNumber("OCT") == "10" && MonthNumber("NOV") == "11" && MonthNumber("DEC") == "12"
    ensures MonthNumber("ABC") == "01"
  {
    FirstQuarter();
    SecondQuarter();
    ThirdQuarter();
    FourthQuarter();
    assert "ABC" !in Months;
  }

  lemma FirstQuarter()
    ensures MonthNumber("JAN") == "01" && MonthNumber("FEB") == "02" && MonthNumber("MAR") == "03"
  {
  }

  lemma SecondQuarter()
    ensures MonthNumber("APR") == "04" && MonthNumber("MAY") == "05" && MonthNumber("JUN") == "06"
  {
  }

  lemma ThirdQuarter()
    ensures MonthNumber("JUL") == "07" && MonthNumber("AUG") == "08" && MonthNumber("SEP") == "09"
  {
  }

  lemma FourthQuarter()
    ensures MonthNumber("OCT") == "10" && MonthNumber("NOV") == "11" && MonthNumber("DEC") == "12"
  {
  }

  /** `day.zfill(2)` for a day of one or two digits. */
  function ZFill2(day: string): (r: string)
    requires 1 <= |day| <= 2
    ensures |r| == 2 && r[2 - |day|..] == day
    ensures |day| == 1 ==> r[0] == '0'
    ensures AllDigits(day) ==> AllDigits(r)
  {
    if |day| == 1 then "0" + day else day
  }

  /** A `YYYY-MM-DD` shape: ten characters, hyphens at 4 and 7, digits
      elsewhere, and the century `20`. */
  predicate IsIsoDate(r: string) {
    && |r| == 10 && r[..2] == "20" && r[4] == '-' && r[7] == '-'
    && forall i :: 0 <= i < 10 && i != 4 && i != 7 ==> IsDigit(r[i])
  }

  /** Two-digit year, month and day joined as `20yy-mm-dd` are ISO-shaped
      and can be read back from their fixed positions. */
  lemma IsoShape(yy: string, mm: string, dd: string)
    requires |yy| == 2 && AllDigits(yy)
    requires |mm| == 2 && AllDigits(mm)
    requires |dd| == 2 && AllDigits(dd)
    ensures var r := "20" + yy + "-" + mm + "-" + dd;
      IsIsoDate(r) && r[2..4] == yy && r[5..7] == mm && r[8..] == dd
  {
    var r := "20" + yy + "-" + mm + "-" + dd;
    assert forall i :: 2 <= i < 4 ==> r[i] == yy[i - 2];
    assert forall i :: 5 <= i < 7 ==> r[i] == mm[i - 5];
    assert forall i :: 8 <= i < 10 ==> r[i] == dd[i - 8];
    assert r[..2] == "20" && r[2..4] == yy && r[5..7] == mm && r[8..] == dd;
  }

  /** `f"{year}-{month}-{day.zfill(2)}"` with `year = f"20{year_short}"`:
      a one-digit day gets a leading zero. */
  function FormatDate(m: DateMatch): (r: string)
    requires 1 <= |m.day| <= 2 && AllDigits(m.day)
    requires |m.year| == 2 && AllDigits(m.year)
    ensures IsIsoDate(r)
    ensures r[2..4] == m.year && r[5..7] == MonthNumber(m.month) && r[10 - |m.day|..] == m.day
    ensures |m.day| == 1 ==> r[8] == '0'
  {
    var dd := ZFill2(m.day);
    IsoShape(m.year, MonthNumber(m.month), dd);
    "20" + m.year + "-" + MonthNumber(m.month) + "-" + dd
  }

  /** `parse_date(raw)`: the stripped text is matched; without a match the
      raw text comes back as it was. */
  function ParseDate(raw: string): string {
    match MatchDate(Strip(raw))
    case None => raw
    case Some(m) => FormatDate(m)
  }

  /** Every match gives an ISO-shaped date built from the matched groups;
      every non-match gives the raw text back unchanged. */
  lemma ParseDateShape(raw: string)
    ensures MatchDate(Strip(raw)).Some? ==>
      var m := MatchDate(Strip(raw)).value;
      var r := ParseDate(raw);
      && IsIsoDate(r) && r[2..4] == m.year && r[5..7] == MonthNumber(m.month) && r[10 - |m.day|..] == m.day
      && (|m.day| == 1 ==> r[8] == '0')
    ensures MatchDate(Strip(raw)).None? ==> ParseDate(raw) == raw
  {
  }

  /** The match is found whenever the text starts with three capitals,
      whitespace, one or two digits, whitespace, an apostrophe and two
      digits; whatever follows is ignored. */
  lemma MatchComplete(month: string, w1: string, day: string, w2: string, year: string, rest: string)
    requires |month| == 3 && AllUpper(month)
    requires w1 != [] && AllSpace(w1) && w2 != [] && AllSpace(w2)
    requires 1 <= |day| <= 2 && AllDigits(day)
    requires |year| == 2 && AllDigits(year)
    ensures MatchDate(month + w1 + day + w2 + "'" + year + rest) == Some(DateMatch(month, day, year))
  {
    var tail := "'" + year + rest;
    var afterDay := w2 + tail;
    var t := day + afterDay;
    var s := month + (w1 + t);
    assert s == month + w1 + day + w2 + "'" + year + rest;
    assert s[..3] == month && s[3..] == w1 + t;
    LStripOverSpace(w1, t);
    assert SkipSpace(w1 + t) == Some(t);
    DayYearComplete(day, w2, year, rest);
  }

  lemma DayYearComplete(day: string, w2: string, year: string, rest: string)
    requires w2 != [] && AllSpace(w2)
    requires 1 <= |day| <= 2 && AllDigits(day)
    requires |year| == 2 && AllDigits(year)
    ensures MatchDayYear(day + (w2 + ("'" + year + rest))) == Some((day, year))
  {
    var tail := "'" + year + rest;
    var afterDay := w2 + tail;
    var t := day + afterDay;
    assert t[..|day|] == day;
    if |day| == 1 {
      assert t[1] == w2[0];
    }
    assert DayLength(t) == |day|;
    assert t[|day|..] == afterDay;
    LStripOverSpace(w2, tail);
    assert SkipSpace(afterDay) == Some(tail);
    assert tail[1..3] == year;
  }

  lemma {:induction false} LStripOverSpace(w: string, t: string)
    requires AllSpace(w)
    requires t == [] || !IsSpace(t[0])
    ensures LStrip(w + t) == t
    decreases |w|
  {
    if w == [] {
      assert w + t == t;
    } else {
      assert (w + t)[1..] == w[1..] + t;
      LStripOverSpace(w[1..], t);
    }
  }

  /** Conversely, a match always comes from such a text. */
  lemma MatchSound(s: string) returns (w1: string, w2: string, rest: string)
    requires MatchDate(s).Some?
    ensures var m := MatchDate(s).value;
      && w1 != [] && AllSpace(w1) && w2 != [] && AllSpace(w2)
      && s == m.month + w1 + m.day + w2 + "'" + m.year + rest
  {
    var t;
    w1, t := MonthSound(s);
    var day, year;
    w2, day, year, rest := DayYearSound(t);
    Assemble(s[..3], w1, t, day, w2, year, rest);
  }

  /** The month stage: three capitals, a run of whitespace, then the text
      the day and year are matched against. */
  lemma MonthSound(s: string) returns (w1: string, t: string)
    requires MatchDate(s).Some?
    ensures w1 != [] && AllSpace(w1) && MatchDayYear(t).Some?
    ensures s == s[..3] + w1 + t
    ensures MatchDate(s).value == DateMatch(s[..3], MatchDayYear(t).value.0, MatchDayYear(t).value.1)
  {
    assert |s| >= 3 && SkipSpace(s[3..]).Some?;
    t := SkipSpace(s[3..]).value;
    w1 := s[3..][..|s| - 3 - |t|];
    SplitAfter(s, t);
  }

  lemma Assemble(m: string, w1: string, t: string, day: string, w2: string, year: string, rest: string)
    requires t == day + w2 + "'" + year + rest
    ensures m + w1 + t == m + w1 + day + w2 + "'" + year + rest
  {
  }

  lemma SplitAfter(s: string, t: string)
    requires |s| >= 3 && |t| <= |s| - 3 && t == s[3..][|s| - 3 - |t|..]
    ensures s == s[..3] + s[3..][..|s| - 3 - |t|] + t
  {
    var v := s[3..];
    assert v == v[..|v| - |t|] + t;
    assert s == s[..3] + v;
  }

  lemma DayYearSound(t: string) returns (w2: string, day: string, year: string, rest: string)
    requires MatchDayYear(t).Some?
    ensures (day, year) == MatchDayYear(t).value
    ensures w2 != [] && AllSpace(w2)
    ensures t == day + w2 + "'" + year + rest
  {
    var d := DayLength(t);
    assert d > 0 && SkipSpace(t[d..]).Some?;
    var u := SkipSpace(t[d..]).value;
    assert MatchYear(u).Some?;
    day := t[..d];
    year := u[1..3];
    assert MatchDayYear(t).value == (day, year);
    Pieces(t, d, u);
    w2 := t[d..][..|t| - d - |u|];
    rest := u[3..];
  }

  lemma Pieces(t: string, d: nat, u: string)
    requires d <= |t| && |u| < |t| - d && u == t[d..][|t| - d - |u|..] && |u| >= 3 && u[0] == '\''
    ensures t == t[..d] + t[d..][..|t| - d - |u|] + "'" + u[1..3] + u[3..]
  {
    var m := |t| - |u|;
    assert t[d..][..|t| - d - |u|] == t[d..m];
    assert u == t[m..];
    assert t == t[..d] + t[d..m] + t[m..] by {
      assert t[..m] == t[..d] + t[d..m];
      assert t == t[..m] + t[m..];
    }
    assert u == "'" + u[1..3] + u[3..];
  }

  /** `parse_date("JUN 15 '25") == "2025-06-15"` */
  lemma ParseDateExample()
    ensures ParseDate("JUN 15 '25") == "2025-06-15"
  {
    ParseDateOf("JUN 15 '25", "JUN", "15", "25");
    FormatJun15();
  }

  /** The day is not checked against the month. */
  lemma ParseDateNoCalendar()
    ensures ParseDate("FEB 31 '25") == "2025-02-31"
  {
    ParseDateOf("FEB 31 '25", "FEB", "31", "25");
    FormatFeb31();
  }

  /** An unknown month abbreviation falls back to January, and a one-digit
      day is padded. */
  lemma ParseDateUnknownMonth()
    ensures ParseDate("ABC 1 '25") == "2025-01-01"
  {
    ParseDateOf("ABC 1 '25", "ABC", "1", "25");
    FormatAbc1();
  }

  lemma FormatJun15()
    ensures FormatDate(DateMatch("JUN", "15", "25")) == "2025-06-15"
  {
    assert MonthNumber("JUN") == "06";
    FormatDateOf(DateMatch("JUN", "15", "25"), "06");
  }

  lemma FormatFeb31()
    ensures FormatDate(DateMatch("FEB", "31", "25")) == "2025-02-31"
  {
    MonthTable();
    FormatDateOf(DateMatch("FEB", "31", "25"), "02");
  }

  lemma FormatAbc1()
    ensures FormatDate(DateMatch("ABC", "1", "25")) == "2025-01-01"
  {
    assert "ABC" !in Months;
    FormatDateOf(DateMatch("ABC", "1", "25"), "01");
  }

  /** A month in lower case does not match, and the text comes back as it
      was. */
  lemma ParseDateLowerCase()
    ensures ParseDate("Jun 15 '25") == "Jun 15 '25"
  {
    var s := "Jun 15 '25";
    assert MatchDate(s) == None by { NoMatchWithoutCapitals(s); }
    assert Strip(s) == s by { StripOfStripped(s); }
  }

  lemma FormatDateOf(m: DateMatch, mm: string)
    requires 1 <= |m.day| <= 2 && AllDigits(m.day)
    requires |m.year| == 2 && AllDigits(m.year)
    requires MonthNumber(m.month) == mm
    ensures FormatDate(m) == "20" + m.year + "-" + mm + "-" + ZFill2(m.day)
  {
  }

  /** A date written with single spaces is parsed from its groups. */
  lemma ParseDateOf(s: string, month: string, day: string, year: string)
    requires |month| == 3 && AllUpper(month)
    requires 1 <= |day| <= 2 && AllDigits(day)
    requires |year| == 2 && AllDigits(year)
    requires s == month + " " + day + " " + "'" + year
    ensures ParseDate(s) == FormatDate(DateMatch(month, day, year))
  {
    MatchOf(s, month, day, year);
    DateTextStripped(s, month, day, year);
    ParseDateOfStripped(s);
  }

  lemma DateTextStripped(s: string, month: string, day: string, year: string)
    requires |month| == 3 && AllUpper(month)
    requires |year| == 2 && AllDigits(year)
    requires s == month + " " + day + " " + "'" + year
    ensures IsStripped(s)
  {
    assert s[0] == month[0];
    assert s[|s| - 1] == year[1];
  }

  /** Text without surrounding whitespace is matched as it is. */
  lemma ParseDateOfStripped(raw: string)
    requires IsStripped(raw)
    ensures ParseDate(raw) == match MatchDate(raw) case None => raw case Some(m) => FormatDate(m)
  {
    StripOfStripped(raw);
  }

  /** The match of a date written with single spaces. */
  lemma MatchOf(s: string, month: string, day: string, year: string)
    requires |month| == 3 && AllUpper(month)
    requires 1 <= |day| <= 2 && AllDigits(day)
    requires |year| == 2 && AllDigits(year)
    requires s == month + " " + day + " " + "'" + year
    ensures MatchDate(s) == Some(DateMatch(month, day, year))
  {
    assert s == month + " " + day + " " + "'" + year + "";
    MatchComplete(month, " ", day, " ", year, "");
  }

  /** Without three capitals at the start there is no match. */
  lemma NoMatchWithoutCapitals(s: string)
    requires |s| >= 3 && !(IsUpper(s[0]) && IsUpper(s[1]) && IsUpper(s[2]))
    ensures MatchDate(s) == None
  {
    assert s[..3][0] == s[0] && s[..3][1] == s[1] && s[..3][2] == s[2];
  }

  /** `generate_id(title, date)`; `md5` stands for the hex digest. */
  function GenerateId(md5: string -> string, title: string, date: string): string {
    md5(title + "_" + date)
  }

  /** The record kept for one research card. `url` is null when no link
      was found. */
  function ResearchItem(md5: string -> string, title: string, excerpt: string, dateRaw: string, url: Value): (r: Item)
    ensures r.Keys == {"id", "title", "date", "type", "excerpt", "url"}
    ensures r["id"] == Str(GenerateId(md5, title, ParseDate(dateRaw)))
    ensures r["date"] == Str(ParseDate(dateRaw))
    ensures r["type"] == Str("research")
    ensures r["title"] == Str(title) && r["excerpt"] == Str(excerpt) && r["url"] == url
  {
    Card(md5, title, excerpt, ParseDate(dateRaw), url)
  }

  function Card(md5: string -> string, title: string, excerpt: string, date: string, url: Value): (r: Item)
    ensures r.Keys == {"id", "title", "date", "type", "excerpt", "url"}
    ensures r["id"] == Str(GenerateId(md5, title, date))
    ensures r["date"] == Str(date)
    ensures r["type"] == Str("research")
    ensures r["title"] == Str(title) && r["excerpt"] == Str(excerpt) && r["url"] == url
  {
    map[
      "id" := Str(GenerateId(md5, title, date)),
      "title" := Str(title),
      "date" := Str(date),
      "type" := Str("research"),
      "excerpt" := Str(excerpt),
      "url" := url
    ]
  }

  /** The id depends on the title and the date text only: neither the
      excerpt nor the link changes it. */
  lemma ResearchIdIgnoresExcerptAndUrl(md5: string -> string, title: string, dateRaw: string,
                                       excerpt1: string, url1: Value, excerpt2: string, url2: Value)
    ensures ResearchItem(md5, title, excerpt1, dateRaw, url1)["id"]
         == ResearchItem(md5, title, excerpt2, dateRaw, url2)["id"]
  {
  }

  /** The `_` separator is ambiguous: a title ending in `_x` and a date
      starting with `x_` hash the same text. */
  lemma GenerateIdAmbiguous(md5: string -> string)
    ensures GenerateId(md5, "a_b", "c") == GenerateId(md5, "a", "b_c")
  {
    assert "a_b" + "_" + "c" == "a" + "_" + "b_c";
  }
}
