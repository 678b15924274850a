/** `format_slack_message` of the daily runner: a fold from the per-company
    result records to Slack blocks. The clock reading is a parameter
    (`now`, already formatted as the source formats it).

    Entries of the `added`, `removed` and `updated` lists are read with
    `.get(...)`. The team lists come from `member_compare`, which returns
    bare names, and a `str` has no `.get`: as written the formatter raises
    AttributeError as soon as a member joined or left. `TeamReading`
    selects between that reading and the evidently intended one. */
module SlackReport {
  import opened Wrappers
  import opened Records
  import opened Positions
  import Members

  /** An entry of a change list: a JSON object (posts, postings) or a bare
      string (team members). */
  datatype Entry = Obj(fields: Item) | Bare(s: string)

  /** The dict a compare returns for one category, as the formatter reads
      it; a missing list reads as empty. */
  datatype Category = Category(status: Option<string>, added: seq<Entry>, removed: seq<Entry>, updated: seq<Entry>)

  /** One element of `results`: a non-empty dict. `None` in a category
      field stands for a missing key or an empty dict (both falsy); an
      empty `analysis` for a missing, null or empty one. */
  datatype CompanyResult = CompanyResult(
    company: Option<string>,
    error: Option<string>,
    team: Option<Category>,
    blog: Option<Category>,
    research: Option<Category>,
    position: Option<Category>,
    analysis: string)

  /** The Block Kit blocks the formatter emits. */
  datatype Block = Header(text: string) | Context(text: string) | Divider | Section(text: string)

  /** The three kinds of change list, with the label each is printed under. */
  datatype Kind = Team | Blog | Career {
    function Label(): string {
      match this
      case Team => "Team"
      case Blog => "Blog"
      case Career => "Career"
    }
  }

  /** How a team entry is read: as the source does, or as intended. */
  datatype TeamReading = AsWritten | Intended

  const Title := "\U{1F916} Daily Company Crawler Report"
  const Bullet := "    \U{2022} "
  const NoChangesText := "\U{2705} *Summary:* No significant changes detected"
  const UpdatesText := "\U{1F514} *Summary:* Updates detected! Check details above."

  /** `f"{v}"`: JSON null prints as `None`. */
  function Show(v: Value): string {
    match v
    case Str(s) => s
    case Null => "None"
  }

  /** Python truthiness of a value read from an entry. */
  predicate IsTruthy(v: Value) {
    v.Str? && v.s != []
  }

  /** The bullet line of a post or posting. */
  function PostLine(e: Entry): (r: Result<string, Error>)
    ensures r.Failure? <==> e.Bare?
    ensures r.Failure? ==> r.error == AttributeError
    ensures r.Success? ==> |r.value| > |Bullet| && r.value[..|Bullet|] == Bullet
  {
    match e
    case Bare(_) => Failure(AttributeError)
    case Obj(p) =>
      var title := Show(GetOr(p, "title", Str("Untitled")));
      var url := GetOr(p, "url", Str(""));
      if IsTruthy(url) then Success(Bullet + ("<" + url.s + "|" + title + ">\n"))
      else Success(Bullet + (title + "\n"))
  }

  /** The bullet line of a team member, `member.get('name', 'Unknown')`. */
  function MemberLine(e: Entry, reading: TeamReading): (r: Result<string, Error>)
    ensures r.Failure? <==> e.Bare? && reading == AsWritten
    ensures r.Failure? ==> r.error == AttributeError
    ensures r.Success? ==> |r.value| > |Bullet| && r.value[..|Bullet|] == Bullet
  {
    match e
    case Bare(name) =>
      if reading == AsWritten then Failure(AttributeError) else Success(Bullet + (name + "\n"))
    case Obj(p) => Success(Bullet + (Show(GetOr(p, "name", Str("Unknown"))) + "\n"))
  }

  function EntryLine(kind: Kind, e: Entry, reading: TeamReading): (r: Result<string, Error>)
    ensures r.Failure? ==> r.error == AttributeError
    ensures r.Success? ==> |r.value| > |Bullet| && r.value[..|Bullet|] == Bullet
  {
    if kind == Team then MemberLine(e, reading) else PostLine(e)
  }

  /** Whether the formatter can print an entry of a list of this kind. */
  predicate Readable(kind: Kind, e: Entry, reading: TeamReading) {
    e.Obj? || (kind == Team && reading == Intended)
  }

  predicate AllReadable(kind: Kind, entries: seq<Entry>, reading: TeamReading) {
    forall i :: 0 <= i < |entries| ==> Readable(kind, entries[i], reading)
  }

  /** The bullet lines of a list, one per entry, in order. */
  function EntryLines(kind: Kind, entries: seq<Entry>, reading: TeamReading): (r: Result<seq<string>, Error>)
    ensures r.Success? <==> AllReadable(kind, entries, reading)
    ensures r.Failure? ==> r.error == AttributeError
    ensures r.Success? ==> |r.value| == |entries|
    ensures r.Success? ==> forall i :: 0 <= i < |entries| ==> r.value[i] == EntryLine(kind, entries[i], reading).value
    decreases |entries|
  {
    if entries == [] then Success([])
    else
      var first :- EntryLine(kind, entries[0], reading);
      var rest :- EntryLines(kind, entries[1..], reading);
      Success([first] + rest)
  }

  function Heading(name: string): string {
    "  - *" + name + ":*\n"
  }

  /** A sub-heading and its bullet lines, or nothing for an empty list. */
  function SubList(name: string, kind: Kind, entries: seq<Entry>, reading: TeamReading): (r: Result<seq<string>, Error>)
    ensures r.Success? <==> AllReadable(kind, entries, reading)
    ensures r.Failure? ==> r.error == AttributeError
    ensures r.Success? ==> (r.value == [] <==> entries == [])
    ensures r.Success? && entries != [] ==> |r.value| == |entries| + 1 && r.value[0] == Heading(name)
  {
    if entries == [] then Success([])
    else
      var lines :- EntryLines(kind, entries, reading);
      Success([Heading(name)] + lines)
  }

  /** The status is compared with `"updated"`; a missing status reads as
      `"initialized"`. */
  predicate IsUpdated(c: Option<Category>) {
    c.Some? && c.value.status.GetOr("initialized") == "updated"
  }

  /** The lines of one category: nothing when the category is falsy, a
      "Checked" line unless its status is `"updated"`, else the label and
      the non-empty lists (a team has no `updated` list). */
  function CategoryLines(kind: Kind, c: Option<Category>, reading: TeamReading): (r: Result<seq<string>, Error>)
    ensures c.None? ==> r == Success([])
    ensures c.Some? && !IsUpdated(c) ==> r == Success(["- *" + kind.Label() + ":* Checked\n"])
    ensures IsUpdated(c) ==>
      (r.Success? <==>
        && AllReadable(kind, c.value.added, reading)
        && AllReadable(kind, c.value.removed, reading)
        && (kind == Team || AllReadable(kind, c.value.updated, reading)))
    ensures IsUpdated(c) && r.Success? ==> r.value != [] && r.value[0] == "- *" + kind.Label() + ":*\n"
    ensures r.Failure? ==> r.error == AttributeError
  {
    match c
    case None => Success([])
    case Some(cat) =>
      if !IsUpdated(c) then Success(["- *" + kind.Label() + ":* Checked\n"])
      else
        var a :- SubList("Added", kind, cat.added, reading);
        var d :- SubList("Removed", kind, cat.removed, reading);
        var u :- if kind == Team then Success([]) else SubList("Updated", kind, cat.updated, reading);
        Success(["- *" + kind.Label() + ":*\n"] + a + d + u)
  }

  /** `result.get("blog") or result.get("research", {})` */
  function BlogData(r: CompanyResult): Option<Category> {
    if r.blog.Some? then r.blog else r.research
  }

  /** A result that sets `has_updates`: no error, and one of its categories
      has status `"updated"`. */
  predicate ReportsUpdate(r: CompanyResult) {
    r.error.None? && (IsUpdated(r.team) || IsUpdated(BlogData(r)) || IsUpdated(r.position))
  }

  function CompanyHead(r: CompanyResult): string {
    "*" + r.company.GetOr("Unknown") + "*\n"
  }

  /** The pieces of one company's section text, each ending in a line
      break. */
  function CompanyLines(r: CompanyResult, reading: TeamReading): (lines: Result<seq<string>, Error>)
    ensures r.error.Some? ==>
      lines == Success([CompanyHead(r), "\U{274C} *Error:* " + r.error.value + "\n"])
    ensures r.error.None? ==>
      (lines.Success? <==>
        && CategoryLines(Team, r.team, reading).Success?
        && CategoryLines(Blog, BlogData(r), reading).Success?
        && CategoryLines(Career, r.position, reading).Success?)
    ensures lines.Success? ==> lines.value != [] && lines.value[0] == CompanyHead(r)
    ensures lines.Failure? ==> lines.error == AttributeError
  {
    if r.error.Some? then Success([CompanyHead(r), "\U{274C} *Error:* " + r.error.value + "\n"])
    else
      var t :- CategoryLines(Team, r.team, reading);
      var b :- CategoryLines(Blog, BlogData(r), reading);
      var p :- CategoryLines(Career, r.position, reading);
      var a := if r.analysis == [] then [] else ["\n\U{1F4CA} *AI Analysis*\n", r.analysis + "\n"];
      Success([CompanyHead(r)] + t + b + p + a)
  }

  function Concat(pieces: seq<string>): string
    decreases |pieces|
  {
    if pieces == [] then [] else pieces[0] + Concat(pieces[1..])
  }

  /** The results `if not result: continue` keeps. */
  function Reported(results: seq<Option<CompanyResult>>): seq<CompanyResult>
    decreases |results|
  {
    if results == [] then []
    else (if results[0].Some? then [results[0].value] else []) + Reported(results[1..])
  }

  /** The kept results are exactly the truthy ones, and there are no more
      of them than results. */
  lemma {:induction false} ReportedMembers(results: seq<Option<CompanyResult>>)
    ensures |Reported(results)| <= |results|
    ensures forall x :: x in Reported(results) <==> Some(x) in results
    decreases |results|
  {
    if results != [] {
      ReportedMembers(results[1..]);
      ReportedStep(results);
      assert results == [results[0]] + results[1..];
    }
  }

  /** The results, each wrapped as a truthy entry of the input list. */
  function Wrapped(rs: seq<CompanyResult>): (w: seq<Option<CompanyResult>>)
    ensures |w| == |rs| && forall j :: 0 <= j < |rs| ==> w[j] == Some(rs[j])
  {
    seq(|rs|, j requires 0 <= j < |rs| => Some(rs[j]))
  }

  /** `rs` holds the truthy entries of `results` at the increasing
      positions `idx`, and those are all the truthy positions. */
  ghost predicate ReportedAt(idx: seq<nat>, results: seq<Option<CompanyResult>>, rs: seq<CompanyResult>) {
    && Increasing(idx) && ReadsAt(idx, results, Wrapped(rs))
    && forall i :: 0 <= i < |results| ==> (i in idx <==> results[i].Some?)
  }

  /** One section per truthy result, in the order of the results: the
      kept results are the input read at the increasing positions of
      exactly its truthy entries. */
  lemma {:induction false} ReportedIndices(results: seq<Option<CompanyResult>>) returns (idx: seq<nat>)
    ensures ReportedAt(idx, results, Reported(results))
    decreases |results|
  {
    if results == [] {
      idx := [];
    } else {
      var rest := ReportedIndices(results[1..]);
      var tail := Reported(results[1..]);
      ShiftFacts(rest);
      ReadsAtShift(results, rest, Wrapped(tail));
      ReportedTail(results, rest);
      ReportedStep(results);
      if results[0].Some? {
        idx := [0] + Shift(rest);
        WrappedCons(results[0].value, tail);
      } else {
        idx := Shift(rest);
      }
    }
  }

  lemma ReportedStep(results: seq<Option<CompanyResult>>)
    requires results != []
    ensures results[0].Some? ==> Reported(results) == [results[0].value] + Reported(results[1..])
    ensures results[0].None? ==> Reported(results) == Reported(results[1..])
  {
  }

  lemma WrappedCons(x: CompanyResult, rs: seq<CompanyResult>)
    ensures Wrapped([x] + rs) == [Some(x)] + Wrapped(rs)
  {
  }

  lemma ReportedTail(results: seq<Option<CompanyResult>>, rest: seq<nat>)
    requires results != [] && forall i :: 0 <= i < |results| - 1 ==> (i in rest <==> results[1..][i].Some?)
    requires forall i: nat :: i + 1 in Shift(rest) <==> i in rest
    ensures forall i :: 0 < i < |results| ==> (i in Shift(rest) <==> results[i].Some?)
  {
    forall i | 0 < i < |results| ensures i in Shift(rest) <==> results[i].Some? {
      assert results[1..][i - 1] == results[i];
      assert (i - 1) + 1 == i;
    }
  }

  /** Keeping the truthy results of a concatenation keeps those of each
      part, in order. */
  lemma {:induction false} ReportedConcat(a: seq<Option<CompanyResult>>, b: seq<Option<CompanyResult>>)
    ensures Reported(a + b) == Reported(a) + Reported(b)
    decreases |a|
  {
    if a == [] {
      assert a + b == b;
    } else {
      ReportedConcat(a[1..], b);
      assert (a + b)[1..] == a[1..] + b;
    }
  }

  /** The text of a company's section. */
  function CompanyText(r: CompanyResult, reading: TeamReading): (t: Result<string, Error>)
    ensures t.Success? <==> CompanyLines(r, reading).Success?
    ensures t.Failure? ==> t.error == AttributeError
  {
    var lines :- CompanyLines(r, reading);
    Success(Concat(lines))
  }

  /** The section texts of the kept results, in order; the first result
      that cannot be printed raises. */
  function Texts(rs: seq<CompanyResult>, reading: TeamReading): (r: Result<seq<string>, Error>)
    ensures r.Success? <==> AllText(rs, reading)
    ensures r.Failure? ==> r.error == AttributeError
    ensures r.Success? ==> |r.value| == |rs|
    ensures r.Success? ==> forall i :: 0 <= i < |rs| ==> r.value[i] == CompanyText(rs[i], reading).value
    decreases |rs|
  {
    if rs == [] then Success([])
    else
      var first :- CompanyText(rs[0], reading);
      var rest :- Texts(rs[1..], reading);
      Success([first] + rest)
  }

  predicate AllText(rs: seq<CompanyResult>, reading: TeamReading) {
    forall i :: 0 <= i < |rs| ==> CompanyText(rs[i], reading).Success?
  }

  /** A section followed by a divider for each text. */
  function Interleave(texts: seq<string>): (bs: seq<Block>)
    ensures |bs| == 2 * |texts|
    ensures forall i :: 0 <= i < |texts| ==> bs[2 * i] == Section(texts[i]) && bs[2 * i + 1] == Divider
  {
    seq(2 * |texts|, j requires 0 <= j < 2 * |texts| => if j % 2 == 0 then Section(texts[j / 2]) else Divider)
  }

  predicate AnyReports(rs: seq<CompanyResult>) {
    exists i :: 0 <= i < |rs| && ReportsUpdate(rs[i])
  }

  /** `has_updates` after the loop. */
  function HasUpdates(rs: seq<CompanyResult>): (b: bool)
    ensures b <==> AnyReports(rs)
    decreases |rs|
  {
    if rs == [] then false
    else
      assert forall i :: 1 <= i < |rs| ==> rs[1..][i - 1] == rs[i];
      ReportsUpdate(rs[0]) || HasUpdates(rs[1..])
  }

  function Preamble(now: string): seq<Block> {
    [Header(Title), Context("*Date:* " + now), Divider]
  }

  function Summary(hasUpdates: bool): Block {
    Section(if hasUpdates then UpdatesText else NoChangesText)
  }

  /** `format_slack_message(results)["blocks"]` with the clock reading
      `now`: the header, the date and a divider; a section and a divider
      per truthy result; the summary last. It raises AttributeError when
      a printed list holds an entry it cannot read. */
  function Format(results: seq<Option<CompanyResult>>, now: string, reading: TeamReading): (r: Result<seq<Block>, Error>)
    ensures r.Success? <==> AllPrintable(results, reading)
    ensures r.Failure? ==> r.error == AttributeError
    ensures r.Success? ==>
      && |r.value| == 3 + 2 * |Reported(results)| + 1
      && r.value[..3] == [Header(Title), Context("*Date:* " + now), Divider]
      && (r.value[|r.value| - 1] == Section(UpdatesText) || r.value[|r.value| - 1] == Section(NoChangesText))
      && (r.value[|r.value| - 1] == Section(UpdatesText) <==> AnyUpdate(results))
    ensures r.Success? ==> AllText(Reported(results), reading) && forall i :: 0 <= i < |Reported(results)| ==>
      && r.value[3 + 2 * i] == Section(CompanyText(Reported(results)[i], reading).value)
      && r.value[4 + 2 * i] == Divider
  {
    var rs := Reported(results);
    ReportedAll(results, reading);
    ReportedAny(results);
    var texts :- Texts(rs, reading);
    Success(Assemble(now, texts, HasUpdates(rs)))
  }

  /** The preamble, the sections with their dividers, and the summary. */
  function Assemble(now: string, texts: seq<string>, hasUpdates: bool): (bs: seq<Block>)
    ensures |bs| == 3 + 2 * |texts| + 1
    ensures bs[..3] == [Header(Title), Context("*Date:* " + now), Divider]
    ensures forall i :: 0 <= i < |texts| ==> bs[3 + 2 * i] == Section(texts[i]) && bs[4 + 2 * i] == Divider
    ensures bs[|bs| - 1] == Section(if hasUpdates then UpdatesText else NoChangesText)
  {
    var bs := Preamble(now) + Interleave(texts) + [Summary(hasUpdates)];
    AssembleLayout(Preamble(now), texts, Summary(hasUpdates), bs);
    bs
  }

  lemma AssembleLayout(pre: seq<Block>, texts: seq<string>, last: Block, bs: seq<Block>)
    requires |pre| == 3 && bs == pre + Interleave(texts) + [last]
    ensures |bs| == 3 + 2 * |texts| + 1 && bs[..3] == pre && bs[|bs| - 1] == last
    ensures forall i :: 0 <= i < |texts| ==> bs[3 + 2 * i] == Section(texts[i]) && bs[4 + 2 * i] == Divider
  {
    forall i | 0 <= i < |texts| ensures bs[3 + 2 * i] == Section(texts[i]) && bs[4 + 2 * i] == Divider {
      LayoutAt(pre, texts, last, i);
    }
    assert bs[..3] == pre;
  }

  lemma LayoutAt(pre: seq<Block>, texts: seq<string>, last: Block, i: nat)
    requires |pre| == 3 && i < |texts|
    ensures (pre + Interleave(texts) + [last])[3 + 2 * i] == Section(texts[i])
    ensures (pre + Interleave(texts) + [last])[4 + 2 * i] == Divider
  {
    var body := Interleave(texts);
    BodyAt(pre, body, last, 2 * i);
    BodyAt(pre, body, last, 2 * i + 1);
  }

  lemma BodyAt(pre: seq<Block>, body: seq<Block>, last: Block, k: nat)
    requires k < |body|
    ensures (pre + body + [last])[|pre| + k] == body[k]
  {
  }

  /** Every truthy result can be printed. */
  predicate AllPrintable(results: seq<Option<CompanyResult>>, reading: TeamReading) {
    forall i :: 0 <= i < |results| && results[i].Some? ==> CompanyText(results[i].value, reading).Success?
  }

  /** Some truthy result reports an update. */
  predicate AnyUpdate(results: seq<Option<CompanyResult>>) {
    exists i :: 0 <= i < |results| && results[i].Some? && ReportsUpdate(results[i].value)
  }

  lemma ReportedIndex(results: seq<Option<CompanyResult>>)
    ensures forall i :: 0 <= i < |Reported(results)| ==> Some(Reported(results)[i]) in results
    ensures forall i :: 0 <= i < |results| && results[i].Some? ==> results[i].value in Reported(results)
  {
    var rs := Reported(results);
    ReportedMembers(results);
    forall i | 0 <= i < |rs| ensures Some(rs[i]) in results {
      assert rs[i] in rs;
    }
    forall i | 0 <= i < |results| && results[i].Some? ensures results[i].value in rs {
      assert Some(results[i].value) in results;
    }
  }

  lemma ReportedAll(results: seq<Option<CompanyResult>>, reading: TeamReading)
    ensures AllText(Reported(results), reading) <==> AllPrintable(results, reading)
  {
    var rs := Reported(results);
    ReportedIndex(results);
    if AllText(rs, reading) {
      forall i | 0 <= i < |results| && results[i].Some? ensures CompanyText(results[i].value, reading).Success? {
        var j :| 0 <= j < |rs| && rs[j] == results[i].value;
      }
      assert AllPrintable(results, reading);
    }
    if AllPrintable(results, reading) {
      forall j | 0 <= j < |rs| ensures CompanyText(rs[j], reading).Success? {
        var i :| 0 <= i < |results| && results[i] == Some(rs[j]);
        assert results[i].Some?;
      }
      assert AllText(rs, reading);
    }
  }

  lemma ReportedAny(results: seq<Option<CompanyResult>>)
    ensures AnyReports(Reported(results)) <==> AnyUpdate(results)
  {
    var rs := Reported(results);
    ReportedMembers(results);
    if AnyReports(rs) {
      var j :| 0 <= j < |rs| && ReportsUpdate(rs[j]);
      assert rs[j] in rs;
      var i :| 0 <= i < |results| && results[i] == Some(rs[j]);
      assert results[i].Some? && ReportsUpdate(results[i].value);
    }
    if AnyUpdate(results) {
      var i :| 0 <= i < |results| && results[i].Some? && ReportsUpdate(results[i].value);
      assert Some(results[i].value) in results;
      var j :| 0 <= j < |rs| && rs[j] == results[i].value;
      assert ReportsUpdate(rs[j]);
    }
  }

  /** A result with an `error` prints only its name and the error line:
      its categories and analysis make no difference. */
  lemma ErrorHidesCategories(r: CompanyResult, reading: TeamReading)
    requires r.error.Some?
    ensures CompanyText(r, reading)
         == CompanyText(r.(team := None, blog := None, research := None, position := None, analysis := []), reading)
    ensures |CompanyLines(r, reading).value| == 2
  {
  }

  /** Research results are printed under "Blog" when there is no blog
      result, and ignored when there is one. */
  lemma ResearchStandsInForBlog(r: CompanyResult, reading: TeamReading)
    ensures r.blog.None? ==> CompanyText(r, reading) == CompanyText(r.(blog := r.research, research := None), reading)
    ensures r.blog.Some? ==> CompanyText(r, reading) == CompanyText(r.(research := None), reading)
  {
  }

  /** A bullet line never reads as a sub-heading. */
  lemma BulletIsNotHeading(line: string, name: string)
    requires |line| > |Bullet| && line[..|Bullet|] == Bullet
    ensures line != Heading(name)
  {
    assert line[2] == Bullet[2] == ' ';
    assert Heading(name)[2] == '-';
  }

  /** The "Added", "Removed" and "Updated" sub-headings appear exactly
      when their list is non-empty. */
  lemma HeadingIffNonEmpty(name: string, kind: Kind, entries: seq<Entry>, reading: TeamReading)
    requires AllReadable(kind, entries, reading)
    ensures Heading(name) in SubList(name, kind, entries, reading).value <==> entries != []
  {
    if entries != [] {
      var lines := EntryLines(kind, entries, reading).value;
      assert SubList(name, kind, entries, reading).value == [Heading(name)] + lines;
    }
  }

  /** A post with a url prints as a Slack link, one without as its bare
      title, one without a title as "Untitled". */
  lemma PostLineForms(title: string, url: string)
    ensures url != [] ==>
      PostLine(Obj(map["title" := Str(title), "url" := Str(url)]))
        == Success(Bullet + ("<" + url + "|" + title + ">\n"))
    ensures PostLine(Obj(map["title" := Str(title), "url" := Str([])])) == Success(Bullet + (title + "\n"))
    ensures PostLine(Obj(map["url" := Str([])])) == Success(Bullet + ("Untitled" + "\n"))
  {
  }

  /** The status word a compare puts in its result. */
  function StatusText(st: Status): string {
    match st
    case Initialized => "initialized"
    case Checked => "checked"
    case Updated => "updated"
  }

  /** The team category of a result, as `member_compare` returns it: bare
      names, and no `updated` list. */
  function TeamOf(rep: Members.MemberReport): (c: Category)
    ensures |c.added| == |rep.added| && |c.removed| == |rep.removed|
    ensures forall i :: 0 <= i < |rep.added| ==> c.added[i] == Bare(rep.added[i])
    ensures forall i :: 0 <= i < |rep.removed| ==> c.removed[i] == Bare(rep.removed[i])
  {
    Category(Some(StatusText(rep.status)),
             seq(|rep.added|, i requires 0 <= i < |rep.added| => Bare(rep.added[i])),
             seq(|rep.removed|, i requires 0 <= i < |rep.removed| => Bare(rep.removed[i])),
             [])
  }

  /** As written: once a member joined or left, formatting any result list
      that holds this team result raises AttributeError, so no report is
      built at all. */
  lemma MemberChangeBreaksReport(results: seq<Option<CompanyResult>>, now: string, k: nat, rep: Members.MemberReport)
    requires k < |results| && results[k].Some? && results[k].value.error.None?
    requires results[k].value.team == Some(TeamOf(rep))
    requires rep.status == Updated && (rep.added != [] || rep.removed != [])
    ensures Format(results, now, AsWritten) == Failure(AttributeError)
  {
    var c := TeamOf(rep);
    if rep.added != [] {
      assert !Readable(Team, c.added[0], AsWritten);
    } else {
      assert !Readable(Team, c.removed[0], AsWritten);
    }
    assert !AllPrintable(results, AsWritten);
  }

  /** Read as intended, the team category of any member report prints, with
      one bullet per joined or departed name. */
  lemma MemberChangePrints(rep: Members.MemberReport)
    ensures var lines := CategoryLines(Team, Some(TeamOf(rep)), Intended);
      && lines.Success?
      && (rep.status == Updated ==>
            forall n :: n in rep.added || n in rep.removed ==> Bullet + (n + "\n") in lines.value)
  {
    var c := TeamOf(rep);
    var lines := CategoryLines(Team, Some(c), Intended);
    BareNamesPrint("Added", rep.added, c.added);
    BareNamesPrint("Removed", rep.removed, c.removed);
    if rep.status == Updated {
      var a := SubList("Added", Team, c.added, Intended).value;
      var d := SubList("Removed", Team, c.removed, Intended).value;
      var u: seq<string> := [];
      assert lines.value == ["- *" + Team.Label() + ":*\n"] + a + d + u;
    }
  }

  /** The sub-list of bare names, read as intended, holds a bullet line
      for each name. */
  lemma BareNamesPrint(name: string, names: seq<string>, entries: seq<Entry>)
    requires |entries| == |names| && forall i :: 0 <= i < |names| ==> entries[i] == Bare(names[i])
    ensures SubList(name, Team, entries, Intended).Success?
    ensures forall n :: n in names ==> Bullet + (n + "\n") in SubList(name, Team, entries, Intended).value
  {
    var s := SubList(name, Team, entries, Intended).value;
    forall n | n in names ensures Bullet + (n + "\n") in s {
      var i :| 0 <= i < |names| && names[i] == n;
      assert s[i + 1] == EntryLines(Team, entries, Intended).value[i];
    }
  }

  /** The member report of a run in which the member "Ada" joined. */
  function AdaReport(): Members.MemberReport {
    Members.MemberReport(Updated, ["Ada"], [])
  }

  /** A run in which Physical Intelligence gained the member "Ada". */
  function AdaJoined(): CompanyResult {
    CompanyResult(Some("Physical Intelligence"), None, Some(TeamOf(AdaReport())), None, None, None, [])
  }

  /** The discrepancy on one input: as written the report fails, as
      intended it is built and its summary says updates were detected. */
  lemma AdaJoinedExample(now: string)
    ensures Format([Some(AdaJoined())], now, AsWritten) == Failure(AttributeError)
    ensures var r := Format([Some(AdaJoined())], now, Intended);
      r.Success? && r.value[|r.value| - 1] == Section(UpdatesText)
  {
    var results := [Some(AdaJoined())];
    MemberChangeBreaksReport(results, now, 0, AdaReport());
    MemberChangePrints(AdaReport());
    assert AllPrintable(results, Intended) by {
      assert CompanyText(results[0].value, Intended).Success?;
    }
    assert AnyUpdate(results) by {
      assert ReportsUpdate(results[0].value);
    }
  }
}
