# scouting_bot change detection, modelled in Dafny

scouting_bot crawls the career pages, blogs and team pages of a few robotics
companies (DYNA, Skild AI, Physical Intelligence) once a day. It compares each
crawl with the snapshot it saved on the previous run and posts the differences
to Slack. This project models the parts that decide what counts as a change:

- the records the crawlers build, and the ids that key them:
  - `normalize_id` (DYNA, Skild AI);
  - `_make_job_id`, a percent-encoding of the title (Physical Intelligence);
  - `generate_id` with `parse_date` (DYNA research);
  - `_clean_ashby_text` (Physical Intelligence descriptions);
- the five compare functions. Each turns (current crawl, stored snapshot)
  into a status, the `added` / `removed` / `updated` lists and the new
  snapshot:
  - `position_compare` of DYNA, of Skild AI and of Physical Intelligence;
  - `blog_compare` of Skild AI;
  - `member_compare` of Physical Intelligence;
- `format_slack_message`, which folds the compare results into Slack blocks.

Modules, one per source concern:

| module | file | models |
|---|---|---|
| `Wrappers` | wrappers.dfy | `Option` and `Result`, used with `:-` to model a raised exception |
| `Records` | records.dfy | JSON records, `.get`, the exceptions, `Snapshot`, the result record |
| `IdIndex` | index.dfy | `{p["id"]: p for p in items}`: KeyError on a missing id, last record wins |
| `Ascii` | ascii.dfy | `lower`, `upper`, `isspace`, `strip` on ASCII |
| `Slug` | slug.dfy | `normalize_id` |
| `PercentEncoding` | percent.dfy | `urllib.parse.quote` and `_make_job_id` |
| `AshbyText` | ashby_text.dfy | `splitlines`, `"\n\n".join` and `_clean_ashby_text` |
| `DynaPositions` | dyna_positions.dfy | DYNA posting record and `position_compare` |
| `SkildPositions` | skild_positions.dfy | Skild AI posting record and `position_compare` |
| `PiPositions` | pi_positions.dfy | Physical Intelligence posting record and `position_compare` |
| `SkildBlog` | skild_blog.dfy | Skild AI `blog_compare`, as written and as intended |
| `Members` | members.dfy | Physical Intelligence `member_compare` and Python string order |
| `DynaResearch` | dyna_research.dfy | `parse_date`, `generate_id` and the research record |
| `SlackReport` | slack_report.dfy | `format_slack_message` |

The stored snapshot is a value:
- `Absent`: there is no file yet;
- `Corrupt`: the file does not parse, or does not hold a list;
- `Present(items)`: the list.

Each compare returns either a raised exception (`Failure(KeyError)` and so on)
or an `Outcome`: the result record and the snapshot that is on disk afterwards.
Python sets have no defined iteration order, so `added`, `removed` and
`updated` are maps keyed by id; `member_compare` sorts its lists, and those
stay sequences. sha256 and md5 are function parameters (`hash`, `md5`), and
the clock reading in the Slack header is the parameter `now`.

The three `position_compare` files and `blog_compare` are near copies of one
another in the source. Each module keeps its own `Classify`, because they
differ in the field whose change counts (`description_hash` or `excerpt`)
and in the keys an `updated` entry reads. `PiPositions.Classify` and
`DynaPositions.Classify` happen to have the same body. They are kept apart on
purpose, one per compare file, as the source keeps them.

## Model

| member | source | states |
|---|---|---|
| IdIndex.Index | company_crawler/dyna/position_compare.py:27-28 | The id map has exactly the ids of the list as keys, and each id maps to the last record carrying it |
| IdIndex.IndexById | company_crawler/dyna/position_compare.py:27-28 | Indexing fails with KeyError exactly when some record has no `"id"`; on success the keys are the ids |
| IdIndex.LastRecordWins | company_crawler/skild_ai/position_compare.py:27-28 | A record after which no record carries its id is the one the map keeps for that id |
| Ascii.StripSpec | company_crawler/skild_ai/position_crawler.py:36-37 | `strip()` returns a contiguous slice with no whitespace at either end, and everything it removes is whitespace |
| Slug.NormalizeIdShape | company_crawler/dyna/position_crawler.py:153-157 | Every id is kebab-case over `a-z0-9`: no hyphen at either end and no two hyphens in a row. It keeps exactly the lower-cased ASCII letters and digits of the input, in order |
| Slug.NormalizeIdIdempotent | company_crawler/skild_ai/position_crawler.py:70-74 | Normalising an id again leaves it unchanged |
| Slug.NormalizeIdIgnoresCase | company_crawler/dyna/position_crawler.py:157 | Upper-casing the title first gives the same id |
| Slug.NormalizeIdEmpty | company_crawler/dyna/position_crawler.py:157 | The id is empty exactly when the input has no ASCII letter or digit |
| Slug.CollapseRun | company_crawler/dyna/position_crawler.py:157 | A maximal run of characters outside `[a-z0-9]` becomes one hyphen |
| Slug.TrimLeftSpec | company_crawler/dyna/position_crawler.py:157 | `strip("-")` removes only hyphens at the front and leaves no hyphen in front |
| Slug.TrimRightSpec | company_crawler/dyna/position_crawler.py:157 | `strip("-")` removes only hyphens at the end and leaves no hyphen at the end |
| Slug.SeparatorCollapses | company_crawler/dyna/position_crawler.py:127 | For any letters or digits x and y, title "x y" with an empty location and title "x" with location "y" both give the id `x-y` |
| DynaPositions.PositionRecord | company_crawler/dyna/position_crawler.py:127-138 | The record has the six crawler keys and holds the title, location, compensation and description as given; its id is the normalised `title + "__" + location`, its hash the hash of the description |
| DynaPositions.RecordIdentity | company_crawler/dyna/position_crawler.py:127-129 | The id does not depend on compensation or description; the hash depends on the description only |
| DynaPositions.IdsCollide | company_crawler/dyna/position_crawler.py:127 | Two different (title, location) pairs, ("a b", "") and ("a", "b"), get the same id `a-b` |
| DynaPositions.Classify | company_crawler/dyna/position_compare.py:30-50 | `added` and `removed` are the id set differences with their records. `updated` lists exactly the common ids whose `description_hash` reads differently. KeyError exactly when such an entry lacks a title or location |
| DynaPositions.Compare | company_crawler/dyna/position_compare.py:10-64 | No file: initialized, and the crawl is saved. A corrupt store reads as empty. On a clean success the status is checked, nothing is returned and the store is untouched; otherwise the lists are returned and the crawl is saved. Failure is KeyError, exactly when indexing or describing fails |
| DynaPositions.AddedAndRemoved | company_crawler/dyna/position_compare.py:33-38 | `added` holds exactly the ids only the crawl has, each with its last current record; `removed` the ids only the store has, each with its last stored record |
| DynaPositions.UpdatedIds | company_crawler/dyna/position_compare.py:41-42 | An id is in `updated` exactly when it is in both lists and the `.get("description_hash")` of its last records differ |
| DynaPositions.Disjoint | company_crawler/dyna/position_compare.py:33-35 | No id is in two of `added`, `removed` and `updated` |
| DynaPositions.UpdatedEntries | company_crawler/dyna/position_compare.py:43-50 | Each `updated` entry takes title, location and compensation from the current record and the two hashes from the two records, defaulting to `""` |
| DynaPositions.StatusRule | company_crawler/dyna/position_compare.py:52-64 | With a store, a successful run is checked exactly when the id sets agree and no hash moved, and updated otherwise |
| DynaPositions.SelfCompareIsChecked | company_crawler/dyna/position_compare.py:52-55 | Comparing a crawl with a snapshot of itself gives checked and keeps the store |
| DynaPositions.CorruptActsAsEmpty | company_crawler/dyna/position_compare.py:20-25 | An unreadable store gives the report of an empty one: with a non-empty crawl, every id is added and the crawl is saved |
| SkildPositions.PositionRecord | company_crawler/skild_ai/position_crawler.py:36-60 | The record has the six keys, empty compensation, and the stripped title, location and description; its id is the normalised stripped title and location, its hash that of the stripped description |
| SkildPositions.EmptyTitleAndLocation | company_crawler/skild_ai/position_crawler.py:36-38 | A posting with empty title and location gets the empty id |
| SkildPositions.Classify | company_crawler/skild_ai/position_compare.py:30-49 | Same lists as DYNA; describing an entry also indexes `description_hash` of both records, so it fails with KeyError when either is missing |
| SkildPositions.Compare | company_crawler/skild_ai/position_compare.py:10-58 | No file: initialized. A corrupt store reads as empty. With a store, every success reports updated and saves the crawl; failure is KeyError exactly when indexing or describing fails |
| SkildPositions.Lists | company_crawler/skild_ai/position_compare.py:33-49 | `added` and `removed` are the id differences with their last records; `updated` is exactly the common ids whose hash moved, with current title and location and both stored hashes |
| SkildPositions.OneSidedHashFails | company_crawler/skild_ai/position_compare.py:42-48 | A common posting whose non-null hash is present on one side only makes the run raise KeyError |
| SkildPositions.SelfCompareIsUpdated | company_crawler/skild_ai/position_compare.py:51-58 | There is no checked outcome: a crawl compared with itself is updated with empty lists, and the store is rewritten |
| SkildPositions.CorruptActsAsEmpty | company_crawler/skild_ai/position_compare.py:20-25 | An unreadable store gives the result of an empty one, so every current id is added |
| PercentEncoding.Piece | company_crawler/physical_intelligence/position_crawler.py:103 | A safe byte stays one character; any other byte becomes `%` and two upper-case hex digits that denote it |
| PercentEncoding.UnquoteQuote | company_crawler/physical_intelligence/position_crawler.py:103 | Decoding the `%XX` escapes of `quote(s)` gives back the UTF-8 bytes of `s` |
| PercentEncoding.QuoteBytesAlphabet | company_crawler/physical_intelligence/position_crawler.py:103 | `quote` emits only ASCII letters, digits, `_ . - ~ /` and `%` |
| PercentEncoding.QuoteOfSafe | company_crawler/physical_intelligence/position_crawler.py:103 | A string of safe characters is returned unchanged |
| PercentEncoding.MakeJobIdDecodes | company_crawler/physical_intelligence/position_crawler.py:99-103 | The job id decodes to the UTF-8 bytes of the lower-cased title with spaces turned into hyphens |
| PercentEncoding.MakeJobIdOfPlainTitle | company_crawler/physical_intelligence/position_crawler.py:99-103 | A title of ASCII letters, digits, spaces and `_ . - ~ /` becomes its lower-cased, hyphenated self |
| PercentEncoding.MakeJobIdHasNoSpace | company_crawler/physical_intelligence/position_crawler.py:103 | A job id never contains a space |
| PercentEncoding.MakeJobIdCollides | company_crawler/physical_intelligence/position_crawler.py:103 | "A B" and "a-b" share the id `a-b` |
| AshbyText.SplitLines | company_crawler/physical_intelligence/position_crawler.py:110 | No piece holds a line boundary, and only the empty text has no lines |
| AshbyText.SplitJoin | company_crawler/physical_intelligence/position_crawler.py:110 | Lines without boundaries, joined with line feeds, split back into the same lines when the last is non-empty |
| AshbyText.FilterMembership | company_crawler/physical_intelligence/position_crawler.py:111-124 | A line survives exactly when it is non-empty and not one of the four blacklisted lines |
| AshbyText.FilterIndices | company_crawler/physical_intelligence/position_crawler.py:111-124 | The filtered lines are the input read at the increasing positions of exactly the lines that pass: order and repetitions are kept |
| AshbyText.FilterConcat | company_crawler/physical_intelligence/position_crawler.py:111-124 | Filtering decides line by line: filtering a concatenation filters each part, in order |
| AshbyText.CleanedLinesInOrder | company_crawler/physical_intelligence/position_crawler.py:110-124 | The cleaned lines are the stripped input lines that survive the filters, in input order and with their repetitions |
| AshbyText.CleanedLinesMembership | company_crawler/physical_intelligence/position_crawler.py:106-126 | A line is in the description exactly when it is the stripped form of an input line, non-empty and not blacklisted |
| AshbyText.CleanedLinesShape | company_crawler/physical_intelligence/position_crawler.py:110-124 | Every kept line is stripped, non-blank, free of line boundaries and not blacklisted |
| AshbyText.CleanEmpty | company_crawler/physical_intelligence/position_crawler.py:126 | The description is empty exactly when no line survives |
| AshbyText.CleanIdempotent | company_crawler/physical_intelligence/position_crawler.py:106-126 | Cleaning a cleaned description keeps the same lines and the same text |
| AshbyText.BlacklistIsExact | company_crawler/physical_intelligence/position_crawler.py:113-123 | " Apply " is dropped after stripping, while "apply" in lower case is kept |
| PiPositions.PositionRecord | company_crawler/physical_intelligence/position_crawler.py:74-80 | The record has id, title and description; the id is the job id of the title, the description the cleaned frame text |
| PiPositions.CrawledRecords | company_crawler/physical_intelligence/position_crawler.py:74-80 | Crawled records always carry an id and a text description, so stamping cannot fail; each description is already clean |
| PiPositions.Hashed | company_crawler/physical_intelligence/position_compare.py:22-23 | Stamping adds `description_hash`, the hash of the description, and changes no other key |
| PiPositions.Classify | company_crawler/physical_intelligence/position_compare.py:38-62 | The lists are the id differences and the common ids whose hash reads differently, each `updated` entry holding the current title and both descriptions. KeyError exactly when such an entry lacks a title |
| PiPositions.Compare | company_crawler/physical_intelligence/position_compare.py:22-72 | A description that is not a string raises AttributeError before anything else. No file: initialized. An unreadable store raises. Otherwise updated. Every success saves the stamped crawl |
| PiPositions.HashedIndex | company_crawler/physical_intelligence/position_compare.py:22-23 | Stamping keeps the ids, and each id resolves to its last record, stamped |
| PiPositions.Lists | company_crawler/physical_intelligence/position_compare.py:38-62 | With a readable store, failure is exactly a missing id or an untitled changed posting. Otherwise `added` is the new ids with stamped records, `removed` the vanished ids, and `updated` exactly the common ids whose stored hash differs from the new one |
| PiPositions.MissingHashIsUpdated | company_crawler/physical_intelligence/position_compare.py:56 | A stored posting without `description_hash` is always listed as updated |
| PiPositions.UpdatedIffDescriptionChanged | company_crawler/physical_intelligence/position_compare.py:55-62 | For a stored record this compare wrote, and a collision-free hash, a posting is updated exactly when its description changed |
| PiPositions.SameDescriptionNotUpdated | company_crawler/physical_intelligence/position_compare.py:55-56 | With any hash, a posting whose description did not change since it was stored is not listed as updated |
| PiPositions.RerunIsQuiet | company_crawler/physical_intelligence/position_compare.py:22-72 | A second run on the same crawl, against the store the first run left, reports no change |
| SkildBlog.UpdatedOf | company_crawler/skild_ai/blog_compare.py:31-42 | An id is in `updated` exactly when its excerpt reads differently; KeyError exactly when such a post lacks a title or url |
| SkildBlog.Compare | company_crawler/skild_ai/blog_compare.py:7-50 | As written. No file: initialized. An unreadable store raises. A success needs equal id sets and has empty `added` and `removed`. A failure is TypeError when both id sets exist and differ, else KeyError |
| SkildBlog.Classify | company_crawler/skild_ai/blog_compare.py:25-42 | The intended lists: id differences with their records, and `updated` exactly the posts whose excerpt changed |
| SkildBlog.CompareIntended | company_crawler/skild_ai/blog_compare.py:7-50 | The intended compare: initialized, raise on an unreadable store, else KeyError or updated with the lists; the crawl is saved on success |
| SkildBlog.IntendedLists | company_crawler/skild_ai/blog_compare.py:19-42 | The intended compare succeeds exactly when all posts have ids and changed posts have title and url. Its lists are the id differences and the changed excerpts, each with the right record |
| SkildBlog.AsWrittenLists | company_crawler/skild_ai/blog_compare.py:25-29 | As written, a success needs equal id sets as well. Differing id sets always raise TypeError. With equal id sets the two compares agree |
| SkildBlog.NewPostFails | company_crawler/skild_ai/blog_compare.py:28 | One new post against an empty store: as written TypeError, as intended the post is listed as added |
| SkildBlog.RerunIsQuiet | company_crawler/skild_ai/blog_compare.py:7-50 | Running the intended compare twice on the same crawl reports no change the second time |
| Members.BelowTotal | company_crawler/physical_intelligence/member_compare.py:23-24 | Python string order is total on distinct strings |
| Members.BelowTransitive | company_crawler/physical_intelligence/member_compare.py:23-24 | Python string order is transitive |
| Members.SortUnique | company_crawler/physical_intelligence/member_compare.py:23-24 | The result is strictly ascending and holds exactly the names of the input |
| Members.Difference | company_crawler/physical_intelligence/member_compare.py:23 | A name is in the result exactly when it is in the first list and not the second |
| Members.AscendingUnique | company_crawler/physical_intelligence/member_compare.py:23-24 | Two strictly ascending lists of the same names are equal, which makes `sorted` of a set well defined |
| Members.Compare | company_crawler/physical_intelligence/member_compare.py:6-32 | No file: initialized with empty lists. A store that does not parse raises. Otherwise updated with ascending lists. The crawl is saved as it came |
| Members.ListsAreSortedDifferences | company_crawler/physical_intelligence/member_compare.py:23-24 | A list is `sorted(list(curr_set - prev_set))` exactly when it is the model's `added`, and likewise for `removed` |
| Members.OrderAndRepeatsIgnored | company_crawler/physical_intelligence/member_compare.py:7-24 | Reordering or repeating names in the crawl or the store does not change the report |
| Members.AddedRemovedDisjoint | company_crawler/physical_intelligence/member_compare.py:23-24 | No name is both added and removed; an added name was not stored and a removed name is not on the page |
| Members.QuietIffSameNames | company_crawler/physical_intelligence/member_compare.py:23-24 | Both lists are empty exactly when page and store hold the same names |
| DynaResearch.MatchDate | company_crawler/dyna/blog_crawler.py:16-19 | The groups of a match are three capitals, a day of one or two digits and a two-digit year |
| DynaResearch.MatchComplete | company_crawler/dyna/blog_crawler.py:16 | Every text of that shape matches, with its groups, whatever follows |
| DynaResearch.MatchSound | company_crawler/dyna/blog_crawler.py:16-19 | Every match comes from such a text: the input is month, whitespace, day, whitespace, apostrophe, year, rest |
| DynaResearch.NoMatchWithoutCapitals | company_crawler/dyna/blog_crawler.py:16-18 | A text that does not start with three capitals has no match |
| DynaResearch.ParseDateShape | company_crawler/dyna/blog_crawler.py:12-27 | A match gives `YYYY-MM-DD` built from the year, the month number and the day, with a leading `0` for a one-digit day; no match returns the raw text unchanged |
| DynaResearch.FormatDate | company_crawler/dyna/blog_crawler.py:19-27 | The output is ISO-shaped and keeps the two-digit year, the month number and the day; a one-digit day gets the leading `0` of `zfill(2)` |
| DynaResearch.MonthTable | company_crawler/dyna/blog_crawler.py:20-24 | The twelve abbreviations map to `01` to `12` |
| DynaResearch.ParseDateExample | company_crawler/dyna/blog_crawler.py:12-27 | "JUN 15 '25" gives "2025-06-15" |
| DynaResearch.ParseDateNoCalendar | company_crawler/dyna/blog_crawler.py:25-27 | "FEB 31 '25" gives "2025-02-31": the calendar is not checked |
| DynaResearch.ParseDateUnknownMonth | company_crawler/dyna/blog_crawler.py:25-27 | An unknown abbreviation falls back to January, and a one-digit day is padded |
| DynaResearch.ParseDateLowerCase | company_crawler/dyna/blog_crawler.py:16-18 | "Jun 15 '25" does not match and comes back as it was |
| DynaResearch.ResearchItem | company_crawler/dyna/blog_crawler.py:125-135 | The record has the six keys and holds the title, excerpt and url as given; its id is `md5(title + "_" + date)` of the parsed date, its date the parsed date, and its type is research |
| DynaResearch.ResearchIdIgnoresExcerptAndUrl | company_crawler/dyna/blog_crawler.py:126 | The id depends only on the title and the parsed date |
| DynaResearch.GenerateIdAmbiguous | company_crawler/dyna/blog_crawler.py:9-10 | Different (title, date) pairs can hash the same string, because `_` may occur in the title |
| SlackReport.PostLine | daily_crawler.py:268-274 | A post prints as a bullet. A bare string raises AttributeError |
| SlackReport.MemberLine | daily_crawler.py:244-246 | A member prints as a bullet. A bare name raises AttributeError as written, and prints as intended |
| SlackReport.EntryLines | daily_crawler.py:244-251 | One bullet line per entry, in order; AttributeError exactly when some entry cannot be read |
| SlackReport.SubList | daily_crawler.py:242-251 | A sub-heading followed by the entries' lines, or nothing for an empty list |
| SlackReport.CategoryLines | daily_crawler.py:233-253 | A falsy category prints nothing and a status other than updated prints a Checked line. An updated one prints the label and the non-empty lists, and fails exactly when a printed entry cannot be read |
| SlackReport.CompanyLines | daily_crawler.py:217-341 | A result with an error prints just its name and the error. Otherwise it fails exactly when one of its categories fails |
| SlackReport.ReportedMembers | daily_crawler.py:213-215 | Exactly the truthy results are kept |
| SlackReport.ReportedIndices | daily_crawler.py:213-215 | The kept results are the input read at the increasing positions of exactly its truthy entries: one section per truthy result, in input order |
| SlackReport.ReportedConcat | daily_crawler.py:213-215 | Skipping falsy results decides entry by entry: the kept results of a concatenation are those of each part, in order |
| SlackReport.HasUpdates | daily_crawler.py:211-301 | `has_updates` is set exactly when some kept result without an error has a category with status updated |
| SlackReport.Format | daily_crawler.py:184-373 | Success exactly when every kept result prints. The message is the header, the date and a divider, then a section and a divider per kept result in order, then the summary. The summary reports updates exactly when some result does |
| SlackReport.ErrorHidesCategories | daily_crawler.py:220-230 | A result with an error prints the same whatever its categories and analysis hold |
| SlackReport.ResearchStandsInForBlog | daily_crawler.py:256 | Research results print under Blog when there is no blog result, and are ignored when there is one |
| SlackReport.HeadingIffNonEmpty | daily_crawler.py:242-243 | The sub-heading appears exactly when its list is non-empty |
| SlackReport.PostLineForms | daily_crawler.py:269-274 | A post with a url prints as a link, one without as its title, one without a title as "Untitled" |
| SlackReport.TeamOf | company_crawler/physical_intelligence/member_compare.py:28-32 | The team category carries the names of a member report as bare strings, in order |
| SlackReport.MemberChangeBreaksReport | daily_crawler.py:244-251 | As written, once a member joins or leaves, formatting any result list that holds that team result raises AttributeError |
| SlackReport.MemberChangePrints | daily_crawler.py:241-251 | As intended, every team category prints, with a bullet for each joined or departed name |
| SlackReport.AdaJoinedExample | daily_crawler.py:244-246 | One input shows it: as written no report is built; as intended it is built and its summary reports updates |

## Left out

- Reading and writing files, JSON parsing and `mkdir` are left out. A store is `Absent`, `Corrupt` or `Present`. `Corrupt` covers both unparsable text and JSON that is not a list.
- SkildBlog.Compare, PiPositions.Compare and Members.Compare raise `DecodeError` on a `Corrupt` store. For a store that parses to a JSON value other than a list, the source behaves differently:
  - an empty object `{}` or an empty string `""` iterates nothing, so `{p["id"]: p for p in prev}` and `set(prev)` see an empty store and the run succeeds as it would on `[]`;
  - a non-empty object or string iterates keys or characters: the position and blog compares then raise TypeError at `p["id"]`, while `member_compare` compares against the set of keys or characters;
  - `null`, a number or a boolean cannot be iterated, and every compare raises TypeError.
- JSON values other than strings and null are not modelled in records, because the compares only compare and copy them.
- A stored list element that is not a JSON object, such as `[null]` or `["x"]`, is not expressible: an `Item` is always an object. In the source, `p["id"]` on such an element raises TypeError in every position and blog compare.
- `crawl_all_companies` calls every runner as `runner(purpose)` (daily_crawler.py:37), but the Skild AI and Physical Intelligence `run()` take no argument, so in the shipped program their results are always error entries. The model starts from the result records and does not model this call.
- The Playwright scraping loops of all crawlers are left out: page navigation, selectors, timeouts and the rules that skip a posting. One such rule is Physical Intelligence dropping frame texts shorter than 100 characters. These are browser I/O.
- sha256 and md5 are parameters. Their collision resistance is an explicit `requires` (`PiPositions.Injective`) where a lemma needs it.
- `Ascii.Strip`, `Ascii.Lower` and `Slug.NormalizeId` cover ASCII only. Python's `str.lower`, `str.strip` and `isspace` also act on non-ASCII letters and spaces, and the regex classes `\s` and `\d` match Unicode spaces and digits.
- Python set iteration order is not modelled: `added`, `removed` and `updated` of the position and blog compares are maps keyed by id.
- The order of those lists is therefore unspecified in the model, just as it is unspecified in the source.
- The Skild AI and Physical Intelligence blog crawlers, with their `strptime` date parsing, are not part of this model. The same holds for the runners and `main` modules.
- Also outside the model: `analyze_position_changes`, `send_slack_notification`, `crawl_all_companies` and `main` of `daily_crawler.py`. They call an LLM, the network and the compares, and hold no change logic.
- SlackReport.Format: the date line takes the clock reading `now` as a parameter instead of calling `datetime.now()`.
- SlackReport.Format: the category dicts are typed.
  - An empty dict and a missing key are both `None`, since both are falsy.
  - An `error` key is modelled as a string.
  - `company` is modelled as a string or missing.
  - The analysis text is modelled as a string, empty when missing or null.
- PiPositions.Compare: the in-place mutation of the caller's list by the stamping loop is modelled as the stamped list the compare saves.

## Findings

| source | as written | input that shows it | evidently intended | confidence | as-written member | corrected member |
|---|---|---|---|---|---|---|
| company_crawler/skild_ai/blog_compare.py:28-29 | `added` and `removed` subscript the id sets (`curr_ids[i]`), which raises TypeError whenever either difference is non-empty, so the run fails before saving | store `[]`, crawl `[{"id": "/blogs/a"}]` | list the records of the new and vanished ids, `curr_map[i]` and `prev_map[i]` | not executed | SkildBlog.NewPostFails | SkildBlog.IntendedLists |
| daily_crawler.py:244-251 | team entries are read with `member.get('name')`, but `member_compare` returns bare name strings, so a joined or departed member raises AttributeError and no report is sent. The defect is latent in the shipped program: `crawl_all_companies` calls `runner(purpose)` (daily_crawler.py:37) while the Physical Intelligence `run()` takes no argument (company_crawler/physical_intelligence/main.py:8), so that company's result is always an error entry; the AttributeError fires once that call is fixed | a result whose team is `{"status": "updated", "added": ["Ada"], "removed": []}` | print each name | not executed | SlackReport.AdaJoinedExample | SlackReport.MemberChangePrints |
