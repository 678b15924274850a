/** DYNA job postings: the record the crawler builds for each posting and
    `position_compare`, the only compare with a "checked" outcome and the
    only one that leaves the store untouched when nothing changed. */
module DynaPositions {
  import opened Wrappers
  import opened Records
  import opened IdIndex
  import Slug

  const HashKey := "description_hash"

  /** The crawled record of one posting. `hash` stands for sha256 as hex. */
  function PositionRecord(hash: string -> string, title: string, location: string,
                          compensation: string, description: string): (r: Item)
    ensures r.Keys == PostingKeys
    ensures r[IdKey] == Str(Slug.NormalizeId(title + "__" + location))
    ensures r["title"] == Str(title) && r["location"] == Str(location)
    ensures r["compensation"] == Str(compensation) && r["description"] == Str(description)
    ensures r[HashKey] == Str(hash(description))
  {
    PostingKeysDistinct();
    map key | key in PostingKeys ::
      if key == "id" then Str(Slug.NormalizeId(title + "__" + location))
      else if key == "title" then Str(title)
      else if key == "location" then Str(location)
      else if key == "compensation" then Str(compensation)
      else if key == "description" then Str(description)
      else Str(hash(description))
  }

  /** The id depends on title and location only, and the hash on the
      description only: a re-worded description keeps the id and moves the
      hash, a new compensation moves neither. */
  lemma RecordIdentity(hash: string -> string, title: string, location: string,
                       comp1: string, desc1: string, comp2: string, desc2: string)
    ensures PositionRecord(hash, title, location, comp1, desc1)[IdKey]
         == PositionRecord(hash, title, location, comp2, desc2)[IdKey]
    ensures desc1 == desc2 ==>
              (PositionRecord(hash, title, location, comp1, desc1)[HashKey]
               == PositionRecord(hash, title, location, comp2, desc2)[HashKey])
  {
  }

  /** Distinct (title, location) pairs can share an id: the `"__"`
      separator is itself collapsed into a hyphen. */
  lemma IdsCollide(hash: string -> string)
    ensures PositionRecord(hash, "a b", "", "", "")[IdKey] == Str("a-b")
    ensures PositionRecord(hash, "a", "b", "", "")[IdKey] == Str("a-b")
  {
    Slug.SeparatorCollapses('a', 'b');
    assert ['a', ' ', 'b'] == "a b" && ['a'] == "a" && ['b'] == "b";
  }

  /** One entry of `updated`. */
  datatype PositionUpdate = PositionUpdate(
    id: Value, title: Value, location: Value, compensation: Value,
    beforeHash: Value, afterHash: Value)

  /** `.get("description_hash")` differs; a hash missing on both sides is
      `None == None`, so not a change. */
  predicate HashChanged(before: Item, after: Item) {
    Get(before, HashKey) != Get(after, HashKey)
  }

  /** Building an `updated` entry reads `["title"]` and `["location"]`. */
  predicate CanDescribe(after: Item) {
    "title" in after && "location" in after
  }

  function Describe(k: Value, before: Item, after: Item): PositionUpdate
    requires CanDescribe(after)
  {
    PositionUpdate(k, after["title"], after["location"],
                   GetOr(after, "compensation", Str("")),
                   GetOr(before, HashKey, Str("")),
                   GetOr(after, HashKey, Str("")))
  }

  /** The diff of two id-keyed collections: KeyError when a changed
      posting cannot be described, otherwise the three lists. */
  function Classify(pm: map<Value, Item>, cm: map<Value, Item>): (r: Result<Changes<PositionUpdate>, Error>)
    ensures r.Success? <==> forall k :: k in pm && k in cm && HashChanged(pm[k], cm[k]) ==> CanDescribe(cm[k])
    ensures r.Failure? ==> r.error == KeyError
    ensures r.Success? ==>
      && r.value.added.Keys == cm.Keys - pm.Keys
      && (forall k :: k in r.value.added ==> r.value.added[k] == cm[k])
      && r.value.removed.Keys == pm.Keys - cm.Keys
      && (forall k :: k in r.value.removed ==> r.value.removed[k] == pm[k])
      && (forall k :: k in r.value.updated <==> k in pm && k in cm && HashChanged(pm[k], cm[k]))
      && (forall k :: k in r.value.updated ==> r.value.updated[k] == Describe(k, pm[k], cm[k]))
  {
    var added := Restrict(cm, cm.Keys - pm.Keys);
    var removed := Restrict(pm, pm.Keys - cm.Keys);
    var changed := set k | k in pm && k in cm && HashChanged(pm[k], cm[k]);
    if exists k :: k in changed && !CanDescribe(cm[k]) then
      Failure(KeyError)
    else
      Success(Changes(added, removed, map k | k in changed :: Describe(k, pm[k], cm[k])))
  }

  /** An id kept in both collections whose latest records differ in hash. */
  predicate IsChanged(prev: seq<Item>, curr: seq<Item>, k: Value)
    requires HasIds(prev) && HasIds(curr)
  {
    k in Ids(prev) && k in Ids(curr) && HashChanged(Latest(prev, k), Latest(curr, k))
  }

  /** The compare succeeds exactly when every record carries an id and every
      changed posting has a title and a location. */
  ghost predicate Succeeds(prev: seq<Item>, curr: seq<Item>) {
    && HasIds(prev) && HasIds(curr)
    && forall k :: IsChanged(prev, curr, k) ==> CanDescribe(Latest(curr, k))
  }

  /** `position_compare(curr_items)` against the store contents `snap`. */
  function Compare(curr: seq<Item>, snap: Snapshot<Item>): (r: Result<Outcome<PositionUpdate>, Error>)
    ensures snap.Absent? ==> r == Success(Outcome(Report(Initialized, Some(NoChanges())), Present(curr)))
    ensures !snap.Absent? ==> (r.Success? <==> Succeeds(LoadOrEmpty(snap), curr))
    ensures r.Failure? ==> r.error == KeyError
    ensures r.Success? && r.value.report.status == Checked ==>
              r.value.report.changes.None? && r.value.snapshot == snap
    ensures r.Success? && r.value.report.status != Checked ==>
              r.value.report.changes.Some? && r.value.snapshot == Present(curr)
  {
    if snap.Absent? then
      Success(Outcome(Report(Initialized, Some(NoChanges())), Present(curr)))
    else
      var pm :- IndexById(LoadOrEmpty(snap));
      var cm :- IndexById(curr);
      var c :- Classify(pm, cm);
      if c == NoChanges() then
        Success(Outcome(Report(Checked, None), snap))
      else
        Success(Outcome(Report(Updated, Some(c)), Present(curr)))
  }

  /** The lists of a successful run that has them. */
  function ChangesOf(r: Result<Outcome<PositionUpdate>, Error>): Changes<PositionUpdate>
    requires r.Success? && r.value.report.changes.Some?
  {
    r.value.report.changes.value
  }

  /** With a previous snapshot, `added` holds exactly the ids only the
      current collection has, each with its last current record, and
      `removed` the ids only the previous one has, each with its last
      previous record. */
  lemma AddedAndRemoved(curr: seq<Item>, snap: Snapshot<Item>)
    requires !snap.Absent?
    ensures var r := Compare(curr, snap);
      r.Success? && r.value.report.changes.Some? ==>
        var prev := LoadOrEmpty(snap);
        var c := ChangesOf(r);
        && c.added.Keys == Ids(curr) - Ids(prev)
        && (forall k :: k in c.added ==> c.added[k] == Latest(curr, k))
        && c.removed.Keys == Ids(prev) - Ids(curr)
        && (forall k :: k in c.removed ==> c.removed[k] == Latest(prev, k))
  {
    var r := Compare(curr, snap);
    if r.Success? && r.value.report.changes.Some? {
      assert ChangesOf(r) == Classify(Index(LoadOrEmpty(snap)), Index(curr)).value;
    }
  }

  /** `updated` lists exactly the ids of both collections whose latest
      records differ in `description_hash`. */
  lemma UpdatedIds(curr: seq<Item>, snap: Snapshot<Item>)
    requires !snap.Absent?
    ensures var r := Compare(curr, snap);
      r.Success? && r.value.report.changes.Some? ==>
        forall k :: k in ChangesOf(r).updated <==> IsChanged(LoadOrEmpty(snap), curr, k)
  {
    var r := Compare(curr, snap);
    if r.Success? && r.value.report.changes.Some? {
      assert ChangesOf(r) == Classify(Index(LoadOrEmpty(snap)), Index(curr)).value;
    }
  }

  /** No id is in two of `added`, `removed` and `updated`. */
  lemma Disjoint(curr: seq<Item>, snap: Snapshot<Item>)
    requires !snap.Absent?
    ensures var r := Compare(curr, snap);
      r.Success? && r.value.report.changes.Some? ==>
        var c := ChangesOf(r);
        && c.added.Keys !! c.removed.Keys
        && c.added.Keys !! c.updated.Keys
        && c.removed.Keys !! c.updated.Keys
  {
    AddedAndRemoved(curr, snap);
    UpdatedIds(curr, snap);
  }

  /** Each `updated` entry takes title, location and compensation (default
      "") from the current record, `before_hash` from the previous record
      and `after_hash` from the current one, each defaulting to "". */
  lemma UpdatedEntries(curr: seq<Item>, snap: Snapshot<Item>, k: Value)
    requires !snap.Absent?
    ensures var r := Compare(curr, snap);
      r.Success? && r.value.report.changes.Some? && k in r.value.report.changes.value.updated ==>
        var prev := LoadOrEmpty(snap);
        var before := Latest(prev, k);
        var after := Latest(curr, k);
        r.value.report.changes.value.updated[k] ==
          PositionUpdate(k, after["title"], after["location"],
                         GetOr(after, "compensation", Str("")),
                         GetOr(before, HashKey, Str("")),
                         GetOr(after, HashKey, Str("")))
  {
    var r := Compare(curr, snap);
    if r.Success? && r.value.report.changes.Some? {
      assert ChangesOf(r) == Classify(Index(LoadOrEmpty(snap)), Index(curr)).value;
    }
  }

  /** "checked" exactly when the id sets agree and no hash moved; any other
      successful run with a snapshot reports "updated". */
  lemma StatusRule(curr: seq<Item>, snap: Snapshot<Item>)
    requires !snap.Absent?
    ensures var r := Compare(curr, snap);
      r.Success? ==>
        var prev := LoadOrEmpty(snap);
        && r.value.report.status != Initialized
        && (r.value.report.status == Checked <==>
              Ids(curr) == Ids(prev) && forall k :: !IsChanged(prev, curr, k))
  {
    var r := Compare(curr, snap);
    if r.Success? && r.value.report.status == Updated {
      UpdatedHasChange(curr, snap);
    }
  }

  /** An `updated` status comes with a new, a vanished or a changed id. */
  lemma UpdatedHasChange(curr: seq<Item>, snap: Snapshot<Item>)
    requires !snap.Absent?
    requires Compare(curr, snap).Success? && Compare(curr, snap).value.report.status == Updated
    ensures var prev := LoadOrEmpty(snap);
      Ids(curr) != Ids(prev) || exists k :: IsChanged(prev, curr, k)
  {
    var prev := LoadOrEmpty(snap);
    var c := Compare(curr, snap).value.report.changes.value;
    AddedAndRemoved(curr, snap);
    UpdatedIds(curr, snap);
    if c.added != map[] {
      var k :| k in c.added;
      assert k in Ids(curr) - Ids(prev);
    } else if c.removed != map[] {
      var k :| k in c.removed;
      assert k in Ids(prev) - Ids(curr);
    } else {
      var k :| k in c.updated;
      assert IsChanged(prev, curr, k);
    }
  }

  /** A collection compared against a snapshot of itself is "checked" and
      the store is not rewritten. */
  lemma SelfCompareIsChecked(items: seq<Item>)
    requires HasIds(items)
    ensures Compare(items, Present(items)) == Success(Outcome(Report(Checked, None), Present(items)))
  {
  }

  /** A corrupt store reads as an empty list: the result is the one an empty
      snapshot gives, so every current id is added. */
  lemma CorruptActsAsEmpty(curr: seq<Item>)
    ensures Compare(curr, Corrupt).Success? <==> HasIds(curr)
    ensures Compare(curr, Corrupt).Success? ==>
      Compare(curr, Corrupt).value.report == Compare(curr, Present([])).value.report
    ensures HasIds(curr) && |curr| > 0 ==>
      var r := Compare(curr, Corrupt).value;
      && r.report.status == Updated
      && r.report.changes.value.added.Keys == Ids(curr)
      && r.report.changes.value.removed == map[]
      && r.report.changes.value.updated == map[]
      && r.snapshot == Present(curr)
  {
    if HasIds(curr) && |curr| > 0 {
      assert curr[0][IdKey] in Ids(curr);
    }
  }
}
