/** Skild AI job postings: the record the crawler builds for each posting
    and `position_compare`. Unlike the DYNA copy it has no "checked"
    outcome, and it indexes `description_hash` directly when building an
    `updated` entry. */
module SkildPositions {
  import opened Wrappers
  import opened Ascii
  import opened Records
  import opened IdIndex
  import Slug

  const HashKey := "description_hash"

  /** The crawled record of one posting from the text of its title,
      location and description elements, each stripped of surrounding
      whitespace. `hash` stands for sha256 as hex. */
  function PositionRecord(hash: string -> string, rawTitle: string, rawLocation: string,
                          rawDescription: string): (r: Item)
    ensures r.Keys == PostingKeys
    ensures r[IdKey] == Str(Slug.NormalizeId(Strip(rawTitle) + "__" + Strip(rawLocation)))
    ensures r["title"] == Str(Strip(rawTitle)) && r["location"] == Str(Strip(rawLocation))
    ensures r["compensation"] == Str("")
    ensures r[HashKey] == Str(hash(Strip(rawDescription)))
    ensures r["description"] == Str(Strip(rawDescription))
  {
    Stripped(hash, Strip(rawTitle), Strip(rawLocation), Strip(rawDescription))
  }

  function Stripped(hash: string -> string, title: string, location: string, description: string): (r: Item)
    ensures r.Keys == PostingKeys
    ensures r[IdKey] == Str(Slug.NormalizeId(title + "__" + location))
    ensures r["title"] == Str(title) && r["location"] == Str(location)
    ensures r["compensation"] == Str("")
    ensures r[HashKey] == Str(hash(description))
    ensures r["description"] == Str(description)
  {
    PostingKeysDistinct();
    map key | key in PostingKeys ::
      if key == "id" then Str(Slug.NormalizeId(title + "__" + location))
      else if key == "title" then Str(title)
      else if key == "location" then Str(location)
      else if key == "compensation" then Str("")
      else if key == "description" then Str(description)
      else Str(hash(description))
  }

  /** A posting whose title and location hold no ASCII letter or digit gets
      the empty id; in particular empty title and location do. */
  lemma EmptyTitleAndLocation(hash: string -> string, description: string)
    ensures PositionRecord(hash, "", "", description)[IdKey] == Str("")
  {
    assert Strip("") == "";
    assert "" + "__" + "" == "__";
    Slug.NormalizeIdExampleEmpty();
  }

  /** One entry of `updated`. */
  datatype HashUpdate = HashUpdate(id: Value, title: Value, location: Value, beforeHash: Value, afterHash: Value)

  predicate HashChanged(before: Item, after: Item) {
    Get(before, HashKey) != Get(after, HashKey)
  }

  /** Building an entry reads `["title"]` and `["location"]` of the current
      record and `["description_hash"]` of both. */
  predicate CanDescribe(before: Item, after: Item) {
    "title" in after && "location" in after && HashKey in before && HashKey in after
  }

  function Describe(k: Value, before: Item, after: Item): HashUpdate
    requires CanDescribe(before, after)
  {
    HashUpdate(k, after["title"], after["location"], before[HashKey], after[HashKey])
  }

  function Classify(pm: map<Value, Item>, cm: map<Value, Item>): (r: Result<Changes<HashUpdate>, Error>)
    ensures r.Success? <==>
      forall k :: k in pm && k in cm && HashChanged(pm[k], cm[k]) ==> CanDescribe(pm[k], cm[k])
    ensures r.Failure? ==> r.error == KeyError
    ensures r.Success? ==>
      && r.value.added.Keys == cm.Keys - pm.Keys
      && (forall k :: k in r.value.added ==> r.value.added[k] == cm[k])
      && r.value.removed.Keys == pm.Keys - cm.Keys
      && (forall k :: k in r.value.removed ==> r.value.removed[k] == pm[k])
      && (forall k :: k in r.value.updated <==> k in pm && k in cm && HashChanged(pm[k], cm[k]))
      && (forall k :: k in r.value.updated ==> r.value.updated[k] == Describe(k, pm[k], cm[k]))
  {
    var added := Restrict(cm, cm.Keys - pm.Keys);
    var removed := Restrict(pm, pm.Keys - cm.Keys);
    var changed := set k | k in pm && k in cm && HashChanged(pm[k], cm[k]);
    if exists k :: k in changed && !CanDescribe(pm[k], cm[k]) then
      Failure(KeyError)
    else
      Success(Changes(added, removed, map k | k in changed :: Describe(k, pm[k], cm[k])))
  }

  predicate IsChanged(prev: seq<Item>, curr: seq<Item>, k: Value)
    requires HasIds(prev) && HasIds(curr)
  {
    k in Ids(prev) && k in Ids(curr) && HashChanged(Latest(prev, k), Latest(curr, k))
  }

  ghost predicate Succeeds(prev: seq<Item>, curr: seq<Item>) {
    && HasIds(prev) && HasIds(curr)
    && forall k :: IsChanged(prev, curr, k) ==> CanDescribe(Latest(prev, k), Latest(curr, k))
  }

  /** `position_compare(curr_items)` against the store contents `snap`: with
      a snapshot, every successful run saves and reports "updated". */
  function Compare(curr: seq<Item>, snap: Snapshot<Item>): (r: Result<Outcome<HashUpdate>, Error>)
    ensures snap.Absent? ==> r == Success(Outcome(Report(Initialized, Some(NoChanges())), Present(curr)))
    ensures !snap.Absent? ==> (r.Success? <==> Succeeds(LoadOrEmpty(snap), curr))
    ensures r.Failure? ==> r.error == KeyError
    ensures r.Success? ==> r.value.report.changes.Some? && r.value.snapshot == Present(curr)
    ensures r.Success? && !snap.Absent? ==> r.value.report.status == Updated
  {
    if snap.Absent? then
      Success(Outcome(Report(Initialized, Some(NoChanges())), Present(curr)))
    else
      var pm :- IndexById(LoadOrEmpty(snap));
      var cm :- IndexById(curr);
      var c :- Classify(pm, cm);
      Success(Outcome(Report(Updated, Some(c)), Present(curr)))
  }

  function ChangesOf(r: Result<Outcome<HashUpdate>, Error>): Changes<HashUpdate>
    requires r.Success? && r.value.report.changes.Some?
  {
    r.value.report.changes.value
  }

  /** `added` and `removed` are the id set differences, each id with its
      last record; `updated` lists exactly the common ids whose hash moved,
      with title and location of the current record and both hashes. */
  lemma Lists(curr: seq<Item>, snap: Snapshot<Item>)
    requires !snap.Absent?
    ensures var r := Compare(curr, snap);
      r.Success? ==>
        var prev := LoadOrEmpty(snap);
        var c := ChangesOf(r);
        && c.added.Keys == Ids(curr) - Ids(prev)
        && (forall k :: k in c.added ==> c.added[k] == Latest(curr, k))
        && c.removed.Keys == Ids(prev) - Ids(curr)
        && (forall k :: k in c.removed ==> c.removed[k] == Latest(prev, k))
        && (forall k :: k in c.updated <==> IsChanged(prev, curr, k))
        && (forall k :: k in c.updated ==>
              c.updated[k] == HashUpdate(k, Latest(curr, k)["title"], Latest(curr, k)["location"],
                                         Latest(prev, k)[HashKey], Latest(curr, k)[HashKey]))
  {
    var r := Compare(curr, snap);
    if r.Success? {
      assert ChangesOf(r) == Classify(Index(LoadOrEmpty(snap)), Index(curr)).value;
    }
  }

  /** A common id whose latest records carry a non-null `description_hash`
      on one side only makes the run fail with KeyError, so nothing is
      saved. (A null hash reads like a missing one and changes nothing.) */
  lemma OneSidedHashFails(curr: seq<Item>, snap: Snapshot<Item>, k: Value)
    requires !snap.Absent?
    requires HasIds(LoadOrEmpty(snap)) && HasIds(curr)
    requires k in Ids(LoadOrEmpty(snap)) && k in Ids(curr)
    requires (HashKey in Latest(LoadOrEmpty(snap), k)) != (HashKey in Latest(curr, k))
    requires Get(Latest(LoadOrEmpty(snap), k), HashKey) != Get(Latest(curr, k), HashKey)
    ensures Compare(curr, snap) == Failure(KeyError)
  {
    assert IsChanged(LoadOrEmpty(snap), curr, k);
  }

  /** No "checked" path: comparing a collection with a snapshot of itself
      still rewrites the store and reports "updated", with empty lists. */
  lemma SelfCompareIsUpdated(items: seq<Item>)
    requires HasIds(items)
    ensures Compare(items, Present(items))
         == Success(Outcome(Report(Updated, Some(NoChanges())), Present(items)))
  {
    var r := Compare(items, Present(items));
    assert r.Success?;
    Lists(items, Present(items));
    assert ChangesOf(r).added == map[];
    assert ChangesOf(r).removed == map[];
    assert ChangesOf(r).updated == map[];
  }

  /** A corrupt store reads as an empty list: every current id is added. */
  lemma CorruptActsAsEmpty(curr: seq<Item>)
    ensures Compare(curr, Corrupt) == Compare(curr, Present([]))
    ensures Compare(curr, Corrupt).Success? <==> HasIds(curr)
    ensures HasIds(curr) ==> ChangesOf(Compare(curr, Corrupt)).added.Keys == Ids(curr)
  {
    if HasIds(curr) {
      Lists(curr, Corrupt);
    }
  }
}
