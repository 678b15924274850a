/** Physical Intelligence job postings: `position_compare`. It stamps every
    current record with the sha256 of its description before anything else,
    does not recover from an unreadable store, and always saves. */
module PiPositions {
  import opened Wrappers
  import opened Records
  import opened IdIndex
  import PercentEncoding
  import AshbyText

  const HashKey := "description_hash"

  /** `p.get("description", "")` */
  function Description(p: Item): Value {
    GetOr(p, "description", Str(""))
  }

  /** Hashing encodes the description, which only a string supports. */
  predicate HasTextDescription(p: Item) {
    Description(p).Str?
  }

  predicate DescriptionsAreText(items: seq<Item>) {
    forall i :: 0 <= i < |items| ==> HasTextDescription(items[i])
  }

  /** The record the crawler appends for a posting: the id derived from
      the title and the cleaned text of the description frame. */
  function PositionRecord(title: string, rawText: string): (r: Item)
    ensures r.Keys == {IdKey, "title", "description"}
    ensures r[IdKey] == Str(PercentEncoding.MakeJobId(title)) && r["title"] == Str(title)
    ensures Description(r) == Str(AshbyText.Clean(rawText))
  {
    map[IdKey := Str(PercentEncoding.MakeJobId(title)), "title" := Str(title),
        "description" := Str(AshbyText.Clean(rawText))]
  }

  /** Crawled records always carry an id and a text description, so
      stamping them cannot fail and the compare indexes them; their
      descriptions are already clean, so cleaning a saved description
      again changes nothing. */
  lemma CrawledRecords(hash: string -> string, postings: seq<(string, string)>)
    ensures var items := seq(|postings|, i requires 0 <= i < |postings| => PositionRecord(postings[i].0, postings[i].1));
      && DescriptionsAreText(items) && HasIds(items)
      && HashAll(hash, items).Success?
      && forall i :: 0 <= i < |items| ==> AshbyText.Clean(Description(items[i]).s) == Description(items[i]).s
  {
    var items := seq(|postings|, i requires 0 <= i < |postings| => PositionRecord(postings[i].0, postings[i].1));
    forall i | 0 <= i < |items| ensures AshbyText.Clean(Description(items[i]).s) == Description(items[i]).s {
      AshbyText.CleanIdempotent(postings[i].1);
    }
  }

  /** The record after `pos["description_hash"] = _hash_text(...)`; `hash`
      stands for sha256 as hex. */
  function Hashed(hash: string -> string, p: Item): (r: Item)
    requires HasTextDescription(p)
    ensures r.Keys == p.Keys + {HashKey}
    ensures r[HashKey] == Str(hash(Description(p).s))
    ensures forall key :: key in p && key != HashKey ==> r[key] == p[key]
    ensures Description(r) == Description(p)
  {
    p[HashKey := Str(hash(Description(p).s))]
  }

  /** The stamping loop over the current records: it raises
      AttributeError at the first description that is not a string. */
  function HashAll(hash: string -> string, items: seq<Item>): (r: Result<seq<Item>, Error>)
    ensures r.Success? <==> DescriptionsAreText(items)
    ensures r.Failure? ==> r.error == AttributeError
    ensures r.Success? ==>
      && |r.value| == |items|
      && forall i :: 0 <= i < |items| ==> r.value[i] == Hashed(hash, items[i])
    decreases |items|
  {
    if items == [] then Success([])
    else if !HasTextDescription(items[0]) then Failure(AttributeError)
    else
      var rest :- HashAll(hash, items[1..]);
      Success([Hashed(hash, items[0])] + rest)
  }

  /** One entry of `updated`: the id, the current title and both
      descriptions. */
  datatype TextUpdate = TextUpdate(id: Value, title: Value, before: Value, after: Value)

  predicate HashChanged(before: Item, after: Item) {
    Get(before, HashKey) != Get(after, HashKey)
  }

  /** Building an entry reads `["title"]` of the current record. */
  predicate CanDescribe(after: Item) {
    "title" in after
  }

  function Describe(k: Value, before: Item, after: Item): TextUpdate
    requires CanDescribe(after)
  {
    TextUpdate(k, after["title"], Description(before), Description(after))
  }

  function Classify(pm: map<Value, Item>, cm: map<Value, Item>): (r: Result<Changes<TextUpdate>, Error>)
    ensures r.Success? <==>
      forall k :: k in pm && k in cm && HashChanged(pm[k], cm[k]) ==> CanDescribe(cm[k])
    ensures r.Failure? ==> r.error == KeyError
    ensures r.Success? ==>
      && r.value.added.Keys == cm.Keys - pm.Keys
      && (forall k :: k in r.value.added ==> r.value.added[k] == cm[k])
      && r.value.removed.Keys == pm.Keys - cm.Keys
      && (forall k :: k in r.value.removed ==> r.value.removed[k] == pm[k])
      && (forall k :: k in r.value.updated <==> k in pm && k in cm && HashChanged(pm[k], cm[k]))
      && (forall k :: k in r.value.updated ==> r.value.updated[k] == Describe(k, pm[k], cm[k]))
  {
    var added := Restrict(cm, cm.Keys - pm.Keys);
    var removed := Restrict(pm, pm.Keys - cm.Keys);
    var changed := set k | k in pm && k in cm && HashChanged(pm[k], cm[k]);
    if exists k :: k in changed && !CanDescribe(cm[k]) then
      Failure(KeyError)
    else
      Success(Changes(added, removed, map k | k in changed :: Describe(k, pm[k], cm[k])))
  }

  /** `position_compare(curr_positions)` against the store contents `snap`.
      The snapshot it leaves behind is the stamped current list. */
  function Compare(hash: string -> string, curr: seq<Item>, snap: Snapshot<Item>): (r: Result<Outcome<TextUpdate>, Error>)
    ensures !DescriptionsAreText(curr) ==> r == Failure(AttributeError)
    ensures DescriptionsAreText(curr) && snap.Absent? ==>
      r.Success? && r.value.report == Report(Initialized, Some(NoChanges()))
    ensures DescriptionsAreText(curr) && snap.Corrupt? ==> r == Failure(DecodeError)
    ensures snap.Present? && r.Failure? && DescriptionsAreText(curr) ==> r.error == KeyError
    ensures snap.Present? && r.Success? ==> r.value.report.status == Updated
    ensures r.Success? ==>
      && r.value.report.changes.Some?
      && r.value.snapshot.Present?
      && |r.value.snapshot.items| == |curr|
      && forall i :: 0 <= i < |curr| ==> r.value.snapshot.items[i] == Hashed(hash, curr[i])
  {
    var h :- HashAll(hash, curr);
    if snap.Absent? then
      Success(Outcome(Report(Initialized, Some(NoChanges())), Present(h)))
    else if snap.Corrupt? then
      Failure(DecodeError)
    else
      var pm :- IndexById(snap.items);
      var cm :- IndexById(h);
      var c :- Classify(pm, cm);
      Success(Outcome(Report(Updated, Some(c)), Present(h)))
  }

  function ChangesOf(r: Result<Outcome<TextUpdate>, Error>): Changes<TextUpdate>
    requires r.Success? && r.value.report.changes.Some?
  {
    r.value.report.changes.value
  }

  /** Stamping keeps every id where it was, so it keeps the ids and the
      record each id resolves to, stamped. */
  lemma HashedIndex(hash: string -> string, items: seq<Item>)
    requires DescriptionsAreText(items) && HasIds(items)
    ensures HasIds(HashAll(hash, items).value)
    ensures Ids(HashAll(hash, items).value) == Ids(items)
    ensures forall k :: k in Ids(items) ==>
      Latest(HashAll(hash, items).value, k) == Hashed(hash, Latest(items, k))
  {
    var h := HashAll(hash, items).value;
    assert forall i :: 0 <= i < |h| ==> h[i][IdKey] == items[i][IdKey];
    assert Ids(h) == Ids(items) by {
      forall k | k in Ids(items) ensures k in Ids(h) {
        var i :| 0 <= i < |items| && items[i][IdKey] == k;
        assert h[i][IdKey] == k;
      }
    }
    forall k | k in Ids(items) ensures Latest(h, k) == Hashed(hash, Latest(items, k)) {
      assert LastPos(h, k) == LastPos(items, k);
    }
  }

  /** The current record kept for id `k`, stamped. */
  function Stamped(hash: string -> string, curr: seq<Item>, k: Value): Item
    requires DescriptionsAreText(curr) && HasIds(curr) && k in Ids(curr)
  {
    Hashed(hash, Latest(curr, k))
  }

  /** An id is listed as updated when the stored hash of its previous
      record, or its absence, differs from the hash of its current
      description. */
  predicate IsChanged(hash: string -> string, prev: seq<Item>, curr: seq<Item>, k: Value)
    requires HasIds(prev) && DescriptionsAreText(curr) && HasIds(curr)
  {
    && k in Ids(prev) && k in Ids(curr)
    && Get(Latest(prev, k), HashKey) != Str(hash(Description(Latest(curr, k)).s))
  }

  ghost predicate Succeeds(hash: string -> string, prev: seq<Item>, curr: seq<Item>)
    requires DescriptionsAreText(curr)
  {
    && HasIds(prev) && HasIds(curr)
    && forall k :: IsChanged(hash, prev, curr, k) ==> "title" in Latest(curr, k)
  }

  /** With a readable store, the run fails exactly when a record has no id
      or a changed posting has no title; otherwise `added` and `removed` are
      the id set differences, each id with its last record (stamped when
      current), and `updated` lists exactly the changed ids with the
      current title and both descriptions. */
  lemma Lists(hash: string -> string, curr: seq<Item>, prev: seq<Item>)
    requires DescriptionsAreText(curr)
    ensures Compare(hash, curr, Present(prev)).Success? <==> Succeeds(hash, prev, curr)
    ensures var r := Compare(hash, curr, Present(prev));
      r.Success? ==>
        var c := ChangesOf(r);
        && c.added.Keys == Ids(curr) - Ids(prev)
        && (forall k :: k in c.added ==> c.added[k] == Stamped(hash, curr, k))
        && c.removed.Keys == Ids(prev) - Ids(curr)
        && (forall k :: k in c.removed ==> c.removed[k] == Latest(prev, k))
        && (forall k :: k in c.updated <==> IsChanged(hash, prev, curr, k))
        && (forall k :: k in c.updated ==>
              c.updated[k] == TextUpdate(k, Latest(curr, k)["title"],
                                         Description(Latest(prev, k)), Description(Latest(curr, k))))
  {
    var h := HashAll(hash, curr).value;
    StampedIds(hash, curr);
    if HasIds(prev) && HasIds(curr) {
      HashedIndex(hash, curr);
      var pm, cm := Index(prev), Index(h);
      var c := Classify(pm, cm);
      assert Compare(hash, curr, Present(prev))
          == if c.Success? then Success(Outcome(Report(Updated, Some(c.value)), Present(h))) else Failure(c.error);
      forall k | k in pm && k in cm
        ensures HashChanged(pm[k], cm[k]) <==> IsChanged(hash, prev, curr, k)
        ensures CanDescribe(cm[k]) <==> "title" in Latest(curr, k)
      {
      }
    }
  }

  /** Stamping neither adds nor removes an id. */
  lemma StampedIds(hash: string -> string, items: seq<Item>)
    requires DescriptionsAreText(items)
    ensures HasIds(HashAll(hash, items).value) <==> HasIds(items)
  {
    var h := HashAll(hash, items).value;
    assert forall i :: 0 <= i < |h| ==> h[i].Keys == items[i].Keys + {HashKey};
  }

  /** A previous record saved without `description_hash` is always listed
      as updated, whatever its description. */
  lemma MissingHashIsUpdated(hash: string -> string, curr: seq<Item>, prev: seq<Item>, k: Value)
    requires DescriptionsAreText(curr) && HasIds(prev) && HasIds(curr)
    requires k in Ids(prev) && k in Ids(curr) && HashKey !in Latest(prev, k)
    ensures IsChanged(hash, prev, curr, k)
  {
  }

  ghost predicate Injective(hash: string -> string) {
    forall a, b :: hash(a) == hash(b) ==> a == b
  }

  /** A record as this compare saves it: its hash is that of its
      description. */
  predicate Consistent(hash: string -> string, p: Item) {
    HasTextDescription(p) && Get(p, HashKey) == Str(hash(Description(p).s))
  }

  /** For a previous record as this compare saved it and a collision-free
      hash, an id is updated exactly when its description changed. */
  lemma UpdatedIffDescriptionChanged(hash: string -> string, curr: seq<Item>, prev: seq<Item>, k: Value)
    requires Injective(hash)
    requires DescriptionsAreText(curr) && HasIds(prev) && HasIds(curr)
    requires k in Ids(prev) && k in Ids(curr) && Consistent(hash, Latest(prev, k))
    ensures IsChanged(hash, prev, curr, k) <==> Description(Latest(prev, k)) != Description(Latest(curr, k))
  {
  }

  /** Without any assumption on the hash: a posting whose description did
      not change since this compare saved it is never listed as updated. */
  lemma SameDescriptionNotUpdated(hash: string -> string, curr: seq<Item>, prev: seq<Item>, k: Value)
    requires DescriptionsAreText(curr) && HasIds(prev) && HasIds(curr)
    requires k in Ids(prev) && k in Ids(curr) && Consistent(hash, Latest(prev, k))
    requires Description(Latest(prev, k)) == Description(Latest(curr, k))
    ensures !IsChanged(hash, prev, curr, k)
  {
  }

  /** Running again on the same crawl, against the store the first run
      left, reports no added, removed or updated posting. */
  lemma RerunIsQuiet(hash: string -> string, curr: seq<Item>)
    requires DescriptionsAreText(curr) && HasIds(curr)
    ensures var first := Compare(hash, curr, Absent);
      && first.Success?
      && Compare(hash, curr, first.value.snapshot)
         == Success(Outcome(Report(Updated, Some(NoChanges())), first.value.snapshot))
  {
    var h := HashAll(hash, curr).value;
    HashedIndex(hash, curr);
    var c := Classify(Index(h), Index(h));
    assert c.Success?;
    assert c.value.added == map[] && c.value.removed == map[] && c.value.updated == map[];
  }
}
