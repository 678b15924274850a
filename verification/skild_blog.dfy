/** Skild AI blog posts: `blog_compare`. It does not recover from an
    unreadable store and keys posts by their `"id"` (the post's path).

    As written, it builds the `added` and `removed` lists by subscripting
    the id sets (`curr_ids[i]`), which raises TypeError as soon as one of
    them is non-empty: a run with a new or a vanished post fails before it
    saves. `Compare` models that code; `CompareIntended` lists the new and
    vanished posts with their records, as the other compares do. */
module SkildBlog {
  import opened Wrappers
  import opened Records
  import opened IdIndex

  const ExcerptKey := "excerpt"

  /** One entry of `updated`: the id, the current title and url, and both
      excerpts. */
  datatype ExcerptUpdate = ExcerptUpdate(id: Value, title: Value, url: Value, before: Value, after: Value)

  /** `prev.get("excerpt") != curr.get("excerpt")` */
  predicate ExcerptChanged(before: Item, after: Item) {
    Get(before, ExcerptKey) != Get(after, ExcerptKey)
  }

  /** Building an entry reads `["title"]` and `["url"]` of the current
      post; the excerpts are read with the default `""`. */
  predicate CanDescribe(after: Item) {
    "title" in after && "url" in after
  }

  function Describe(k: Value, before: Item, after: Item): ExcerptUpdate
    requires CanDescribe(after)
  {
    ExcerptUpdate(k, after["title"], after["url"],
                  GetOr(before, ExcerptKey, Str("")), GetOr(after, ExcerptKey, Str("")))
  }

  /** The loop over the common ids: KeyError at the first changed post
      without a title or url. */
  function UpdatedOf(pm: map<Value, Item>, cm: map<Value, Item>): (r: Result<map<Value, ExcerptUpdate>, Error>)
    ensures r.Success? <==>
      forall k :: k in pm && k in cm && ExcerptChanged(pm[k], cm[k]) ==> CanDescribe(cm[k])
    ensures r.Failure? ==> r.error == KeyError
    ensures r.Success? ==>
      && (forall k :: k in r.value <==> k in pm && k in cm && ExcerptChanged(pm[k], cm[k]))
      && (forall k :: k in r.value ==> r.value[k] == Describe(k, pm[k], cm[k]))
  {
    var changed := set k | k in pm && k in cm && ExcerptChanged(pm[k], cm[k]);
    if exists k :: k in changed && !CanDescribe(cm[k]) then Failure(KeyError)
    else Success(map k | k in changed :: Describe(k, pm[k], cm[k]))
  }

  /** `blog_compare(curr_items)` as written, against the store contents
      `snap`. */
  function Compare(curr: seq<Item>, snap: Snapshot<Item>): (r: Result<Outcome<ExcerptUpdate>, Error>)
    ensures snap.Absent? ==>
      r == Success(Outcome(Report(Initialized, Some(NoChanges())), Present(curr)))
    ensures snap.Corrupt? ==> r == Failure(DecodeError)
    ensures snap.Present? && r.Failure? ==>
      r.error == (if HasIds(snap.items) && HasIds(curr) && Ids(snap.items) != Ids(curr) then TypeError else KeyError)
    ensures snap.Present? && r.Success? ==>
      && HasIds(snap.items) && HasIds(curr) && Ids(snap.items) == Ids(curr)
      && r.value.report.status == Updated
      && r.value.report.changes.Some?
      && r.value.report.changes.value.added == map[]
      && r.value.report.changes.value.removed == map[]
    ensures r.Success? ==> r.value.snapshot == Present(curr)
  {
    match snap
    case Absent => Success(Outcome(Report(Initialized, Some(NoChanges())), Present(curr)))
    case Corrupt => Failure(DecodeError)
    case Present(prev) =>
      var pm :- IndexById(prev);
      var cm :- IndexById(curr);
      if cm.Keys - pm.Keys != {} || pm.Keys - cm.Keys != {} then Failure(TypeError)
      else
        var u :- UpdatedOf(pm, cm);
        Success(Outcome(Report(Updated, Some(Changes(map[], map[], u))), Present(curr)))
  }

  /** The map-level comparison `blog_compare` evidently intends: `added`
      and `removed` list the records of the new and vanished ids. */
  function Classify(pm: map<Value, Item>, cm: map<Value, Item>): (r: Result<Changes<ExcerptUpdate>, Error>)
    ensures r.Success? <==>
      forall k :: k in pm && k in cm && ExcerptChanged(pm[k], cm[k]) ==> CanDescribe(cm[k])
    ensures r.Failure? ==> r.error == KeyError
    ensures r.Success? ==>
      && r.value.added.Keys == cm.Keys - pm.Keys
      && (forall k :: k in r.value.added ==> r.value.added[k] == cm[k])
      && r.value.removed.Keys == pm.Keys - cm.Keys
      && (forall k :: k in r.value.removed ==> r.value.removed[k] == pm[k])
      && (forall k :: k in r.value.updated <==> k in pm && k in cm && ExcerptChanged(pm[k], cm[k]))
      && (forall k :: k in r.value.updated ==> r.value.updated[k] == Describe(k, pm[k], cm[k]))
  {
    var u :- UpdatedOf(pm, cm);
    Success(Changes(Restrict(cm, cm.Keys - pm.Keys), Restrict(pm, pm.Keys - cm.Keys), u))
  }

  /** `blog_compare` with `added = [curr_map[i] for i in added_ids]` and
      `removed = [prev_map[i] for i in removed_ids]`. */
  function CompareIntended(curr: seq<Item>, snap: Snapshot<Item>): (r: Result<Outcome<ExcerptUpdate>, Error>)
    ensures snap.Absent? ==>
      r == Success(Outcome(Report(Initialized, Some(NoChanges())), Present(curr)))
    ensures snap.Corrupt? ==> r == Failure(DecodeError)
    ensures snap.Present? && r.Failure? ==> r.error == KeyError
    ensures snap.Present? && r.Success? ==>
      r.value.report.status == Updated && r.value.report.changes.Some?
    ensures r.Success? ==> r.value.snapshot == Present(curr)
  {
    match snap
    case Absent => Success(Outcome(Report(Initialized, Some(NoChanges())), Present(curr)))
    case Corrupt => Failure(DecodeError)
    case Present(prev) =>
      var pm :- IndexById(prev);
      var cm :- IndexById(curr);
      var c :- Classify(pm, cm);
      Success(Outcome(Report(Updated, Some(c)), Present(curr)))
  }

  function ChangesOf(r: Result<Outcome<ExcerptUpdate>, Error>): Changes<ExcerptUpdate>
    requires r.Success? && r.value.report.changes.Some?
  {
    r.value.report.changes.value
  }

  /** An id is listed as updated when its excerpt, read as Python reads a
      missing key, differs between its last stored and last current post. */
  predicate IsChanged(prev: seq<Item>, curr: seq<Item>, k: Value)
    requires HasIds(prev) && HasIds(curr)
  {
    k in Ids(prev) && k in Ids(curr) && ExcerptChanged(Latest(prev, k), Latest(curr, k))
  }

  ghost predicate Describable(prev: seq<Item>, curr: seq<Item>)
    requires HasIds(prev) && HasIds(curr)
  {
    forall k :: IsChanged(prev, curr, k) ==> CanDescribe(Latest(curr, k))
  }

  /** With a readable store, the corrected compare fails exactly when a post
      has no id or a changed post has no title or url; otherwise it lists
      the new ids, the vanished ids and the changed ids, each with its last
      record or its update entry. */
  lemma IntendedLists(curr: seq<Item>, prev: seq<Item>)
    ensures var r := CompareIntended(curr, Present(prev));
      r.Success? <==> HasIds(prev) && HasIds(curr) && Describable(prev, curr)
    ensures var r := CompareIntended(curr, Present(prev));
      r.Success? ==>
        var c := ChangesOf(r);
        && c.added.Keys == Ids(curr) - Ids(prev)
        && (forall k :: k in c.added ==> c.added[k] == Latest(curr, k))
        && c.removed.Keys == Ids(prev) - Ids(curr)
        && (forall k :: k in c.removed ==> c.removed[k] == Latest(prev, k))
        && (forall k :: k in c.updated <==> IsChanged(prev, curr, k))
        && (forall k :: k in c.updated ==> c.updated[k] == Describe(k, Latest(prev, k), Latest(curr, k)))
  {
    var r := CompareIntended(curr, Present(prev));
    if HasIds(prev) && HasIds(curr) {
      assert r.Success? ==> ChangesOf(r) == Classify(Index(prev), Index(curr)).value;
    }
  }

  /** The code as written succeeds on a readable store only when no post
      was added or removed; then it agrees with the corrected compare.
      Any difference in the id sets raises TypeError. */
  lemma AsWrittenLists(curr: seq<Item>, prev: seq<Item>)
    ensures var r := Compare(curr, Present(prev));
      r.Success? <==> HasIds(prev) && HasIds(curr) && Ids(prev) == Ids(curr) && Describable(prev, curr)
    ensures HasIds(prev) && HasIds(curr) && Ids(prev) != Ids(curr) ==>
      Compare(curr, Present(prev)) == Failure(TypeError)
    ensures HasIds(prev) && HasIds(curr) && Ids(prev) == Ids(curr) ==>
      Compare(curr, Present(prev)) == CompareIntended(curr, Present(prev))
  {
    if HasIds(prev) && HasIds(curr) {
      var pm, cm := Index(prev), Index(curr);
      if Ids(prev) == Ids(curr) {
        assert cm.Keys - pm.Keys == {} && pm.Keys - cm.Keys == {};
        var c := Classify(pm, cm);
        if c.Success? {
          assert c.value.added == map[];
          assert c.value.removed == map[];
        }
      } else {
        assert cm.Keys - pm.Keys != {} || pm.Keys - cm.Keys != {};
      }
    }
    IntendedLists(curr, prev);
  }

  /** The store's id is the post's path. */
  function Post(path: string): Item {
    map[IdKey := Str(path)]
  }

  /** The first post ever seen after the store was created empty: the code
      as written raises TypeError and keeps the empty store, while the
      corrected compare lists the post as added. */
  lemma NewPostFails()
    ensures Compare([Post("/blogs/a")], Present([])) == Failure(TypeError)
    ensures var r := CompareIntended([Post("/blogs/a")], Present([]));
      r.Success? && ChangesOf(r).added.Keys == {Str("/blogs/a")}
  {
    var curr := [Post("/blogs/a")];
    assert Ids(curr) == {Str("/blogs/a")} by {
      assert curr[0][IdKey] == Str("/blogs/a");
    }
    AsWrittenLists(curr, []);
    IntendedLists(curr, []);
  }

  /** Running the corrected compare again on the same crawl, against the
      store the first run left, reports nothing. */
  lemma RerunIsQuiet(curr: seq<Item>)
    requires HasIds(curr)
    ensures var first := CompareIntended(curr, Absent);
      CompareIntended(curr, first.value.snapshot)
        == Success(Outcome(Report(Updated, Some(NoChanges())), Present(curr)))
  {
    var m := Index(curr);
    var c := Classify(m, m);
    assert c.Success?;
    assert c.value.added == map[] && c.value.removed == map[] && c.value.updated == map[];
  }
}
