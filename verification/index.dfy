/** Keying a collection by id, as every compare does with
    `{p["id"]: p for p in items}`: a record without an `"id"` raises
    KeyError, and when several records share an id the last one wins. */
module IdIndex {
  import opened Wrappers
  import opened Records

  const IdKey := "id"

  predicate HasIds(items: seq<Item>) {
    forall i :: 0 <= i < |items| ==> IdKey in items[i]
  }

  /** `set(p["id"] for p in items)` */
  function Ids(items: seq<Item>): set<Value>
    requires HasIds(items)
  {
    set i | 0 <= i < |items| :: items[i][IdKey]
  }

  lemma IdsOfPrefix(items: seq<Item>, k: Value)
    requires HasIds(items) && |items| > 0
    requires k in Ids(items) && items[|items| - 1][IdKey] != k
    ensures HasIds(items[..|items| - 1]) && k in Ids(items[..|items| - 1])
  {
    var i :| 0 <= i < |items| && items[i][IdKey] == k;
    assert items[..|items| - 1][i] == items[i];
  }

  /** Position of the last record carrying id `k`. */
  function LastPos(items: seq<Item>, k: Value): (p: nat)
    requires HasIds(items) && k in Ids(items)
    ensures p < |items| && items[p][IdKey] == k
    ensures forall j :: p < j < |items| ==> items[j][IdKey] != k
    decreases |items|
  {
    var n := |items| - 1;
    if items[n][IdKey] == k then n
    else
      IdsOfPrefix(items, k);
      LastPos(items[..n], k)
  }

  /** The record a dict comprehension keeps for id `k`. */
  function Latest(items: seq<Item>, k: Value): Item
    requires HasIds(items) && k in Ids(items)
  {
    items[LastPos(items, k)]
  }

  /** `{p["id"]: p for p in items}` on records that all carry an id: the
      keys are exactly the ids, and each id maps to its last record. */
  function Index(items: seq<Item>): (m: map<Value, Item>)
    requires HasIds(items)
    ensures m.Keys == Ids(items)
    ensures forall k :: k in m ==> m[k] == Latest(items, k)
    decreases |items|
  {
    if |items| == 0 then map[]
    else
      var n := |items| - 1;
      var front := items[..n];
      assert HasIds(front);
      var m := Index(front)[items[n][IdKey] := items[n]];
      assert Ids(items) == Ids(front) + {items[n][IdKey]} by {
        forall k | k in Ids(items) ensures k in Ids(front) + {items[n][IdKey]} {
          var i :| 0 <= i < |items| && items[i][IdKey] == k;
          if i < n { assert front[i] == items[i]; }
        }
        forall k | k in Ids(front) ensures k in Ids(items) {
          var i :| 0 <= i < |front| && front[i][IdKey] == k;
          assert items[i] == front[i];
        }
      }
      m
  }

  /** The dict comprehension with its failure: KeyError as soon as a record
      has no `"id"`. */
  function IndexById(items: seq<Item>): (r: Result<map<Value, Item>, Error>)
    ensures r.Success? <==> HasIds(items)
    ensures r.Failure? ==> r.error == KeyError
    ensures r.Success? ==> r.value.Keys == Ids(items)
  {
    if HasIds(items) then Success(Index(items)) else Failure(KeyError)
  }

  /** The entries of `m` whose key is in `keys`. */
  function Restrict(m: map<Value, Item>, keys: set<Value>): (r: map<Value, Item>)
    ensures r.Keys == m.Keys * keys
    ensures forall k :: k in r ==> r[k] == m[k]
  {
    map k | k in keys && k in m :: m[k]
  }

  /** Last-write-wins, stated without positions of the index: the record
      kept for an id is the one after which no record carries that id. */
  lemma LastRecordWins(items: seq<Item>, j: nat)
    requires HasIds(items) && j < |items|
    requires forall q :: j < q < |items| ==> items[q][IdKey] != items[j][IdKey]
    ensures items[j][IdKey] in Index(items)
    ensures Index(items)[items[j][IdKey]] == items[j]
  {
    var k := items[j][IdKey];
    assert k in Ids(items);
    var p := LastPos(items, k);
    assert p == j;
  }
}
