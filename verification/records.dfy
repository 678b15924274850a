/** The shapes shared by every compare: crawled records as JSON objects,
    the persisted snapshot as a value, the status word and the result
    record. File I/O is not modelled; a snapshot is the value the store
    would hand back, and a compare returns the snapshot the store would
    hold afterwards. */
module Records {
  import opened Wrappers

  /** The JSON scalars the compares read or write: strings and null. */
  datatype Value = Str(s: string) | Null

  /** One crawled or persisted record: a JSON object. */
  type Item = map<string, Value>

  /** `item.get(key)`: Python's `None` stands both for a missing key and
      for JSON null, so the two read alike. */
  function Get(item: Item, key: string): Value {
    GetOr(item, key, Null)
  }

  /** `item.get(key, default)` */
  function GetOr(item: Item, key: string, default: Value): Value {
    if key in item then item[key] else default
  }

  /** The Python exceptions a compare can raise. Raising one ends the call
      before `_save`, so the store keeps its previous contents. */
  datatype Error =
    | KeyError        // `d[k]` on a missing key
    | TypeError       // subscripting a set
    | AttributeError  // `None.encode(...)`
    | DecodeError     // `json.loads` on unreadable content

  /** The `status` field of a compare result. */
  datatype Status = Initialized | Checked | Updated

  /** What the store holds for one (source, category) pair: no file yet, a
      file that does not parse as a JSON list, or a list of entries. */
  datatype Snapshot<T> = Absent | Corrupt | Present(items: seq<T>)

  /** The `added`, `removed` and `updated` lists of a result, keyed by id.
      The source builds them by iterating Python sets, whose order is not
      specified, so the model keeps only which ids are listed and with
      what entry. */
  datatype Changes<U> = Changes(added: map<Value, Item>, removed: map<Value, Item>, updated: map<Value, U>)

  function NoChanges<U>(): Changes<U> {
    Changes(map[], map[], map[])
  }

  /** A result record: `changes` is `None` when the source returns only
      `{"status": ...}`. */
  datatype Report<U> = Report(status: Status, changes: Option<Changes<U>>)

  /** A successful compare: its result record and the new store contents. */
  datatype Outcome<U> = Outcome(report: Report<U>, snapshot: Snapshot<Item>)

  /** The previous items of the compares that recover from a corrupt store:
      `except Exception: prev_items = []`. */
  function LoadOrEmpty(snap: Snapshot<Item>): seq<Item> {
    match snap
    case Present(items) => items
    case _ => []
  }

  /** The keys of a job posting record. */
  const PostingKeys: set<string> := {"id", "title", "location", "compensation", "description", "description_hash"}

  /** The six keys of a job posting record are distinct. */
  lemma PostingKeysDistinct()
    ensures "id" != "title" && "id" != "location" && "id" != "compensation" && "id" != "description" && "id" != "description_hash"
    ensures "title" != "location" && "title" != "compensation" && "title" != "description" && "title" != "description_hash"
    ensures "location" != "compensation" && "location" != "description" && "location" != "description_hash"
    ensures "compensation" != "description" && "compensation" != "description_hash"
    ensures "description" != "description_hash"
  {
  }
}
