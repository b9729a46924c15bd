/**
  The MongoDB collection the service is bound to, reduced to a map from
  document key (`_id`) to document, and the four driver calls the handlers
  make. Everything the driver could fail at is an explicit input.
 */
module Collection {
  import opened Wrappers
  import opened ObjectIds
  import opened Todos

  /** A document's `_id`: an object identifier, or some other value the service never produces itself. */
  datatype Key = Oid(oid: ObjectId) | OtherKey(raw: string)

  type Store = map<Key, Todo>

  /** How the collection answers one InsertOne call: it assigns the new document a key, or the write fails. */
  datatype InsertOracle = Assign(key: Key) | Fail

  /** The collection after an insert, and the InsertedID when the insert succeeded. */
  datatype Inserted = Inserted(store: Store, id: Option<Key>)

  /**
    Collection.InsertOne. A failed write, and a write whose assigned key is
    already taken (a duplicate-key error), store nothing.
   */
  function InsertOne(store: Store, doc: Todo, o: InsertOracle): (r: Inserted)
    ensures r.id.Some? <==> o.Assign? && o.key !in store
    ensures r.id.Some? ==> r.id.value == o.key && r.store.Keys == store.Keys + {o.key} && r.store[o.key] == doc
    ensures forall k :: k in store ==> k in r.store && r.store[k] == store[k]
    ensures r.id.None? ==> r.store == store
  {
    if o.Assign? && o.key !in store then Inserted(store[o.key := doc], Some(o.key)) else Inserted(store, None)
  }

  /** Collection.FindOne followed by Decode: nothing when the lookup fails or no document has the key. */
  function FindOne(store: Store, key: Key, fails: bool): (r: Option<Todo>)
    ensures r.Some? <==> !fails && key in store
    ensures r.Some? ==> r.value == store[key]
  {
    if fails || key !in store then None else Some(store[key])
  }

  /**
    Collection.ReplaceOne with an `_id` filter: the whole document is
    replaced; a filter that matches nothing changes nothing.
   */
  function ReplaceOne(store: Store, key: Key, doc: Todo, fails: bool): (r: Option<Store>)
    ensures r.Some? <==> !fails
    ensures r.Some? ==> r.value.Keys == store.Keys
    ensures r.Some? && key in store ==> r.value[key] == doc
    ensures r.Some? ==> forall k :: k in store && k != key ==> r.value[k] == store[k]
  {
    if fails then None else if key in store then Some(store[key := doc]) else Some(store)
  }

  /** An equality filter on the `complete` and `status` fields. */
  datatype Filter = Filter(complete: bool, status: string)

  predicate Matches(t: Todo, f: Filter) {
    t.complete == f.complete && t.status == f.status
  }

  /** The cursor's natural order lists every document of the collection once. */
  ghost predicate Enumerates(order: seq<Key>, store: Store) {
    && (forall k :: k in order <==> k in store)
    && Distinct(order)
  }

  predicate Distinct<T(==)>(s: seq<T>) {
    forall i, j :: 0 <= i < j < |s| ==> s[i] != s[j]
  }

  /** `s` is `t` with some elements left out, the rest in their original order. */
  predicate Subsequence<T(==)>(s: seq<T>, t: seq<T>)
    decreases |t|
  {
    if s == [] then true
    else if t == [] then false
    else if s[0] == t[0] then Subsequence(s[1..], t[1..])
    else Subsequence(s, t[1..])
  }

  /**
    Collection.Find: the keys of the matching documents, in the order the
    cursor visits the collection (`order`, the storage layer's choice).
   */
  function Find(store: Store, f: Filter, order: seq<Key>): (ks: seq<Key>)
    ensures |ks| <= |order|
    ensures Subsequence(ks, order)
    ensures forall j :: 0 <= j < |ks| ==> ks[j] in store && Matches(store[ks[j]], f) && ks[j] in order
    ensures forall k :: k in order && k in store && Matches(store[k], f) ==> k in ks
  {
    if order == [] then []
    else
      var rest := Find(store, f, order[1..]);
      if order[0] in store && Matches(store[order[0]], f) then [order[0]] + rest else rest
  }

  /** A cursor over distinct documents yields each of them at most once. */
  lemma {:induction false} FindDistinct(store: Store, f: Filter, order: seq<Key>)
    requires Distinct(order)
    ensures Distinct(Find(store, f, order))
  {
    if order != [] {
      var rest := Find(store, f, order[1..]);
      assert Distinct(order[1..]);
      FindDistinct(store, f, order[1..]);
      assert order[0] !in order[1..];
      assert forall j :: 0 <= j < |rest| ==> rest[j] in order[1..];
    }
  }

  /**
    The documents a cursor hands out before it breaks: `breaksAfter == Some(n)`
    means it reports an error in place of document n + 1 (or, when fewer are
    left, after the last one); `None` means it runs to the end.
   */
  function CursorYield(ks: seq<Key>, breaksAfter: Option<nat>): (ys: seq<Key>)
    ensures |ys| <= |ks| && ys == ks[..|ys|]
    ensures breaksAfter.None? ==> ys == ks
    ensures breaksAfter.Some? && breaksAfter.value < |ks| ==> |ys| == breaksAfter.value
    ensures breaksAfter.Some? && breaksAfter.value >= |ks| ==> ys == ks
  {
    match breaksAfter
    case None => ks
    case Some(n) => if n < |ks| then ks[..n] else ks
  }

  /**
    Decoding each document the cursor yields, in order. The first document
    that does not decode fails the whole read and nothing is returned.
   */
  function DecodeAll(store: Store, ks: seq<Key>, undecodable: set<Key>): (r: Option<seq<Todo>>)
    requires forall j :: 0 <= j < |ks| ==> ks[j] in store
    ensures r.Some? <==> forall j :: 0 <= j < |ks| ==> ks[j] !in undecodable
    ensures r.Some? ==> |r.value| == |ks| && forall j :: 0 <= j < |ks| ==> r.value[j] == store[ks[j]]
  {
    if ks == [] then Some([])
    else if ks[0] in undecodable then None
    else
      match DecodeAll(store, ks[1..], undecodable)
      case None => None
      case Some(ts) => Some([store[ks[0]]] + ts)
  }
}
