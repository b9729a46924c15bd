/**
  The four request handlers of the todo service, each a pure function from
  (collection, request, storage behaviour) to (collection afterwards, result).
 */
module TodoServer {
  import opened Wrappers
  import opened Status
  import opened ObjectIds
  import opened Todos
  import opened Collection

  /** The collection after a call, and what the caller receives. */
  datatype Reply<+T> = Reply(store: Store, result: Result<T>)

  datatype ListRequest = ListRequest(notCompleted: bool)

  /** The nested todo message may be absent from a delete request. */
  datatype DeleteRequest = DeleteRequest(todo: Option<Todo>)

  /**
    How the collection behaves during one ListTodo: whether the query fails,
    the cursor's natural order over the whole collection, which documents fail
    to decode, and whether the cursor breaks part-way (`breaksAfter`, see
    CursorYield).
   */
  datatype FindOracle = FindOracle(queryFails: bool, order: seq<Key>, undecodable: set<Key>, breaksAfter: Option<nat>)

  /** How the collection behaves during one DeleteTodo: the lookup and the replace may each fail. */
  datatype DeleteOracle = DeleteOracle(lookupFails: bool, replaceFails: bool)

  // ---------------------------------------------------------------- CreateTodo

  /**
    CreateTodo: inserts a new NORMAL, not-complete todo built from the request's
    title, description and deadline, and answers with the hex form of its key.
    A failed insert, and an insert whose key is not an object identifier,
    answer Internal; in the second case the document has been stored anyway.
   */
  function CreateTodo(store: Store, todo: Todo, ins: InsertOracle): (r: Reply<string>)
    ensures r.result.Ok? <==> ins.Assign? && ins.key.Oid? && ins.key !in store
    ensures r.result.Err? ==> r.result.code == Internal
    ensures r.result.Ok? ==> IsHexId(r.result.value) && FromHex(r.result.value) == Some(ins.key.oid)
    ensures r.result.Ok? ==> r.result.value == Hex(ins.key.oid)
    ensures ins.Assign? && ins.key !in store ==>
      && r.store.Keys == store.Keys + {ins.key}
      && |r.store| == |store| + 1
      && r.store[ins.key].title == todo.title
      && r.store[ins.key].description == todo.description
      && r.store[ins.key].deadline == todo.deadline
      && !r.store[ins.key].complete
      && r.store[ins.key].status == NORMAL
      && r.store[ins.key].id == ""
    ensures forall k :: k in store ==> k in r.store && r.store[k] == store[k]
    ensures !(ins.Assign? && ins.key !in store) ==> r.store == store
  {
    var res := InsertOne(store, NewRecord(todo), ins);
    if res.id.None? then Reply(res.store, Err(Internal))
    else if !res.id.value.Oid? then Reply(res.store, Err(Internal))
    else
      HexRoundTrip(res.id.value.oid);
      Reply(res.store, Ok(Hex(res.id.value.oid)))
  }

  // --------------------------------------------------------------- CreateTodos

  /**
    CreateTodos: inserts one document per request element, in order, each
    through the same steps as CreateTodo except that the status is left unset.
    `ins(i)` is the collection's answer to the i-th insert of the call. The
    first failing element ends the call with Internal and no ids; documents
    inserted before it stay in the collection.
   */
  function CreateTodos(store: Store, todos: seq<Todo>, ins: nat -> InsertOracle): (r: Reply<seq<string>>)
    ensures todos == [] ==> r == Reply(store, Ok([]))
    ensures r.result.Err? ==> r.result.code == Internal
    ensures r.result.Ok? ==> |r.result.value| == |todos|
    ensures r.result.Ok? ==> forall j :: 0 <= j < |todos| ==>
      ins(j).Assign? && ins(j).key.Oid? && r.result.value[j] == Hex(ins(j).key.oid)
    ensures forall k :: k in store ==> k in r.store && r.store[k] == store[k]
    ensures forall k :: k in r.store && k !in store ==>
      exists j :: 0 <= j < |todos| && ins(j) == Assign(k) && r.store[k] == BatchRecord(todos[j])
  {
    CreateFrom(store, todos, ins, 0)
  }

  /** The loop of CreateTodos from element `i` on, over the collection as the earlier elements left it. */
  function CreateFrom(store: Store, todos: seq<Todo>, ins: nat -> InsertOracle, i: nat): (r: Reply<seq<string>>)
    requires i <= |todos|
    ensures i == |todos| ==> r == Reply(store, Ok([]))
    ensures r.result.Err? ==> r.result.code == Internal
    ensures r.result.Ok? ==> |r.result.value| == |todos| - i
    ensures r.result.Ok? ==> forall j :: i <= j < |todos| ==>
      ins(j).Assign? && ins(j).key.Oid? && r.result.value[j - i] == Hex(ins(j).key.oid)
    ensures forall k :: k in store ==> k in r.store && r.store[k] == store[k]
    ensures forall k :: k in r.store && k !in store ==>
      exists j :: i <= j < |todos| && ins(j) == Assign(k) && r.store[k] == BatchRecord(todos[j])
    decreases |todos| - i
  {
    if i == |todos| then Reply(store, Ok([]))
    else
      var res := InsertOne(store, BatchRecord(todos[i]), ins(i));
      match res.id
      case None => Reply(res.store, Err(Internal))
      case Some(key) =>
        if !key.Oid? then Reply(res.store, Err(Internal))
        else
          var rest := CreateFrom(res.store, todos, ins, i + 1);
          if rest.result.Err? then Reply(rest.store, Err(Internal))
          else Reply(rest.store, Ok([Hex(key.oid)] + rest.result.value))
  }

  // ------------------------------------------------------------------ ListTodo

  /** The filter ListTodo queries with: `complete` is the negation of `notCompleted`, status NORMAL. */
  function ListFilter(req: ListRequest): (f: Filter)
    ensures f.complete <==> !req.notCompleted
    ensures f.status == NORMAL
  {
    var completed := if !req.notCompleted then true else false;
    Filter(completed, NORMAL)
  }

  /** The keys of the documents a ListTodo query yields, in cursor order. */
  function ListedKeys(store: Store, req: ListRequest, order: seq<Key>): (ks: seq<Key>) {
    Find(store, ListFilter(req), order)
  }

  /**
    ListTodo: the NORMAL todos whose `complete` flag is the opposite of
    `notCompleted`. A failed query answers NotFound; a document that does not
    decode, and a cursor that breaks before it is exhausted, answer Internal
    and nothing is listed. The collection is not changed.
   */
  function ListTodo(store: Store, req: ListRequest, o: FindOracle): (r: Reply<seq<Todo>>)
    ensures r.store == store
    ensures r.result == Err(NotFound) <==> o.queryFails
    ensures r.result.Err? && !o.queryFails ==> r.result.code == Internal
    ensures r.result.Ok? <==>
      && !o.queryFails
      && o.breaksAfter.None?
      && forall k :: k in ListedKeys(store, req, o.order) ==> k !in o.undecodable
    ensures r.result.Ok? ==> forall t :: t in r.result.value ==> t.complete == !req.notCompleted && t.status == NORMAL
    ensures r.result.Ok? ==> forall t :: t in r.result.value ==> exists k :: k in o.order && k in store && store[k] == t
  {
    if o.queryFails then Reply(store, Err(NotFound))
    else
      var ks := CursorYield(ListedKeys(store, req, o.order), o.breaksAfter);
      match DecodeAll(store, ks, o.undecodable)
      case None => Reply(store, Err(Internal))
      case Some(ts) => if o.breaksAfter.Some? then Reply(store, Err(Internal)) else Reply(store, Ok(ts))
  }

  /**
    ListTodo as the source writes it: the loop ends whenever the cursor
    reports no next document, and the cursor's error is never consulted, so a
    cursor that breaks part-way answers Ok with the documents read so far.
   */
  function ListTodoAsWritten(store: Store, req: ListRequest, o: FindOracle): (r: Reply<seq<Todo>>)
    ensures r.store == store
    ensures r.result == Err(NotFound) <==> o.queryFails
    ensures r.result.Err? && !o.queryFails ==> r.result.code == Internal
    ensures o.breaksAfter.None? ==> r == ListTodo(store, req, o)
    ensures r.result.Ok? ==>
      var ks := ListedKeys(store, req, o.order);
      && |r.result.value| <= |ks|
      && forall j :: 0 <= j < |r.result.value| ==> r.result.value[j] == store[ks[j]]
  {
    if o.queryFails then Reply(store, Err(NotFound))
    else
      var ks := CursorYield(ListedKeys(store, req, o.order), o.breaksAfter);
      match DecodeAll(store, ks, o.undecodable)
      case None => Reply(store, Err(Internal))
      case Some(ts) => Reply(store, Ok(ts))
  }

  /** The discrepancy: a cursor that breaks before its first document yields an empty success, whatever matches. */
  lemma ListBrokenCursorAnswersOk(store: Store, req: ListRequest, o: FindOracle)
    requires !o.queryFails && o.breaksAfter == Some(0)
    ensures ListTodoAsWritten(store, req, o) == Reply(store, Ok([]))
  {
  }

  /** The intended behaviour, as on a decode failure: a broken cursor answers Internal and lists nothing. */
  lemma ListBrokenCursorIsInternal(store: Store, req: ListRequest, o: FindOracle)
    requires !o.queryFails && o.breaksAfter.Some?
    ensures ListTodo(store, req, o) == Reply(store, Err(Internal))
  {
  }

  // ---------------------------------------------------------------- DeleteTodo

  /** request.GetTodo().GetId(): the empty string when the todo is absent. */
  function GetId(req: DeleteRequest): (id: string)
    ensures req.todo.Some? ==> id == req.todo.value.id
    ensures req.todo.None? ==> !IsHexId(id)
  {
    match req.todo
    case Some(t) => t.id
    case None => ""
  }

  /** The key a delete request addresses, when its id is well formed. */
  function Target(req: DeleteRequest): (k: Option<Key>)
    ensures k.Some? <==> IsHexId(GetId(req))
    ensures k.Some? ==> k.value.Oid? && FromHex(GetId(req)) == Some(k.value.oid)
  {
    match FromHex(GetId(req))
    case None => None
    case Some(oid) => Some(Oid(oid))
  }

  /**
    DeleteTodo: a soft delete. A malformed id answers InvalidArgument, a
    failed or empty lookup NotFound, a failed replace Internal, all with the
    collection unchanged; otherwise the addressed document is replaced by a
    copy whose status is DELETED, and that copy is returned.
   */
  function DeleteTodo(store: Store, req: DeleteRequest, o: DeleteOracle): (r: Reply<Todo>)
    ensures r.result == Err(InvalidArgument) <==> !IsHexId(GetId(req))
    ensures r.result == Err(NotFound) <==> Target(req).Some? && (o.lookupFails || Target(req).value !in store)
    ensures r.result == Err(Internal) <==> Target(req).Some? && !o.lookupFails && Target(req).value in store && o.replaceFails
    ensures r.result.Err? ==> r.store == store
    ensures r.result.Ok? ==>
      var k := Target(req).value;
      && k in store
      && r.store.Keys == store.Keys
      && (forall k' :: k' in store && k' != k ==> r.store[k'] == store[k'])
      && r.store[k].status == DELETED
      && r.store[k].(status := store[k].status) == store[k]
      && r.result.value == r.store[k]
  {
    match FromHex(GetId(req))
    case None => Reply(store, Err(InvalidArgument))
    case Some(oid) =>
      var key := Oid(oid);
      match FindOne(store, key, o.lookupFails)
      case None => Reply(store, Err(NotFound))
      case Some(data) =>
        var updated := SoftDeleted(data);
        match ReplaceOne(store, key, updated, o.replaceFails)
        case None => Reply(store, Err(Internal))
        case Some(replaced) => Reply(replaced, Ok(updated))
  }

  /** A call that either returns normally or ends in a Go runtime panic. */
  datatype Outcome<+T> = Returned(reply: Reply<T>) | Panicked

  /**
    DeleteTodo as the source writes it: the log line that opens the handler
    reads the title of the request's todo through a possibly nil pointer, so
    a request without a todo panics before the id is looked at.
   */
  function DeleteTodoAsWritten(store: Store, req: DeleteRequest, o: DeleteOracle): (r: Outcome<Todo>)
    ensures r.Panicked? <==> req.todo.None?
    ensures r.Returned? ==> r.reply == DeleteTodo(store, req, o)
  {
    if req.todo.None? then Panicked else Returned(DeleteTodo(store, req, o))
  }

  /** The discrepancy: a delete request without a todo crashes the handler as written. */
  lemma DeleteWithoutTodoPanics(store: Store, o: DeleteOracle)
    ensures DeleteTodoAsWritten(store, DeleteRequest(None), o) == Panicked
  {
  }

  /** The intended behaviour, which the nil-safe id getter points to: a missing todo is a malformed id. */
  lemma DeleteWithoutTodoIsInvalid(store: Store, o: DeleteOracle)
    ensures DeleteTodo(store, DeleteRequest(None), o) == Reply(store, Err(InvalidArgument))
  {
  }
}
