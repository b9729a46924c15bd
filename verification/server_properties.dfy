/** Properties that relate several calls of the todo service to one another. */
module ServerProperties {
  import opened Wrappers
  import opened Status
  import opened ObjectIds
  import opened Todos
  import opened Collection
  import opened TodoServer

  /**
    When the cursor visits every document once, ListTodo lists each matching
    document exactly once: the listed keys are distinct and are precisely the
    keys of the NORMAL documents whose `complete` is the negation of
    `notCompleted`, and the list holds those documents in cursor order.
   */
  lemma ListTodoComplete(store: Store, req: ListRequest, o: FindOracle)
    requires Enumerates(o.order, store)
    requires ListTodo(store, req, o).result.Ok?
    ensures var ks := ListedKeys(store, req, o.order);
      var ts := ListTodo(store, req, o).result.value;
      && Distinct(ks)
      && (forall k :: k in ks <==> k in store && store[k].complete == !req.notCompleted && store[k].status == NORMAL)
      && |ts| == |ks|
      && (forall j :: 0 <= j < |ks| ==> ts[j] == store[ks[j]])
  {
    FindDistinct(store, ListFilter(req), o.order);
  }

  /**
    Two collections that agree on every document of the first, where every
    document only the second holds fails the filter, yield the same cursor.
   */
  lemma {:induction false} FindIgnoresNonMatching(s: Store, s': Store, f: Filter, order: seq<Key>)
    requires forall k :: k in s ==> k in s' && s'[k] == s[k]
    requires forall k :: k in s' && k !in s ==> !Matches(s'[k], f)
    ensures Find(s', f, order) == Find(s, f, order)
  {
    if order != [] {
      FindIgnoresNonMatching(s, s', f, order[1..]);
    }
  }

  /** CreateTodo reads only the title, description and deadline of the request's todo. */
  lemma CreateTodoReadsOnlyText(store: Store, a: Todo, b: Todo, ins: InsertOracle)
    requires a.title == b.title && a.description == b.description && a.deadline == b.deadline
    ensures CreateTodo(store, a, ins) == CreateTodo(store, b, ins)
  {
  }

  /**
    A todo that CreateTodo has just stored is listed by a ListTodo with
    `notCompleted` set, once the query, the cursor and the decoding succeed.
    The listed todo's own `id` field is empty: the hex id the create answered
    is its storage key, which the document does not repeat.
   */
  lemma CreateThenList(store: Store, todo: Todo, ins: InsertOracle, o: FindOracle)
    requires CreateTodo(store, todo, ins).result.Ok?
    requires Enumerates(o.order, CreateTodo(store, todo, ins).store)
    requires !o.queryFails && o.undecodable == {} && o.breaksAfter.None?
    ensures var created := CreateTodo(store, todo, ins).store;
      var listed := ListTodo(created, ListRequest(true), o).result;
      && listed.Ok?
      && created[ins.key] in listed.value
      && created[ins.key].title == todo.title
      && created[ins.key].id == ""
  {
  }

  /**
    The id CreateTodo answers addresses the stored todo: deleting by it
    succeeds when the collection does, and returns the todo with its text
    fields intact and status DELETED. The returned todo's `id` field is the
    empty string the create stored, not the id the caller deleted by.
   */
  lemma CreateThenDelete(store: Store, todo: Todo, ins: InsertOracle, req: Todo)
    requires CreateTodo(store, todo, ins).result.Ok?
    requires req.id == CreateTodo(store, todo, ins).result.value
    ensures var created := CreateTodo(store, todo, ins).store;
      var deleted := DeleteTodo(created, DeleteRequest(Some(req)), DeleteOracle(false, false));
      && deleted.result.Ok?
      && deleted.result.value.title == todo.title
      && deleted.result.value.description == todo.description
      && deleted.result.value.deadline == todo.deadline
      && !deleted.result.value.complete
      && deleted.result.value.status == DELETED
      && deleted.result.value.id == ""
  {
  }

  /**
    Documents that CreateTodos writes never match a ListTodo query, whatever
    the call's outcome: the listing is the one before the batch.
   */
  lemma BatchNeverListed(store: Store, todos: seq<Todo>, ins: nat -> InsertOracle, req: ListRequest, order: seq<Key>)
    ensures var after := CreateTodos(store, todos, ins).store;
      && ListedKeys(after, req, order) == ListedKeys(store, req, order)
      && (forall k :: k in after && k !in store ==> k !in ListedKeys(after, req, order))
  {
    var after := CreateTodos(store, todos, ins).store;
    forall k | k in after && k !in store
      ensures !Matches(after[k], ListFilter(req))
    {
      var j :| 0 <= j < |todos| && ins(j) == Assign(k) && after[k] == BatchRecord(todos[j]);
      assert after[k].status == "" != NORMAL;
    }
    FindIgnoresNonMatching(store, after, ListFilter(req), order);
  }

  /**
    A soft-deleted todo drops out of every listing, and every other todo is
    listed afterwards exactly when it was listed before.
   */
  lemma DeleteThenList(store: Store, req: DeleteRequest, o: DeleteOracle, lreq: ListRequest, order: seq<Key>)
    requires DeleteTodo(store, req, o).result.Ok?
    ensures var after := DeleteTodo(store, req, o).store;
      && Target(req).value !in ListedKeys(after, lreq, order)
      && (forall k :: k != Target(req).value ==> (k in ListedKeys(after, lreq, order) <==> k in ListedKeys(store, lreq, order)))
  {
  }

  /**
    Deleting again is harmless: a second successful DeleteTodo with the same
    id leaves the collection as the first left it and returns the same todo.
   */
  lemma DeleteIdempotent(store: Store, req: DeleteRequest, o: DeleteOracle)
    requires DeleteTodo(store, req, o).result.Ok?
    ensures var first := DeleteTodo(store, req, o);
      DeleteTodo(first.store, req, DeleteOracle(false, false)) == first
  {
  }
}
