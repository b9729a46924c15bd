/**
  The collection over a whole sequence of calls. Documents are never removed
  and never rewritten, except that a soft delete sets their status to DELETED;
  in particular a document's `id` and text never change, and DELETED is final.
 */
module Lifecycle {
  import opened Wrappers
  import opened Todos
  import opened Collection
  import opened TodoServer

  /** One call of the service, together with how the collection behaves while serving it. */
  datatype Call =
    | CreateOne(todo: Todo, ins: InsertOracle)
    | CreateMany(todos: seq<Todo>, inserts: nat -> InsertOracle)
    | List(query: ListRequest, find: FindOracle)
    | Delete(target: DeleteRequest, access: DeleteOracle)

  /** The collection after serving one call. */
  function Step(store: Store, c: Call): (s: Store) {
    match c
    case CreateOne(todo, ins) => CreateTodo(store, todo, ins).store
    case CreateMany(todos, inserts) => CreateTodos(store, todos, inserts).store
    case List(req, find) => ListTodo(store, req, find).store
    case Delete(req, access) => DeleteTodo(store, req, access).store
  }

  /** The collection after serving the calls in order. */
  function Run(store: Store, calls: seq<Call>): (s: Store)
    decreases |calls|
  {
    if calls == [] then store else Run(Step(store, calls[0]), calls[1..])
  }

  /**
    `s'` is a possible later state of `s`: every document of `s` is still
    there, either as it was or with its status set to DELETED.
   */
  ghost predicate Evolves(s: Store, s': Store) {
    forall k :: k in s ==> k in s' && (s'[k] == s[k] || s'[k] == SoftDeleted(s[k]))
  }

  lemma EvolvesTransitive(s: Store, s': Store, s'': Store)
    requires Evolves(s, s') && Evolves(s', s'')
    ensures Evolves(s, s'')
  {
  }

  /** Every handler keeps the collection's history one-way. */
  lemma StepEvolves(store: Store, c: Call)
    ensures Evolves(store, Step(store, c))
  {
  }

  /** Any sequence of calls keeps the collection's history one-way. */
  lemma {:induction false} RunEvolves(store: Store, calls: seq<Call>)
    ensures Evolves(store, Run(store, calls))
    decreases |calls|
  {
    if calls != [] {
      var next := Step(store, calls[0]);
      StepEvolves(store, calls[0]);
      RunEvolves(next, calls[1..]);
      EvolvesTransitive(store, next, Run(next, calls[1..]));
    }
  }

  /**
    Once a document is DELETED it stays in the collection, stays DELETED, and
    no later ListTodo lists it, whatever calls follow.
   */
  lemma DeletedIsFinal(store: Store, calls: seq<Call>, k: Key, req: ListRequest, order: seq<Key>)
    requires k in store && store[k].status == DELETED
    ensures var later := Run(store, calls);
      && k in later
      && later[k] == store[k]
      && k !in ListedKeys(later, req, order)
  {
    RunEvolves(store, calls);
  }
}
