/** The single entity of the service: a todo document (the generated todopb.Todo message). */
module Todos {

  /** The status a freshly created todo is given, and the one a soft delete sets. */
  const NORMAL: string := "NORMAL"
  const DELETED: string := "DELETED"

  /**
    A todo as it is stored. `id` is the document's own `id` field, which is
    distinct from the storage key (`_id`) assigned on insert. Text fields left
    unset hold Go's zero value, the empty string.
   */
  datatype Todo = Todo(
    id: string,
    title: string,
    description: string,
    complete: bool,
    status: string,
    deadline: string)

  /** The document CreateTodo writes: caller's text fields, not complete, status NORMAL. */
  function NewRecord(req: Todo): (t: Todo)
    ensures t.title == req.title && t.description == req.description && t.deadline == req.deadline
    ensures !t.complete && t.status == NORMAL
    ensures t.id == ""
  {
    Todo("", req.title, req.description, false, NORMAL, req.deadline)
  }

  /** The document CreateTodos writes for one element: like NewRecord, but the status is never set. */
  function BatchRecord(req: Todo): (t: Todo)
    ensures t == NewRecord(req).(status := "")
    ensures t.status != NORMAL && t.status != DELETED
  {
    Todo("", req.title, req.description, false, "", req.deadline)
  }

  /** A todo with its status flipped to DELETED and every other field kept. */
  function SoftDeleted(t: Todo): (d: Todo)
    ensures d.status == DELETED
    ensures d.(status := t.status) == t
  {
    t.(status := DELETED)
  }
}
