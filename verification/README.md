# Todo service handlers, modelled in Dafny

This project models the request-handling core of a small gRPC todo service
backed by a MongoDB collection (`todo-server/server.go`). The four handlers —
`CreateTodo`, `CreateTodos`, `ListTodo` and `DeleteTodo` — are pure functions
from (collection, request, storage behaviour) to (collection afterwards,
result). The collection is a `map<Key, Todo>` from document key (`_id`) to
document. Everything the storage layer could do differently is an explicit
input:

- an `InsertOracle` per insert: the key the collection assigns, or a failed
  write; an assigned key that is already taken is a duplicate-key error;
- a `FindOracle` per listing: whether the query fails, the cursor's natural
  order over the whole collection, which documents fail to decode, and
  whether the cursor breaks part-way (`breaksAfter`: it reports an error in
  place of a document, as an interrupted network read would);
- a `DeleteOracle` per delete: whether the lookup fails, and whether the
  replace fails.

A result is a response value or one of three gRPC status codes:
`InvalidArgument`, `NotFound` or `Internal`.

Modules, in dependency order:

- `Wrappers` (`wrappers.dfy`): `Option`.
- `Status` (`status.dfy`): status codes and `Result`.
- `ObjectIds` (`object_ids.dfy`): validity of the 24-digit hex form. An
  identifier is held as its lower-case spelling.
- `Todos` (`todos.dfy`): the `Todo` document and the three record shapes the
  handlers write.
- `Collection` (`collection.dfy`): the driver calls InsertOne, FindOne,
  ReplaceOne and Find, plus decoding, over the map.
- `TodoServer` (`todo_server.dfy`): the four handlers.
- `BatchCreate` (`batch_create.dfy`): an independent, prefix-by-prefix
  description of `CreateTodos`, proved equal to the handler.
- `ServerProperties` (`server_properties.dfy`): properties that span several
  calls.
- `Lifecycle` (`lifecycle.dfy`): the collection over any sequence of calls.

Behaviour of the code worth knowing; the model follows the code:

- Neither create handler sets the document's own `id` field, so it is stored
  as the empty string. `DeleteTodo` echoes the stored document, so its `id`
  field is whatever was stored. The storage key `_id` is kept separately as
  the map key.
- `CreateTodos` leaves `status` unset, so the stored value is the empty
  string. A batch-created todo is therefore never listed. A soft delete still
  applies to it, so the status moves from empty to `DELETED`. `NORMAL` is not
  the only status that can precede `DELETED`.
- When the insert succeeds but the assigned key is not an object identifier,
  `CreateTodo` answers `Internal`, yet the document has been stored.

## Model

| member | source | states |
|---|---|---|
| ObjectIds.FromHex | todo-server/server.go:25 | an id parses exactly when it is 24 hex digits in either case; the identifier it names is spelled as the input in lower case |
| ObjectIds.Hex | todo-server/server.go:111 | the id a create answers is a valid, lower-case 24-digit hex id |
| ObjectIds.HexRoundTrip | todo-server/server.go:111 | the hex id a create answers parses back to the same identifier |
| ObjectIds.FromHexIgnoresCase | todo-server/server.go:25 | spellings that differ only in letter case name the same identifier |
| Todos.NewRecord | todo-server/server.go:91-97 | the record CreateTodo writes carries the request's title, description and deadline, is not complete, has status NORMAL and an empty `id` |
| Todos.BatchRecord | todo-server/server.go:119-124 | the record CreateTodos writes is CreateTodo's record with the status left empty, so it is neither NORMAL nor DELETED |
| Todos.SoftDeleted | todo-server/server.go:42 | a soft delete sets status DELETED and changes no other field |
| Collection.InsertOne | todo-server/server.go:99 | an insert succeeds exactly when its assigned key is free; it then adds exactly that document; a failed or duplicate-key insert adds nothing; existing documents are never touched |
| Collection.FindOne | todo-server/server.go:35-36 | the lookup yields the stored document exactly when it does not fail and the key is present |
| Collection.ReplaceOne | todo-server/server.go:44 | a successful replace keeps the key set, puts the new document at the key if present, and leaves every other document alone |
| Collection.Find | todo-server/server.go:67 | the cursor yields only present, matching documents, in the visiting order (a subsequence of it), and every matching document the order visits |
| Collection.CursorYield | todo-server/server.go:75 | a cursor hands out a prefix of its documents: all of them when it does not break or breaks only after the last one, exactly the first n when it breaks in place of document n + 1 |
| Collection.FindDistinct | todo-server/server.go:75 | a cursor over distinct documents yields no document twice |
| Collection.DecodeAll | todo-server/server.go:75-83 | decoding succeeds exactly when no yielded document is undecodable, and then returns the documents in cursor order |
| TodoServer.CreateTodo | todo-server/server.go:89-114 | success exactly when the insert gets a fresh object-id key; the answer is the lower-case hex spelling of that key, as ObjectID.Hex prints it; the new record has the request's text, is not complete, is NORMAL and has an empty `id` field; every failure is Internal; nothing else changes |
| TodoServer.CreateTodos | todo-server/server.go:116-140 | an empty batch answers no ids and changes nothing; success answers one hex id per element in order; failures are Internal; old records stay, and every new record is the batch record of the element whose insert got its key |
| TodoServer.CreateFrom | todo-server/server.go:118-138 | the loop from element i on has the same guarantees, over elements i and later |
| TodoServer.ListFilter | todo-server/server.go:62-65 | the query asks for `complete` equal to the negation of `notCompleted`, and status NORMAL |
| TodoServer.ListTodo | todo-server/server.go:61-87 | a failed query is NotFound and nothing else is; success exactly when the query works, the cursor does not break and no listed document is undecodable, all other cases being Internal; every listed todo is NORMAL with `complete == !notCompleted` and is stored; the collection is unchanged |
| TodoServer.ListTodoAsWritten | todo-server/server.go:61-87 | the handler as written agrees with ListTodo on an unbroken cursor; on a broken one it can answer Ok with only a prefix of the matching documents |
| TodoServer.ListBrokenCursorAnswersOk | todo-server/server.go:75-85 | as written, a cursor that breaks before its first document yields an empty success, however many documents match |
| TodoServer.ListBrokenCursorIsInternal | todo-server/server.go:77-80 | with the cursor's error checked, a broken cursor answers Internal and lists nothing, as a decode failure does |
| TodoServer.GetId | todo-server/server.go:25 | the id read from a delete request is its todo's id, and an absent todo gives an id that never parses |
| TodoServer.Target | todo-server/server.go:25-31 | a delete addresses a key exactly when its id is well formed, and that key is the parsed object identifier |
| TodoServer.DeleteTodo | todo-server/server.go:23-59 | malformed id iff InvalidArgument; failed or absent lookup iff NotFound; failed replace iff Internal; errors change nothing; success sets DELETED on the target only, keeps its other fields and all other records, and returns the updated record |
| TodoServer.DeleteTodoAsWritten | todo-server/server.go:23-25 | the handler as written panics exactly when the request carries no todo, and otherwise behaves as DeleteTodo |
| TodoServer.DeleteWithoutTodoPanics | todo-server/server.go:24 | a delete request without a todo crashes the handler as written |
| TodoServer.DeleteWithoutTodoIsInvalid | todo-server/server.go:25-30 | with the nil-safe id getter, a delete request without a todo is InvalidArgument and changes nothing |
| BatchCreate.CreateTodosOutcome | todo-server/server.go:116-140 | CreateTodos succeeds iff every insert gets a fresh object-id key, then writes all elements in order and answers distinct ids; otherwise it stops at the first element that does not, with the earlier elements written (that element too if its insert went through) and none after |
| ServerProperties.ListTodoComplete | todo-server/server.go:67-85 | over a cursor visiting each document once, the listing holds each matching document exactly once, in cursor order, and nothing else |
| ServerProperties.CreateTodoReadsOnlyText | todo-server/server.go:91-97 | CreateTodo ignores the request's id, complete and status fields |
| ServerProperties.CreateThenList | todo-server/server.go:91-97 | a todo CreateTodo stored is listed by ListTodo with notCompleted set, and its listed `id` field is empty |
| ServerProperties.CreateThenDelete | todo-server/server.go:111-113 | deleting by the id CreateTodo answered succeeds and returns the todo with its text intact, not complete, DELETED, and with an empty `id` field rather than the id deleted by |
| ServerProperties.BatchNeverListed | todo-server/server.go:119-124 | records written by CreateTodos, whatever its outcome, never appear in a listing; the listing is the one before the batch |
| ServerProperties.DeleteThenList | todo-server/server.go:42-44 | a soft-deleted record drops out of every listing, and every other record is listed after exactly when it was listed before |
| ServerProperties.DeleteIdempotent | todo-server/server.go:35-58 | a second delete of the same id leaves the collection as the first left it and returns the same record |
| Lifecycle.StepEvolves | todo-server/server.go:23-140 | each handler keeps every document, either unchanged or with its status set to DELETED |
| Lifecycle.RunEvolves | todo-server/server.go:23-140 | the same holds across any sequence of calls |
| Lifecycle.DeletedIsFinal | todo-server/server.go:42-44 | a DELETED document stays stored and DELETED, and is never listed again, whatever calls follow |

## Findings

| source | as written | input that shows it | evidently intended | confidence | as-written member | corrected member |
|---|---|---|---|---|---|---|
| todo-server/server.go:24 | the opening log line reads the title through the possibly nil todo pointer | a DeleteTodo request with no todo message | the id is read through the nil-safe getters on line 25, which yield the empty string, and the request is rejected as InvalidArgument | medium, not executed | TodoServer.DeleteTodoAsWritten | TodoServer.DeleteTodo |
| todo-server/server.go:75-85 | the read loop stops whenever the cursor has no next document and never asks the cursor for its error | a ListTodo whose cursor breaks before its first document while matching todos exist; more commonly, one whose fetch of a later batch fails | a cursor error answers Internal and lists nothing, like a decode error on lines 77-80 | medium, not executed | TodoServer.ListTodoAsWritten | TodoServer.ListTodo |

For the first row, the lemma `TodoServer.DeleteWithoutTodoPanics` shows the
crash of the as-written handler. The lemma
`TodoServer.DeleteWithoutTodoIsInvalid` proves the intended answer of the
corrected one. For the second row, `TodoServer.ListBrokenCursorAnswersOk`
shows the empty success of the as-written handler, and
`TodoServer.ListBrokenCursorIsInternal` proves the intended answer of the
corrected one. The rest of the model uses the corrected `DeleteTodo` and
`ListTodo`.

## Left out

- `main` (connecting to MongoDB with a timeout, listening on TCP, gRPC server registration and reflection, the serve goroutine, interrupt handling): process lifecycle and I/O.
- Logging and `fmt` output, and the exact error-message texts: only status codes are modelled.
- BSON encoding and decoding: a stored document decodes to itself unless the `FindOracle` marks it undecodable. The mapping of the generated message type's fields to document keys is not part of this model. It decides, for example, whether a decoder fills `id` from `_id`.
- The cursor's natural order is an input, and closing the cursor is not modelled. The order is meant to list every document of the collection once; `ServerProperties.ListTodoComplete` assumes exactly that. A cursor that stops early is expressed by `breaksAfter`, not by a shorter order.
- The byte value of an object identifier: only validity and the canonical lower-case spelling are modelled. Go measures the 24 in bytes and the model in characters; a string that differs between the two holds a non-ASCII character and is rejected either way.
- Contexts, cancellation and concurrency: handlers run one at a time. The race between DeleteTodo's read and its replace is therefore out of scope.
- A failed insert or replace is taken to write nothing.
- CreateTodo and CreateTodos dereference the request's todo messages without a nil check. The model takes those messages as present, so a missing one, which would panic, is not modelled. DeleteTodo is treated differently because its own next line reads the id through nil-safe getters, which shows what the handler meant to do with a missing todo. The create handlers never use the getters, so nothing in them says what a missing todo should produce, and there is no intended behaviour to model.
- Setting the request's id after the insert (line 111) changes only the request object; it is not modelled.
