# To-do gRPC service: a verified model of the request handlers

This project models `TodoService`, the request-handling layer of a small gRPC
to-do service. The service has five handlers: `CreateToDo`, `ReadToDo`,
`ReadToDoList`, `UpdateToDo` and `DeleteToDo`. Each handler validates its request
and then does one lookup or one change against a table of `TodoItem` records.
It either answers a response or fails with the status code `InvalidArgument` or
`NotFound`.

The model is functional. Each handler is a pure function from the current table
and a request to a `Reply`: the result (a response or a status code) and the table
after the call.

- `outcomes.dfy` (`Outcomes`): `Option`, the two status codes, and `Result`.
- `todo_store.dfy` (`TodoStore`): the table and the store operations the handlers
  use. A table is the sequence of its rows in the order a full scan enumerates
  them. Its abstract meaning is `View`, a finite map from id to
  `(title, description, status)`. A lookup by id sees the first row with that id,
  as "first or default" does. Insert, point lookup, update in place and remove
  each carry a contract stated against `View`. `UniqueIds` is the database's
  primary-key guarantee. `Valid` adds what the handlers enforce: ids are positive,
  and no stored title or description is empty.
- `todo_service.dfy` (`TodoService`): the request and response records and the
  five handlers. Each contract covers every branch in the handler's checking
  order. It says which status code a failure gets, that a failure leaves the
  table unchanged, and how `View` changes on success.
- `todo_calls.dfy` (`TodoCalls`): one dispatch function over the five handlers,
  and runs of calls one after another. Every run from a `Valid` table ends in a
  `Valid` table.
- `todo_properties.dfy` (`TodoProperties`): properties that relate several calls.
  Create then read, update then read, delete then read. Updates and deletes do
  not affect other ids. The listing agrees with `View` and with point reads. The
  module also proves two example runs of the handlers from an empty table.

The database assigns the id of a new record. The database schema is not part of
this model, so `TodoStore.FreshId` is one admissible policy: "largest id + 1".
Its contract says only that the id is positive and that no current row has it.
Every handler contract and every property lemma relies on that contract alone,
with two exceptions: `TodoProperties.BuyMilkScenario` and
`TodoProperties.DeletedIdIsReassigned`, whose concrete ids come from the policy. The handler code never checks whether an
id was used before, because it leaves the choice of id to the database. The model
therefore does not claim that ids are never reused.

## Model

| member | source | states |
|---|---|---|
| TodoService.CreateToDo | Services/ToDoService.cs:19-38 | Fails with InvalidArgument exactly when the title or the description is the empty string, and then the table is unchanged. Whitespace-only text is accepted. On success it answers a positive id that no record had before. The new table's map is the old one plus that id, mapped to the given title, the given description and the initial status, modelled as 0. All old rows stay in place, the new row is listed last, and `Valid` is preserved. |
| TodoService.ReadToDo | Services/ToDoService.cs:40-63 | An id of 0 or less gives InvalidArgument, whatever the table holds. A positive id that is not in the table gives NotFound. A present id gives its record's id, title, description and status. The table is never changed. |
| TodoService.ReadToDoList | Services/ToDoService.cs:69-86 | Never fails and never changes the table. It answers one response per stored row, in enumeration order, with the same field values. An empty table gives an empty list. |
| TodoService.Responses | Services/ToDoService.cs:74-83 | The loop over the scanned rows gives exactly one response per row, in the same order and with the same fields. |
| TodoService.UpdateToDo | Services/ToDoService.cs:88-112 | An empty title or description gives InvalidArgument before any lookup, even when the id is absent. Otherwise an absent id gives NotFound, and the id's sign is not checked. Both failures leave the table unchanged. On success it answers the request's id. The new map is the old one with only that id's title, description and status overwritten. The row count and every row's id, in order, are kept. Only the first row with that id changes: every other row stays as it was, in place. `Valid` is preserved. |
| TodoService.DeleteToDo | Services/ToDoService.cs:114-136 | An id of 0 or less gives InvalidArgument. An absent id gives NotFound. Both failures leave the table unchanged. On success it answers the deleted id and the table loses exactly one row: the first row with that id. The rows before it stay in place, the rows after it move up one place in the same order, and `Valid` is preserved. With unique ids, the new map is the old one without that id. |
| TodoStore.Find | Services/ToDoService.cs:48 | The point lookup returns the index of the first row with the id. It returns None exactly when no row carries the id. |
| TodoStore.FreshId | Services/ToDoService.cs:29-30 | The id the store assigns on insert is positive, and no current row has it. |
| TodoStore.Insert | Services/ToDoService.cs:27-30 | Insert adds the new record under a fresh positive id. The map gains exactly that id. The earlier rows are kept as a prefix, and the new row is enumerated last. |
| TodoStore.Replace | Services/ToDoService.cs:102-106 | Update in place maps the row's id to the new fields. It keeps the row count and every id in place, and it leaves every other row as it was. |
| TodoStore.RemoveAt | Services/ToDoService.cs:128-130 | Removing the found row drops exactly that row and keeps the order of the others. With unique ids, the map loses exactly that id and ids stay unique. |
| TodoStore.RemoveKeepsOther | Services/ToDoService.cs:121-130 | Removing a row never changes whether another id is present, or what it maps to, in any table, even one with repeated ids. |
| TodoStore.InsertKeepsValid | Services/ToDoService.cs:22-30 | Inserting a record whose title and description are non-empty keeps ids unique and positive and keeps every field non-empty. |
| TodoCalls.Handle | Services/ToDoService.cs:19-136 | Under one dispatch: a failed call and every read leave the table unchanged, and every call keeps `Valid`. |
| TodoCalls.RunKeepsValid | Services/ToDoService.cs:19-136 | A run of calls of any length, started from a `Valid` table, ends in a `Valid` table: ids are unique and positive, and no stored title or description is empty. |
| TodoCalls.FailedRunLeavesTable | Services/ToDoService.cs:19-136 | A run in which every call fails leaves the table as it was. |
| TodoProperties.CreateThenRead | Services/ToDoService.cs:27-63 | Reading the id that a successful create answered gives the title and description sent, with the default status. |
| TodoProperties.CreateTwiceDistinctIds | Services/ToDoService.cs:22-37 | Two creates in a row, both with non-empty title and description, answer two different ids. |
| TodoProperties.RejectedCreateKeepsListing | Services/ToDoService.cs:22-25 | A create with an empty field fails with InvalidArgument, and afterwards the listing is the same as before. |
| TodoProperties.UpdateThenRead | Services/ToDoService.cs:102-111 | After a successful update of a positive id, reading that id gives exactly the fields sent, under the same id. |
| TodoProperties.UpdateLeavesOthers | Services/ToDoService.cs:95-106 | An update, whether it succeeds or fails, does not change what a read of any other id answers. |
| TodoProperties.UpdateNonPositiveIdNotFound | Services/ToDoService.cs:90-100 | Update does not check the id's sign. With non-empty fields and an id of 0 or less on a `Valid` table, it therefore gives NotFound and leaves the table unchanged. |
| TodoProperties.DeleteThenRead | Services/ToDoService.cs:121-130 | In a table with unique ids, after a successful delete, reading the same id gives NotFound. |
| TodoProperties.DeleteLeavesOthers | Services/ToDoService.cs:121-130 | For every table, a delete, whether it succeeds or fails, does not change what a read of any other id answers. |
| TodoProperties.CreateUpdateRead | Services/ToDoService.cs:27-111 | Create, then update the new id, then read it: the read gives the updated fields under the id that the create assigned. |
| TodoProperties.ListingEnumeratesView | Services/ToDoService.cs:69-86 | With unique ids, the listing is an enumeration of the map. Each listed record matches the map at its id, every id is listed, and no id is listed twice. |
| TodoProperties.ListingAgreesWithRead | Services/ToDoService.cs:48-86 | In a `Valid` table, reading any listed id gives exactly the listed record. |
| TodoProperties.ListingIsRepeatable | Services/ToDoService.cs:69-86 | Two listings with no call in between give the same records. |
| TodoProperties.BuyMilkScenario | Services/ToDoService.cs:19-136 | With the largest-id-plus-one policy of `FreshId`, from an empty table: create ("Buy milk", "2%") answers id 1, and a read returns it with status 0. The update to ("Buy milk", "Whole", 1) answers 1, and a read returns the new fields. The delete answers 1, a later read gives NotFound, and the table is empty. |
| TodoProperties.DeletedIdIsReassigned | Services/ToDoService.cs:27-37 | With the largest-id-plus-one policy of `FreshId`: create on an empty table answers id 1, deleting 1 succeeds, and the next create answers 1 again. The handler code does nothing to prevent an id from being assigned again. |
| TodoProperties.EmptyTitleScenario | Services/ToDoService.cs:22-25 | Create ("", "x") on an empty table fails with InvalidArgument. The table stays empty and the listing is empty. |

## Left out

- The async plumbing (`Task.FromResult`, awaiting the store) and `ServerCallContext`, including cancellation. They add no sequential behaviour.
- The message text of each `RpcException`. Only the status code is modelled.
- The `throw` after the `return` in `ReadToDo` (Services/ToDoService.cs:65). No execution reaches it.
- Entity Framework change tracking, `SaveChangesAsync`, SQLite itself, and store-level I/O failures. The store is the abstract table described above, and each of its operations applies fully.
- Concurrent calls. Calls are handled one at a time, each on the table the previous call left. The handlers contain no locking or conflict logic.
- Integer width: ids and status values are unbounded integers. The 32-bit width of the wire fields, and any overflow of the next id, are not modelled.
- The type of a record's status and its initial value. Both are defined by the `TodoItem` class and the message definitions, which are not part of this model. The model uses an unbounded integer with the initial value 0 (`TodoStore.DefaultStatus`). Update stores whatever status it is sent.
- The routing of requests to handlers in `Program.cs` (`MapGrpcService`), the connection string, and process start-up. They are wiring only. `TodoCalls.Handle` stands in for the dispatch.
- The guarantee that ids are never reused. The model promises only that a new id is absent from the current table. `TodoStore.FreshId`'s policy reuses the largest id once its row is deleted: create, delete 1, create answers 1 again. A database with an auto-increment key would answer 2. Which policy the real table uses depends on its schema, and the schema is not part of this model.
- TodoService.DeleteToDo: the map-level effect of a delete is stated only for tables with unique ids. With a duplicated id, removing the first row would expose the next row with that id. Unique ids are the database's primary-key guarantee, and every `Valid` table has them.
