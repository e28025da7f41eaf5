/** The request handlers of the to-do service.

    Each handler takes the current table and a request and returns a `Reply`:
    the response or the status code it fails with, and the table after the call.
    A failed call leaves the table as it was. Validation always happens before
    the table is consulted, in the order the handlers check it.
 */
module TodoService {
  import opened Outcomes
  import opened TodoStore

  datatype CreateToDoRequest = CreateToDoRequest(title: string, description: string)
  datatype CreateToDoResponse = CreateToDoResponse(id: int)
  datatype ReadToDoRequest = ReadToDoRequest(id: int)
  datatype ReadToDoResponse = ReadToDoResponse(id: int, title: string, description: string, toDoStatus: int)
  datatype GetAllResponse = GetAllResponse(toDo: seq<ReadToDoResponse>)
  datatype UpdateToDoRequest = UpdateToDoRequest(id: int, title: string, description: string, toDoStatus: int)
  datatype UpdateToDoResponse = UpdateToDoResponse(id: int)
  datatype DeleteToDoRequest = DeleteToDoRequest(id: int)
  datatype DeleteToDoResponse = DeleteToDoResponse(id: int)

  /** What a call answers, and the table it leaves behind. */
  datatype Reply<+T> = Reply(result: Result<T>, store: Table)

  /** The response describing one stored record. */
  function Respond(item: TodoItem): ReadToDoResponse {
    ReadToDoResponse(item.id, item.title, item.description, item.status)
  }

  /** Create: reject an empty title or description, otherwise insert a record with
      the default status and answer the id the store assigned. */
  function CreateToDo(s: Table, req: CreateToDoRequest): (r: Reply<CreateToDoResponse>)
    ensures r.result.Failure? <==> req.title == "" || req.description == ""
    ensures r.result.Failure? ==> r.result.code == InvalidArgument && r.store == s
    ensures r.result.Success? ==>
      var id := r.result.value.id;
      && id > 0 && id !in View(s)
      && View(r.store) == View(s)[id := Entry(req.title, req.description, DefaultStatus)]
      && |r.store| == |s| + 1 && r.store[..|s|] == s
    ensures Valid(s) ==> Valid(r.store)
  {
    if req.title == "" || req.description == "" then
      Reply(Failure(InvalidArgument), s)
    else
      var e := Entry(req.title, req.description, DefaultStatus);
      var (t, id) := Insert(s, e);
      InsertKeepsValid(s, e);
      Reply(Success(CreateToDoResponse(id)), t)
  }

  /** Read: reject a non-positive id without consulting the table, otherwise answer
      the record with that id or fail with NotFound. */
  function ReadToDo(s: Table, req: ReadToDoRequest): (r: Reply<ReadToDoResponse>)
    ensures r.store == s
    ensures req.id <= 0 ==> r.result == Failure(InvalidArgument)
    ensures req.id > 0 && req.id !in View(s) ==> r.result == Failure(NotFound)
    ensures req.id > 0 && req.id in View(s) ==>
      var e := View(s)[req.id];
      r.result == Success(ReadToDoResponse(req.id, e.title, e.description, e.status))
  {
    if req.id <= 0 then
      Reply(Failure(InvalidArgument), s)
    else
      match Find(s, req.id)
      case None => Reply(Failure(NotFound), s)
      case Some(i) => Reply(Success(Respond(s[i])), s)
  }

  /** The responses for a scan of `rows`, one per row and in the same order. */
  function Responses(rows: Table): (out: seq<ReadToDoResponse>)
    ensures |out| == |rows|
    ensures forall i :: 0 <= i < |rows| ==> out[i] == Respond(rows[i])
    decreases |rows|
  {
    if |rows| == 0 then []
    else [Respond(rows[0])] + Responses(rows[1..])
  }

  /** Read all: answer every record in enumeration order; never fails. */
  function ReadToDoList(s: Table): (r: Reply<GetAllResponse>)
    ensures r.store == s && r.result.Success?
    ensures |r.result.value.toDo| == |s|
    ensures forall i :: 0 <= i < |s| ==> r.result.value.toDo[i] == Respond(s[i])
  {
    Reply(Success(GetAllResponse(Responses(s))), s)
  }

  /** Update: reject an empty title or description before the lookup, fail with
      NotFound when no record has the id (there is no check of the id's sign),
      otherwise overwrite that record's title, description and status in place. */
  function UpdateToDo(s: Table, req: UpdateToDoRequest): (r: Reply<UpdateToDoResponse>)
    ensures req.title == "" || req.description == "" ==> r == Reply(Failure(InvalidArgument), s)
    ensures req.title != "" && req.description != "" && req.id !in View(s) ==>
      r == Reply(Failure(NotFound), s)
    ensures req.title != "" && req.description != "" && req.id in View(s) ==>
      && r.result == Success(UpdateToDoResponse(req.id))
      && View(r.store) == View(s)[req.id := Entry(req.title, req.description, req.toDoStatus)]
      && |r.store| == |s|
      && forall j :: 0 <= j < |s| ==> r.store[j].id == s[j].id
    ensures req.title != "" && req.description != "" && req.id in View(s) ==>
      var k := Find(s, req.id).value;
      forall j :: 0 <= j < |s| && j != k ==> r.store[j] == s[j]
    ensures Valid(s) ==> Valid(r.store)
  {
    if req.title == "" || req.description == "" then
      Reply(Failure(InvalidArgument), s)
    else
      match Find(s, req.id)
      case None => Reply(Failure(NotFound), s)
      case Some(i) =>
        var t := Replace(s, i, Entry(req.title, req.description, req.toDoStatus));
        Reply(Success(UpdateToDoResponse(s[i].id)), t)
  }

  /** Delete: reject a non-positive id, fail with NotFound when no record has it,
      otherwise remove that record and answer its id. */
  function DeleteToDo(s: Table, req: DeleteToDoRequest): (r: Reply<DeleteToDoResponse>)
    ensures req.id <= 0 ==> r == Reply(Failure(InvalidArgument), s)
    ensures req.id > 0 && req.id !in View(s) ==> r == Reply(Failure(NotFound), s)
    ensures req.id > 0 && req.id in View(s) ==>
      && r.result == Success(DeleteToDoResponse(req.id))
      && |r.store| == |s| - 1
      && (UniqueIds(s) ==> View(r.store) == View(s) - {req.id})
    ensures req.id > 0 && req.id in View(s) ==>
      var k := Find(s, req.id).value;
      && (forall j :: 0 <= j < k ==> r.store[j] == s[j])
      && (forall j :: k < j < |s| ==> r.store[j - 1] == s[j])
    ensures Valid(s) ==> Valid(r.store)
  {
    if req.id <= 0 then
      Reply(Failure(InvalidArgument), s)
    else
      match Find(s, req.id)
      case None => Reply(Failure(NotFound), s)
      case Some(i) => Reply(Success(DeleteToDoResponse(s[i].id)), RemoveAt(s, i))
  }
}
