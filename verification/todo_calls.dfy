/** The five handlers behind one dispatch function, and a run of calls one after
    another against the same table. Calls are handled one at a time: each sees the
    table the previous one left.
 */
module TodoCalls {
  import opened Outcomes
  import opened TodoStore
  import opened TodoService

  datatype Call =
    | Create(create: CreateToDoRequest)
    | Read(read: ReadToDoRequest)
    | ReadAll
    | Update(update: UpdateToDoRequest)
    | Delete(delete: DeleteToDoRequest)

  datatype Answer =
    | Created(created: CreateToDoResponse)
    | Found(found: ReadToDoResponse)
    | Listed(listed: GetAllResponse)
    | Updated(updated: UpdateToDoResponse)
    | Deleted(deleted: DeleteToDoResponse)

  function Wrap<T>(r: Reply<T>, f: T -> Answer): Reply<Answer> {
    match r.result
    case Success(v) => Reply(Success(f(v)), r.store)
    case Failure(c) => Reply(Failure(c), r.store)
  }

  /** Route one call to its handler. A failed call, and every query, leaves the
      table unchanged, and every call keeps the table `Valid`. */
  function Handle(s: Table, c: Call): (r: Reply<Answer>)
    ensures r.result.Failure? ==> r.store == s
    ensures c.Read? || c.ReadAll? ==> r.store == s
    ensures Valid(s) ==> Valid(r.store)
  {
    match c
    case Create(q) => Wrap(CreateToDo(s, q), v => Created(v))
    case Read(q) => Wrap(ReadToDo(s, q), v => Found(v))
    case ReadAll => Wrap(ReadToDoList(s), v => Listed(v))
    case Update(q) => Wrap(UpdateToDo(s, q), v => Updated(v))
    case Delete(q) => Wrap(DeleteToDo(s, q), v => Deleted(v))
  }

  /** Handle `calls` in order; returns every call's outcome and the final table. */
  function Run(s: Table, calls: seq<Call>): (r: (seq<Result<Answer>>, Table))
    ensures |r.0| == |calls|
    decreases |calls|
  {
    if |calls| == 0 then ([], s)
    else
      var first := Handle(s, calls[0]);
      var rest := Run(first.store, calls[1..]);
      ([first.result] + rest.0, rest.1)
  }

  /** Every run of calls from a `Valid` table ends in a `Valid` table. */
  lemma {:induction false} RunKeepsValid(s: Table, calls: seq<Call>)
    requires Valid(s)
    ensures Valid(Run(s, calls).1)
    decreases |calls|
  {
    if |calls| > 0 {
      RunKeepsValid(Handle(s, calls[0]).store, calls[1..]);
    }
  }

  /** A run in which every call fails leaves the table as it was. */
  lemma {:induction false} FailedRunLeavesTable(s: Table, calls: seq<Call>)
    requires forall i :: 0 <= i < |calls| ==> Run(s, calls).0[i].Failure?
    ensures Run(s, calls).1 == s
    decreases |calls|
  {
    if |calls| > 0 {
      var first := Handle(s, calls[0]);
      var rest := Run(first.store, calls[1..]);
      assert Run(s, calls).0 == [first.result] + rest.0;
      assert Run(s, calls).0[0] == first.result;
      forall i | 0 <= i < |calls| - 1 ensures rest.0[i].Failure? {
        assert Run(s, calls).0[i + 1] == rest.0[i];
      }
      FailedRunLeavesTable(first.store, calls[1..]);
    }
  }
}
