/** Properties that relate several calls: what a read sees after a create, an
    update or a delete, how the full listing agrees with point reads, and two
    example runs of the handlers from an empty table.
 */
module TodoProperties {
  import opened Outcomes
  import opened TodoStore
  import opened TodoService
  import opened TodoCalls

  /** Reading the id a successful create answered gives back the title and
      description that were sent, with the default status. */
  lemma CreateThenRead(s: Table, req: CreateToDoRequest)
    requires CreateToDo(s, req).result.Success?
    ensures
      var c := CreateToDo(s, req);
      var id := c.result.value.id;
      ReadToDo(c.store, ReadToDoRequest(id)).result
        == Success(ReadToDoResponse(id, req.title, req.description, DefaultStatus))
  {
  }

  /** Two creates in a row with non-empty fields both succeed, with different ids. */
  lemma CreateTwiceDistinctIds(s: Table, a: CreateToDoRequest, b: CreateToDoRequest)
    requires a.title != "" && a.description != ""
    requires b.title != "" && b.description != ""
    ensures CreateToDo(s, a).result.value.id != CreateToDo(CreateToDo(s, a).store, b).result.value.id
  {
  }

  /** A create rejected for an empty field changes nothing the listing shows. */
  lemma RejectedCreateKeepsListing(s: Table, req: CreateToDoRequest)
    requires req.title == "" || req.description == ""
    ensures CreateToDo(s, req).result == Failure(InvalidArgument)
    ensures ReadToDoList(CreateToDo(s, req).store) == ReadToDoList(s)
  {
  }

  /** Reading the id of a successful update gives back exactly the fields sent. */
  lemma UpdateThenRead(s: Table, req: UpdateToDoRequest)
    requires UpdateToDo(s, req).result.Success?
    requires req.id > 0
    ensures ReadToDo(UpdateToDo(s, req).store, ReadToDoRequest(req.id)).result
      == Success(ReadToDoResponse(req.id, req.title, req.description, req.toDoStatus))
  {
  }

  /** An update of one id is invisible to reads of every other id. */
  lemma UpdateLeavesOthers(s: Table, req: UpdateToDoRequest, other: int)
    requires other != req.id
    ensures ReadToDo(UpdateToDo(s, req).store, ReadToDoRequest(other)).result == ReadToDo(s, ReadToDoRequest(other)).result
  {
  }

  /** Update has no sign check of its own, but in a `Valid` table no record has a
      non-positive id, so such an update with non-empty fields is NotFound. */
  lemma UpdateNonPositiveIdNotFound(s: Table, req: UpdateToDoRequest)
    requires Valid(s)
    requires req.id <= 0 && req.title != "" && req.description != ""
    ensures UpdateToDo(s, req) == Reply(Failure(NotFound), s)
  {
  }

  /** After a successful delete, reading the same id is NotFound. */
  lemma DeleteThenRead(s: Table, req: DeleteToDoRequest)
    requires UniqueIds(s)
    requires DeleteToDo(s, req).result.Success?
    ensures ReadToDo(DeleteToDo(s, req).store, ReadToDoRequest(req.id)).result == Failure(NotFound)
  {
  }

  /** A delete of one id is invisible to reads of every other id, in every table:
      the removed row is the first with its id, so it never hides another id. */
  lemma DeleteLeavesOthers(s: Table, req: DeleteToDoRequest, other: int)
    requires other != req.id
    ensures ReadToDo(DeleteToDo(s, req).store, ReadToDoRequest(other)).result == ReadToDo(s, ReadToDoRequest(other)).result
  {
    var d := DeleteToDo(s, req);
    if d.result.Success? {
      RemoveKeepsOther(s, Find(s, req.id).value, other);
    }
  }

  /** Create, then update the new record, then read it: the read answers the
      updated fields under the id the create assigned. */
  lemma CreateUpdateRead(s: Table, c: CreateToDoRequest, title: string, description: string, status: int)
    requires title != "" && description != ""
    requires CreateToDo(s, c).result.Success?
    ensures
      var created := CreateToDo(s, c);
      var id := created.result.value.id;
      var updated := UpdateToDo(created.store, UpdateToDoRequest(id, title, description, status));
      && updated.result == Success(UpdateToDoResponse(id))
      && ReadToDo(updated.store, ReadToDoRequest(id)).result
           == Success(ReadToDoResponse(id, title, description, status))
  {
  }

  /** In a table with unique ids, the listing is an enumeration of `View`: every
      listed record is what `View` holds for its id, every id is listed, and no
      id is listed twice. */
  lemma ListingEnumeratesView(s: Table)
    requires UniqueIds(s)
    ensures
      var listed := ReadToDoList(s).result.value.toDo;
      && (forall i :: 0 <= i < |listed| ==>
            listed[i].id in View(s)
            && View(s)[listed[i].id] == Entry(listed[i].title, listed[i].description, listed[i].toDoStatus))
      && (forall id :: id in View(s) ==> exists i :: 0 <= i < |listed| && listed[i].id == id)
      && (forall i, j :: 0 <= i < j < |listed| ==> listed[i].id != listed[j].id)
  {
  }

  /** In a `Valid` table, a point read of every listed id answers exactly the
      listed record. */
  lemma ListingAgreesWithRead(s: Table)
    requires Valid(s)
    ensures
      var listed := ReadToDoList(s).result.value.toDo;
      forall i :: 0 <= i < |listed| ==>
        ReadToDo(s, ReadToDoRequest(listed[i].id)).result == Success(listed[i])
  {
  }

  /** Listing twice with nothing in between answers the same records. */
  lemma ListingIsRepeatable(s: Table)
    ensures ReadToDoList(ReadToDoList(s).store) == ReadToDoList(s)
  {
  }

  /** An example run from an empty table: create "Buy milk" / "2%", read it,
      update its description and status, read it, delete it, read it. The id 1
      comes from `FreshId`'s policy (largest id + 1), not from its contract. */
  lemma BuyMilkScenario()
    ensures
      var created := CreateToDo([], CreateToDoRequest("Buy milk", "2%"));
      var read1 := ReadToDo(created.store, ReadToDoRequest(1));
      var updated := UpdateToDo(created.store, UpdateToDoRequest(1, "Buy milk", "Whole", 1));
      var read2 := ReadToDo(updated.store, ReadToDoRequest(1));
      var deleted := DeleteToDo(updated.store, DeleteToDoRequest(1));
      var read3 := ReadToDo(deleted.store, ReadToDoRequest(1));
      && created.result == Success(CreateToDoResponse(1))
      && read1.result == Success(ReadToDoResponse(1, "Buy milk", "2%", DefaultStatus))
      && updated.result == Success(UpdateToDoResponse(1))
      && read2.result == Success(ReadToDoResponse(1, "Buy milk", "Whole", 1))
      && deleted.result == Success(DeleteToDoResponse(1))
      && read3.result == Failure(NotFound)
      && deleted.store == []
  {
  }

  /** Under `FreshId`'s policy an id can come back: after the only record is
      deleted, the next create answers the deleted id again. */
  lemma DeletedIdIsReassigned()
    ensures
      var first := CreateToDo([], CreateToDoRequest("a", "b"));
      var deleted := DeleteToDo(first.store, DeleteToDoRequest(1));
      var second := CreateToDo(deleted.store, CreateToDoRequest("c", "d"));
      && first.result == Success(CreateToDoResponse(1))
      && deleted.result == Success(DeleteToDoResponse(1))
      && second.result == Success(CreateToDoResponse(1))
  {
  }

  /** An example run from an empty table: a create with an empty title fails with
      InvalidArgument, the table stays empty and the listing is empty. */
  lemma EmptyTitleScenario()
    ensures
      var created := CreateToDo([], CreateToDoRequest("", "x"));
      && created.result == Failure(InvalidArgument)
      && created.store == []
      && ReadToDoList(created.store).result == Success(GetAllResponse([]))
  {
  }
}
