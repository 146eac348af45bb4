/**
 * The write side of the controller over an in-memory task table: `Post`
 * appends one record, `Put` overwrites six fields of one record in place,
 * `Delete` removes one record. Each either does exactly that or reports an
 * error and leaves the table as it was.
 */
module Controller {
  import opened Tasks
  import opened TaskQuery

  class TasksController {
    /** The task table, in insertion order. */
    var tasks: seq<TaskItem>
    /** The store's identity seed: the id the next inserted task receives. */
    var nextId: int

    /** Ids are unique primary keys, positive and below the seed. */
    ghost predicate Valid()
      reads this
    {
      && nextId >= 1
      && UniqueIds(tasks)
      && forall t :: t in tasks ==> 1 <= t.id < nextId
    }

    constructor ()
      ensures Valid() && tasks == [] && nextId == 1
    {
      tasks := [];
      nextId := 1;
    }

    /**
     * `Post(model)` by user `caller` at time `now`: BadInput for a missing
     * body; otherwise one new record with a fresh id, returned.
     */
    method Post(caller: string, model: Option<TaskRequest>, now: Date) returns (r: Response<int>)
      requires Valid()
      modifies this
      ensures Valid()
      ensures model.None? ==> r == BadInput && tasks == old(tasks) && nextId == old(nextId)
      ensures model.Some? ==>
                && r == Ok(old(nextId))
                && tasks == old(tasks) + [FromRequest(old(nextId), model.value, now, caller)]
                && nextId == old(nextId) + 1
      ensures r.Ok? ==> r.value >= 1 && forall t :: t in old(tasks) ==> t.id != r.value
      ensures r.Ok? ==> Lookup(tasks, r.value) == Ok(FromRequest(r.value, model.value, now, caller))
    {
      if model.None? {
        return BadInput;
      }
      var task := FromRequest(nextId, model.value, now, caller);
      LookupAfterAppend(tasks, task);
      tasks := tasks + [task];
      nextId := nextId + 1;
      r := Ok(task.id);
    }

    /**
     * `Put(id, model)`: BadInput for a missing id or body, NotFound for an
     * absent id; otherwise the six request fields of that record change.
     */
    method Put(id: Option<int>, model: Option<TaskRequest>) returns (r: Response<()>)
      requires Valid()
      modifies this
      ensures Valid() && nextId == old(nextId) && |tasks| == |old(tasks)|
      ensures id.None? || model.None? ==> r == BadInput && tasks == old(tasks)
      ensures id.Some? && model.Some? && Lookup(old(tasks), id.value).NotFound? ==>
                r == NotFound && tasks == old(tasks)
      ensures id.Some? && model.Some? && Lookup(old(tasks), id.value).Ok? ==>
                && r == Ok(())
                && Lookup(tasks, id.value) == Ok(Overwrite(Lookup(old(tasks), id.value).value, model.value))
      ensures id.Some? && model.Some? && IndexOf(old(tasks), id.value).Some? ==>
                var i := IndexOf(old(tasks), id.value).value;
                tasks == old(tasks)[i := Overwrite(old(tasks)[i], model.value)]
      ensures forall j :: 0 <= j < |tasks| ==>
                && tasks[j].id == old(tasks)[j].id
                && tasks[j].owner == old(tasks)[j].owner
                && tasks[j].createdAt == old(tasks)[j].createdAt
                && (tasks[j] == old(tasks)[j] || (r.Ok? && tasks[j].id == id.value))
    {
      if model.None? || id.None? {
        return BadInput;
      }
      match IndexOf(tasks, id.value)
      case None =>
        r := NotFound;
      case Some(i) =>
        LookupAfterOverwrite(tasks, i, model.value);
        tasks := tasks[i := Overwrite(tasks[i], model.value)];
        r := Ok(());
    }

    /**
     * `Delete(id)`: BadInput for a missing id, NotFound for an absent id;
     * otherwise exactly that record is removed.
     */
    method Delete(id: Option<int>) returns (r: Response<()>)
      requires Valid()
      modifies this
      ensures Valid() && nextId == old(nextId)
      ensures id.None? ==> r == BadInput && tasks == old(tasks)
      ensures id.Some? && Lookup(old(tasks), id.value).NotFound? ==> r == NotFound && tasks == old(tasks)
      ensures id.Some? && Lookup(old(tasks), id.value).Ok? ==>
                && r == Ok(())
                && Lookup(tasks, id.value) == NotFound
                && |tasks| == |old(tasks)| - 1
      ensures id.Some? && IndexOf(old(tasks), id.value).Some? ==>
                var i := IndexOf(old(tasks), id.value).value;
                tasks == old(tasks)[..i] + old(tasks)[i + 1..]
      ensures forall t :: t in old(tasks) && (id.None? || t.id != id.value) ==> t in tasks
      ensures forall t :: t in tasks ==> t in old(tasks)
    {
      if id.None? {
        return BadInput;
      }
      match IndexOf(tasks, id.value)
      case None =>
        r := NotFound;
      case Some(i) =>
        LookupAfterRemove(tasks, i);
        ghost var before := tasks;
        tasks := tasks[..i] + tasks[i + 1..];
        assert forall t :: t in before && t.id != id.value ==> t in tasks by {
          forall t | t in before && t.id != id.value ensures t in tasks {
            var j :| 0 <= j < |before| && before[j] == t;
            assert Lookup(tasks, before[j].id) == Ok(before[j]);
          }
        }
        r := Ok(());
    }
  }

  /** Create, fetch, delete, fetch again: the round trip a client sees. */
  method CreateFetchDelete(c: TasksController, caller: string, m: TaskRequest, now: Date)
    requires c.Valid()
    modifies c
    ensures c.Valid()
  {
    var created := c.Post(caller, Some(m), now);
    var id := created.value;
    var found := Lookup(c.tasks, id);
    assert found.Ok? && CarriesRequest(found.value, m) && found.value.owner == caller;
    var deleted := c.Delete(Some(id));
    assert deleted == Ok(());
    assert Lookup(c.tasks, id) == NotFound;
  }
}
