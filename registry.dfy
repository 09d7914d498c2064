/**
 * The server's module-level `tasks` array and the bodies of its task
 * handlers. Each handler is a method on the registry object; a write
 * method's answer and new array are exactly what the matching function of
 * RegistrySpec gives for the old array.
 */
module Server {
  import opened TaskModel
  import opened RegistrySpec

  class TaskRegistry {
    /** Every record ever created, tombstones included, in insertion order. */
    var tasks: seq<Task>

    constructor ()
      ensures tasks == []
    {
      tasks := [];
    }

    /** GET /tasks: the whole array, unfiltered. */
    method List() returns (r: seq<Task>)
      ensures r == tasks
    {
      r := tasks;
    }

    /** GET /tasks/:id */
    method Get(id: string) returns (r: Result<Task>)
      ensures r == GetTask(tasks, id)
    {
      var found := FindTask(tasks, id);
      if found.None? {
        return Err(NotFound);
      }
      r := Ok(tasks[found.value]);
    }

    /** POST /tasks; `freshId` is the value `uuid()` would produce. */
    method Create(body: CreateBody, freshId: string) returns (r: Result<Task>)
      modifies this
      ensures Step(tasks, r) == CreateStep(old(tasks), body, freshId)
    {
      if !Truthy(body.title) || !Truthy(body.updatedAt) {
        return Err(InvalidArgument);
      }
      var id := if Truthy(body.id) then body.id.value else freshId;
      var completed := if body.completed.Some? then body.completed.value else false;
      var task := Task(id, body.title.value, completed, body.updatedAt.value, false);
      tasks := tasks + [task];
      r := Ok(task);
    }

    /** PUT /tasks/:id: the fields of the first match are overwritten one by one. */
    method Upsert(id: string, body: UpsertBody) returns (r: Result<Task>)
      modifies this
      ensures Step(tasks, r) == UpsertStep(old(tasks), id, body)
    {
      if !Truthy(body.updatedAt) {
        return Err(InvalidArgument);
      }
      var found := FindTask(tasks, id);
      if found.None? {
        var task := Task(id, if Truthy(body.title) then body.title.value else "",
                         body.completed == Some(true), body.updatedAt.value,
                         body.deleted == Some(true));
        tasks := tasks + [task];
        return Ok(task);
      }
      var i := found.value;
      var task := tasks[i];
      if body.title.Some? {
        task := task.(title := body.title.value);
      }
      if body.completed.Some? {
        task := task.(completed := body.completed.value);
      }
      task := task.(updatedAt := body.updatedAt.value);
      if body.deleted.Some? {
        task := task.(deleted := body.deleted.value);
      }
      assert task == Patched(tasks[i], body);
      tasks := tasks[i := task];
      r := Ok(task);
    }

    /**
     * DELETE /tasks/:id; `updatedAt` is the optional body field and `now`
     * the current time as an ISO-8601 string.
     */
    method SoftDelete(id: string, updatedAt: Option<string>, now: string) returns (r: Result<()>)
      modifies this
      ensures Step(tasks, r) == SoftDeleteStep(old(tasks), id, updatedAt, now)
    {
      var found := FindTask(tasks, id);
      if found.None? {
        return Err(NotFound);
      }
      var i := found.value;
      tasks := tasks[i := tasks[i].(deleted := true)];
      tasks := tasks[i := tasks[i].(updatedAt := if updatedAt.Some? then updatedAt.value else now)];
      r := Ok(());
    }
  }
}
