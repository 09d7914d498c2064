/**
 * The registry operations as functions of the task sequence: each write
 * operation gives the new sequence together with the handler's answer.
 * The class in module Server is proved against these functions.
 */
module RegistrySpec {
  import opened TaskModel

  /** The new task sequence and the operation's answer. */
  datatype Step<R> = Step(tasks: seq<Task>, result: Result<R>)

  /** Some record in `tasks` carries `id`. */
  predicate HasId(tasks: seq<Task>, id: string)
  {
    exists i :: 0 <= i < |tasks| && tasks[i].id == id
  }

  /** No two records share an id. */
  predicate UniqueIds(tasks: seq<Task>)
  {
    forall i, j :: 0 <= i < j < |tasks| ==> tasks[i].id != tasks[j].id
  }

  /**
   * findTask: the position of the record `Array.prototype.find` returns,
   * that is the first one in array order whose id equals `id`.
   */
  function FindTask(tasks: seq<Task>, id: string): (r: Option<nat>)
    ensures r.Some? ==> r.value < |tasks| && tasks[r.value].id == id
    ensures r.Some? ==> forall j :: 0 <= j < r.value ==> tasks[j].id != id
    ensures r.None? <==> !HasId(tasks, id)
  {
    if tasks == [] then None
    else if tasks[0].id == id then Some(0)
    else
      match FindTask(tasks[1..], id)
      case None => None
      case Some(k) => Some(k + 1)
  }

  /** GET /tasks/:id — the first record with that id, or NotFound. */
  function GetTask(tasks: seq<Task>, id: string): (r: Result<Task>)
    ensures r.Ok? <==> HasId(tasks, id)
    ensures r.Err? ==> r.error == NotFound
    ensures r.Ok? ==> r.value.id == id && r.value in tasks
    ensures r.Ok? ==> exists i :: 0 <= i < |tasks| && tasks[i] == r.value &&
                        forall k :: 0 <= k < i ==> tasks[k].id != id
  {
    match FindTask(tasks, id)
    case None => Err(NotFound)
    case Some(i) => Ok(tasks[i])
  }

  /** The id a create request gets: `id || uuid()`. */
  function CreatedId(body: CreateBody, freshId: string): string
  {
    if Truthy(body.id) then body.id.value else freshId
  }

  /** The record a valid create stores: `completed` defaults to false, `deleted` is false. */
  function CreatedRecord(body: CreateBody, freshId: string): Task
    requires body.title.Some? && body.updatedAt.Some?
  {
    Task(CreatedId(body, freshId), body.title.value,
         OrElse(body.completed, false), body.updatedAt.value, false)
  }

  /** POST /tasks: validate, then append without looking for the id. */
  function CreateStep(tasks: seq<Task>, body: CreateBody, freshId: string): (s: Step<Task>)
    ensures s.result.Err? <==> !Truthy(body.title) || !Truthy(body.updatedAt)
    ensures s.result.Err? ==> s.result.error == InvalidArgument && s.tasks == tasks
    ensures s.result.Ok? ==> s.tasks == tasks + [s.result.value]
    ensures s.result.Ok? ==>
      && s.result.value.id == (if Truthy(body.id) then body.id.value else freshId)
      && s.result.value.title == body.title.value && s.result.value.title != ""
      && s.result.value.completed == OrElse(body.completed, false)
      && s.result.value.updatedAt == body.updatedAt.value && s.result.value.updatedAt != ""
      && !s.result.value.deleted
  {
    if !Truthy(body.title) || !Truthy(body.updatedAt) then
      Step(tasks, Err(InvalidArgument))
    else
      var task := CreatedRecord(body, freshId);
      Step(tasks + [task], Ok(task))
  }

  /** The record an upsert on a missing id materialises. */
  function FreshRecord(id: string, body: UpsertBody): Task
    requires body.updatedAt.Some?
  {
    Task(id, if Truthy(body.title) then body.title.value else "",
         ToBool(body.completed), body.updatedAt.value, ToBool(body.deleted))
  }

  /** The record an upsert on a hit leaves behind: `??` per field, no timestamp check. */
  function Patched(task: Task, body: UpsertBody): Task
    requires body.updatedAt.Some?
  {
    task.(title := OrElse(body.title, task.title),
          completed := OrElse(body.completed, task.completed),
          updatedAt := body.updatedAt.value,
          deleted := OrElse(body.deleted, task.deleted))
  }

  /** PUT /tasks/:id: append on a miss, patch the first match on a hit. */
  function UpsertStep(tasks: seq<Task>, id: string, body: UpsertBody): (s: Step<Task>)
    ensures s.result.Err? <==> !Truthy(body.updatedAt)
    ensures s.result.Err? ==> s.result.error == InvalidArgument && s.tasks == tasks
    ensures s.result.Ok? ==> s.result.value.id == id && s.result.value.updatedAt == body.updatedAt.value
    ensures s.result.Ok? && !HasId(tasks, id) ==>
      && s.tasks == tasks + [s.result.value]
      && s.result.value.title == (if Truthy(body.title) then body.title.value else "")
      && s.result.value.completed == (body.completed == Some(true))
      && s.result.value.deleted == (body.deleted == Some(true))
    ensures s.result.Ok? && HasId(tasks, id) ==>
      var i := FindTask(tasks, id).value;
      && |s.tasks| == |tasks|
      && s.tasks[i] == s.result.value
      && (forall j :: 0 <= j < |tasks| && j != i ==> s.tasks[j] == tasks[j])
      && s.result.value.title == (if body.title.Some? then body.title.value else tasks[i].title)
      && s.result.value.completed == (if body.completed.Some? then body.completed.value else tasks[i].completed)
      && s.result.value.deleted == (if body.deleted.Some? then body.deleted.value else tasks[i].deleted)
  {
    if !Truthy(body.updatedAt) then
      Step(tasks, Err(InvalidArgument))
    else
      match FindTask(tasks, id)
      case None =>
        var task := FreshRecord(id, body);
        Step(tasks + [task], Ok(task))
      case Some(i) =>
        var task := Patched(tasks[i], body);
        Step(tasks[i := task], Ok(task))
  }

  /** DELETE /tasks/:id: tombstone the first match, whatever its timestamp. */
  function SoftDeleteStep(tasks: seq<Task>, id: string, updatedAt: Option<string>, now: string): (s: Step<()>)
    ensures s.result.Err? <==> !HasId(tasks, id)
    ensures s.result.Err? ==> s.result.error == NotFound && s.tasks == tasks
    ensures s.result.Ok? ==>
      var i := FindTask(tasks, id).value;
      && |s.tasks| == |tasks|
      && s.tasks[i].deleted
      && s.tasks[i].id == tasks[i].id
      && s.tasks[i].title == tasks[i].title
      && s.tasks[i].completed == tasks[i].completed
      && s.tasks[i].updatedAt == (if updatedAt.Some? then updatedAt.value else now)
      && (forall j :: 0 <= j < |tasks| && j != i ==> s.tasks[j] == tasks[j])
  {
    match FindTask(tasks, id)
    case None => Step(tasks, Err(NotFound))
    case Some(i) =>
      var task := tasks[i].(deleted := true, updatedAt := OrElse(updatedAt, now));
      Step(tasks[i := task], Ok(()))
  }
}
