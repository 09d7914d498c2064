# Task registry of the offline-first task server

This project models the in-memory task registry of the task synchronisation
server (`server/index.js`). The server keeps one module-level array `tasks`
of task records `{id, title, completed, updatedAt, deleted}`. Its HTTP
handlers list the array, get one record by id, create a record, upsert a
record by id, and soft-delete a record by marking it as a tombstone.

Layout:

- `task.dfy` (module `TaskModel`) holds the task record, the request bodies,
  the error kinds, and three pieces of JavaScript value semantics the
  handlers rely on:
  - `Truthy` is `!x` / `||` on a string field, where absent, null and `""`
    all count as missing.
  - `OrElse` is `??`, where only absent or null count as missing.
  - `ToBool` is `!!x` on a boolean field.
- `registry_spec.dfy` (module `RegistrySpec`) gives every operation as a
  function of the task sequence. It returns the new sequence together with
  the handler's answer (`Step`). `findTask` is `FindTask`: the position of
  the first record in array order whose id matches.
- `registry.dfy` (module `Server`) is the class `TaskRegistry`. It holds
  the `tasks` sequence as a field that its methods reassign, with one
  method per handler:
  - `List` returns the sequence itself.
  - `Get` answers exactly as `GetTask` on the current sequence.
  - `Create`, `Upsert` and `SoftDelete` are proved to leave exactly the new
    sequence, and give exactly the answer, of `CreateStep`, `UpsertStep` and
    `SoftDeleteStep` on the old one.
- `registry_properties.dfy` (module `RegistryProperties`) holds the lemmas
  that relate several operations:
  - what a later get sees after each write;
  - which writes keep ids unique;
  - replayed and reordered writes;
  - what a run of requests (`Replay`) does to the list as a whole.

The model follows the code as written:

- Upsert never compares the incoming `updatedAt` with the stored one.
  `UpsertLaterCallWins` and `UpsertsDoNotCommute` show that the last call
  wins, not the latest timestamp, so reordered writes do not converge.
- Soft delete does not compare timestamps either.
- Create never looks for an existing id. `CreateUniqueIds` and
  `CreateReplayDuplicates` show that it can store two records with one id,
  and that get then only ever sees the first.

Three properties one might expect of a task store do not hold for this
code: unique ids, terminal deletion and last-write-wins merging by
`updatedAt`. The model follows the code, and the lemmas show each gap:

- create may store a second record with an existing id;
- an upsert with `deleted: false` revives a tombstone
  (`UpsertRevivesTombstone`);
- the last call wins, whatever the timestamps.

Upsert rejects a missing `updatedAt` and also an empty one, because the
check is `!updatedAt`. The model does the same.

The non-deterministic inputs are parameters:

- `freshId` stands for the value `uuid()` returns. It is used only when the
  body's id is missing or empty, and no freshness is assumed.
- `now` stands for `new Date().toISOString()`.

## Model

| member | source | states |
|---|---|---|
| RegistrySpec.FindTask | server/index.js:19-21 | The result is the index of the first record whose id equals the argument. No earlier record carries that id. It is None exactly when no record carries it. |
| RegistrySpec.GetTask | server/index.js:29-35 | The result is Ok exactly when some record has the id, and it is that id's first record in array order. Otherwise it is NotFound. |
| RegistrySpec.CreateStep | server/index.js:38-53 | Fails with InvalidArgument, leaving tasks unchanged, exactly when title or updatedAt is missing or empty. Otherwise it appends exactly one record at the end. That record's id is the body's id if non-empty, else the fresh id; its title and updatedAt are as given, completed defaults to false, and deleted is false. Existing ids are not checked. |
| RegistrySpec.UpsertStep | server/index.js:56-81 | Fails with InvalidArgument, leaving tasks unchanged, exactly when updatedAt is missing or empty. On a miss it appends one record: the path id, title or "", and completed/deleted true only when supplied true. On a hit the length is unchanged and only the first match changes: each of title/completed/deleted takes the supplied value (even "") or keeps the old one, and updatedAt is overwritten with no comparison. |
| RegistrySpec.SoftDeleteStep | server/index.js:84-92 | Fails with NotFound, leaving tasks unchanged, exactly when no record has the id. Otherwise only the first match changes. It becomes deleted, keeps id, title and completed, and its updatedAt becomes the supplied value (even "") or else now, whatever the stored timestamp. The record stays in the array. |
| Server.TaskRegistry.constructor | server/index.js:17 | The registry starts with an empty task array. |
| Server.TaskRegistry.List | server/index.js:24-26 | Returns the whole array unfiltered, tombstones included. |
| Server.TaskRegistry.Get | server/index.js:29-35 | Answers as GetTask on the current array and changes nothing. |
| Server.TaskRegistry.Create | server/index.js:38-53 | The new array and the answer are those of CreateStep on the old array. |
| Server.TaskRegistry.Upsert | server/index.js:56-81 | The new array and the answer are those of UpsertStep on the old array. A hit overwrites the found record's fields one by one. |
| Server.TaskRegistry.SoftDelete | server/index.js:84-92 | The new array and the answer are those of SoftDeleteStep on the old array. |
| RegistryProperties.FindTaskAppend | server/index.js:19-21 | Appending a record never changes what findTask finds for an id already present. The appended record is found only when no earlier record has its id. |
| RegistryProperties.FirstMatchIsFound | server/index.js:19-21 | A position that holds the id, with no earlier position holding it, is exactly what findTask returns. |
| RegistryProperties.FindTaskAfterPatch | server/index.js:19-21 | Overwriting the found record with one of the same id leaves findTask at the same position. |
| RegistryProperties.CreateThenGet | server/index.js:44-51 | After a successful create, get on the new id returns the new record if the id was absent. Otherwise it returns the earlier record, which shadows the new one. |
| RegistryProperties.CreateUniqueIds | server/index.js:44-51 | On an array with unique ids, a successful create keeps ids unique exactly when its id was not already present. |
| RegistryProperties.CreateReplayDuplicates | server/index.js:38-53 | Sending the same create with an explicit id twice gives the same answer twice. The array grows by two identical records, ids are no longer unique, and get still returns the first. |
| RegistryProperties.UpsertThenGet | server/index.js:62-80 | After a successful upsert, on a miss or on a hit, get on the path id returns exactly the record the upsert answered with. |
| RegistryProperties.UpsertPreservesUniqueIds | server/index.js:62-78 | Upsert, successful or not, keeps ids unique. |
| RegistryProperties.UpsertIdempotent | server/index.js:56-81 | Applying the same upsert a second time changes neither the array nor the answer. |
| RegistryProperties.UpsertLaterCallWins | server/index.js:75-78 | After two upserts on one id, where the second supplies every field, get returns the second write's record whatever the first wrote and whatever the timestamps. |
| RegistryProperties.UpsertsDoNotCommute | server/index.js:75-78 | There are two valid upserts on one id, with non-empty and distinct timestamps, whose two application orders leave different arrays. Reordered writes do not converge on the later timestamp. |
| RegistryProperties.UpsertRevivesTombstone | server/index.js:78 | An upsert with deleted set to false on a tombstoned record leaves it live, so deletion is not terminal. |
| RegistryProperties.SoftDeleteThenGet | server/index.js:84-92 | After a successful soft delete, get still finds the record. It is the old record with deleted set and updatedAt replaced, and nothing else changed. |
| RegistryProperties.SoftDeletePreservesUniqueIds | server/index.js:84-92 | Soft delete keeps ids unique. |
| RegistryProperties.ReplayExtends | server/index.js:17-92 | Any run of create, upsert and delete requests keeps every earlier record at its position with its id. The list never shrinks and stays in insertion order. |
| RegistryProperties.StoreAppends | server/index.js:38-72 | A valid create, or a valid upsert, whose id is absent appends exactly the record it stores. |
| RegistryProperties.FreshWritesAppend | server/index.js:38-72 | A run of valid creates and upserts on distinct absent ids appends, in request order, exactly the records they store. |
| RegistryProperties.FreshWritesListed | server/index.js:38-72 | N valid creates and upserts on distinct absent ids grow the list by exactly N. Get on each of those ids returns the record its request wrote. |

## Left out

- Express setup, CORS, JSON body parsing, route matching, status codes, response bodies, the `/health` route, the error middleware, `app.listen`, logging and the SIGINT handler (server/index.js:1-15, 93-120). These are transport and process lifecycle. Each handler is reduced to its answer: the record, `()`, or an error kind.
- `uuid()` is a foreign library call. It becomes the `freshId` parameter, and whether that id is really fresh is not modelled.
- `new Date().toISOString()` reads the wall clock. It becomes the `now` parameter.
- Body values are assumed to have the JSON types the handlers expect: strings for id, title and updatedAt, booleans for completed and deleted. A number or object in one of these fields, and its JavaScript truthiness, is not modelled.
- `None` stands for both undefined and null. In the code, create's default `completed = false` applies only to undefined, so a create with `completed: null` stores null. The model stores false.
- Record identity and aliasing are not modelled. The code mutates the object findTask returns, and the handler answers with that same object. The model replaces the record at the found position with an updated value, which gives the same stored state and the same answer.
- Concurrency: the handlers run one at a time on the event loop, so requests are modelled as a sequence.
