/**
 * Properties that relate several registry operations: what a later get sees
 * after each write, which writes keep ids unique, replayed and reordered
 * writes, and what a sequence of writes does to the array as a whole.
 */
module RegistryProperties {
  import opened TaskModel
  import opened RegistrySpec

  /** findTask on an array grown by one record at the end. */
  lemma {:induction false} FindTaskAppend(tasks: seq<Task>, t: Task, id: string)
    ensures FindTask(tasks + [t], id) ==
      if HasId(tasks, id) then FindTask(tasks, id)
      else if t.id == id then Some(|tasks|)
      else None
  {
    var s := tasks + [t];
    if HasId(tasks, id) {
      var i := FindTask(tasks, id).value;
      assert s[i].id == id;
      FirstMatchIsFound(s, id, i);
    } else if t.id == id {
      assert s[|tasks|].id == id;
      FirstMatchIsFound(s, id, |tasks|);
    } else {
      assert !HasId(s, id) by {
        forall j | 0 <= j < |s| ensures s[j].id != id {
          if j < |tasks| { assert s[j] == tasks[j]; }
        }
      }
    }
  }

  /** A position holding `id` with no earlier `id` is the one findTask returns. */
  lemma FirstMatchIsFound(tasks: seq<Task>, id: string, i: nat)
    requires i < |tasks| && tasks[i].id == id
    requires forall j :: 0 <= j < i ==> tasks[j].id != id
    ensures FindTask(tasks, id) == Some(i)
  {
    assert HasId(tasks, id);
  }

  /** Replacing the found record by one with the same id leaves findTask where it was. */
  lemma FindTaskAfterPatch(tasks: seq<Task>, id: string, t: Task)
    requires HasId(tasks, id) && t.id == id
    ensures var i := FindTask(tasks, id).value;
            FindTask(tasks[i := t], id) == Some(i)
  {
    var i := FindTask(tasks, id).value;
    var s := tasks[i := t];
    forall j | 0 <= j < i ensures s[j].id != id {
      assert s[j] == tasks[j];
    }
    FirstMatchIsFound(s, id, i);
  }

  /**
   * After a successful create, a get for the new id returns the new record
   * only when no record had that id before; otherwise the earlier record
   * keeps shadowing it.
   */
  lemma CreateThenGet(tasks: seq<Task>, body: CreateBody, freshId: string)
    requires CreateStep(tasks, body, freshId).result.Ok?
    ensures var s := CreateStep(tasks, body, freshId);
            var t := s.result.value;
            GetTask(s.tasks, t.id) == if HasId(tasks, t.id) then GetTask(tasks, t.id) else Ok(t)
  {
    var s := CreateStep(tasks, body, freshId);
    FindTaskAppend(tasks, s.result.value, s.result.value.id);
  }

  /** Create keeps ids unique exactly when the id it uses is not taken yet. */
  lemma CreateUniqueIds(tasks: seq<Task>, body: CreateBody, freshId: string)
    requires UniqueIds(tasks)
    requires CreateStep(tasks, body, freshId).result.Ok?
    ensures var s := CreateStep(tasks, body, freshId);
            UniqueIds(s.tasks) <==> !HasId(tasks, s.result.value.id)
  {
    var s := CreateStep(tasks, body, freshId);
    var t := s.result.value;
    if HasId(tasks, t.id) {
      var i :| 0 <= i < |tasks| && tasks[i].id == t.id;
      assert s.tasks[i].id == s.tasks[|tasks|].id;
    }
  }

  /**
   * Sending the same create with an explicit id twice stores two records with
   * that id; a later get only ever sees the first of them.
   */
  lemma CreateReplayDuplicates(tasks: seq<Task>, body: CreateBody, freshId1: string, freshId2: string)
    requires Truthy(body.id) && Truthy(body.title) && Truthy(body.updatedAt)
    ensures var s1 := CreateStep(tasks, body, freshId1);
            var s2 := CreateStep(s1.tasks, body, freshId2);
            && s2.result == s1.result
            && |s2.tasks| == |tasks| + 2
            && s2.tasks[|tasks|] == s2.tasks[|tasks| + 1]
            && !UniqueIds(s2.tasks)
            && GetTask(s2.tasks, body.id.value) == GetTask(s1.tasks, body.id.value)
  {
    var s1 := CreateStep(tasks, body, freshId1);
    var s2 := CreateStep(s1.tasks, body, freshId2);
    assert s2.tasks[|tasks|].id == s2.tasks[|tasks| + 1].id;
    CreateThenGet(s1.tasks, body, freshId2);
    assert s1.tasks[|tasks|].id == body.id.value;
  }

  /** After a successful upsert, a get for the path id returns the written record. */
  lemma UpsertThenGet(tasks: seq<Task>, id: string, body: UpsertBody)
    requires UpsertStep(tasks, id, body).result.Ok?
    ensures var s := UpsertStep(tasks, id, body);
            GetTask(s.tasks, id) == s.result
  {
    var s := UpsertStep(tasks, id, body);
    if HasId(tasks, id) {
      FindTaskAfterPatch(tasks, id, s.result.value);
      assert s.tasks == tasks[FindTask(tasks, id).value := s.result.value];
    } else {
      FindTaskAppend(tasks, s.result.value, id);
    }
  }

  /** Upsert never breaks id uniqueness: it appends only for an id that is absent. */
  lemma UpsertPreservesUniqueIds(tasks: seq<Task>, id: string, body: UpsertBody)
    requires UniqueIds(tasks)
    ensures UniqueIds(UpsertStep(tasks, id, body).tasks)
  {
    var s := UpsertStep(tasks, id, body);
    if s.result.Ok? && HasId(tasks, id) {
      var i := FindTask(tasks, id).value;
      forall j, k | 0 <= j < k < |s.tasks| ensures s.tasks[j].id != s.tasks[k].id {
        assert s.tasks[j].id == tasks[j].id && s.tasks[k].id == tasks[k].id;
      }
    }
  }

  /** Replaying an upsert has no further effect: the second copy changes nothing. */
  lemma UpsertIdempotent(tasks: seq<Task>, id: string, body: UpsertBody)
    ensures var s1 := UpsertStep(tasks, id, body);
            UpsertStep(s1.tasks, id, body) == s1
  {
    var s1 := UpsertStep(tasks, id, body);
    if s1.result.Ok? {
      UpsertThenGet(tasks, id, body);
      var i := FindTask(s1.tasks, id).value;
      assert Patched(s1.tasks[i], body) == s1.tasks[i];
      assert s1.tasks[i := s1.tasks[i]] == s1.tasks;
    }
  }

  /**
   * The later call wins, whatever the timestamps: an upsert that supplies
   * every field leaves the record it gives, no matter what an earlier
   * upsert on the same id wrote, even one with a later updatedAt.
   */
  lemma UpsertLaterCallWins(tasks: seq<Task>, id: string, first: UpsertBody, second: UpsertBody)
    requires Truthy(second.updatedAt)
    requires second.title.Some?
    requires second.completed.Some? && second.deleted.Some?
    ensures var s1 := UpsertStep(tasks, id, first);
            GetTask(UpsertStep(s1.tasks, id, second).tasks, id)
              == Ok(Task(id, second.title.value, second.completed.value,
                         second.updatedAt.value, second.deleted.value))
  {
    var s1 := UpsertStep(tasks, id, first);
    UpsertThenGet(s1.tasks, id, second);
  }

  /**
   * Upserts do not commute: two valid writes with distinct timestamps,
   * applied in the two orders, leave different records, so the registry
   * does not converge on the write with the latest updatedAt.
   */
  lemma UpsertsDoNotCommute()
    ensures exists id: string, early: UpsertBody, late: UpsertBody ::
      Truthy(early.updatedAt) && Truthy(late.updatedAt) && early.updatedAt != late.updatedAt &&
      var ab := UpsertStep(UpsertStep([], id, early).tasks, id, late).tasks;
      var ba := UpsertStep(UpsertStep([], id, late).tasks, id, early).tasks;
      ab != ba
  {
    var early := UpsertBody(Some("draft"), None, Some("2024-01-01T00:00:00Z"), None);
    var late := UpsertBody(Some("final"), None, Some("2024-01-02T00:00:00Z"), None);
    var ab := UpsertStep(UpsertStep([], "x", early).tasks, "x", late).tasks;
    var ba := UpsertStep(UpsertStep([], "x", late).tasks, "x", early).tasks;
    UpsertThenGet(UpsertStep([], "x", early).tasks, "x", late);
    UpsertThenGet(UpsertStep([], "x", late).tasks, "x", early);
    assert GetTask(ab, "x").value.title == "final";
    assert GetTask(ba, "x").value.title == "draft";
  }

  /** An upsert with `deleted: false` brings a tombstoned record back to life. */
  lemma UpsertRevivesTombstone(tasks: seq<Task>, id: string, body: UpsertBody)
    requires GetTask(tasks, id).Ok? && GetTask(tasks, id).value.deleted
    requires Truthy(body.updatedAt) && body.deleted == Some(false)
    ensures var s := UpsertStep(tasks, id, body);
            GetTask(s.tasks, id).Ok? && !GetTask(s.tasks, id).value.deleted
  {
    UpsertThenGet(tasks, id, body);
  }

  /**
   * After a soft delete the record is still there: a get finds it as a
   * tombstone with its title and completed flag kept.
   */
  lemma SoftDeleteThenGet(tasks: seq<Task>, id: string, updatedAt: Option<string>, now: string)
    requires SoftDeleteStep(tasks, id, updatedAt, now).result.Ok?
    ensures var s := SoftDeleteStep(tasks, id, updatedAt, now);
            var before := GetTask(tasks, id);
            var after := GetTask(s.tasks, id);
            && after.Ok?
            && after.value == before.value.(deleted := true, updatedAt := OrElse(updatedAt, now))
  {
    var s := SoftDeleteStep(tasks, id, updatedAt, now);
    var i := FindTask(tasks, id).value;
    FindTaskAfterPatch(tasks, id, s.tasks[i]);
    assert s.tasks == tasks[i := s.tasks[i]];
  }

  /** Soft delete never breaks id uniqueness. */
  lemma SoftDeletePreservesUniqueIds(tasks: seq<Task>, id: string, updatedAt: Option<string>, now: string)
    requires UniqueIds(tasks)
    ensures UniqueIds(SoftDeleteStep(tasks, id, updatedAt, now).tasks)
  {
    var s := SoftDeleteStep(tasks, id, updatedAt, now);
    if s.result.Ok? {
      forall j, k | 0 <= j < k < |s.tasks| ensures s.tasks[j].id != s.tasks[k].id {
        assert s.tasks[j].id == tasks[j].id && s.tasks[k].id == tasks[k].id;
      }
    }
  }

  /** One write request, with the values uuid() and the clock would supply. */
  datatype Request =
    | CreateReq(body: CreateBody, freshId: string)
    | UpsertReq(id: string, patch: UpsertBody)
    | DeleteReq(id: string, updatedAt: Option<string>, now: string)

  /** The array after one request, successful or not. */
  function Apply(tasks: seq<Task>, req: Request): seq<Task>
  {
    match req
    case CreateReq(body, freshId) => CreateStep(tasks, body, freshId).tasks
    case UpsertReq(id, body) => UpsertStep(tasks, id, body).tasks
    case DeleteReq(id, updatedAt, now) => SoftDeleteStep(tasks, id, updatedAt, now).tasks
  }

  /** The array after the requests, handled one at a time in order. */
  function Replay(tasks: seq<Task>, reqs: seq<Request>): seq<Task>
    decreases |reqs|
  {
    if reqs == [] then tasks else Replay(Apply(tasks, reqs[0]), reqs[1..])
  }

  /** `after` keeps every record of `before` at its position and id. */
  predicate Extends(before: seq<Task>, after: seq<Task>)
  {
    |before| <= |after| && forall i :: 0 <= i < |before| ==> after[i].id == before[i].id
  }

  /**
   * No request removes a record or moves it: the list keeps every record,
   * tombstones included, in the order it was first stored.
   */
  lemma {:induction false} ReplayExtends(tasks: seq<Task>, reqs: seq<Request>)
    ensures Extends(tasks, Replay(tasks, reqs))
    decreases |reqs|
  {
    if reqs != [] {
      var next := Apply(tasks, reqs[0]);
      assert Extends(tasks, next) by {
        match reqs[0]
        case CreateReq(body, freshId) =>
        case UpsertReq(id, body) =>
        case DeleteReq(id, updatedAt, now) =>
      }
      ReplayExtends(next, reqs[1..]);
    }
  }

  /** A request that stores a record when its id is absent: a valid create or a valid upsert. */
  predicate Stores(req: Request)
  {
    match req
    case CreateReq(body, _) => Truthy(body.title) && Truthy(body.updatedAt)
    case UpsertReq(_, patch) => Truthy(patch.updatedAt)
    case DeleteReq(_, _, _) => false
  }

  /** The id a request writes to: the created id, or the path id. */
  function TargetId(req: Request): string
  {
    match req
    case CreateReq(body, freshId) => CreatedId(body, freshId)
    case UpsertReq(id, _) => id
    case DeleteReq(id, _, _) => id
  }

  /** The record a storing request appends when its id is absent. */
  function StoredRecord(req: Request): (t: Task)
    requires Stores(req)
    ensures t.id == TargetId(req)
  {
    match req
    case CreateReq(body, freshId) => CreatedRecord(body, freshId)
    case UpsertReq(id, patch) => FreshRecord(id, patch)
  }

  /**
   * Every request is a valid create or a valid upsert, on an id that is
   * absent from `tasks` and written by no other request of the run.
   */
  predicate FreshWrites(tasks: seq<Task>, reqs: seq<Request>)
  {
    && (forall k :: 0 <= k < |reqs| ==> Stores(reqs[k]))
    && (forall k :: 0 <= k < |reqs| ==> !HasId(tasks, TargetId(reqs[k])))
    && (forall k, m :: 0 <= k < m < |reqs| ==> TargetId(reqs[k]) != TargetId(reqs[m]))
  }

  /** The records a run of fresh writes appends, in request order. */
  function StoredRecords(reqs: seq<Request>): (r: seq<Task>)
    requires forall k :: 0 <= k < |reqs| ==> Stores(reqs[k])
    ensures |r| == |reqs|
  {
    if reqs == [] then [] else [StoredRecord(reqs[0])] + StoredRecords(reqs[1..])
  }

  /** The k-th appended record is the one the k-th request stores. */
  lemma {:induction false} StoredRecordsAt(reqs: seq<Request>, k: nat)
    requires forall k :: 0 <= k < |reqs| ==> Stores(reqs[k])
    requires k < |reqs|
    ensures StoredRecords(reqs)[k] == StoredRecord(reqs[k])
    decreases k
  {
    if k > 0 {
      StoredRecordsAt(reqs[1..], k - 1);
    }
  }

  /** A storing request on an absent id appends exactly its record. */
  lemma StoreAppends(tasks: seq<Task>, req: Request)
    requires Stores(req) && !HasId(tasks, TargetId(req))
    ensures Apply(tasks, req) == tasks + [StoredRecord(req)]
  {
    match req
    case CreateReq(body, freshId) =>
    case UpsertReq(id, patch) =>
  }

  /** The first of a run of fresh writes appends its record and leaves the rest fresh. */
  lemma FreshWritesHead(tasks: seq<Task>, reqs: seq<Request>)
    requires reqs != [] && FreshWrites(tasks, reqs)
    ensures Apply(tasks, reqs[0]) == tasks + [StoredRecord(reqs[0])]
    ensures FreshWrites(tasks + [StoredRecord(reqs[0])], reqs[1..])
    ensures Replay(tasks, reqs) == Replay(tasks + [StoredRecord(reqs[0])], reqs[1..])
    ensures StoredRecords(reqs) == [StoredRecord(reqs[0])] + StoredRecords(reqs[1..])
  {
    StoreAppends(tasks, reqs[0]);
    var next := tasks + [StoredRecord(reqs[0])];
    var rest := reqs[1..];
    forall k | 0 <= k < |rest| ensures !HasId(next, TargetId(rest[k])) {
      assert rest[k] == reqs[k + 1];
      assert !HasId(tasks, TargetId(reqs[k + 1]));
      forall j | 0 <= j < |next| ensures next[j].id != TargetId(rest[k]) {
        if j < |tasks| {
          assert next[j] == tasks[j];
        } else {
          assert next[j].id == TargetId(reqs[0]);
        }
      }
    }
  }

  /** Regrouping a concatenation; stated apart so the induction step stays cheap. */
  lemma AppendAssociates(tasks: seq<Task>, t: Task, more: seq<Task>)
    ensures (tasks + [t]) + more == tasks + ([t] + more)
  {
  }

  /** Creates and upserts on distinct absent ids append one record each, in request order. */
  lemma {:induction false} FreshWritesAppend(tasks: seq<Task>, reqs: seq<Request>)
    requires FreshWrites(tasks, reqs)
    ensures Replay(tasks, reqs) == tasks + StoredRecords(reqs)
    decreases |reqs|
  {
    if reqs != [] {
      var first := StoredRecord(reqs[0]);
      var next := tasks + [first];
      var rest := reqs[1..];
      FreshWritesHead(tasks, reqs);
      FreshWritesAppend(next, rest);
      AppendAssociates(tasks, first, StoredRecords(rest));
    }
  }

  /** An id absent from `tasks` and first carried by `more[k]` is found at |tasks| + k. */
  lemma FindTaskInAppended(tasks: seq<Task>, more: seq<Task>, id: string, k: nat)
    requires !HasId(tasks, id)
    requires k < |more| && more[k].id == id
    requires forall m :: 0 <= m < k ==> more[m].id != id
    ensures FindTask(tasks + more, id) == Some(|tasks| + k)
  {
    var all := tasks + more;
    forall j | 0 <= j < |tasks| + k ensures all[j].id != id {
      if j < |tasks| {
        assert all[j] == tasks[j];
      } else {
        assert all[j] == more[j - |tasks|];
      }
    }
    assert all[|tasks| + k] == more[k];
    FirstMatchIsFound(all, id, |tasks| + k);
  }

  /** In the array a run of fresh writes leaves, each id first appears at its own record. */
  lemma GetStoredRecord(tasks: seq<Task>, reqs: seq<Request>, k: nat)
    requires FreshWrites(tasks, reqs) && k < |reqs|
    ensures GetTask(tasks + StoredRecords(reqs), TargetId(reqs[k])) == Ok(StoredRecord(reqs[k]))
  {
    var added := StoredRecords(reqs);
    var id := TargetId(reqs[k]);
    forall m | 0 <= m < k ensures added[m].id != id {
      StoredRecordsAt(reqs, m);
      assert TargetId(reqs[m]) != TargetId(reqs[k]);
    }
    StoredRecordsAt(reqs, k);
    FindTaskInAppended(tasks, added, id, k);
  }

  /**
   * List completeness: N creates and upserts on distinct absent ids grow
   * the list by exactly N, and a get for each id returns the record its
   * request wrote.
   */
  lemma FreshWritesListed(tasks: seq<Task>, reqs: seq<Request>)
    requires FreshWrites(tasks, reqs)
    ensures |Replay(tasks, reqs)| == |tasks| + |reqs|
    ensures forall k :: 0 <= k < |reqs| ==>
              GetTask(Replay(tasks, reqs), TargetId(reqs[k])) == Ok(StoredRecord(reqs[k]))
  {
    FreshWritesAppend(tasks, reqs);
    forall k | 0 <= k < |reqs|
      ensures GetTask(tasks + StoredRecords(reqs), TargetId(reqs[k])) == Ok(StoredRecord(reqs[k]))
    {
      GetStoredRecord(tasks, reqs, k);
    }
  }
}
