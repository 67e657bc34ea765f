/**
 The upload-task table with its object store: the part check, the completion and
 the sweep as the code runs them, over any number of tasks.
 */
module DirectUploadStore {
  import opened Common
  import opened DirectUpload

  type Id = string

  /** The columns of a direct-upload task that completion and sweep read and write. */
  datatype TaskRow = TaskRow(
    status: Status, updatedAt: int, sourceKey: Option<string>, multipart: bool,
    fileSize: Option<nat>, overwrite: Option<Id>, createdFile: Option<Id>)

  type Tasks = map<Id, TaskRow>
  type Objects = map<string, nat>

  datatype Error =
    | TaskNotFound
    | NotAwaitingCompletion
    | PartsIncomplete
    | PartsOutOfOrder
    | PartsSizeMismatch
    | ObjectUnavailable
    | ObjectSizeMismatch
    | FileNotCreated

  /** defaultMultipartPartSize. */
  const PART_SIZE := 5 * 1024 * 1024

  /** multipartPlan: how many parts a file of this size has. */
  function PlannedParts(fileSize: nat): nat {
    if fileSize == 0 then 0 else (fileSize + PART_SIZE - 1) / PART_SIZE
  }

  /** The planned parts cover the file and none of them is empty. */
  lemma PlannedPartsCover(fileSize: nat)
    ensures fileSize <= PlannedParts(fileSize) * PART_SIZE
    ensures fileSize > 0 ==> (PlannedParts(fileSize) - 1) * PART_SIZE < fileSize
  {
  }

  /** The loop of the completion handler over the listed parts. */
  method CheckParts(parts: seq<Part>, fileSize: nat) returns (problem: Option<Error>)
    ensures problem == None <==> PartsAccepted(Task(fileSize, true, PlannedParts(fileSize)), parts)
    ensures problem == None <==> PartsFit(parts, fileSize)
    ensures problem.Some? ==>
      problem.value.PartsIncomplete? || problem.value.PartsOutOfOrder? || problem.value.PartsSizeMismatch?
    ensures problem == Some(PartsIncomplete) <==> |parts| != PlannedParts(fileSize)
    ensures problem == Some(PartsOutOfOrder) <==>
      |parts| == PlannedParts(fileSize) && exists i :: 0 <= i < |parts| && parts[i].number != i + 1
  {
    PartsFitIff(parts, fileSize);
    if |parts| != PlannedParts(fileSize) { return Some(PartsIncomplete); }
    var totalSize := 0;
    for i := 0 to |parts|
      invariant totalSize == TotalSize(parts[..i])
      invariant forall j :: 0 <= j < i ==> parts[j].number == j + 1
    {
      if parts[i].number != i + 1 { return Some(PartsOutOfOrder); }
      assert parts[..i + 1][..i] == parts[..i];
      totalSize := totalSize + parts[i].size;
    }
    assert parts[..|parts|] == parts;
    problem := if totalSize != fileSize then Some(PartsSizeMismatch) else None;
  }

  predicate Stale(row: TaskRow, cutoff: int) {
    row.status == Uploading && row.updatedAt < cutoff
  }

  function StaleTasks(tasks: Tasks, cutoff: int): set<Id> {
    set id | id in tasks && Stale(tasks[id], cutoff)
  }

  /** The source object and the two client-side derivatives stored beside it. */
  function KeysOf(row: TaskRow): set<string> {
    match row.sourceKey
    case None => {}
    case Some(key) => {key, key + ".thumbnail", key + ".compressed"}
  }

  function KeysOfAll(tasks: Tasks, ids: set<Id>): set<string> {
    set id, key | id in ids && id in tasks && key in KeysOf(tasks[id]) :: key
  }

  function Expire(tasks: Tasks, ids: set<Id>, now: int): Tasks {
    map id | id in tasks :: if id in ids then tasks[id].(status := Failed, updatedAt := now) else tasks[id]
  }

  /** One more claimed task: what it adds to the sweep's effect. */
  lemma SweepOneMore(tasks: Tasks, objects: Objects, done: set<Id>, id: Id, now: int)
    requires id in tasks && id !in done
    ensures Expire(Expire(tasks, done, now), {id}, now) == Expire(tasks, done + {id}, now)
    ensures Expire(tasks, done, now)[id] == tasks[id]
    ensures objects - KeysOfAll(tasks, done) - KeysOf(tasks[id]) == objects - KeysOfAll(tasks, done + {id})
  {
    assert KeysOfAll(tasks, done + {id}) == KeysOfAll(tasks, done) + KeysOf(tasks[id]);
  }

  // ----- the sweep, told by single tasks and objects -----

  /** The task has waited for completion, without recorded activity, for longer than the expiry age. */
  predicate Abandoned(row: TaskRow, now: int) {
    row.status == Uploading && row.updatedAt + EXPIRY_AGE < now
  }

  /** k is the task's source object or one of the two derivatives beside it. */
  predicate Owns(row: TaskRow, k: string) {
    row.sourceKey.Some? &&
      (k == row.sourceKey.value || k == row.sourceKey.value + ".thumbnail" || k == row.sourceKey.value + ".compressed")
  }

  /** What a sweep does to the table: abandoned tasks have failed, and every other task is as it was. */
  ghost predicate OnlyAbandonedFail(before: Tasks, after: Tasks, now: int) {
    after.Keys == before.Keys
    && forall id :: id in before ==>
        after[id] == if Abandoned(before[id], now) then before[id].(status := Failed, updatedAt := now) else before[id]
  }

  /** What it does to the objects: those of abandoned tasks are gone, and every other one is as it was. */
  ghost predicate OnlyAbandonedGo(tasks: Tasks, before: Objects, after: Objects, now: int) {
    forall k ::
      if k in before && !OwnedByAbandoned(tasks, k, now) then k in after && after[k] == before[k] else k !in after
  }

  ghost predicate OwnedByAbandoned(tasks: Tasks, k: string, now: int) {
    exists id :: id in tasks && Abandoned(tasks[id], now) && Owns(tasks[id], k)
  }

  lemma SweepMeans(tasks: Tasks, objects: Objects, now: int)
    ensures var stale := StaleTasks(tasks, now - EXPIRY_AGE);
      && OnlyAbandonedFail(tasks, Expire(tasks, stale, now), now)
      && OnlyAbandonedGo(tasks, objects, objects - KeysOfAll(tasks, stale), now)
  {
    var stale := StaleTasks(tasks, now - EXPIRY_AGE);
    forall k ensures k in KeysOfAll(tasks, stale) <==> OwnedByAbandoned(tasks, k, now) {
      if id :| id in tasks && Abandoned(tasks[id], now) && Owns(tasks[id], k) {
        assert id in stale && k in KeysOf(tasks[id]);
      }
      if k in KeysOfAll(tasks, stale) {
        var id :| id in stale && id in tasks && k in KeysOf(tasks[id]);
        assert Abandoned(tasks[id], now) && Owns(tasks[id], k);
      }
    }
  }

  /** The tasks and objects after sweeps at these times. */
  function AfterSweeps(tasks: Tasks, objects: Objects, times: seq<int>): (Tasks, Objects)
    decreases |times|
  {
    if times == [] then (tasks, objects)
    else
      var stale := StaleTasks(tasks, times[0] - EXPIRY_AGE);
      AfterSweeps(Expire(tasks, stale, times[0]), objects - KeysOfAll(tasks, stale), times[1..])
  }

  /** Some task other than this one, still waiting for completion, owns the object. */
  ghost predicate WantedByAnother(tasks: Tasks, id: Id, k: string) {
    exists other :: other in tasks && other != id && tasks[other].status == Uploading && Owns(tasks[other], k)
  }

  /**
   A task that is no longer waiting for completion, as after an answered one, is never
   touched by any later sweep, and keeps its objects unless another waiting task has them too.
   */
  lemma {:induction false} CompletedSurvivesSweeps(tasks: Tasks, objects: Objects, times: seq<int>, id: Id, k: string)
    requires id in tasks && tasks[id].status != Uploading
    ensures var after := AfterSweeps(tasks, objects, times);
      && id in after.0 && after.0[id] == tasks[id]
      && (k in objects && Owns(tasks[id], k) && !WantedByAnother(tasks, id, k) ==>
            k in after.1 && after.1[k] == objects[k])
    decreases |times|
  {
    if times != [] {
      var now := times[0];
      var stale := StaleTasks(tasks, now - EXPIRY_AGE);
      var next, left := Expire(tasks, stale, now), objects - KeysOfAll(tasks, stale);
      SweepMeans(tasks, objects, now);
      if other :| other in next && other != id && next[other].status == Uploading && Owns(next[other], k) {
        assert next[other] == tasks[other];
      }
      CompletedSurvivesSweeps(next, left, times[1..], id, k);
    }
  }

  class UploadStore {
    var tasks: Tasks
    var objects: Objects
    /** Created files and the object each reads. */
    var files: map<Id, string>

    method MarkProcessing(id: Id, sourceKey: string, now: int) returns (ok: bool)
      modifies this`tasks
      ensures ok <==> id in old(tasks) && old(tasks)[id].status == Uploading
      ensures tasks == if ok then
          old(tasks)[id := old(tasks)[id].(status := Processing, updatedAt := now, sourceKey := Some(sourceKey))]
        else old(tasks)
    {
      if id !in tasks || tasks[id].status != Uploading { return false; }
      tasks := tasks[id := tasks[id].(status := Processing, updatedAt := now, sourceKey := Some(sourceKey))];
      ok := true;
    }

    /** Claims one task of the sweep's selection and, if the claim took, releases its storage. */
    method ExpireStaleUploadTask(id: Id, cutoff: int, now: int) returns (claimed: bool)
      modifies this`tasks, this`objects
      ensures claimed <==> id in old(tasks) && Stale(old(tasks)[id], cutoff)
      ensures tasks == if claimed then Expire(old(tasks), {id}, now) else old(tasks)
      ensures objects == if claimed then old(objects) - KeysOf(old(tasks)[id]) else old(objects)
      ensures claimed <==>
        id in old(tasks) && old(tasks)[id].status == Uploading && old(tasks)[id].updatedAt < cutoff
      ensures claimed ==> forall k :: k in objects <==> k in old(objects) && !Owns(old(tasks)[id], k)
    {
      if id !in tasks || !Stale(tasks[id], cutoff) { return false; }
      var row := tasks[id];
      tasks := tasks[id := row.(status := Failed, updatedAt := now)];
      if row.sourceKey.Some? {
        var key := row.sourceKey.value;
        objects := objects - {key};
        objects := objects - {key + ".thumbnail"};
        objects := objects - {key + ".compressed"};
      }
      claimed := true;
    }

    /**
     The hourly sweep: exactly the tasks in Uploading without activity since the
     cutoff fail, exactly their objects go, and every file whose object belongs to
     no such task keeps it.
     */
    method ExpireStaleUploadTasks(now: int) returns (expired: nat)
      modifies this`tasks, this`objects
      ensures var stale := StaleTasks(old(tasks), now - EXPIRY_AGE);
        && expired == |stale|
        && tasks == Expire(old(tasks), stale, now)
        && objects == old(objects) - KeysOfAll(old(tasks), stale)
        && forall f :: f in files && files[f] in old(objects) && files[f] !in KeysOfAll(old(tasks), stale) ==>
          files[f] in objects
      ensures (tasks, objects) == AfterSweeps(old(tasks), old(objects), [now])
      ensures OnlyAbandonedFail(old(tasks), tasks, now)
      ensures OnlyAbandonedGo(old(tasks), old(objects), objects, now)
    {
      SweepMeans(tasks, objects, now);
      var cutoff := now - EXPIRY_AGE;
      var selection := StaleTasks(tasks, cutoff);
      ghost var before := tasks;
      var todo := selection;
      expired := 0;
      assert Expire(before, selection - todo, now) == before;
      assert KeysOfAll(before, selection - todo) == {};
      while todo != {}
        invariant todo <= selection && expired == |selection| - |todo|
        invariant tasks == Expire(before, selection - todo, now)
        invariant objects == old(objects) - KeysOfAll(before, selection - todo)
      {
        var id :| id in todo;
        SweepOneMore(before, old(objects), selection - todo, id, now);
        assert selection - (todo - {id}) == selection - todo + {id};
        todo := todo - {id};
        var claimed := ExpireStaleUploadTask(id, cutoff, now);
        expired := expired + 1;
      }
      assert selection - {} == selection;
    }

    /**
     An uninterrupted completion. A task that already has its file answers with it; an
     acceptable upload is claimed and becomes a new file or replaces the one to be
     overwritten; when that fails the task has failed; a refused one changes no task and
     no file.
     */
    method CompleteDirectUpload(id: Id, parts: seq<Part>, newFile: Id, now: int, storable: bool)
      returns (result: Result<Id, Error>)
      requires newFile !in files
      modifies this
      ensures result == Err(TaskNotFound) <==> id !in old(tasks)
      ensures result.Ok? ==> id in tasks && tasks[id].status != Uploading && result.value in files
      ensures id in old(tasks) ==>
        var row := old(tasks)[id];
        row.status in {Processing, Completed} && row.createdFile.Some? && row.createdFile.value in old(files) ==>
          && result == Ok(row.createdFile.value)
          && tasks == old(tasks) && files == old(files) && objects == old(objects)
      ensures id in old(tasks) && !AlreadyMade(old(tasks)[id], old(files)) ==>
        var row := old(tasks)[id];
        var target := row.overwrite.GetOr(newFile);
        var claimed := row.(status := Processing, updatedAt := now);
        && (result.Ok? <==>
              && Complete(row, parts, old(objects)) && storable
              && (row.overwrite.Some? ==> row.overwrite.value in old(files)))
        && (result.Ok? <==> Acceptable(row, parts, old(objects)) && storable && Placeable(row, old(files)))
        && (result.Ok? ==>
              && result.value == target && files == old(files)[target := row.sourceKey.value]
              && tasks == old(tasks)[id := claimed.(createdFile := Some(target))])
        && (result == Err(FileNotCreated) <==>
          Acceptable(row, parts, old(objects)) && !(storable && Placeable(row, old(files))))
        && (result == Err(FileNotCreated) ==>
          files == old(files) && tasks == old(tasks)[id := claimed.(status := Failed)])
        && (result == Err(NotAwaitingCompletion) <==> row.status != Uploading || row.sourceKey.None?)
        && (result == Err(ObjectUnavailable) <==>
              row.status == Uploading && !row.multipart && row.sourceKey.Some? && row.sourceKey.value !in old(objects))
        && (result.Err? && result.error != FileNotCreated ==> tasks == old(tasks) && files == old(files))
        && (Acceptable(row, parts, old(objects)) ==>
              objects == if row.multipart then old(objects)[row.sourceKey.value := row.fileSize.value]
                else old(objects))
    {
      if id !in tasks { return Err(TaskNotFound); }
      var row := tasks[id];
      AcceptableIff(row, parts, objects);
      if (row.status == Processing || row.status == Completed) && row.createdFile.Some? {
        if row.createdFile.value in files { return Ok(row.createdFile.value); }
      }
      if row.status != Uploading || row.sourceKey == None { return Err(NotAwaitingCompletion); }
      var key := row.sourceKey.value;
      if row.multipart {
        var fileSize := if row.fileSize.Some? then row.fileSize.value else 0;
        var problem := CheckParts(parts, fileSize);
        if problem.Some? { return Err(problem.value); }
        objects := objects[key := fileSize];
      }
      if key !in objects { return Err(ObjectUnavailable); }
      if row.fileSize == None || objects[key] != row.fileSize.value { return Err(ObjectSizeMismatch); }
      var claimed := MarkProcessing(id, key, now);
      assert claimed;
      if !storable || !Placeable(row, files) {
        MarkFailed(id, now);
        return Err(FileNotCreated);
      }
      var file := row.overwrite.GetOr(newFile);
      files := files[file := key];
      tasks := tasks[id := tasks[id].(createdFile := Some(file))];
      result := Ok(file);
    }

    method MarkFailed(id: Id, now: int)
      modifies this`tasks
      ensures tasks ==
        if id in old(tasks) then old(tasks)[id := old(tasks)[id].(status := Failed, updatedAt := now)] else old(tasks)
    {
      if id in tasks { tasks := tasks[id := tasks[id].(status := Failed, updatedAt := now)]; }
    }
  }

  /** The task was completed before and its file is still there. */
  predicate AlreadyMade(row: TaskRow, files: map<Id, string>) {
    (row.status == Processing || row.status == Completed) && row.createdFile.Some? && row.createdFile.value in files
  }

  /** The task awaits completion, and its object, or its listed parts, have the declared size. */
  predicate Acceptable(row: TaskRow, parts: seq<Part>, objects: Objects) {
    && row.status == Uploading && row.sourceKey.Some? && row.fileSize.Some?
    && if row.multipart then PartsAccepted(Task(row.fileSize.value, true, PlannedParts(row.fileSize.value)), parts)
       else row.sourceKey.value in objects && objects[row.sourceKey.value] == row.fileSize.value
  }

  /** Numbered from 1, as many as it takes to cover the size, the last one not empty, and of that size together. */
  predicate PartsFit(parts: seq<Part>, fileSize: nat) {
    && (forall i :: 0 <= i < |parts| ==> parts[i].number == i + 1)
    && (|parts| - 1) * PART_SIZE < fileSize <= |parts| * PART_SIZE
    && TotalSize(parts) == fileSize
  }

  lemma PartsFitIff(parts: seq<Part>, fileSize: nat)
    ensures PartsAccepted(Task(fileSize, true, PlannedParts(fileSize)), parts) <==> PartsFit(parts, fileSize)
  {
  }

  /** Acceptable, told by columns, parts and the object. */
  predicate Complete(row: TaskRow, parts: seq<Part>, objects: Objects) {
    && row.status == Uploading && row.sourceKey.Some? && row.fileSize.Some?
    && if row.multipart then PartsFit(parts, row.fileSize.value)
       else row.sourceKey.value in objects && objects[row.sourceKey.value] == row.fileSize.value
  }

  lemma AcceptableIff(row: TaskRow, parts: seq<Part>, objects: Objects)
    ensures Acceptable(row, parts, objects) <==> Complete(row, parts, objects)
  {
    if row.fileSize.Some? { PartsFitIff(parts, row.fileSize.value); }
  }

  /** The file to be overwritten, if any, still exists. */
  predicate Placeable(row: TaskRow, files: map<Id, string>) {
    row.overwrite.Some? ==> row.overwrite.value in files
  }
}
