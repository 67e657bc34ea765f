/**
 Any number of workers on one migration task, interleaved at every atomic step,
 crashing anywhere and starting over, beside uploads and deletions of files.
 */
module PoolMigrationRuns {
  import opened Common
  import opened PoolMigration

  /** Where a worker stands inside moveFileToPool, with what it remembers. */
  datatype Pc =
    | Idle
    | Loaded(id: Id, key: string)
    | Fetched(id: Id, key: string, data: Bytes)
    | Copied(id: Id, key: string)
    | NothingToCopy(id: Id)
    | Repointed(id: Id, key: string)
    | MayDelete(id: Id, key: string)
    | SawNone(known: set<Id>)

  /**
   `want` is the content each file is supposed to have; it grows with uploads.
   `completed` is the rows there were when the worker that last marked the task
   completed had found nothing left.
   */
  datatype State = State(w: World, want: Contents, workers: map<nat, Pc>, completed: Option<set<Id>>)

  datatype Step =
    | LoadFile(worker: nat, id: Id)
    | FindNone(worker: nat)
    | Complete(worker: nat)
    | Fetch(worker: nat)
    | Put(worker: nat)
    | RepointRow(worker: nat)
    | CountRefs(worker: nat)
    | DeleteSource(worker: nat)
    | Crash(worker: nat)
    | SoftDeleteFile(id: Id)
    | Upload(id: Id, file: File, data: Bytes)

  function PcOf(s: State, worker: nat): Pc {
    if worker in s.workers then s.workers[worker] else Idle
  }

  function At(s: State, worker: nat, pc: Pc): State {
    s.(workers := s.workers[worker := pc])
  }

  /** A live file in scope in the source pool. */
  predicate Waiting(m: Migration, files: Files, id: Id) {
    Live(files, id) && files[id].pool == Some(m.source) && m.InScope(id)
  }

  /** Of these rows no live one in scope is left in the source pool. */
  predicate NoneLeftOf(m: Migration, files: Files, known: set<Id>) {
    forall id :: id in known ==> !Waiting(m, files, id)
  }

  /** No live file in scope is left in the source pool. */
  predicate NoneLeft(m: Migration, files: Files) {
    NoneLeftOf(m, files, files.Keys)
  }

  /** An upload, into any pool, stores fresh bytes under a fresh key and records that key in its row. */
  predicate UploadAllowed(m: Migration, s: State, id: Id, file: File)
    requires m.Valid()
  {
    var key := KeyOf(file);
    && id !in s.w.files && !file.deleted && file.storageKey != "" && SiteOf(m, file).Some?
    && (forall g :: g in s.w.files ==> KeyOf(s.w.files[g]) != key)
    && (SiteOf(m, file) == Some(m.pools[m.source].site) ==> file.pool == Some(m.source))
  }

  /** One atomic step; a step that is not enabled changes nothing. */
  function Next(m: Migration, s: State, step: Step): State
    requires m.Valid()
  {
    var src, dst := m.pools[m.source].site, m.pools[m.target].site;
    match step
    case LoadFile(worker, id) =>
      if PcOf(s, worker).Idle? && Waiting(m, s.w.files, id) then
        var key := KeyOf(s.w.files[id]);
        At(s, worker, if key != "" && m.Copies() then Loaded(id, key) else NothingToCopy(id))
      else s
    case FindNone(worker) =>
      if PcOf(s, worker).Idle? && NoneLeft(m, s.w.files) then At(s, worker, SawNone(s.w.files.Keys)) else s
    case Complete(worker) =>
      (match PcOf(s, worker)
       case SawNone(known) => At(s, worker, Idle).(completed := Some(known))
       case _ => s)
    case Fetch(worker) =>
      (match PcOf(s, worker)
       case Loaded(id, key) =>
         (match BlobAt(s.w.blobs, src, key)
          case Some(data) => At(s, worker, Fetched(id, key, data))
          case None => At(s, worker, Idle))
       case _ => s)
    case Put(worker) =>
      (match PcOf(s, worker)
       case Fetched(id, key, data) => At(s.(w := PutBlob(s.w, dst, key, data)), worker, Copied(id, key))
       case _ => s)
    case RepointRow(worker) =>
      (match PcOf(s, worker)
       case Copied(id, key) => At(s.(w := Repoint(m, s.w, id)), worker, Repointed(id, key))
       case NothingToCopy(id) => At(s.(w := Repoint(m, s.w, id)), worker, Idle)
       case _ => s)
    case CountRefs(worker) =>
      (match PcOf(s, worker)
       case Repointed(id, key) => At(s, worker, if Dereferenced(m, s.w.files, key) then MayDelete(id, key) else Idle)
       case _ => s)
    case DeleteSource(worker) =>
      (match PcOf(s, worker)
       case MayDelete(id, key) => At(s.(w := DeleteBlob(s.w, src, key)), worker, Idle)
       case _ => s)
    case Crash(worker) => At(s, worker, Idle)
    case SoftDeleteFile(id) =>
      if id in s.w.files then s.(w := s.w.(files := s.w.files[id := s.w.files[id].(deleted := true)])) else s
    case Upload(id, file, data) =>
      if UploadAllowed(m, s, id, file) then
        var stored := PutBlob(s.w, SiteOf(m, file).value, KeyOf(file), data);
        s.(w := stored.(files := stored.files[id := file]), want := s.want[id := data])
      else s
  }

  function Run(m: Migration, s: State, steps: seq<Step>): State
    requires m.Valid()
    decreases |steps|
  {
    if steps == [] then s else Run(m, Next(m, s, steps[0]), steps[1..])
  }

  // ----- the invariant -----

  /** Equal configurations reach one backend, unequal ones different backends. */
  predicate DistinctBackends(m: Migration)
    requires m.Valid()
  {
    m.Copies() <==> m.pools[m.source].site != m.pools[m.target].site
  }

  /** Rows with the same storage key stand for the same content. */
  ghost predicate KeyNamesContent(files: Files, want: Contents) {
    forall g, h :: g in files && h in files && KeyOf(files[g]) == KeyOf(files[h]) != "" && g in want && h in want ==>
      want[g] == want[h]
  }

  /** Every live file read from the source backend is one the reference count sees. */
  ghost predicate AllCounted(m: Migration, files: Files)
    requires m.Valid()
  {
    forall g :: Live(files, g) && KeyOf(files[g]) != "" && SiteOf(m, files[g]) == Some(m.pools[m.source].site)
      ==> Counted(m, files, g, KeyOf(files[g]))
  }

  ghost predicate ScopeExists(m: Migration, files: Files) {
    m.scope.Some? ==> m.scope.value <= files.Keys
  }

  /** Nothing known is left, and an explicit list of files was known in full. */
  ghost predicate Finished(m: Migration, files: Files, known: set<Id>) {
    NoneLeftOf(m, files, known) && known <= files.Keys && (m.scope.Some? ==> m.scope.value <= known)
  }

  ghost predicate WorkerInv(m: Migration, s: State, pc: Pc)
    requires m.Valid()
  {
    var src, dst := m.pools[m.source].site, m.pools[m.target].site;
    match pc
    case Idle => true
    case Loaded(id, key) => Carries(m, s, id, key) &&
      (BlobAt(s.w.blobs, src, key).Some? ==> BlobAt(s.w.blobs, src, key) == Some(s.want[id]))
    case Fetched(id, key, data) => Carries(m, s, id, key) && data == s.want[id]
    case Copied(id, key) => Carries(m, s, id, key) && BlobAt(s.w.blobs, dst, key) == Some(s.want[id])
    case NothingToCopy(id) => id in s.w.files && (m.Copies() ==> KeyOf(s.w.files[id]) == "")
      && (s.w.files[id].pool == Some(m.source) || s.w.files[id].pool == Some(m.target))
    case Repointed(id, key) => Carries(m, s, id, key)
    case MayDelete(id, key) => Carries(m, s, id, key) && Dereferenced(m, s.w.files, key)
    case SawNone(known) => Finished(m, s.w.files, known)
  }

  ghost predicate Carries(m: Migration, s: State, id: Id, key: string)
    requires m.Valid()
  {
    m.Copies() && id in s.w.files && key == KeyOf(s.w.files[id]) != "" && id in s.want
  }

  ghost predicate Inv(m: Migration, s: State)
    requires m.Valid()
  {
    && DistinctBackends(m)
    && AllReadable(m, s.w, s.want)
    && KeyNamesContent(s.w.files, s.want)
    && (m.Copies() ==> AllCounted(m, s.w.files))
    && ScopeExists(m, s.w.files)
    && (forall worker :: worker in s.workers ==> WorkerInv(m, s, s.workers[worker]))
    && (s.completed.Some? ==> Finished(m, s.w.files, s.completed.value))
  }

  // ----- steps keep it -----

  lemma RepointKeeps(m: Migration, s: State, id: Id)
    requires m.Valid() && Inv(m, s) && id in s.w.files
    requires m.Copies() && KeyOf(s.w.files[id]) != "" ==>
      id in s.want && BlobAt(s.w.blobs, m.pools[m.target].site, KeyOf(s.w.files[id])) == Some(s.want[id])
    requires !m.Copies() ==> s.w.files[id].pool == Some(m.source) || s.w.files[id].pool == Some(m.target)
    ensures Inv(m, s.(w := Repoint(m, s.w, id)))
  {
    var t := s.(w := Repoint(m, s.w, id));
    forall g | Live(t.w.files, g) ensures ReadableFile(m, t.w, t.want, g) { assert ReadableFile(m, s.w, s.want, g); }
    forall worker | worker in t.workers
      ensures WorkerInv(m, t, t.workers[worker])
    {
      assert WorkerInv(m, s, s.workers[worker]);
    }
  }

  lemma PutKeeps(m: Migration, s: State, id: Id, key: string, data: Bytes)
    requires m.Valid() && Inv(m, s) && Carries(m, s, id, key) && data == s.want[id]
    ensures Inv(m, s.(w := PutBlob(s.w, m.pools[m.target].site, key, data)))
  {
    var t := s.(w := PutBlob(s.w, m.pools[m.target].site, key, data));
    forall g | Live(t.w.files, g) ensures ReadableFile(m, t.w, t.want, g) { assert ReadableFile(m, s.w, s.want, g); }
    forall worker | worker in t.workers
      ensures WorkerInv(m, t, t.workers[worker])
    {
      assert WorkerInv(m, s, s.workers[worker]);
    }
  }

  /** The last reference is gone and AllCounted says so, hence no live file reads the blob. */
  lemma DeleteKeeps(m: Migration, s: State, id: Id, key: string)
    requires m.Valid() && Inv(m, s) && Carries(m, s, id, key) && Dereferenced(m, s.w.files, key)
    ensures Inv(m, s.(w := DeleteBlob(s.w, m.pools[m.source].site, key)))
  {
    var t := s.(w := DeleteBlob(s.w, m.pools[m.source].site, key));
    forall g | Live(t.w.files, g) ensures ReadableFile(m, t.w, t.want, g) { assert ReadableFile(m, s.w, s.want, g); }
    forall worker | worker in t.workers
      ensures WorkerInv(m, t, t.workers[worker])
    {
      assert WorkerInv(m, s, s.workers[worker]);
    }
  }

  lemma SoftDeleteKeeps(m: Migration, s: State, id: Id)
    requires m.Valid() && Inv(m, s)
    ensures Inv(m, Next(m, s, SoftDeleteFile(id)))
  {
    var t := Next(m, s, SoftDeleteFile(id));
    forall g | Live(t.w.files, g) ensures ReadableFile(m, t.w, t.want, g) { assert ReadableFile(m, s.w, s.want, g); }
    forall worker | worker in t.workers
      ensures WorkerInv(m, t, t.workers[worker])
    {
      assert WorkerInv(m, s, s.workers[worker]);
    }
  }

  lemma UploadKeeps(m: Migration, s: State, id: Id, file: File, data: Bytes)
    requires m.Valid() && Inv(m, s)
    ensures Inv(m, Next(m, s, Upload(id, file, data)))
  {
    var t := Next(m, s, Upload(id, file, data));
    if UploadAllowed(m, s, id, file) {
      forall g | Live(t.w.files, g) ensures ReadableFile(m, t.w, t.want, g) {
        if g != id { assert ReadableFile(m, s.w, s.want, g); }
      }
      forall worker | worker in t.workers
        ensures WorkerInv(m, t, t.workers[worker])
      {
        assert WorkerInv(m, s, s.workers[worker]);
      }
    }
  }

  /** Only the stepping worker's own claim needs checking when nothing else changed. */
  lemma AtKeeps(m: Migration, s: State, worker: nat, pc: Pc)
    requires m.Valid() && Inv(m, s) && WorkerInv(m, s, pc)
    ensures Inv(m, At(s, worker, pc))
  {
    var t := At(s, worker, pc);
    forall v | v in t.workers ensures WorkerInv(m, t, t.workers[v]) {
      if v != worker { assert WorkerInv(m, s, s.workers[v]); }
    }
  }

  lemma StepKeeps(m: Migration, s: State, step: Step)
    requires m.Valid() && Inv(m, s)
    ensures Inv(m, Next(m, s, step))
  {
    match step
    case LoadFile(worker, id) =>
      if Live(s.w.files, id) {
        assert ReadableFile(m, s.w, s.want, id);
        var key := KeyOf(s.w.files[id]);
        if Next(m, s, step) != s {
          AtKeeps(m, s, worker, if key != "" && m.Copies() then Loaded(id, key) else NothingToCopy(id));
        }
      }
    case FindNone(worker) =>
      if NoneLeft(m, s.w.files) { AtKeeps(m, s, worker, SawNone(s.w.files.Keys)); }
    case Complete(worker) =>
      if PcOf(s, worker).SawNone? {
        assert WorkerInv(m, s, s.workers[worker]);
        AtKeeps(m, s, worker, Idle);
        var t := Next(m, s, step);
        forall v | v in t.workers
          ensures WorkerInv(m, t, t.workers[v])
        {
          assert WorkerInv(m, At(s, worker, Idle), t.workers[v]);
        }
      }
    case Fetch(worker) =>
      if PcOf(s, worker).Loaded? {
        assert WorkerInv(m, s, s.workers[worker]);
        AtKeeps(m, s, worker, Next(m, s, step).workers[worker]);
      }
    case Put(worker) =>
      if PcOf(s, worker).Fetched? {
        var pc := s.workers[worker];
        assert WorkerInv(m, s, pc);
        PutKeeps(m, s, pc.id, pc.key, pc.data);
        AtKeeps(m, s.(w := PutBlob(s.w, m.pools[m.target].site, pc.key, pc.data)), worker, Copied(pc.id, pc.key));
      }
    case RepointRow(worker) =>
      var pc := PcOf(s, worker);
      if pc.Copied? || pc.NothingToCopy? {
        assert WorkerInv(m, s, pc);
        RepointKeeps(m, s, pc.id);
        AtKeeps(m, s.(w := Repoint(m, s.w, pc.id)), worker, if pc.Copied? then Repointed(pc.id, pc.key) else Idle);
      }
    case CountRefs(worker) =>
      var pc := PcOf(s, worker);
      if pc.Repointed? {
        assert WorkerInv(m, s, pc);
        AtKeeps(m, s, worker, if Dereferenced(m, s.w.files, pc.key) then MayDelete(pc.id, pc.key) else Idle);
      }
    case DeleteSource(worker) =>
      var pc := PcOf(s, worker);
      if pc.MayDelete? {
        assert WorkerInv(m, s, pc);
        DeleteKeeps(m, s, pc.id, pc.key);
        AtKeeps(m, s.(w := DeleteBlob(s.w, m.pools[m.source].site, pc.key)), worker, Idle);
      }
    case Crash(worker) => AtKeeps(m, s, worker, Idle);
    case SoftDeleteFile(id) => SoftDeleteKeeps(m, s, id);
    case Upload(id, file, data) => UploadKeeps(m, s, id, file, data);
  }

  /**
   However any number of workers interleave, crash and start over, beside uploads into
   any pool, every live file stays readable at every moment. A completed task has left
   nothing in scope of the rows that the completing worker's last query looked at, and
   nothing at all of an explicit list of files.
   */
  lemma {:induction false} EveryRunKeepsFilesReadable(m: Migration, s: State, steps: seq<Step>)
    requires m.Valid() && Inv(m, s)
    ensures Inv(m, Run(m, s, steps))
    ensures AllReadable(m, Run(m, s, steps).w, Run(m, s, steps).want)
    ensures var last := Run(m, s, steps);
      last.completed.Some? ==>
        NoneLeftOf(m, last.w.files, last.completed.value) && (m.scope.Some? ==> NoneLeft(m, last.w.files))
    decreases |steps|
  {
    if steps == [] {
      if s.completed.Some? && m.scope.Some? { assert m.scope.value <= s.completed.value; }
    } else {
      StepKeeps(m, s, steps[0]);
      EveryRunKeepsFilesReadable(m, Next(m, s, steps[0]), steps[1..]);
    }
  }

  // ----- a worker that nobody interrupts -----

  lemma RunFirst(m: Migration, s: State, step: Step, rest: seq<Step>)
    requires m.Valid()
    ensures Run(m, s, [step] + rest) == Run(m, Next(m, s, step), rest)
  {
    assert ([step] + rest)[1..] == rest;
  }

  lemma RunThree(m: Migration, s: State, a: Step, b: Step, c: Step)
    requires m.Valid()
    ensures Run(m, s, [a, b, c]) == Next(m, Next(m, Next(m, s, a), b), c)
  {
    assert [a, b, c] == [a] + [b, c] && [b, c] == [b] + [c] && [c] == [c] + [];
    RunFirst(m, s, a, [b, c]);
    RunFirst(m, Next(m, s, a), b, [c]);
    RunFirst(m, Next(m, Next(m, s, a), b), c, []);
  }

  /** The steps one after another are the whole move of the file, and the worker is free again. */
  lemma UninterruptedMove(m: Migration, s: State, worker: nat, id: Id)
    requires m.Valid() && PcOf(s, worker).Idle? && id in s.w.files
    requires !s.w.files[id].deleted && s.w.files[id].pool == Some(m.source)
    requires m.scope.Some? ==> id in m.scope.value
    ensures var first := Run(m, s, [LoadFile(worker, id), Fetch(worker), Put(worker)]);
      var last := Run(m, first, [RepointRow(worker), CountRefs(worker), DeleteSource(worker)]);
      && PcOf(last, worker).Idle? && last.w == MoveFile(m, s.w, id).GetOr(s.w)
      && last.want == s.want && last.completed == s.completed
  {
    RunThree(m, s, LoadFile(worker, id), Fetch(worker), Put(worker));
    var s3 := Next(m, Next(m, Next(m, s, LoadFile(worker, id)), Fetch(worker)), Put(worker));
    RunThree(m, s3, RepointRow(worker), CountRefs(worker), DeleteSource(worker));
    FirstHalf(m, s, worker, id);
  }

  lemma FirstHalf(m: Migration, s: State, worker: nat, id: Id)
    requires m.Valid() && PcOf(s, worker).Idle? && Waiting(m, s.w.files, id)
    ensures var s3 := Next(m, Next(m, Next(m, s, LoadFile(worker, id)), Fetch(worker)), Put(worker));
      var key := KeyOf(s.w.files[id]);
      var data := BlobAt(s.w.blobs, m.pools[m.source].site, key);
      && s3.want == s.want && s3.completed == s.completed
      && if key == "" || !m.Copies() then PcOf(s3, worker) == NothingToCopy(id) && s3.w == s.w
         else if data == None then PcOf(s3, worker) == Idle && s3.w == s.w
         else PcOf(s3, worker) == Copied(id, key) && s3.w == PutBlob(s.w, m.pools[m.target].site, key, data.value)
  {
  }

  /** Wherever a worker died, it can start over: it has done nothing since, and may take up any file. */
  lemma CrashedWorkerIsFree(m: Migration, s: State, worker: nat)
    requires m.Valid()
    ensures var next := Next(m, s, Crash(worker));
      && PcOf(next, worker).Idle? && next.w == s.w && next.want == s.want && next.completed == s.completed
      && forall other :: other != worker ==> PcOf(next, other) == PcOf(s, other)
  {
  }

  /** A free worker marks the task completed exactly when every file is moved. */
  lemma CompletesIff(m: Migration, s: State, worker: nat)
    requires m.Valid() && PcOf(s, worker).Idle?
    ensures var last := Next(m, Next(m, s, FindNone(worker)), Complete(worker));
      && last.w == s.w && PcOf(last, worker).Idle?
      && last.completed == if AllMoved(m, s.w.files) then Some(s.w.files.Keys) else s.completed
  {
    NoneLeftMeans(m, s.w.files);
  }

  /** A deleted file keeps its row and its bytes; nothing else changes. */
  lemma SoftDeleteMarks(m: Migration, s: State, id: Id, g: Id)
    requires m.Valid() && id in s.w.files
    ensures var next := Next(m, s, SoftDeleteFile(id));
      && next.w.blobs == s.w.blobs && next.w.files.Keys == s.w.files.Keys && !Live(next.w.files, id)
      && (g in s.w.files && g != id ==> next.w.files[g] == s.w.files[g])
      && next.want == s.want && next.completed == s.completed && next.workers == s.workers
  {
  }

  /** An upload puts the bytes where its row says, under its key, and changes no other row and no other key. */
  lemma UploadStores(m: Migration, s: State, id: Id, file: File, data: Bytes)
    requires m.Valid() && UploadAllowed(m, s, id, file)
    ensures var next := Next(m, s, Upload(id, file, data));
      && next.w.files == s.w.files[id := file] && next.want == s.want[id := data]
      && next.completed == s.completed && next.workers == s.workers
      && BlobAt(next.w.blobs, SiteOf(m, file).value, KeyOf(file)) == Some(data)
      && forall site, key :: (site, key) != (SiteOf(m, file).value, KeyOf(file)) ==>
          BlobAt(next.w.blobs, site, key) == BlobAt(s.w.blobs, site, key)
  {
  }

  // ----- completion -----

  /** A live file that is still in the source pool was not to be moved: the task lists files, and not this one. */
  predicate AllMoved(m: Migration, files: Files) {
    forall id :: id in files && !files[id].deleted && files[id].pool == Some(m.source) ==>
      m.scope.Some? && id !in m.scope.value
  }

  lemma NoneLeftMeans(m: Migration, files: Files)
    ensures NoneLeft(m, files) <==> AllMoved(m, files)
  {
    forall id | id in files ensures Waiting(m, files, id) <==>
      !files[id].deleted && files[id].pool == Some(m.source) && (m.scope.Some? ==> id in m.scope.value) {}
  }

  /** An upload that adds to what the task has to move. */
  predicate AddsWork(m: Migration, step: Step) {
    step.Upload? && step.file.pool == Some(m.source) && (m.scope.Some? ==> step.id in m.scope.value)
  }

  /** Whoever has found nothing left, or marked the task completed, is still right. */
  ghost predicate StillDone(m: Migration, s: State) {
    && (s.completed.Some? ==> NoneLeft(m, s.w.files))
    && (forall worker :: worker in s.workers && s.workers[worker].SawNone? ==> NoneLeft(m, s.w.files))
  }

  /** Only an upload can bring a file in scope into the source pool. */
  lemma NoneLeftStays(m: Migration, s: State, step: Step)
    requires m.Valid() && NoneLeft(m, s.w.files) && !AddsWork(m, step)
    ensures NoneLeft(m, Next(m, s, step).w.files)
  {
    var next := Next(m, s, step).w.files;
    forall id ensures Waiting(m, next, id) ==> Waiting(m, s.w.files, id) {}
  }

  /** While no upload adds to the task, completed means that no live file in scope is left in the source pool. */
  lemma {:induction false} CompletedMeansNoneLeft(m: Migration, s: State, steps: seq<Step>)
    requires m.Valid() && StillDone(m, s) && forall step :: step in steps ==> !AddsWork(m, step)
    ensures StillDone(m, Run(m, s, steps))
    ensures Run(m, s, steps).completed.Some? ==> AllMoved(m, Run(m, s, steps).w.files)
    decreases |steps|
  {
    if steps != [] {
      StillDoneStep(m, s, steps[0]);
      CompletedMeansNoneLeft(m, Next(m, s, steps[0]), steps[1..]);
    }
  }

  lemma StillDoneStep(m: Migration, s: State, step: Step)
    requires m.Valid() && StillDone(m, s) && !AddsWork(m, step)
    ensures StillDone(m, Next(m, s, step))
  {
    if NoneLeft(m, s.w.files) { NoneLeftStays(m, s, step); }
  }

  /** Some prefix of the run ended with nothing left, and these are the rows of that moment. */
  ghost predicate FoundNone(m: Migration, s: State, steps: seq<Step>, known: set<Id>)
    requires m.Valid()
  {
    exists k: nat :: k <= |steps| && NoneLeftAfter(m, s, steps[..k], known)
  }

  predicate NoneLeftAfter(m: Migration, s: State, steps: seq<Step>, known: set<Id>)
    requires m.Valid()
  {
    var files := Run(m, s, steps).w.files;
    AllMoved(m, files) && known == files.Keys
  }

  lemma {:induction false} RunOneMore(m: Migration, s: State, steps: seq<Step>, step: Step)
    requires m.Valid()
    ensures Run(m, s, steps + [step]) == Next(m, Run(m, s, steps), step)
    decreases |steps|
  {
    if steps == [] {
      assert [] + [step] == [step] && [step][1..] == [];
    } else {
      assert (steps + [step])[1..] == steps[1..] + [step];
      RunOneMore(m, Next(m, s, steps[0]), steps[1..], step);
    }
  }

  lemma FoundNoneBefore(m: Migration, s: State, steps: seq<Step>, more: seq<Step>, known: set<Id>)
    requires m.Valid() && FoundNone(m, s, steps, known)
    ensures FoundNone(m, s, steps + more, known)
  {
    var k: nat :| k <= |steps| && NoneLeftAfter(m, s, steps[..k], known);
    assert (steps + more)[..k] == steps[..k];
  }

  /** What a worker has seen and what a completed task recorded were the rows of a moment when nothing was left. */
  ghost predicate SeenTruly(m: Migration, s: State, steps: seq<Step>)
    requires m.Valid()
  {
    var last := Run(m, s, steps);
    && (last.completed.Some? ==> FoundNone(m, s, steps, last.completed.value))
    && (forall worker :: PcOf(last, worker).SawNone? ==> FoundNone(m, s, steps, PcOf(last, worker).known))
  }

  lemma StepSeesTruly(m: Migration, s: State, steps: seq<Step>, step: Step)
    requires m.Valid() && SeenTruly(m, s, steps)
    ensures SeenTruly(m, s, steps + [step])
  {
    var before, last := Run(m, s, steps), Run(m, s, steps + [step]);
    RunOneMore(m, s, steps, step);
    forall worker | PcOf(last, worker).SawNone? ensures FoundNone(m, s, steps + [step], PcOf(last, worker).known) {
      if PcOf(before, worker) == PcOf(last, worker) {
        FoundNoneBefore(m, s, steps, [step], PcOf(last, worker).known);
      } else {
        assert (steps + [step])[..|steps|] == steps;
        assert NoneLeftAfter(m, s, steps, PcOf(last, worker).known);
      }
    }
    if last.completed.Some? {
      assert last.completed == before.completed || PcOf(before, step.worker) == SawNone(last.completed.value);
      FoundNoneBefore(m, s, steps, [step], last.completed.value);
    }
  }

  lemma {:induction false} RunSeesTruly(m: Migration, s: State, steps: seq<Step>)
    requires m.Valid() && s.completed == None && forall worker :: !PcOf(s, worker).SawNone?
    ensures SeenTruly(m, s, steps)
  {
    if steps != [] {
      var n := |steps| - 1;
      RunSeesTruly(m, s, steps[..n]);
      StepSeesTruly(m, s, steps[..n], steps[n]);
      assert steps == steps[..n] + [steps[n]];
    }
  }

  /**
   However the run went: a task that ends completed had, at some moment of the run, no live
   file in scope left in the source pool, and it recorded the rows of that moment.
   */
  lemma CompletedOnlyAfterNoneLeft(m: Migration, s: State, steps: seq<Step>)
    requires m.Valid() && s.completed == None && forall worker :: !PcOf(s, worker).SawNone?
    ensures var last := Run(m, s, steps);
      last.completed.Some? ==> FoundNone(m, s, steps, last.completed.value)
  {
    RunSeesTruly(m, s, steps);
  }

  /** What a fresh task needs: the assumptions of a migration in one direction, and no worker yet. */
  lemma FreshTaskStarts(m: Migration, w: World, want: Contents)
    requires m.Valid() && DistinctBackends(m) && AllReadable(m, w, want) && KeyNamesContent(w.files, want)
    requires (m.Copies() ==> AllCounted(m, w.files)) && ScopeExists(m, w.files)
    ensures Inv(m, State(w, want, map[], None)) && StillDone(m, State(w, want, map[], None))
  {
  }
}
