/**
 One direct-upload task raced by any number of completion requests and expiry
 sweeps: completeDirectUpload in internal/handler/routes.go against
 ExpireStaleUploadTasks in internal/service/transfer.go. Every database statement
 and every storage call on the session and the source object is one step; the
 objects that clients may store beside the source are not part of the state.
 */
module DirectUpload {
  import opened Common

  datatype Status = Uploading | Processing | Completed | Failed

  /** uploadTaskExpiryAge, in seconds. */
  const EXPIRY_AGE := 6 * 60 * 60

  datatype Part = Part(number: int, size: nat)

  /** What the task row says and the client cannot change. */
  datatype Task = Task(fileSize: nat, multipart: bool, partCount: nat)

  datatype Win = ByCompleter(agent: nat) | BySweeper(agent: nat)

  /** How far a request or a sweep has come. */
  datatype Pc =
    | Idle
    | Guarded                      // completion: the row was read in Uploading
    | Listed(parts: seq<Part>)     // completion: the listed multipart parts were accepted
    | Assembled                    // completion: the storage merged them into the object
    | Checked                      // completion: the object was there with the right size
    | Claimed                      // completion: MarkProcessing changed one row
    | FileMade                     // completion: the file row exists
    | CutOff(cutoff: int)          // sweep: cutoff computed
    | Selected(cutoff: int)        // sweep: the query returned the task
    | Expired                      // sweep: the claim changed one row
    | Aborted                      // sweep: the multipart session, if any, is discarded

  /**
   `wins` lists the compare-and-set updates that took the task out of Uploading,
   `files` the completions that created a file.
   */
  datatype State = State(
    now: int, status: Status, updatedAt: int,
    source: Option<nat>, session: Option<seq<Part>>,
    agents: map<nat, Pc>, wins: seq<Win>, files: seq<nat>)

  datatype Step =
    | Tick(seconds: nat)
    | PutObject(size: nat)
    | PutPart(parts: seq<Part>)
    | Touch
    | Begin(agent: nat)
    | ListParts(agent: nat)
    | Assemble(agent: nat)
    | Check(agent: nat)
    | MarkProcessing(agent: nat)
    | MakeFile(agent: nat)
    | FileFails(agent: nat)
    | Settle(agent: nat, ok: bool)
    | StartSweep(agent: nat)
    | Query(agent: nat)
    | Claim(agent: nat)
    | AbortSession(agent: nat)
    | DeleteSource(agent: nat)
    | Crash(agent: nat)

  function PcOf(s: State, agent: nat): Pc {
    if agent in s.agents then s.agents[agent] else Idle
  }

  function At(s: State, agent: nat, pc: Pc): State {
    s.(agents := s.agents[agent := pc])
  }

  function TotalSize(parts: seq<Part>): nat {
    if parts == [] then 0 else TotalSize(parts[..|parts| - 1]) + parts[|parts| - 1].size
  }

  /** The sizes of one part and of parts together. */
  lemma {:induction false} TotalSizeSplits(a: seq<Part>, b: seq<Part>, p: Part)
    ensures TotalSize([p]) == p.size && TotalSize(a + b) == TotalSize(a) + TotalSize(b)
  {
    assert [p][..0] == [];
    if b == [] {
      assert a + b == a;
    } else {
      var n := |b| - 1;
      assert (a + b)[..|a + b| - 1] == a + b[..n];
      TotalSizeSplits(a, b[..n], p);
    }
  }

  /**
   The completion's check of the listed parts: as many as planned, numbered 1, 2, 3, ...,
   of the declared total size.
   */
  predicate PartsAccepted(t: Task, parts: seq<Part>) {
    && |parts| == t.partCount
    && (forall i :: 0 <= i < |parts| ==> parts[i].number == i + 1)
    && TotalSize(parts) == t.fileSize
  }

  /** The session is still open and holds the listed parts as they were listed. */
  predicate Mergeable(s: State, parts: seq<Part>) {
    s.session.Some? && forall p :: p in parts ==> p in s.session.value
  }

  /** One atomic step; a step that is not enabled changes nothing. */
  function Next(t: Task, s: State, step: Step): State {
    match step
    case Tick(seconds) => s.(now := s.now + seconds)
    case PutObject(size) => if t.multipart then s else s.(source := Some(size))
    case PutPart(parts) => if t.multipart && s.session.Some? then s.(session := Some(parts)) else s
    case Touch => s.(updatedAt := s.now)
    case Begin(a) => if PcOf(s, a).Idle? && s.status == Uploading then At(s, a, Guarded) else s
    case ListParts(a) =>
      if PcOf(s, a).Guarded? && t.multipart then
        At(s, a, if s.session.Some? && PartsAccepted(t, s.session.value) then Listed(s.session.value) else Idle)
      else s
    case Assemble(a) =>
      (match PcOf(s, a)
       case Listed(parts) =>
         if Mergeable(s, parts) then At(s.(source := Some(TotalSize(parts)), session := None), a, Assembled)
         else At(s, a, Idle)
       case _ => s)
    case Check(a) =>
      if (if t.multipart then PcOf(s, a).Assembled? else PcOf(s, a).Guarded?) then
        At(s, a, if s.source == Some(t.fileSize) then Checked else Idle)
      else s
    case MarkProcessing(a) =>
      if !PcOf(s, a).Checked? then s
      else if s.status == Uploading then
        At(s.(status := Processing, updatedAt := s.now, wins := s.wins + [ByCompleter(a)]), a, Claimed)
      else At(s, a, Idle)
    case MakeFile(a) =>
      if PcOf(s, a).Claimed? then At(s.(files := s.files + [a]), a, FileMade) else s
    case FileFails(a) =>
      if PcOf(s, a).Claimed? then At(s.(status := Failed, updatedAt := s.now), a, Idle) else s
    case Settle(a, ok) =>
      if PcOf(s, a).FileMade?
        then At(s.(status := if ok then Completed else Failed, updatedAt := s.now), a, Idle) else s
    case StartSweep(a) => if PcOf(s, a).Idle? then At(s, a, CutOff(s.now - EXPIRY_AGE)) else s
    case Query(a) =>
      (match PcOf(s, a)
       case CutOff(cutoff) => At(s, a, if s.status == Uploading && s.updatedAt < cutoff then Selected(cutoff) else Idle)
       case _ => s)
    case Claim(a) =>
      (match PcOf(s, a)
       case Selected(cutoff) =>
         if s.status == Uploading && s.updatedAt < cutoff then
           At(s.(status := Failed, updatedAt := s.now, wins := s.wins + [BySweeper(a)]), a, Expired)
         else At(s, a, Idle)
       case _ => s)
    case AbortSession(a) => if PcOf(s, a).Expired? then At(s.(session := None), a, Aborted) else s
    case DeleteSource(a) => if PcOf(s, a).Aborted? then At(s.(source := None), a, Idle) else s
    case Crash(a) => At(s, a, Idle)
  }

  function Run(t: Task, s: State, steps: seq<Step>): State
    decreases |steps|
  {
    if steps == [] then s else Run(t, Next(t, s, steps[0]), steps[1..])
  }

  // ----- the invariant -----

  ghost predicate AgentInv(t: Task, s: State, a: nat, pc: Pc) {
    match pc
    case Idle => true
    case Guarded => true
    case Listed(_) => true
    case Assembled => s.status == Uploading ==> s.source.Some?
    case Checked => s.status == Uploading ==> s.source.Some?
    case Claimed => s.wins == [ByCompleter(a)] && s.files == []
    case FileMade => s.wins == [ByCompleter(a)]
    case CutOff(cutoff) => cutoff + EXPIRY_AGE <= s.now
    case Selected(cutoff) => cutoff + EXPIRY_AGE <= s.now
    case Expired => s.wins == [BySweeper(a)]
    case Aborted => s.wins == [BySweeper(a)]
  }

  ghost predicate Inv(t: Task, s: State) {
    && s.updatedAt <= s.now
    && (s.status == Uploading <==> s.wins == [])
    && |s.wins| <= 1
    && |s.files| <= 1
    && (forall a :: a in s.files ==> s.wins == [ByCompleter(a)])
    && (s.wins != [] && s.wins[0].ByCompleter? ==> s.source.Some?)
    && (forall a :: a in s.agents ==> AgentInv(t, s, a, s.agents[a]))
  }

  lemma StepKeeps(t: Task, s: State, step: Step)
    requires Inv(t, s)
    ensures Inv(t, Next(t, s, step))
  {
    var u := Next(t, s, step);
    if s.files != [] { assert s.files[0] in s.files; }
    if step.MakeFile? && step.agent in s.agents { assert AgentInv(t, s, step.agent, s.agents[step.agent]); }
    forall a | a in u.agents ensures AgentInv(t, u, a, u.agents[a]) {
      if Acts(step, a) { StepKeepsItsAgent(t, s, step, a); } else { StepKeepsOtherAgent(t, s, step, a); }
    }
  }

  predicate Acts(step: Step, a: nat) {
    !step.Tick? && !step.PutObject? && !step.PutPart? && !step.Touch? && step.agent == a
  }

  lemma StepKeepsItsAgent(t: Task, s: State, step: Step, a: nat)
    requires Inv(t, s) && Acts(step, a) && a in Next(t, s, step).agents
    ensures AgentInv(t, Next(t, s, step), a, Next(t, s, step).agents[a])
  {
    if s.files != [] { assert s.files[0] in s.files; }
    if a in s.agents { assert AgentInv(t, s, a, s.agents[a]); }
  }

  lemma StepKeepsOtherAgent(t: Task, s: State, step: Step, a: nat)
    requires Inv(t, s) && !Acts(step, a) && a in Next(t, s, step).agents
    ensures AgentInv(t, Next(t, s, step), a, Next(t, s, step).agents[a])
  {
    assert AgentInv(t, s, a, s.agents[a]);
    if step.MakeFile? && step.agent in s.agents { assert AgentInv(t, s, step.agent, s.agents[step.agent]); }
  }

  /** A freshly prepared task. */
  predicate Prepared(t: Task, s: State) {
    && s.status == Uploading && s.updatedAt <= s.now && s.wins == [] && s.files == [] && s.agents == map[]
    && (t.multipart ==> s.source == None)
  }

  lemma {:induction false} RunKeeps(t: Task, s: State, steps: seq<Step>)
    requires Inv(t, s)
    ensures Inv(t, Run(t, s, steps))
    decreases |steps|
  {
    if steps != [] {
      StepKeeps(t, s, steps[0]);
      RunKeeps(t, Next(t, s, steps[0]), steps[1..]);
    }
  }

  /**
   Whatever the interleaving: at most one compare-and-set takes the task out of
   Uploading; at most one file is created, by the completer that won; and as long
   as a file exists its source object is there, so no sweep has deleted it.
   */
  lemma RaceIsSafe(t: Task, s: State, steps: seq<Step>)
    requires Prepared(t, s)
    ensures var last := Run(t, s, steps);
      && |last.wins| <= 1 && (last.status == Uploading <==> last.wins == [])
      && |last.files| <= 1 && (forall a :: a in last.files ==> last.wins == [ByCompleter(a)])
      && (last.files != [] ==> last.source.Some?)
      && (forall a :: PcOf(last, a).Expired? || PcOf(last, a).Aborted? ==> last.files == [])
  {
    RunKeeps(t, s, steps);
    var last := Run(t, s, steps);
    if last.files != [] { assert last.files[0] in last.files; }
    forall a | PcOf(last, a).Expired? || PcOf(last, a).Aborted?
      ensures last.files == []
    {
      assert AgentInv(t, last, a, last.agents[a]);
    }
  }

  // ----- a refreshed task is not expired -----

  /** A sweep that had selected the task by then and has not yet claimed it. */
  ghost predicate SelectedBefore(s: State, a: nat, cutoff: int) {
    PcOf(s, a) == CutOff(cutoff) || PcOf(s, a) == Selected(cutoff)
  }

  lemma {:induction false} UpdatedAtNeverGoesBack(t: Task, s: State, steps: seq<Step>)
    requires Inv(t, s)
    ensures s.updatedAt <= Run(t, s, steps).updatedAt
    decreases |steps|
  {
    if steps != [] {
      StepKeeps(t, s, steps[0]);
      UpdatedAtNeverGoesBack(t, Next(t, s, steps[0]), steps[1..]);
    }
  }

  /**
   Activity recorded after a sweep computed its cutoff protects the task from that
   sweep for good: its claim changes nothing, however much later it comes.
   */
  lemma RefreshedIsNotExpired(t: Task, s: State, steps: seq<Step>, a: nat, cutoff: int)
    requires Inv(t, s) && SelectedBefore(s, a, cutoff)
    requires PcOf(Run(t, Next(t, s, Touch), steps), a) == Selected(cutoff)
    ensures var last := Run(t, Next(t, s, Touch), steps);
      Next(t, last, Claim(a)) == At(last, a, Idle)
  {
    var touched := Next(t, s, Touch);
    StepKeeps(t, s, Touch);
    assert AgentInv(t, s, a, s.agents[a]);
    UpdatedAtNeverGoesBack(t, touched, steps);
  }

  /** A task is expired only after EXPIRY_AGE without recorded activity. */
  lemma ExpiredOnlyWhenStale(t: Task, s: State, a: nat)
    requires Inv(t, s)
    ensures PcOf(Next(t, s, Claim(a)), a).Expired? && !PcOf(s, a).Expired? ==> s.updatedAt + EXPIRY_AGE < s.now
  {
    if a in s.agents { assert AgentInv(t, s, a, s.agents[a]); }
  }

  // ----- what completes, and what a sweep does, when nothing interferes -----

  function CompletionSteps(t: Task, a: nat): seq<Step> {
    if t.multipart then [Begin(a), ListParts(a), Assemble(a), Check(a), MarkProcessing(a), MakeFile(a)]
    else [Begin(a), Check(a), MarkProcessing(a), MakeFile(a)]
  }

  /** The task awaits completion and the uploaded object, or the listed parts, have the declared size. */
  predicate Completable(t: Task, s: State) {
    && s.status == Uploading
    && if t.multipart then s.session.Some? && PartsAccepted(t, s.session.value) else s.source == Some(t.fileSize)
  }

  lemma RunFirst(t: Task, s: State, step: Step, rest: seq<Step>)
    ensures Run(t, s, [step] + rest) == Run(t, Next(t, s, step), rest)
  {
    assert ([step] + rest)[1..] == rest;
  }

  /**
   An uninterrupted completion creates its file exactly when the task is completable, and
   then the task is claimed by it.
   */
  lemma CompletionIff(t: Task, s: State, a: nat)
    requires PcOf(s, a).Idle?
    ensures var last := Run(t, s, CompletionSteps(t, a));
      && last.files == (if Completable(t, s) then s.files + [a] else s.files)
      && last.wins == (if Completable(t, s) then s.wins + [ByCompleter(a)] else s.wins)
      && (Completable(t, s) ==> last.status == Processing && last.source == Some(t.fileSize))
      && (Completable(t, s) ==> PcOf(last, a) == FileMade)
  {
    RunOfCompletion(t, s, a);
  }

  /** The state just before the compare-and-set of an uninterrupted completion. */
  function ReadyToClaim(t: Task, s: State, a: nat): State {
    var begun := Next(t, s, Begin(a));
    var merged := if t.multipart then Next(t, Next(t, begun, ListParts(a)), Assemble(a)) else begun;
    Next(t, merged, Check(a))
  }

  lemma RunOfCompletion(t: Task, s: State, a: nat)
    ensures Run(t, s, CompletionSteps(t, a)) == Next(t, Next(t, ReadyToClaim(t, s, a), MarkProcessing(a)), MakeFile(a))
  {
    var end := [MarkProcessing(a), MakeFile(a)];
    var begun := Next(t, s, Begin(a));
    var middle := if t.multipart then [ListParts(a)] + ([Assemble(a)] + ([Check(a)] + end)) else [Check(a)] + end;
    assert CompletionSteps(t, a) == [Begin(a)] + middle;
    RunFirst(t, s, Begin(a), middle);
    if t.multipart {
      var listed := Next(t, begun, ListParts(a));
      RunFirst(t, begun, ListParts(a), [Assemble(a)] + ([Check(a)] + end));
      RunFirst(t, listed, Assemble(a), [Check(a)] + end);
      RunFirst(t, Next(t, listed, Assemble(a)), Check(a), end);
    } else {
      RunFirst(t, begun, Check(a), end);
    }
    EndOfCompletion(t, ReadyToClaim(t, s, a), a);
  }

  lemma EndOfCompletion(t: Task, s: State, a: nat)
    ensures Run(t, s, [MarkProcessing(a), MakeFile(a)]) == Next(t, Next(t, s, MarkProcessing(a)), MakeFile(a))
  {
    var s1 := Next(t, s, MarkProcessing(a));
    RunFirst(t, s, MarkProcessing(a), [MakeFile(a)]);
    assert [MarkProcessing(a)] + [MakeFile(a)] == [MarkProcessing(a), MakeFile(a)];
    RunFirst(t, s1, MakeFile(a), []);
    assert [MakeFile(a)] + [] == [MakeFile(a)];
  }

  /** The client's half: it stores an object of the declared size, or all the parts. */
  function UploadStep(t: Task, parts: seq<Part>): Step {
    if t.multipart then PutPart(parts) else PutObject(t.fileSize)
  }

  /** An upload, an uninterrupted completion and its last update make a completed task with one file. */
  lemma UploadThenComplete(t: Task, s: State, a: nat, parts: seq<Part>, ok: bool)
    requires Prepared(t, s) && (t.multipart ==> s.session.Some? && PartsAccepted(t, parts))
    ensures var uploaded := Next(t, s, UploadStep(t, parts));
      var last := Next(t, Run(t, uploaded, CompletionSteps(t, a)), Settle(a, ok));
      && last.status == (if ok then Completed else Failed) && last.files == [a] && PcOf(last, a).Idle?
      && last.source == Some(t.fileSize)
  {
    CompletionIff(t, Next(t, s, UploadStep(t, parts)), a);
  }

  /** A claim whose file cannot be created ends in a failed task without a file. */
  lemma FailedFileFailsTheTask(t: Task, s: State, a: nat)
    requires Inv(t, s) && PcOf(s, a).Claimed?
    ensures var last := Next(t, s, FileFails(a)); last.status == Failed && last.files == [] && PcOf(last, a).Idle?
  {
    assert AgentInv(t, s, a, s.agents[a]);
  }

  /**
   A completion that dies between its claim and its file leaves the task Processing for
   good: whatever is run afterwards, nobody takes it up, expires it or creates its file.
   */
  lemma {:induction false} CrashAfterClaimSticks(t: Task, s: State, a: nat, steps: seq<Step>)
    requires Inv(t, s) && PcOf(s, a).Claimed? && s.status == Processing
    ensures var last := Run(t, Next(t, s, Crash(a)), steps);
      last.status == Processing && last.files == [] && last.wins == [ByCompleter(a)]
  {
    assert AgentInv(t, s, a, s.agents[a]);
    StepKeeps(t, s, Crash(a));
    OrphanStays(t, Next(t, s, Crash(a)), a, steps);
  }

  /** The task was claimed by a request that is gone. */
  ghost predicate Orphan(s: State, a: nat) {
    && s.status == Processing && s.files == [] && s.wins == [ByCompleter(a)]
    && !PcOf(s, a).Claimed? && !PcOf(s, a).FileMade?
  }

  lemma {:induction false} OrphanStays(t: Task, s: State, a: nat, steps: seq<Step>)
    requires Inv(t, s) && Orphan(s, a)
    ensures Orphan(Run(t, s, steps), a)
    decreases |steps|
  {
    if steps != [] {
      StepKeeps(t, s, steps[0]);
      OrphanStep(t, s, a, steps[0]);
      OrphanStays(t, Next(t, s, steps[0]), a, steps[1..]);
    }
  }

  lemma OrphanStep(t: Task, s: State, a: nat, step: Step)
    requires Inv(t, s) && Orphan(s, a)
    ensures Orphan(Next(t, s, step), a)
  {
    forall b | b in s.agents ensures !s.agents[b].Claimed? && !s.agents[b].FileMade? {
      assert AgentInv(t, s, b, s.agents[b]);
    }
  }

  /**
   An uninterrupted sweep expires the task, and deletes its object, exactly when it has
   been Uploading without activity for the expiry age.
   */
  lemma SweepIff(t: Task, s: State, a: nat)
    requires PcOf(s, a).Idle?
    ensures var last := Run(t, s, [StartSweep(a), Query(a), Claim(a), AbortSession(a), DeleteSource(a)]);
      var stale := s.status == Uploading && s.updatedAt + EXPIRY_AGE < s.now;
      && last.status == (if stale then Failed else s.status)
      && last.source == (if stale then None else s.source)
      && last.session == (if stale then None else s.session)
      && last.wins == (if stale then s.wins + [BySweeper(a)] else s.wins)
      && last.files == s.files
  {
    var s1 := Next(t, s, StartSweep(a));
    var s2 := Next(t, s1, Query(a));
    var end := [Claim(a), AbortSession(a), DeleteSource(a)];
    RunFirst(t, s, StartSweep(a), [Query(a)] + end);
    RunFirst(t, s1, Query(a), end);
    assert [StartSweep(a)] + ([Query(a)] + end) ==
      [StartSweep(a), Query(a), Claim(a), AbortSession(a), DeleteSource(a)];
    EndOfSweep(t, s2, a);
  }

  lemma EndOfSweep(t: Task, s: State, a: nat)
    ensures Run(t, s, [Claim(a), AbortSession(a), DeleteSource(a)])
      == Next(t, Next(t, Next(t, s, Claim(a)), AbortSession(a)), DeleteSource(a))
  {
    var s1 := Next(t, s, Claim(a));
    var s2 := Next(t, s1, AbortSession(a));
    RunFirst(t, s, Claim(a), [AbortSession(a), DeleteSource(a)]);
    assert [Claim(a)] + [AbortSession(a), DeleteSource(a)] == [Claim(a), AbortSession(a), DeleteSource(a)];
    RunFirst(t, s1, AbortSession(a), [DeleteSource(a)]);
    assert [AbortSession(a)] + [DeleteSource(a)] == [AbortSession(a), DeleteSource(a)];
    RunFirst(t, s2, DeleteSource(a), []);
    assert [DeleteSource(a)] + [] == [DeleteSource(a)];
  }
}
