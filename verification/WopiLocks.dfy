/**
 The WOPI lock operations (internal/service/wopi.go) over the lock transactions.
 One operation is two or three transactions, and other clients run theirs in
 between. Lock semantics are those of section 3.3.5.1 of [MS-WOPI].
 */
module WopiLocks {
  import opened Common
  import opened Text
  import opened FileLocks

  datatype Operation = GetLockOp | LockOp | RefreshLockOp | UnlockOp | UnlockAndRelockOp | OtherOp

  datatype WopiError = Unauthorized | InvalidLockOperation | Conflict | FromLock(error: LockError)

  /** The lock the response reports, and the error if any. */
  datatype Outcome = Outcome(currentLock: string, error: Option<WopiError>)

  datatype Request = Request(canEdit: bool, op: Operation, file: Id, lockId: string, oldLockId: string,
        account: Option<string>)

  /** When the transactions of one operation run, what other clients run in between, and the key of a new row. */
  datatype Schedule = Schedule(first: int, between: seq<Txn>, second: int, beforeThird: seq<Txn>, third: int, newId: Id)

  const WOPI_TIMEOUT := 1800

  /** The token an UNLOCK_AND_RELOCK has to hold. */
  function ExpectedToken(r: Request): string {
    if TrimSpace(r.oldLockId) == "" then TrimSpace(r.lockId) else TrimSpace(r.oldLockId)
  }

  /** The table when the second transaction starts. */
  function AtSecond(ls: Locks, r: Request, s: Schedule): Locks {
    Run(GetTxn(ls, r.file, s.first).0, s.between)
  }

  /** The table when the acquire of an UNLOCK_AND_RELOCK starts. */
  function AtThird(ls: Locks, r: Request, s: Schedule): Locks {
    Run(ReleaseTxn(AtSecond(ls, r, s), r.file, ExpectedToken(r), s.second).0, s.beforeThird)
  }

  function ErrorOf<T>(r: Result<T, LockError>): Option<WopiError> {
    match r case Ok(_) => None case Err(e) => Some(FromLock(e))
  }

  /** HandleLock under a schedule: the final table and the response. */
  function HandleLock(ls: Locks, r: Request, s: Schedule): (Locks, Outcome) {
    if !r.canEdit then (ls, Outcome("", Some(Unauthorized)))
    else
      var lockId := TrimSpace(r.lockId);
      var seen := GetTxn(ls, r.file, s.first);
      var current := match seen.1 case None => "" case Some(lock) => lock.token;
      match r.op
      case OtherOp => (seen.0, Outcome("", Some(InvalidLockOperation)))
      case GetLockOp => (seen.0, Outcome(current, None))
      case LockOp =>
        if lockId == "" then (seen.0, Outcome("", Some(InvalidLockOperation)))
        else if seen.1.Some? && current != lockId then (seen.0, Outcome(current, Some(Conflict)))
        else
          var got := AcquireTxn(AtSecond(ls, r, s), r.file, "wopi", lockId, r.account, WOPI_TIMEOUT, s.second, s.newId);
          (got.0, Outcome(if got.1.Ok? then lockId else current, ErrorOf(got.1)))
      case RefreshLockOp =>
        if seen.1 == None || current != lockId then (seen.0, Outcome(current, Some(Conflict)))
        else
          var got := RefreshTxn(AtSecond(ls, r, s), r.file, lockId, WOPI_TIMEOUT, s.second);
          (got.0, Outcome(current, ErrorOf(got.1)))
      case UnlockOp =>
        if seen.1 == None || current != lockId then (seen.0, Outcome(current, Some(Conflict)))
        else
          var got := ReleaseTxn(AtSecond(ls, r, s), r.file, lockId, s.second);
          (got.0, Outcome(current, ErrorOf(got.1)))
      case UnlockAndRelockOp =>
        if seen.1 == None || current != ExpectedToken(r) || lockId == "" then (seen.0, Outcome(current, Some(Conflict)))
        else
          var released := ReleaseTxn(AtSecond(ls, r, s), r.file, ExpectedToken(r), s.second);
          if released.1.Err? then (released.0, Outcome(current, ErrorOf(released.1)))
          else
            var got := AcquireTxn(AtThird(ls, r, s), r.file, "wopi", lockId, r.account, WOPI_TIMEOUT, s.third, s.newId);
            (got.0, Outcome(if got.1.Ok? then lockId else current, ErrorOf(got.1)))
  }

  /** What one operation assumes of the table: keys of new rows are fresh at every point. */
  ghost predicate FreshSchedule(ls: Locks, r: Request, s: Schedule) {
    && OneRowPerFile(ls) && FreshKeys(GetTxn(ls, r.file, s.first).0, s.between)
    && FreshKeys(ReleaseTxn(AtSecond(ls, r, s), r.file, ExpectedToken(r), s.second).0, s.beforeThird)
    && s.newId !in AtSecond(ls, r, s) && s.newId !in AtThird(ls, r, s)
  }

  lemma ScheduleKeepsOneRow(ls: Locks, r: Request, s: Schedule)
    requires FreshSchedule(ls, r, s)
    ensures OneRowPerFile(AtSecond(ls, r, s)) && OneRowPerFile(AtThird(ls, r, s))
  {
    ExecKeepsOneRow(ls, Txn(Get(r.file), s.first));
    RunKeepsOneRow(GetTxn(ls, r.file, s.first).0, s.between);
    ExecKeepsOneRow(AtSecond(ls, r, s), Txn(Release(r.file, ExpectedToken(r)), s.second));
    RunKeepsOneRow(ReleaseTxn(AtSecond(ls, r, s), r.file, ExpectedToken(r), s.second).0, s.beforeThird);
  }

  /** The lock the first transaction sees is the one holder at that moment. */
  lemma SeenIsTheHolder(ls: Locks, r: Request, s: Schedule)
    requires OneRowPerFile(ls)
    ensures match GetTxn(ls, r.file, s.first).1
      case None => forall other :: !HeldBy(ls, r.file, other, s.first)
      case Some(lock) => OnlyHolder(ls, r.file, lock.token, s.first)
  {
    FoundIsTheHolder(ls, r.file, s.first);
  }

  /** The token holds the file at both of the operation's first two moments. */
  ghost predicate HeldAtBoth(ls: Locks, r: Request, s: Schedule, token: string) {
    HeldBy(ls, r.file, token, s.first) && HeldBy(AtSecond(ls, r, s), r.file, token, s.second)
  }

  ghost predicate NoOtherHolder(ls: Locks, file: Id, token: string, now: int) {
    forall other :: HeldBy(ls, file, other, now) ==> other == token
  }

  ghost predicate FreeAtBoth(ls: Locks, r: Request, s: Schedule, token: string) {
    NoOtherHolder(ls, r.file, token, s.first) && NoOtherHolder(AtSecond(ls, r, s), r.file, token, s.second)
  }

  /** GET_LOCK reports the holder's token, or nothing when nobody holds the file. */
  lemma GetLockReports(ls: Locks, r: Request, s: Schedule)
    requires OneRowPerFile(ls) && r.op == GetLockOp && r.canEdit
    ensures var answer := HandleLock(ls, r, s).1;
      && answer.error == None
      && (forall other :: HeldBy(ls, r.file, other, s.first) ==> other == answer.currentLock)
      && ((forall other :: !HeldBy(ls, r.file, other, s.first)) ==> answer.currentLock == "")
  {
    SeenIsTheHolder(ls, r, s);
  }

  /** What a request must find at its first moment: for a LOCK no other holder, otherwise its own lock. */
  ghost predicate FindsItsLock(ls: Locks, r: Request, now: int) {
    match r.op
    case LockOp => NoOtherHolder(ls, r.file, TrimSpace(r.lockId), now)
    case RefreshLockOp => HeldBy(ls, r.file, TrimSpace(r.lockId), now)
    case UnlockOp => HeldBy(ls, r.file, TrimSpace(r.lockId), now)
    case UnlockAndRelockOp =>
      && TrimSpace(r.lockId) != ""
      && HeldBy(ls, r.file, if TrimSpace(r.oldLockId) == "" then TrimSpace(r.lockId) else TrimSpace(r.oldLockId), now)
    case _ => true
  }

  /**
   Which requests are refused and how: without edit rights, without a valid operation, or
   with a conflict, exactly when the lock is not as the operation needs it; a conflict
   names the token that holds the file, or none when nobody does.
   */
  lemma RefusedIff(ls: Locks, r: Request, s: Schedule)
    requires OneRowPerFile(ls)
    ensures var answer := HandleLock(ls, r, s).1;
      var invalid := r.op == OtherOp || (r.op == LockOp && TrimSpace(r.lockId) == "");
      && (answer.error == Some(Unauthorized) <==> !r.canEdit)
      && (answer.error == Some(InvalidLockOperation) <==> r.canEdit && invalid)
      && (answer.error == Some(Conflict) <==> r.canEdit && !invalid && !FindsItsLock(ls, r, s.first))
      && (answer.error == Some(Conflict) ==>
            && (forall other :: HeldBy(ls, r.file, other, s.first) ==> other == answer.currentLock)
            && ((forall other :: !HeldBy(ls, r.file, other, s.first)) ==> answer.currentLock == ""))
  {
    SeenIsTheHolder(ls, r, s);
  }

  /**
   Whatever runs in between, LOCK succeeds exactly when its token is not blank and no
   other token holds the file at either of its two moments; it then holds the file for
   the WOPI timeout.
   */
  lemma LockIff(ls: Locks, r: Request, s: Schedule)
    requires FreshSchedule(ls, r, s) && r.op == LockOp
    ensures var result := HandleLock(ls, r, s); var lockId := TrimSpace(r.lockId);
      && (result.1.error == None <==> r.canEdit && lockId != "" && FreeAtBoth(ls, r, s, lockId))
      && (result.1.error == None ==>
        HeldUntil(result.0, r.file, lockId, s.second + WOPI_TIMEOUT) && result.1.currentLock == lockId)
  {
    ScheduleKeepsOneRow(ls, r, s);
    TrimmedTwice(r.lockId);
    SeenIsTheHolder(ls, r, s);
    AcquireIff(AtSecond(ls, r, s), r.file, "wopi", TrimSpace(r.lockId), r.account, WOPI_TIMEOUT, s.second, s.newId);
  }

  /** REFRESH_LOCK succeeds exactly when its token holds the file at both moments, and restarts the timeout. */
  lemma RefreshLockIff(ls: Locks, r: Request, s: Schedule)
    requires FreshSchedule(ls, r, s) && r.op == RefreshLockOp
    ensures var result := HandleLock(ls, r, s); var lockId := TrimSpace(r.lockId);
      && (result.1.error == None <==> r.canEdit && HeldAtBoth(ls, r, s, lockId))
      && (result.1.error == None ==> HeldUntil(result.0, r.file, lockId, s.second + WOPI_TIMEOUT))
  {
    ScheduleKeepsOneRow(ls, r, s);
    SeenIsTheHolder(ls, r, s);
    RefreshIff(AtSecond(ls, r, s), r.file, TrimSpace(r.lockId), WOPI_TIMEOUT, s.second);
  }

  /** UNLOCK succeeds exactly when its token holds the file at both moments, and leaves the file unlocked. */
  lemma UnlockIff(ls: Locks, r: Request, s: Schedule)
    requires FreshSchedule(ls, r, s) && r.op == UnlockOp
    ensures var result := HandleLock(ls, r, s); var lockId := TrimSpace(r.lockId);
      && (result.1.error == None <==> r.canEdit && HeldAtBoth(ls, r, s, lockId))
      && (result.1.error == None ==> forall other, later :: !HeldBy(result.0, r.file, other, later))
  {
    ScheduleKeepsOneRow(ls, r, s);
    SeenIsTheHolder(ls, r, s);
    ReleaseIff(AtSecond(ls, r, s), r.file, TrimSpace(r.lockId), s.second);
  }

  /** The release half of UNLOCK_AND_RELOCK went through. */
  ghost predicate Unlocked(ls: Locks, r: Request, s: Schedule) {
    && r.canEdit && r.op == UnlockAndRelockOp && TrimSpace(r.lockId) != ""
    && GetTxn(ls, r.file, s.first).1.Some? && GetTxn(ls, r.file, s.first).1.value.token == ExpectedToken(r)
    && ReleaseTxn(AtSecond(ls, r, s), r.file, ExpectedToken(r), s.second).1.Ok?
  }

  /** It goes through exactly when the expected token holds the file at both moments. */
  lemma UnlockedIff(ls: Locks, r: Request, s: Schedule)
    requires FreshSchedule(ls, r, s) && r.canEdit && r.op == UnlockAndRelockOp && TrimSpace(r.lockId) != ""
    ensures var token := if TrimSpace(r.oldLockId) == "" then TrimSpace(r.lockId) else TrimSpace(r.oldLockId);
      Unlocked(ls, r, s) <==> HeldAtBoth(ls, r, s, token)
    ensures !Unlocked(ls, r, s) ==> HandleLock(ls, r, s).1.error.Some?
  {
    ScheduleKeepsOneRow(ls, r, s);
    SeenIsTheHolder(ls, r, s);
    ReleaseIff(AtSecond(ls, r, s), r.file, ExpectedToken(r), s.second);
  }

  /**
   UNLOCK_AND_RELOCK is not atomic. Once its release went through it succeeds
   exactly when no other client's token holds the file at the acquire; it then
   holds the caller's new token, and otherwise it leaves the caller without it.
   */
  lemma RelockIff(ls: Locks, r: Request, s: Schedule)
    requires FreshSchedule(ls, r, s) && Unlocked(ls, r, s)
    ensures var result := HandleLock(ls, r, s); var lockId := TrimSpace(r.lockId);
      && (result.1.error == None <==>
        forall other :: HeldBy(AtThird(ls, r, s), r.file, other, s.third) ==> other == lockId)
      && (result.1.error == None ==> HeldBy(result.0, r.file, lockId, s.third) && result.1.currentLock == lockId)
      && (result.1.error.Some? ==>
        result.1.error == Some(FromLock(LockConflict)) && !HeldBy(result.0, r.file, lockId, s.third))
  {
    ScheduleKeepsOneRow(ls, r, s);
    TrimmedTwice(r.lockId);
    var lockId := TrimSpace(r.lockId);
    var before := AtThird(ls, r, s);
    AcquireIff(before, r.file, "wopi", lockId, r.account, WOPI_TIMEOUT, s.third, s.newId);
    var got := AcquireTxn(before, r.file, "wopi", lockId, r.account, WOPI_TIMEOUT, s.third, s.newId);
    if got.1.Err? {
      assert got == (before, Err(LockConflict));
      var other :| HeldBy(before, r.file, other, s.third) && other != lockId;
      if HeldBy(before, r.file, lockId, s.third) { OneHolder(before, [], r.file, lockId, other, s.third); }
    }
  }

  /** With no other client in between, an UNLOCK_AND_RELOCK by the holder always succeeds. */
  lemma RelockUninterrupted(ls: Locks, r: Request, s: Schedule)
    requires FreshSchedule(ls, r, s) && r.canEdit && r.op == UnlockAndRelockOp && TrimSpace(r.lockId) != ""
    requires s.between == [] && s.beforeThird == [] && s.first <= s.second
    requires HeldBy(ls, r.file, ExpectedToken(r), s.second)
    ensures HandleLock(ls, r, s).1.error == None
  {
    ScheduleKeepsOneRow(ls, r, s);
    var id :| id in ls && ls[id].file == r.file && ls[id].token == ExpectedToken(r) && ls[id].expiresAt > s.second;
    var seen := GetTxn(ls, r.file, s.first).0;
    FirstIsTheRow(seen, r.file, id);
    FirstIsTheRow(Unexpired(seen, s.second), r.file, id);
    RelockIff(ls, r, s);
  }

  /** A lock that another client takes between the release and the acquire is kept, and the relock is refused. */
  lemma LockTakenInTheGapStays(ls: Locks, r: Request, s: Schedule, token: string, deadline: int)
    requires FreshSchedule(ls, r, s) && Unlocked(ls, r, s) && token != TrimSpace(r.lockId)
    requires HeldUntil(AtThird(ls, r, s), r.file, token, deadline) && s.third < deadline
    ensures HandleLock(ls, r, s).1.error == Some(FromLock(LockConflict))
    ensures HeldUntil(HandleLock(ls, r, s).0, r.file, token, deadline)
  {
    ScheduleKeepsOneRow(ls, r, s);
    var acquire := Txn(ThirdCall(r, s), s.third);
    assert HeldBy(AtThird(ls, r, s), r.file, token, s.third);
    RelockIff(ls, r, s);
    ExecKeepsHolder(AtThird(ls, r, s), acquire, r.file, token, deadline);
  }

  const HELD_BY_A: Locks := map["1" := Lock("f", "a", "wopi", None, 1800, 100)]
  const TAKEN_BY_C: Locks := map["2" := Lock("f", "c", "dav", None, 60, 62)]
  const A_TO_B := Request(true, UnlockAndRelockOp, "f", "b", "a", None)
  const C_ACQUIRES := Txn(Acquire("f", "dav", "c", None, 60, "2"), 2)
  const C_IN_THE_GAP := Schedule(0, [], 1, [C_ACQUIRES], 3, "3")

  /** A holder of "a" asks for "b" and ends without any lock: "c" was taken in the gap. */
  lemma RelockCanLoseTheLock()
    ensures var result := HandleLock(HELD_BY_A, A_TO_B, C_IN_THE_GAP);
      && FreshSchedule(HELD_BY_A, A_TO_B, C_IN_THE_GAP) && HeldBy(HELD_BY_A, "f", "a", 1)
      && result.1.error == Some(FromLock(LockConflict)) && HeldUntil(result.0, "f", "c", 62)
      && !HeldBy(result.0, "f", "a", 3) && !HeldBy(result.0, "f", "b", 3)
  {
    GapTables();
    RowHoldsUntil(HELD_BY_A, "1");
    RowHoldsUntil(TAKEN_BY_C, "2");
    LockTakenInTheGapStays(HELD_BY_A, A_TO_B, C_IN_THE_GAP, "c", 62);
    var result := HandleLock(HELD_BY_A, A_TO_B, C_IN_THE_GAP);
    assert HeldBy(result.0, "f", "c", 3);
    ExecKeepsOneRow(TAKEN_BY_C, Txn(ThirdCall(A_TO_B, C_IN_THE_GAP), 3));
    assert result.0 == Exec(TAKEN_BY_C, Txn(ThirdCall(A_TO_B, C_IN_THE_GAP), 3));
    assert OneRowPerFile(result.0);
  }

  lemma GapTokens()
    ensures TrimSpace(A_TO_B.lockId) == "b" && ExpectedToken(A_TO_B) == "a" && TrimSpace("c") == "c"
  {
  }

  /** The table at each transaction of that schedule. */
  lemma GapTables()
    ensures OneRowPerFile(HELD_BY_A) && OneRowPerFile(TAKEN_BY_C)
    ensures AtThird(HELD_BY_A, A_TO_B, C_IN_THE_GAP) == TAKEN_BY_C
    ensures FreshSchedule(HELD_BY_A, A_TO_B, C_IN_THE_GAP) && Unlocked(HELD_BY_A, A_TO_B, C_IN_THE_GAP)
  {
    var empty: Locks := map[];
    GapTokens();
    assert Unexpired(HELD_BY_A, 0) == HELD_BY_A == Unexpired(HELD_BY_A, 1) && Unexpired(empty, 2) == empty;
    FirstIsTheRow(HELD_BY_A, "f", "1");
    assert HELD_BY_A - {"1"} == empty;
    assert AtSecond(HELD_BY_A, A_TO_B, C_IN_THE_GAP) == HELD_BY_A;
    assert ReleaseTxn(HELD_BY_A, "f", "a", 1) == (empty, Ok(()));
    GapAcquire();
  }

  lemma GapAcquire()
    ensures var empty: Locks := map[]; Run(empty, [C_ACQUIRES]) == TAKEN_BY_C && FreshKeys(empty, [C_ACQUIRES])
  {
    var empty: Locks := map[];
    GapTokens();
    assert Unexpired(empty, 2) == empty && RowsOf(empty, "f") == {};
    assert Exec(empty, C_ACQUIRES) == TAKEN_BY_C;
    FoldOne(Exec, empty, C_ACQUIRES);
    assert [C_ACQUIRES][1..] == [];
  }

  // ----- an operation is a run of transactions -----

  /** The operation goes on to its second transaction. */
  predicate PastGuard(ls: Locks, r: Request, s: Schedule) {
    var seen := GetTxn(ls, r.file, s.first).1;
    var lockId := TrimSpace(r.lockId);
    match r.op
    case LockOp => lockId != "" && (seen.Some? ==> seen.value.token == lockId)
    case RefreshLockOp => seen.Some? && seen.value.token == lockId
    case UnlockOp => seen.Some? && seen.value.token == lockId
    case UnlockAndRelockOp => seen.Some? && seen.value.token == ExpectedToken(r) && lockId != ""
    case _ => false
  }

  function SecondCall(r: Request, s: Schedule): Call {
    var lockId := TrimSpace(r.lockId);
    match r.op
    case LockOp => Acquire(r.file, "wopi", lockId, r.account, WOPI_TIMEOUT, s.newId)
    case UnlockOp => Release(r.file, lockId)
    case UnlockAndRelockOp => Release(r.file, ExpectedToken(r))
    case _ => Refresh(r.file, lockId, WOPI_TIMEOUT)
  }

  /** The operation goes on to a third transaction: a relock whose release went through. */
  predicate Relocks(ls: Locks, r: Request, s: Schedule) {
    r.op == UnlockAndRelockOp && ReleaseTxn(AtSecond(ls, r, s), r.file, ExpectedToken(r), s.second).1.Ok?
  }

  function ThirdCall(r: Request, s: Schedule): Call {
    Acquire(r.file, "wopi", TrimSpace(r.lockId), r.account, WOPI_TIMEOUT, s.newId)
  }

  /** Everything that runs on the table from the first transaction of the operation to its last. */
  function Transactions(ls: Locks, r: Request, s: Schedule): seq<Txn> {
    var first := [Txn(Get(r.file), s.first)];
    var firstTwo := first + s.between + [Txn(SecondCall(r, s), s.second)];
    if !r.canEdit then []
    else if !PastGuard(ls, r, s) then first
    else if !Relocks(ls, r, s) then firstTwo
    else firstTwo + s.beforeThird + [Txn(ThirdCall(r, s), s.third)]
  }

  /** The table an operation leaves, transaction by transaction. */
  lemma TableAfter(ls: Locks, r: Request, s: Schedule)
    requires r.canEdit
    ensures HandleLock(ls, r, s).0 ==
      if !PastGuard(ls, r, s) then GetTxn(ls, r.file, s.first).0
      else if !Relocks(ls, r, s) then Exec(AtSecond(ls, r, s), Txn(SecondCall(r, s), s.second))
      else Exec(AtThird(ls, r, s), Txn(ThirdCall(r, s), s.third))
  {
  }

  lemma RunFirstTwo(ls: Locks, r: Request, s: Schedule)
    ensures Run(ls, [Txn(Get(r.file), s.first)]) == GetTxn(ls, r.file, s.first).0
    ensures Run(ls, [Txn(Get(r.file), s.first)] + s.between + [Txn(SecondCall(r, s), s.second)])
      == Exec(AtSecond(ls, r, s), Txn(SecondCall(r, s), s.second))
  {
    var first := [Txn(Get(r.file), s.first)];
    FoldOne(Exec, ls, first[0]);
    FoldAppend(Exec, ls, first, s.between);
    FoldAppend(Exec, ls, first + s.between, [Txn(SecondCall(r, s), s.second)]);
    FoldOne(Exec, AtSecond(ls, r, s), Txn(SecondCall(r, s), s.second));
  }

  /**
   A WOPI operation changes the table only through its own transactions and those
   of the clients in between, and the only lock it releases itself is the one the
   request names.
   */
  lemma OperationIsARun(ls: Locks, r: Request, s: Schedule)
    ensures HandleLock(ls, r, s).0 == Run(ls, Transactions(ls, r, s))
    ensures forall t :: t in Transactions(ls, r, s) && t.call.Release? ==>
      t in s.between || t in s.beforeThird || t.call == SecondCall(r, s)
  {
    if r.canEdit {
      TableAfter(ls, r, s);
      RunFirstTwo(ls, r, s);
      if PastGuard(ls, r, s) && Relocks(ls, r, s) {
        var firstTwo := [Txn(Get(r.file), s.first)] + s.between + [Txn(SecondCall(r, s), s.second)];
        FoldAppend(Exec, ls, firstTwo, s.beforeThird);
        FoldAppend(Exec, ls, firstTwo + s.beforeThird, [Txn(ThirdCall(r, s), s.third)]);
        FoldOne(Exec, AtThird(ls, r, s), Txn(ThirdCall(r, s), s.third));
      }
    }
  }

  /** The request names this lock. */
  predicate Names(r: Request, file: Id, token: string) {
    file == r.file && (token == TrimSpace(r.lockId) || token == ExpectedToken(r))
  }

  /** The lock's deadline at the second transaction, as the calls in between move it, and at the third. */
  function DeadlineAtSecond(s: Schedule, file: Id, token: string, deadline: int): int {
    DeadlineAfter(deadline, s.between, file, token)
  }

  function DeadlineAtThird(s: Schedule, file: Id, token: string, deadline: int): int {
    DeadlineAfter(DeadlineAtSecond(s, file, token, deadline), s.beforeThird, file, token)
  }

  /**
   Read off the schedule: no transaction that runs comes at or after the lock's deadline,
   and no other client releases it.
   */
  predicate OperationInTime(ls: Locks, r: Request, s: Schedule, file: Id, token: string, deadline: int) {
    var second := DeadlineAtSecond(s, file, token, deadline);
    && s.first < deadline
    && (PastGuard(ls, r, s) ==> InTime(deadline, s.between, file, token) && s.second < second)
    && (PastGuard(ls, r, s) && Relocks(ls, r, s) ==>
          InTime(second, s.beforeThird, file, token) && s.third < DeadlineAtThird(s, file, token, deadline))
  }

  /**
   An operation leaves every lock its request does not name as it finds it, whatever
   the operation is and whatever runs in between, the gap of an UNLOCK_AND_RELOCK
   included: the lock is still held, and only its own holder's calls moved its deadline.
   */
  lemma OperationSparesOtherLocks(ls: Locks, r: Request, s: Schedule, file: Id, token: string, deadline: int)
    requires FreshSchedule(ls, r, s) && HeldUntil(ls, file, token, deadline)
    requires !Names(r, file, token) && OperationInTime(ls, r, s, file, token, deadline)
    ensures HeldUntil(HandleLock(ls, r, s).0, file, token,
      if !r.canEdit || !PastGuard(ls, r, s) then deadline
      else if !Relocks(ls, r, s) then DeadlineAtSecond(s, file, token, deadline)
      else DeadlineAtThird(s, file, token, deadline))
  {
    if r.canEdit {
      var get := Txn(Get(r.file), s.first);
      var second := DeadlineAtSecond(s, file, token, deadline);
      TableAfter(ls, r, s);
      ScheduleKeepsOneRow(ls, r, s);
      ExecKeepsHolder(ls, get, file, token, deadline);
      ExecKeepsOneRow(ls, get);
      if PastGuard(ls, r, s) {
        HeldUntilExpiryOrRelease(Exec(ls, get), s.between, file, token, deadline);
        ExecKeepsHolder(AtSecond(ls, r, s), Txn(SecondCall(r, s), s.second), file, token, second);
        if Relocks(ls, r, s) { RelockSparesOtherLocks(ls, r, s, file, token, second); }
      }
    }
  }

  lemma RelockSparesOtherLocks(ls: Locks, r: Request, s: Schedule, file: Id, token: string, second: int)
    requires FreshSchedule(ls, r, s) && PastGuard(ls, r, s) && Relocks(ls, r, s) && !Names(r, file, token)
    requires HeldUntil(Exec(AtSecond(ls, r, s), Txn(SecondCall(r, s), s.second)), file, token, second)
    requires InTime(second, s.beforeThird, file, token) && s.third < DeadlineAfter(second, s.beforeThird, file, token)
    ensures HeldUntil(Exec(AtThird(ls, r, s), Txn(ThirdCall(r, s), s.third)), file, token,
      DeadlineAfter(second, s.beforeThird, file, token))
  {
    ScheduleKeepsOneRow(ls, r, s);
    ExecKeepsOneRow(AtSecond(ls, r, s), Txn(SecondCall(r, s), s.second));
    HeldUntilExpiryOrRelease(Exec(AtSecond(ls, r, s), Txn(SecondCall(r, s), s.second)), s.beforeThird, file, token,
      second);
    ExecKeepsHolder(AtThird(ls, r, s), Txn(ThirdCall(r, s), s.third), file, token,
      DeadlineAfter(second, s.beforeThird, file, token));
  }

  /** The operation with nobody in between, on the live table. */
  method HandleLockRequest(table: LockTable, r: Request, now: int, newId: Id) returns (outcome: Outcome)
    modifies table
    ensures (table.locks, outcome) == HandleLock(old(table.locks), r, Schedule(now, [], now, [], now, newId))
  {
    if !r.canEdit { return Outcome("", Some(Unauthorized)); }
    var lockId := TrimSpace(r.lockId);
    var oldLockId := TrimSpace(r.oldLockId);
    var current := table.GetLock(r.file, now);
    var reported := if current.Some? then current.value.token else "";
    match r.op
    case OtherOp => return Outcome("", Some(InvalidLockOperation));
    case GetLockOp => return Outcome(reported, None);
    case LockOp =>
      if lockId == "" { return Outcome("", Some(InvalidLockOperation)); }
      if current.Some? && current.value.token != lockId { return Outcome(reported, Some(Conflict)); }
      var got := table.AcquireLock(r.file, "wopi", lockId, r.account, WOPI_TIMEOUT, now, newId);
      if got.Err? { return Outcome(reported, Some(FromLock(got.error))); }
      return Outcome(lockId, None);
    case RefreshLockOp =>
      if current == None || current.value.token != lockId { return Outcome(reported, Some(Conflict)); }
      var got := table.RefreshLock(r.file, lockId, WOPI_TIMEOUT, now);
      return Outcome(reported, ErrorOf(got));
    case UnlockOp =>
      if current == None || current.value.token != lockId { return Outcome(reported, Some(Conflict)); }
      var got := table.ReleaseLock(r.file, lockId, now);
      return Outcome(reported, ErrorOf(got));
    case UnlockAndRelockOp =>
      var expected := if oldLockId == "" then lockId else oldLockId;
      if current == None || current.value.token != expected || lockId == "" {
        return Outcome(reported, Some(Conflict));
      }
      var released := table.ReleaseLock(r.file, expected, now);
      if released.Err? { return Outcome(reported, Some(FromLock(released.error))); }
      var got := table.AcquireLock(r.file, "wopi", lockId, r.account, WOPI_TIMEOUT, now, newId);
      if got.Err? { return Outcome(reported, Some(FromLock(got.error))); }
      return Outcome(lockId, None);
  }
}
