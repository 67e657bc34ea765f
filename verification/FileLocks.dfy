/**
 File locks with timeouts (internal/service/lock.go): every call is one
 transaction, and a transaction that returns an error changes nothing.
 */
module FileLocks {
  import opened Common
  import opened Text

  type Id = string

  /** A live file_locks row. */
  datatype Lock = Lock(file: Id, token: string, protocol: string, account: Option<string>, timeout: int, expiresAt: int)

  type Locks = map<Id, Lock>

  datatype LockError = TokenRequired | LockConflict | LockNotFound | TokenMismatch

  const DEFAULT_TIMEOUT := 1800

  function EffectiveTimeout(timeout: int): int {
    if timeout <= 0 then DEFAULT_TIMEOUT else timeout
  }

  /** CleanExpiredLocks. */
  function Unexpired(ls: Locks, now: int): Locks {
    map id | id in ls && ls[id].expiresAt > now :: ls[id]
  }

  function RowsOf(ls: Locks, file: Id): set<Id> {
    set id | id in ls && ls[id].file == file
  }

  /** The first row of a file, by primary key. */
  function First(ls: Locks, file: Id): Option<Id> {
    if RowsOf(ls, file) == {} then None else Some(Least(RowsOf(ls, file)))
  }

  // ----- transactions -----

  function GetTxn(ls: Locks, file: Id, now: int): (Locks, Option<Lock>) {
    var alive := Unexpired(ls, now);
    (alive, match First(alive, file) case None => None case Some(id) => Some(alive[id]))
  }

  /** Takes the lock, or renews it for the same token. `newId` is the primary key of a new row. */
  function AcquireTxn(ls: Locks, file: Id, protocol: string, token: string, account: Option<string>, timeout: int,
        now: int, newId: Id)
    : (Locks, Result<Lock, LockError>)
  {
    if TrimSpace(token) == "" then (ls, Err(TokenRequired))
    else
      var alive := Unexpired(ls, now);
      var seconds := EffectiveTimeout(timeout);
      var lock := Lock(file, token, protocol, account, seconds, now + seconds);
      match First(alive, file)
      case None => (alive[newId := lock], Ok(lock))
      case Some(id) => if alive[id].token != token then (ls, Err(LockConflict)) else (alive[id := lock], Ok(lock))
  }

  function RefreshTxn(ls: Locks, file: Id, token: string, timeout: int, now: int): (Locks, Result<(), LockError>) {
    var alive := Unexpired(ls, now);
    match First(alive, file)
    case None => (ls, Err(LockNotFound))
    case Some(id) =>
      if alive[id].token != token then (ls, Err(TokenMismatch))
      else (alive[id := alive[id].(timeout := EffectiveTimeout(timeout), expiresAt := now + EffectiveTimeout(timeout))],
        Ok(()))
  }

  function ReleaseTxn(ls: Locks, file: Id, token: string, now: int): (Locks, Result<(), LockError>) {
    var alive := Unexpired(ls, now);
    match First(alive, file)
    case None => (ls, Err(LockNotFound))
    case Some(id) => if alive[id].token != token then (ls, Err(TokenMismatch)) else (alive - {id}, Ok(()))
  }

  // ----- runs of transactions by any clients -----

  datatype Call =
    | Get(file: Id)
    | Acquire(file: Id, protocol: string, token: string, account: Option<string>, timeout: int, newId: Id)
    | Refresh(file: Id, token: string, timeout: int)
    | Release(file: Id, token: string)

  datatype Txn = Txn(call: Call, now: int)

  function Exec(ls: Locks, t: Txn): Locks {
    match t.call
    case Get(file) => GetTxn(ls, file, t.now).0
    case Acquire(file, protocol, token, account, timeout, newId) =>
      AcquireTxn(ls, file, protocol, token, account, timeout, t.now, newId).0
    case Refresh(file, token, timeout) => RefreshTxn(ls, file, token, timeout, t.now).0
    case Release(file, token) => ReleaseTxn(ls, file, token, t.now).0
  }

  function Run(ls: Locks, ts: seq<Txn>): Locks {
    Fold(Exec, ls, ts)
  }

  /** New rows get a primary key that is not in use. */
  ghost predicate FreshKeys(ls: Locks, ts: seq<Txn>)
    decreases |ts|
  {
    ts != [] ==> (ts[0].call.Acquire? ==> ts[0].call.newId !in ls) && FreshKeys(Exec(ls, ts[0]), ts[1..])
  }

  // ----- mutual exclusion -----

  /** At most one row per file, hence at most one unexpired lock. */
  ghost predicate OneRowPerFile(ls: Locks) {
    forall a, b :: a in ls && b in ls && ls[a].file == ls[b].file ==> a == b
  }

  /** The file is locked with this token at this moment. */
  ghost predicate HeldBy(ls: Locks, file: Id, token: string, now: int) {
    exists id :: id in ls && ls[id].file == file && ls[id].token == token && ls[id].expiresAt > now
  }

  lemma FirstIsTheRow(ls: Locks, file: Id, id: Id)
    requires OneRowPerFile(ls) && id in ls && ls[id].file == file
    ensures First(ls, file) == Some(id)
  {
    assert id in RowsOf(ls, file);
  }

  lemma ExecKeepsOneRow(ls: Locks, t: Txn)
    requires OneRowPerFile(ls) && (t.call.Acquire? ==> t.call.newId !in ls)
    ensures OneRowPerFile(Exec(ls, t))
  {
    var alive := Unexpired(ls, t.now);
    match First(alive, t.call.file)
    case None => assert RowsOf(alive, t.call.file) == {};
      assert forall id :: id in alive ==> id in RowsOf(alive, alive[id].file);
    case Some(id) => assert id in RowsOf(alive, t.call.file);
  }

  lemma {:induction false} RunKeepsOneRow(ls: Locks, ts: seq<Txn>)
    requires OneRowPerFile(ls) && FreshKeys(ls, ts)
    ensures OneRowPerFile(Run(ls, ts))
    decreases |ts|
  {
    if ts != [] {
      ExecKeepsOneRow(ls, ts[0]);
      RunKeepsOneRow(Exec(ls, ts[0]), ts[1..]);
    }
  }

  /** Two unexpired locks of one file are one lock: no two tokens hold a file at once. */
  lemma OneHolder(ls: Locks, ts: seq<Txn>, file: Id, s: string, t: string, now: int)
    requires OneRowPerFile(ls) && FreshKeys(ls, ts)
    requires HeldBy(Run(ls, ts), file, s, now) && HeldBy(Run(ls, ts), file, t, now)
    ensures s == t
  {
    RunKeepsOneRow(ls, ts);
  }

  ghost predicate OnlyHolder(ls: Locks, file: Id, token: string, now: int) {
    HeldBy(ls, file, token, now) && forall other :: HeldBy(ls, file, other, now) <==> other == token
  }

  /** The row a transaction finds is the unexpired lock, and its token is the one holder. */
  lemma FoundIsTheHolder(ls: Locks, file: Id, now: int)
    requires OneRowPerFile(ls)
    ensures var alive := Unexpired(ls, now);
      match First(alive, file)
      case None => forall other :: !HeldBy(ls, file, other, now)
      case Some(id) => id in alive && alive[id].file == file && OnlyHolder(ls, file, alive[id].token, now)
  {
    var alive := Unexpired(ls, now);
    match First(alive, file)
    case None =>
      forall other ensures !HeldBy(ls, file, other, now) {
        if id :| id in ls && ls[id].file == file && ls[id].token == other && ls[id].expiresAt > now {
          FirstIsTheRow(alive, file, id);
        }
      }
    case Some(id) =>
      assert id in RowsOf(alive, file);
      assert HeldBy(ls, file, alive[id].token, now);
  }

  /** The token holds the file at exactly the times before the deadline, if nothing else happens. */
  ghost predicate HeldUntil(ls: Locks, file: Id, token: string, deadline: int) {
    forall later :: HeldBy(ls, file, token, later) <==> later < deadline
  }

  lemma RowHoldsUntil(ls: Locks, id: Id)
    requires OneRowPerFile(ls) && id in ls
    ensures HeldUntil(ls, ls[id].file, ls[id].token, ls[id].expiresAt)
  {
    forall later ensures HeldBy(ls, ls[id].file, ls[id].token, later) <==> later < ls[id].expiresAt {}
  }

  /** While one token holds the file, another one is refused and nothing changes. */
  lemma HeldLockRefusesOthers(ls: Locks, file: Id, token: string, protocol: string, other: string,
        account: Option<string>, timeout: int, now: int, newId: Id)
    requires OneRowPerFile(ls) && HeldBy(ls, file, token, now) && other != token && TrimSpace(other) != ""
    ensures AcquireTxn(ls, file, protocol, other, account, timeout, now, newId) == (ls, Err(LockConflict))
  {
    FoundIsTheHolder(ls, file, now);
  }

  /**
   AcquireLock succeeds exactly when the token is not blank and no other token holds
   the file; the caller then holds it for the timeout. Otherwise nothing changes.
   */
  lemma AcquireIff(ls: Locks, file: Id, protocol: string, token: string, account: Option<string>, timeout: int,
        now: int, newId: Id)
    requires OneRowPerFile(ls) && newId !in ls
    ensures var r := AcquireTxn(ls, file, protocol, token, account, timeout, now, newId);
      && (r.1.Ok? <==> TrimSpace(token) != "" && forall other :: HeldBy(ls, file, other, now) ==> other == token)
      && (r.1.Ok? ==> HeldBy(r.0, file, token, now) && HeldUntil(r.0, file, token, now + EffectiveTimeout(timeout)))
      && (r.1.Ok? ==> r.1.value.token == token && r.1.value.expiresAt == now + EffectiveTimeout(timeout))
      && (r.1.Ok? ==>
            var seconds := if timeout <= 0 then DEFAULT_TIMEOUT else timeout;
            && r.1.value == Lock(file, token, protocol, account, seconds, now + seconds)
            && exists id :: id in r.0 && r.0[id] == r.1.value)
      && (r.1 == Err(TokenRequired) <==> TrimSpace(token) == "")
      && (r.1.Err? ==> r.0 == ls)
  {
    FoundIsTheHolder(ls, file, now);
    ExecKeepsOneRow(ls, Txn(Acquire(file, protocol, token, account, timeout, newId), now));
    var r := AcquireTxn(ls, file, protocol, token, account, timeout, now, newId);
    if r.1.Ok? { RowHoldsUntil(r.0, First(Unexpired(ls, now), file).GetOr(newId)); }
  }

  /**
   RefreshLock succeeds exactly for the holder and restarts its timeout; the error says
   whether there is another holder.
   */
  lemma RefreshIff(ls: Locks, file: Id, token: string, timeout: int, now: int)
    requires OneRowPerFile(ls)
    ensures var r := RefreshTxn(ls, file, token, timeout, now);
      && (r.1.Ok? <==> HeldBy(ls, file, token, now))
      && (r.1 == Err(LockNotFound) <==> forall other :: !HeldBy(ls, file, other, now))
      && (r.1.Ok? ==> HeldUntil(r.0, file, token, now + if timeout <= 0 then DEFAULT_TIMEOUT else timeout))
      && (r.1.Ok? ==> forall id :: id in r.0 && r.0[id].file == file ==>
            id in ls && r.0[id].(timeout := ls[id].timeout, expiresAt := ls[id].expiresAt) == ls[id])
      && (r.1.Err? ==> r.0 == ls)
  {
    FoundIsTheHolder(ls, file, now);
    ExecKeepsOneRow(ls, Txn(Refresh(file, token, timeout), now));
    var r := RefreshTxn(ls, file, token, timeout, now);
    if r.1.Ok? { RowHoldsUntil(r.0, First(Unexpired(ls, now), file).value); }
  }

  /** GetLock answers with the one unexpired lock of the file, or with nothing exactly when there is none. */
  lemma GetIff(ls: Locks, file: Id, now: int)
    requires OneRowPerFile(ls)
    ensures match GetTxn(ls, file, now).1
      case None => forall id :: id in ls && ls[id].file == file ==> ls[id].expiresAt <= now
      case Some(lock) => exists id :: id in ls && ls[id] == lock && lock.file == file && lock.expiresAt > now
  {
    FoundIsTheHolder(ls, file, now);
    if id :| id in ls && ls[id].file == file && ls[id].expiresAt > now { assert HeldBy(ls, file, ls[id].token, now); }
  }

  /** No transaction touches an unexpired lock of another file, and none adds rows for one. */
  lemma ExecSparesOtherFiles(ls: Locks, t: Txn, id: Id)
    requires OneRowPerFile(ls) && (t.call.Acquire? ==> t.call.newId !in ls)
    ensures id in ls && ls[id].file != t.call.file && ls[id].expiresAt > t.now ==>
      id in Exec(ls, t) && Exec(ls, t)[id] == ls[id]
    ensures id in Exec(ls, t) && Exec(ls, t)[id].file != t.call.file ==> id in ls && Exec(ls, t)[id] == ls[id]
  {
    var alive := Unexpired(ls, t.now);
    if First(alive, t.call.file).Some? { assert First(alive, t.call.file).value in RowsOf(alive, t.call.file); }
  }

  /** ReleaseLock succeeds exactly for the holder and leaves the file unlocked at every time. */
  lemma ReleaseIff(ls: Locks, file: Id, token: string, now: int)
    requires OneRowPerFile(ls)
    ensures var r := ReleaseTxn(ls, file, token, now);
      && (r.1.Ok? <==> HeldBy(ls, file, token, now))
      && (r.1 == Err(LockNotFound) <==> forall other :: !HeldBy(ls, file, other, now))
      && (r.1.Ok? ==> forall other, later :: !HeldBy(r.0, file, other, later))
      && (r.1.Err? ==> r.0 == ls)
  {
    FoundIsTheHolder(ls, file, now);
  }

  // ----- a held lock stays until it expires or is released -----

  /** When a lock with this deadline expires after the transaction: only calls with its own token move that. */
  function NextDeadline(deadline: int, t: Txn, file: Id, token: string): int {
    match t.call
    case Acquire(f, _, other, _, timeout, _) =>
      if f == file && other == token && TrimSpace(token) != "" then t.now + EffectiveTimeout(timeout) else deadline
    case Refresh(f, other, timeout) =>
      if f == file && other == token then t.now + EffectiveTimeout(timeout) else deadline
    case _ => deadline
  }

  function DeadlineAfter(deadline: int, ts: seq<Txn>, file: Id, token: string): int
    decreases |ts|
  {
    if ts == [] then deadline else DeadlineAfter(NextDeadline(deadline, ts[0], file, token), ts[1..], file, token)
  }

  /** Read off the calls alone: none releases the lock with its token, and none comes at or after its deadline. */
  predicate InTime(deadline: int, ts: seq<Txn>, file: Id, token: string)
    decreases |ts|
  {
    ts != [] ==>
      && ts[0].now < deadline && ts[0].call != Release(file, token)
      && InTime(NextDeadline(deadline, ts[0], file, token), ts[1..], file, token)
  }

  /** The row behind a deadline. */
  lemma RowOfDeadline(ls: Locks, file: Id, token: string, deadline: int) returns (id: Id)
    requires OneRowPerFile(ls) && HeldUntil(ls, file, token, deadline)
    ensures id in ls && ls[id].file == file && ls[id].token == token && ls[id].expiresAt == deadline
  {
    assert HeldBy(ls, file, token, deadline - 1);
    id :| id in ls && ls[id].file == file && ls[id].token == token && ls[id].expiresAt > deadline - 1;
    assert !HeldBy(ls, file, token, deadline);
  }

  /**
   A transaction before the deadline, other than a release with the token, leaves the
   lock with its deadline as the calls say.
   */
  lemma ExecKeepsHolder(ls: Locks, t: Txn, file: Id, token: string, deadline: int)
    requires OneRowPerFile(ls) && (t.call.Acquire? ==> t.call.newId !in ls)
    requires HeldUntil(ls, file, token, deadline) && t.now < deadline && t.call != Release(file, token)
    ensures HeldUntil(Exec(ls, t), file, token, NextDeadline(deadline, t, file, token))
  {
    var id := RowOfDeadline(ls, file, token, deadline);
    var alive, next := Unexpired(ls, t.now), Exec(ls, t);
    ExecKeepsOneRow(ls, t);
    FirstIsTheRow(alive, file, id);
    if t.call.file != file { OtherFilesRow(alive, t.call.file, id); }
    assert id in next && next[id].file == file && next[id].token == token;
    assert next[id].expiresAt == NextDeadline(deadline, t, file, token);
    RowHoldsUntil(next, id);
  }

  lemma OtherFilesRow(ls: Locks, file: Id, id: Id)
    requires id in ls && ls[id].file != file
    ensures First(ls, file) != Some(id)
  {
    if First(ls, file).Some? { assert First(ls, file).value in RowsOf(ls, file); }
  }

  /**
   Whatever other clients do: as long as no transaction comes at or after the lock's
   deadline and none releases it with its token, the lock is there, with the deadline
   that its own token's calls gave it and nobody else's moved.
   */
  lemma {:induction false} HeldUntilExpiryOrRelease(ls: Locks, ts: seq<Txn>, file: Id, token: string, deadline: int)
    requires OneRowPerFile(ls) && FreshKeys(ls, ts)
    requires HeldUntil(ls, file, token, deadline) && InTime(deadline, ts, file, token)
    ensures HeldUntil(Run(ls, ts), file, token, DeadlineAfter(deadline, ts, file, token))
    decreases |ts|
  {
    if ts != [] {
      ExecKeepsHolder(ls, ts[0], file, token, deadline);
      ExecKeepsOneRow(ls, ts[0]);
      HeldUntilExpiryOrRelease(Exec(ls, ts[0]), ts[1..], file, token, NextDeadline(deadline, ts[0], file, token));
    }
  }

  /** The token takes the file anew. */
  predicate Retakes(t: Txn, file: Id, token: string) {
    t.call.Acquire? && t.call.file == file && t.call.token == token && TrimSpace(token) != ""
  }

  /**
   Expiry and release are the only ways to lose a lock: after one transaction the token
   holds the file exactly when the transaction came in time and was not its release, or
   came too late and was itself an acquire with the token.
   */
  lemma LostOnlyByExpiryOrRelease(ls: Locks, t: Txn, file: Id, token: string, deadline: int)
    requires OneRowPerFile(ls) && (t.call.Acquire? ==> t.call.newId !in ls)
    requires HeldUntil(ls, file, token, deadline)
    ensures HeldBy(Exec(ls, t), file, token, t.now) <==>
      if t.now < deadline then t.call != Release(file, token) else Retakes(t, file, token)
  {
    var id := RowOfDeadline(ls, file, token, deadline);
    if t.now >= deadline {
      FoundIsTheHolder(ls, file, t.now);
      LateRow(ls, t, file, token, id);
    } else if t.call == Release(file, token) {
      ReleaseIff(ls, file, token, t.now);
    } else {
      ExecKeepsHolder(ls, t, file, token, deadline);
      assert t.now < NextDeadline(deadline, t, file, token);
    }
  }

  /** An expired row is gone, and its file is free. */
  lemma LateRow(ls: Locks, t: Txn, file: Id, token: string, id: Id)
    requires OneRowPerFile(ls) && (t.call.Acquire? ==> t.call.newId !in ls)
    requires id in ls && ls[id].file == file && ls[id].token == token && ls[id].expiresAt <= t.now
    ensures HeldBy(Exec(ls, t), file, token, t.now) <==> Retakes(t, file, token)
  {
    var alive, next := Unexpired(ls, t.now), Exec(ls, t);
    assert RowsOf(alive, file) == {};
    if Retakes(t, file, token) { assert next[t.call.newId].file == file && next[t.call.newId].expiresAt > t.now; }
    if First(alive, t.call.file).Some? { assert First(alive, t.call.file).value in RowsOf(alive, t.call.file); }
  }

  // ----- the service -----

  class LockTable {
    var locks: Locks

    method CleanExpiredLocks(now: int)
      modifies this
      ensures locks == Unexpired(old(locks), now)
    {
      locks := Unexpired(locks, now);
    }

    method FirstOf(file: Id) returns (first: Option<Id>)
      ensures first == First(locks, file)
    {
      var rows := set id | id in locks && locks[id].file == file;
      first := if rows == {} then None else Some(Least(rows));
    }

    method GetLock(file: Id, now: int) returns (lock: Option<Lock>)
      modifies this
      ensures (locks, lock) == GetTxn(old(locks), file, now)
    {
      CleanExpiredLocks(now);
      var first := FirstOf(file);
      lock := if first == None then None else Some(locks[first.value]);
    }

    method AcquireLock(file: Id, protocol: string, token: string, account: Option<string>, timeout: int, now: int,
          newId: Id)
        returns (result: Result<Lock, LockError>)
      modifies this
      ensures (locks, result) == AcquireTxn(old(locks), file, protocol, token, account, timeout, now, newId)
    {
      if TrimSpace(token) == "" { return Err(TokenRequired); }
      var seconds := if timeout <= 0 then DEFAULT_TIMEOUT else timeout;
      var before := locks;
      CleanExpiredLocks(now);
      var current := FirstOf(file);
      if current.Some? && locks[current.value].token != token {
        locks := before; // the transaction rolls back
        return Err(LockConflict);
      }
      var lock := Lock(file, token, protocol, account, seconds, now + seconds);
      if current.Some? {
        locks := locks[current.value := lock];
      } else {
        locks := locks[newId := lock];
      }
      result := Ok(lock);
    }

    method RefreshLock(file: Id, token: string, timeout: int, now: int) returns (result: Result<(), LockError>)
      modifies this
      ensures (locks, result) == RefreshTxn(old(locks), file, token, timeout, now)
    {
      var before := locks;
      CleanExpiredLocks(now);
      var current := FirstOf(file);
      if current == None { locks := before; return Err(LockNotFound); }
      if locks[current.value].token != token { locks := before; return Err(TokenMismatch); }
      var seconds := if timeout <= 0 then DEFAULT_TIMEOUT else timeout;
      locks := locks[current.value := locks[current.value].(timeout := seconds, expiresAt := now + seconds)];
      result := Ok(());
    }

    method ReleaseLock(file: Id, token: string, now: int) returns (result: Result<(), LockError>)
      modifies this
      ensures (locks, result) == ReleaseTxn(old(locks), file, token, now)
    {
      var before := locks;
      CleanExpiredLocks(now);
      var current := FirstOf(file);
      if current == None { locks := before; return Err(LockNotFound); }
      if locks[current.value].token != token { locks := before; return Err(TokenMismatch); }
      locks := locks - {current.value};
      result := Ok(());
    }
  }
}
