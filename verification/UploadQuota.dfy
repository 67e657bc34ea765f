/**
 Storage quota of internal/service/service.go: per-file billing rounded up to whole
 MiB, summed over overlapping scopes, and the admission check of an upload. The
 source's float64 values are exact reals here.
 */
module UploadQuota {
  import opened Common
  import opened Text
  import opened Sums

  /** An account id: a UUID, never empty. */
  type Id = s: string | s != "" witness "a"

  /** A cloud_files row joined with its object. */
  datatype File = File(account: Id, workspace: Option<string>, pool: Option<string>, size: int, live: bool,
        objectLive: bool)

  /** cost_multiplier of each pool's billing configuration. */
  type Pools = map<string, Option<real>>

  const UNIT: real := 1048576.0

  /** math.Ceil. */
  function Ceil(x: real): (n: int)
    ensures n as real - 1.0 < x <= n as real
  {
    -((-x).Floor)
  }

  /** What one upload is billed. */
  function Charge(size: int, multiplier: real): int {
    Ceil(size as real * multiplier / UNIT)
  }

  /** The charge is the least number of MiB that covers the multiplied size. */
  lemma ChargeMeans(size: int, multiplier: real, n: int)
    ensures Charge(size, multiplier) <= n <==> size as real * multiplier <= n as real * 1048576.0
  {
    var x := size as real * multiplier;
    assert x / UNIT * UNIT == x;
    if x / UNIT <= n as real { assert x <= n as real * UNIT; } else { assert x > n as real * UNIT; }
  }

  /** The multiplier a row's pool configures; 1 when unset, unknown or not positive. */
  function Multiplier(pools: Pools, pool: Option<string>): (m: real)
    ensures m > 0.0
  {
    if pool.None? then 1.0
    else
      var id := TrimSpace(pool.value);
      if id != "" && id in pools && pools[id].Some? && pools[id].value > 0.0 then pools[id].value else 1.0
  }

  /** What one stored file is billed: nothing for an empty one. */
  function Billed(pools: Pools, f: File): int {
    if f.size <= 0 then 0 else Charge(f.size, Multiplier(pools, f.pool))
  }

  function BillAt(pools: Pools): File -> Stats {
    (f: File) => if f.size <= 0 then NOTHING else Stats(Billed(pools, f), 1, f.size)
  }

  function StatsOf(pools: Pools, rows: seq<File>): Stats {
    Total(BillAt(pools), rows)
  }

  // ----- scopes -----

  datatype Scope =
    | OfAccount(account: Id)
    | PersonalOf(account: Id)
    | OfWorkspace(workspace: string, exclude: Option<Id>)
    | AccountOrWorkspace(account: Id, workspace: string)
    | AccountElsewhere(account: Id, workspace: string)
    | OutsideWorkspace(account: Id, workspace: string)

  predicate InScope(scope: Scope, f: File) {
    match scope
    case OfAccount(a) => f.account == a
    case PersonalOf(a) => f.account == a && f.workspace.None?
    case OfWorkspace(w, x) => f.workspace == Some(w) && (x.None? || f.account != x.value)
    case AccountOrWorkspace(a, w) => f.account == a || f.workspace == Some(w)
    case AccountElsewhere(a, w) => f.account == a && f.workspace.Some? && f.workspace.value != w
    case OutsideWorkspace(a, w) => f.account == a && f.workspace != Some(w)
  }

  /** The rows a scan of the scope keeps. */
  function Covers(scope: Scope): File -> bool {
    (f: File) => f.live && f.objectLive && InScope(scope, f)
  }

  function Scan(files: seq<File>, scope: Scope): seq<File> {
    Select(Covers(scope), files)
  }

  /** What the live files in the scope come to, each once. */
  function Usage(pools: Pools, files: seq<File>, scope: Scope): Stats {
    Sum(BillAt(pools), Covers(scope), files)
  }

  /** The scope accountPoolStats charges to an account. */
  function AccountPool(account: Id, individual: Option<string>): Scope {
    if individual.Some? && TrimSpace(individual.value) != "" then AccountOrWorkspace(account, individual.value)
    else OfAccount(account)
  }

  // ----- sums over scopes -----

  lemma UsageSplits(pools: Pools, files: seq<File>, whole: Scope, a: Scope, b: Scope)
    requires Splits(Covers(whole), Covers(a), Covers(b))
    ensures Usage(pools, files, whole) == Usage(pools, files, a).Plus(Usage(pools, files, b))
  {
    SumSplits(BillAt(pools), files, Covers(whole), Covers(a), Covers(b));
  }

  /** A new row raises the usage of exactly the scopes that cover it, by its own bill. */
  lemma MebibytesAfterAdding(pools: Pools, files: seq<File>, f: File, scope: Scope)
    ensures Usage(pools, files + [f], scope).mb ==
      Usage(pools, files, scope).mb + if Covers(scope)(f) then Billed(pools, f) else 0
  {
    SumAfterAdding(BillAt(pools), Covers(scope), files, f);
  }

  lemma ScopesSplit(owner: Id, workspace: string)
    ensures Splits(Covers(AccountOrWorkspace(owner, workspace)), Covers(OfAccount(owner)),
      Covers(OfWorkspace(workspace, Some(owner))))
    ensures Splits(Covers(AccountOrWorkspace(owner, workspace)), Covers(OfWorkspace(workspace, None)),
      Covers(OutsideWorkspace(owner, workspace)))
    ensures Splits(Covers(OutsideWorkspace(owner, workspace)), Covers(PersonalOf(owner)),
      Covers(AccountElsewhere(owner, workspace)))
  {
  }

  /**
   No file is charged twice: the account's pool is the individual workspace's charged
   pool plus the owner's files in other workspaces.
   */
  lemma AccountPoolIsWorkspacePoolPlusElsewhere(pools: Pools, files: seq<File>, owner: Id, workspace: string)
    requires TrimSpace(workspace) != ""
    ensures var personal := Usage(pools, files, PersonalOf(owner));
            var shared := Usage(pools, files, OfWorkspace(workspace, None));
            var elsewhere := Usage(pools, files, AccountElsewhere(owner, workspace));
            Usage(pools, files, AccountPool(owner, Some(workspace))) == personal.Plus(shared).Plus(elsewhere)
  {
    var pool, personal := AccountPool(owner, Some(workspace)), PersonalOf(owner);
    var shared, elsewhere := OfWorkspace(workspace, None), AccountElsewhere(owner, workspace);
    ScopesSplit(owner, workspace);
    UsageSplits(pools, files, pool, shared, OutsideWorkspace(owner, workspace));
    UsageSplits(pools, files, OutsideWorkspace(owner, workspace), personal, elsewhere);
  }

  // ----- usage, told file by file -----

  /** The row and its object are there, and the file is not empty. */
  predicate Counts(f: File) {
    f.live && f.objectLive && f.size > 0
  }

  /** What an account pays for: its own files, and everybody's in its individual workspace, if it has one. */
  predicate PaysFor(account: Id, individual: Option<string>, f: File) {
    f.account == account || (individual.Some? && TrimSpace(individual.value) != "" && f.workspace == individual)
  }

  /** The configured multiplier of the named pool, when it is positive. */
  predicate HasRate(pools: Pools, pool: Option<string>) {
    pool.Some? && TrimSpace(pool.value) != "" && TrimSpace(pool.value) in pools
      && pools[TrimSpace(pool.value)].Some? && pools[TrimSpace(pool.value)].value > 0.0
  }

  /** A file is billed the least number of MiB that covers its size at its pool's rate. */
  lemma BilledMeans(pools: Pools, f: File, n: int)
    requires f.size > 0
    ensures var rate := if HasRate(pools, f.pool) then pools[TrimSpace(f.pool.value)].value else 1.0;
      Billed(pools, f) <= n <==> f.size as real * rate <= n as real * 1048576.0
  {
    ChargeMeans(f.size, Multiplier(pools, f.pool), n);
  }

  /**
   An account's usage starts at nothing, and one more file adds its bill, itself and its
   bytes exactly when it counts and the account pays for it.
   */
  lemma AccountUsageMeans(pools: Pools, files: seq<File>, f: File, account: Id, individual: Option<string>)
    ensures var pool := AccountPool(account, individual);
      && Usage(pools, [], pool) == NOTHING
      && Usage(pools, files + [f], pool) == Usage(pools, files, pool).Plus(
           if Counts(f) && PaysFor(account, individual, f) then Stats(Billed(pools, f), 1, f.size) else NOTHING)
  {
    SumAfterAdding(BillAt(pools), Covers(AccountPool(account, individual)), files, f);
  }

  /**
   The same for the bytes charged to a workspace: the owner's personal files, if it is an
   individual one, and everybody's files in it.
   */
  lemma ChargedMeans(pools: Pools, files: seq<File>, f: File, workspace: string, owner: Option<Id>)
    requires TrimSpace(workspace) != ""
    ensures Charged(pools, [], workspace, owner) == 0
    ensures Charged(pools, files + [f], workspace, owner) == Charged(pools, files, workspace, owner) +
      if Counts(f) && (f.workspace == Some(workspace) || (f.workspace == None && owner == Some(f.account))) then f.size
      else 0
  {
    if owner.Some? {
      BytesAfterAdding(pools, files, f, AccountPool(owner.value, Some(workspace)));
      BytesAfterAdding(pools, files, f, AccountElsewhere(owner.value, workspace));
    } else {
      BytesAfterAdding(pools, files, f, OfWorkspace(workspace, None));
    }
  }

  lemma BytesAfterAdding(pools: Pools, files: seq<File>, f: File, scope: Scope)
    ensures Usage(pools, [], scope).bytes == 0
    ensures Usage(pools, files + [f], scope).bytes ==
      Usage(pools, files, scope).bytes + if Counts(f) && InScope(scope, f) then f.size else 0
  {
    SumAfterAdding(BillAt(pools), Covers(scope), files, f);
  }

  // ----- sumBillableUsage and its callers -----

  /** The multiplier a row is billed at, from the prepared map. */
  function LookUp(multipliers: map<string, real>, pool: Option<string>): real {
    if pool.Some? && TrimSpace(pool.value) in multipliers then multipliers[TrimSpace(pool.value)] else 1.0
  }

  ghost predicate ResolvesAll(multipliers: map<string, real>, pools: Pools, rows: seq<File>) {
    forall i :: 0 <= i < |rows| ==> LookUp(multipliers, rows[i].pool) == Multiplier(pools, rows[i].pool)
  }

  /** The ids of the pools the rows name, trimmed, without blanks. */
  ghost predicate NamesPools(ids: set<string>, rows: seq<File>) {
    forall id :: id in ids <==>
      id != "" && exists i :: 0 <= i < |rows| && rows[i].pool.Some? && TrimSpace(rows[i].pool.value) == id
  }

  method PoolUsageMultipliers(rows: seq<File>, pools: Pools) returns (multipliers: map<string, real>)
    ensures ResolvesAll(multipliers, pools, rows)
  {
    var poolIDs := NamedPools(rows);
    multipliers := map[];
    var found := poolIDs * pools.Keys;
    var todo := found;
    while todo != {}
      invariant todo <= found && multipliers.Keys == found - todo
      invariant forall id :: id in multipliers ==> multipliers[id] == Multiplier(pools, Some(id))
    {
      var id :| id in todo;
      var multiplier := 1.0;
      if pools[id].Some? && pools[id].value > 0.0 {
        multiplier := pools[id].value;
      }
      TrimmedIsTrimmed(poolIDs, rows, id);
      multipliers := multipliers[id := multiplier];
      todo := todo - {id};
    }
    forall i | 0 <= i < |rows| ensures LookUp(multipliers, rows[i].pool) == Multiplier(pools, rows[i].pool) {
      if rows[i].pool.Some? {
        var id := TrimSpace(rows[i].pool.value);
        TrimmedTwice(rows[i].pool.value);
        assert id != "" ==> id in poolIDs;
      }
    }
  }

  method NamedPools(rows: seq<File>) returns (ids: set<string>)
    ensures NamesPools(ids, rows)
  {
    ids := {};
    for i := 0 to |rows|
      invariant NamesPools(ids, rows[..i])
    {
      ghost var before := ids;
      if rows[i].pool.Some? && TrimSpace(rows[i].pool.value) != "" {
        ids := ids + {TrimSpace(rows[i].pool.value)};
      }
      NamesOneMore(before, ids, rows, i);
    }
    assert rows[..|rows|] == rows;
  }

  lemma NamesOneMore(before: set<string>, ids: set<string>, rows: seq<File>, i: nat)
    requires i < |rows| && NamesPools(before, rows[..i])
    requires ids == before +
      if rows[i].pool.Some? && TrimSpace(rows[i].pool.value) != "" then {TrimSpace(rows[i].pool.value)} else {}
    ensures NamesPools(ids, rows[..i + 1])
  {
    var s, t := rows[..i], rows[..i + 1];
    assert forall j :: 0 <= j < i ==> s[j] == t[j];
    forall id
      ensures id in ids <==>
        id != "" && exists j :: 0 <= j < |t| && t[j].pool.Some? && TrimSpace(t[j].pool.value) == id
    {
      if id in before {
        var j :| 0 <= j < |s| && s[j].pool.Some? && TrimSpace(s[j].pool.value) == id;
        assert t[j] == s[j];
      } else if id in ids {
        assert t[i] == rows[i];
      }
    }
  }

  lemma TrimmedIsTrimmed(ids: set<string>, rows: seq<File>, id: string)
    requires NamesPools(ids, rows) && id in ids
    ensures id != "" && TrimSpace(id) == id
  {
    var i :| 0 <= i < |rows| && rows[i].pool.Some? && TrimSpace(rows[i].pool.value) == id;
    TrimmedTwice(rows[i].pool.value);
  }

  method SumBillableUsage(rows: seq<File>, multipliers: map<string, real>, ghost pools: Pools)
    returns (total: int, fileCount: int, usageBytes: int)
    requires ResolvesAll(multipliers, pools, rows)
    ensures Stats(total, fileCount, usageBytes) == StatsOf(pools, rows)
  {
    total, fileCount, usageBytes := 0, 0, 0;
    for i := 0 to |rows|
      invariant Stats(total, fileCount, usageBytes).Plus(StatsOf(pools, rows[i..])) == StatsOf(pools, rows)
    {
      OneMoreRow(Stats(total, fileCount, usageBytes), pools, rows, i);
      if rows[i].size <= 0 {
        continue;
      }
      fileCount := fileCount + 1;
      usageBytes := usageBytes + rows[i].size;
      var multiplier := LookUp(multipliers, rows[i].pool);
      total := total + Charge(rows[i].size, multiplier);
    }
  }

  lemma OneMoreRow(sofar: Stats, pools: Pools, rows: seq<File>, i: nat)
    requires i < |rows|
    ensures sofar.Plus(StatsOf(pools, rows[i..])) == WithRow(sofar, pools, rows[i]).Plus(StatsOf(pools, rows[i + 1..]))
  {
    assert rows[i..][1..] == rows[i + 1..];
    PlusRearranged(sofar, BillAt(pools)(rows[i]), NOTHING, StatsOf(pools, rows[i + 1..]));
  }

  function WithRow(sofar: Stats, pools: Pools, f: File): Stats {
    if f.size <= 0 then sofar else Stats(sofar.mb + Billed(pools, f), sofar.files + 1, sofar.bytes + f.size)
  }

  method StatsForRows(rows: seq<File>, pools: Pools) returns (stats: Stats)
    ensures stats == StatsOf(pools, rows)
  {
    var multipliers := PoolUsageMultipliers(rows, pools);
    var total, fileCount, usageBytes := SumBillableUsage(rows, multipliers, pools);
    stats := Stats(total, fileCount, usageBytes);
  }

  /** Two scans that the source concatenates come to one pass over the union. */
  method AccountPoolStats(files: seq<File>, pools: Pools, account: Id, individual: Option<string>)
    returns (stats: Stats)
    ensures stats == Usage(pools, files, AccountPool(account, individual))
  {
    var rows := Scan(files, OfAccount(account));
    TotalOfSelected(BillAt(pools), Covers(OfAccount(account)), files);
    if individual.Some? && TrimSpace(individual.value) != "" {
      var others := OfWorkspace(individual.value, Some(account));
      var extra := Scan(files, others);
      TotalOfSelected(BillAt(pools), Covers(others), files);
      TotalOfConcat(BillAt(pools), rows, extra);
      ScopesSplit(account, individual.value);
      UsageSplits(pools, files, AccountPool(account, individual), OfAccount(account), others);
      rows := rows + extra;
    }
    stats := StatsForRows(rows, pools);
  }

  method IndividualWorkspaceUsage(files: seq<File>, pools: Pools, owner: Id, workspace: string)
    returns (usedBytes: int, usedFiles: int)
    requires TrimSpace(workspace) != ""
    ensures var pool := Usage(pools, files, AccountPool(owner, Some(workspace)));
            var elsewhere := Usage(pools, files, AccountElsewhere(owner, workspace));
            usedBytes + elsewhere.bytes == pool.bytes && usedFiles + elsewhere.files == pool.files
  {
    TotalOfSelected(BillAt(pools), Covers(PersonalOf(owner)), files);
    TotalOfSelected(BillAt(pools), Covers(OfWorkspace(workspace, None)), files);
    var personal := StatsForRows(Scan(files, PersonalOf(owner)), pools);
    var shared := StatsForRows(Scan(files, OfWorkspace(workspace, None)), pools);
    AccountPoolIsWorkspacePoolPlusElsewhere(pools, files, owner, workspace);
    usedBytes, usedFiles := personal.bytes + shared.bytes, personal.files + shared.files;
  }

  // ----- admission -----

  /** The amount CheckUploadQuota adds to the usage. */
  function Checked(size: int, costMultiplier: real): int {
    Charge(size, RateOf(costMultiplier))
  }

  predicate Admitted(used: int, size: int, costMultiplier: real, total: int) {
    used + Checked(size, costMultiplier) <= total
  }

  /** The answer, or the MiB still free (never negative). */
  method CheckUploadQuota(files: seq<File>, pools: Pools, account: Id, individual: Option<string>, totalQuota: int,
        size: int, costMultiplier: real)
    returns (answer: Result<(), nat>)
    ensures var used := Usage(pools, files, AccountPool(account, individual)).mb;
            && (answer.Ok? <==> Admitted(used, size, costMultiplier, totalQuota))
            && (answer.Err? ==> answer.error == if used <= totalQuota then totalQuota - used else 0)
            && (answer.Ok? <==>
                  size as real * (if costMultiplier <= 0.0 then 1.0 else costMultiplier)
                    <= (totalQuota - used) as real * 1048576.0)
  {
    var stats := AccountPoolStats(files, pools, account, individual);
    var multiplier := costMultiplier;
    if multiplier <= 0.0 {
      multiplier := 1.0;
    }
    assert multiplier == RateOf(costMultiplier);
    var billableUnit := Ceil(size as real * multiplier / UNIT);
    assert billableUnit == Checked(size, costMultiplier);
    ChargeMeans(size, multiplier, totalQuota - stats.mb);
    if stats.mb + billableUnit <= totalQuota {
      return Ok(());
    }
    var remaining := totalQuota - stats.mb;
    if remaining < 0 {
      remaining := 0;
    }
    answer := Err(remaining);
  }

  lemma BilledIsCheckedIff(pools: Pools, f: File)
    ensures var m := Multiplier(pools, f.pool); Billed(pools, f) == Checked(f.size, m) <==> f.size as real * m > -UNIT
  {
    var m := Multiplier(pools, f.pool);
    var x := f.size as real * m;
    if f.size > 0 {
      assert x > 0.0;
    } else {
      assert x <= 0.0;
      assert x / UNIT <= 0.0 && (x / UNIT > -1.0 <==> x > -UNIT);
    }
  }

  /** Why an upload into a workspace is refused. */
  datatype WorkspaceRefusal = NotAMember | WorkspaceFull

  /**
   The bytes charged to a workspace: with an owner, an individual one, the owner's
   account pool less what the owner has elsewhere.
   */
  function Charged(pools: Pools, files: seq<File>, workspace: string, owner: Option<Id>): int {
    match owner
    case None => Usage(pools, files, OfWorkspace(workspace, None)).bytes
    case Some(o) =>
      Usage(pools, files, AccountPool(o, Some(workspace))).bytes -
      Usage(pools, files, AccountElsewhere(o, workspace)).bytes
  }

  /** The byte quota of an individual workspace, which has an owner, or of an organisation's. */
  method CheckWorkspaceUploadQuota(files: seq<File>, pools: Pools, workspace: string, owner: Option<Id>,
        member: bool, totalBytes: int, size: int)
    returns (answer: Result<(), WorkspaceRefusal>)
    requires TrimSpace(workspace) != ""
    ensures answer.Ok? <==> member && size >= 0 && Charged(pools, files, workspace, owner) + size <= totalBytes
    ensures answer == Err(NotAMember) <==> !member
  {
    if !member { return Err(NotAMember); }
    var usedBytes, usedFiles;
    if owner.Some? {
      usedBytes, usedFiles := IndividualWorkspaceUsage(files, pools, owner.value, workspace);
    } else {
      TotalOfSelected(BillAt(pools), Covers(OfWorkspace(workspace, None)), files);
      var stats := StatsForRows(Scan(files, OfWorkspace(workspace, None)), pools);
      usedBytes := stats.bytes;
    }
    answer := if size < 0 || usedBytes > totalBytes - size then Err(WorkspaceFull) else Ok(());
  }

  /**
   A live upload by the account raises its recomputed usage by exactly the checked
   amount, at its pool's multiplier, unless its size is negative by a whole MiB.
   */
  lemma UploadRaisesByTheCheckedAmountIff(pools: Pools, files: seq<File>, f: File, individual: Option<string>)
    requires f.live && f.objectLive
    ensures var pool := AccountPool(f.account, individual); var m := Multiplier(pools, f.pool);
            Usage(pools, files + [f], pool).mb == Usage(pools, files, pool).mb + Checked(f.size, m) <==>
              f.size as real * m > -UNIT
  {
    MebibytesAfterAdding(pools, files, f, AccountPool(f.account, individual));
    BilledIsCheckedIff(pools, f);
  }

  lemma ChargeGrows(size: int, m: real, n: real)
    requires size >= 0 && m <= n
    ensures Charge(size, m) <= Charge(size, n)
  {
    var x, y := size as real * m, size as real * n;
    assert x <= y;
    assert x / UNIT <= y / UNIT;
  }

  datatype Upload = Upload(file: File, costMultiplier: real)

  /** One upload, admitted and recorded before the next one is checked. */
  function Add(pools: Pools, files: seq<File>, individual: Option<string>, total: int, u: Upload): seq<File> {
    var used := Usage(pools, files, AccountPool(u.file.account, individual)).mb;
    if Admitted(used, u.file.size, u.costMultiplier, total) then files + [u.file] else files
  }

  function AddAll(pools: Pools, files: seq<File>, individual: Option<string>, total: int,
        uploads: seq<Upload>): seq<File>
    decreases |uploads|
  {
    if uploads == [] then files
    else AddAll(pools, Add(pools, files, individual, total, uploads[0]), individual, total, uploads[1..])
  }

  /** Each upload is the account's own and is checked at no less than its pool's multiplier. */
  ghost predicate ChecksInFull(pools: Pools, account: Id, uploads: seq<Upload>) {
    forall i :: 0 <= i < |uploads| ==> ChecksOne(pools, account, uploads[i])
  }

  predicate ChecksOne(pools: Pools, account: Id, u: Upload) {
    u.file.account == account && Multiplier(pools, u.file.pool) <= RateOf(u.costMultiplier)
  }

  lemma AddStaysWithin(pools: Pools, files: seq<File>, account: Id, individual: Option<string>, total: int, u: Upload)
    requires ChecksOne(pools, account, u)
    ensures
      var pool := AccountPool(account, individual);
      var after := Usage(pools, Add(pools, files, individual, total, u), pool).mb;
            after <= total || after == Usage(pools, files, pool).mb
  {
    MebibytesAfterAdding(pools, files, u.file, AccountPool(account, individual));
    if u.file.size > 0 {
      ChargeGrows(u.file.size, Multiplier(pools, u.file.pool), RateOf(u.costMultiplier));
    }
  }

  /** Checked-then-added uploads, however many, never take the account past its total. */
  lemma {:induction false} UploadsStayWithinTheTotal(pools: Pools, files: seq<File>, account: Id,
        individual: Option<string>, total: int, uploads: seq<Upload>)
    requires ChecksInFull(pools, account, uploads)
    requires Usage(pools, files, AccountPool(account, individual)).mb <= total
    ensures Usage(pools, AddAll(pools, files, individual, total, uploads), AccountPool(account, individual)).mb <= total
    decreases |uploads|
  {
    if uploads != [] {
      assert ChecksOne(pools, account, uploads[0]);
      AddStaysWithin(pools, files, account, individual, total, uploads[0]);
      forall i | 0 <= i < |uploads[1..]|
        ensures ChecksOne(pools, account, uploads[1..][i])
      {
        assert uploads[1..][i] == uploads[i + 1];
      }
      UploadsStayWithinTheTotal(pools, Add(pools, files, individual, total, uploads[0]), account, individual, total,
        uploads[1..]);
    }
  }

  /**
   Whatever multiplier is checked, an upload is safe at every level of usage exactly
   when the checked amount is not below what the stored file is billed.
   */
  lemma CheckIsSafeIff(pools: Pools, f: File, costMultiplier: real)
    ensures var checked := if f.size > 0 then Checked(f.size, costMultiplier) else 0;
      CheckIsSafe(pools, f, costMultiplier) <==> Billed(pools, f) <= checked
  {
    if CheckIsSafe(pools, f, costMultiplier) && f.size > 0 {
      ChargeGrows(f.size, 0.0, RateOf(costMultiplier));
      assert Admitted(0, f.size, costMultiplier, Checked(f.size, costMultiplier));
    }
  }

  /** Whatever the usage and the total, an admitted upload stays within the total. */
  ghost predicate CheckIsSafe(pools: Pools, f: File, costMultiplier: real) {
    forall used, total ::
      Admitted(used, f.size, costMultiplier, total) && used <= total ==> used + Billed(pools, f) <= total
  }

  /** The rate CheckUploadQuota charges. */
  function RateOf(costMultiplier: real): real {
    if costMultiplier <= 0.0 then 1.0 else costMultiplier
  }

  /** The check is safe for every file of a pool if and only if it charges no less than the pool's multiplier. */
  lemma RateIsSafeIff(pools: Pools, pool: Option<string>, costMultiplier: real)
    ensures (forall f: File :: f.pool == pool ==> CheckIsSafe(pools, f, costMultiplier))
      <==> Multiplier(pools, pool) <= RateOf(costMultiplier)
  {
    var m, c := Multiplier(pools, pool), RateOf(costMultiplier);
    if m <= c {
      forall f: File | f.pool == pool ensures CheckIsSafe(pools, f, costMultiplier) {
        CheckIsSafeIff(pools, f, costMultiplier);
        if f.size > 0 { ChargeGrows(f.size, m, c); }
      }
    } else {
      var size := LargeEnough(c, m);
      var f := File("a", None, pool, size, true, true);
      CheckIsSafeIff(pools, f, costMultiplier);
      assert !CheckIsSafe(pools, f, costMultiplier);
    }
  }

  /** Some size is charged more at the higher rate. */
  lemma LargeEnough(c: real, m: real) returns (size: int)
    requires 0.0 < c < m
    ensures size > 0 && Charge(size, c) < Charge(size, m)
  {
    size := Ceil(UNIT / (m - c));
    var x, gap := size as real, m - c;
    assert UNIT / gap * gap == UNIT;
    assert x * gap >= UNIT / gap * gap;
    assert x * m - x * c == x * gap;
    assert x * m / UNIT - x * c / UNIT >= 1.0;
  }

  /** Checking at the flat rate 1.0, as two of the HTTP routes do, lets a dearer pool overrun. */
  lemma FlatRateOverruns(account: Id)
    ensures
      var pools: Pools := map["dear" := Some(2.0)];
      var f := File(account, None, Some("dear"), 1048576, true, true);
            var after := Add(pools, [], None, 1, Upload(f, 1.0));
            Usage(pools, after, AccountPool(account, None)).mb == 2
  {
    var pools: Pools := map["dear" := Some(2.0)];
    var f := File(account, None, Some("dear"), 1048576, true, true);
    assert Scan([], AccountPool(account, None)) == [];
    assert Checked(f.size, 1.0) == 1;
    assert Add(pools, [], None, 1, Upload(f, 1.0)) == [f];
    MebibytesAfterAdding(pools, [], f, AccountPool(account, None));
    assert Multiplier(pools, f.pool) == 2.0;
    assert Charge(f.size, 2.0) == 2;
    assert [] + [f] == [f];
  }
}
