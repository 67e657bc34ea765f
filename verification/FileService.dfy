/**
 The file service's methods over its tables and cache, each proved against the
 step function of FileForest that it performs.
 */
module FileServiceModel {
  import opened Common
  import opened ParentGraph
  import opened FileForest
  import opened ForestInvariants
  import opened ForestEffects
  import opened BatchPurge
  import ForestRuns

  // ----- how the loops build the step functions -----

  function AddToGroup(groups: Groups, key: Key, a: Id): Groups {
    groups[a := (if a in groups then groups[a] else {}) + {key}]
  }

  lemma EnrollOneMore(groups: Groups, key: Key, members: seq<Id>, a: Id)
    ensures Enroll(groups, key, members + [a]) == AddToGroup(Enroll(groups, key, members), key, a)
  {
    var one, other := Enroll(groups, key, members + [a]), AddToGroup(Enroll(groups, key, members), key, a);
    assert forall b :: b in members + [a] <==> b in members || b == a;
    assert one.Keys == other.Keys;
    forall b | b in one ensures one[b] == other[b] {}
  }

  lemma EnrollNowhere(groups: Groups, key: Key)
    ensures Enroll(groups, key, []) == groups
  {
    assert Enroll(groups, key, []).Keys == groups.Keys;
    forall b | b in groups ensures Enroll(groups, key, [])[b] == groups[b] {}
  }

  lemma ForgetOneMore(db: Db, ids: set<Id>, a: Id)
    ensures Forget(Forget(db, ids), {a}) == Forget(db, ids + {a})
  {
    var one, both := Forget(Forget(db, ids), {a}), Forget(db, ids + {a});
    assert one.groups == both.groups;
    forall k ensures k in one.cache <==> k in both.cache {
      ForgetMembers(db, ids, k);
      ForgetMembers(Forget(db, ids), {a}, k);
      ForgetMembers(db, ids + {a}, k);
    }
    assert one.cache == both.cache;
  }

  lemma ForgetMembers(db: Db, ids: set<Id>, k: Key)
    ensures k in Forget(db, ids).cache <==>
      k in db.cache && forall a :: a in ids && a in db.groups ==> k !in db.groups[a]
  {
  }

  /** A batch of lookups, one after another. */
  function ResolveAll(db: Db, ids: seq<Id>, permission: string): (r: Db)
    requires LiveForest(db.rows)
    ensures r.rows == db.rows && r.acl == db.acl && r.objects == db.objects
  {
    if ids == [] then db
    else Resolve(ResolveAll(db, ids[..|ids| - 1], permission), ids[|ids| - 1], permission)
  }

  lemma ResolveAllOneMore(db: Db, ids: seq<Id>, x: Id, permission: string)
    requires LiveForest(db.rows)
    ensures ResolveAll(db, ids + [x], permission) == Resolve(ResolveAll(db, ids, permission), x, permission)
  {
    assert (ids + [x])[..|ids + [x]| - 1] == ids;
  }

  lemma {:induction false} ResolveAllKeys(db: Db, ids: seq<Id>, permission: string, k: Key)
    requires LiveForest(db.rows)
    ensures k in ResolveAll(db, ids, permission).cache <==>
      k in db.cache || (k.permission == permission && k.file in ids)
  {
    if ids != [] {
      var n := |ids| - 1;
      ResolveAllKeys(db, ids[..n], permission, k);
      assert ids == ids[..n] + [ids[n]];
    }
  }

  /** The files of a batch that the cache does not answer, each once, in order. */
  function Missing(cache: Cache, ids: seq<Id>, permission: string): (missing: seq<Id>)
    ensures forall j, k :: 0 <= j < k < |missing| ==> missing[j] != missing[k]
    ensures forall x :: x in missing <==> x in ids && Key(x, permission) !in cache
  {
    if ids == [] then []
    else
      var n := |ids| - 1;
      assert ids == ids[..n] + [ids[n]];
      var sofar := Missing(cache, ids[..n], permission);
      if Key(ids[n], permission) in cache || ids[n] in sofar then sofar else sofar + [ids[n]]
  }

  /** The cached part of a batch. */
  function Hits(cache: Cache, ids: seq<Id>, permission: string): map<Id, Lookup> {
    map x | x in ids && Key(x, permission) in cache :: cache[Key(x, permission)]
  }

  lemma HitsOneMore(cache: Cache, ids: seq<Id>, x: Id, permission: string)
    ensures Hits(cache, ids + [x], permission) ==
      if Key(x, permission) in cache then Hits(cache, ids, permission)[x := cache[Key(x, permission)]]
      else Hits(cache, ids, permission)
  {
  }

  /** Cached and loaded answers together answer every file of the batch. */
  lemma HitsAndLoaded(db: Db, ids: seq<Id>, permission: string, loaded: map<Id, Lookup>)
    requires LiveForest(db.rows) && loaded.Keys == Ids(Missing(db.cache, ids, permission))
    requires forall x :: x in loaded ==> loaded[x] == LoadInherited(db.rows, db.acl, x, permission)
    ensures var all := Hits(db.cache, ids, permission) + loaded;
      all.Keys == Ids(ids) && forall x :: x in ids ==> all[x] == Answer(db, x, permission)
  {
  }

  lemma MissingOneMore(cache: Cache, ids: seq<Id>, x: Id, permission: string)
    ensures var sofar := Missing(cache, ids, permission);
      Missing(cache, ids + [x], permission) == if Key(x, permission) in cache || x in sofar then sofar else sofar + [x]
  {
    assert (ids + [x])[..|ids + [x]| - 1] == ids;
  }

  /** Looking up a file that is cached, or already looked up, adds nothing. */
  lemma {:induction false} ResolveAllMissing(db: Db, ids: seq<Id>, permission: string)
    requires LiveForest(db.rows)
    ensures ResolveAll(db, Missing(db.cache, ids, permission), permission) == ResolveAll(db, ids, permission)
  {
    if ids != [] {
      var n := |ids| - 1;
      var sofar := Missing(db.cache, ids[..n], permission);
      ResolveAllMissing(db, ids[..n], permission);
      ResolveAllOneMore(db, sofar, ids[n], permission);
      ResolveAllKeys(db, sofar, permission, Key(ids[n], permission));
    }
  }

  /**
   A batch answers every file as a single lookup would, whatever part of it was
   cached before: the entries it adds change no answer.
   */
  lemma {:induction false} ResolveAllKeepsAnswers(db: Db, ids: seq<Id>, permission: string, x: Id, p: string)
    requires LiveForest(db.rows)
    ensures Answer(ResolveAll(db, ids, permission), x, p) == Answer(db, x, p)
  {
    if ids != [] { ResolveAllKeepsAnswers(db, ids[..|ids| - 1], permission, x, p); }
  }

  lemma HasLeast(s: set<nat>)
    requires s != {}
    ensures exists d :: d in s && forall e :: e in s ==> d <= e
  {
    var x :| x in s;
    if s - {x} == {} {
      assert s == {x};
    } else {
      HasLeast(s - {x});
      var d :| d in s - {x} && forall e :: e in s - {x} ==> d <= e;
      assert (if x < d then x else d) in s;
      forall e | e in s ensures (if x < d then x else d) <= e { if e != x { assert e in s - {x}; } }
    }
  }

  /** The ranked query: of all joined (ancestor, row) pairs, the ancestor at the least depth. */
  function RankedSource(chain: seq<Id>, acl: Acl, permission: string): Option<Id> {
    var depths := set i: nat | i < |chain| && RowsFor(acl, chain[i], permission) != {};
    if depths == {} then None
    else
      HasLeast(depths);
      var d :| d in depths && forall e :: e in depths ==> d <= e;
      Some(chain[d])
  }

  /** The ranked query of a batch picks the source the single-file query picks. */
  lemma RankedSourceIsNearest(chain: seq<Id>, acl: Acl, permission: string)
    ensures match RankedSource(chain, acl, permission)
      case None => NearestSource(chain, acl, permission) == NoSource
      case Some(s) => NearestSource(chain, acl, permission) == Source(s, RowsFor(acl, s, permission))
  {
    NearestSourceMeaning(chain, acl, permission);
    var depths := set i: nat | i < |chain| && RowsFor(acl, chain[i], permission) != {};
    match NearestSource(chain, acl, permission)
    case NoSource =>
      assert depths == {};
    case Source(s, perms) =>
      var i :| 0 <= i < |chain| && chain[i] == s && perms == RowsFor(acl, s, permission) != {}
        && forall j :: 0 <= j < i ==> RowsFor(acl, chain[j], permission) == {};
      assert i in depths;
      assert forall e :: e in depths ==> i <= e;
  }

  /** The rows of the set touch what the set touches. */
  lemma TouchedOfPart(rows: Rows, gone: set<Id>)
    ensures var files := map y | y in rows && y in gone :: rows[y]; Touched(files, files.Keys) == Touched(rows, gone)
  {
    var files := map y | y in rows && y in gone :: rows[y];
    forall o ensures o in Touched(files, files.Keys) <==> o in Touched(rows, gone) {
      if o in Touched(rows, gone) {
        var y :| y in rows && y in gone && rows[y].objectId == Some(o);
        assert y in files && files[y].objectId == Some(o);
      }
    }
  }

  /** No parent, or a live folder of the same workspace. */
  predicate TakesChildren(rows: Rows, parent: Option<Id>, workspace: string) {
    parent.Some? ==>
      var p := parent.value;
      p in rows && !rows[p].deleted && rows[p].isFolder && rows[p].workspace == workspace
  }

  class FileService {
    var rows: Rows
    var acl: Acl
    var objects: Objects
    var cache: Cache
    var groups: Groups

    ghost function State(): Db
      reads this
    {
      Db(rows, acl, objects, cache, groups)
    }

    // ----- cache -----

    method RemoveGroup(a: Id)
      modifies this`cache, this`groups
      ensures State() == Forget(old(State()), {a})
    {
      ghost var next := Forget(State(), {a});
      if a in groups {
        cache := cache - groups[a];
      }
      groups := groups - {a};
      assert cache.Keys == next.cache.Keys && groups.Keys == next.groups.Keys;
    }

    method InvalidatePermissionCaches(ids: set<Id>)
      modifies this`cache, this`groups
      ensures State() == Forget(old(State()), ids)
    {
      ghost var before := State();
      var todo := ids;
      assert Forget(before, {}) == before by { assert before.cache - {} == before.cache; }
      while todo != {}
        invariant todo <= ids && State() == Forget(before, ids - todo)
      {
        var a :| a in todo;
        ForgetOneMore(before, ids - todo, a);
        assert ids - (todo - {a}) == ids - todo + {a};
        todo := todo - {a};
        RemoveGroup(a);
      }
    }

    method CacheLookup(key: Key, lookup: Lookup, members: seq<Id>)
      modifies this`cache, this`groups
      ensures State() == old(State()).(cache := old(cache)[key := lookup], groups := Enroll(old(groups), key, members))
    {
      cache := cache[key := lookup];
      EnrollNowhere(groups, key);
      for i := 0 to |members|
        invariant groups == Enroll(old(groups), key, members[..i])
        invariant cache == old(cache)[key := lookup]
      {
        EnrollOneMore(old(groups), key, members[..i], members[i]);
        assert members[..i + 1] == members[..i] + [members[i]];
        groups := AddToGroup(groups, key, members[i]);
      }
      assert members[..|members|] == members;
    }

    // ----- lookups -----

    method ResolveInheritedFilePermissions(x: Id, permission: string) returns (lookup: Lookup)
      requires LiveForest(rows)
      modifies this`cache, this`groups
      ensures lookup == Answer(old(State()), x, permission)
      ensures State() == Resolve(old(State()), x, permission)
      ensures LiveForest(old(rows)) ==> State() == ForestRuns.Apply(old(State()), ForestRuns.DoResolve(x, permission))
      ensures Key(x, permission) in cache && cache[Key(x, permission)] == lookup
    {
      var key := Key(x, permission);
      if key in cache { return cache[key]; }
      lookup := LoadInherited(rows, acl, x, permission);
      CacheLookup(key, lookup, Ancestors(rows, x));
    }

    method LoadInheritedFilePermissionsBatch(ids: seq<Id>, permission: string) returns (lookups: map<Id, Lookup>)
      requires LiveForest(rows)
      modifies this`cache, this`groups
      ensures lookups.Keys == Ids(ids)
      ensures forall x :: x in ids ==> lookups[x] == Answer(old(State()), x, permission)
      ensures State() == ResolveAll(old(State()), ids, permission)
    {
      var hits, missing := SplitCached(ids, permission);
      ResolveAllMissing(State(), ids, permission);
      if missing == [] {
        HitsAndLoaded(State(), ids, permission, map[]);
        assert hits + map[] == hits;
        return hits;
      }
      var loaded := LoadMissing(missing, permission);
      HitsAndLoaded(State(), ids, permission, loaded);
      lookups := hits + loaded;
      CacheInheritedFilePermissionsBatch(missing, permission, lookups);
    }

    /** The cached part of a batch, and the files it still has to query. */
    method SplitCached(ids: seq<Id>, permission: string) returns (hits: map<Id, Lookup>, missing: seq<Id>)
      ensures hits == map x | x in ids && Key(x, permission) in cache :: cache[Key(x, permission)]
      ensures missing == Missing(cache, ids, permission)
    {
      hits := map[];
      missing := [];
      for i := 0 to |ids|
        invariant hits == Hits(cache, ids[..i], permission)
        invariant missing == Missing(cache, ids[..i], permission)
      {
        var x := ids[i];
        assert ids[..i + 1] == ids[..i] + [x];
        HitsOneMore(cache, ids[..i], x, permission);
        MissingOneMore(cache, ids[..i], x, permission);
        if Key(x, permission) in cache {
          hits := hits[x := cache[Key(x, permission)]];
        } else if x !in missing {
          missing := missing + [x];
        }
      }
      assert ids[..|ids|] == ids;
    }

    method RankedSources(missing: seq<Id>, permission: string) returns (sourceOf: map<Id, Id>)
      requires LiveForest(rows)
      ensures forall x :: x in missing ==>
        RankedSource(Ancestors(rows, x), acl, permission) == if x in sourceOf then Some(sourceOf[x]) else None
    {
      sourceOf := map[];
      for i := 0 to |missing|
        invariant forall x :: x in sourceOf ==> x in missing[..i]
        invariant forall x :: x in missing[..i] ==>
          RankedSource(Ancestors(rows, x), acl, permission) == if x in sourceOf then Some(sourceOf[x]) else None
      {
        var source := RankedSource(Ancestors(rows, missing[i]), acl, permission);
        if source.Some? { sourceOf := sourceOf[missing[i] := source.value]; }
      }
    }

    /** One query for the sources of the missing files, then one for the rows of all those sources. */
    method LoadMissing(missing: seq<Id>, permission: string) returns (lookups: map<Id, Lookup>)
      requires LiveForest(rows)
      ensures lookups.Keys == Ids(missing)
      ensures forall x :: x in missing ==> lookups[x] == LoadInherited(rows, acl, x, permission)
    {
      var sourceOf := RankedSources(missing, permission);
      var found := set r | r in acl && r.file in sourceOf.Values && r.permission == permission;
      lookups := map[];
      for i := 0 to |missing|
        invariant lookups.Keys == Ids(missing[..i])
        invariant forall x :: x in missing[..i] ==> lookups[x] == LoadInherited(rows, acl, x, permission)
      {
        var x := missing[i];
        RankedSourceIsNearest(Ancestors(rows, x), acl, permission);
        if x in sourceOf {
          var s := sourceOf[x];
          assert s in sourceOf.Values;
          var perms := set r | r in found && r.file == s;
          assert perms == RowsFor(acl, s, permission);
          lookups := lookups[x := Source(s, perms)];
        } else {
          lookups := lookups[x := NoSource];
        }
      }
    }

    method CacheInheritedFilePermissionsBatch(missing: seq<Id>, permission: string, lookups: map<Id, Lookup>)
      requires LiveForest(rows)
      requires forall x :: x in missing ==> x in lookups && lookups[x] == LoadInherited(rows, acl, x, permission)
      requires forall x :: x in missing ==> Key(x, permission) !in cache
      requires forall j, k :: 0 <= j < k < |missing| ==> missing[j] != missing[k]
      modifies this`cache, this`groups
      ensures State() == ResolveAll(old(State()), missing, permission)
    {
      ghost var before := State();
      for i := 0 to |missing|
        invariant rows == before.rows && acl == before.acl
        invariant State() == ResolveAll(before, missing[..i], permission)
      {
        var x := missing[i];
        assert missing[..i + 1] == missing[..i] + [x];
        ResolveAllOneMore(before, missing[..i], x, permission);
        ResolveAllKeys(before, missing[..i], permission, Key(x, permission));
        CacheLookup(Key(x, permission), lookups[x], Ancestors(rows, x));
      }
      assert missing[..|missing|] == missing;
    }

    // ----- mutations -----

    method UpdateFilePermissions(x: Id, perms: Acl)
      modifies this`acl, this`cache, this`groups
      ensures State() == UpdateAcl(old(State()), x, perms)
      ensures LiveForest(old(rows)) ==> State() == ForestRuns.Apply(old(State()), ForestRuns.DoUpdateAcl(x, perms))
      ensures forall r :: r in acl <==> r in perms || (r in old(acl) && r.file != x)
    {
      acl := set r | r in acl && r.file != x;
      acl := acl + perms;
      RemoveGroup(x);
    }

    method MoveBatch(ids: set<Id>, target: Option<Id>) returns (result: Result<nat, Error>)
      modifies this`rows, this`cache, this`groups
      ensures State() == Move(old(State()), ids, target)
      ensures LiveForest(old(rows)) ==> State() == ForestRuns.Apply(old(State()), ForestRuns.DoMove(ids, target))
      ensures result == if MoveRefused(old(rows), ids, target) then Err(ParentIsMovedOrBelow)
                        else Ok(|set x | x in ids && x in old(rows) && !old(rows)[x].deleted|)
      ensures result.Err? <==> TargetIsBelow(old(rows), ids, target)
      ensures rows.Keys == old(rows).Keys
      ensures forall x :: x in rows ==> rows[x].(parent := old(rows)[x].parent) == old(rows)[x]
      ensures forall x :: x in rows ==>
        rows[x].parent == if Goes(old(rows), ids, target, x) then target else old(rows)[x].parent
    {
      MoveChangesOnlyParents(State(), ids, target);
      RefusedIff(rows, ids, target);
      assert (set x | x in ids && Live(rows, x)) == set x | x in ids && x in rows && !rows[x].deleted;
      if target.Some? && target.value in LiveSubtrees(rows, ids) { return Err(ParentIsMovedOrBelow); }
      var moved := set x | x in ids && Live(rows, x);
      rows := Reparent(rows, ids, target);
      InvalidatePermissionCaches(LiveSubtrees(rows, ids));
      result := Ok(|moved|);
    }

    method DeleteFile(x: Id) returns (result: Result<(), Error>)
      modifies this`rows, this`cache, this`groups
      ensures State() == Delete(old(State()), x)
      ensures LiveForest(old(rows)) ==> State() == ForestRuns.Apply(old(State()), ForestRuns.DoDelete(x))
      ensures result == if x in old(rows) && !old(rows)[x].deleted then Ok(()) else Err(RecordNotFound)
      ensures rows.Keys == old(rows).Keys
      ensures forall y :: y in rows ==> rows[y].(deleted := old(rows)[y].deleted) == old(rows)[y]
      ensures forall y :: y in rows ==>
        (rows[y].deleted <==> old(rows)[y].deleted || (result.Ok? && y in LiveSubtrees(old(rows), {x})))
    {
      if !Live(rows, x) { return Err(RecordNotFound); }
      var affected := LiveSubtrees(rows, {x});
      rows := SoftDelete(rows, affected);
      InvalidatePermissionCaches(affected);
      result := Ok(());
    }

    /** Drops the object unless a live or soft-deleted row still refers to it. */
    method PurgeObjectIfDereferenced(o: Id)
      modifies this`objects
      ensures objects == if Referenced(rows, o) then old(objects) else old(objects) - {o}
    {
      if Referenced(rows, o) { return; }
      objects := objects - {o};
    }

    /** Each object of the removed files once. */
    method PurgeObjects(files: Rows)
      modifies this`objects
      ensures objects == old(objects) - set o | o in Touched(files, files.Keys) && !Referenced(rows, o)
    {
      var todo := files.Keys;
      var seen: set<Id> := {};
      while todo != {}
        invariant todo <= files.Keys && seen == Touched(files, files.Keys - todo)
        invariant objects == old(objects) - set o | o in seen && !Referenced(rows, o)
      {
        var y :| y in todo;
        assert files.Keys - (todo - {y}) == files.Keys - todo + {y};
        todo := todo - {y};
        if files[y].objectId.Some? && files[y].objectId.value !in seen {
          seen := seen + {files[y].objectId.value};
          PurgeObjectIfDereferenced(files[y].objectId.value);
        }
      }
      assert files.Keys - {} == files.Keys;
    }

    method PurgeFile(x: Id) returns (result: Result<(), Error>)
      modifies this
      ensures State() == Purge(old(State()), x)
      ensures LiveForest(old(rows)) ==> State() == ForestRuns.Apply(old(State()), ForestRuns.DoPurge(x))
      ensures result == if x in old(rows) then Ok(()) else Err(RecordNotFound)
    {
      if x !in rows { return Err(RecordNotFound); }
      var affected := FullSubtrees(rows, {x});
      SubtreesAreRows(rows, {x});
      var files := map y | y in rows && y in affected :: rows[y];
      rows := rows - affected;
      acl := set r | r in acl && r.file !in affected;
      PurgeObjects(files);
      TouchedOfPart(old(rows), affected);
      InvalidatePermissionCaches(affected);
      result := Ok(());
    }

    method CreateWorkspaceFolder(id: Id, grantId: Id, workspace: string, parent: Option<Id>)
      returns (result: Result<(), Error>)
      modifies this`rows, this`acl
      ensures State() ==
        Create(old(State()), id, Row(parent, false, true, workspace, None),
          {AclRow(grantId, id, "read", "private", "")})
      ensures result == match ParentError(old(rows), parent, workspace) case Some(e) => Err(e) case None => Ok(())
      ensures result.Ok? <==> TakesChildren(old(rows), parent, workspace)
      ensures result == Err(RecordNotFound) <==>
        parent.Some? && !(parent.value in old(rows) && !old(rows)[parent.value].deleted)
      ensures result == Err(ParentNotFolder) ==> !old(rows)[parent.value].isFolder
      ensures result == Err(WorkspaceMismatch) ==> old(rows)[parent.value].isFolder
      ensures result.Ok? ==>
        && rows == old(rows)[id := Row(parent, false, true, workspace, None)]
        && acl == if parent == None then old(acl) + {AclRow(grantId, id, "read", "private", "")} else old(acl)
      ensures result.Err? ==> State() == old(State())
    {
      var problem := ParentError(rows, parent, workspace);
      if problem.Some? { return Err(problem.value); }
      rows := rows[id := Row(parent, false, true, workspace, None)];
      if parent == None { acl := acl + {AclRow(grantId, id, "read", "private", "")}; }
      result := Ok(());
    }

    /** A hidden pool takes no uploads; files of a shared pool need no access row of their own. */
    method CreateWorkspaceUploadedFile(id: Id, grantId: Id, workspace: string, parent: Option<Id>, o: Id,
          hiddenPool: bool, sharedPool: bool)
        returns (result: Result<(), Error>)
      modifies this`rows, this`acl
      ensures result == match ParentError(old(rows), parent, workspace)
        case Some(e) => Err(e)
        case None => if hiddenPool then Err(HiddenPool) else Ok(())
      ensures result.Ok? <==> TakesChildren(old(rows), parent, workspace) && !hiddenPool
      ensures result.Ok? ==>
        && rows == old(rows)[id := Row(parent, false, false, workspace, Some(o))]
        && acl == old(acl) +
          if parent == None && !sharedPool then {AclRow(grantId, id, "read", "private", "")} else {}
      ensures result.Ok? ==>
        var row := Row(parent, false, false, workspace, Some(o));
        var grant: Acl := if sharedPool then {} else {AclRow(grantId, id, "read", "private", "")};
        && State() == Create(old(State()), id, row, grant)
        && (LiveForest(old(rows)) ==>
              State() == ForestRuns.Apply(old(State()), ForestRuns.DoCreate(id, row, grant)))
      ensures result.Err? ==> State() == old(State())
    {
      var problem := ParentError(rows, parent, workspace);
      if problem.Some? { return Err(problem.value); }
      if hiddenPool { return Err(HiddenPool); }
      rows := rows[id := Row(parent, false, false, workspace, Some(o))];
      if parent == None && !sharedPool { acl := acl + {AclRow(grantId, id, "read", "private", "")}; }
      result := Ok(());
    }

    method OverwriteFile(x: Id, o: Id) returns (result: Result<(), Error>)
      modifies this`rows, this`objects
      ensures State() == Overwrite(old(State()), x, o)
      ensures LiveForest(old(rows)) ==> State() == ForestRuns.Apply(old(State()), ForestRuns.DoOverwrite(x, o))
      ensures result == match OverwriteError(old(State()), x, o) case Some(e) => Err(e) case None => Ok(())
    {
      if !Live(rows, x) { return Err(RecordNotFound); }
      if rows[x].isFolder { return Err(IsFolder); }
      if !(o in objects && !objects[o].deleted) { return Err(ObjectNotFound); }
      var before := rows[x].objectId;
      var derived := LiveChildren(rows, x);
      rows := rows[x := rows[x].(objectId := Some(o))];
      ghost var pointed := rows;
      var todo := derived;
      while todo != {}
        invariant todo <= derived && derived <= pointed.Keys
        invariant rows == SoftDelete(pointed, derived - todo) && objects == old(objects)
      {
        var child :| child in todo;
        assert derived - (todo - {child}) == derived - todo + {child};
        todo := todo - {child};
        rows := SoftDelete(rows, {child});
        if rows[child].objectId.Some? {
          // The soft-deleted child still refers to its object, which therefore stays.
          assert Referenced(rows, rows[child].objectId.value);
          PurgeObjectIfDereferenced(rows[child].objectId.value);
        }
      }
      assert derived - {} == derived;
      if before.Some? && before.value != o {
        PurgeObjectIfDereferenced(before.value);
      }
      assert rows[x].objectId == Some(o) && Referenced(rows, o);
      result := Ok(());
    }
  }

  // ----- the batch purge handler -----

  lemma {:induction false} PurgeAllOneMore(db: Db, ids: seq<Id>, x: Id)
    ensures PurgeAll(db, ids + [x]) == Purge(PurgeAll(db, ids), x)
    decreases |ids|
  {
    if ids == [] {
      assert ids + [x] == [x];
    } else {
      assert (ids + [x])[1..] == ids[1..] + [x];
      PurgeAllOneMore(Purge(db, ids[0]), ids[1..], x);
    }
  }

  lemma {:induction false} TopLevelOneMore(rows: Rows, batch: seq<Id>, rest: seq<Id>, x: Id)
    ensures TopLevel(rows, batch, rest + [x]) ==
      TopLevel(rows, batch, rest) + if Nested(rows, batch, x) then [] else [x]
  {
    if rest == [] {
      assert rest + [x] == [x];
    } else {
      assert (rest + [x])[1..] == rest[1..] + [x];
      TopLevelOneMore(rows, batch, rest[1..], x);
    }
  }

  method FilterTopLevelBatchFiles(files: FileService, batch: seq<Id>) returns (roots: seq<Id>)
    ensures roots == TopLevel(files.rows, batch, batch)
  {
    if |batch| <= 1 {
      if |batch| == 1 { assert !Nested(files.rows, batch, batch[0]) && batch[1..] == []; }
      return batch;
    }
    var nested: set<Id> := {};
    for i := 0 to |batch|
      invariant nested == set x | x in batch &&
        exists j :: 0 <= j < i && batch[j] != x && x in FullSubtrees(files.rows, {batch[j]})
    {
      var below := FullSubtrees(files.rows, {batch[i]});
      nested := nested + set x | x in below && x != batch[i] && x in batch;
    }
    roots := [];
    for i := 0 to |batch|
      invariant roots == TopLevel(files.rows, batch, batch[..i])
    {
      TopLevelOneMore(files.rows, batch, batch[..i], batch[i]);
      assert batch[..i + 1] == batch[..i] + [batch[i]];
      assert Nested(files.rows, batch, batch[i]) <==> batch[i] in nested;
      if batch[i] !in nested { roots := roots + [batch[i]]; }
    }
    assert batch[..|batch|] == batch;
  }

  /** The handler: every root is purged, and the selection is gone exactly when no two rows of it contain each other. */
  method BatchDeleteFiles(files: FileService, batch: seq<Id>) returns (count: nat)
    requires forall j, k :: 0 <= j < k < |batch| ==> batch[j] != batch[k]
    requires forall x :: x in batch ==> x in files.rows
    modifies files
    ensures count == |TopLevel(old(files.rows), batch, batch)|
    ensures files.State() == PurgeAll(old(files.State()), TopLevel(old(files.rows), batch, batch))
    ensures files.rows == old(files.rows) - FullSubtrees(old(files.rows), Ids(batch)) <==>
      !MutuallyNested(old(files.rows), batch)
  {
    ghost var before := files.State();
    var roots := FilterTopLevelBatchFiles(files, batch);
    count := 0;
    for i := 0 to |roots|
      invariant count == i && files.State() == PurgeAll(before, roots[..i])
    {
      NoPurgeMeetsARemovedRow(before, batch, i);
      PurgeAllOneMore(before, roots[..i], roots[i]);
      assert roots[..i + 1] == roots[..i] + [roots[i]];
      var result := files.PurgeFile(roots[i]);
      if result.Err? { continue; }
      count := count + 1;
    }
    assert roots[..|roots|] == roots;
    BatchPurgeIff(before, batch);
  }
}
