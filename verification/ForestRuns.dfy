/**
 Runs: any mix of lookups, ACL updates, moves, deletes, purges, overwrites and
 creations. Plus the exact conditions for the two steps that can leave the cache stale.
 */
module ForestRuns {
  import opened Common
  import opened ParentGraph
  import opened FileForest
  import opened ForestInvariants

  datatype Step =
    | DoResolve(file: Id, permission: string)
    | DoUpdateAcl(file: Id, perms: Acl)
    | DoMove(ids: set<Id>, target: Option<Id>)
    | DoDelete(file: Id)
    | DoPurge(file: Id)
    | DoStoreObject(file: Id)
    | DoCreate(file: Id, row: Row, grant: Acl)
    | DoOverwrite(file: Id, newObject: Id)

  function Apply(db: Db, step: Step): Db
    requires LiveForest(db.rows)
  {
    match step
    case DoResolve(x, permission) => Resolve(db, x, permission)
    case DoUpdateAcl(x, perms) => UpdateAcl(db, x, perms)
    case DoMove(ids, target) => Move(db, ids, target)
    case DoDelete(x) => Delete(db, x)
    case DoPurge(x) => Purge(db, x)
    case DoStoreObject(o) => if o in db.objects then db else db.(objects := db.objects[o := Object(false)])
    case DoCreate(id, row, grant) => Create(db, id, row, grant)
    case DoOverwrite(x, o) => Overwrite(db, x, o)
  }

  /**
   What the callers guarantee: ids from NewID are fresh, a new file's object was
   stored first, ACL rows name the file being updated, and the derived files an
   overwrite discards have no live children of their own.
   */
  ghost predicate Allowed(db: Db, step: Step) {
    match step
    case DoUpdateAcl(x, perms) => NamesOnly(perms, x)
    case DoCreate(id, row, grant) =>
      && Fresh(db, id) && !row.deleted && row.parent != Some(id)
      && (row.objectId.Some? ==> row.objectId.value in db.objects)
      && NamesOnly(grant, id)
    case DoOverwrite(x, o) => DerivedAreLeaves(db.rows, x)
    case _ => true
  }

  ghost predicate NamesOnly(perms: Acl, x: Id) {
    forall r :: r in perms ==> r.file == x
  }

  ghost predicate DerivedAreLeaves(rows: Rows, x: Id) {
    forall c, y :: c in LiveChildren(rows, x) && y in rows && rows[y].parent == Some(c) ==> rows[y].deleted
  }

  ghost predicate AllowedRun(db: Db, steps: seq<Step>)
    requires Inv(db)
    decreases |steps|
  {
    steps == [] || (Allowed(db, steps[0]) && (StepKeepsInv(db, steps[0]); AllowedRun(Apply(db, steps[0]), steps[1..])))
  }

  ghost function Run(db: Db, steps: seq<Step>): Db
    requires Inv(db) && AllowedRun(db, steps)
    decreases |steps|
  {
    if steps == [] then db
    else StepKeepsInv(db, steps[0]); Run(Apply(db, steps[0]), steps[1..])
  }

  lemma StepKeepsInv(db: Db, step: Step)
    requires Inv(db) && Allowed(db, step)
    ensures Inv(Apply(db, step))
  {
    match step
    case DoResolve(x, permission) => ResolveKeeps(db, x, permission);
    case DoUpdateAcl(x, perms) => UpdateAclKeeps(db, x, perms);
    case DoMove(ids, target) => MoveKeeps(db, ids, target);
    case DoDelete(x) => DeleteKeeps(db, x);
    case DoPurge(x) => PurgeKeeps(db, x);
    case DoStoreObject(o) =>
      var next := Apply(db, step);
      forall k | k in next.cache && Live(next.rows, k.file) ensures KeyCoherent(next, k) { assert KeyCoherent(db, k); }
    case DoCreate(id, row, grant) => CreateKeeps(db, id, row, grant);
    case DoOverwrite(x, o) => OverwriteKeeps(db, x, o);
  }

  /** A stored object is there from then on, unless it was before; nothing else changes. */
  lemma StoringAddsOne(db: Db, o: Id, p: Id)
    requires LiveForest(db.rows)
    ensures var next := Apply(db, DoStoreObject(o));
      && o in next.objects && (o !in db.objects ==> !next.objects[o].deleted)
      && (p in db.objects ==> p in next.objects && next.objects[p] == db.objects[p])
      && next == db.(objects := next.objects)
  {
  }

  /** Safety over whole runs: the live forest, the cache and the object references stay sound. */
  lemma {:induction false} RunKeepsInv(db: Db, steps: seq<Step>)
    requires Inv(db) && AllowedRun(db, steps)
    ensures Inv(Run(db, steps))
    decreases |steps|
  {
    if steps != [] {
      StepKeepsInv(db, steps[0]);
      RunKeepsInv(Apply(db, steps[0]), steps[1..]);
    }
  }

  /**
   After any run a lookup of a live file answers as if there were no cache, and
   the ancestor query ends from every row.
   */
  lemma RunAnswersAreFresh(db: Db, steps: seq<Step>, x: Id, permission: string)
    requires Inv(db) && AllowedRun(db, steps)
    ensures var last := Run(db, steps);
      && LiveForest(last.rows)
      && (Live(last.rows, x) ==> Answer(last, x, permission) == LoadInherited(last.rows, last.acl, x, permission))
      && (forall y: Id :: EndsFrom(LiveParents(last.rows), y))
  {
    RunKeepsInv(db, steps);
    var last := Run(db, steps);
    var k := Key(x, permission);
    if k in last.cache && Live(last.rows, x) { assert KeyCoherent(last, k); }
    WalkEndsIffAcyclic(LiveParents(last.rows));
  }

  // ----- overwrite: exactly when the cache stays coherent -----

  /** A row strictly above y in the live forest has a live child on the way. */
  lemma LiveChildOnTheWay(rows: Rows, y: Id, c: Id) returns (b: Id)
    requires LiveForest(rows) && c in Ancestors(rows, y) && c != y
    ensures Live(rows, b) && rows[b].parent == Some(c)
  {
    var g := LiveParents(rows);
    AncestorsAreTheLiveRowsAbove(rows, y, c);
    var n: nat :| Walk(g, y, n) == Some(c);
    WalkPredecessor(g, y, n);
    b := Walk(g, y, n - 1).value;
  }

  lemma {:induction false} WalkPredecessor(g: Graph, y: Id, n: nat)
    requires 0 < n && Walk(g, y, n).Some?
    ensures Walk(g, y, n - 1).Some? && Walk(g, y, n - 1).value in g
    ensures g[Walk(g, y, n - 1).value] == Walk(g, y, n).value
    decreases n
  {
    if n > 1 { WalkPredecessor(g, g[y], n - 1); }
  }

  lemma OverwriteKeeps(db: Db, x: Id, o: Id)
    requires Inv(db) && DerivedAreLeaves(db.rows, x)
    ensures Inv(Overwrite(db, x, o))
  {
    OverwriteKeepsForest(db, x, o);
    OverwriteKeepsRefs(db, x, o);
    var next := Overwrite(db, x, o);
    if OverwriteError(db, x, o) == None {
      forall k | k in next.cache && Live(next.rows, k.file) ensures KeyCoherent(next, k) {
        assert KeyCoherent(db, k);
        forall a | a in Ancestors(db.rows, k.file) ensures SameLink(db.rows, next.rows, a) {
          AncestorsAreTheLiveRowsAbove(db.rows, k.file, a);
          if a in LiveChildren(db.rows, x) { var b := LiveChildOnTheWay(db.rows, k.file, a); }
        }
        AncestorsAgree(db.rows, next.rows, k.file);
      }
    }
  }

  /** A cached answer below a discarded derived file goes stale: OverwriteFile invalidates nothing. */
  lemma OverwriteGoesStale(rows: Rows, objects: Objects, x: Id, o: Id, c: Id, y: Id) returns (db: Db)
    requires LiveForest(rows) && RefsExist(Db(rows, {}, objects, map[], map[]))
    requires OverwriteError(Db(rows, {}, objects, map[], map[]), x, o) == None
    requires c in LiveChildren(rows, x) && Live(rows, y) && rows[y].parent == Some(c)
    ensures db.rows == rows && db.objects == objects && Inv(db) && !Inv(Overwrite(db, x, o))
  {
    var acl := {AclRow("row", c, "read", "public", "")};
    var empty := Db(rows, acl, objects, map[], map[]);
    ResolveKeeps(empty, y, "read");
    db := Resolve(empty, y, "read");
    var next := Overwrite(db, x, o);
    OverwriteKeepsForest(db, x, o);
    var g := LiveParents(rows);
    assert Walk(g, x, 1) != Some(x) && Walk(g, y, 1) == Some(c) && Walk(g, y, 1) != Some(y);
    assert AclRow("row", c, "read", "public", "") in RowsFor(acl, c, "read");
    assert Ancestors(rows, y) == [y] + Ancestors(rows, c) && c in Ancestors(rows, c);
    NearestSourceMeaning(Ancestors(rows, y), acl, "read");
    assert LoadInherited(rows, acl, y, "read").Source?;
    assert Ancestors(next.rows, c) == [];
    assert Ancestors(next.rows, y) == [y];
    assert RowsFor(acl, y, "read") == {} && NearestSource([y][1..], acl, "read") == NoSource;
    assert !KeyCoherent(next, Key(y, "read"));
  }

  /**
   OverwriteFile soft-deletes the live children of a file without touching the
   cache. It keeps every coherent cache coherent exactly when none of those
   children has a live child.
   */
  lemma OverwriteCoherentIff(rows: Rows, objects: Objects, x: Id, o: Id)
    requires LiveForest(rows) && RefsExist(Db(rows, {}, objects, map[], map[]))
    requires OverwriteError(Db(rows, {}, objects, map[], map[]), x, o) == None
    ensures DerivedAreLeaves(rows, x) <==>
      forall db: Db :: db.rows == rows && db.objects == objects && Inv(db) ==> Inv(Overwrite(db, x, o))
  {
    if DerivedAreLeaves(rows, x) {
      forall db: Db | db.rows == rows && db.objects == objects && Inv(db) ensures Inv(Overwrite(db, x, o)) {
        OverwriteKeeps(db, x, o);
      }
    } else {
      var c, y :| c in LiveChildren(rows, x) && y in rows && rows[y].parent == Some(c) && !rows[y].deleted;
      var db := OverwriteGoesStale(rows, objects, x, o, c, y);
    }
  }

  // ----- ACL updates: exactly when the cache stays coherent -----

  /** A row for another file reaches that file's cached answers, whose groups are not invalidated. */
  lemma ForeignAclGoesStale(x: Id, perms: Acl, r: AclRow) returns (db: Db)
    requires r in perms && r.file != x
    ensures Inv(db) && !Inv(UpdateAcl(db, x, perms))
  {
    var rows: Rows := map[r.file := Row(None, false, false, "", None)];
    var empty := Db(rows, {}, map[], map[], map[]);
    forall y: Id, n: nat | 0 < n ensures Walk(LiveParents(rows), y, n) != Some(y) {}
    assert Inv(empty);
    ResolveKeeps(empty, r.file, r.permission);
    db := Resolve(empty, r.file, r.permission);
    var next := UpdateAcl(db, x, perms);
    var k := Key(r.file, r.permission);
    assert Ancestors(rows, r.file) == [r.file] && RowsFor({}, r.file, r.permission) == {};
    assert NearestSource([r.file][1..], {}, r.permission) == NoSource;
    assert db.cache[k] == NoSource;
    assert k in next.cache;
    assert r in RowsFor(next.acl, r.file, r.permission);
    assert Ancestors(next.rows, r.file) == [r.file];
    assert !KeyCoherent(next, k);
  }

  /**
   UpdateFilePermissions stores the rows it is given unchecked and invalidates
   only the group of its own file: it keeps every coherent cache coherent exactly
   when all the rows name that file.
   */
  lemma UpdateAclCoherentIff(x: Id, perms: Acl)
    ensures NamesOnly(perms, x) <==> forall db: Db :: Inv(db) ==> Inv(UpdateAcl(db, x, perms))
  {
    if NamesOnly(perms, x) {
      forall db: Db | Inv(db) ensures Inv(UpdateAcl(db, x, perms)) { UpdateAclKeeps(db, x, perms); }
    } else {
      var r :| r in perms && r.file != x;
      var db := ForeignAclGoesStale(x, perms, r);
    }
  }

  // ----- the graph over all rows is not protected -----

  const FOLDER := Row(None, false, true, "", None)

  /** "b" is a soft-deleted folder under "a"; "c" is a folder of its own. */
  const TWO_FOLDERS: Rows := map["a" := FOLDER, "b" := FOLDER.(parent := Some("a"), deleted := true), "c" := FOLDER]

  /**
   MoveBatch looks only at live descendants, so two allowed moves close a cycle
   through a soft-deleted row although the live forest stays acyclic.
   */
  lemma DeletedRowsCanCloseACycle()
    ensures var db := Db(TWO_FOLDERS, {}, map[], map[], map[]);
      && var steps := [DoMove({"c"}, Some("b")), DoMove({"a"}, Some("c"))];
      && Inv(db) && Acyclic(AllParents(db.rows)) && AllowedRun(db, steps)
      && !Acyclic(AllParents(Run(db, steps).rows))
  {
    TwoFoldersSound();
    TwoMovesRun();
    ThirdFolderClosesTheCycle();
  }

  /** Both moves are accepted, one after the other. */
  lemma TwoMovesRun()
    ensures var db := Db(TWO_FOLDERS, {}, map[], map[], map[]);
      && var steps := [DoMove({"c"}, Some("b")), DoMove({"a"}, Some("c"))];
      && Inv(db) && AllowedRun(db, steps)
      && Run(db, steps).rows == Reparent(Reparent(TWO_FOLDERS, {"c"}, Some("b")), {"a"}, Some("c"))
  {
    var db := Db(TWO_FOLDERS, {}, map[], map[], map[]);
    var s1, s2 := DoMove({"c"}, Some("b")), DoMove({"a"}, Some("c"));
    TwoFoldersSound();
    FirstMoveGoesThrough();
    StepKeepsInv(db, s1);
    SecondMoveGoesThrough();
    RunTwo(db, s1, s2);
  }

  lemma RunTwo(db: Db, s1: Step, s2: Step)
    requires Inv(db) && Allowed(db, s1)
    requires Inv(Apply(db, s1)) && Allowed(Apply(db, s1), s2)
    ensures AllowedRun(db, [s1, s2]) && Run(db, [s1, s2]) == Apply(Apply(db, s1), s2)
  {
    var db1 := Apply(db, s1);
    StepKeepsInv(db1, s2);
    RunOne(db1, s2);
    assert [s1, s2][1..] == [s2];
  }

  lemma RunOne(db: Db, step: Step)
    requires Inv(db) && Allowed(db, step) && Inv(Apply(db, step))
    ensures AllowedRun(db, [step]) && Run(db, [step]) == Apply(db, step)
  {
    assert [step][1..] == [];
  }

  lemma FirstMoveGoesThrough()
    ensures !MoveRefused(TWO_FOLDERS, {"c"}, Some("b"))
  {
    var g := LiveParents(TWO_FOLDERS);
    BelowIsDescendants(g, {"c"} * TWO_FOLDERS.Keys, "b");
    RootOnlyItself(g, "b");
  }

  lemma SecondMoveGoesThrough()
    ensures !MoveRefused(Reparent(TWO_FOLDERS, {"c"}, Some("b")), {"a"}, Some("c"))
  {
    var rows := Reparent(TWO_FOLDERS, {"c"}, Some("b"));
    var g := LiveParents(rows);
    assert g == map["c" := "b"];
    BelowIsDescendants(g, {"a"} * rows.Keys, "c");
    AboveUnfold(g, "c", "a");
    RootOnlyItself(g, "b");
  }

  lemma ThirdFolderClosesTheCycle()
    ensures !Acyclic(AllParents(Reparent(Reparent(TWO_FOLDERS, {"c"}, Some("b")), {"a"}, Some("c"))))
  {
    CycleOfThree(AllParents(Reparent(Reparent(TWO_FOLDERS, {"c"}, Some("b")), {"a"}, Some("c"))));
  }

  lemma TwoFoldersSound()
    ensures Inv(Db(TWO_FOLDERS, {}, map[], map[], map[])) && Acyclic(AllParents(TWO_FOLDERS))
  {
    var g := AllParents(TWO_FOLDERS);
    assert g == map["b" := "a"];
    forall y: Id, n: nat | 0 < n ensures Walk(g, y, n) != Some(y) {
      if y == "b" { assert Walk(g, "b", n) == Walk(g, "a", n - 1); }
    }
    assert LiveParents(TWO_FOLDERS) == map[];
    SubgraphAcyclic(g, LiveParents(TWO_FOLDERS));
  }

  lemma CycleOfThree(g: Graph)
    requires {"a", "b", "c"} <= g.Keys && g["b"] == "a" && g["c"] == "b" && g["a"] == "c"
    ensures !Acyclic(g)
  {
    assert Walk(g, "c", 1) == Some("b");
    assert Walk(g, "a", 2) == Some("b");
    assert Walk(g, "b", 3) == Some("b");
  }

  lemma RootOnlyItself(g: Graph, x: Id)
    requires x !in g
    ensures forall y :: Above(g, x, y) ==> y == x
  {
    forall y | Above(g, x, y) ensures y == x { AboveUnfold(g, x, y); }
  }
}
