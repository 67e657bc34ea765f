/**
 What each operation does to the forest and to access decisions: the rows it moves
 or removes, the ancestors every other row keeps, and who may read afterwards.
 */
module ForestEffects {
  import opened Common
  import opened ParentGraph
  import opened FileForest
  import opened ForestInvariants

  // ----- inheritance -----

  /** The rows for the permission, if there are any, else what the parent inherits. */
  function Inherits(rows: Rows, acl: Acl, own: Acl, x: Id, parent: Option<Id>, permission: string): Lookup
    requires LiveForest(rows)
  {
    if own != {} then Source(x, own)
    else match parent
      case None => NoSource
      case Some(p) => LoadInherited(rows, acl, p, permission)
  }

  /** A live file's own rows decide, and without any its parent's answer is its own. */
  lemma InheritanceEquation(rows: Rows, acl: Acl, x: Id, permission: string)
    requires LiveForest(rows) && Live(rows, x)
    ensures LoadInherited(rows, acl, x, permission) ==
      Inherits(rows, acl, RowsFor(acl, x, permission), x, rows[x].parent, permission)
  {
    var chain := Ancestors(rows, x);
    assert chain[0] == x;
    match rows[x].parent
    case None =>
      assert chain == [x] && [x][1..] == [];
      assert NearestSource([], acl, permission) == NoSource;
    case Some(p) => assert chain[1..] == Ancestors(rows, p);
  }

  /**
   The whole decision, told by the rows alone: nobody decides for a row that is deleted or
   missing; rows of its own decide for a live one; otherwise its parent's answer is its own.
   */
  lemma DecisionMeans(rows: Rows, acl: Acl, x: Id, permission: string)
    requires LiveForest(rows)
    ensures LoadInherited(rows, acl, x, permission) ==
      var own := set r | r in acl && r.file == x && r.permission == permission;
      if x !in rows || rows[x].deleted then NoSource
      else if own != {} then Source(x, own)
      else if rows[x].parent.None? then NoSource
      else LoadInherited(rows, acl, rows[x].parent.value, permission)
  {
    if Live(rows, x) {
      InheritanceEquation(rows, acl, x, permission);
      assert RowsFor(acl, x, permission) == set r | r in acl && r.file == x && r.permission == permission;
    }
  }

  lemma NotItsOwnAncestor(rows: Rows, x: Id)
    requires LiveForest(rows) && Live(rows, x) && rows[x].parent.Some?
    ensures x !in Ancestors(rows, rows[x].parent.value)
  {
    var above := Ancestors(rows, rows[x].parent.value);
    assert Ancestors(rows, x) == [x] + above;
    forall i | 0 <= i < |above| ensures above[i] != x { AncestorsDistinct(rows, x, 0, i + 1); }
  }

  // ----- access updates -----

  function ForPermission(perms: Acl, permission: string): Acl {
    set r | r in perms && r.permission == permission
  }

  /** Files that do not inherit from x keep their answer. */
  lemma UpdateAclSparesOthers(db: Db, x: Id, perms: Acl, y: Id, permission: string)
    requires LiveForest(db.rows) && (forall r :: r in perms ==> r.file == x) && x !in Ancestors(db.rows, y)
    ensures var next := UpdateAcl(db, x, perms);
      LoadInherited(next.rows, next.acl, y, permission) == LoadInherited(db.rows, db.acl, y, permission)
  {
    var next := UpdateAcl(db, x, perms);
    forall a | a in Ancestors(db.rows, y) ensures RowsFor(db.acl, a, permission) == RowsFor(next.acl, a, permission) {
      forall r ensures r in RowsFor(db.acl, a, permission) <==> r in RowsFor(next.acl, a, permission) {}
    }
    NearestSourceAgrees(Ancestors(db.rows, y), db.acl, next.acl, permission);
  }

  /** x itself is decided by exactly the new rows, or inherits as before when none is for the permission. */
  lemma UpdateAclTakesEffect(db: Db, x: Id, perms: Acl, permission: string)
    requires LiveForest(db.rows) && Live(db.rows, x) && forall r :: r in perms ==> r.file == x
    ensures var next := UpdateAcl(db, x, perms);
      LoadInherited(next.rows, next.acl, x, permission)
        == Inherits(db.rows, db.acl, ForPermission(perms, permission), x, db.rows[x].parent, permission)
  {
    var next := UpdateAcl(db, x, perms);
    forall r ensures r in RowsFor(next.acl, x, permission) <==> r in ForPermission(perms, permission) {}
    InheritanceEquation(next.rows, next.acl, x, permission);
    if db.rows[x].parent.Some? {
      NotItsOwnAncestor(db.rows, x);
      UpdateAclSparesOthers(db, x, perms, db.rows[x].parent.value, permission);
    }
  }

  /** An access update replaces the rows of one file, adds the given ones, and changes nothing else. */
  lemma UpdateAclChangesOnlyItsRows(db: Db, x: Id, perms: Acl, r: AclRow)
    ensures var next := UpdateAcl(db, x, perms);
      && next.rows == db.rows && next.objects == db.objects
      && (r in next.acl <==> r in perms || (r in db.acl && r.file != x))
  {
  }

  // ----- lookups -----

  /** A lookup leaves its answer in the cache for the next one, and no lookup, row or object changes. */
  lemma LookupChangesOnlyTheCache(db: Db, x: Id, permission: string, k: Key)
    requires LiveForest(db.rows)
    ensures var next := Resolve(db, x, permission);
      && next.rows == db.rows && next.acl == db.acl && next.objects == db.objects
      && Key(x, permission) in next.cache && next.cache[Key(x, permission)] == Answer(db, x, permission)
      && Answer(next, k.file, k.permission) == Answer(db, k.file, k.permission)
      && (k != Key(x, permission) ==> (k in next.cache <==> k in db.cache))
  {
  }

  // ----- moves -----

  /** The target is a row to be moved or lies below one, along live rows. */
  ghost predicate TargetIsBelow(rows: Rows, ids: set<Id>, target: Option<Id>) {
    target.Some? && exists a :: a in ids && a in rows && Above(LiveParents(rows), target.value, a)
  }

  lemma RefusedIff(rows: Rows, ids: set<Id>, target: Option<Id>)
    ensures MoveRefused(rows, ids, target) <==> TargetIsBelow(rows, ids, target)
  {
    if target.Some? {
      BelowIsDescendants(LiveParents(rows), ids * rows.Keys, target.value);
      if a :| a in ids && a in rows && Above(LiveParents(rows), target.value, a) { assert a in ids * rows.Keys; }
    }
  }

  /** A row of the batch goes below the target, when it is live and the target is not below the batch. */
  ghost predicate Goes(rows: Rows, ids: set<Id>, target: Option<Id>, x: Id)
    requires x in rows
  {
    x in ids && !rows[x].deleted && !TargetIsBelow(rows, ids, target)
  }

  /**
   A move gives the live rows of the batch their new parent, unless it is refused, and
   leaves everything else in them, every other row, access rows and objects as they were.
   */
  lemma MoveChangesOnlyParents(db: Db, ids: set<Id>, target: Option<Id>)
    ensures var next := Move(db, ids, target);
      && next.rows.Keys == db.rows.Keys && next.acl == db.acl && next.objects == db.objects
      && (forall x :: x in db.rows ==> next.rows[x].(parent := db.rows[x].parent) == db.rows[x])
      && (forall x :: x in db.rows ==>
            next.rows[x].parent == if Goes(db.rows, ids, target, x) then target else db.rows[x].parent)
  {
    RefusedIff(db.rows, ids, target);
  }

  /** A row outside the moved subtrees keeps its ancestors. */
  lemma MoveSparesOthers(db: Db, ids: set<Id>, target: Option<Id>, y: Id)
    requires LiveForest(db.rows) && y !in LiveSubtrees(db.rows, ids)
    ensures LiveForest(Move(db, ids, target).rows)
    ensures Ancestors(Move(db, ids, target).rows, y) == Ancestors(db.rows, y)
  {
    MoveKeepsForest(db, ids, target);
    if !MoveRefused(db.rows, ids, target) {
      var next := Move(db, ids, target);
      forall a | a in Ancestors(db.rows, y) ensures SameLink(db.rows, next.rows, a) {
        AncestorsAreTheLiveRowsAbove(db.rows, y, a);
        BelowIsDescendants(LiveParents(db.rows), ids * db.rows.Keys, y);
        assert a !in ids;
      }
      AncestorsAgree(db.rows, next.rows, y);
    }
  }

  /** A moved row's ancestors are itself and then the target's ancestors as they were. */
  lemma MoveTakesEffect(db: Db, ids: set<Id>, target: Option<Id>, x: Id)
    requires LiveForest(db.rows) && !MoveRefused(db.rows, ids, target) && x in ids && Live(db.rows, x)
    ensures LiveForest(Move(db, ids, target).rows)
    ensures Ancestors(Move(db, ids, target).rows, x) ==
      [x] + match target case None => [] case Some(t) => Ancestors(db.rows, t)
  {
    MoveKeepsForest(db, ids, target);
    if target.Some? { MoveSparesOthers(db, ids, target, target.value); }
  }

  // ----- deletes and purges -----

  lemma DeleteKeepsForest(db: Db, x: Id)
    requires LiveForest(db.rows)
    ensures LiveForest(Delete(db, x).rows)
  {
    SubgraphAcyclic(LiveParents(db.rows), LiveParents(Delete(db, x).rows));
  }

  /**
   Deleting a live row leaves live exactly the rows that did not have it among their
   ancestors, with their ancestors.
   */
  lemma DeleteTakesEffect(db: Db, x: Id, y: Id)
    requires LiveForest(db.rows) && Live(db.rows, x)
    ensures LiveForest(Delete(db, x).rows)
    ensures Live(Delete(db, x).rows, y) <==> Live(db.rows, y) && x !in Ancestors(db.rows, y)
    ensures Live(Delete(db, x).rows, y) ==> Ancestors(Delete(db, x).rows, y) == Ancestors(db.rows, y)
  {
    var rows, next := db.rows, Delete(db, x).rows;
    DeleteKeepsForest(db, x);
    LiveBelow(rows, x, y);
    if Live(next, y) {
      forall a | a in Ancestors(rows, y) ensures SameLink(rows, next, a) {
        AncestorsAreTheLiveRowsAbove(rows, y, a);
        LiveBelow(rows, x, a);
        AncestorsAreTheLiveRowsAbove(rows, a, x);
        AncestorsAreTheLiveRowsAbove(rows, y, x);
        if Above(LiveParents(rows), a, x) { AboveTransitive(LiveParents(rows), y, a, x); }
      }
      AncestorsAgree(rows, next, y);
    }
  }

  /** A delete marks rows and leaves everything else as it was. */
  lemma DeleteChangesOnlyMarks(db: Db, x: Id)
    ensures var next := Delete(db, x);
      && next.rows.Keys == db.rows.Keys && next.acl == db.acl && next.objects == db.objects
      && (forall y :: y in db.rows ==> next.rows[y].(deleted := db.rows[y].deleted) == db.rows[y])
      && (forall y :: y in db.rows && db.rows[y].deleted ==> next.rows[y].deleted)
  {
  }

  /** A live row is in the live subtree of a live x exactly when x is among its ancestors. */
  lemma LiveBelow(rows: Rows, x: Id, y: Id)
    requires LiveForest(rows) && Live(rows, x)
    ensures Live(rows, y) ==> (y in LiveSubtrees(rows, {x}) <==> x in Ancestors(rows, y))
  {
    assert {x} * rows.Keys == {x};
    BelowIsDescendants(LiveParents(rows), {x}, y);
    AncestorsAreTheLiveRowsAbove(rows, y, x);
  }

  /**
   Purging a row removes exactly the rows below it, deleted ones included; the live rows
   that stay keep their ancestors.
   */
  lemma PurgeTakesEffect(db: Db, x: Id, y: Id)
    requires LiveForest(db.rows) && x in db.rows
    ensures LiveForest(Purge(db, x).rows)
    ensures y in Purge(db, x).rows <==> y in db.rows && !Above(AllParents(db.rows), y, x)
    ensures y in Purge(db, x).rows ==> Purge(db, x).rows[y] == db.rows[y]
    ensures forall r :: r in Purge(db, x).acl <==> r in db.acl && (r.file in db.rows ==> r.file in Purge(db, x).rows)
    ensures Live(Purge(db, x).rows, y) ==> Ancestors(Purge(db, x).rows, y) == Ancestors(db.rows, y)
  {
    var rows, next := db.rows, Purge(db, x).rows;
    assert {x} * rows.Keys == {x};
    BelowIsDescendants(AllParents(rows), {x}, y);
    SubtreesAreLeast(rows, {x});
    assert HoldsSubtrees(rows, {x}, true, rows.Keys);
    SubgraphAcyclic(LiveParents(rows), LiveParents(next));
    if Live(next, y) {
      forall a | a in Ancestors(rows, y) ensures SameLink(rows, next, a) {
        AncestorsAreTheLiveRowsAbove(rows, y, a);
        AboveInAll(rows, y, a);
        BelowIsDescendants(AllParents(rows), {x}, a);
        if Above(AllParents(rows), a, x) { AboveTransitive(AllParents(rows), y, a, x); }
      }
      AncestorsAgree(rows, next, y);
    }
  }

  /** A purge drops the access rows of exactly the rows it removes: none outlives its file. */
  lemma PurgeLeavesNoOrphans(db: Db, x: Id)
    requires x in db.rows && forall r :: r in db.acl ==> r.file in db.rows
    ensures forall r :: r in Purge(db, x).acl <==> r in db.acl && r.file in Purge(db, x).rows
  {
  }

  lemma AboveInAll(rows: Rows, y: Id, a: Id)
    requires Above(LiveParents(rows), y, a)
    ensures Above(AllParents(rows), y, a)
  {
    var n :| Walk(LiveParents(rows), y, n) == Some(a);
    SubgraphWalk(AllParents(rows), LiveParents(rows), y, n);
  }

  // ----- creations -----

  /**
   A new row inherits from its parent, or as a root is decided by its own access row; no
   live file's ancestors change.
   */
  lemma CreateTakesEffect(db: Db, id: Id, row: Row, grant: Acl, permission: string)
    requires Inv(db) && Fresh(db, id) && !row.deleted && row.parent != Some(id)
    requires row.objectId.Some? ==> row.objectId.value in db.objects
    requires (forall r :: r in grant ==> r.file == id) && forall r :: r in db.acl ==> r.file != id
    requires ParentError(db.rows, row.parent, row.workspace) == None
    ensures var next := Create(db, id, row, grant);
      && LiveForest(next.rows) && Live(next.rows, id)
      && LoadInherited(next.rows, next.acl, id, permission)
        == Inherits(db.rows, db.acl, if row.parent.None? then ForPermission(grant, permission) else {},
          id, row.parent, permission)
      && forall y :: Live(db.rows, y) ==> Ancestors(next.rows, y) == Ancestors(db.rows, y)
  {
    var next := Create(db, id, row, grant);
    CreateKeeps(db, id, row, grant);
    forall y | Live(db.rows, y)
      ensures Ancestors(next.rows, y) == Ancestors(db.rows, y)
    {
      CreateSparesOthers(db, id, row, grant, y);
    }
    forall r
      ensures r in RowsFor(next.acl, id, permission) <==> row.parent.None? && r in ForPermission(grant, permission)
    {
    }
    InheritanceEquation(next.rows, next.acl, id, permission);
    if row.parent.Some? {
      var p := row.parent.value;
      forall a | a in Ancestors(db.rows, p)
        ensures RowsFor(db.acl, a, permission) == RowsFor(next.acl, a, permission)
      {
      }
      NearestSourceAgrees(Ancestors(db.rows, p), db.acl, next.acl, permission);
    }
  }

  lemma CreateSparesOthers(db: Db, id: Id, row: Row, grant: Acl, y: Id)
    requires LiveForest(db.rows) && Fresh(db, id) && Live(db.rows, y) && LiveForest(Create(db, id, row, grant).rows)
    ensures Ancestors(Create(db, id, row, grant).rows, y) == Ancestors(db.rows, y)
  {
    var next := Create(db, id, row, grant);
    forall a | a in Ancestors(db.rows, y)
      ensures SameLink(db.rows, next.rows, a)
    {
      AncestorsAreTheLiveRowsAbove(db.rows, y, a);
    }
    AncestorsAgree(db.rows, next.rows, y);
  }

  // ----- overwrites -----

  /**
   An overwrite is accepted exactly for a live file that is no folder and an object that is
   there; by columns, the file gets the object, its children are marked deleted, and no
   other column and no other row changes.
   */
  lemma OverwriteMeans(db: Db, x: Id, o: Id, y: Id)
    ensures OverwriteError(db, x, o) == None <==>
      && x in db.rows && !db.rows[x].deleted && !db.rows[x].isFolder
      && o in db.objects && !db.objects[o].deleted
    ensures OverwriteError(db, x, o) == None ==>
      var next := Overwrite(db, x, o);
      && next.rows.Keys == db.rows.Keys
      && next.rows[x].(deleted := false) == db.rows[x].(objectId := Some(o))
      && (y in db.rows && y != x ==>
            next.rows[y] == db.rows[y].(deleted := db.rows[y].deleted || db.rows[y].parent == Some(x)))
  {
  }

  /**
   An accepted overwrite points the file at the new object, soft-deletes exactly its
   live children, and deletes the old object exactly when nothing refers to it any more.
   */
  lemma OverwriteTakesEffect(db: Db, x: Id, o: Id, y: Id, b: Id)
    requires LiveForest(db.rows) && OverwriteError(db, x, o) == None
    ensures var next := Overwrite(db, x, o);
      && next.rows.Keys == db.rows.Keys && next.acl == db.acl && next.cache == db.cache && next.groups == db.groups
      && next.rows[x] == db.rows[x].(objectId := Some(o))
      && (Live(next.rows, y) <==> Live(db.rows, y) && db.rows[y].parent != Some(x))
      && (y in db.rows && y != x ==> y in next.rows && next.rows[y].(deleted := db.rows[y].deleted) == db.rows[y])
      && (b in next.objects <==>
            && b in db.objects
            && (db.rows[x].objectId == Some(b) ==> exists z :: z in next.rows && next.rows[z].objectId == Some(b)))
  {
    assert Ancestors(db.rows, x)[0] == x;
    if db.rows[x].parent.Some? { NotItsOwnAncestor(db.rows, x); }
  }
}
