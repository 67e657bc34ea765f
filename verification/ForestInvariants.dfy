/**
 What every step on the forest keeps: an acyclic live forest, a coherent
 permission cache, and no dangling object reference.
 */
module ForestInvariants {
  import opened Common
  import opened ParentGraph
  import opened FileForest

  // ----- the recursive queries, told by single rows -----

  /** t holds the start rows and, with a row, every row directly below it; of deleted ones only when `all`. */
  ghost predicate HoldsSubtrees(rows: Rows, starts: set<Id>, all: bool, t: set<Id>) {
    && starts * rows.Keys <= t
    && forall y :: y in rows && (all || !rows[y].deleted) && ParentIn(rows, y, t) ==> y in t
  }

  predicate ParentIn(rows: Rows, y: Id, t: set<Id>)
    requires y in rows
  {
    rows[y].parent.Some? && rows[y].parent.value in t
  }

  /** The two descendant queries return the least such sets. */
  lemma SubtreesAreLeast(rows: Rows, starts: set<Id>)
    ensures HoldsSubtrees(rows, starts, false, LiveSubtrees(rows, starts))
    ensures HoldsSubtrees(rows, starts, true, FullSubtrees(rows, starts))
    ensures forall t :: HoldsSubtrees(rows, starts, false, t) ==> LiveSubtrees(rows, starts) <= t
    ensures forall t :: HoldsSubtrees(rows, starts, true, t) ==> FullSubtrees(rows, starts) <= t
  {
    BelowHolds(rows, LiveParents(rows), starts, false);
    BelowHolds(rows, AllParents(rows), starts, true);
  }

  lemma BelowHolds(rows: Rows, g: Graph, starts: set<Id>, all: bool)
    requires forall y :: y in g <==> y in rows && (all || !rows[y].deleted) && rows[y].parent.Some?
    requires forall y :: y in g ==> g[y] == rows[y].parent.value
    ensures HoldsSubtrees(rows, starts, all, Below(g, starts * rows.Keys))
    ensures forall t :: HoldsSubtrees(rows, starts, all, t) ==> Below(g, starts * rows.Keys) <= t
  {
    var from := starts * rows.Keys;
    forall y ensures y in from || (y in g && g[y] in Below(g, from)) ==> y in Below(g, from) {
      BelowIsDescendants(g, from, y);
      if y in from { AboveReflexive(g, y); }
      if y in g && g[y] in Below(g, from) {
        BelowIsDescendants(g, from, g[y]);
        var a :| a in from && Above(g, g[y], a);
        AboveParent(g, y, a);
      }
    }
    forall t, y | HoldsSubtrees(rows, starts, all, t) && y in Below(g, from) ensures y in t {
      BelowIsDescendants(g, from, y);
      var a :| a in from && Above(g, y, a);
      var n: nat :| Walk(g, y, n) == Some(a);
      WalkIntoSubtrees(rows, g, starts, all, t, y, a, n);
    }
  }

  lemma {:induction false} WalkIntoSubtrees(rows: Rows, g: Graph, starts: set<Id>, all: bool, t: set<Id>, y: Id, a: Id,
        n: nat)
    requires forall y :: y in g <==> y in rows && (all || !rows[y].deleted) && rows[y].parent.Some?
    requires forall y :: y in g ==> g[y] == rows[y].parent.value
    requires HoldsSubtrees(rows, starts, all, t) && a in t && Walk(g, y, n) == Some(a)
    ensures y in t
    decreases n
  {
    if n > 0 {
      WalkIntoSubtrees(rows, g, starts, all, t, g[y], a, n - 1);
      assert ParentIn(rows, y, t);
    }
  }

  // ----- the ancestor chain -----

  /** The ancestor query returns the live rows at or above a live row, and nothing for any other row. */
  lemma {:induction false} AncestorsAreTheLiveRowsAbove(rows: Rows, x: Id, a: Id)
    requires LiveForest(rows)
    ensures a in Ancestors(rows, x) <==> Live(rows, x) && Live(rows, a) && Above(LiveParents(rows), x, a)
    decreases UpSet(LiveParents(rows), x)
  {
    var g := LiveParents(rows);
    AboveUnfold(g, x, a);
    if Live(rows, x) && rows[x].parent.Some? {
      var p := rows[x].parent.value;
      UpSetShrinks(g, x);
      AncestorsAreTheLiveRowsAbove(rows, p, a);
      if !Live(rows, p) { AboveUnfold(g, p, a); }
    }
  }

  /** The chain is the walk itself: its n-th entry is n parent pointers away, so nearest comes first. */
  lemma {:induction false} AncestorsFollowTheWalk(rows: Rows, x: Id, n: nat)
    requires LiveForest(rows) && n < |Ancestors(rows, x)|
    ensures Walk(LiveParents(rows), x, n) == Some(Ancestors(rows, x)[n])
    decreases n
  {
    if n > 0 { AncestorsFollowTheWalk(rows, rows[x].parent.value, n - 1); }
  }

  /** No cycle of live parent pointers: the chain never repeats a row. */
  lemma AncestorsDistinct(rows: Rows, x: Id, m: nat, n: nat)
    requires LiveForest(rows) && m < n < |Ancestors(rows, x)|
    ensures Ancestors(rows, x)[m] != Ancestors(rows, x)[n]
  {
    var g := LiveParents(rows);
    AncestorsFollowTheWalk(rows, x, m);
    AncestorsFollowTheWalk(rows, x, n);
    WalkSplit(g, x, m, n - m);
  }

  /** What NearestSource answers: the first entry with a row for the permission, with all its rows. */
  lemma {:induction false} NearestSourceMeaning(chain: seq<Id>, acl: Acl, permission: string)
    ensures match NearestSource(chain, acl, permission)
      case NoSource => forall i :: 0 <= i < |chain| ==> RowsFor(acl, chain[i], permission) == {}
      case Source(s, perms) =>
        exists i :: 0 <= i < |chain| && chain[i] == s && perms == RowsFor(acl, s, permission) != {}
          && forall j :: 0 <= j < i ==> RowsFor(acl, chain[j], permission) == {}
  {
    if chain != [] && RowsFor(acl, chain[0], permission) == {} {
      NearestSourceMeaning(chain[1..], acl, permission);
      match NearestSource(chain[1..], acl, permission)
      case NoSource =>
        forall i | 0 <= i < |chain| ensures RowsFor(acl, chain[i], permission) == {} {
          if i > 0 { assert chain[i] == chain[1..][i - 1]; }
        }
      case Source(s, perms) =>
        var i :| 0 <= i < |chain[1..]| && chain[1..][i] == s && perms == RowsFor(acl, s, permission) != {}
          && forall j :: 0 <= j < i ==> RowsFor(acl, chain[1..][j], permission) == {};
        assert chain[i + 1] == s;
        forall j | 0 <= j < i + 1 ensures RowsFor(acl, chain[j], permission) == {} {
          if j > 0 { assert chain[j] == chain[1..][j - 1]; }
        }
    }
  }

  /** Changing rows for other files does not change the answer along a chain. */
  lemma {:induction false} NearestSourceAgrees(chain: seq<Id>, acl: Acl, bcl: Acl, permission: string)
    requires forall a :: a in chain ==> RowsFor(acl, a, permission) == RowsFor(bcl, a, permission)
    ensures NearestSource(chain, acl, permission) == NearestSource(chain, bcl, permission)
  {
    if chain != [] {
      assert chain[0] in chain;
      forall a | a in chain[1..] ensures RowsFor(acl, a, permission) == RowsFor(bcl, a, permission) {
        assert a in chain;
      }
      NearestSourceAgrees(chain[1..], acl, bcl, permission);
    }
  }

  /** b is a live row as in `rows`, and its parent pointer leads to a live row only if it did before. */
  ghost predicate SameLink(rows: Rows, next: Rows, b: Id) {
    && Live(rows, b) && Live(next, b) && rows[b].parent == next[b].parent
    && (rows[b].parent.Some? && Live(next, rows[b].parent.value) ==> Live(rows, rows[b].parent.value))
  }

  /** A chain whose every link survives an edit is the chain after it. */
  lemma {:induction false} AncestorsAgree(rows: Rows, next: Rows, x: Id)
    requires LiveForest(rows) && LiveForest(next) && (Live(next, x) ==> Live(rows, x))
    requires forall a :: a in Ancestors(rows, x) ==> SameLink(rows, next, a)
    ensures Ancestors(next, x) == Ancestors(rows, x)
    decreases UpSet(LiveParents(rows), x)
  {
    if Live(rows, x) {
      assert x in Ancestors(rows, x);
      if rows[x].parent.Some? {
        UpSetShrinks(LiveParents(rows), x);
        AncestorsAgree(rows, next, rows[x].parent.value);
      }
    }
  }

  // ----- coherence after an invalidation -----

  /** A key that survives Forget was in none of the forgotten groups and is as coherent as it was. */
  lemma ForgetKeepsOthers(db: Db, ids: set<Id>, k: Key)
    requires k in Forget(db, ids).cache
    ensures k in db.cache && Forget(db, ids).cache[k] == db.cache[k]
    ensures forall a :: a in db.groups && k in db.groups[a] ==>
      a !in ids && a in Forget(db, ids).groups && Forget(db, ids).groups[a] == db.groups[a]
  {
  }

  /** No row of the key's chain is in ids. */
  ghost predicate ChainAvoids(db: Db, k: Key, ids: set<Id>)
    requires LiveForest(db.rows)
  {
    forall a :: a in Ancestors(db.rows, k.file) ==> a !in ids
  }

  /** An edit leaves x alone: it was live and its chain and answer are what they were. */
  ghost predicate Undisturbed(db: Db, next: Db, k: Key)
    requires LiveForest(db.rows) && LiveForest(next.rows)
  {
    && Ancestors(next.rows, k.file) == Ancestors(db.rows, k.file)
    && LoadInherited(next.rows, next.acl, k.file, k.permission) == LoadInherited(db.rows, db.acl, k.file, k.permission)
  }

  /**
   The invalidation argument shared by every mutation: invalidating the groups in
   `ids` is enough when each key whose chain avoids `ids` is undisturbed.
   */
  lemma CoherentAfterForget(db: Db, edited: Db, ids: set<Id>)
    requires LiveForest(db.rows) && Coherent(db) && LiveForest(edited.rows)
    requires edited.cache == db.cache && edited.groups == db.groups
    requires forall k :: k in db.cache && Live(edited.rows, k.file) ==> Live(db.rows, k.file)
    requires forall k :: k in db.cache && Live(edited.rows, k.file) && ChainAvoids(db, k, ids) ==>
      Undisturbed(db, edited, k)
    ensures Coherent(Forget(edited, ids))
  {
    var next := Forget(edited, ids);
    forall k | k in next.cache && Live(next.rows, k.file) ensures KeyCoherent(next, k) {
      ForgetKeepsOthers(edited, ids, k);
      assert KeyCoherent(db, k);
      assert Undisturbed(db, edited, k);
    }
  }

  // ----- the steps -----

  lemma ResolveKeeps(db: Db, x: Id, permission: string)
    requires Inv(db)
    ensures Inv(Resolve(db, x, permission))
  {
    var next := Resolve(db, x, permission);
    forall k | k in next.cache && Live(next.rows, k.file) ensures KeyCoherent(next, k) {
      if k in db.cache { assert KeyCoherent(db, k); }
    }
  }

  lemma UpdateAclKeeps(db: Db, x: Id, perms: Acl)
    requires Inv(db) && forall r :: r in perms ==> r.file == x
    ensures Inv(UpdateAcl(db, x, perms))
  {
    var edited := db.(acl := (set r | r in db.acl && r.file != x) + perms);
    forall k | k in db.cache && Live(db.rows, k.file) && ChainAvoids(db, k, {x})
      ensures Undisturbed(db, edited, k)
    {
      var chain := Ancestors(db.rows, k.file);
      forall a | a in chain ensures RowsFor(db.acl, a, k.permission) == RowsFor(edited.acl, a, k.permission) {
        assert a !in {x};
      }
      NearestSourceAgrees(chain, db.acl, edited.acl, k.permission);
    }
    CoherentAfterForget(db, edited, {x});
  }

  lemma ReparentIsRedirect(rows: Rows, ids: set<Id>, target: Option<Id>)
    ensures LiveParents(Reparent(rows, ids, target))
      == Redirect(LiveParents(rows), (set x | x in ids && Live(rows, x)), target)
  {
  }

  /** MoveBatch keeps the live forest acyclic, for any batch and any target. */
  lemma MoveKeepsForest(db: Db, ids: set<Id>, target: Option<Id>)
    requires LiveForest(db.rows)
    ensures LiveForest(Move(db, ids, target).rows)
  {
    if !MoveRefused(db.rows, ids, target) {
      var g := LiveParents(db.rows);
      var moved := set x | x in ids && Live(db.rows, x);
      ReparentIsRedirect(db.rows, ids, target);
      match target
      case None => SubgraphAcyclic(g, g - moved);
      case Some(t) =>
        BelowMonotone(g, moved, ids * db.rows.Keys, t);
        RedirectAcyclicIff(g, moved, t);
    }
  }

  lemma BelowMonotone(g: Graph, s: set<Id>, t: set<Id>, y: Id)
    requires s <= t
    ensures y in Below(g, s) ==> y in Below(g, t)
  {
    BelowIsDescendants(g, s, y);
    BelowIsDescendants(g, t, y);
  }

  lemma MoveKeeps(db: Db, ids: set<Id>, target: Option<Id>)
    requires Inv(db)
    ensures Inv(Move(db, ids, target))
  {
    MoveKeepsForest(db, ids, target);
    if !MoveRefused(db.rows, ids, target) {
      var edited := db.(rows := Reparent(db.rows, ids, target));
      var hit := LiveSubtrees(edited.rows, ids);
      forall k | k in db.cache && Live(edited.rows, k.file) && ChainAvoids(db, k, hit)
        ensures Undisturbed(db, edited, k)
      {
        forall a | a in Ancestors(db.rows, k.file) ensures SameLink(db.rows, edited.rows, a) {
          AncestorsAreTheLiveRowsAbove(db.rows, k.file, a);
          assert a !in hit;
        }
        AncestorsAgree(db.rows, edited.rows, k.file);
      }
      CoherentAfterForget(db, edited, hit);
    }
  }

  lemma DeleteKeeps(db: Db, x: Id)
    requires Inv(db)
    ensures Inv(Delete(db, x))
  {
    if Live(db.rows, x) {
      var gone := LiveSubtrees(db.rows, {x});
      var edited := db.(rows := SoftDelete(db.rows, gone));
      SubgraphAcyclic(LiveParents(db.rows), LiveParents(edited.rows));
      forall k | k in db.cache && Live(edited.rows, k.file) && ChainAvoids(db, k, gone)
        ensures Undisturbed(db, edited, k)
      {
        forall a | a in Ancestors(db.rows, k.file) ensures SameLink(db.rows, edited.rows, a) {
          AncestorsAreTheLiveRowsAbove(db.rows, k.file, a);
          assert a !in gone;
        }
        AncestorsAgree(db.rows, edited.rows, k.file);
      }
      CoherentAfterForget(db, edited, gone);
    }
  }

  lemma PurgeKeeps(db: Db, x: Id)
    requires Inv(db)
    ensures Inv(Purge(db, x))
  {
    if x in db.rows {
      var gone := FullSubtrees(db.rows, {x});
      var edited := Purge(db, x).(cache := db.cache, groups := db.groups);
      SubgraphAcyclic(LiveParents(db.rows), LiveParents(edited.rows));
      forall k | k in db.cache && Live(edited.rows, k.file) && ChainAvoids(db, k, gone)
        ensures Undisturbed(db, edited, k)
      {
        var chain := Ancestors(db.rows, k.file);
        forall a | a in chain
          ensures SameLink(db.rows, edited.rows, a)
          ensures RowsFor(db.acl, a, k.permission) == RowsFor(edited.acl, a, k.permission)
        {
          AncestorsAreTheLiveRowsAbove(db.rows, k.file, a);
          assert a !in gone;
        }
        AncestorsAgree(db.rows, edited.rows, k.file);
        NearestSourceAgrees(chain, db.acl, edited.acl, k.permission);
      }
      CoherentAfterForget(db, edited, gone);
      assert Purge(db, x) == Forget(edited, gone);
      PurgeKeepsRefs(db, x);
    }
  }

  lemma CreateKeeps(db: Db, id: Id, row: Row, grant: Acl)
    requires Inv(db) && Fresh(db, id) && !row.deleted && row.parent != Some(id)
    requires row.objectId.Some? ==> row.objectId.value in db.objects
    requires forall r :: r in grant ==> r.file == id
    ensures Inv(Create(db, id, row, grant))
  {
    var next := Create(db, id, row, grant);
    if ParentError(db.rows, row.parent, row.workspace) == None {
      var g := LiveParents(db.rows);
      if row.parent.Some? {
        LeafAcyclic(g, id, row.parent.value);
        assert LiveParents(next.rows) == g[id := row.parent.value];
      } else {
        assert LiveParents(next.rows) == g;
      }
      forall k | k in next.cache && Live(next.rows, k.file) ensures KeyCoherent(next, k) {
        assert k.file != id && KeyCoherent(db, k);
        var chain := Ancestors(db.rows, k.file);
        forall a | a in chain
          ensures SameLink(db.rows, next.rows, a)
          ensures RowsFor(db.acl, a, k.permission) == RowsFor(next.acl, a, k.permission)
        {
          AncestorsAreTheLiveRowsAbove(db.rows, k.file, a);
        }
        AncestorsAgree(db.rows, next.rows, k.file);
        NearestSourceAgrees(chain, db.acl, next.acl, k.permission);
      }
    }
  }

  // ----- shared objects -----

  /** Purge keeps every remaining reference alive, however the purged subtree shared its objects. */
  lemma PurgeKeepsRefs(db: Db, x: Id)
    requires RefsExist(db)
    ensures RefsExist(Purge(db, x))
  {
    var next := Purge(db, x);
    forall y | y in next.rows && next.rows[y].objectId.Some? ensures next.rows[y].objectId.value in next.objects {
      assert Referenced(next.rows, next.rows[y].objectId.value);
    }
  }

  /**
   A purge deletes a touched object exactly when no row, live or soft-deleted, still
   refers to it, and no other object.
   */
  lemma PurgeReleasesExactly(db: Db, x: Id, o: Id)
    requires x in db.rows && o in db.objects
    ensures o !in Purge(db, x).objects <==>
      && (exists y :: y in FullSubtrees(db.rows, {x}) && y in db.rows && db.rows[y].objectId == Some(o))
      && !(exists y :: y in Purge(db, x).rows && Purge(db, x).rows[y].objectId == Some(o))
  {
    var gone := FullSubtrees(db.rows, {x});
    assert o in Touched(db.rows, gone) <==> exists y :: y in gone && y in db.rows && db.rows[y].objectId == Some(o);
    assert Referenced(Purge(db, x).rows, o) <==>
      exists y :: y in Purge(db, x).rows && Purge(db, x).rows[y].objectId == Some(o);
  }

  lemma OverwriteKeepsRefs(db: Db, x: Id, o: Id)
    requires RefsExist(db)
    ensures RefsExist(Overwrite(db, x, o))
  {
    var next := Overwrite(db, x, o);
    if OverwriteError(db, x, o) == None {
      forall y | y in next.rows && next.rows[y].objectId.Some? ensures next.rows[y].objectId.value in next.objects {
        assert Referenced(next.rows, next.rows[y].objectId.value);
      }
    }
  }

  lemma OverwriteKeepsForest(db: Db, x: Id, o: Id)
    requires LiveForest(db.rows)
    ensures LiveForest(Overwrite(db, x, o).rows)
  {
    SubgraphAcyclic(LiveParents(db.rows), LiveParents(Overwrite(db, x, o).rows));
  }
}
