/**
 Purging a multi-selection: internal/handler/routes.go keeps only the selected
 rows that no other selected row contains, and purges those one after another.
 Nothing here assumes that the graph over all rows, soft-deleted ones included, is acyclic.
 */
module BatchPurge {
  import opened Common
  import opened ParentGraph
  import opened FileForest
  import opened ForestInvariants

  /** x lies below another selected row. */
  predicate Nested(rows: Rows, batch: seq<Id>, x: Id) {
    exists y :: y in batch && y != x && x in FullSubtrees(rows, {y})
  }

  /** filterTopLevelBatchFiles: the selected rows that are not nested, in selection order. */
  function TopLevel(rows: Rows, batch: seq<Id>, rest: seq<Id>): seq<Id> {
    if rest == [] then []
    else (if Nested(rows, batch, rest[0]) then [] else [rest[0]]) + TopLevel(rows, batch, rest[1..])
  }

  function PurgeAll(db: Db, ids: seq<Id>): Db
    decreases |ids|
  {
    if ids == [] then db else PurgeAll(Purge(db, ids[0]), ids[1..])
  }

  function Ids(s: seq<Id>): set<Id> {
    set x | x in s
  }

  lemma {:induction false} TopLevelMembers(rows: Rows, batch: seq<Id>, rest: seq<Id>, x: Id)
    ensures x in TopLevel(rows, batch, rest) <==> x in rest && !Nested(rows, batch, x)
  {
    if rest != [] { TopLevelMembers(rows, batch, rest[1..], x); }
  }

  // ----- subtrees over all rows -----

  lemma SubtreeMembers(rows: Rows, starts: set<Id>, y: Id)
    ensures y in FullSubtrees(rows, starts) <==> exists a :: a in starts && a in rows && Above(AllParents(rows), y, a)
  {
    BelowIsDescendants(AllParents(rows), starts * rows.Keys, y);
    if a :| a in starts && a in rows && Above(AllParents(rows), y, a) { assert a in starts * rows.Keys; }
  }

  lemma SubtreeOf(rows: Rows, s: Id, y: Id)
    ensures y in FullSubtrees(rows, {s}) <==> s in rows && Above(AllParents(rows), y, s)
  {
    SubtreeMembers(rows, {s}, y);
  }

  lemma SubtreesAreRows(rows: Rows, starts: set<Id>)
    ensures FullSubtrees(rows, starts) <= rows.Keys
  {
    forall y | y in FullSubtrees(rows, starts) ensures y in rows {
      SubtreeMembers(rows, starts, y);
      var a :| a in starts && a in rows && Above(AllParents(rows), y, a);
      AboveUnfold(AllParents(rows), y, a);
    }
  }

  /** Rows outside a purged subtree keep their walks: none of them meets it. */
  lemma {:induction false} AboveOutside(rows: Rows, x: Id, y: Id, a: Id, n: nat)
    requires x in rows && y !in FullSubtrees(rows, {x})
    requires Walk(AllParents(rows), y, n) == Some(a)
    ensures Walk(AllParents(rows - FullSubtrees(rows, {x})), y, n) == Some(a) && a !in FullSubtrees(rows, {x})
    decreases n
  {
    var g := AllParents(rows);
    if n > 0 {
      SubtreeOf(rows, x, y);
      SubtreeOf(rows, x, g[y]);
      AboveUnfold(g, y, x);
      AboveOutside(rows, x, g[y], a, n - 1);
    }
  }

  /** After one purge every other subtree is what it was, less the purged rows. */
  lemma SubtreesAfterPurge(rows: Rows, x: Id, starts: set<Id>)
    requires x in rows
    ensures var gone := FullSubtrees(rows, {x});
      FullSubtrees(rows - gone, starts) == FullSubtrees(rows, starts) - gone
  {
    var gone := FullSubtrees(rows, {x});
    var next := rows - gone;
    SubtreesAreRows(next, starts);
    forall y ensures y in FullSubtrees(next, starts) <==> y in FullSubtrees(rows, starts) && y !in gone {
      SubtreeMembers(rows, starts, y);
      SubtreeMembers(next, starts, y);
      if y !in gone {
        if a :| a in starts && a in rows && Above(AllParents(rows), y, a) {
          var n: nat :| Walk(AllParents(rows), y, n) == Some(a);
          AboveOutside(rows, x, y, a, n);
          assert a in next && Above(AllParents(next), y, a);
        }
        if a :| a in starts && a in next && Above(AllParents(next), y, a) {
          var n: nat :| Walk(AllParents(next), y, n) == Some(a);
          SubgraphWalk(AllParents(rows), AllParents(next), y, n);
          assert Above(AllParents(rows), y, a);
        }
      }
    }
  }

  lemma UnionOfSubtrees(rows: Rows, s: set<Id>, t: set<Id>)
    ensures FullSubtrees(rows, s + t) == FullSubtrees(rows, s) + FullSubtrees(rows, t)
  {
    forall y ensures y in FullSubtrees(rows, s + t) <==> y in FullSubtrees(rows, s) || y in FullSubtrees(rows, t) {
      SubtreeMembers(rows, s + t, y);
      SubtreeMembers(rows, s, y);
      SubtreeMembers(rows, t, y);
    }
  }

  // ----- a sequence of purges -----

  /** Purging a list removes exactly the union of the subtrees, whatever the overlaps and the order. */
  lemma {:induction false} PurgeAllRows(db: Db, ids: seq<Id>)
    ensures PurgeAll(db, ids).rows == db.rows - FullSubtrees(db.rows, Ids(ids))
    decreases |ids|
  {
    if ids == [] {
      SubtreesNone(db.rows);
    } else {
      var next := Purge(db, ids[0]);
      PurgeAllRows(next, ids[1..]);
      assert Ids(ids) == {ids[0]} + Ids(ids[1..]);
      UnionOfSubtrees(db.rows, {ids[0]}, Ids(ids[1..]));
      if ids[0] in db.rows {
        SubtreesAfterPurge(db.rows, ids[0], Ids(ids[1..]));
      } else {
        assert {ids[0]} * db.rows.Keys == {};
        SubtreesNone(db.rows);
      }
    }
  }

  lemma SubtreesNone(rows: Rows)
    ensures FullSubtrees(rows, {}) == {} && Below(AllParents(rows), {}) == {}
  {
    assert {} * rows.Keys == {};
    forall y ensures y !in Below(AllParents(rows), {}) { BelowIsDescendants(AllParents(rows), {}, y); }
  }

  /** It deletes exactly the objects of removed rows that no remaining row refers to. */
  lemma {:induction false} PurgeAllObjects(db: Db, ids: seq<Id>, o: Id)
    requires o in db.objects
    ensures var last := PurgeAll(db, ids);
      o !in last.objects <==> o in Touched(db.rows, db.rows.Keys - last.rows.Keys) && !Referenced(last.rows, o)
    decreases |ids|
  {
    var last := PurgeAll(db, ids);
    PurgeAllRows(db, ids);
    if ids != [] {
      var next := Purge(db, ids[0]);
      PurgeAllRows(next, ids[1..]);
      if ids[0] in db.rows { SubtreesAreRows(db.rows, {ids[0]}); }
      assert forall y :: y in last.rows ==> y in next.rows && last.rows[y] == next.rows[y];
      assert forall y :: y in next.rows ==> y in db.rows && next.rows[y] == db.rows[y];
      assert o in Touched(db.rows, db.rows.Keys - last.rows.Keys) <==>
        o in Touched(db.rows, db.rows.Keys - next.rows.Keys) ||
          o in Touched(next.rows, next.rows.Keys - last.rows.Keys);
      if o in next.objects {
        PurgeAllObjects(next, ids[1..], o);
      } else {
        PurgeAllKeepsAbsent(next, ids[1..], o);
      }
    }
  }

  lemma {:induction false} PurgeAllKeepsAbsent(db: Db, ids: seq<Id>, o: Id)
    requires o !in db.objects
    ensures o !in PurgeAll(db, ids).objects
    decreases |ids|
  {
    if ids != [] { PurgeAllKeepsAbsent(Purge(db, ids[0]), ids[1..], o); }
  }

  // ----- top-level roots -----

  /** Two different top-level roots have disjoint subtrees, so no purge meets a row that an earlier one removed. */
  lemma RootsAreDisjoint(rows: Rows, batch: seq<Id>, r: Id, s: Id)
    requires r in TopLevel(rows, batch, batch) && s in TopLevel(rows, batch, batch) && r != s
    ensures FullSubtrees(rows, {r}) !! FullSubtrees(rows, {s})
  {
    var g := AllParents(rows);
    TopLevelMembers(rows, batch, batch, r);
    TopLevelMembers(rows, batch, batch, s);
    SubtreeOf(rows, r, s);
    SubtreeOf(rows, s, r);
    forall y ensures y !in FullSubtrees(rows, {r}) || y !in FullSubtrees(rows, {s}) {
      SubtreeOf(rows, r, y);
      SubtreeOf(rows, s, y);
      if Above(g, y, r) && Above(g, y, s) { AboveIsAChain(g, y, r, s); }
    }
  }

  /** No record-not-found: each root is still there when its turn comes. */
  lemma NoPurgeMeetsARemovedRow(db: Db, batch: seq<Id>, i: nat)
    requires forall j, k :: 0 <= j < k < |batch| ==> batch[j] != batch[k]
    requires forall x :: x in batch ==> x in db.rows
    requires i < |TopLevel(db.rows, batch, batch)|
    ensures var roots := TopLevel(db.rows, batch, batch);
      roots[i] in PurgeAll(db, roots[..i]).rows
  {
    var roots := TopLevel(db.rows, batch, batch);
    PurgeAllRows(db, roots[..i]);
    TopLevelMembers(db.rows, batch, batch, roots[i]);
    SubtreeMembers(db.rows, Ids(roots[..i]), roots[i]);
    TopLevelDistinct(db.rows, batch, batch);
    forall a | a in Ids(roots[..i]) ensures !(a in db.rows && Above(AllParents(db.rows), roots[i], a)) {
      assert a in roots && a != roots[i];
      TopLevelMembers(db.rows, batch, batch, a);
      SubtreeOf(db.rows, a, roots[i]);
    }
  }

  lemma {:induction false} TopLevelDistinct(rows: Rows, batch: seq<Id>, rest: seq<Id>)
    requires forall j, k :: 0 <= j < k < |rest| ==> rest[j] != rest[k]
    ensures var t := TopLevel(rows, batch, rest); forall j, k :: 0 <= j < k < |t| ==> t[j] != t[k]
  {
    if rest != [] {
      TopLevelDistinct(rows, batch, rest[1..]);
      TopLevelMembers(rows, batch, rest[1..], rest[0]);
      var t, u := TopLevel(rows, batch, rest), TopLevel(rows, batch, rest[1..]);
      assert t == u || t == [rest[0]] + u;
    }
  }

  // ----- when the batch purge removes the whole selection -----

  /** Two selected rows contain each other: they sit on one cycle of parent pointers. */
  ghost predicate MutuallyNested(rows: Rows, batch: seq<Id>) {
    exists y, z :: y in batch && z in batch && y != z && y in FullSubtrees(rows, {z}) && z in FullSubtrees(rows, {y})
  }

  /** Selected rows at or above s. */
  ghost function SelectedAbove(rows: Rows, batch: seq<Id>, s: Id): set<Id> {
    set t | t in batch && Above(AllParents(rows), s, t)
  }

  lemma {:induction false} HasRootAbove(rows: Rows, batch: seq<Id>, s: Id) returns (r: Id)
    requires (forall x :: x in batch ==> x in rows) && s in batch && !MutuallyNested(rows, batch)
    ensures r in TopLevel(rows, batch, batch) && Above(AllParents(rows), s, r)
    decreases SelectedAbove(rows, batch, s)
  {
    var g := AllParents(rows);
    TopLevelMembers(rows, batch, batch, s);
    AboveReflexive(g, s);
    if Nested(rows, batch, s) {
      var t :| t in batch && t != s && s in FullSubtrees(rows, {t});
      SubtreeOf(rows, t, s);
      SubtreeOf(rows, s, t);
      forall u | u in SelectedAbove(rows, batch, t) ensures u in SelectedAbove(rows, batch, s) {
        AboveTransitive(g, s, t, u);
      }
      assert s in SelectedAbove(rows, batch, s) && s !in SelectedAbove(rows, batch, t);
      r := HasRootAbove(rows, batch, t);
      AboveTransitive(g, s, t, r);
    } else {
      r := s;
    }
  }

  /** An ancestor of a row on a cycle is on the cycle too. */
  lemma CycleIsClosedUpwards(g: Graph, y: Id, z: Id, r: Id)
    requires Above(g, y, z) && Above(g, z, y) && y != z && Above(g, y, r)
    ensures Above(g, r, y)
  {
    var m: nat :| Walk(g, y, m) == Some(z);
    var n: nat :| Walk(g, z, n) == Some(y);
    var k: nat :| Walk(g, y, k) == Some(r);
    WalkSplit(g, y, m, n);
    CycleRepeats(g, y, m + n, k);
    assert k <= k * (m + n);
    WalkSplit(g, y, k, k * (m + n) - k);
    assert Walk(g, r, k * (m + n) - k) == Some(y);
  }

  /** A row of a mutually nested pair has no top-level root above it. */
  lemma MutualPairIsMissed(rows: Rows, batch: seq<Id>, y: Id, z: Id)
    requires forall x :: x in batch ==> x in rows
    requires y in batch && z in batch && y != z && y in FullSubtrees(rows, {z}) && z in FullSubtrees(rows, {y})
    ensures y !in FullSubtrees(rows, Ids(TopLevel(rows, batch, batch)))
  {
    var g := AllParents(rows);
    SubtreeOf(rows, z, y);
    SubtreeOf(rows, y, z);
    SubtreeMembers(rows, Ids(TopLevel(rows, batch, batch)), y);
    forall r | r in Ids(TopLevel(rows, batch, batch)) ensures !Above(g, y, r) {
      TopLevelMembers(rows, batch, batch, r);
      SubtreeOf(rows, y, r);
      SubtreeOf(rows, z, r);
      if Above(g, y, r) { CycleIsClosedUpwards(g, y, z, r); }
    }
  }

  /**
   Batch purge removes exactly the union of the selected subtrees if and only if
   no two different selected rows contain each other. Over a forest none do.
   */
  lemma BatchPurgeIff(db: Db, batch: seq<Id>)
    requires forall x :: x in batch ==> x in db.rows
    ensures PurgeAll(db, TopLevel(db.rows, batch, batch)).rows == db.rows - FullSubtrees(db.rows, Ids(batch))
      <==> !MutuallyNested(db.rows, batch)
  {
    var rows := db.rows;
    var roots := TopLevel(rows, batch, batch);
    PurgeAllRows(db, roots);
    SubtreesAreRows(rows, Ids(batch));
    if MutuallyNested(rows, batch) {
      var y, z :| y in batch && z in batch && y != z && y in FullSubtrees(rows, {z}) && z in FullSubtrees(rows, {y});
      MutualPairIsMissed(rows, batch, y, z);
      AboveReflexive(AllParents(rows), y);
      SubtreeMembers(rows, Ids(batch), y);
      assert y in db.rows - FullSubtrees(rows, Ids(roots)) && y !in db.rows - FullSubtrees(rows, Ids(batch));
    } else {
      forall y ensures y in FullSubtrees(rows, Ids(roots)) <==> y in FullSubtrees(rows, Ids(batch)) {
        SubtreeMembers(rows, Ids(roots), y);
        SubtreeMembers(rows, Ids(batch), y);
        forall r | r in roots ensures r in batch { TopLevelMembers(rows, batch, batch, r); }
        if s :| s in Ids(batch) && s in rows && Above(AllParents(rows), y, s) {
          var r := HasRootAbove(rows, batch, s);
          AboveTransitive(AllParents(rows), y, s, r);
          assert r in Ids(roots) && r in batch;
        }
      }
    }
  }

  /** Over a parent graph without cycles the batch purge always removes the whole selection. */
  lemma BatchPurgeOverForest(db: Db, batch: seq<Id>)
    requires Acyclic(AllParents(db.rows)) && forall x :: x in batch ==> x in db.rows
    ensures PurgeAll(db, TopLevel(db.rows, batch, batch)).rows == db.rows - FullSubtrees(db.rows, Ids(batch))
  {
    var g := AllParents(db.rows);
    forall y, z | y in batch && z in batch && y != z
      ensures !(y in FullSubtrees(db.rows, {z}) && z in FullSubtrees(db.rows, {y}))
    {
      SubtreeOf(db.rows, z, y);
      SubtreeOf(db.rows, y, z);
      if Above(g, y, z) {
        var m: nat :| Walk(g, y, m) == Some(z);
        forall n: nat ensures Walk(g, z, n) != Some(y) { WalkSplit(g, y, m, n); }
      }
    }
    BatchPurgeIff(db, batch);
  }
}
