/**
 The parent graph over all rows, soft-deleted ones included: which steps keep it
 acyclic, and what batch purge does to the states that runs reach.
 */
module AllRowsGraph {
  import opened Common
  import opened ParentGraph
  import opened FileForest
  import opened ForestInvariants
  import opened ForestRuns
  import opened BatchPurge

  // ----- moves -----

  /** The rows of the batch that a move actually repoints. */
  function Movable(rows: Rows, ids: set<Id>): set<Id> {
    set x | x in ids && Live(rows, x)
  }

  /** The move is accepted and its target lies, through live or deleted rows, below a row it moves. */
  predicate MovesBelowItself(rows: Rows, ids: set<Id>, target: Option<Id>) {
    target.Some? && !MoveRefused(rows, ids, target) && target.value in FullSubtrees(rows, Movable(rows, ids))
  }

  lemma ReparentRedirectsAll(rows: Rows, ids: set<Id>, target: Option<Id>)
    ensures AllParents(Reparent(rows, ids, target)) == Redirect(AllParents(rows), Movable(rows, ids), target)
  {
  }

  /**
   MoveBatch keeps the graph over all rows acyclic exactly when it is refused, moves to
   the root, or its target is outside the full subtrees of the live rows it moves; the
   guard of the code looks at the live subtrees only.
   */
  lemma MoveKeepsAllAcyclicIff(db: Db, ids: set<Id>, target: Option<Id>)
    requires Acyclic(AllParents(db.rows))
    ensures Acyclic(AllParents(Move(db, ids, target).rows)) <==> !MovesBelowItself(db.rows, ids, target)
  {
    var g, moved := AllParents(db.rows), Movable(db.rows, ids);
    ReparentRedirectsAll(db.rows, ids, target);
    assert moved * db.rows.Keys == moved;
    match target
    case None => SubgraphAcyclic(g, g - moved);
    case Some(t) => RedirectAcyclicIff(g, moved, t);
  }

  // ----- all steps, all runs -----

  predicate ClosesCycle(rows: Rows, step: Step) {
    step.DoMove? && MovesBelowItself(rows, step.ids, step.target)
  }

  /** Of all steps only such a move can close a cycle, and it always does. */
  lemma StepKeepsAllAcyclicIff(db: Db, step: Step)
    requires Inv(db) && Allowed(db, step) && Acyclic(AllParents(db.rows))
    ensures Acyclic(AllParents(Apply(db, step).rows)) <==> !ClosesCycle(db.rows, step)
  {
    match step
    case DoMove(ids, target) => MoveKeepsAllAcyclicIff(db, ids, target);
    case DoCreate(id, row, grant) => CreateKeepsAllAcyclic(db, id, row, grant);
    case _ =>
      EdgesOnlyGo(db, step);
      SubgraphAcyclic(AllParents(db.rows), AllParents(Apply(db, step).rows));
  }

  /** Steps other than moves and creations add no parent pointer. */
  lemma EdgesOnlyGo(db: Db, step: Step)
    requires LiveForest(db.rows) && !step.DoMove? && !step.DoCreate?
    ensures
      var g, h := AllParents(db.rows), AllParents(Apply(db, step).rows);
      forall x :: x in h ==> x in g && g[x] == h[x]
  {
  }

  lemma CreateKeepsAllAcyclic(db: Db, id: Id, row: Row, grant: Acl)
    requires Fresh(db, id) && row.parent != Some(id) && Acyclic(AllParents(db.rows))
    ensures Acyclic(AllParents(Create(db, id, row, grant).rows))
  {
    var g, h := AllParents(db.rows), AllParents(Create(db, id, row, grant).rows);
    if ParentError(db.rows, row.parent, row.workspace) == None && row.parent.Some? {
      LeafAcyclic(g, id, row.parent.value);
      assert h == g[id := row.parent.value];
    } else {
      assert h == g;
    }
  }

  /** No step of the run is such a move. */
  ghost predicate NeverMovesBelowItself(db: Db, steps: seq<Step>)
    requires Inv(db) && AllowedRun(db, steps)
    decreases |steps|
  {
    steps == [] || (!ClosesCycle(db.rows, steps[0]) &&
      (StepKeepsInv(db, steps[0]); NeverMovesBelowItself(Apply(db, steps[0]), steps[1..])))
  }

  lemma {:induction false} RunKeepsAllAcyclic(db: Db, steps: seq<Step>)
    requires Inv(db) && Acyclic(AllParents(db.rows)) && AllowedRun(db, steps) && NeverMovesBelowItself(db, steps)
    ensures Acyclic(AllParents(Run(db, steps).rows))
    decreases |steps|
  {
    if steps != [] {
      StepKeepsInv(db, steps[0]);
      StepKeepsAllAcyclicIff(db, steps[0]);
      RunKeepsAllAcyclic(Apply(db, steps[0]), steps[1..]);
    }
  }

  /** After every such run a batch purge removes exactly the union of the selected subtrees. */
  lemma BatchPurgeAfterRun(db: Db, steps: seq<Step>, batch: seq<Id>)
    requires Inv(db) && Acyclic(AllParents(db.rows)) && AllowedRun(db, steps) && NeverMovesBelowItself(db, steps)
    requires forall x :: x in batch ==> x in Run(db, steps).rows
    ensures var last := Run(db, steps);
      PurgeAll(last, TopLevel(last.rows, batch, batch)).rows ==
        last.rows - FullSubtrees(last.rows, BatchPurge.Ids(batch))
  {
    RunKeepsAllAcyclic(db, steps);
    BatchPurgeOverForest(Run(db, steps), batch);
  }

  // ----- the reachable state that defeats it -----

  /** What the two moves of DeletedRowsCanCloseACycle leave: a below c, c below the deleted b, b below a. */
  const CYCLE: Rows := map[
    "a" := FOLDER.(parent := Some("c")), "b" := FOLDER.(parent := Some("a"), deleted := true),
    "c" := FOLDER.(parent := Some("b"))]

  lemma TwoMovesReachTheCycle()
    ensures Reparent(Reparent(TWO_FOLDERS, {"c"}, Some("b")), {"a"}, Some("c")) == CYCLE
  {
  }

  /**
   Two accepted moves from a sound state reach rows on which selecting "a" and "c" for a
   batch purge removes nothing, although their subtrees are the whole table.
   */
  lemma BatchPurgeMissesACycle()
    ensures var db := Db(TWO_FOLDERS, {}, map[], map[], map[]);
      && var steps := [DoMove({"c"}, Some("b")), DoMove({"a"}, Some("c"))];
      && Inv(db) && AllowedRun(db, steps) && Run(db, steps).rows == CYCLE
      && TopLevel(CYCLE, ["a", "c"], ["a", "c"]) == []
      && PurgeAll(Run(db, steps), TopLevel(CYCLE, ["a", "c"], ["a", "c"])).rows == CYCLE
      && FullSubtrees(CYCLE, {"a"}) == FullSubtrees(CYCLE, {"c"}) == CYCLE.Keys
  {
    TwoMovesRun();
    TwoMovesReachTheCycle();
    WholeCycle("a");
    WholeCycle("c");
    NoRoots();
  }

  lemma NoRoots()
    ensures TopLevel(CYCLE, ["a", "c"], ["a", "c"]) == []
  {
    var batch := ["a", "c"];
    WholeCycle("a");
    WholeCycle("c");
    assert Nested(CYCLE, batch, "a") && Nested(CYCLE, batch, "c");
    var roots := TopLevel(CYCLE, batch, batch);
    if roots != [] { TopLevelMembers(CYCLE, batch, batch, roots[0]); }
  }

  lemma CycleAbove(x: Id, y: Id)
    requires x in CYCLE && y in CYCLE
    ensures Above(AllParents(CYCLE), x, y)
  {
    var g := AllParents(CYCLE);
    var next := g[x];
    AboveUnfold(g, x, y);
    AboveUnfold(g, next, y);
    AboveUnfold(g, g[next], y);
  }

  lemma WholeCycle(x: Id)
    requires x in CYCLE
    ensures FullSubtrees(CYCLE, {x}) == CYCLE.Keys
  {
    SubtreesAreRows(CYCLE, {x});
    forall y | y in CYCLE ensures y in FullSubtrees(CYCLE, {x}) {
      CycleAbove(y, x);
      SubtreeOf(CYCLE, x, y);
    }
  }
}
