/**
 Parent-pointer graphs: what the recursive ancestor and descendant queries of
 internal/service/service.go compute, and which edits keep them acyclic.
 */
module ParentGraph {
  import opened Common

  type Id = string

  /** An edge from a row to the row its parent_id names; at most one per row. */
  type Graph = map<Id, Id>

  /** The row reached from x by following n parent pointers. */
  function Walk(g: Graph, x: Id, n: nat): Option<Id>
    decreases n
  {
    if n == 0 then Some(x)
    else if x in g then Walk(g, g[x], n - 1)
    else None
  }

  /** y is x itself or one of its ancestors. */
  ghost predicate Above(g: Graph, x: Id, y: Id) {
    exists n: nat :: Walk(g, x, n) == Some(y)
  }

  ghost predicate Acyclic(g: Graph) {
    forall x: Id, n: nat :: 0 < n ==> Walk(g, x, n) != Some(x)
  }

  // ----- walks -----

  lemma {:induction false} WalkSplit(g: Graph, x: Id, m: nat, n: nat)
    requires Walk(g, x, m).Some?
    ensures Walk(g, x, m + n) == Walk(g, Walk(g, x, m).value, n)
    decreases m
  {
    if m > 0 { WalkSplit(g, g[x], m - 1, n); }
  }

  lemma {:induction false} WalkStaysNone(g: Graph, x: Id, m: nat, n: nat)
    requires m <= n && Walk(g, x, m) == None
    ensures Walk(g, x, n) == None
    decreases n
  {
    if x in g { WalkStaysNone(g, g[x], m - 1, n - 1); }
  }

  lemma AboveReflexive(g: Graph, x: Id)
    ensures Above(g, x, x)
  {
    assert Walk(g, x, 0) == Some(x);
  }

  lemma AboveParent(g: Graph, x: Id, y: Id)
    requires x in g && Above(g, g[x], y)
    ensures Above(g, x, y)
  {
    var n: nat :| Walk(g, g[x], n) == Some(y);
    assert Walk(g, x, n + 1) == Some(y);
  }

  lemma AboveTransitive(g: Graph, x: Id, y: Id, z: Id)
    requires Above(g, x, y) && Above(g, y, z)
    ensures Above(g, x, z)
  {
    var m: nat :| Walk(g, x, m) == Some(y);
    var n: nat :| Walk(g, y, n) == Some(z);
    WalkSplit(g, x, m, n);
  }

  /** Two ancestors of one row are ancestors of each other one way or the other. */
  lemma AboveIsAChain(g: Graph, x: Id, y: Id, z: Id)
    requires Above(g, x, y) && Above(g, x, z)
    ensures Above(g, y, z) || Above(g, z, y)
  {
    var m: nat :| Walk(g, x, m) == Some(y);
    var n: nat :| Walk(g, x, n) == Some(z);
    if m <= n {
      WalkSplit(g, x, m, n - m);
      assert Walk(g, y, n - m) == Some(z);
    } else {
      WalkSplit(g, x, n, m - n);
      assert Walk(g, z, m - n) == Some(y);
    }
  }

  /** Above, one step at a time: the form every induction below uses. */
  lemma AboveUnfold(g: Graph, x: Id, y: Id)
    ensures Above(g, x, y) <==> (x == y || (x in g && Above(g, g[x], y)))
  {
    if Above(g, x, y) && x != y {
      var n: nat :| Walk(g, x, n) == Some(y);
      assert Walk(g, g[x], n - 1) == Some(y);
    }
    if x == y { AboveReflexive(g, x); }
    if x in g && Above(g, g[x], y) { AboveParent(g, x, y); }
  }

  // ----- the ancestor query ends exactly on acyclic graphs -----

  /** The rows above x that have a parent themselves. It shrinks at every step up. */
  ghost function UpSet(g: Graph, x: Id): set<Id> {
    set y | y in g.Keys && Above(g, x, y)
  }

  lemma UpSetShrinks(g: Graph, x: Id)
    requires Acyclic(g) && x in g
    ensures UpSet(g, g[x]) < UpSet(g, x)
  {
    forall y | y in UpSet(g, g[x]) ensures y in UpSet(g, x) { AboveParent(g, x, y); }
    AboveReflexive(g, x);
    assert x in UpSet(g, x);
    forall n: nat ensures Walk(g, g[x], n) != Some(x) {
      assert Walk(g, x, n + 1) == Walk(g, g[x], n);
    }
  }

  /** On an acyclic graph the walk from x runs dry after at most one row more than UpSet(x). */
  lemma {:induction false} WalkEnds(g: Graph, x: Id)
    requires Acyclic(g)
    ensures Walk(g, x, |UpSet(g, x)| + 1) == None
    decreases UpSet(g, x)
  {
    if x in g {
      UpSetShrinks(g, x);
      WalkEnds(g, g[x]);
      var small, big := UpSet(g, g[x]), UpSet(g, x);
      assert |small| < |big| by { assert |big| == |small| + |big - small|; assert big - small != {}; }
      WalkStaysNone(g, g[x], |small| + 1, |big|);
    }
  }

  lemma {:induction false} CycleRepeats(g: Graph, x: Id, n: nat, rounds: nat)
    requires 0 < n && Walk(g, x, n) == Some(x)
    ensures Walk(g, x, rounds * n) == Some(x)
  {
    if rounds > 0 {
      CycleRepeats(g, x, n, rounds - 1);
      WalkSplit(g, x, n, (rounds - 1) * n);
      assert n + (rounds - 1) * n == rounds * n;
    }
  }

  ghost predicate EndsFrom(g: Graph, x: Id) {
    exists n: nat :: Walk(g, x, n) == None
  }

  /** The recursive ancestor query has no cycle guard: it ends from every row iff the graph is acyclic. */
  lemma WalkEndsIffAcyclic(g: Graph)
    ensures Acyclic(g) <==> forall x: Id :: EndsFrom(g, x)
  {
    if Acyclic(g) {
      forall x: Id ensures EndsFrom(g, x) { WalkEnds(g, x); }
    }
    if x: Id, n: nat :| 0 < n && Walk(g, x, n) == Some(x) {
      forall dry: nat ensures Walk(g, x, dry) != None {
        CycleRepeats(g, x, n, dry);
        assert dry <= dry * n;
        if Walk(g, x, dry) == None { WalkStaysNone(g, x, dry, dry * n); }
      }
      assert !EndsFrom(g, x);
    }
  }

  // ----- the descendant query -----

  /** The recursive descendant query: UNION rounds that add the children until nothing new comes. */
  function Below(g: Graph, s: set<Id>): (r: set<Id>)
    ensures s <= r
    ensures forall c :: c in g && g[c] in r ==> c in r
    decreases g.Keys - s
  {
    var children := set c | c in g && g[c] in s;
    if children <= s then s
    else
      var c :| c in children && c !in s;
      assert c in g.Keys - s && c !in g.Keys - (s + children);
      Below(g, s + children)
  }

  lemma {:induction false} BelowSound(g: Graph, s: set<Id>, y: Id)
    requires y in Below(g, s)
    ensures exists a :: a in s && Above(g, y, a)
    decreases g.Keys - s
  {
    var children := set c | c in g && g[c] in s;
    if children <= s {
      AboveReflexive(g, y);
    } else {
      var c :| c in children && c !in s;
      assert c in g.Keys - s && c !in g.Keys - (s + children);
      BelowSound(g, s + children, y);
      var a :| a in s + children && Above(g, y, a);
      if a !in s {
        AboveReflexive(g, g[a]);
        AboveParent(g, a, g[a]);
        AboveTransitive(g, y, a, g[a]);
      }
    }
  }

  lemma {:induction false} BelowCatches(g: Graph, s: set<Id>, y: Id, n: nat)
    requires Walk(g, y, n).Some? && Walk(g, y, n).value in s
    ensures y in Below(g, s)
    decreases n
  {
    if n > 0 { BelowCatches(g, s, g[y], n - 1); }
  }

  /** The descendant query returns exactly the rows that have a start row above them. */
  lemma BelowIsDescendants(g: Graph, s: set<Id>, y: Id)
    ensures y in Below(g, s) <==> exists a :: a in s && Above(g, y, a)
  {
    if y in Below(g, s) { BelowSound(g, s, y); }
    if exists a :: a in s && Above(g, y, a) {
      var a :| a in s && Above(g, y, a);
      var n: nat :| Walk(g, y, n) == Some(a);
      BelowCatches(g, s, y, n);
    }
  }

  // ----- edits -----

  /** Every row of `moved` gets the parent `target`, or becomes a root. */
  function Redirect(g: Graph, moved: set<Id>, target: Option<Id>): Graph {
    match target
    case None => g - moved
    case Some(t) => (g - moved) + map m | m in moved :: t
  }

  /** Two graphs that agree on every row met before step n have the same n-step walk. */
  lemma {:induction false} WalkAgrees(g: Graph, h: Graph, x: Id, n: nat)
    requires forall k: nat :: k < n && Walk(g, x, k).Some? ==>
      var y := Walk(g, x, k).value; (y in g <==> y in h) && (y in g ==> g[y] == h[y])
    ensures Walk(h, x, n) == Walk(g, x, n)
    decreases n
  {
    if n > 0 {
      assert Walk(g, x, 0) == Some(x);
      if x in g {
        forall k: nat | k < n - 1 && Walk(g, g[x], k).Some?
          ensures var y := Walk(g, g[x], k).value; (y in g <==> y in h) && (y in g ==> g[y] == h[y])
        {
          assert Walk(g, x, k + 1) == Walk(g, g[x], k);
        }
        WalkAgrees(g, h, g[x], n - 1);
      }
    }
  }

  /** A walk that meets a row of s within n steps has a first such row. */
  lemma {:induction false} FirstMeeting(g: Graph, x: Id, s: set<Id>, n: nat) returns (k: nat)
    requires Walk(g, x, n).Some? && Walk(g, x, n).value in s
    ensures k <= n && Walk(g, x, k).Some? && Walk(g, x, k).value in s
    ensures forall j: nat :: j < k && Walk(g, x, j).Some? ==> Walk(g, x, j).value !in s
    decreases n
  {
    if x in s {
      k := 0;
    } else {
      var up := FirstMeeting(g, g[x], s, n - 1);
      k := up + 1;
      forall j: nat | j < k && Walk(g, x, j).Some? ensures Walk(g, x, j).value !in s {
        if j > 0 { assert Walk(g, x, j) == Walk(g, g[x], j - 1); }
      }
    }
  }

  lemma RedirectKeepsWalk(g: Graph, moved: set<Id>, target: Option<Id>, x: Id, n: nat)
    requires forall k: nat :: k < n && Walk(g, x, k).Some? ==> Walk(g, x, k).value !in moved
    ensures Walk(Redirect(g, moved, target), x, n) == Walk(g, x, n)
  {
    WalkAgrees(g, Redirect(g, moved, target), x, n);
  }

  /**
   A batch move keeps the graph acyclic exactly when the target is not one of the
   moved rows nor below one of them.
   */
  lemma RedirectAcyclicIff(g: Graph, moved: set<Id>, t: Id)
    requires Acyclic(g)
    ensures Acyclic(Redirect(g, moved, Some(t))) <==> t !in Below(g, moved)
  {
    var h := Redirect(g, moved, Some(t));
    if t in Below(g, moved) {
      BelowIsDescendants(g, moved, t);
      var a :| a in moved && Above(g, t, a);
      var n: nat :| Walk(g, t, n) == Some(a);
      var k := FirstMeeting(g, t, moved, n);
      RedirectKeepsWalk(g, moved, Some(t), t, k);
      var m := Walk(g, t, k).value;
      assert Walk(h, m, k + 1) == Walk(h, t, k) == Some(m);
    } else {
      forall x: Id, n: nat | 0 < n ensures Walk(h, x, n) != Some(x) { RedirectNoCycle(g, moved, t, x, n); }
    }
  }

  /** A target outside the moved subtrees keeps its own walk. */
  lemma TargetKeepsWalk(g: Graph, moved: set<Id>, t: Id, n: nat)
    requires t !in Below(g, moved)
    ensures Walk(Redirect(g, moved, Some(t)), t, n) == Walk(g, t, n)
  {
    forall j: nat | j < n && Walk(g, t, j).Some? ensures Walk(g, t, j).value !in moved {
      if Walk(g, t, j).value in moved { BelowCatches(g, moved, t, j); }
    }
    RedirectKeepsWalk(g, moved, Some(t), t, n);
  }

  lemma CycleRotates(g: Graph, x: Id, n: nat, k: nat)
    requires Walk(g, x, n) == Some(x) && Walk(g, x, k).Some?
    ensures Walk(g, Walk(g, x, k).value, n) == Walk(g, x, k)
  {
    WalkSplit(g, x, k, n);
    WalkSplit(g, x, n, k);
    assert k + n == n + k;
  }

  /** A cycle of the redirected graph that meets a moved row passes through the target, whose walk is unchanged. */
  lemma RedirectNoCycle(g: Graph, moved: set<Id>, t: Id, x: Id, n: nat)
    requires Acyclic(g) && t !in Below(g, moved) && 0 < n
    ensures Walk(Redirect(g, moved, Some(t)), x, n) != Some(x)
  {
    var h := Redirect(g, moved, Some(t));
    if k: nat :| k < n && Walk(g, x, k).Some? && Walk(g, x, k).value in moved {
      var first := FirstMeeting(g, x, moved, k);
      RedirectKeepsWalk(g, moved, Some(t), x, first);
      WalkSplit(h, x, first, 1);
      assert Walk(h, x, first + 1) == Some(t) by { assert Walk(h, Walk(g, x, first).value, 1) == Some(t); }
      TargetKeepsWalk(g, moved, t, n);
      if Walk(h, x, n) == Some(x) { CycleRotates(h, x, n, first + 1); }
    } else {
      RedirectKeepsWalk(g, moved, Some(t), x, n);
    }
  }

  /** Taking edges away never makes a cycle. */
  lemma SubgraphAcyclic(g: Graph, h: Graph)
    requires Acyclic(g) && forall x :: x in h ==> x in g && g[x] == h[x]
    ensures Acyclic(h)
  {
    forall x: Id, n: nat | 0 < n ensures Walk(h, x, n) != Some(x) { SubgraphWalk(g, h, x, n); }
  }

  lemma {:induction false} SubgraphWalk(g: Graph, h: Graph, x: Id, n: nat)
    requires forall y :: y in h ==> y in g && g[y] == h[y]
    ensures Walk(h, x, n).Some? ==> Walk(g, x, n) == Walk(h, x, n)
    decreases n
  {
    if n > 0 && x in h { SubgraphWalk(g, h, h[x], n - 1); }
  }

  /** A new row nobody points at cannot close a cycle. */
  lemma LeafAcyclic(g: Graph, z: Id, t: Id)
    requires Acyclic(g) && z !in g && z != t
    requires forall y :: y in g ==> g[y] != z
    ensures Acyclic(g[z := t])
  {
    var h := Redirect(g, {z}, Some(t));
    assert h == g[z := t];
    forall n: nat ensures Walk(g, t, n) != Some(z) { NoWayInto(g, t, z, n); }
    BelowIsDescendants(g, {z}, t);
    RedirectAcyclicIff(g, {z}, t);
  }

  lemma {:induction false} NoWayInto(g: Graph, x: Id, z: Id, n: nat)
    requires x != z && forall y :: y in g ==> g[y] != z
    ensures Walk(g, x, n) != Some(z)
    decreases n
  {
    if n > 0 && x in g { NoWayInto(g, g[x], z, n - 1); }
  }
}
