/**
 The module resolver of internal/module/resolve.go: seeding, the dependency
 cascade as a greatest fixpoint, and the topological order with sorted ties.
 */
module ModuleResolver {
  import opened Common
  import opened Text
  import opened Sorting
  import ParentGraph

  type Id = string

  datatype Factory = Factory(id: Id, defaultEnabled: bool, required: bool, dependencies: seq<Id>)

  datatype ResolveError =
    | EmptyId
    | DuplicateId(id: Id)
    | UnknownModule(id: Id)
    | RequiredCannotBeDisabled(id: Id)
    | RequiresDisabledModule(id: Id, dep: Id)
    | DependencyCycle(involving: seq<Id>)

  /** A cascade warning: the module that was dropped and the missing dependency. */
  datatype Warning = Warning(id: Id, dep: Id)

  datatype Resolution = Resolution(order: seq<Id>, enabled: set<Id>, warnings: seq<Warning>)

  type Registry = map<Id, Factory>

  /** byID[id].Requires; the zero factory requires nothing. */
  function Requires(byId: Registry, id: Id): seq<Id> {
    if id in byId then byId[id].dependencies else []
  }

  // ----- what the cascade computes -----

  ghost predicate Closed(byId: Registry, s: set<Id>) {
    forall id, dep :: id in s && dep in Requires(byId, id) ==> dep in s
  }

  /** The largest subset of the seed that contains everything it requires. */
  ghost predicate GreatestClosed(byId: Registry, seed: set<Id>, s: set<Id>) {
    && s <= seed && Closed(byId, s)
    && forall t: set<Id> :: t <= seed && Closed(byId, t) ==> t <= s
  }

  /** One warning for each dropped module, naming a requirement that did not survive. */
  ghost predicate WarningsExplain(byId: Registry, dropped: set<Id>, selected: set<Id>, warnings: seq<Warning>) {
    && (forall id :: id in dropped <==> exists i :: 0 <= i < |warnings| && warnings[i].id == id)
    && (forall i, j :: 0 <= i < j < |warnings| ==> warnings[i].id != warnings[j].id)
    && (forall i :: 0 <= i < |warnings| ==>
      warnings[i].dep in Requires(byId, warnings[i].id) && warnings[i].dep !in selected)
  }

  /** The cascade, deleting from the set while ranging over it in any order. */
  method Cascade(byId: Registry, seed: set<Id>) returns (selected: set<Id>, warnings: seq<Warning>)
    ensures GreatestClosed(byId, seed, selected)
    ensures WarningsExplain(byId, seed - selected, selected, warnings)
  {
    selected := seed;
    warnings := [];
    while true
      invariant selected <= seed
      invariant forall t: set<Id> :: t <= seed && Closed(byId, t) ==> t <= selected
      invariant WarningsExplain(byId, seed - selected, selected, warnings)
      decreases |selected|
    {
      var removed := false;
      var unvisited := selected;
      ghost var passStart := selected;
      while unvisited != {}
        invariant unvisited <= selected <= passStart <= seed
        invariant removed <==> selected != passStart
        invariant !removed ==>
          forall id, dep :: id in selected - unvisited && dep in Requires(byId, id) ==> dep in selected
        invariant forall t: set<Id> :: t <= seed && Closed(byId, t) ==> t <= selected
        invariant WarningsExplain(byId, seed - selected, selected, warnings)
      {
        var id :| id in unvisited;
        unvisited := unvisited - {id};
        var missing := MissingDependency(byId, id, selected);
        if missing.Some? {
          WarnOneMore(byId, seed, selected, warnings, id, missing.value);
          selected := selected - {id};
          warnings := warnings + [Warning(id, missing.value)];
          removed := true;
        }
      }
      if !removed {
        return;
      }
      assert selected < passStart;
      SmallerSet(selected, passStart);
    }
  }

  lemma SmallerSet<T>(a: set<T>, b: set<T>)
    requires a < b
    ensures |a| < |b|
  {
    assert |b| == |a| + |b - a| by { assert b == a + (b - a); }
    assert b - a != {};
  }

  lemma WarnOneMore(byId: Registry, seed: set<Id>, selected: set<Id>, warnings: seq<Warning>, id: Id, dep: Id)
    requires WarningsExplain(byId, seed - selected, selected, warnings)
    requires id in selected && selected <= seed && dep in Requires(byId, id) && dep !in selected
    ensures WarningsExplain(byId, seed - (selected - {id}), selected - {id}, warnings + [Warning(id, dep)])
  {
    var more := warnings + [Warning(id, dep)];
    forall x ensures x in seed - (selected - {id}) <==> exists i :: 0 <= i < |more| && more[i].id == x {
      if x == id {
        assert more[|warnings|].id == id;
      } else if x in seed - selected {
        var i :| 0 <= i < |warnings| && warnings[i].id == x;
        assert more[i].id == x;
      }
    }
  }

  method MissingDependency(byId: Registry, id: Id, selected: set<Id>) returns (missing: Option<Id>)
    ensures match missing
      case None => forall dep :: dep in Requires(byId, id) ==> dep in selected
      case Some(dep) => dep in Requires(byId, id) && dep !in selected
  {
    var deps := Requires(byId, id);
    for i := 0 to |deps|
      invariant forall j :: 0 <= j < i ==> deps[j] in selected
    {
      if deps[i] !in selected { return Some(deps[i]); }
    }
    missing := None;
  }

  lemma GreatestClosedIsUnique(byId: Registry, seed: set<Id>, s: set<Id>, t: set<Id>)
    requires GreatestClosed(byId, seed, s) && GreatestClosed(byId, seed, t)
    ensures s == t
  {
    assert s <= t && t <= s;
  }

  /** From each module of the chain to one it requires. */
  ghost predicate IsChain(byId: Registry, chain: seq<Id>) {
    chain != [] && forall i :: 0 <= i < |chain| - 1 ==> chain[i + 1] in Requires(byId, chain[i])
  }

  /** Everything the module requires, directly or not, itself included, is seeded. */
  ghost predicate RequirementsSeeded(byId: Registry, seed: set<Id>, id: Id) {
    forall chain :: IsChain(byId, chain) && chain[0] == id ==> chain[|chain| - 1] in seed
  }

  lemma {:induction false} ChainStaysIn(byId: Registry, s: set<Id>, chain: seq<Id>, k: nat)
    requires Closed(byId, s) && IsChain(byId, chain) && chain[0] in s && k < |chain|
    ensures chain[k] in s
  {
    if k > 0 {
      ChainStaysIn(byId, s, chain, k - 1);
      assert chain[k] in Requires(byId, chain[k - 1]);
    }
  }

  /** The modules the cascade keeps are exactly those with all their direct and indirect requirements seeded. */
  lemma KeptIffRequirementsSeeded(byId: Registry, seed: set<Id>, s: set<Id>, id: Id)
    requires GreatestClosed(byId, seed, s)
    ensures id in s <==> RequirementsSeeded(byId, seed, id)
  {
    if id in s {
      forall chain | IsChain(byId, chain) && chain[0] == id ensures chain[|chain| - 1] in seed {
        ChainStaysIn(byId, s, chain, |chain| - 1);
      }
    }
    if RequirementsSeeded(byId, seed, id) {
      var t := set x | x in seed && RequirementsSeeded(byId, seed, x);
      assert IsChain(byId, [id]) && [id][0] == id;
      assert id in t;
      SeededIsClosed(byId, seed, t);
    }
  }

  lemma SeededIsClosed(byId: Registry, seed: set<Id>, t: set<Id>)
    requires forall x :: x in t <==> x in seed && RequirementsSeeded(byId, seed, x)
    ensures Closed(byId, t)
  {
    forall x, dep | x in t && dep in Requires(byId, x) ensures dep in t {
      forall chain | IsChain(byId, chain) && chain[0] == dep ensures chain[|chain| - 1] in seed {
        var longer := [x] + chain;
        assert IsChain(byId, longer) && longer[0] == x && longer[|longer| - 1] == chain[|chain| - 1];
      }
      assert IsChain(byId, [dep]) && [dep][0] == dep && [dep][|[dep]| - 1] == dep;
    }
  }

  // ----- what the order promises -----

  /** A permutation of the selected set with every requirement before its dependents. */
  ghost predicate IsOrder(byId: Registry, selected: set<Id>, order: seq<Id>) {
    && NoRepeats(order)
    && (forall id :: id in order <==> id in selected)
    && (forall k :: 0 <= k < |order| ==> RequirementsBefore(byId, order, k))
  }

  ghost predicate RequirementsBefore(byId: Registry, order: seq<Id>, k: nat)
    requires k < |order|
  {
    forall dep :: dep in Requires(byId, order[k]) ==> dep in order[..k]
  }

  /** First difference decides, as when comparing lists of IDs. */
  ghost predicate LexLe(a: seq<Id>, b: seq<Id>) {
    a == b || exists k :: 0 <= k < |a| && k < |b| && a[..k] == b[..k] && a[k] != b[k] && Le(a[k], b[k])
  }

  ghost predicate LeastOrder(byId: Registry, selected: set<Id>, order: seq<Id>) {
    && IsOrder(byId, selected, order)
    && forall other :: IsOrder(byId, selected, other) ==> LexLe(order, other)
  }

  /** A closed walk along requirements inside the selected set. */
  ghost predicate IsCycle(byId: Registry, selected: set<Id>, path: seq<Id>) {
    && 2 <= |path| && path[0] == path[|path| - 1]
    && (forall i :: 0 <= i < |path| ==> path[i] in selected)
    && (forall i :: 0 <= i < |path| - 1 ==> path[i + 1] in Requires(byId, path[i]))
  }

  /** Every member requires a member. */
  ghost predicate Stuck(byId: Registry, s: set<Id>) {
    forall id {:trigger NeedsOneOf(byId, id, s)} :: id in s ==> NeedsOneOf(byId, id, s)
  }

  ghost predicate NeedsOneOf(byId: Registry, id: Id, s: set<Id>) {
    exists dep :: dep in Requires(byId, id) && dep in s
  }

  /** The selected modules that no order can place: the largest stuck subset. */
  ghost predicate GreatestStuck(byId: Registry, selected: set<Id>, s: set<Id>) {
    && s <= selected && Stuck(byId, s)
    && forall t: set<Id> :: t <= selected && Stuck(byId, t) ==> t <= s
  }

  /** One requirement inside the stuck set. */
  ghost function StuckStep(byId: Registry, s: set<Id>, id: Id): (dep: Id)
    requires Stuck(byId, s) && id in s
    ensures dep in Requires(byId, id) && dep in s
  {
    assert NeedsOneOf(byId, id, s);
    var dep :| dep in Requires(byId, id) && dep in s; dep
  }

  /** For every member, that requirement: a graph whose walks never end. */
  ghost function Follow(byId: Registry, s: set<Id>): (next: ParentGraph.Graph)
    requires Stuck(byId, s)
  {
    map id | id in s :: StuckStep(byId, s, id)
  }

  /** The path of n steps along Follow. */
  ghost function Trail(byId: Registry, s: set<Id>, x: Id, n: nat): (path: seq<Id>)
    requires Stuck(byId, s) && x in s
    ensures |path| == n + 1 && path[0] == x && path[n] in s
    ensures ParentGraph.Walk(Follow(byId, s), x, n) == Some(path[n])
    ensures forall i :: 0 <= i <= n ==> path[i] in s
    ensures forall i :: 0 <= i < n ==> path[i + 1] in Requires(byId, path[i])
    decreases n
  {
    if n == 0 then [x] else [x] + Trail(byId, s, StuckStep(byId, s, x), n - 1)
  }

  /** A non-empty stuck set contains a cycle: keep following a requirement inside it. */
  lemma StuckHasCycle(byId: Registry, selected: set<Id>, s: set<Id>) returns (path: seq<Id>)
    requires s != {} && s <= selected && Stuck(byId, s)
    ensures IsCycle(byId, selected, path)
  {
    var next := Follow(byId, s);
    var start :| start in s;
    var long := Trail(byId, s, start, |ParentGraph.UpSet(next, start)| + 1);
    if ParentGraph.Acyclic(next) { ParentGraph.WalkEnds(next, start); }
    var x: Id, n: nat :| 0 < n && ParentGraph.Walk(next, x, n) == Some(x);
    path := Trail(byId, s, x, n);
  }

  ghost function Position(order: seq<Id>, id: Id): (i: nat)
    requires id in order
    ensures i < |order| && order[i] == id
  {
    var i: nat :| i < |order| && order[i] == id; i
  }

  /** Along a path of requirements the position in an order drops at every step. */
  lemma {:induction false} PositionDrops(byId: Registry, selected: set<Id>, order: seq<Id>, path: seq<Id>, k: nat)
    requires IsOrder(byId, selected, order) && k < |path|
    requires forall i :: 0 <= i < |path| ==> path[i] in selected
    requires forall i :: 0 <= i < |path| - 1 ==> path[i + 1] in Requires(byId, path[i])
    ensures Position(order, path[k]) + k <= Position(order, path[0])
  {
    if k > 0 {
      PositionDrops(byId, selected, order, path, k - 1);
      var at := Position(order, path[k - 1]);
      assert RequirementsBefore(byId, order, at);
      assert path[k] in order[..at];
      var i :| 0 <= i < at && order[i] == path[k];
    }
  }

  lemma OrderedHasNoCycle(byId: Registry, selected: set<Id>, order: seq<Id>, path: seq<Id>)
    requires IsOrder(byId, selected, order)
    ensures !IsCycle(byId, selected, path)
  {
    if IsCycle(byId, selected, path) { PositionDrops(byId, selected, order, path, |path| - 1); }
  }

  // ----- counting requirements -----

  function Members(s: seq<Id>): set<Id> {
    set x | x in s
  }

  /** Entries of a Requires list that are not placed yet, repeats included. */
  function Waiting(reqs: seq<Id>, done: set<Id>): (n: nat)
    ensures n == 0 <==> forall r :: r in reqs ==> r in done
  {
    if reqs == [] then 0
    else (if reqs[0] in done then 0 else 1) + Waiting(reqs[1..], done)
  }

  /** Placing a module releases each of its dependents once per entry that names it. */
  lemma {:induction false} WaitingDrops(reqs: seq<Id>, done: set<Id>, id: Id)
    requires id !in done
    ensures Waiting(reqs, done) == Waiting(reqs, done + {id}) + multiset(reqs)[id]
  {
    if reqs != [] {
      WaitingDrops(reqs[1..], done, id);
      assert reqs == [reqs[0]] + reqs[1..];
    }
  }

  lemma {:induction false} WaitingForAll(reqs: seq<Id>)
    ensures Waiting(reqs, {}) == |reqs|
  {
    if reqs != [] { WaitingForAll(reqs[1..]); }
  }

  lemma StringsAreOrdered()
    ensures TotalPreorder(Le) && Antisymmetric(Le)
  {
    forall a, b ensures Le(a, b) || Le(b, a) { LeTotal(a, b); }
    forall a, b, c | Le(a, b) && Le(b, c) ensures Le(a, c) { LeTransitive(a, b, c); }
    forall a, b | Le(a, b) && Le(b, a) ensures a == b { LeAntisymmetric(a, b); }
  }

  method SortNames(names: seq<Id>) returns (sorted: seq<Id>)
    ensures Sorted(Le, sorted) && multiset(sorted) == multiset(names)
    ensures NoRepeats(sorted) <==> NoRepeats(names)
    ensures forall x :: x in sorted <==> x in names
  {
    StringsAreOrdered();
    sorted := Sort(Le, names);
    Rearranged(sorted, names);
  }

  // ----- Kahn's algorithm -----

  type Counters = map<Id, int>
  type Dependents = map<Id, seq<Id>>

  function DependentsOf(dependents: Dependents, id: Id): seq<Id> {
    if id in dependents then dependents[id] else []
  }

  /** dependents[d] lists every module of `counted` once per entry of its Requires that names d. */
  ghost predicate Inverted(byId: Registry, counted: set<Id>, dependents: Dependents) {
    forall d, c :: Entries(dependents, d, c) == if c in counted then multiset(Requires(byId, c))[d] else 0
  }

  method CountRequirements(byId: Registry, selected: set<Id>)
      returns (problem: Option<ResolveError>, remaining: Counters, dependents: Dependents)
    ensures match problem
      case Some(e) =>
        e.RequiresDisabledModule? && e.id in selected && e.dep in Requires(byId, e.id) && e.dep !in selected
      case None =>
        && Closed(byId, selected) && Inverted(byId, selected, dependents)
        && remaining.Keys == selected && forall c :: c in selected ==> remaining[c] == |Requires(byId, c)|
  {
    problem := None;
    dependents := map[];
    remaining := map id | id in selected :: 0;
    var todo := selected;
    while todo != {}
      invariant todo <= selected && remaining.Keys == selected
      invariant Inverted(byId, selected - todo, dependents)
      invariant forall c :: c in selected ==> remaining[c] == if c in todo then 0 else |Requires(byId, c)|
      invariant ClosedWithin(byId, selected - todo, selected)
    {
      var id :| id in todo;
      var missing := MissingDependency(byId, id, selected);
      if missing.Some? { return Some(RequiresDisabledModule(id, missing.value)), remaining, dependents; }
      ghost var before := dependents;
      dependents := AddDependent(dependents, id, Requires(byId, id));
      InvertedOneMore(byId, selected - todo, before, id, dependents);
      assert selected - (todo - {id}) == selected - todo + {id};
      remaining := remaining[id := |Requires(byId, id)|];
      todo := todo - {id};
    }
    assert selected - {} == selected;
  }

  ghost predicate ClosedWithin(byId: Registry, s: set<Id>, selected: set<Id>) {
    forall id, dep :: id in s && dep in Requires(byId, id) ==> dep in selected
  }

  /** Every dependency named in reqs has one more entry for id per time it is named; nothing else changed. */
  ghost predicate GainsEntries(before: Dependents, after: Dependents, id: Id, reqs: seq<Id>) {
    forall d, c :: Entries(after, d, c) == Entries(before, d, c) + (if c == id then multiset(reqs)[d] else 0)
  }

  ghost function Entries(dependents: Dependents, d: Id, c: Id): nat {
    multiset(DependentsOf(dependents, d))[c]
  }

  lemma InvertedOneMore(byId: Registry, counted: set<Id>, before: Dependents, id: Id, after: Dependents)
    requires Inverted(byId, counted, before) && id !in counted
    requires GainsEntries(before, after, id, Requires(byId, id))
    ensures Inverted(byId, counted + {id}, after)
  {
  }

  method AddDependent(dependents: Dependents, id: Id, reqs: seq<Id>) returns (more: Dependents)
    ensures GainsEntries(dependents, more, id, reqs)
  {
    more := dependents;
    for j := 0 to |reqs|
      invariant GainsEntries(dependents, more, id, reqs[..j])
    {
      assert reqs[..j + 1] == reqs[..j] + [reqs[j]];
      more := more[reqs[j] := DependentsOf(more, reqs[j]) + [id]];
    }
    assert reqs[..|reqs|] == reqs;
  }

  /** Decrements one counter per listed child and queues the children that reach zero. */
  method Release(children: seq<Id>, remaining: Counters, ready: seq<Id>) returns (left: Counters, queue: seq<Id>)
    requires NoRepeats(ready)
    requires forall c :: c in ready ==> c in remaining && remaining[c] == 0
    requires forall c :: c in children ==> c in remaining && multiset(children)[c] <= remaining[c]
    ensures left.Keys == remaining.Keys && NoRepeats(queue)
    ensures forall c :: c in remaining ==> left[c] == remaining[c] - multiset(children)[c]
    ensures forall c :: c in queue <==> c in ready || (c in children && left[c] == 0)
  {
    left, queue := remaining, ready;
    for j := 0 to |children|
      invariant left.Keys == remaining.Keys && NoRepeats(queue)
      invariant forall c :: c in remaining ==> left[c] == remaining[c] - multiset(children[..j])[c]
      invariant forall c :: c in queue <==> c in ready || (c in children[..j] && left[c] == 0)
    {
      var c := children[j];
      assert children[..j + 1] == children[..j] + [c];
      CountsOfPrefix(children, j + 1, c);
      left := left[c := left[c] - 1];
      if left[c] == 0 { queue := queue + [c]; }
    }
    assert children[..|children|] == children;
  }

  lemma CountsOfPrefix(s: seq<Id>, n: nat, x: Id)
    requires n <= |s|
    ensures multiset(s[..n])[x] <= multiset(s)[x]
  {
    assert s == s[..n] + s[n..];
  }

  /** Modules of the selection that could come next after `done`. */
  ghost predicate Available(byId: Registry, selected: set<Id>, done: seq<Id>, c: Id) {
    c in selected && c !in done && forall dep :: dep in Requires(byId, c) ==> dep in done
  }

  /** Each entry was the least one available at its turn. */
  ghost predicate Greedy(byId: Registry, selected: set<Id>, order: seq<Id>) {
    && NoRepeats(order) && (forall id :: id in order ==> id in selected)
    && (forall k :: 0 <= k < |order| ==> RequirementsBefore(byId, order, k) && LeastAvailable(byId, selected, order, k))
  }

  ghost predicate LeastAvailable(byId: Registry, selected: set<Id>, order: seq<Id>, k: nat)
    requires k < |order|
  {
    forall c :: Available(byId, selected, order[..k], c) ==> Le(order[k], c)
  }

  lemma GreedyOneMore(byId: Registry, selected: set<Id>, order: seq<Id>, id: Id)
    requires Greedy(byId, selected, order) && Available(byId, selected, order, id)
    requires forall c :: Available(byId, selected, order, c) ==> Le(id, c)
    ensures Greedy(byId, selected, order + [id])
  {
    var more := order + [id];
    forall k | 0 <= k < |more| ensures RequirementsBefore(byId, more, k) && LeastAvailable(byId, selected, more, k) {
      if k < |order| {
        assert RequirementsBefore(byId, order, k) && LeastAvailable(byId, selected, order, k);
        assert more[..k] == order[..k];
      } else {
        assert more[..k] == order;
      }
    }
  }

  /** At the first difference the greedy order has the smaller module. */
  lemma GreedyIsLeast(byId: Registry, selected: set<Id>, order: seq<Id>)
    requires Greedy(byId, selected, order) && IsOrder(byId, selected, order)
    ensures LeastOrder(byId, selected, order)
  {
    forall other | IsOrder(byId, selected, other) ensures LexLe(order, other) {
      SameLength(order, other);
      if order != other {
        var k := FirstDifference(order, other, 0);
        assert RequirementsBefore(byId, other, k) && LeastAvailable(byId, selected, order, k);
        assert Available(byId, selected, order[..k], other[k]);
      }
    }
  }

  lemma FirstDifference(a: seq<Id>, b: seq<Id>, from: nat) returns (k: nat)
    requires |a| == |b| && a != b && from <= |a| && a[..from] == b[..from]
    ensures k < |a| && a[..k] == b[..k] && a[k] != b[k]
    decreases |a| - from
  {
    assert a == a[..|a|] && b == b[..|b|];
    if a[from] != b[from] {
      k := from;
    } else {
      assert a[..from + 1] == a[..from] + [a[from]] && b[..from + 1] == b[..from] + [b[from]];
      k := FirstDifference(a, b, from + 1);
    }
  }

  lemma {:induction false} DistinctLength(s: seq<Id>)
    requires NoRepeats(s)
    ensures |Members(s)| == |s|
  {
    if s != [] {
      var n := |s| - 1;
      DistinctLength(s[..n]);
      assert Members(s) == Members(s[..n]) + {s[n]};
    }
  }

  lemma SameLength(a: seq<Id>, b: seq<Id>)
    requires NoRepeats(a) && NoRepeats(b) && forall x :: x in a <==> x in b
    ensures |a| == |b|
  {
    DistinctLength(a);
    DistinctLength(b);
    assert Members(a) == Members(b);
  }

  /** A stuck module is never placed: the first one placed would require an earlier one. */
  lemma {:induction false} OrderAvoidsStuck(byId: Registry, selected: set<Id>, order: seq<Id>, t: set<Id>, k: nat)
    requires Greedy(byId, selected, order) && Stuck(byId, t) && k <= |order|
    ensures forall i :: 0 <= i < k ==> order[i] !in t
  {
    if k > 0 {
      OrderAvoidsStuck(byId, selected, order, t, k - 1);
      FirstStuckNeedsEarlier(byId, order, t, k - 1);
    }
  }

  lemma FirstStuckNeedsEarlier(byId: Registry, order: seq<Id>, t: set<Id>, k: nat)
    requires Stuck(byId, t) && k < |order| && RequirementsBefore(byId, order, k)
    ensures order[k] in t ==> exists i :: 0 <= i < k && order[i] in t
  {
    if order[k] in t {
      assert NeedsOneOf(byId, order[k], t);
      var dep :| dep in Requires(byId, order[k]) && dep in t;
      var i :| 0 <= i < k && order[i] == dep;
    }
  }

  /** Kahn's loop: place the least ready module, release its dependents, sort what is ready. */
  method PlaceAll(byId: Registry, selected: set<Id>, counts: Counters, dependents: Dependents)
      returns (order: seq<Id>, remaining: Counters)
    requires Closed(byId, selected) && Inverted(byId, selected, dependents)
    requires counts.Keys == selected && forall c :: c in selected ==> counts[c] == |Requires(byId, c)|
    ensures Greedy(byId, selected, order) && remaining.Keys == selected
    ensures forall c :: c in selected ==> remaining[c] == Waiting(Requires(byId, c), Members(order))
    ensures forall c :: !Available(byId, selected, order, c)
  {
    remaining := counts;
    order := [];
    assert Members([]) == {};
    forall c | c in selected
      ensures remaining[c] == Waiting(Requires(byId, c), {})
    {
      WaitingForAll(Requires(byId, c));
    }
    var ready := ListNames(set c | c in selected && remaining[c] == 0);
    ready := SortNames(ready);
    while ready != []
      invariant Greedy(byId, selected, order) && remaining.Keys == selected
      invariant forall c :: c in selected ==> remaining[c] == Waiting(Requires(byId, c), Members(order))
      invariant NoRepeats(ready) && Sorted(Le, ready)
      invariant forall c :: c in ready <==> Available(byId, selected, order, c)
      decreases |selected| - |order|
    {
      var id := ready[0];
      ghost var done := order;
      StringsAreOrdered();
      PlaceOne(byId, selected, done, ready, remaining, dependents);
      ready := ready[1..];
      order := order + [id];
      var left, queue := Release(DependentsOf(dependents, id), remaining, ready);
      CountersAfterRelease(byId, selected, done, id, remaining, dependents, left);
      QueueAfterRelease(byId, selected, done, id, dependents, left, ready, queue);
      remaining := left;
      ready := SortNames(queue);
    }
  }

  method ListNames(names: set<Id>) returns (list: seq<Id>)
    ensures NoRepeats(list) && forall x :: x in list <==> x in names
  {
    list := [];
    var todo := names;
    while todo != {}
      invariant todo <= names && NoRepeats(list) && forall x :: x in list <==> x in names - todo
    {
      var x :| x in todo;
      assert x !in list;
      todo := todo - {x};
      list := list + [x];
    }
  }

  /** The head of the queue is the least available module, and the counters allow its release. */
  lemma PlaceOne(byId: Registry, selected: set<Id>, done: seq<Id>, ready: seq<Id>, remaining: Counters,
        dependents: Dependents)
    requires TotalPreorder(Le) && Closed(byId, selected) && Inverted(byId, selected, dependents)
    requires Greedy(byId, selected, done) && remaining.Keys == selected
    requires forall c :: c in selected ==> remaining[c] == Waiting(Requires(byId, c), Members(done))
    requires NoRepeats(ready) && Sorted(Le, ready) && ready != []
    requires forall c :: c in ready <==> Available(byId, selected, done, c)
    ensures Greedy(byId, selected, done + [ready[0]])
    ensures |done| < |selected| && ready[0] !in done
    ensures NoRepeats(ready[1..]) && forall c :: c in ready[1..] ==> c in remaining && remaining[c] == 0
    ensures var children := DependentsOf(dependents, ready[0]);
      forall c :: c in children ==> c in remaining && multiset(children)[c] <= remaining[c]
  {
    var id := ready[0];
    assert id in ready && Available(byId, selected, done, id);
    forall c | Available(byId, selected, done, c) ensures Le(id, c) {
      assert c in ready;
      var i :| 0 <= i < |ready| && ready[i] == c;
      if i == 0 { LeTotal(id, id); }
    }
    GreedyOneMore(byId, selected, done, id);
    DistinctLength(done);
    assert Members(done) < selected;
    SmallerSet(Members(done), selected);
    TailNoRepeats(ready);
    forall c | c in ready[1..] ensures c in remaining && remaining[c] == 0 { assert c in ready; }
    var children := DependentsOf(dependents, id);
    forall c | c in children ensures c in remaining && multiset(children)[c] <= remaining[c] {
      assert multiset(children)[c] == Entries(dependents, id, c) > 0;
      WaitingDrops(Requires(byId, c), Members(done), id);
    }
  }

  lemma TailNoRepeats(s: seq<Id>)
    requires NoRepeats(s) && s != []
    ensures NoRepeats(s[1..])
  {
    forall i, j | 0 <= i < j < |s[1..]| ensures s[1..][i] != s[1..][j] { assert s[i + 1] != s[j + 1]; }
  }

  /** After the release the counters describe the longer order. */
  lemma CountersAfterRelease(byId: Registry, selected: set<Id>, done: seq<Id>, id: Id, remaining: Counters,
        dependents: Dependents, left: Counters)
    requires Inverted(byId, selected, dependents) && id !in done
    requires remaining.Keys == left.Keys == selected
    requires forall c :: c in selected ==> remaining[c] == Waiting(Requires(byId, c), Members(done))
    requires forall c :: c in selected ==> left[c] == remaining[c] - multiset(DependentsOf(dependents, id))[c]
    ensures forall c :: c in selected ==> left[c] == Waiting(Requires(byId, c), Members(done + [id]))
  {
    assert Members(done + [id]) == Members(done) + {id};
    forall c | c in selected ensures left[c] == Waiting(Requires(byId, c), Members(done + [id])) {
      WaitingDrops(Requires(byId, c), Members(done), id);
      assert multiset(DependentsOf(dependents, id))[c] == Entries(dependents, id, c);
    }
  }

  /** A placed module has all its requirements placed. */
  lemma PlacedIsSatisfied(byId: Registry, selected: set<Id>, order: seq<Id>, c: Id)
    requires Greedy(byId, selected, order) && c in order
    ensures forall dep :: dep in Requires(byId, c) ==> dep in order && dep != c
  {
    var k :| 0 <= k < |order| && order[k] == c;
    assert RequirementsBefore(byId, order, k);
  }

  /** After the release the queue holds what is available after the longer order. */
  lemma QueueAfterRelease(byId: Registry, selected: set<Id>, done: seq<Id>, id: Id, dependents: Dependents,
                          left: Counters, ready: seq<Id>, queue: seq<Id>)
    requires Inverted(byId, selected, dependents) && Greedy(byId, selected, done)
    requires Greedy(byId, selected, done + [id]) && id !in done
    requires left.Keys == selected && forall c :: c in selected ==>
      left[c] == Waiting(Requires(byId, c), Members(done + [id]))
    requires forall c :: c in ready <==> c != id && Available(byId, selected, done, c)
    requires forall c :: c in queue <==>
      c in ready || (c in DependentsOf(dependents, id) && c in selected && left[c] == 0)
    ensures forall c :: c in queue <==> Available(byId, selected, done + [id], c)
  {
    forall c ensures c in queue <==> Available(byId, selected, done + [id], c) {
      if c in selected {
        assert multiset(DependentsOf(dependents, id))[c] == Entries(dependents, id, c) ==
          multiset(Requires(byId, c))[id];
        assert c in DependentsOf(dependents, id) <==> id in Requires(byId, c);
        AvailableIff(byId, selected, done, id, c);
      }
    }
  }

  /** What is available after one more module: what was, and what required it and waits for nothing else. */
  lemma AvailableIff(byId: Registry, selected: set<Id>, done: seq<Id>, id: Id, c: Id)
    requires Greedy(byId, selected, done) && Greedy(byId, selected, done + [id]) && id !in done && c in selected
    ensures var left := Waiting(Requires(byId, c), Members(done + [id]));
      Available(byId, selected, done + [id], c) <==>
        (c != id && Available(byId, selected, done, c)) || (id in Requires(byId, c) && left == 0)
  {
    if c in done { PlacedIsSatisfied(byId, selected, done, c); }
    if c == id { PlacedIsSatisfied(byId, selected, done + [id], id); }
  }

  /** topologicalOrder. */
  method TopologicalOrder(byId: Registry, selected: set<Id>) returns (result: Result<seq<Id>, ResolveError>)
    ensures match result
      case Ok(order) => LeastOrder(byId, selected, order)
      case Err(RequiresDisabledModule(id, dep)) => id in selected && dep in Requires(byId, id) && dep !in selected
      case Err(DependencyCycle(involving)) =>
        && Closed(byId, selected) && involving != [] && NoRepeats(involving) && Sorted(Le, involving)
        && GreatestStuck(byId, selected, Members(involving))
      case Err(_) => false
  {
    var problem, counts, dependents := CountRequirements(byId, selected);
    if problem.Some? { return Err(problem.value); }
    var order, remaining := PlaceAll(byId, selected, counts, dependents);
    var stuck := set c | c in selected && remaining[c] > 0;
    StuckIsTheRest(byId, selected, order, stuck);
    if |order| != |selected| {
      var involving := ListNames(stuck);
      involving := SortNames(involving);
      assert Members(involving) == stuck;
      return Err(DependencyCycle(involving));
    }
    GreedyIsLeast(byId, selected, order);
    result := Ok(order);
  }

  lemma StuckIsTheRest(byId: Registry, selected: set<Id>, order: seq<Id>, stuck: set<Id>)
    requires Closed(byId, selected) && Greedy(byId, selected, order)
    requires forall c :: !Available(byId, selected, order, c)
    requires forall c :: c in stuck <==> c in selected && Waiting(Requires(byId, c), Members(order)) > 0
    ensures GreatestStuck(byId, selected, stuck)
    ensures |order| == |selected| <==> stuck == {}
    ensures stuck == {} ==> IsOrder(byId, selected, order)
  {
    forall c | c in selected ensures c in stuck <==> c !in order {
      assert !Available(byId, selected, order, c);
      if c in order {
        var k :| 0 <= k < |order| && order[k] == c;
        assert RequirementsBefore(byId, order, k);
        assert forall dep :: dep in Requires(byId, c) ==> dep in order;
      }
    }
    forall c | c in stuck ensures NeedsOneOf(byId, c, stuck) {
      assert !Available(byId, selected, order, c);
      var dep :| dep in Requires(byId, c) && dep !in order;
    }
    forall t: set<Id> | t <= selected && Stuck(byId, t) ensures t <= stuck {
      OrderAvoidsStuck(byId, selected, order, t, |order|);
    }
    RestCounts(selected, order, stuck);
  }

  lemma RestCounts(selected: set<Id>, order: seq<Id>, rest: set<Id>)
    requires NoRepeats(order) && (forall c :: c in order ==> c in selected)
    requires forall c :: c in rest <==> c in selected && c !in order
    ensures |order| == |selected| <==> rest == {}
  {
    DistinctLength(order);
    assert selected == Members(order) + rest && Members(order) !! rest;
  }

  /** The order is an error exactly when the selected dependency graph has a cycle. */
  lemma StuckIffCycle(byId: Registry, selected: set<Id>, s: set<Id>)
    requires GreatestStuck(byId, selected, s)
    ensures s != {} <==> exists path :: IsCycle(byId, selected, path)
  {
    if s != {} { var path := StuckHasCycle(byId, selected, s); }
    if path :| IsCycle(byId, selected, path) {
      var t := Members(path);
      forall id | id in t ensures NeedsOneOf(byId, id, t) {
        var i :| 0 <= i < |path| && path[i] == id;
        var j := if i == |path| - 1 then 0 else i;
        assert path[j + 1] in Requires(byId, id) && path[j + 1] in t;
      }
      assert Stuck(byId, t) && path[0] in t;
    }
  }

  /** Two least orders of the same selection are the same list. */
  lemma LeastOrderIsUnique(byId: Registry, other: Registry, selected: set<Id>, a: seq<Id>, b: seq<Id>)
    requires forall id, dep :: dep in Requires(byId, id) <==> dep in Requires(other, id)
    requires LeastOrder(byId, selected, a) && LeastOrder(other, selected, b)
    ensures a == b
  {
    SameDependenciesSameOrders(byId, other, selected, a);
    SameDependenciesSameOrders(other, byId, selected, b);
    assert LexLe(a, b) && LexLe(b, a);
    LexAntisymmetric(a, b);
  }

  lemma LexAntisymmetric(a: seq<Id>, b: seq<Id>)
    requires LexLe(a, b) && LexLe(b, a)
    ensures a == b
  {
    if a != b {
      var i :| 0 <= i < |a| && i < |b| && a[..i] == b[..i] && a[i] != b[i] && Le(a[i], b[i]);
      var j :| 0 <= j < |b| && j < |a| && b[..j] == a[..j] && b[j] != a[j] && Le(b[j], a[j]);
      if i < j { PrefixAgrees(a, b, i, j); }
      if j < i { PrefixAgrees(a, b, j, i); }
      LeAntisymmetric(a[i], b[i]);
    }
  }

  lemma PrefixAgrees(a: seq<Id>, b: seq<Id>, i: nat, j: nat)
    requires i < j <= |a| && j <= |b| && a[..j] == b[..j]
    ensures a[i] == b[i]
  {
    assert a[i] == a[..j][i] == b[..j][i] == b[i];
  }

  /** Only the set of requirements matters: repeated entries in a Requires list change no order. */
  lemma SameDependenciesSameOrders(byId: Registry, other: Registry, selected: set<Id>, order: seq<Id>)
    requires forall id, dep :: dep in Requires(byId, id) <==> dep in Requires(other, id)
    ensures IsOrder(byId, selected, order) <==> IsOrder(other, selected, order)
  {
    forall k | 0 <= k < |order| ensures RequirementsBefore(byId, order, k) <==> RequirementsBefore(other, order, k) {}
  }

  // ----- Resolve -----

  function RegistryOf(factories: seq<Factory>): (byId: Registry)
    ensures forall id :: id in byId <==> exists i :: 0 <= i < |factories| && factories[i].id == id
  {
    if factories == [] then map[]
    else
      var n := |factories| - 1;
      assert factories == factories[..n] + [factories[n]];
      RegistryOf(factories[..n])[factories[n].id := factories[n]]
  }

  predicate ValidFactories(factories: seq<Factory>) {
    && (forall i :: 0 <= i < |factories| ==> TrimSpace(factories[i].id) != "")
    && (forall i, j :: 0 <= i < j < |factories| ==> factories[i].id != factories[j].id)
  }

  /** The names a configuration list gives: trimmed, blanks skipped. */
  function Names(list: seq<string>): set<Id> {
    set raw | raw in list && TrimSpace(raw) != "" :: TrimSpace(raw)
  }

  /** DefaultEnabled seeds the set unless an allowlist is given; Required modules join; disabled ones leave. */
  function Seed(byId: Registry, enabled: set<Id>, disabled: set<Id>): set<Id> {
    (if enabled != {} then enabled else set id | id in byId && byId[id].defaultEnabled)
    + (set id | id in byId && byId[id].required) - disabled
  }

  method IndexFactories(factories: seq<Factory>) returns (result: Result<Registry, ResolveError>)
    ensures match result
      case Ok(byId) => ValidFactories(factories) && byId == RegistryOf(factories)
      case Err(EmptyId) => exists i :: 0 <= i < |factories| && TrimSpace(factories[i].id) == ""
      case Err(DuplicateId(id)) => exists i, j :: 0 <= i < j < |factories| && factories[i].id == id == factories[j].id
      case Err(_) => false
  {
    var byId: Registry := map[];
    for i := 0 to |factories|
      invariant ValidFactories(factories[..i]) && byId == RegistryOf(factories[..i])
    {
      var f := factories[i];
      OneMoreFactory(factories, i);
      if TrimSpace(f.id) == "" { return Err(EmptyId); }
      if f.id in byId { return Err(DuplicateId(f.id)); }
      byId := byId[f.id := f];
    }
    assert factories[..|factories|] == factories;
    result := Ok(byId);
  }

  lemma OneMoreFactory(factories: seq<Factory>, i: nat)
    requires i < |factories| && ValidFactories(factories[..i])
    ensures var f := factories[i]; var byId := RegistryOf(factories[..i]);
      && RegistryOf(factories[..i + 1]) == byId[f.id := f]
      && (f.id in byId <==> exists j :: 0 <= j < i && factories[j].id == f.id)
      && (TrimSpace(f.id) != "" && f.id !in byId ==> ValidFactories(factories[..i + 1]))
  {
    assert factories[..i + 1][..i] == factories[..i];
    RegistryHas(factories, i);
    if TrimSpace(factories[i].id) != "" && factories[i].id !in RegistryOf(factories[..i]) { StaysValid(factories, i); }
  }

  lemma RegistryHas(factories: seq<Factory>, i: nat)
    requires i < |factories|
    ensures factories[i].id in RegistryOf(factories[..i]) <==>
      exists j :: 0 <= j < i && factories[j].id == factories[i].id
  {
    var before, id := factories[..i], factories[i].id;
    if id in RegistryOf(before) {
      var j :| 0 <= j < |before| && before[j].id == id;
      assert factories[j].id == id;
    }
    if j :| 0 <= j < i && factories[j].id == id {
      assert before[j].id == id;
    }
  }

  lemma StaysValid(factories: seq<Factory>, i: nat)
    requires i < |factories| && ValidFactories(factories[..i])
    requires TrimSpace(factories[i].id) != "" && forall j :: 0 <= j < i ==> factories[j].id != factories[i].id
    ensures ValidFactories(factories[..i + 1])
  {
    var before, after := factories[..i], factories[..i + 1];
    forall j | 0 <= j < |after| ensures TrimSpace(after[j].id) != "" {
      if j < i { assert after[j] == before[j]; }
    }
    forall j, k | 0 <= j < k < |after| ensures after[j].id != after[k].id {
      assert after[j] == before[j];
      if k < i { assert after[k] == before[k]; }
    }
  }

  method Normalize(byId: Registry, list: seq<string>) returns (result: Result<seq<Id>, ResolveError>)
    ensures match result
      case Ok(names) => Members(names) == Names(list) && Names(list) <= byId.Keys
      case Err(UnknownModule(id)) => id in Names(list) && id !in byId
      case Err(_) => false
  {
    var out: seq<Id> := [];
    for i := 0 to |list|
      invariant Members(out) == Names(list[..i]) && Names(list[..i]) <= byId.Keys
    {
      var id := TrimSpace(list[i]);
      NamesOneMore(list, i);
      if id == "" { continue; }
      if id !in byId { assert list[i] in list; return Err(UnknownModule(id)); }
      if id in out { continue; }
      assert Members(out + [id]) == Members(out) + {id};
      out := out + [id];
    }
    assert list[..|list|] == list;
    result := Ok(out);
  }

  lemma NamesOneMore(list: seq<string>, i: nat)
    requires i < |list|
    ensures Names(list[..i + 1]) == Names(list[..i]) + if TrimSpace(list[i]) == "" then {} else {TrimSpace(list[i])}
  {
    assert list[..i + 1] == list[..i] + [list[i]];
    assert forall raw :: raw in list[..i + 1] <==> raw in list[..i] || raw == list[i];
    assert list[i] in list[..i + 1];
  }

  /** The enabled closed set has a dependency cycle. */
  ghost predicate SelectionHasCycle(byId: Registry, seed: set<Id>) {
    exists s: set<Id>, path: seq<Id> :: GreatestClosed(byId, seed, s) && IsCycle(byId, s, path)
  }

  /** The configuration names only known modules and disables no Required one. */
  predicate Configured(byId: Registry, enabled: set<Id>, disabled: set<Id>) {
    enabled <= byId.Keys && disabled <= byId.Keys && forall id :: id in disabled ==> !byId[id].required
  }

  /** Whatever a Required module requires is known and Required itself. */
  ghost predicate RequiredNeedsRequired(byId: Registry) {
    forall id, dep :: id in byId && byId[id].required && dep in Requires(byId, id) ==> dep in byId && byId[dep].required
  }

  /** Then every Required module survives the cascade, whatever the configuration enables or (legally) disables. */
  lemma RequiredModulesSurvive(byId: Registry, enabled: set<Id>, disabled: set<Id>, s: set<Id>)
    requires Configured(byId, enabled, disabled) && RequiredNeedsRequired(byId)
    requires GreatestClosed(byId, Seed(byId, enabled, disabled), s)
    ensures forall id :: id in byId && byId[id].required ==> id in s
  {
    var core := set id | id in byId && byId[id].required;
    assert Closed(byId, core) && core <= Seed(byId, enabled, disabled);
  }

  // ----- the resolution, told by the factories and the two lists -----

  /** Some entry of a configuration list names the module, spaces around it aside. */
  ghost predicate NamedIn(list: seq<string>, id: Id) {
    exists i :: 0 <= i < |list| && TrimSpace(list[i]) == id
  }

  ghost predicate AllBlank(list: seq<string>) {
    forall i :: 0 <= i < |list| ==> TrimSpace(list[i]) == ""
  }

  /** Required, or on the allowlist, or a default when there is no allowlist; and not disabled. */
  ghost predicate Wanted(f: Factory, enabled: seq<string>, disabled: seq<string>) {
    && (f.required || if AllBlank(enabled) then f.defaultEnabled else NamedIn(enabled, f.id))
    && !NamedIn(disabled, f.id)
  }

  /** Wanted modules that require nothing beyond themselves. */
  ghost predicate RunTogether(factories: seq<Factory>, enabled: seq<string>, disabled: seq<string>, s: set<Id>) {
    forall id :: id in s ==>
      exists i :: 0 <= i < |factories| && factories[i].id == id && RunsAmong(factories[i], enabled, disabled, s)
  }

  ghost predicate RunsAmong(f: Factory, enabled: seq<string>, disabled: seq<string>, s: set<Id>) {
    Wanted(f, enabled, disabled) && forall dep :: dep in f.dependencies ==> dep in s
  }

  /** Names are given, distinct and known, and no Required module is disabled. */
  ghost predicate WellConfigured(factories: seq<Factory>, enabled: seq<string>, disabled: seq<string>) {
    && (forall i :: 0 <= i < |factories| ==> TrimSpace(factories[i].id) != "")
    && (forall i, j :: 0 <= i < j < |factories| ==> factories[i].id != factories[j].id)
    && AllKnown(factories, enabled) && AllKnown(factories, disabled)
    && forall i :: 0 <= i < |factories| && factories[i].required ==> !NamedIn(disabled, factories[i].id)
  }

  ghost predicate AllKnown(factories: seq<Factory>, list: seq<string>) {
    forall k :: 0 <= k < |list| && TrimSpace(list[k]) != "" ==>
      exists i :: 0 <= i < |factories| && factories[i].id == TrimSpace(list[k])
  }

  /** id names a factory that depends on dep. */
  ghost predicate DependsOn(factories: seq<Factory>, id: Id, dep: Id) {
    exists i :: 0 <= i < |factories| && factories[i].id == id && dep in factories[i].dependencies
  }

  /** A closed walk along dependencies inside s. */
  ghost predicate Loop(factories: seq<Factory>, s: set<Id>, path: seq<Id>) {
    && 2 <= |path| && path[0] == path[|path| - 1]
    && (forall i :: 0 <= i < |path| ==> path[i] in s)
    && (forall i :: 0 <= i < |path| - 1 ==> DependsOn(factories, path[i], path[i + 1]))
  }

  /** The modules of s, each once, after everything they depend on. */
  ghost predicate StartOrder(factories: seq<Factory>, s: set<Id>, order: seq<Id>) {
    && (forall j, k :: 0 <= j < k < |order| ==> order[j] != order[k])
    && (forall id :: id in order <==> id in s)
    && forall k, dep :: 0 <= k < |order| && DependsOn(factories, order[k], dep) ==> dep in order[..k]
  }

  lemma {:induction false} RegistryHolds(factories: seq<Factory>, i: nat)
    requires ValidFactories(factories) && i < |factories|
    ensures factories[i].id in RegistryOf(factories) && RegistryOf(factories)[factories[i].id] == factories[i]
  {
    var n := |factories| - 1;
    assert factories == factories[..n] + [factories[n]];
    if i < n {
      assert ValidFactories(factories[..n]);
      RegistryHolds(factories[..n], i);
    }
  }

  lemma RequiresMeans(factories: seq<Factory>, id: Id, dep: Id)
    requires ValidFactories(factories)
    ensures dep in Requires(RegistryOf(factories), id) <==> DependsOn(factories, id, dep)
  {
    if i :| 0 <= i < |factories| && factories[i].id == id && dep in factories[i].dependencies {
      RegistryHolds(factories, i);
    }
    if id in RegistryOf(factories) {
      var i :| 0 <= i < |factories| && factories[i].id == id;
      RegistryHolds(factories, i);
    }
  }

  lemma NamesMeans(list: seq<string>, id: Id)
    ensures id in Names(list) <==> id != "" && NamedIn(list, id)
    ensures Names(list) == {} <==> AllBlank(list)
  {
    if i :| 0 <= i < |list| && TrimSpace(list[i]) == id { assert list[i] in list; }
    if i :| 0 <= i < |list| && TrimSpace(list[i]) != "" {
      assert list[i] in list;
      assert TrimSpace(list[i]) in Names(list);
    }
  }

  lemma ConfiguredMeans(factories: seq<Factory>, enabled: seq<string>, disabled: seq<string>)
    ensures ValidFactories(factories) && Configured(RegistryOf(factories), Names(enabled), Names(disabled))
      <==> WellConfigured(factories, enabled, disabled)
  {
    if ValidFactories(factories) {
      KnownMeans(factories, enabled);
      KnownMeans(factories, disabled);
      forall i | 0 <= i < |factories|
        ensures factories[i].id in RegistryOf(factories) && RegistryOf(factories)[factories[i].id] == factories[i]
        ensures factories[i].id in Names(disabled) <==> NamedIn(disabled, factories[i].id)
      {
        RegistryHolds(factories, i);
        NamesMeans(disabled, factories[i].id);
      }
    }
  }

  lemma KnownMeans(factories: seq<Factory>, list: seq<string>)
    ensures Names(list) <= RegistryOf(factories).Keys <==> AllKnown(factories, list)
  {
    forall k | 0 <= k < |list| && TrimSpace(list[k]) != "" ensures TrimSpace(list[k]) in Names(list) {
      assert list[k] in list;
    }
    forall id | id in Names(list) ensures exists k :: 0 <= k < |list| && TrimSpace(list[k]) == id != "" {
      NamesMeans(list, id);
    }
  }

  lemma SeedMeans(factories: seq<Factory>, enabled: seq<string>, disabled: seq<string>, i: nat)
    requires WellConfigured(factories, enabled, disabled) && i < |factories|
    ensures factories[i].id in Seed(RegistryOf(factories), Names(enabled), Names(disabled))
      <==> Wanted(factories[i], enabled, disabled)
  {
    var id := factories[i].id;
    ConfiguredMeans(factories, enabled, disabled);
    RegistryHolds(factories, i);
    NamesMeans(enabled, id);
    NamesMeans(disabled, id);
  }

  /** The seed that the configuration gives. */
  function SeedOf(factories: seq<Factory>, enabled: seq<string>, disabled: seq<string>): set<Id> {
    Seed(RegistryOf(factories), Names(enabled), Names(disabled))
  }

  lemma ClosedRunsTogether(factories: seq<Factory>, enabled: seq<string>, disabled: seq<string>, s: set<Id>, id: Id)
      returns (i: nat)
    requires WellConfigured(factories, enabled, disabled) && id in s
    requires s <= SeedOf(factories, enabled, disabled) && Closed(RegistryOf(factories), s)
    ensures i < |factories| && factories[i].id == id && RunsAmong(factories[i], enabled, disabled, s)
  {
    ConfiguredMeans(factories, enabled, disabled);
    assert id in RegistryOf(factories);
    i :| 0 <= i < |factories| && factories[i].id == id;
    SeedMeans(factories, enabled, disabled, i);
    RegistryHolds(factories, i);
    forall dep | dep in factories[i].dependencies ensures dep in s {
      assert dep in Requires(RegistryOf(factories), id);
    }
  }

  lemma TogetherIsSeeded(factories: seq<Factory>, enabled: seq<string>, disabled: seq<string>, t: set<Id>)
    requires WellConfigured(factories, enabled, disabled) && RunTogether(factories, enabled, disabled, t)
    ensures t <= SeedOf(factories, enabled, disabled)
  {
    forall id | id in t ensures id in SeedOf(factories, enabled, disabled) {
      var i :| 0 <= i < |factories| && factories[i].id == id && RunsAmong(factories[i], enabled, disabled, t);
      SeedMeans(factories, enabled, disabled, i);
    }
  }

  /**
   The resolver's selection is the largest set of wanted modules that require nothing
   beyond themselves, told by the factories and the configuration lists alone.
   */
  lemma SelectionMeans(factories: seq<Factory>, enabled: seq<string>, disabled: seq<string>, s: set<Id>)
    requires WellConfigured(factories, enabled, disabled)
    requires GreatestClosed(RegistryOf(factories), SeedOf(factories, enabled, disabled), s)
    ensures RunTogether(factories, enabled, disabled, s)
    ensures forall t: set<Id> :: RunTogether(factories, enabled, disabled, t) ==> t <= s
  {
    forall id | id in s
      ensures exists i :: 0 <= i < |factories| && factories[i].id == id && RunsAmong(factories[i], enabled, disabled, s)
    {
      var i := ClosedRunsTogether(factories, enabled, disabled, s, id);
    }
    forall t: set<Id> | RunTogether(factories, enabled, disabled, t) ensures t <= s {
      TogetherIsSeeded(factories, enabled, disabled, t);
      TogetherIsClosed(factories, enabled, disabled, t);
    }
  }

  lemma TogetherIsClosed(factories: seq<Factory>, enabled: seq<string>, disabled: seq<string>, t: set<Id>)
    requires ValidFactories(factories) && RunTogether(factories, enabled, disabled, t)
    ensures Closed(RegistryOf(factories), t)
  {
    forall id, dep | id in t && dep in Requires(RegistryOf(factories), id) ensures dep in t {
      var i :| 0 <= i < |factories| && factories[i].id == id && RunsAmong(factories[i], enabled, disabled, t);
      RegistryHolds(factories, i);
    }
  }

  lemma OrderMeans(factories: seq<Factory>, s: set<Id>, order: seq<Id>)
    requires ValidFactories(factories)
    ensures IsOrder(RegistryOf(factories), s, order) <==> StartOrder(factories, s, order)
  {
    forall k, dep | 0 <= k < |order|
      ensures dep in Requires(RegistryOf(factories), order[k]) <==> DependsOn(factories, order[k], dep)
    {
      RequiresMeans(factories, order[k], dep);
    }
    if StartOrder(factories, s, order) {
      forall k | 0 <= k < |order| ensures RequirementsBefore(RegistryOf(factories), order, k) {}
    }
    if IsOrder(RegistryOf(factories), s, order) {
      forall k, dep | 0 <= k < |order| && DependsOn(factories, order[k], dep) ensures dep in order[..k] {
        assert RequirementsBefore(RegistryOf(factories), order, k);
      }
    }
  }

  lemma CycleMeans(factories: seq<Factory>, s: set<Id>, path: seq<Id>)
    requires ValidFactories(factories)
    ensures IsCycle(RegistryOf(factories), s, path) <==> Loop(factories, s, path)
  {
    forall i | 0 <= i < |path| - 1
      ensures path[i + 1] in Requires(RegistryOf(factories), path[i]) <==> DependsOn(factories, path[i], path[i + 1])
    {
      RequiresMeans(factories, path[i], path[i + 1]);
    }
  }

  /** No modules that could run together depend on each other in a circle. */
  ghost predicate NoLoops(factories: seq<Factory>, enabled: seq<string>, disabled: seq<string>) {
    forall s: set<Id>, path :: RunTogether(factories, enabled, disabled, s) ==> !Loop(factories, s, path)
  }

  lemma NoLoopsMeans(factories: seq<Factory>, enabled: seq<string>, disabled: seq<string>, kept: set<Id>)
    requires WellConfigured(factories, enabled, disabled)
    requires GreatestClosed(RegistryOf(factories), SeedOf(factories, enabled, disabled), kept)
    ensures NoLoops(factories, enabled, disabled)
      <==> !SelectionHasCycle(RegistryOf(factories), SeedOf(factories, enabled, disabled))
  {
    ConfiguredMeans(factories, enabled, disabled);
    SelectionMeans(factories, enabled, disabled, kept);
    SelectionCycle(RegistryOf(factories), SeedOf(factories, enabled, disabled), kept);
    forall path ensures IsCycle(RegistryOf(factories), kept, path) <==> Loop(factories, kept, path) {
      CycleMeans(factories, kept, path);
    }
    forall s: set<Id>, path | RunTogether(factories, enabled, disabled, s) && Loop(factories, s, path)
      ensures Loop(factories, kept, path)
    {
    }
  }

  /** Every seed has a largest closed subset. */
  lemma {:induction false} GreatestClosedExists(byId: Registry, seed: set<Id>) returns (s: set<Id>)
    ensures GreatestClosed(byId, seed, s)
    decreases |seed|
  {
    if Closed(byId, seed) {
      s := seed;
    } else {
      var id, dep :| id in seed && dep in Requires(byId, id) && dep !in seed;
      SmallerSet(seed - {id}, seed);
      s := GreatestClosedExists(byId, seed - {id});
    }
  }

  lemma SucceedsMeans(factories: seq<Factory>, enabled: seq<string>, disabled: seq<string>)
    ensures Succeeds(factories, enabled, disabled)
      <==> WellConfigured(factories, enabled, disabled) && NoLoops(factories, enabled, disabled)
  {
    ConfiguredMeans(factories, enabled, disabled);
    if WellConfigured(factories, enabled, disabled) {
      var kept := GreatestClosedExists(RegistryOf(factories), SeedOf(factories, enabled, disabled));
      NoLoopsMeans(factories, enabled, disabled, kept);
    }
  }

  /** One warning for every wanted module that cannot run, naming a dependency that does not run. */
  ghost predicate Warned(factories: seq<Factory>, enabled: seq<string>, disabled: seq<string>, running: set<Id>,
        warnings: seq<Warning>) {
    && (forall i :: 0 <= i < |factories| && Wanted(factories[i], enabled, disabled) && factories[i].id !in running ==>
          exists k :: 0 <= k < |warnings| && warnings[k].id == factories[i].id)
    && (forall j, k :: 0 <= j < k < |warnings| ==> warnings[j].id != warnings[k].id)
    && forall k :: 0 <= k < |warnings| ==>
          && warnings[k].id !in running && warnings[k].dep !in running
          && DependsOn(factories, warnings[k].id, warnings[k].dep)
  }

  lemma WarningsMean(factories: seq<Factory>, enabled: seq<string>, disabled: seq<string>, kept: set<Id>,
        warnings: seq<Warning>)
    requires WellConfigured(factories, enabled, disabled)
    requires WarningsExplain(RegistryOf(factories), SeedOf(factories, enabled, disabled) - kept, kept, warnings)
    ensures Warned(factories, enabled, disabled, kept, warnings)
  {
    ConfiguredMeans(factories, enabled, disabled);
    var dropped := SeedOf(factories, enabled, disabled) - kept;
    forall i | 0 <= i < |factories| && Wanted(factories[i], enabled, disabled) && factories[i].id !in kept
      ensures factories[i].id in dropped
    {
      SeedMeans(factories, enabled, disabled, i);
    }
    WarningsOf(factories, dropped, kept, warnings);
  }

  lemma WarningsOf(factories: seq<Factory>, dropped: set<Id>, kept: set<Id>, warnings: seq<Warning>)
    requires ValidFactories(factories) && dropped !! kept
    requires WarningsExplain(RegistryOf(factories), dropped, kept, warnings)
    ensures forall id :: id in dropped ==> exists k :: 0 <= k < |warnings| && warnings[k].id == id
    ensures forall j, k :: 0 <= j < k < |warnings| ==> warnings[j].id != warnings[k].id
    ensures forall k :: 0 <= k < |warnings| ==>
      && warnings[k].id !in kept && warnings[k].dep !in kept
      && DependsOn(factories, warnings[k].id, warnings[k].dep)
  {
    forall k | 0 <= k < |warnings|
      ensures warnings[k].id !in kept && DependsOn(factories, warnings[k].id, warnings[k].dep)
    {
      assert warnings[k].id in dropped;
      RequiresMeans(factories, warnings[k].id, warnings[k].dep);
    }
  }

  /** The largest selection, started in the least order, with its warnings. */
  ghost predicate Resolved(factories: seq<Factory>, enabled: seq<string>, disabled: seq<string>, r: Resolution) {
    && RunTogether(factories, enabled, disabled, r.enabled)
    && (forall s: set<Id> :: RunTogether(factories, enabled, disabled, s) ==> s <= r.enabled)
    && StartOrder(factories, r.enabled, r.order)
    && (forall other :: StartOrder(factories, r.enabled, other) ==> LexLe(r.order, other))
    && Warned(factories, enabled, disabled, r.enabled, r.warnings)
  }

  lemma ResolutionMeans(factories: seq<Factory>, enabled: seq<string>, disabled: seq<string>, r: Resolution)
    requires WellConfigured(factories, enabled, disabled)
    requires GreatestClosed(RegistryOf(factories), SeedOf(factories, enabled, disabled), r.enabled)
    requires LeastOrder(RegistryOf(factories), r.enabled, r.order)
    requires WarningsExplain(RegistryOf(factories), SeedOf(factories, enabled, disabled) - r.enabled, r.enabled,
      r.warnings)
    ensures Resolved(factories, enabled, disabled, r)
  {
    ConfiguredMeans(factories, enabled, disabled);
    SelectionMeans(factories, enabled, disabled, r.enabled);
    WarningsMean(factories, enabled, disabled, r.enabled, r.warnings);
    forall other ensures IsOrder(RegistryOf(factories), r.enabled, other) <==> StartOrder(factories, r.enabled, other) {
      OrderMeans(factories, r.enabled, other);
    }
  }

  /** Success, told by the registry and the seed. */
  ghost predicate Succeeds(factories: seq<Factory>, enabled: seq<string>, disabled: seq<string>) {
    && ValidFactories(factories)
    && Configured(RegistryOf(factories), Names(enabled), Names(disabled))
    && !SelectionHasCycle(RegistryOf(factories), SeedOf(factories, enabled, disabled))
  }

  ghost predicate Selected(factories: seq<Factory>, enabled: seq<string>, disabled: seq<string>, r: Resolution) {
    var byId, seed := RegistryOf(factories), SeedOf(factories, enabled, disabled);
    && GreatestClosed(byId, seed, r.enabled) && LeastOrder(byId, r.enabled, r.order)
    && WarningsExplain(byId, seed - r.enabled, r.enabled, r.warnings)
  }

  method Resolve(factories: seq<Factory>, enabled: seq<string>, disabled: seq<string>)
    returns (result: Result<Resolution, ResolveError>)
    ensures result.Ok? <==> WellConfigured(factories, enabled, disabled) && NoLoops(factories, enabled, disabled)
    ensures result.Ok? ==> Resolved(factories, enabled, disabled, result.value)
    ensures result.Err? ==> (result.error.DependencyCycle? <==> WellConfigured(factories, enabled, disabled))
    ensures result.Ok? && RequiredNeedsRequired(RegistryOf(factories)) ==>
      forall id :: id in RegistryOf(factories) && RegistryOf(factories)[id].required ==> id in result.value.enabled
    ensures result.Err? ==> !result.error.RequiresDisabledModule?
    ensures result.Err? && result.error.RequiredCannotBeDisabled? ==>
      result.error.id in Names(disabled) && result.error.id in RegistryOf(factories) &&
        RegistryOf(factories)[result.error.id].required
  {
    result := SelectAndOrder(factories, enabled, disabled);
    SucceedsMeans(factories, enabled, disabled);
    ConfiguredMeans(factories, enabled, disabled);
    if result.Ok? {
      ResolutionMeans(factories, enabled, disabled, result.value);
      if RequiredNeedsRequired(RegistryOf(factories)) {
        RequiredModulesSurvive(RegistryOf(factories), Names(enabled), Names(disabled), result.value.enabled);
      }
    }
  }

  /** The body of Resolve, proved against the registry and the seed. */
  method SelectAndOrder(factories: seq<Factory>, enabled: seq<string>, disabled: seq<string>)
    returns (result: Result<Resolution, ResolveError>)
    ensures result.Ok? <==> Succeeds(factories, enabled, disabled)
    ensures result.Ok? ==> Selected(factories, enabled, disabled, result.value)
    ensures result.Err? ==>
      (result.error.DependencyCycle? <==>
        ValidFactories(factories) && Configured(RegistryOf(factories), Names(enabled), Names(disabled)))
    ensures result.Err? ==> !result.error.RequiresDisabledModule?
    ensures result.Err? && result.error.RequiredCannotBeDisabled? ==>
      result.error.id in Names(disabled) && result.error.id in RegistryOf(factories) &&
        RegistryOf(factories)[result.error.id].required
  {
    var index := IndexFactories(factories);
    if index.Err? { return Err(index.error); }
    var byId := index.value;
    var enabledIds := Normalize(byId, enabled);
    if enabledIds.Err? { return Err(enabledIds.error); }
    var disabledIds := Normalize(byId, disabled);
    if disabledIds.Err? { return Err(disabledIds.error); }

    var selected :=
      if |enabledIds.value| > 0 then Members(enabledIds.value) else set id | id in byId && byId[id].defaultEnabled;
    selected := selected + set id | id in byId && byId[id].required;
    var removed := RemoveDisabled(byId, selected, disabledIds.value);
    if removed.Err? { return Err(removed.error); }
    assert (enabledIds.value == [] <==> Names(enabled) == {}) by {
      if enabledIds.value != [] { assert enabledIds.value[0] in Names(enabled); }
    }
    ghost var seed := Seed(byId, Names(enabled), Names(disabled));
    assert removed.value == seed;

    var kept, warnings := Cascade(byId, removed.value);
    var ordered := TopologicalOrder(byId, kept);
    SelectionCycle(byId, seed, kept);
    match ordered
    case Err(e) =>
      if e.DependencyCycle? {
        StuckIffCycle(byId, kept, Members(e.involving));
        assert e.involving[0] in Members(e.involving);
      }
      result := Err(e);
    case Ok(order) =>
      forall path ensures !IsCycle(byId, kept, path) { OrderedHasNoCycle(byId, kept, order, path); }
      result := Ok(Resolution(order, kept, warnings));
  }

  lemma SelectionCycle(byId: Registry, seed: set<Id>, kept: set<Id>)
    requires GreatestClosed(byId, seed, kept)
    ensures SelectionHasCycle(byId, seed) <==> exists path :: IsCycle(byId, kept, path)
  {
    if SelectionHasCycle(byId, seed) {
      var s, path :| GreatestClosed(byId, seed, s) && IsCycle(byId, s, path);
      GreatestClosedIsUnique(byId, seed, s, kept);
    }
  }

  method RemoveDisabled(byId: Registry, selected: set<Id>, disabled: seq<Id>)
    returns (result: Result<set<Id>, ResolveError>)
    requires Members(disabled) <= byId.Keys
    ensures match result
      case Ok(left) => left == selected - Members(disabled) && forall id :: id in disabled ==> !byId[id].required
      case Err(RequiredCannotBeDisabled(id)) => id in disabled && byId[id].required
      case Err(_) => false
  {
    var left := selected;
    for i := 0 to |disabled|
      invariant left == selected - Members(disabled[..i])
      invariant forall j :: 0 <= j < i ==> disabled[j] in byId && !byId[disabled[j]].required
    {
      assert disabled[i] in Members(disabled);
      if byId[disabled[i]].required { return Err(RequiredCannotBeDisabled(disabled[i])); }
      assert disabled[..i + 1] == disabled[..i] + [disabled[i]];
      left := left - {disabled[i]};
    }
    assert disabled[..|disabled|] == disabled;
    result := Ok(left);
  }
}
