/**
 The periodic sweep of the disk derivative cache in internal/media/cache.go. A
 removal may fail; such an entry stays and the sweep goes on.
 */
module DiskSweep {
  import opened Common
  import opened Sorting

  datatype Entry = Entry(path: string, modTime: int, size: nat)

  /** The cache directory: path to modification time and size. */
  type Files = map<string, Entry>

  predicate Older(a: Entry, b: Entry) {
    a.modTime <= b.modTime
  }

  function Total(s: seq<Entry>): nat {
    if s == [] then 0 else s[0].size + Total(s[1..])
  }

  predicate ExpiredAt(e: Entry, now: int, ttl: int) {
    ttl > 0 && e.modTime < now - ttl
  }

  /** The entries of s whose removal would fail. */
  function Stuck(s: seq<Entry>, removable: set<string>): seq<Entry> {
    if s == [] then [] else (if s[0].path in removable then [] else [s[0]]) + Stuck(s[1..], removable)
  }

  /** What the budget pass leaves of the entries, in their order. */
  function Kept(s: seq<Entry>, total: int, maxBytes: int, removable: set<string>): seq<Entry> {
    if s == [] || total <= maxBytes then s
    else if s[0].path in removable then Kept(s[1..], total - s[0].size, maxBytes, removable)
    else [s[0]] + Kept(s[1..], total, maxBytes, removable)
  }

  lemma {:induction false} TotalAppend(s: seq<Entry>, t: seq<Entry>)
    ensures Total(s + t) == Total(s) + Total(t)
  {
    if s == [] {
      assert s + t == t;
    } else {
      assert (s + t)[1..] == s[1..] + t;
      TotalAppend(s[1..], t);
    }
  }

  /** Bytes left once the first j entries have been tried. */
  function Load(s: seq<Entry>, removable: set<string>, j: nat): nat
    requires j <= |s|
  {
    Total(Stuck(s[..j], removable)) + Total(s[j..])
  }

  lemma LoadStep(s: seq<Entry>, removable: set<string>, j: nat)
    requires j < |s|
    ensures Load(s, removable, 0) == Total(s)
    ensures Load(s, removable, j + 1) == (if s[0].path in removable then 0 else s[0].size) + Load(s[1..], removable, j)
  {
    assert s[..0] == [] && s[0..] == s;
    SameSlices(s, j);
    StuckTotal(s[..j + 1], removable);
  }

  lemma SameSlices(s: seq<Entry>, j: nat)
    requires j < |s|
    ensures s[j + 1..] == s[1..][j..] && s[..j + 1][1..] == s[1..][..j] && s[..j + 1][0] == s[0]
  {
  }

  lemma StuckTotal(s: seq<Entry>, removable: set<string>)
    requires s != []
    ensures Total(Stuck(s, removable)) ==
      (if s[0].path in removable then 0 else s[0].size) + Total(Stuck(s[1..], removable))
  {
    var rest := Stuck(s[1..], removable);
    if s[0].path in removable {
      assert Stuck(s, removable) == rest;
    } else {
      assert Stuck(s, removable)[1..] == rest;
    }
  }

  /**
   The budget pass works through a prefix of the entries, oldest first: it removes
   what it can of the prefix, every removal happened while the rest was still over
   budget, and it stops as soon as the rest fits or nothing is left to try.
   */
  lemma {:induction false} BudgetPassIsShortest(s: seq<Entry>, base: nat, maxBytes: int, removable: set<string>)
    returns (k: nat)
    ensures k <= |s| && Kept(s, base + Total(s), maxBytes, removable) == Stuck(s[..k], removable) + s[k..]
    ensures base + Load(s, removable, k) <= maxBytes || k == |s|
    ensures forall j: nat :: j < k ==> base + Load(s, removable, j) > maxBytes
  {
    if s == [] || base + Total(s) <= maxBytes {
      k := 0;
      assert s[..0] == [] && s[0..] == s;
    } else {
      var kept := if s[0].path in removable then 0 else s[0].size;
      var rest := BudgetPassIsShortest(s[1..], base + kept, maxBytes, removable);
      k := rest + 1;
      LoadStep(s, removable, rest);
      forall j: nat | j < k ensures base + Load(s, removable, j) > maxBytes {
        if j > 0 { LoadStep(s, removable, j - 1); }
      }
      KeptStep(s, base, maxBytes, removable, rest);
    }
  }

  lemma KeptStep(s: seq<Entry>, base: nat, maxBytes: int, removable: set<string>, rest: nat)
    requires s != [] && base + Total(s) > maxBytes && rest <= |s[1..]|
    requires var kept := if s[0].path in removable then 0 else s[0].size;
      Kept(s[1..], base + kept + Total(s[1..]), maxBytes, removable) ==
        Stuck(s[1..][..rest], removable) + s[1..][rest..]
    ensures Kept(s, base + Total(s), maxBytes, removable) == Stuck(s[..rest + 1], removable) + s[rest + 1..]
  {
    assert s[..rest + 1][1..] == s[1..][..rest] && s[rest + 1..] == s[1..][rest..];
    if s[0].path in removable {
      assert Stuck(s[..rest + 1], removable) == Stuck(s[1..][..rest], removable);
    }
  }

  lemma {:induction false} StuckMembers(s: seq<Entry>, removable: set<string>, e: Entry)
    ensures e in Stuck(s, removable) <==> e in s && e.path !in removable
  {
    if s != [] { StuckMembers(s[1..], removable, e); }
  }

  /** Of the entries the pass looks at, what is left fits the budget, or consists of entries whose removal failed. */
  lemma BudgetPassFitsOrStuck(s: seq<Entry>, maxBytes: int, removable: set<string>)
    ensures var kept := Kept(s, Total(s), maxBytes, removable);
      Total(kept) <= maxBytes || forall e :: e in kept ==> e.path !in removable
  {
    var kept := Kept(s, Total(s), maxBytes, removable);
    var k := BudgetPassIsShortest(s, 0, maxBytes, removable);
    TotalAppend(Stuck(s[..k], removable), s[k..]);
    if k == |s| {
      assert s[..k] == s && kept == Stuck(s, removable);
      forall e | e in kept ensures e.path !in removable { StuckMembers(s, removable, e); }
    }
  }

  /** No kept entry that could have been removed is older than a removed one. */
  lemma BudgetPassTakesOldestFirst(s: seq<Entry>, maxBytes: int, removable: set<string>, gone: Entry, left: Entry)
    requires Sorted(Older, s)
    requires gone in s && gone !in Kept(s, Total(s), maxBytes, removable)
    requires left in Kept(s, Total(s), maxBytes, removable) && left.path in removable
    ensures gone.modTime <= left.modTime
  {
    var k := BudgetPassIsShortest(s, 0, maxBytes, removable);
    assert s == s[..k] + s[k..];
    assert gone in s[..k];
    StuckMembers(s[..k], removable, left);
    assert left in s[k..];
    var i :| 0 <= i < k && s[i] == gone;
    var j :| 0 <= j < |s[k..]| && s[k..][j] == left;
    assert s[k + j] == left && Older(s[i], s[k + j]);
  }

  /** Entries of one directory, each path once. */
  ghost predicate OnePerPath(s: seq<Entry>) {
    NoRepeats(s) && forall a, b :: a in s && b in s && a.path == b.path ==> a == b
  }

  lemma StuckOneMore(s: seq<Entry>, i: nat, removable: set<string>)
    requires i < |s|
    ensures Stuck(s[..i + 1], removable) == Stuck(s[..i], removable) + if s[i].path in removable then [] else [s[i]]
  {
    assert s[..i + 1] == s[..i] + [s[i]];
    StuckAppend(s[..i], [s[i]], removable);
    assert [s[i]][1..] == [];
  }

  lemma {:induction false} StuckAppend(s: seq<Entry>, t: seq<Entry>, removable: set<string>)
    ensures Stuck(s + t, removable) == Stuck(s, removable) + Stuck(t, removable)
  {
    if s == [] {
      assert s + t == t;
    } else {
      assert (s + t)[1..] == s[1..] + t;
      StuckAppend(s[1..], t, removable);
    }
  }

  /** Paths of the entries the budget pass removed. */
  ghost function Gone(s: seq<Entry>, kept: seq<Entry>): set<string> {
    set e | e in s && e !in kept :: e.path
  }

  /** Removable entries of a tried prefix. */
  function Taken(s: seq<Entry>, i: nat, removable: set<string>): set<string>
    requires i <= |s|
  {
    set e | e in s[..i] && e.path in removable :: e.path
  }

  lemma TakenIsGone(s: seq<Entry>, i: nat, removable: set<string>)
    requires i <= |s| && OnePerPath(s)
    ensures Taken(s, i, removable) == Gone(s, Stuck(s[..i], removable) + s[i..])
  {
    var kept := Stuck(s[..i], removable) + s[i..];
    assert s == s[..i] + s[i..];
    forall e | e in s ensures e !in kept <==> e in s[..i] && e.path in removable {
      StuckMembers(s[..i], removable, e);
      if e in s[..i] {
        var j :| 0 <= j < i && s[j] == e;
        assert forall m :: 0 <= m < |s[i..]| ==> s[i..][m] == s[i + m] != s[j];
      }
    }
  }

  /** The unexpired entries, in an order in which the budget pass may look at them. */
  ghost predicate SweepOrder(files: Files, order: seq<Entry>, now: int, ttl: int, maxBytes: int) {
    && OnePerPath(order)
    && (forall e :: e in order <==> e.path in files && files[e.path] == e && !ExpiredAt(e, now, ttl))
    && (Total(order) > maxBytes ==> Sorted(Older, order))
  }

  /**
   The directory after a sweep: the expired entries that could be removed are gone, and
   what the budget pass removed.
   */
  ghost function AfterSweep(files: Files, order: seq<Entry>, now: int, ttl: int, maxBytes: int,
        removable: set<string>): Files
  {
    var expired := set p | p in files && ExpiredAt(files[p], now, ttl) && p in removable;
    files - expired - Gone(order, Kept(order, Total(order), maxBytes, removable))
  }

  class DiskCache {
    const maxBytes: int
    const ttl: int
    var files: Files

    constructor (maxBytes: int, ttl: int)
      ensures this.maxBytes == maxBytes && this.ttl == ttl && files == map[]
    {
      this.maxBytes, this.ttl, files := maxBytes, ttl, map[];
    }

    ghost predicate Valid()
      reads this
    {
      forall p :: p in files ==> files[p].path == p
    }

    /** The directory walk: expired entries go where removal succeeds; the others are collected. */
    method RemoveExpired(now: int, removable: set<string>) returns (entries: seq<Entry>, total: nat)
      requires Valid()
      modifies this
      ensures Valid() && total == Total(entries)
      ensures files == map p | p in old(files) &&
        !(ExpiredAt(old(files)[p], now, ttl) && p in removable) :: old(files)[p]
      ensures forall e :: e in entries <==> e.path in old(files) && old(files)[e.path] == e && !ExpiredAt(e, now, ttl)
      ensures OnePerPath(entries)
    {
      entries, total := [], 0;
      var todo := files.Keys;
      while todo != {}
        invariant todo <= old(files).Keys && total == Total(entries)
        invariant files == map p | p in old(files) &&
          (p in todo || !(ExpiredAt(old(files)[p], now, ttl) && p in removable)) :: old(files)[p]
        invariant forall e :: e in entries <==>
          e.path in old(files).Keys - todo && old(files)[e.path] == e && !ExpiredAt(e, now, ttl)
        invariant OnePerPath(entries)
      {
        var path :| path in todo;
        todo := todo - {path};
        var e := files[path];
        if ExpiredAt(e, now, ttl) {
          if path in removable { files := files - {path}; }
        } else {
          TotalAppend(entries, [e]);
          assert [e][1..] == [];
          entries := entries + [e];
          total := total + e.size;
        }
      }
    }

    /** The budget pass over the collected entries, oldest first. */
    method RemoveOldest(entries: seq<Entry>, total: nat, removable: set<string>) returns (ghost order: seq<Entry>)
      requires total == Total(entries) && OnePerPath(entries)
      modifies this
      ensures multiset(order) == multiset(entries) && OnePerPath(order) && (total > maxBytes ==> Sorted(Older, order))
      ensures files == old(files) - Gone(order, Kept(order, total, maxBytes, removable))
    {
      order := entries;
      if total <= maxBytes {
        assert Gone(order, order) == {} && files - {} == files;
        return;
      }
      var sorted := Sort(Older, entries);
      order := sorted;
      Rearranged(sorted, entries);
      SameTotal(sorted, entries);
      RemoveUntilFits(sorted, total, removable);
    }

    /** The loop over the sorted entries. */
    method RemoveUntilFits(sorted: seq<Entry>, total: nat, removable: set<string>)
      requires total == Total(sorted) && OnePerPath(sorted)
      modifies this
      ensures files == old(files) - Gone(sorted, Kept(sorted, total, maxBytes, removable))
    {
      var left: int := total;
      var i := 0;
      assert Taken(sorted, 0, removable) == {} && files - {} == files;
      assert sorted[..0] == [] && sorted[0..] == sorted;
      while i < |sorted| && left > maxBytes
        invariant 0 <= i <= |sorted| && left == Load(sorted, removable, i)
        invariant forall j: nat :: j < i ==> Load(sorted, removable, j) > maxBytes
        invariant files == old(files) - Taken(sorted, i, removable)
      {
        LoadOneMore(sorted, removable, i);
        TakenOneMore(sorted, i, removable);
        var e := sorted[i];
        if e.path in removable {
          files := files - {e.path};
          left := left - e.size;
        }
        assert files == old(files) - Taken(sorted, i + 1, removable);
        i := i + 1;
      }
      StopsAtPrefix(sorted, maxBytes, removable, i);
      TakenIsGone(sorted, i, removable);
    }

    /** One sweep. `order` is the order in which the budget pass looks at the unexpired entries. */
    method SweepOnce(now: int, removable: set<string>) returns (ghost order: seq<Entry>)
      requires Valid()
      modifies this
      ensures Valid() && SweepOrder(old(files), order, now, ttl, maxBytes)
      ensures files == AfterSweep(old(files), order, now, ttl, maxBytes, removable)
    {
      var entries, total := RemoveExpired(now, removable);
      order := RemoveOldest(entries, total, removable);
      Rearranged(order, entries);
      SameTotal(order, entries);
    }
  }

  lemma TakenOneMore(s: seq<Entry>, i: nat, removable: set<string>)
    requires i < |s|
    ensures Taken(s, i + 1, removable) == Taken(s, i, removable) + if s[i].path in removable then {s[i].path} else {}
  {
    assert s[..i + 1] == s[..i] + [s[i]];
  }

  lemma LoadOneMore(s: seq<Entry>, removable: set<string>, i: nat)
    requires i < |s|
    ensures Load(s, removable, i + 1) == Load(s, removable, i) - if s[i].path in removable then s[i].size else 0
  {
    var stuck := Stuck(s[..i], removable);
    StuckOneMore(s, i, removable);
    TotalAppend(stuck, [s[i]]);
    assert [s[i]][1..] == [] && s[i..][1..] == s[i + 1..] && stuck + [] == stuck;
  }

  /** The pass that stops at the first prefix after which the rest fits is the budget pass. */
  lemma StopsAtPrefix(s: seq<Entry>, maxBytes: int, removable: set<string>, i: nat)
    requires i <= |s| && (i == |s| || Load(s, removable, i) <= maxBytes)
    requires forall j: nat :: j < i ==> Load(s, removable, j) > maxBytes
    ensures Kept(s, Total(s), maxBytes, removable) == Stuck(s[..i], removable) + s[i..]
  {
    var k := BudgetPassIsShortest(s, 0, maxBytes, removable);
    assert i <= k && k <= i;
  }

  lemma TotalRemove(t: seq<Entry>, j: nat)
    requires j < |t|
    ensures Total(t) == t[j].size + Total(RemoveAt(t, j))
  {
    assert t == t[..j] + t[j..] && t[j..][1..] == t[j + 1..];
    TotalAppend(t[..j], t[j..]);
    TotalAppend(t[..j], t[j + 1..]);
  }

  lemma {:induction false} SameTotal(s: seq<Entry>, t: seq<Entry>)
    requires multiset(s) == multiset(t)
    ensures Total(s) == Total(t)
  {
    if s == [] {
      RearrangedEmpty(s, t);
    } else {
      var j := MatchHead(s, t);
      TotalRemove(t, j);
      SameTotal(s[1..], RemoveAt(t, j));
    }
  }
}
