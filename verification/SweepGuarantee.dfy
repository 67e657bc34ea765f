/**
 What a sweep guarantees about the whole cache directory. An expired entry whose
 removal fails stays there, but the budget pass does not count it.
 */
module SweepGuarantee {
  import opened Common
  import opened Sorting
  import opened DiskSweep

  // ----- the size of a directory -----

  ghost predicate WellNamed(files: Files) {
    forall p :: p in files ==> files[p].path == p
  }

  /** s lists every file of the directory once. */
  ghost predicate Lists(files: Files, s: seq<Entry>) {
    OnePerPath(s) && forall e :: e in s <==> e.path in files && files[e.path] == e
  }

  lemma ListingExists(files: Files) returns (s: seq<Entry>)
    requires WellNamed(files)
    ensures Lists(files, s)
    decreases |files|
  {
    if files == map[] {
      s := [];
    } else {
      var p :| p in files;
      var rest := ListingExists(files - {p});
      ListsOneMore(files, p, rest);
      s := [files[p]] + rest;
    }
  }

  lemma ListsOneMore(files: Files, p: string, rest: seq<Entry>)
    requires WellNamed(files) && p in files && Lists(files - {p}, rest)
    ensures Lists(files, [files[p]] + rest)
  {
    var s := [files[p]] + rest;
    forall e ensures e in s <==> e.path in files && files[e.path] == e {
      assert e in s <==> e == files[p] || e in rest;
    }
    assert files[p] !in rest;
    forall i, j | 0 <= i < j < |s| ensures s[i] != s[j] {
      if i > 0 { assert rest[i - 1] != rest[j - 1]; } else { assert s[j] in rest; }
    }
  }

  ghost function DirectoryBytes(files: Files): nat
    requires WellNamed(files)
  {
    var s := Listing(files);
    Total(s)
  }

  ghost function Listing(files: Files): (s: seq<Entry>)
    requires WellNamed(files)
    ensures Lists(files, s)
  {
    assert exists s :: Lists(files, s) by { var s := ListingExists(files); }
    var s :| Lists(files, s);
    s
  }

  /** Any listing adds up to the size of the directory. */
  lemma BytesOfListing(files: Files, s: seq<Entry>)
    requires WellNamed(files) && Lists(files, s)
    ensures Total(s) == DirectoryBytes(files)
  {
    SameEntries(s, Listing(files));
    SameTotal(s, Listing(files));
  }

  lemma SameEntries(s: seq<Entry>, t: seq<Entry>)
    requires NoRepeats(s) && NoRepeats(t) && forall e :: e in s <==> e in t
    ensures multiset(s) == multiset(t)
  {
    NoRepeatsCounts(s);
    NoRepeatsCounts(t);
    forall e ensures multiset(s)[e] == multiset(t)[e] {
      assert multiset(s)[e] <= 1 && multiset(t)[e] <= 1;
      assert e in s <==> e in multiset(s);
      assert e in t <==> e in multiset(t);
    }
  }

  // ----- what a sweep leaves -----

  /** The expired files whose removal fails. */
  function StuckExpired(files: Files, now: int, ttl: int, removable: set<string>): Files {
    map p | p in files && ExpiredAt(files[p], now, ttl) && p !in removable :: files[p]
  }

  lemma {:induction false} KeptMembers(s: seq<Entry>, total: int, maxBytes: int, removable: set<string>, e: Entry)
    requires e in Kept(s, total, maxBytes, removable)
    ensures e in s
  {
    if s != [] && total > maxBytes && e !in [s[0]] {
      KeptMembers(s[1..], if s[0].path in removable then total - s[0].size else total, maxBytes, removable, e);
    }
  }

  lemma {:induction false} KeptNoRepeats(s: seq<Entry>, total: int, maxBytes: int, removable: set<string>)
    requires NoRepeats(s)
    ensures NoRepeats(Kept(s, total, maxBytes, removable))
  {
    if s != [] && total > maxBytes {
      var left := if s[0].path in removable then total - s[0].size else total;
      var rest := Kept(s[1..], left, maxBytes, removable);
      assert NoRepeats(s[1..]) by {
        forall i, j | 0 <= i < j < |s[1..]| ensures s[1..][i] != s[1..][j] { assert s[i + 1] != s[j + 1]; }
      }
      KeptNoRepeats(s[1..], left, maxBytes, removable);
      forall j | 0 <= j < |rest| ensures rest[j] != s[0] {
        KeptMembers(s[1..], left, maxBytes, removable, rest[j]);
        var k :| 0 <= k < |s[1..]| && s[1..][k] == rest[j];
        assert s[0] != s[k + 1];
      }
    }
  }

  /** After a sweep the directory holds the expired files that could not be removed and what the budget pass kept. */
  lemma LeftAfterSweep(files: Files, order: seq<Entry>, now: int, ttl: int, maxBytes: int, removable: set<string>)
    requires WellNamed(files) && SweepOrder(files, order, now, ttl, maxBytes)
    ensures var kept := Kept(order, Total(order), maxBytes, removable);
      Lists(AfterSweep(files, order, now, ttl, maxBytes, removable),
        Listing(StuckExpired(files, now, ttl, removable)) + kept)
  {
    var kept := Kept(order, Total(order), maxBytes, removable);
    var stuck, after :=
      StuckExpired(files, now, ttl, removable), AfterSweep(files, order, now, ttl, maxBytes, removable);
    var s := Listing(stuck) + kept;
    KeptNoRepeats(order, Total(order), maxBytes, removable);
    forall e | e in kept ensures e in order { KeptMembers(order, Total(order), maxBytes, removable, e); }
    forall e ensures e in s <==> e.path in after && after[e.path] == e {
      assert e in s <==> e in Listing(stuck) || e in kept;
      GoneMeans(files, order, kept, now, ttl, maxBytes, e);
    }
    assert NoRepeats(s) by {
      forall i, j | 0 <= i < j < |s| ensures s[i] != s[j] {
        if j < |Listing(stuck)| { assert Listing(stuck)[i] != Listing(stuck)[j]; }
        else if i >= |Listing(stuck)| { assert kept[i - |Listing(stuck)|] != kept[j - |Listing(stuck)|]; }
        else { assert s[i] in Listing(stuck) && s[j] in kept; }
      }
    }
  }

  /** An unexpired file is gone exactly when the budget pass did not keep it. */
  lemma GoneMeans(files: Files, order: seq<Entry>, kept: seq<Entry>, now: int, ttl: int, maxBytes: int, e: Entry)
    requires WellNamed(files) && SweepOrder(files, order, now, ttl, maxBytes)
    requires forall x :: x in kept ==> x in order
    ensures e.path in files && files[e.path] == e ==>
      (e.path in Gone(order, kept) <==> !ExpiredAt(e, now, ttl) && e !in kept)
  {
    if e.path in Gone(order, kept) && e.path in files {
      var x :| x in order && x !in kept && x.path == e.path;
      assert files[x.path] == x;
    }
  }

  /** Last touched more than the idle limit ago, when there is one. */
  predicate TooOld(e: Entry, now: int, ttl: int) {
    ttl > 0 && now - e.modTime > ttl
  }

  lemma StuckIsKept(s: seq<Entry>, maxBytes: int, removable: set<string>, e: Entry)
    requires e in s && e.path !in removable
    ensures e in Kept(s, Total(s), maxBytes, removable)
  {
    var k := BudgetPassIsShortest(s, 0, maxBytes, removable);
    assert s == s[..k] + s[k..];
    if e in s[..k] { StuckMembers(s[..k], removable, e); }
  }

  /**
   Every file of the directory, told by its own entry: a sweep changes none, removes only
   what can be removed, and of that everything too old; of the rest it removes nothing while
   they fit the budget, and otherwise none that is younger than a removable one it leaves.
   */
  lemma SweepMeans(files: Files, order: seq<Entry>, now: int, ttl: int, maxBytes: int, removable: set<string>)
    requires WellNamed(files) && SweepOrder(files, order, now, ttl, maxBytes)
    ensures var after := AfterSweep(files, order, now, ttl, maxBytes, removable);
      && (forall p :: p in after ==> p in files && after[p] == files[p])
      && (forall p :: p in files && p !in removable ==> p in after)
      && (forall p :: p in files && p in removable && TooOld(files[p], now, ttl) ==> p !in after)
      && (Total(order) <= maxBytes ==> forall p :: p in files && !TooOld(files[p], now, ttl) ==> p in after)
      && (forall p, q :: p in files && p !in after && !TooOld(files[p], now, ttl) && q in after && q in removable ==>
            files[p].modTime <= files[q].modTime)
    ensures forall e :: e in order <==> e.path in files && files[e.path] == e && !TooOld(e, now, ttl)
  {
    var after := AfterSweep(files, order, now, ttl, maxBytes, removable);
    var kept := Kept(order, Total(order), maxBytes, removable);
    forall e | e in kept ensures e in order { KeptMembers(order, Total(order), maxBytes, removable, e); }
    forall p | p in files
      ensures p in after <==> if TooOld(files[p], now, ttl) then p !in removable else files[p] in kept
    {
      GoneMeans(files, order, kept, now, ttl, maxBytes, files[p]);
    }
    forall p | p in files && p !in removable && !TooOld(files[p], now, ttl) ensures files[p] in kept {
      StuckIsKept(order, maxBytes, removable, files[p]);
    }
    forall p, q | p in files && p !in after && !TooOld(files[p], now, ttl) && q in after && q in removable
      ensures files[p].modTime <= files[q].modTime
    {
      BudgetPassTakesOldestFirst(order, maxBytes, removable, files[p], files[q]);
    }
  }

  // ----- the guarantee -----

  /** The directory fits the budget, or nothing in it could be removed. */
  ghost predicate FitsOrStuck(files: Files, maxBytes: int, removable: set<string>)
    requires WellNamed(files)
  {
    DirectoryBytes(files) <= maxBytes || forall p :: p in files ==> p !in removable
  }

  /**
   Every sweep leaves the directory within the budget plus the expired bytes it could not
   remove, or with nothing removable.
   */
  lemma SweepFitsUpToStuckExpired(files: Files, order: seq<Entry>, now: int, ttl: int, maxBytes: int,
        removable: set<string>)
    requires WellNamed(files) && SweepOrder(files, order, now, ttl, maxBytes)
    ensures var after := AfterSweep(files, order, now, ttl, maxBytes, removable);
      FitsOrStuck(after, maxBytes + DirectoryBytes(StuckExpired(files, now, ttl, removable)), removable)
  {
    var kept := Kept(order, Total(order), maxBytes, removable);
    var stuck, after :=
      StuckExpired(files, now, ttl, removable), AfterSweep(files, order, now, ttl, maxBytes, removable);
    LeftAfterSweep(files, order, now, ttl, maxBytes, removable);
    BytesOfListing(after, Listing(stuck) + kept);
    TotalAppend(Listing(stuck), kept);
    BudgetPassFitsOrStuck(order, maxBytes, removable);
    if Total(kept) > maxBytes {
      forall p | p in after ensures p !in removable {
        assert after[p] in Listing(stuck) + kept;
        if after[p] in Listing(stuck) { assert p in stuck; }
      }
    }
  }

  /** Some expired file that takes up space cannot be removed. */
  predicate ExpiredStays(files: Files, now: int, ttl: int, removable: set<string>) {
    exists p :: p in files && ExpiredAt(files[p], now, ttl) && p !in removable && files[p].size > 0
  }

  /** Some unexpired file could be removed. */
  predicate UnexpiredRemovable(files: Files, now: int, ttl: int, removable: set<string>) {
    exists p :: p in files && !ExpiredAt(files[p], now, ttl) && p in removable
  }

  /**
   Under every budget the sweep leaves a directory that fits it, or in which nothing
   could be removed, if and only if no expired file that takes up space fails to go
   or no unexpired file could go.
   */
  lemma SweepFitsOrStuckIff(files: Files, now: int, ttl: int, removable: set<string>)
    requires WellNamed(files)
    ensures (forall maxBytes: int, order :: 0 <= maxBytes && SweepOrder(files, order, now, ttl, maxBytes)
              ==> FitsOrStuck(AfterSweep(files, order, now, ttl, maxBytes, removable), maxBytes, removable))
      <==> !(ExpiredStays(files, now, ttl, removable) && UnexpiredRemovable(files, now, ttl, removable))
  {
    if ExpiredStays(files, now, ttl, removable) && UnexpiredRemovable(files, now, ttl, removable) {
      var order := SweepCanOverrun(files, now, ttl, removable);
    } else {
      forall maxBytes: int, order | 0 <= maxBytes && SweepOrder(files, order, now, ttl, maxBytes)
        ensures FitsOrStuck(AfterSweep(files, order, now, ttl, maxBytes, removable), maxBytes, removable)
      {
        SweepFits(files, order, now, ttl, maxBytes, removable);
      }
    }
  }

  lemma SweepFits(files: Files, order: seq<Entry>, now: int, ttl: int, maxBytes: int, removable: set<string>)
    requires WellNamed(files) && SweepOrder(files, order, now, ttl, maxBytes)
    requires !(ExpiredStays(files, now, ttl, removable) && UnexpiredRemovable(files, now, ttl, removable))
    ensures FitsOrStuck(AfterSweep(files, order, now, ttl, maxBytes, removable), maxBytes, removable)
  {
    var stuck, after :=
      StuckExpired(files, now, ttl, removable), AfterSweep(files, order, now, ttl, maxBytes, removable);
    SweepFitsUpToStuckExpired(files, order, now, ttl, maxBytes, removable);
    if !ExpiredStays(files, now, ttl, removable) {
      forall e | e in Listing(stuck) ensures e.size == 0 { assert e.path in files && files[e.path] == e; }
      EmptyEntries(Listing(stuck));
    } else {
      forall p | p in after ensures p !in removable {}
    }
  }

  lemma {:induction false} EmptyEntries(s: seq<Entry>)
    requires forall e :: e in s ==> e.size == 0
    ensures Total(s) == 0
  {
    if s != [] { EmptyEntries(s[1..]); }
  }

  lemma {:induction false} TotalAtLeast(s: seq<Entry>, e: Entry)
    requires e in s
    ensures e.size <= Total(s)
  {
    if s[0] != e { TotalAtLeast(s[1..], e); }
  }

  /**
   With a budget that just holds the unexpired files the budget pass does nothing, and
   the stuck expired file is too much.
   */
  lemma SweepCanOverrun(files: Files, now: int, ttl: int, removable: set<string>) returns (order: seq<Entry>)
    requires WellNamed(files) && ExpiredStays(files, now, ttl, removable)
    requires UnexpiredRemovable(files, now, ttl, removable)
    ensures SweepOrder(files, order, now, ttl, Total(order))
    ensures !FitsOrStuck(AfterSweep(files, order, now, ttl, Total(order), removable), Total(order), removable)
  {
    order := ListingExists(map p | p in files && !ExpiredAt(files[p], now, ttl) :: files[p]);
    assert SweepOrder(files, order, now, ttl, Total(order));
    var p :| p in files && ExpiredAt(files[p], now, ttl) && p !in removable && files[p].size > 0;
    var q :| q in files && !ExpiredAt(files[q], now, ttl) && q in removable;
    NothingForTheBudget(files, order, now, ttl, removable, p, q);
  }

  lemma NothingForTheBudget(files: Files, order: seq<Entry>, now: int, ttl: int, removable: set<string>, p: string,
        q: string)
    requires WellNamed(files) && SweepOrder(files, order, now, ttl, Total(order))
    requires p in files && ExpiredAt(files[p], now, ttl) && p !in removable && files[p].size > 0
    requires q in files && !ExpiredAt(files[q], now, ttl) && q in removable
    ensures var after := AfterSweep(files, order, now, ttl, Total(order), removable);
      WellNamed(after) && q in after && DirectoryBytes(after) > Total(order)
  {
    var budget := Total(order);
    var stuck, after := StuckExpired(files, now, ttl, removable), AfterSweep(files, order, now, ttl, budget, removable);
    assert Kept(order, budget, budget, removable) == order;
    LeftAfterSweep(files, order, now, ttl, budget, removable);
    BytesOfListing(after, Listing(stuck) + order);
    TotalAppend(Listing(stuck), order);
    assert stuck[p] == files[p];
    TotalAtLeast(Listing(stuck), files[p]);
    assert files[q] in order;
    assert files[q] in Listing(stuck) + order;
  }

  // ----- one such directory -----

  const OLD_FILE := Entry("old", 0, 10)
  const YOUNG_FILE := Entry("young", 90, 5)
  const TWO_FILES: Files := map["old" := OLD_FILE, "young" := YOUNG_FILE]

  /** With a budget of 7 bytes, 15 bytes stay, although the unexpired file could have been removed. */
  lemma SweepLeavesTooMuch()
    ensures WellNamed(TWO_FILES) && SweepOrder(TWO_FILES, [YOUNG_FILE], 100, 50, 7)
    ensures AfterSweep(TWO_FILES, [YOUNG_FILE], 100, 50, 7, {"young"}) == TWO_FILES
    ensures DirectoryBytes(TWO_FILES) == 15 && !FitsOrStuck(TWO_FILES, 7, {"young"})
  {
    var listing := [OLD_FILE, YOUNG_FILE];
    assert Total([YOUNG_FILE]) == 5 by { assert [YOUNG_FILE][1..] == []; }
    assert Total(listing) == 15 by { assert listing[1..] == [YOUNG_FILE]; }
    assert Lists(TWO_FILES, listing);
    BytesOfListing(TWO_FILES, listing);
    assert "young" in TWO_FILES && "young" in {"young"};
  }
}
