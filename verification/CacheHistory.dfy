/**
 What the in-memory cache remembers, told from the history of its operations alone:
 no list, no eviction, no removal. A key is remembered until it has been idle for
 too long, or until the distinct keys used since its last use, together with its own
 data, have exceeded the budget at some Put.
 */
module CacheHistory {
  import opened Common
  import opened RecencyCache

  datatype Limits = Limits(maxBytes: int, ttl: int)

  /** The last event uses the key: a Put that fits the budget, or a Get of a remembered key. */
  predicate Uses(l: Limits, events: seq<Event>, key: string)
    requires events != []
    decreases |events|, 0
  {
    var n := |events| - 1;
    match events[n].op
    case DoPut(k, data) => k == key && |data| <= l.maxBytes
    case DoGet(k) => k == key && Remembered(l, events[..n], key, events[n].now)
  }

  /** When the key was last used. */
  function LastUsed(l: Limits, events: seq<Event>, key: string): Option<int>
    decreases |events|, 1
  {
    if events == [] then None
    else if Uses(l, events, key) then Some(events[|events| - 1].now)
    else LastUsed(l, events[..|events| - 1], key)
  }

  /** The distinct keys used since the key's last use, the latest first, each with its last accepted data. */
  function UsedSince(l: Limits, events: seq<Event>, key: string): Recency
    decreases |events|, 2
  {
    if events == [] || Uses(l, events, key) then []
    else
      var n := |events| - 1;
      var k := events[n].op.key;
      var before := UsedSince(l, events[..n], key);
      if Uses(l, events, k)
        then [Entry(k, LastPut(events, k, l.maxBytes).GetOr([]), events[n].now)] + Without(before, k)
      else before
  }

  /** At every accepted Put since the key's last use there was room for it behind everything used since. */
  predicate Fits(l: Limits, events: seq<Event>, key: string)
    decreases |events|, 4
  {
    if events == [] then false
    else if Uses(l, events, key) then true
    else
      && Fits(l, events[..|events| - 1], key)
      && (StoresAnother(l, events) ==> Room(l, events, key))
  }

  /** The key's data and everything used since fit the budget together. */
  predicate Room(l: Limits, events: seq<Event>, key: string)
    decreases |events|, 3
  {
    Total(UsedSince(l, events, key)) + |LastPut(events, key, l.maxBytes).GetOr([])| <= l.maxBytes
  }

  predicate StoresAnother(l: Limits, events: seq<Event>)
    requires events != []
  {
    var op := events[|events| - 1].op;
    op.DoPut? && |op.data| <= l.maxBytes
  }

  predicate IdleFor(l: Limits, since: int, now: int) {
    l.ttl > 0 && now - since > l.ttl
  }

  predicate Remembered(l: Limits, events: seq<Event>, key: string, now: int)
    decreases |events|, 5
  {
    var used := LastUsed(l, events, key);
    used.Some? && !IdleFor(l, used.value, now) && Fits(l, events, key)
  }

  predicate UsesAt(l: Limits, events: seq<Event>, key: string, j: nat)
    requires j < |events|
  {
    Uses(l, events[..j + 1], key)
  }

  /** If the event stores something, there was room for the key behind it. */
  predicate RoomAt(l: Limits, events: seq<Event>, key: string, j: nat)
    requires j < |events|
  {
    StoresAnother(l, events[..j + 1]) ==> Room(l, events[..j + 1], key)
  }

  ghost predicate FitsFrom(l: Limits, events: seq<Event>, key: string, u: nat)
    requires u < |events|
  {
    UsesAt(l, events, key, u) && forall j: nat :: u < j < |events| ==>
      !UsesAt(l, events, key, j) && RoomAt(l, events, key, j)
  }

  /** Told by positions: there is a last use, and every later Put that stored something left room. */
  lemma {:induction false} FitsMeans(l: Limits, events: seq<Event>, key: string)
    ensures Fits(l, events, key) <==> exists u: nat :: u < |events| && FitsFrom(l, events, key, u)
  {
    if events != [] {
      var n := |events| - 1;
      assert events[..n + 1] == events;
      FitsMeans(l, events[..n], key);
      if Uses(l, events, key) {
        assert FitsFrom(l, events, key, n);
      } else {
        forall u: nat | u < n
          ensures FitsFrom(l, events, key, u) <==>
            FitsFrom(l, events[..n], key, u) && (StoresAnother(l, events) ==> Room(l, events, key))
        {
          OnePositionMore(l, events, key, u);
        }
        assert !FitsFrom(l, events, key, n);
      }
    }
  }

  lemma OnePositionMore(l: Limits, events: seq<Event>, key: string, u: nat)
    requires u < |events| - 1 && !Uses(l, events, key)
    ensures FitsFrom(l, events, key, u)
      <==> FitsFrom(l, events[..|events| - 1], key, u) && (StoresAnother(l, events) ==> Room(l, events, key))
  {
    var n := |events| - 1;
    assert events[..n + 1] == events;
    assert RoomAt(l, events, key, n) == (StoresAnother(l, events) ==> Room(l, events, key));
    forall j: nat | j < n
      ensures UsesAt(l, events[..n], key, j) == UsesAt(l, events, key, j)
      ensures RoomAt(l, events[..n], key, j) == RoomAt(l, events, key, j)
    {
      assert events[..n][..j + 1] == events[..j + 1];
    }
  }

  // ----- prefixes of the recency list -----

  lemma {:induction false} TotalOfPrefix(c: Recency, m: nat, n: nat)
    requires m <= n <= |c|
    ensures Total(c[..m]) <= Total(c[..n])
  {
    if m > 0 {
      assert c[..m][1..] == c[1..][..m - 1] && c[..n][1..] == c[1..][..n - 1];
      TotalOfPrefix(c[1..], m - 1, n - 1);
    }
  }

  lemma {:induction false} TotalOfLonger(a: Recency, e: Entry)
    ensures Total(a + [e]) == Total(a) + |e.data|
  {
    if a == [] {
      assert a + [e] == [e] && [e][1..] == [];
    } else {
      assert (a + [e])[1..] == a[1..] + [e];
      TotalOfLonger(a[1..], e);
    }
  }

  /** The entry stands in the list right behind these. */
  predicate Behind(a: Recency, e: Entry, c: Recency) {
    a + [e] <= c
  }

  lemma BehindIsFound(a: Recency, e: Entry, c: Recency)
    requires Behind(a, e, c) && OneEntryPerKey(c)
    ensures Has(c, e.key) && Find(c, e.key) == e
  {
    assert c[|a|] == (a + [e])[|a|] == e;
  }

  lemma {:induction false} BehindWithout(a: Recency, e: Entry, c: Recency, k: string)
    requires Behind(a, e, c) && e.key != k
    ensures Behind(Without(a, k), e, Without(c, k))
  {
    assert c[0] == (a + [e])[0];
    if a == [] {
      assert Without(c, k)[0] == e;
    } else {
      assert (a + [e])[1..] == a[1..] + [e];
      assert Behind(a[1..], e, c[1..]);
      BehindWithout(a[1..], e, c[1..], k);
      var first: Recency := if c[0].key == k then [] else [c[0]];
      assert Without(a, k) + [e] == first + (Without(a[1..], k) + [e]);
      assert Without(c, k) == first + Without(c[1..], k);
    }
  }

  lemma BehindOneMore(first: Entry, a: Recency, e: Entry, c: Recency)
    requires Behind(a, e, c)
    ensures Behind([first] + a, e, [first] + c)
  {
    assert ([first] + a) + [e] == [first] + (a + [e]);
  }

  /** Eviction keeps an entry exactly when everything up to it fits. */
  lemma EvictsExactly(a: Recency, e: Entry, c: Recency, maxBytes: int)
    requires Behind(a, e, c) && OneEntryPerKey(c) && 0 <= maxBytes
    ensures if Total(a) + |e.data| <= maxBytes
      then Behind(a, e, Evict(c, maxBytes))
      else !Has(Evict(c, maxBytes), e.key)
  {
    var r, n := |Evict(c, maxBytes)|, |a| + 1;
    EvictKeepsLongestFittingPrefix(c, maxBytes);
    assert c[..n] == a + [e];
    TotalOfLonger(a, e);
    if Total(a) + |e.data| <= maxBytes {
      assert n <= r;
      assert c[..r][..n] == c[..n];
    } else {
      if n <= r { TotalOfPrefix(c, n, r); }
      assert c[|a|] == e;
      forall i | 0 <= i < r ensures c[..r][i].key != e.key { assert c[i].key != c[|a|].key; }
    }
  }

  // ----- the list agrees with the history -----

  /** What the list says about one key, as of the last event. */
  ghost predicate Agrees(l: Limits, c: Recency, events: seq<Event>, key: string) {
    var used, data := LastUsed(l, events, key), LastPut(events, key, l.maxBytes);
    && (used.Some? ==> data.Some?)
    && (Has(c, key) ==> used.Some? && Find(c, key) == Entry(key, data.value, used.value))
    && (events != [] && used.Some? && !IdleFor(l, used.value, events[|events| - 1].now) ==>
          if Fits(l, events, key) then Behind(UsedSince(l, events, key), Entry(key, data.value, used.value), c)
            else !Has(c, key))
  }

  /** The answer of a Get, from what the list and the history agree on. */
  lemma AnswerAgrees(l: Limits, c: Recency, events: seq<Event>, key: string, now: int)
    requires Agrees(l, c, events, key) && OneEntryPerKey(c) && (events != [] ==> events[|events| - 1].now <= now)
    ensures Lookup(c, key, now, l.ttl) ==
      if Remembered(l, events, key, now) then LastPut(events, key, l.maxBytes) else None
  {
    if Remembered(l, events, key, now) {
      var used, data := LastUsed(l, events, key).value, LastPut(events, key, l.maxBytes).value;
      BehindIsFound(UsedSince(l, events, key), Entry(key, data, used), c);
    }
  }

  lemma UnusedKeeps(l: Limits, events: seq<Event>, e: Event, key: string)
    requires !Uses(l, events + [e], key)
    ensures LastUsed(l, events + [e], key) == LastUsed(l, events, key)
    ensures LastPut(events + [e], key, l.maxBytes) == LastPut(events, key, l.maxBytes)
  {
    assert (events + [e])[..|events + [e]| - 1] == events;
  }

  /** An event that uses no key at all leaves every other part of the history's picture as it was. */
  lemma NothingUsed(l: Limits, events: seq<Event>, e: Event, key: string)
    requires !Uses(l, events + [e], e.op.key) && !Uses(l, events + [e], key)
    ensures UsedSince(l, events + [e], key) == UsedSince(l, events, key)
    ensures Fits(l, events + [e], key) == Fits(l, events, key)
  {
    assert (events + [e])[..|events + [e]| - 1] == events;
  }

  /** The event uses another key. */
  lemma AnotherUsed(l: Limits, events: seq<Event>, e: Event, key: string)
    requires Uses(l, events + [e], e.op.key) && key != e.op.key
    ensures var more := events + [e]; var k := e.op.key;
      && !Uses(l, more, key)
      && UsedSince(l, more, key) ==
        [Entry(k, LastPut(more, k, l.maxBytes).GetOr([]), e.now)] + Without(UsedSince(l, events, key), k)
      && (e.op.DoGet? ==> Fits(l, more, key) == Fits(l, events, key))
      && (e.op.DoPut? ==> Fits(l, more, key) == (Fits(l, events, key) && Room(l, more, key)))
  {
    assert (events + [e])[..|events + [e]| - 1] == events;
  }

  lemma OwnUse(l: Limits, events: seq<Event>, e: Event)
    requires Uses(l, events + [e], e.op.key)
    ensures var more := events + [e]; var k := e.op.key;
      && LastUsed(l, more, k) == Some(e.now) && UsedSince(l, more, k) == [] && Fits(l, more, k)
      && LastPut(more, k, l.maxBytes) == (if e.op.DoPut? then Some(e.op.data) else LastPut(events, k, l.maxBytes))
  {
    assert (events + [e])[..|events + [e]| - 1] == events;
  }

  // ----- each operation keeps the agreement -----

  lemma FindWithout(c: Recency, k: string, key: string)
    requires OneEntryPerKey(c) && key != k
    ensures Has(Without(c, k), key) <==> Has(c, key)
    ensures Has(c, key) ==> Find(Without(c, k), key) == Find(c, key)
  {
    var d := Without(c, k);
    if Has(c, key) {
      WithoutMembers(c, k, Find(c, key));
      var i :| 0 <= i < |d| && d[i] == Find(c, key);
      assert Has(d, key);
      WithoutMembers(c, k, Find(d, key));
      OneEntry(c, Find(d, key), Find(c, key));
    }
    if Has(d, key) {
      WithoutMembers(c, k, Find(d, key));
      var i :| 0 <= i < |c| && c[i] == Find(d, key);
    }
  }

  lemma OneEntry(c: Recency, x: Entry, y: Entry)
    requires OneEntryPerKey(c) && x in c && y in c && x.key == y.key
    ensures x == y
  {
  }

  lemma KeysDiffer(c: Recency, x: Entry, y: Entry)
    requires OneEntryPerKey(c) && x in c && y in c && x != y
    ensures x.key != y.key
  {
  }

  lemma FindInFront(e: Entry, c: Recency, key: string)
    requires key != e.key
    ensures Has([e] + c, key) <==> Has(c, key)
    ensures Has(c, key) ==> Find([e] + c, key) == Find(c, key)
  {
    var d := [e] + c;
    assert d[1..] == c;
    if Has(c, key) {
      var i :| 0 <= i < |c| && c[i].key == key;
      assert d[i + 1].key == key;
    }
    if Has(d, key) {
      var i :| 0 <= i < |d| && d[i].key == key;
      assert c[i - 1].key == key;
    }
  }

  lemma FindInPrefix(c: Recency, n: nat, key: string)
    requires n <= |c| && OneEntryPerKey(c) && Has(c[..n], key)
    ensures Has(c, key) && Find(c, key) == Find(c[..n], key)
  {
    var e := Find(c[..n], key);
    var i :| 0 <= i < n && c[i] == e;
    OneEntry(c, e, Find(c, key));
  }

  /** An entry more recently used than one that is not idle is not idle either, so a dropped key stood behind it. */
  lemma IdleStandsBehind(l: Limits, a: Recency, e: Entry, c: Recency, k: string, now: int)
    requires Behind(a, e, c) && OneEntryPerKey(c) && MostRecentFirst(c)
    requires Has(c, k) && Idle(Find(c, k), now, l.ttl) && !IdleFor(l, e.modTime, now)
    ensures Without(a, k) == a
  {
    forall i | 0 <= i < |a| ensures a[i].key != k {
      assert c[i] == (a + [e])[i] == a[i] && c[|a|] == (a + [e])[|a|] == e;
      assert c[i].modTime >= c[|a|].modTime;
      assert c[i] != Find(c, k);
      assert c[i] in c && c[i].key != k by { KeysDiffer(c, c[i], Find(c, k)); }
    }
    NothingToRemove(a, k);
  }

  ghost predicate Ready(l: Limits, c: Recency, events: seq<Event>, e: Event) {
    && 0 <= l.maxBytes && Sound(c, events, l.maxBytes)
    && (events != [] ==> events[|events| - 1].now <= e.now)
    && Agrees(l, c, events, e.op.key)
  }

  /** Nothing used, nothing changed. */
  lemma SameListAgrees(l: Limits, c: Recency, events: seq<Event>, e: Event, key: string)
    requires Ready(l, c, events, e) && Agrees(l, c, events, key)
    requires !Uses(l, events + [e], e.op.key)
    ensures Agrees(l, c, events + [e], key)
  {
    OnlyItsKey(l, events, e, key);
    UnusedKeeps(l, events, e, key);
    NothingUsed(l, events, e, key);
  }

  lemma OnlyItsKey(l: Limits, events: seq<Event>, e: Event, key: string)
    requires Uses(l, events + [e], key) || !Uses(l, events + [e], e.op.key)
    ensures Uses(l, events + [e], key) ==> key == e.op.key
    ensures !Uses(l, events + [e], e.op.key) ==> !Uses(l, events + [e], key)
  {
  }

  /** A Get that finds its key idle drops it. */
  lemma IdleDropAgrees(l: Limits, c: Recency, events: seq<Event>, k: string, now: int, key: string)
    requires Ready(l, c, events, Event(DoGet(k), now)) && Agrees(l, c, events, key)
    requires Has(c, k) && Idle(Find(c, k), now, l.ttl) && !Uses(l, events + [Event(DoGet(k), now)], k)
    ensures Agrees(l, Without(c, k), events + [Event(DoGet(k), now)], key)
  {
    var e := Event(DoGet(k), now);
    OnlyItsKey(l, events, e, key);
    UnusedKeeps(l, events, e, key);
    NothingUsed(l, events, e, key);
    if key == k {
      forall x | x in Without(c, k) ensures x.key != k { WithoutMembers(c, k, x); }
      assert !Has(Without(c, k), k);
    } else {
      FindWithout(c, k, key);
      var used := LastUsed(l, events, key);
      if used.Some? && !IdleFor(l, used.value, now) && Fits(l, events, key) {
        var x := Entry(key, LastPut(events, key, l.maxBytes).value, used.value);
        IdleStandsBehind(l, UsedSince(l, events, key), x, c, k, now);
        BehindWithout(UsedSince(l, events, key), x, c, k);
      }
    }
  }

  /** A use puts its entry in front of the others. */
  lemma UseAgrees(l: Limits, c: Recency, events: seq<Event>, e: Event, key: string, data: Bytes)
    requires Ready(l, c, events, e) && Agrees(l, c, events, key)
    requires Uses(l, events + [e], e.op.key) && LastPut(events + [e], e.op.key, l.maxBytes) == Some(data)
    requires e.op.DoGet?
    ensures Agrees(l, [Entry(e.op.key, data, e.now)] + Without(c, e.op.key), events + [e], key)
  {
    var k := e.op.key;
    var front := Entry(k, data, e.now);
    var next := [front] + Without(c, k);
    if key == k {
      OwnUse(l, events, e);
      assert next[0] == front && Behind([], front, next);
    } else {
      AnotherUsed(l, events, e, key);
      UnusedKeeps(l, events, e, key);
      FindWithout(c, k, key);
      FindInFront(front, Without(c, k), key);
      MovesBehind(l, c, events, e, key, front);
    }
  }

  lemma MovesBehind(l: Limits, c: Recency, events: seq<Event>, e: Event, key: string, front: Entry)
    requires Ready(l, c, events, e) && Agrees(l, c, events, key) && key != e.op.key
    requires Uses(l, events + [e], e.op.key) && LastPut(events + [e], e.op.key, l.maxBytes) == Some(front.data)
    requires front.key == e.op.key && front.modTime == e.now
    ensures var used := LastUsed(l, events, key);
      used.Some? && !IdleFor(l, used.value, e.now) && Fits(l, events, key) ==>
        Behind(UsedSince(l, events + [e], key), Entry(key, LastPut(events, key, l.maxBytes).value, used.value),
          [front] + Without(c, e.op.key))
  {
    var used := LastUsed(l, events, key);
    if used.Some? && !IdleFor(l, used.value, e.now) && Fits(l, events, key) {
      var x := Entry(key, LastPut(events, key, l.maxBytes).value, used.value);
      var a := UsedSince(l, events, key);
      AnotherUsed(l, events, e, key);
      BehindWithout(a, x, c, e.op.key);
      BehindOneMore(front, Without(a, e.op.key), x, Without(c, e.op.key));
    }
  }

  /** A Put that fits stores its entry in front and evicts from the other end. */
  lemma StoreAgrees(l: Limits, c: Recency, events: seq<Event>, k: string, data: Bytes, now: int, key: string)
    requires Ready(l, c, events, Event(DoPut(k, data), now)) && Agrees(l, c, events, key) && |data| <= l.maxBytes
    ensures Agrees(l, AfterPut(c, k, data, now, l.maxBytes), events + [Event(DoPut(k, data), now)], key)
  {
    var e := Event(DoPut(k, data), now);
    var front := Entry(k, data, now);
    var full, next := [front] + Without(c, k), AfterPut(c, k, data, now, l.maxBytes);
    OwnUse(l, events, e);
    EvictKeepsLongestFittingPrefix(full, l.maxBytes);
    if key == k {
      PutKeepsTheNewEntry(c, k, data, now, l.maxBytes);
      assert next[0] == front && Behind([], front, next);
    } else {
      FullIsOrdered(l, c, events, e, front);
      UnusedKeeps(l, events, e, key);
      FindWithout(c, k, key);
      FindInFront(front, Without(c, k), key);
      if Has(next, key) { FindInPrefix(full, |next|, key); }
      AnotherUsed(l, events, e, key);
      MovesBehind(l, c, events, e, key, front);
      EvictionAgrees(l, full, events, e, key);
    }
  }

  lemma FullIsOrdered(l: Limits, c: Recency, events: seq<Event>, e: Event, front: Entry)
    requires Sound(c, events, l.maxBytes)
    requires (events != [] ==> events[|events| - 1].now <= e.now) && front.modTime == e.now
    ensures OneEntryPerKey([front] + Without(c, front.key))
  {
    forall i | 0 <= i < |c| ensures c[i].modTime <= e.now { assert Stored(events, c[i], l.maxBytes); }
    FrontKeepsOrder(c, front);
  }

  lemma EvictionAgrees(l: Limits, full: Recency, events: seq<Event>, e: Event, key: string)
    requires 0 <= l.maxBytes && OneEntryPerKey(full) && e.op.DoPut?
    requires key != e.op.key && Uses(l, events + [e], e.op.key)
    requires LastUsed(l, events, key).Some? ==> LastPut(events, key, l.maxBytes).Some?
    ensures var used := LastUsed(l, events, key);
      used.Some? && Fits(l, events, key) ==>
        var x := Entry(key, LastPut(events, key, l.maxBytes).value, used.value);
        var a := UsedSince(l, events + [e], key);
        Behind(a, x, full) ==>
          if Fits(l, events + [e], key) then Behind(a, x, Evict(full, l.maxBytes))
          else !Has(Evict(full, l.maxBytes), key)
  {
    var used := LastUsed(l, events, key);
    AnotherUsed(l, events, e, key);
    UnusedKeeps(l, events, e, key);
    if used.Some? && Fits(l, events, key) {
      var x := Entry(key, LastPut(events, key, l.maxBytes).value, used.value);
      var a := UsedSince(l, events + [e], key);
      if Behind(a, x, full) { EvictsExactly(a, x, full, l.maxBytes); }
    }
  }

  lemma StepAgrees(l: Limits, c: Recency, events: seq<Event>, e: Event, key: string)
    requires Ready(l, c, events, e) && Agrees(l, c, events, key)
    ensures Agrees(l, Apply(c, e, l.maxBytes, l.ttl), events + [e], key)
  {
    assert (events + [e])[..|events + [e]| - 1] == events;
    match e.op
    case DoPut(k, data) =>
      if |data| <= l.maxBytes {
        StoreAgrees(l, c, events, k, data, e.now, key);
      } else {
        SameListAgrees(l, c, events, e, key);
      }
    case DoGet(k) =>
      AnswerAgrees(l, c, events, k, e.now);
      if Has(c, k) && Idle(Find(c, k), e.now, l.ttl) {
        IdleDropAgrees(l, c, events, k, e.now, key);
      } else if Has(c, k) {
        UseAgrees(l, c, events, e, key, Find(c, k).data);
      } else {
        SameListAgrees(l, c, events, e, key);
      }
  }

  lemma {:induction false} RunAgrees(l: Limits, events: seq<Event>, key: string)
    requires 0 <= l.maxBytes && Monotone(events)
    ensures Agrees(l, Run(events, l.maxBytes, l.ttl), events, key)
  {
    if events != [] {
      var n := |events| - 1;
      var before, e := events[..n], events[n];
      RunIsSound(before, l.maxBytes, l.ttl);
      RunAgrees(l, before, key);
      RunAgrees(l, before, e.op.key);
      StepAgrees(l, Run(before, l.maxBytes, l.ttl), before, e, key);
      assert events == before + [e];
    }
  }

  /**
   The answer of a Get after any run, both ways: the last accepted Put of a remembered
   key, and nothing for any other.
   */
  lemma GetAnswersFromHistory(l: Limits, events: seq<Event>, key: string, now: int)
    requires 0 <= l.maxBytes && Monotone(events) && (events != [] ==> events[|events| - 1].now <= now)
    ensures Lookup(Run(events, l.maxBytes, l.ttl), key, now, l.ttl)
      == if Remembered(l, events, key, now) then LastPut(events, key, l.maxBytes) else None
  {
    RunAgrees(l, events, key);
    RunIsSound(events, l.maxBytes, l.ttl);
    AnswerAgrees(l, Run(events, l.maxBytes, l.ttl), events, key, now);
  }
}
