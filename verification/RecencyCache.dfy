/**
 What the in-memory derivative cache of internal/media/cache.go means: a sequence
 of entries, most recently used first, bounded by a byte budget.
 MemoryCache proves the map-and-list implementation against it.
 */
module RecencyCache {
  import opened Common

  type Bytes = seq<bv8>

  datatype Entry = Entry(key: string, data: Bytes, modTime: int)

  /** Most recently used first, one entry per key. */
  type Recency = seq<Entry>

  function Total(c: Recency): nat {
    if c == [] then 0 else |c[0].data| + Total(c[1..])
  }

  predicate Has(c: Recency, key: string) {
    exists i :: 0 <= i < |c| && c[i].key == key
  }

  function Find(c: Recency, key: string): (e: Entry)
    requires Has(c, key)
    ensures e in c && e.key == key
  {
    if c[0].key == key then c[0] else Find(c[1..], key)
  }

  function Without(c: Recency, key: string): Recency {
    if c == [] then [] else (if c[0].key == key then [] else [c[0]]) + Without(c[1..], key)
  }

  /** Drops entries from the least recent end until the rest fits. */
  function Evict(c: Recency, maxBytes: int): Recency {
    if c == [] || Total(c) <= maxBytes then c else Evict(c[..|c| - 1], maxBytes)
  }

  predicate Idle(e: Entry, now: int, ttl: int) {
    ttl > 0 && now - e.modTime > ttl
  }

  /** The answer of a Get. */
  function Lookup(c: Recency, key: string, now: int, ttl: int): Option<Bytes> {
    if Has(c, key) && !Idle(Find(c, key), now, ttl) then Some(Find(c, key).data) else None
  }

  /** What a Get leaves: a hit moves to the front with a new time, an idle entry goes. */
  function AfterGet(c: Recency, key: string, now: int, ttl: int): Recency {
    if !Has(c, key) then c
    else if Idle(Find(c, key), now, ttl) then Without(c, key)
    else [Entry(key, Find(c, key).data, now)] + Without(c, key)
  }

  /** What a Put leaves; an entry larger than the whole budget is not stored. */
  function AfterPut(c: Recency, key: string, data: Bytes, now: int, maxBytes: int): Recency {
    if |data| > maxBytes then c else Evict([Entry(key, data, now)] + Without(c, key), maxBytes)
  }

  // ----- sequence facts -----

  lemma {:induction false} WithoutMembers(c: Recency, key: string, e: Entry)
    ensures e in Without(c, key) <==> e in c && e.key != key
  {
    if c != [] { WithoutMembers(c[1..], key, e); }
  }

  lemma {:induction false} WithoutTotal(c: Recency, key: string)
    ensures Total(Without(c, key)) <= Total(c) && |Without(c, key)| <= |c|
  {
    if c != [] {
      WithoutTotal(c[1..], key);
      if c[0].key == key {
        assert Without(c, key) == Without(c[1..], key);
      } else {
        assert Without(c, key)[1..] == Without(c[1..], key);
      }
    }
  }

  /** A key is answered with its entry's data, unless that was last used more than the idle limit ago. */
  lemma LookupMeans(c: Recency, key: string, now: int, ttl: int, i: nat)
    requires OneEntryPerKey(c) && i < |c|
    ensures Lookup(c, c[i].key, now, ttl) == if ttl > 0 && now - c[i].modTime > ttl then None else Some(c[i].data)
    ensures (forall j :: 0 <= j < |c| ==> c[j].key != key) ==> Lookup(c, key, now, ttl) == None
  {
    var e := Find(c, c[i].key);
    var j :| 0 <= j < |c| && c[j] == e;
    assert i == j;
  }

  // ----- eviction -----

  /**
   Eviction keeps a prefix that fits, and it is the longest one: only the shortest
   possible least-recent suffix goes.
   */
  lemma {:induction false} EvictKeepsLongestFittingPrefix(c: Recency, maxBytes: int)
    requires 0 <= maxBytes
    ensures var r := Evict(c, maxBytes);
      && |r| <= |c| && r == c[..|r|] && Total(r) <= maxBytes
      && forall n :: |r| < n <= |c| ==> Total(c[..n]) > maxBytes
  {
    assert c[..|c|] == c;
    if c != [] && Total(c) > maxBytes {
      var shorter := c[..|c| - 1];
      EvictKeepsLongestFittingPrefix(shorter, maxBytes);
      var r := Evict(shorter, maxBytes);
      forall n | |r| < n <= |c| ensures Total(c[..n]) > maxBytes {
        if n < |c| { assert c[..n] == shorter[..n]; }
      }
    }
  }

  /** A stored entry is never the one evicted: after an accepted Put it is at the front. */
  lemma PutKeepsTheNewEntry(c: Recency, key: string, data: Bytes, now: int, maxBytes: int)
    requires |data| <= maxBytes
    ensures var r := AfterPut(c, key, data, now, maxBytes); r != [] && r[0] == Entry(key, data, now)
  {
    var full := [Entry(key, data, now)] + Without(c, key);
    EvictKeepsLongestFittingPrefix(full, maxBytes);
    assert full[..1] == [Entry(key, data, now)];
    assert Total([Entry(key, data, now)]) == |data| by { assert [Entry(key, data, now)][1..] == []; }
  }

  // ----- invariants over runs -----

  ghost predicate OneEntryPerKey(c: Recency) {
    forall i, j :: 0 <= i < j < |c| ==> c[i].key != c[j].key
  }

  ghost predicate MostRecentFirst(c: Recency) {
    forall i, j :: 0 <= i < j < |c| ==> c[i].modTime >= c[j].modTime
  }

  datatype Op = DoGet(key: string) | DoPut(key: string, data: Bytes)

  /** An operation at a clock reading; clocks do not go back. */
  datatype Event = Event(op: Op, now: int)

  function Apply(c: Recency, e: Event, maxBytes: int, ttl: int): Recency {
    match e.op
    case DoGet(key) => AfterGet(c, key, e.now, ttl)
    case DoPut(key, data) => AfterPut(c, key, data, e.now, maxBytes)
  }

  function Run(events: seq<Event>, maxBytes: int, ttl: int): Recency {
    if events == [] then []
    else
      var n := |events| - 1;
      Apply(Run(events[..n], maxBytes, ttl), events[n], maxBytes, ttl)
  }

  /** The data of the last Put of the key that fitted the budget. */
  function LastPut(events: seq<Event>, key: string, maxBytes: int): Option<Bytes> {
    if events == [] then None
    else
      var n := |events| - 1;
      match events[n].op
      case DoPut(k, data) => if k == key && |data| <= maxBytes then Some(data) else LastPut(events[..n], key, maxBytes)
      case DoGet(_) => LastPut(events[..n], key, maxBytes)
  }

  ghost predicate Monotone(events: seq<Event>) {
    forall i, j :: 0 <= i < j < |events| ==> events[i].now <= events[j].now
  }

  ghost predicate Sound(c: Recency, events: seq<Event>, maxBytes: int) {
    && OneEntryPerKey(c) && MostRecentFirst(c) && Total(c) <= maxBytes
    && (forall e :: e in c ==> Stored(events, e, maxBytes))
  }

  /** The entry holds the last accepted Put of its key and was used no later than the last event. */
  ghost predicate Stored(events: seq<Event>, e: Entry, maxBytes: int) {
    && events != [] && e.modTime <= events[|events| - 1].now
    && LastPut(events, e.key, maxBytes) == Some(e.data)
  }

  lemma {:induction false} WithoutKeepsOrder(c: Recency, key: string)
    requires OneEntryPerKey(c) && MostRecentFirst(c)
    ensures OneEntryPerKey(Without(c, key)) && MostRecentFirst(Without(c, key))
  {
    if c != [] {
      var rest := Without(c[1..], key);
      WithoutKeepsOrder(c[1..], key);
      forall j | 0 <= j < |rest| ensures rest[j].key != c[0].key && c[0].modTime >= rest[j].modTime {
        WithoutMembers(c[1..], key, rest[j]);
        var k :| 0 <= k < |c[1..]| && c[1..][k] == rest[j];
        assert c[k + 1] == rest[j];
      }
    }
  }

  /** Putting a new entry in front of the others keeps one entry per key, most recent first. */
  lemma FrontKeepsOrder(c: Recency, e: Entry)
    requires OneEntryPerKey(c) && MostRecentFirst(c) && forall i :: 0 <= i < |c| ==> c[i].modTime <= e.modTime
    ensures OneEntryPerKey([e] + Without(c, e.key)) && MostRecentFirst([e] + Without(c, e.key))
  {
    var rest := Without(c, e.key);
    WithoutKeepsOrder(c, e.key);
    forall j | 0 <= j < |rest| ensures rest[j].key != e.key && rest[j].modTime <= e.modTime {
      WithoutMembers(c, e.key, rest[j]);
    }
    InFrontKeepsOrder(e, rest);
  }

  lemma InFrontKeepsOrder(e: Entry, rest: Recency)
    requires OneEntryPerKey(rest) && MostRecentFirst(rest)
    requires forall j :: 0 <= j < |rest| ==> rest[j].key != e.key && rest[j].modTime <= e.modTime
    ensures OneEntryPerKey([e] + rest) && MostRecentFirst([e] + rest)
  {
  }

  /** An event about another key, or one that stores nothing, leaves an entry as it is. */
  lemma StoredOneMore(events: seq<Event>, e: Event, x: Entry, maxBytes: int)
    requires Stored(events, x, maxBytes) && events[|events| - 1].now <= e.now
    requires e.op.DoPut? ==> e.op.key != x.key || |e.op.data| > maxBytes
    ensures Stored(events + [e], x, maxBytes)
  {
    assert (events + [e])[..|events + [e]| - 1] == events;
  }

  lemma GetKeepsSound(c: Recency, events: seq<Event>, key: string, now: int, maxBytes: int, ttl: int)
    requires Sound(c, events, maxBytes) && (events != [] ==> events[|events| - 1].now <= now)
    ensures Sound(AfterGet(c, key, now, ttl), events + [Event(DoGet(key), now)], maxBytes)
  {
    var more := events + [Event(DoGet(key), now)];
    assert more[..|more| - 1] == events;
    WithoutKeepsOrder(c, key);
    WithoutTotal(c, key);
    forall x | x in c ensures Stored(more, x, maxBytes) { StoredOneMore(events, Event(DoGet(key), now), x, maxBytes); }
    forall x | x in Without(c, key) ensures Stored(more, x, maxBytes) { WithoutMembers(c, key, x); }
    if Has(c, key) {
      var moved := Entry(key, Find(c, key).data, now);
      assert Stored(events, Find(c, key), maxBytes);
      forall i | 0 <= i < |c| ensures c[i].modTime <= now { assert Stored(events, c[i], maxBytes); }
      FrontKeepsOrder(c, moved);
      FrontTotal(c, key, moved);
      assert Stored(more, moved, maxBytes);
    }
  }

  lemma PutKeepsSound(c: Recency, events: seq<Event>, key: string, data: Bytes, now: int, maxBytes: int)
    requires 0 <= maxBytes && Sound(c, events, maxBytes) && (events != [] ==> events[|events| - 1].now <= now)
    ensures Sound(AfterPut(c, key, data, now, maxBytes), events + [Event(DoPut(key, data), now)], maxBytes)
  {
    var e := Event(DoPut(key, data), now);
    var more := events + [e];
    assert more[..|more| - 1] == events;
    if |data| > maxBytes {
      forall x | x in c ensures Stored(more, x, maxBytes) { StoredOneMore(events, e, x, maxBytes); }
    } else {
      var full := [Entry(key, data, now)] + Without(c, key);
      forall x | x in full ensures Stored(more, x, maxBytes) {
        if x in Without(c, key) {
          WithoutMembers(c, key, x);
          StoredOneMore(events, e, x, maxBytes);
        }
      }
      forall i | 0 <= i < |c| ensures c[i].modTime <= now { assert Stored(events, c[i], maxBytes); }
      FrontKeepsOrder(c, Entry(key, data, now));
      EvictKeepsLongestFittingPrefix(full, maxBytes);
      PrefixKeepsOrder(full, |Evict(full, maxBytes)|);
    }
  }

  lemma PrefixKeepsOrder(c: Recency, n: nat)
    requires n <= |c| && OneEntryPerKey(c) && MostRecentFirst(c)
    ensures OneEntryPerKey(c[..n]) && MostRecentFirst(c[..n])
  {
  }

  /** Moving an entry to the front leaves the total unchanged. */
  lemma {:induction false} FrontTotal(c: Recency, key: string, e: Entry)
    requires OneEntryPerKey(c) && Has(c, key) && |e.data| == |Find(c, key).data|
    ensures Total([e] + Without(c, key)) == Total(c)
  {
    assert ([e] + Without(c, key))[1..] == Without(c, key);
    if c[0].key == key {
      NothingToRemove(c[1..], key);
      assert Without(c, key) == c[1..];
    } else {
      var i :| 0 <= i < |c| && c[i].key == key;
      assert c[1..][i - 1].key == key;
      FrontTotal(c[1..], key, e);
      assert ([e] + Without(c[1..], key))[1..] == Without(c[1..], key);
      assert Without(c, key)[1..] == Without(c[1..], key);
    }
  }

  lemma {:induction false} NothingToRemove(c: Recency, key: string)
    requires forall i :: 0 <= i < |c| ==> c[i].key != key
    ensures Without(c, key) == c
  {
    if c != [] { NothingToRemove(c[1..], key); }
  }

  /**
   After any run: one entry per key, most recent first, within the budget, and
   every entry holds the last accepted Put of its key.
   */
  lemma {:induction false} RunIsSound(events: seq<Event>, maxBytes: int, ttl: int)
    requires 0 <= maxBytes && Monotone(events)
    ensures Sound(Run(events, maxBytes, ttl), events, maxBytes)
  {
    if events != [] {
      var n := |events| - 1;
      RunIsSound(events[..n], maxBytes, ttl);
      var c := Run(events[..n], maxBytes, ttl);
      assert events == events[..n] + [events[n]];
      match events[n].op
      case DoGet(key) => GetKeepsSound(c, events[..n], key, events[n].now, maxBytes, ttl);
      case DoPut(key, data) => PutKeepsSound(c, events[..n], key, data, events[n].now, maxBytes);
    }
  }
}
