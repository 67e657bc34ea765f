/**
 memoryCache of internal/media/cache.go: a map from keys to list elements beside
 the recency list, both pointing at the same mutable entries.
 */
module MemoryCache {
  import opened Common
  import opened RecencyCache

  /** A list element and the entry it carries. */
  class Element {
    const key: string
    var data: Bytes
    var modTime: int

    constructor (key: string, data: Bytes, modTime: int)
      ensures this.key == key && this.data == data && this.modTime == modTime
    {
      this.key, this.data, this.modTime := key, data, modTime;
    }

    function Value(): Entry
      reads this
    {
      Entry(key, data, modTime)
    }
  }

  /** The entries of a list of elements, front to back. */
  function Snapshot(els: seq<Element>): (c: Recency)
    reads els
    ensures |c| == |els| && forall i :: 0 <= i < |c| ==> c[i] == els[i].Value()
  {
    if els == [] then [] else [els[0].Value()] + Snapshot(els[1..])
  }

  lemma SnapshotOfMore(el: Element, els: seq<Element>)
    ensures Snapshot([el] + els) == [el.Value()] + Snapshot(els)
    ensures Total(Snapshot([el] + els)) == |el.data| + Total(Snapshot(els))
    ensures el !in els && Distinct(els) ==> Distinct([el] + els)
  {
    assert ([el] + els)[1..] == els;
  }

  ghost predicate Distinct(els: seq<Element>) {
    forall i, j :: 0 <= i < j < |els| ==> els[i] != els[j]
  }

  /** Map and list hold the same elements, one per key. */
  ghost predicate SameElements(entries: map<string, Element>, els: seq<Element>) {
    && Distinct(els)
    && (forall el :: el in els ==> el.key in entries && entries[el.key] == el)
    && (forall k :: k in entries ==> entries[k] in els && entries[k].key == k)
  }

  lemma SameElementsOneMore(entries: map<string, Element>, els: seq<Element>, el: Element)
    requires SameElements(entries, els) && el.key !in entries
    ensures SameElements(entries[el.key := el], [el] + els)
  {
    assert el !in els;
    var more := [el] + els;
    forall i, j | 0 <= i < j < |more| ensures more[i] != more[j] {
      assert more[j] == els[j - 1];
      if i > 0 { assert more[i] == els[i - 1]; }
    }
  }

  /** list.Remove. */
  function Remove(els: seq<Element>, el: Element): seq<Element> {
    if els == [] then [] else (if els[0] == el then [] else [els[0]]) + Remove(els[1..], el)
  }

  lemma {:induction false} RemoveMembers(els: seq<Element>, el: Element)
    ensures forall x :: x in Remove(els, el) <==> x in els && x != el
    ensures Distinct(els) ==> Distinct(Remove(els, el))
  {
    if els != [] {
      RemoveMembers(els[1..], el);
      if Distinct(els) {
        assert els[0] !in els[1..];
        assert Distinct(els[1..]);
      }
    }
  }

  /** Removing an element removes its key's entry, when keys and elements correspond. */
  lemma {:induction false} RemoveIsWithout(els: seq<Element>, el: Element)
    requires forall x :: x in els ==> (x == el <==> x.key == el.key)
    ensures Snapshot(Remove(els, el)) == Without(Snapshot(els), el.key)
  {
    if els != [] {
      assert els[0] in els;
      RemoveIsWithout(els[1..], el);
      assert Snapshot(els)[1..] == Snapshot(els[1..]);
      if els[0] == el {
        assert Remove(els, el) == Remove(els[1..], el);
      } else {
        assert Remove(els, el)[1..] == Remove(els[1..], el);
      }
    }
  }

  /** Among the elements of the list a key names one element. */
  lemma KeysAreElements(entries: map<string, Element>, els: seq<Element>, el: Element)
    requires SameElements(entries, els) && el in els
    ensures forall x :: x in els ==> (x == el <==> x.key == el.key)
  {
    forall x | x in els ensures x == el <==> x.key == el.key {
      assert entries[x.key] == x && entries[el.key] == el;
    }
  }

  lemma SameElementsOneLess(entries: map<string, Element>, els: seq<Element>, el: Element)
    requires SameElements(entries, els) && el in els
    ensures SameElements(entries - {el.key}, Remove(els, el))
  {
    var fewer, rest := entries - {el.key}, Remove(els, el);
    RemoveMembers(els, el);
    KeysAreElements(entries, els, el);
    assert Distinct(rest);
    forall x | x in rest ensures x.key in fewer && fewer[x.key] == x { assert x in els; }
    forall k | k in fewer ensures fewer[k] in rest && fewer[k].key == k { assert entries[k] in els; }
  }

  lemma SameElementsMoved(entries: map<string, Element>, els: seq<Element>, el: Element)
    requires SameElements(entries, els) && el in els
    ensures SameElements(entries, [el] + Remove(els, el))
    ensures forall x :: x in [el] + Remove(els, el) <==> x in els
  {
    RemoveMembers(els, el);
    SameElementsOneLess(entries, els, el);
    var fewer, rest := entries - {el.key}, Remove(els, el);
    SameElementsOneMore(fewer, rest, el);
    assert fewer[el.key := el] == entries by { assert entries[el.key] == el; }
  }

  lemma SnapshotMoved(entries: map<string, Element>, els: seq<Element>, el: Element)
    requires SameElements(entries, els) && el in els
    ensures Snapshot([el] + Remove(els, el)) == [el.Value()] + Without(Snapshot(els), el.key)
  {
    KeysAreElements(entries, els, el);
    RemoveIsWithout(els, el);
    SnapshotOfMore(el, Remove(els, el));
  }

  class MemoryCache {
    const maxBytes: int
    const ttl: int
    var entries: map<string, Element>
    var lru: seq<Element>
    var size: int

    constructor (maxBytes: int, ttl: int)
      ensures Valid() && Contents() == [] && this.maxBytes == maxBytes && this.ttl == ttl
    {
      this.maxBytes, this.ttl := maxBytes, ttl;
      entries, lru, size := map[], [], 0;
    }

    /** Map and list hold the same elements, one per key. */
    ghost predicate Linked()
      reads this
    {
      SameElements(entries, lru)
    }

    /** Linked, with `size` the sum of the entries' lengths and within the budget. */
    ghost predicate Valid()
      reads this, lru
    {
      Linked() && size == Total(Contents()) && (size <= maxBytes || lru == [])
    }

    ghost function Contents(): Recency
      reads this, lru
    {
      Snapshot(lru)
    }

    lemma EntriesAreContents(key: string)
      requires Linked()
      ensures key in entries <==> Has(Contents(), key)
      ensures key in entries ==> Find(Contents(), key) == entries[key].Value()
      ensures OneEntryPerKey(Contents())
    {
      if key in entries {
        var i :| 0 <= i < |lru| && lru[i] == entries[key];
        assert Contents()[i].key == key;
        var e := Find(Contents(), key);
        var j :| 0 <= j < |Contents()| && Contents()[j] == e;
        assert lru[j] in lru && entries[key] == lru[j];
      }
      if Has(Contents(), key) {
        var i :| 0 <= i < |Contents()| && Contents()[i].key == key;
        assert lru[i] in lru;
      }
      forall i, j | 0 <= i < j < |lru| ensures lru[i].key != lru[j].key {
        assert lru[i] in lru && lru[j] in lru;
      }
    }

    /** Unlinks an element from both structures. */
    method RemoveElement(el: Element)
      requires Linked() && el in lru
      modifies this`entries, this`lru, this`size
      ensures Linked() && lru == Remove(old(lru), el)
      ensures Contents() == Without(old(Contents()), el.key)
      ensures size == old(size) - |el.data|
    {
      KeysAreElements(entries, lru, el);
      RemoveIsWithout(lru, el);
      SameElementsOneLess(entries, lru, el);
      lru := Remove(lru, el);
      entries := entries - {el.key};
      size := size - |el.data|;
    }

    /** list.MoveToFront for an element in the list. */
    method MoveToFront(el: Element)
      requires Linked() && el in lru
      modifies this`lru
      ensures Linked() && (forall x :: x in lru <==> x in old(lru))
      ensures Contents() == [el.Value()] + Without(old(Contents()), el.key)
    {
      var moved := [el] + Remove(lru, el);
      SameElementsMoved(entries, lru, el);
      SnapshotMoved(entries, lru, el);
      lru := moved;
    }

    method Get(key: string, now: int) returns (answer: Option<Bytes>)
      requires Valid()
      modifies this, lru
      ensures Valid()
      ensures answer == Lookup(old(Contents()), key, now, ttl)
      ensures Contents() == AfterGet(old(Contents()), key, now, ttl)
    {
      EntriesAreContents(key);
      if key !in entries { return None; }
      var el := entries[key];
      if ttl > 0 && now - el.modTime > ttl {
        WithoutSize(Contents(), key);
        RemoveElement(el);
        return None;
      }
      Touch(el, now);
      answer := Some(el.data);
    }

    /** A hit: the entry's time is renewed and its element moves to the front. */
    method Touch(el: Element, now: int)
      requires Valid() && el in lru
      modifies this`lru, el
      ensures Valid() && el.data == old(el.data)
      ensures Contents() == [Entry(el.key, el.data, now)] + Without(old(Contents()), el.key)
    {
      ghost var before := Contents();
      EntriesAreContents(el.key);
      FrontTotal(before, el.key, Entry(el.key, el.data, now));
      el.modTime := now;
      RestUnchanged(before, Contents(), el.key);
      MoveToFront(el);
    }

    method Put(key: string, data: Bytes, now: int)
      requires Valid()
      modifies this, lru
      ensures Valid() && forall x :: x in lru ==> x in old(lru) || fresh(x)
      ensures Contents() == AfterPut(old(Contents()), key, data, now, maxBytes)
    {
      if |data| > maxBytes { return; }
      EntriesAreContents(key);
      if key in entries {
        Replace(key, data, now);
      } else {
        Insert(key, data, now);
      }
      EvictBeyondBudget();
    }

    /** Put of a key that is there: the same element, with new data, moved to the front. */
    method Replace(key: string, data: Bytes, now: int)
      requires Valid() && key in entries
      modifies this, lru
      ensures Linked() && size == Total(Contents()) && forall x :: x in lru <==> x in old(lru)
      ensures Contents() == [Entry(key, data, now)] + Without(old(Contents()), key)
    {
      ghost var before := Contents();
      EntriesAreContents(key);
      WithoutSize(before, key);
      var el := entries[key];
      size := size - |el.data|;
      el.data := data;
      el.modTime := now;
      RestUnchanged(before, Contents(), key);
      MoveToFront(el);
      size := size + |data|;
      assert Contents()[1..] == Without(before, key);
    }

    /** list.PushFront of a new element, and its entry in the map. */
    method PushFront(el: Element)
      requires Linked() && size == Total(Contents()) && el.key !in entries
      modifies this`entries, this`lru, this`size
      ensures Linked() && size == Total(Contents()) && lru == [el] + old(lru)
      ensures Contents() == [el.Value()] + old(Contents())
    {
      SnapshotOfMore(el, lru);
      SameElementsOneMore(entries, lru, el);
      lru := [el] + lru;
      entries := entries[el.key := el];
      size := size + |el.data|;
    }

    /** Put of a new key: a new element at the front of the list and in the map. */
    method Insert(key: string, data: Bytes, now: int)
      requires Valid() && key !in entries
      modifies this`entries, this`lru, this`size
      ensures Linked() && size == Total(Contents()) && forall x :: x in lru ==> x in old(lru) || fresh(x)
      ensures Contents() == [Entry(key, data, now)] + Without(old(Contents()), key)
    {
      ghost var before := Contents();
      assert Without(before, key) == before by {
        EntriesAreContents(key);
        NothingToRemove(before, key);
      }
      var el := new Element(key, data, now);
      assert Contents() == before;
      PushFront(el);
    }

    /** Removes the least recent entry. */
    method RemoveLast()
      requires Linked() && size == Total(Contents()) && lru != []
      modifies this`entries, this`lru, this`size
      ensures Linked() && size == Total(Contents()) && |lru| < |old(lru)| && forall x :: x in lru ==> x in old(lru)
      ensures Contents() == old(Contents())[..|old(Contents())| - 1]
    {
      var last := lru[|lru| - 1];
      EntriesAreContents(last.key);
      WithoutSize(Contents(), last.key);
      WithoutLast(Contents());
      RemoveMembers(lru, last);
      RemoveElement(last);
      assert |Contents()| == |lru|;
    }

    /** The eviction loop of Put. */
    method EvictBeyondBudget()
      requires Linked() && size == Total(Contents()) && 0 <= maxBytes
      modifies this`entries, this`lru, this`size
      ensures Valid() && forall x :: x in lru ==> x in old(lru)
      ensures Contents() == Evict(old(Contents()), maxBytes)
    {
      while size > maxBytes
        invariant Linked() && size == Total(Contents())
        invariant forall x :: x in lru ==> x in old(lru)
        invariant Evict(Contents(), maxBytes) == Evict(old(Contents()), maxBytes)
        decreases |lru|
      {
        if lru == [] { break; }
        RemoveLast();
      }
    }
  }

  lemma WithoutSize(c: Recency, key: string)
    requires OneEntryPerKey(c) && Has(c, key)
    ensures Total(Without(c, key)) == Total(c) - |Find(c, key).data|
  {
    FrontTotal(c, key, Find(c, key));
    assert ([Find(c, key)] + Without(c, key))[1..] == Without(c, key);
  }

  lemma {:induction false} WithoutLast(c: Recency)
    requires OneEntryPerKey(c) && c != []
    ensures Without(c, c[|c| - 1].key) == c[..|c| - 1]
  {
    var n := |c| - 1;
    if n > 0 {
      WithoutLast(c[1..]);
      assert c[1..][n - 1] == c[n];
      assert c[..n] == [c[0]] + c[1..][..n - 1];
    }
  }

  /** Two caches that differ only in one key's entry are the same without it. */
  lemma {:induction false} RestUnchanged(c: Recency, d: Recency, key: string)
    requires |c| == |d|
    requires forall i :: 0 <= i < |c| ==> c[i].key == d[i].key && (c[i].key != key ==> c[i] == d[i])
    ensures Without(c, key) == Without(d, key)
  {
    if c != [] { RestUnchanged(c[1..], d[1..], key); }
  }
}
