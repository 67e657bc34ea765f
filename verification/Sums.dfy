/** Sums over the rows a query selects. */
module Sums {
  import opened Sorting

  /** Billed MiB, files and bytes. */
  datatype Stats = Stats(mb: int, files: int, bytes: int) {
    function Plus(other: Stats): Stats {
      Stats(mb + other.mb, files + other.files, bytes + other.bytes)
    }
  }

  const NOTHING := Stats(0, 0, 0)

  function Total<T>(bill: T -> Stats, rows: seq<T>): Stats {
    if rows == [] then NOTHING else bill(rows[0]).Plus(Total(bill, rows[1..]))
  }

  /** The rows a WHERE clause keeps. */
  function Select<T>(keep: T -> bool, rows: seq<T>): seq<T> {
    if rows == [] then []
    else if keep(rows[0]) then [rows[0]] + Select(keep, rows[1..])
    else Select(keep, rows[1..])
  }

  lemma {:induction false} TotalOfConcat<T>(bill: T -> Stats, a: seq<T>, b: seq<T>)
    ensures Total(bill, a + b) == Total(bill, a).Plus(Total(bill, b))
  {
    if a == [] {
      assert a + b == b;
    } else {
      assert (a + b)[1..] == a[1..] + b;
      TotalOfConcat(bill, a[1..], b);
    }
  }

  lemma TotalWithout<T>(bill: T -> Stats, rows: seq<T>, i: nat)
    requires i < |rows|
    ensures Total(bill, rows) == bill(rows[i]).Plus(Total(bill, RemoveAt(rows, i)))
  {
    assert rows == rows[..i] + rows[i..];
    assert rows[i..][1..] == rows[i + 1..];
    TotalOfConcat(bill, rows[..i], rows[i..]);
    TotalOfConcat(bill, rows[..i], rows[i + 1..]);
  }

  /** The total does not depend on the order the rows come back in. */
  lemma {:induction false} TotalIgnoresOrder<T>(bill: T -> Stats, a: seq<T>, b: seq<T>)
    requires multiset(a) == multiset(b)
    ensures Total(bill, a) == Total(bill, b)
  {
    if a == [] {
      RearrangedEmpty(a, b);
    } else {
      var i := MatchHead(a, b);
      TotalWithout(bill, b, i);
      TotalIgnoresOrder(bill, a[1..], RemoveAt(b, i));
    }
  }

  ghost predicate Splits<T(!new)>(whole: T -> bool, a: T -> bool, b: T -> bool) {
    forall x :: SplitsAt(whole, a, b, x)
  }

  predicate SplitsAt<T>(whole: T -> bool, a: T -> bool, b: T -> bool, x: T) {
    (whole(x) <==> a(x) || b(x)) && !(a(x) && b(x))
  }

  /** The same rows summed in one pass, without selecting them first. */
  function Sum<T>(bill: T -> Stats, keep: T -> bool, rows: seq<T>): Stats {
    if rows == [] then NOTHING
    else Share(bill, keep, rows[0]).Plus(Sum(bill, keep, rows[1..]))
  }

  function Share<T>(bill: T -> Stats, keep: T -> bool, x: T): Stats {
    if keep(x) then bill(x) else NOTHING
  }

  lemma PlusRearranged(a: Stats, b: Stats, c: Stats, d: Stats)
    ensures a.Plus(b).Plus(c.Plus(d)) == a.Plus(c).Plus(b.Plus(d))
    ensures NOTHING.Plus(a) == a == a.Plus(NOTHING)
  {
  }

  /** Selecting and then adding up is the one-pass sum. */
  lemma {:induction false} TotalOfSelected<T>(bill: T -> Stats, keep: T -> bool, rows: seq<T>)
    ensures Total(bill, Select(keep, rows)) == Sum(bill, keep, rows)
  {
    if rows != [] {
      TotalOfSelected(bill, keep, rows[1..]);
      var rest := Select(keep, rows[1..]);
      PlusRearranged(Total(bill, rest), NOTHING, NOTHING, NOTHING);
      if keep(rows[0]) {
        TotalOfPrepended(bill, rows[0], rest);
        assert Select(keep, rows) == [rows[0]] + rest;
      } else {
        assert Select(keep, rows) == rest;
      }
    }
  }

  lemma TotalOfPrepended<T>(bill: T -> Stats, x: T, rows: seq<T>)
    ensures Total(bill, [x] + rows) == bill(x).Plus(Total(bill, rows))
  {
    assert ([x] + rows)[1..] == rows;
  }

  lemma ShareSplits<T>(bill: T -> Stats, whole: T -> bool, a: T -> bool, b: T -> bool, x: T)
    requires SplitsAt(whole, a, b, x)
    ensures Share(bill, whole, x) == Share(bill, a, x).Plus(Share(bill, b, x))
  {
    PlusRearranged(bill(x), NOTHING, NOTHING, NOTHING);
    if a(x) {
      assert Share(bill, b, x) == NOTHING;
    } else {
      assert Share(bill, a, x) == NOTHING;
    }
  }

  /** Two disjoint scopes add up to their union. */
  lemma {:induction false} SumSplits<T(!new)>(bill: T -> Stats, rows: seq<T>, whole: T -> bool, a: T -> bool,
        b: T -> bool)
    requires Splits(whole, a, b)
    ensures Sum(bill, whole, rows) == Sum(bill, a, rows).Plus(Sum(bill, b, rows))
  {
    if rows != [] {
      SumSplits(bill, rows[1..], whole, a, b);
      assert SplitsAt(whole, a, b, rows[0]);
      SumSplitsStep(bill, rows, whole, a, b);
    } else {
      PlusRearranged(NOTHING, NOTHING, NOTHING, NOTHING);
    }
  }

  lemma SumSplitsStep<T>(bill: T -> Stats, rows: seq<T>, whole: T -> bool, a: T -> bool, b: T -> bool)
    requires rows != [] && SplitsAt(whole, a, b, rows[0])
    requires Sum(bill, whole, rows[1..]) == Sum(bill, a, rows[1..]).Plus(Sum(bill, b, rows[1..]))
    ensures Sum(bill, whole, rows) == Sum(bill, a, rows).Plus(Sum(bill, b, rows))
  {
    var x, rest := rows[0], rows[1..];
    ShareSplits(bill, whole, a, b, x);
    PlusRearranged(Share(bill, a, x), Share(bill, b, x), Sum(bill, a, rest), Sum(bill, b, rest));
  }

  /** One more row adds its own bill to exactly the scopes that keep it. */
  lemma {:induction false} SumAfterAdding<T>(bill: T -> Stats, keep: T -> bool, rows: seq<T>, x: T)
    ensures Sum(bill, keep, rows + [x]) == Sum(bill, keep, rows).Plus(Share(bill, keep, x))
  {
    if rows == [] {
      assert rows + [x] == [x];
    } else {
      assert (rows + [x])[1..] == rows[1..] + [x];
      SumAfterAdding(bill, keep, rows[1..], x);
    }
  }
}
