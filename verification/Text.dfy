/** Go string helpers: byte-wise order (code-point order on valid UTF-8) and strings.TrimSpace. */
module Text {

  /** Lexicographic order, as Go's <= on strings. */
  predicate Le(a: string, b: string) {
    a == [] || (b != [] && (a[0] < b[0] || (a[0] == b[0] && Le(a[1..], b[1..]))))
  }

  lemma {:induction false} LeTotal(a: string, b: string)
    ensures Le(a, b) || Le(b, a)
  {
    if a != [] && b != [] { LeTotal(a[1..], b[1..]); }
  }

  lemma {:induction false} LeTransitive(a: string, b: string, c: string)
    requires Le(a, b) && Le(b, c)
    ensures Le(a, c)
  {
    if a != [] && a[0] == b[0] == c[0] { LeTransitive(a[1..], b[1..], c[1..]); }
  }

  lemma {:induction false} LeAntisymmetric(a: string, b: string)
    requires Le(a, b) && Le(b, a)
    ensures a == b
  {
    if a != [] {
      LeAntisymmetric(a[1..], b[1..]);
      assert a == [a[0]] + a[1..] && b == [b[0]] + b[1..];
    }
  }

  /** The strings agree up to some place, and there a ends or has the smaller character. */
  ghost predicate LessAt(a: string, b: string, k: nat) {
    k <= |a| && k <= |b| && a[..k] == b[..k] && (k == |a| || (k < |b| && a[k] < b[k]))
  }

  /** The order told by positions: the first difference decides, and a prefix comes first. */
  lemma {:induction false} LeMeans(a: string, b: string)
    ensures Le(a, b) <==> exists k: nat :: LessAt(a, b, k)
  {
    if a == [] {
      assert LessAt(a, b, 0);
    } else if b != [] && a[0] == b[0] {
      var c, d := a[1..], b[1..];
      LeMeans(c, d);
      if k: nat :| LessAt(c, d, k) {
        assert a[..k + 1] == [a[0]] + c[..k] && b[..k + 1] == [b[0]] + d[..k];
        assert LessAt(a, b, k + 1);
      }
      if k: nat :| LessAt(a, b, k) {
        if k > 0 { assert c[..k - 1] == a[..k][1..] && d[..k - 1] == b[..k][1..]; }
        assert LessAt(c, d, k - 1);
      }
    } else if b != [] && a[0] < b[0] {
      assert LessAt(a, b, 0);
    } else {
      forall k: nat | 0 < k <= |a| && k <= |b| ensures a[..k] != b[..k] {
        assert a[..k][0] == a[0] && b[..k][0] == b[0];
      }
    }
  }

  /** unicode.IsSpace. */
  predicate IsSpace(c: char) {
    || '\t' <= c <= '\r' || c == ' ' || c == '\U{85}' || c == '\U{A0}' || c == '\U{1680}'
    || '\U{2000}' <= c <= '\U{200A}' || c == '\U{2028}' || c == '\U{2029}' || c == '\U{202F}'
    || c == '\U{205F}' || c == '\U{3000}'
  }

  /** The 25 spaces of Unicode, by code point. */
  const SPACES := {
    0x9, 0xA, 0xB, 0xC, 0xD, 0x20, 0x85, 0xA0, 0x1680, 0x2000, 0x2001, 0x2002, 0x2003, 0x2004, 0x2005, 0x2006,
    0x2007, 0x2008, 0x2009, 0x200A, 0x2028, 0x2029, 0x202F, 0x205F, 0x3000}

  lemma SpacesMean(c: char)
    ensures IsSpace(c) <==> c as int in SPACES
  {
  }

  function TrimLeft(s: string): string {
    if s != [] && IsSpace(s[0]) then TrimLeft(s[1..]) else s
  }

  function TrimRight(s: string): string {
    if s != [] && IsSpace(s[|s| - 1]) then TrimRight(s[..|s| - 1]) else s
  }

  /** strings.TrimSpace. */
  function TrimSpace(s: string): string {
    TrimRight(TrimLeft(s))
  }

  /** s from i to j is what is left of s without the spaces at its two ends. */
  ghost predicate TrimsTo(s: string, i: nat, j: nat) {
    && i <= j <= |s|
    && (forall k :: 0 <= k < i || j <= k < |s| ==> IsSpace(s[k]))
    && (i < j ==> !IsSpace(s[i]) && !IsSpace(s[j - 1]))
  }

  /** Exactly the spaces at the two ends go. */
  lemma TrimSpaceMeans(s: string) returns (i: nat, j: nat)
    ensures TrimsTo(s, i, j) && TrimSpace(s) == s[i..j]
  {
    i := TrimLeftMeans(s);
    var t := s[i..];
    var end := TrimRightMeans(t);
    j := i + end;
    forall k | j <= k < |s| ensures IsSpace(s[k]) { assert s[k] == t[k - i]; }
    assert t[..end] == s[i..j];
  }

  lemma {:induction false} TrimLeftMeans(s: string) returns (i: nat)
    ensures i <= |s| && TrimLeft(s) == s[i..] && (forall k :: 0 <= k < i ==> IsSpace(s[k]))
    ensures i < |s| ==> !IsSpace(s[i])
  {
    if s != [] && IsSpace(s[0]) {
      i := TrimLeftMeans(s[1..]);
      forall k | 0 <= k < i + 1 ensures IsSpace(s[k]) { if k > 0 { assert s[k] == s[1..][k - 1]; } }
      i := i + 1;
    } else {
      i := 0;
    }
  }

  lemma {:induction false} TrimRightMeans(s: string) returns (j: nat)
    ensures j <= |s| && TrimRight(s) == s[..j] && (forall k :: j <= k < |s| ==> IsSpace(s[k]))
    ensures 0 < j ==> !IsSpace(s[j - 1])
  {
    if s != [] && IsSpace(s[|s| - 1]) {
      j := TrimRightMeans(s[..|s| - 1]);
      forall k | j <= k < |s| ensures IsSpace(s[k]) { if k < |s| - 1 { assert s[k] == s[..|s| - 1][k]; } }
    } else {
      j := |s|;
      assert s[..j] == s;
    }
  }

  /** Trimming is idempotent. */
  lemma {:induction false} TrimmedTwice(s: string)
    ensures TrimSpace(TrimSpace(s)) == TrimSpace(s)
  {
    TrimRightEnds(TrimLeft(s));
    TrimLeftStarts(s);
    var t := TrimSpace(s);
    if t != [] { assert TrimLeft(t) == t && TrimRight(t) == t; }
  }

  lemma {:induction false} TrimLeftStarts(s: string)
    ensures TrimLeft(s) == [] || !IsSpace(TrimLeft(s)[0])
  {
    if s != [] && IsSpace(s[0]) { TrimLeftStarts(s[1..]); }
  }

  lemma {:induction false} TrimRightEnds(s: string)
    ensures TrimRight(s) == [] || (!IsSpace(TrimRight(s)[|TrimRight(s)| - 1]) && TrimRight(s)[0] == s[0])
  {
    if s != [] && IsSpace(s[|s| - 1]) { TrimRightEnds(s[..|s| - 1]); }
  }

  /** Any non-empty set of strings has a least one: what an ordered query returns first. */
  lemma LeastExists(s: set<string>)
    requires s != {}
    ensures exists x :: x in s && forall y :: y in s ==> Le(x, y)
  {
    var x :| x in s;
    var rest := s - {x};
    LeTotal(x, x);
    if rest != {} {
      LeastExists(rest);
      var least :| least in rest && forall y :: y in rest ==> Le(least, y);
      LeTotal(x, least);
      if Le(x, least) {
        forall y | y in s ensures Le(x, y) { if y != x { LeTransitive(x, least, y); } }
      } else {
        assert least in s;
        forall y | y in s ensures Le(least, y) { if y != x { assert y in rest; } }
      }
    } else {
      assert s == {x};
    }
  }

  /** The least string of a set. */
  function Least(s: set<string>): (x: string)
    requires s != {}
    ensures x in s && forall y :: y in s ==> Le(x, y)
  {
    LeastExists(s);
    assert forall x, y | x in s && y in s && (forall z :: z in s ==> Le(x, z)) &&
      (forall z :: z in s ==> Le(y, z)) :: x == y by {
      forall x, y | x in s && y in s && (forall z :: z in s ==> Le(x, z)) &&
        (forall z :: z in s ==> Le(y, z)) ensures x == y {
        LeAntisymmetric(x, y);
      }
    }
    var x :| x in s && forall y :: y in s ==> Le(x, y); x
  }
}
