/**
 SigV4 query canonicalisation of internal/s3server/auth.go, from the raw query to
 the canonical string. A string is a sequence of Unicode scalar values, so raw
 queries are valid UTF-8; the bytes a query escapes need not be. Percent-encoding
 and the unreserved set are those of sections 2.1 and 2.3 of RFC 3986.
 */
module CanonicalQuery {
  import opened Common
  import opened Text
  import opened Sorting

  // ----- UTF-8 -----

  type Byte = b: int | 0 <= b < 256

  /** utf8.EncodeRune. */
  function Utf8(c: char): (bytes: seq<Byte>)
    ensures 1 <= |bytes| <= 4
  {
    var x := c as int;
    if x < 0x80 then [x]
    else if x < 0x800 then [0xC0 + x / 0x40, 0x80 + x % 0x40]
    else if x < 0x1_0000 then [0xE0 + x / 0x1000, 0x80 + x / 0x40 % 0x40, 0x80 + x % 0x40]
    else [0xF0 + x / 0x4_0000, 0x80 + x / 0x1000 % 0x40, 0x80 + x / 0x40 % 0x40, 0x80 + x % 0x40]
  }

  predicate IsScalar(x: int) {
    0 <= x < 0xD800 || 0xE000 <= x <= 0x10_FFFF
  }

  /** The length a first byte announces. */
  function Announced(b: Byte): nat {
    if b < 0x80 then 1 else if b < 0xE0 then 2 else if b < 0xF0 then 3 else 4
  }

  /** The code point of one encoded character. */
  function CodePoint(bytes: seq<Byte>): int
    requires 1 <= |bytes| <= 4
  {
    var b0: int := bytes[0];
    if |bytes| == 1 then b0
    else
      var b1: int := bytes[1];
      if |bytes| == 2 then (b0 - 0xC0) * 0x40 + (b1 - 0x80)
      else
        var b2: int := bytes[2];
        if |bytes| == 3 then (b0 - 0xE0) * 0x1000 + (b1 - 0x80) * 0x40 + (b2 - 0x80)
        else
          var b3: int := bytes[3];
          (b0 - 0xF0) * 0x4_0000 + (b1 - 0x80) * 0x1000 + (b2 - 0x80) * 0x40 + (b3 - 0x80)
  }

  lemma Utf8RoundTrip(c: char)
    ensures Announced(Utf8(c)[0]) == |Utf8(c)| && CodePoint(Utf8(c)) == c as int
  {
    var x := c as int;
    var low, mid, high := x % 0x40, x / 0x40 % 0x40, x / 0x1000 % 0x40;
    SixBits(x);
    SixBits(x / 0x40);
    SixBits(x / 0x40 / 0x40);
    assert x / 0x40 / 0x40 == x / 0x1000 && x / 0x40 / 0x40 / 0x40 == x / 0x4_0000;
    if x < 0x80 {
      assert Utf8(c) == [x];
    } else if x < 0x800 {
      assert Utf8(c) == [0xC0 + x / 0x40, 0x80 + low];
    } else if x < 0x1_0000 {
      assert Utf8(c) == [0xE0 + x / 0x1000, 0x80 + mid, 0x80 + low];
    } else {
      assert Utf8(c) == [0xF0 + x / 0x4_0000, 0x80 + high, 0x80 + mid, 0x80 + low];
    }
  }

  lemma SixBits(x: nat)
    ensures x == x / 0x40 * 0x40 + x % 0x40
  {
  }

  function EncodeAll(s: string): seq<Byte> {
    if s == [] then [] else Utf8(s[0]) + EncodeAll(s[1..])
  }

  /** The bytes start with the encoding of a character: shortest form, in range, no surrogate. */
  predicate StartsValid(bytes: seq<Byte>)
    requires bytes != []
  {
    var n := Announced(bytes[0]);
    n <= |bytes| && var x := CodePoint(bytes[..n]); IsScalar(x) && Utf8(x as char) == bytes[..n]
  }

  /** utf8.RuneError. */
  const REPLACEMENT := '\U{FFFD}'

  /** What ranging over a Go string yields: U+FFFD for every byte that starts no valid encoding. */
  function Runes(bytes: seq<Byte>): string
    decreases |bytes|
  {
    if bytes == [] then ""
    else if StartsValid(bytes) then
      var n := Announced(bytes[0]);
      [CodePoint(bytes[..n]) as char] + Runes(bytes[n..])
    else [REPLACEMENT] + Runes(bytes[1..])
  }

  lemma {:induction false} Utf8DecodesBack(s: string)
    ensures Runes(EncodeAll(s)) == s
  {
    if s != [] {
      Utf8DecodesBack(s[1..]);
      RunesOfChar(s[0], EncodeAll(s[1..]));
      assert [s[0]] + s[1..] == s;
    }
  }

  lemma RunesOfChar(c: char, rest: seq<Byte>)
    ensures Runes(Utf8(c) + rest) == [c] + Runes(rest)
  {
    var bytes := Utf8(c) + rest;
    var n := |Utf8(c)|;
    Utf8RoundTrip(c);
    assert bytes[..n] == Utf8(c) && bytes[n..] == rest && bytes[0] == Utf8(c)[0];
  }

  // ----- percent-encoding -----

  /** isAWSUnreserved. */
  predicate IsUnreserved(c: char) {
    'A' <= c <= 'Z' || 'a' <= c <= 'z' || '0' <= c <= '9' || c == '-' || c == '.' || c == '_' || c == '~'
  }

  function HexDigit(n: int): (c: char)
    requires 0 <= n < 16
    ensures IsUnreserved(c) && HexValue(c) == Some(n)
  {
    if n < 10 then '0' + n as char else 'A' + (n - 10) as char
  }

  function HexValue(c: char): Option<int> {
    if '0' <= c <= '9' then Some(c as int - '0' as int)
    else if 'A' <= c <= 'F' then Some(c as int - 'A' as int + 10)
    else if 'a' <= c <= 'f' then Some(c as int - 'a' as int + 10)
    else None
  }

  /** One byte as "%XX", upper case, padded to two digits. */
  function Escape(b: Byte): (e: string)
    ensures |e| == 3
  {
    ['%', HexDigit(b / 16), HexDigit(b % 16)]
  }

  function EscapeAll(bytes: seq<Byte>): string {
    if bytes == [] then [] else Escape(bytes[0]) + EscapeAll(bytes[1..])
  }

  function EncodeChar(c: char, encodeSlash: bool): string {
    if IsUnreserved(c) || (!encodeSlash && c == '/') then [c] else EscapeAll(Utf8(c))
  }

  /** awsPercentEncode. */
  function PercentEncode(s: string, encodeSlash: bool): string {
    if s == [] then [] else EncodeChar(s[0], encodeSlash) + PercentEncode(s[1..], encodeSlash)
  }

  /** url.QueryUnescape once plus signs are gone: the bytes a string stands for, or none after a malformed escape. */
  function Unescape(e: string): Option<seq<Byte>>
    decreases |e|
  {
    if e == [] then Some([])
    else if e[0] == '%' then
      if |e| < 3 || HexValue(e[1]).None? || HexValue(e[2]).None? then None
      else match Unescape(e[3..])
        case None => None
        case Some(rest) => Some([HexValue(e[1]).value * 16 + HexValue(e[2]).value] + rest)
    else match Unescape(e[1..])
      case None => None
      case Some(rest) => Some(Utf8(e[0]) + rest)
  }

  /** What the rest of a string stands for is not affected by an escape before it. */
  lemma UnescapeOne(b: Byte, tail: string, value: seq<Byte>)
    requires Unescape(tail) == Some(value)
    ensures Unescape(Escape(b) + tail) == Some([b] + value)
  {
    var e := Escape(b) + tail;
    assert e[0] == '%' && e[1] == HexDigit(b / 16) && e[2] == HexDigit(b % 16);
    assert e[3..] == tail;
  }

  lemma EscapeFirst(bytes: seq<Byte>, tail: string)
    requires bytes != []
    ensures EscapeAll(bytes) + tail == Escape(bytes[0]) + (EscapeAll(bytes[1..]) + tail)
  {
  }

  lemma {:induction false} UnescapeAll(bytes: seq<Byte>, tail: string, value: seq<Byte>)
    requires Unescape(tail) == Some(value)
    ensures Unescape(EscapeAll(bytes) + tail) == Some(bytes + value)
  {
    if bytes == [] {
      assert EscapeAll(bytes) + tail == tail;
      assert bytes + value == value;
    } else {
      var rest, more := EscapeAll(bytes[1..]) + tail, bytes[1..] + value;
      UnescapeAll(bytes[1..], tail, value);
      UnescapeOne(bytes[0], rest, more);
      EscapeFirst(bytes, tail);
      FirstAndMore(bytes, value);
    }
  }

  lemma FirstAndMore(bytes: seq<Byte>, value: seq<Byte>)
    requires bytes != []
    ensures [bytes[0]] + (bytes[1..] + value) == bytes + value
  {
  }

  /** Percent-encoding decodes back, whether or not slashes are encoded. */
  lemma {:induction false} PercentDecodesBack(s: string, encodeSlash: bool)
    ensures Unescape(PercentEncode(s, encodeSlash)) == Some(EncodeAll(s))
  {
    if s != [] {
      PercentDecodesBack(s[1..], encodeSlash);
      var tail := PercentEncode(s[1..], encodeSlash);
      if EncodeChar(s[0], encodeSlash) == [s[0]] {
        assert ([s[0]] + tail)[1..] == tail;
      } else {
        UnescapeAll(Utf8(s[0]), tail, EncodeAll(s[1..]));
      }
    }
  }

  function Decode(e: string): string {
    match Unescape(e)
    case None => ""
    case Some(bytes) => Runes(bytes)
  }

  lemma EncodeThenDecode(s: string, encodeSlash: bool)
    ensures Decode(PercentEncode(s, encodeSlash)) == s
  {
    PercentDecodesBack(s, encodeSlash);
    Utf8DecodesBack(s);
  }

  predicate CleanChar(c: char) {
    c != '&' && c != '='
  }

  /** The encoded alphabet: unreserved characters and '%', so neither '&' nor '='. */
  lemma {:induction false} EncodedIsClean(s: string)
    ensures forall c :: c in PercentEncode(s, true) ==> (IsUnreserved(c) || c == '%') && CleanChar(c)
  {
    if s != [] {
      EncodedIsClean(s[1..]);
      EscapedIsClean(Utf8(s[0]));
    }
  }

  lemma {:induction false} EscapedIsClean(bytes: seq<Byte>)
    ensures forall c :: c in EscapeAll(bytes) ==> IsUnreserved(c) || c == '%'
  {
    if bytes != [] { EscapedIsClean(bytes[1..]); }
  }

  method EscapeBytes(bytes: seq<Byte>, prefix: string) returns (e: string)
    ensures e == prefix + EscapeAll(bytes)
  {
    e := prefix;
    for j := 0 to |bytes|
      invariant e + EscapeAll(bytes[j..]) == prefix + EscapeAll(bytes)
    {
      ghost var before, rest := e, EscapeAll(bytes[j + 1..]);
      assert bytes[j..][1..] == bytes[j + 1..];
      e := e + Escape(bytes[j]);
      assert e + rest == before + (Escape(bytes[j]) + rest);
    }
  }

  lemma PercentEncodeFrom(s: string, i: nat, encodeSlash: bool, e: string)
    requires i < |s|
    ensures e + PercentEncode(s[i..], encodeSlash) ==
      e + EncodeChar(s[i], encodeSlash) + PercentEncode(s[i + 1..], encodeSlash)
  {
    assert s[i..][1..] == s[i + 1..];
  }

  /** awsPercentEncode, rune by rune and byte by byte. */
  method AwsPercentEncode(s: string, encodeSlash: bool) returns (e: string)
    ensures e == PercentEncode(s, encodeSlash)
  {
    e := "";
    for i := 0 to |s|
      invariant e + PercentEncode(s[i..], encodeSlash) == PercentEncode(s, encodeSlash)
    {
      PercentEncodeFrom(s, i, encodeSlash, e);
      if IsUnreserved(s[i]) || (!encodeSlash && s[i] == '/') {
        e := e + [s[i]];
      } else {
        e := EscapeBytes(Utf8(s[i]), e);
      }
    }
  }

  // ----- parameters -----

  datatype Parameter = Parameter(key: string, value: string)

  /** The comparison given to sort.Slice. */
  predicate ParameterLe(p: Parameter, q: Parameter) {
    if p.key == q.key then Le(p.value, q.value) else Le(p.key, q.key)
  }

  lemma ParameterLeTransitive(p: Parameter, q: Parameter, r: Parameter)
    requires ParameterLe(p, q) && ParameterLe(q, r)
    ensures ParameterLe(p, r)
  {
    if p.key == q.key == r.key {
      LeTransitive(p.value, q.value, r.value);
    } else {
      LeTotal(p.key, p.key);
      LeTotal(q.key, q.key);
      LeTransitive(p.key, q.key, r.key);
      if p.key == r.key { LeAntisymmetric(p.key, q.key); }
    }
  }

  lemma ParametersAreOrdered()
    ensures TotalPreorder(ParameterLe) && Antisymmetric(ParameterLe)
  {
    forall p, q ensures ParameterLe(p, q) || ParameterLe(q, p) { LeTotal(p.key, q.key); LeTotal(p.value, q.value); }
    forall p, q, r | ParameterLe(p, q) && ParameterLe(q, r)
      ensures ParameterLe(p, r)
    {
      ParameterLeTransitive(p, q, r);
    }
    forall p, q | ParameterLe(p, q) && ParameterLe(q, p) ensures p == q {
      if p.key == q.key { LeAntisymmetric(p.value, q.value); } else { LeAntisymmetric(p.key, q.key); }
    }
  }

  function Encoded(p: Parameter): Parameter {
    Parameter(PercentEncode(p.key, true), PercentEncode(p.value, true))
  }

  function Decoded(p: Parameter): Parameter {
    Parameter(Decode(p.key), Decode(p.value))
  }

  function Map<T, U>(f: T -> U, ps: seq<T>): (qs: seq<U>)
    ensures |qs| == |ps| && forall i :: 0 <= i < |ps| ==> qs[i] == f(ps[i])
  {
    seq(|ps|, i requires 0 <= i < |ps| => f(ps[i]))
  }

  function Item(p: Parameter): string {
    p.key + "=" + p.value
  }

  function Join(ps: seq<Parameter>): string {
    if |ps| == 0 then "" else Item(ps[0]) + Tail(ps[1..])
  }

  /** Every further item, each after an ampersand. */
  function Tail(ps: seq<Parameter>): string {
    if |ps| == 0 then "" else "&" + Item(ps[0]) + Tail(ps[1..])
  }

  function Canonical(ps: seq<Parameter>): string {
    ParametersAreOrdered();
    Join(Sort(ParameterLe, Map(Encoded, ps)))
  }

  // ----- the joined string determines its items -----

  /** Nothing of `sep` before it, and `sep` (or the end) next. */
  ghost predicate Cut(a: string, t: string, sep: char) {
    sep !in a && (t == [] || t[0] == sep)
  }

  lemma {:induction false} CutIsUnique(a: string, t: string, b: string, u: string, sep: char)
    requires Cut(a, t, sep) && Cut(b, u, sep) && a + t == b + u
    ensures a == b && t == u
  {
    assert a == [] ==> a + t == t;
    assert b == [] ==> b + u == u;
    assert a != [] ==> (a + t)[0] == a[0] != sep;
    assert b != [] ==> (b + u)[0] == b[0] != sep;
    if a != [] && b != [] {
      assert (a + t)[1..] == a[1..] + t && (b + u)[1..] == b[1..] + u;
      assert (a + t)[0] == a[0] && (b + u)[0] == b[0];
      CutIsUnique(a[1..], t, b[1..], u, sep);
      assert a == [a[0]] + a[1..] && b == [b[0]] + b[1..];
    }
  }

  ghost predicate Clean(ps: seq<Parameter>) {
    forall i :: 0 <= i < |ps| ==> CleanString(ps[i].key) && CleanString(ps[i].value)
  }

  ghost predicate CleanString(s: string) {
    '&' !in s && '=' !in s
  }

  lemma ItemIsUnique(p: Parameter, t: string, q: Parameter, u: string)
    requires CleanString(p.key) && CleanString(p.value) && CleanString(q.key) && CleanString(q.value)
    requires t == [] || t[0] == '&'
    requires u == [] || u[0] == '&'
    requires Item(p) + t == Item(q) + u
    ensures p == q && t == u
  {
    var x, y := "=" + (p.value + t), "=" + (q.value + u);
    assert Item(p) + t == p.key + x && Item(q) + u == q.key + y;
    CutIsUnique(p.key, x, q.key, y, '=');
    assert x[1..] == p.value + t && y[1..] == q.value + u;
    CutIsUnique(p.value, t, q.value, u, '&');
  }

  lemma {:induction false} TailIsInjective(ps: seq<Parameter>, qs: seq<Parameter>)
    requires Clean(ps) && Clean(qs) && Tail(ps) == Tail(qs)
    ensures ps == qs
  {
    if ps != [] && qs != [] {
      var s, t := Item(ps[0]) + Tail(ps[1..]), Item(qs[0]) + Tail(qs[1..]);
      assert Tail(ps) == "&" + s && Tail(qs) == "&" + t;
      assert s == Tail(ps)[1..] && t == Tail(qs)[1..];
      ItemIsUnique(ps[0], Tail(ps[1..]), qs[0], Tail(qs[1..]));
      TailIsInjective(ps[1..], qs[1..]);
      assert ps == [ps[0]] + ps[1..] && qs == [qs[0]] + qs[1..];
    }
  }

  lemma JoinIsInjective(ps: seq<Parameter>, qs: seq<Parameter>)
    requires Clean(ps) && Clean(qs) && Join(ps) == Join(qs)
    ensures ps == qs
  {
    assert ps != [] ==> '=' in Item(ps[0]) && |Join(ps)| > 0;
    assert qs != [] ==> '=' in Item(qs[0]) && |Join(qs)| > 0;
    if ps != [] && qs != [] {
      ItemIsUnique(ps[0], Tail(ps[1..]), qs[0], Tail(qs[1..]));
      TailIsInjective(ps[1..], qs[1..]);
      assert ps == [ps[0]] + ps[1..] && qs == [qs[0]] + qs[1..];
    }
  }

  // ----- the canonical form -----

  lemma MapWithout<T, U>(f: T -> U, ps: seq<T>, i: nat)
    requires i < |ps|
    ensures Map(f, RemoveAt(ps, i)) == RemoveAt(Map(f, ps), i)
    ensures multiset(RemoveAt(Map(f, ps), i)) == multiset(Map(f, ps)) - multiset{f(ps[i])}
  {
    RemoveAtMembers(Map(f, ps), i);
  }

  lemma MapOfConcat<T, U>(f: T -> U, ps: seq<T>, qs: seq<T>)
    ensures Map(f, ps + qs) == Map(f, ps) + Map(f, qs)
  {
  }

  /** Mapping keeps "the same parameters with the same multiplicities". */
  lemma {:induction false} MapOfRearranged<T, U>(f: T -> U, ps: seq<T>, qs: seq<T>)
    requires multiset(ps) == multiset(qs)
    ensures multiset(Map(f, ps)) == multiset(Map(f, qs))
  {
    if ps == [] {
      RearrangedEmpty(ps, qs);
    } else {
      var i := MatchHead(ps, qs);
      MapOfRearranged(f, ps[1..], RemoveAt(qs, i));
      MapWithout(f, qs, i);
      MapWithout(f, ps, 0);
      assert RemoveAt(ps, 0) == ps[1..];
      SameAfterRemoving(Map(f, ps), Map(f, qs), f(ps[0]));
    }
  }

  lemma SameAfterRemoving<T>(s: seq<T>, t: seq<T>, x: T)
    requires x in s && x in t && multiset(s) - multiset{x} == multiset(t) - multiset{x}
    ensures multiset(s) == multiset(t)
  {
    assert x in multiset(s) && x in multiset(t);
    assert multiset(s) == multiset(s) - multiset{x} + multiset{x};
    assert multiset(t) == multiset(t) - multiset{x} + multiset{x};
  }

  lemma DecodedUndoesEncoded(ps: seq<Parameter>)
    ensures Map(Decoded, Map(Encoded, ps)) == ps
  {
    forall i | 0 <= i < |ps| ensures Map(Decoded, Map(Encoded, ps))[i] == ps[i] {
      EncodeThenDecode(ps[i].key, true);
      EncodeThenDecode(ps[i].value, true);
    }
  }

  lemma SortedEncodingIsClean(ps: seq<Parameter>, es: seq<Parameter>)
    requires multiset(es) == multiset(Map(Encoded, ps))
    ensures Clean(es)
  {
    var m := Map(Encoded, ps);
    forall i | 0 <= i < |es| ensures CleanString(es[i].key) && CleanString(es[i].value) {
      assert es[i] in multiset(m);
      var j :| 0 <= j < |m| && m[j] == es[i];
      EncodedIsClean(ps[j].key);
      EncodedIsClean(ps[j].value);
    }
  }

  /**
   Two parameter lists have the same canonical string exactly when they hold the same
   decoded (key, value) pairs with the same multiplicities, in whatever order.
   */
  lemma CanonicalIsComplete(ps: seq<Parameter>, qs: seq<Parameter>)
    ensures Canonical(ps) == Canonical(qs) <==> multiset(ps) == multiset(qs)
  {
    ParametersAreOrdered();
    var m, n := Map(Encoded, ps), Map(Encoded, qs);
    var s, t := Sort(ParameterLe, m), Sort(ParameterLe, n);
    if Canonical(ps) == Canonical(qs) {
      SortedEncodingIsClean(ps, s);
      SortedEncodingIsClean(qs, t);
      JoinIsInjective(s, t);
      MapOfRearranged(Decoded, m, n);
      DecodedUndoesEncoded(ps);
      DecodedUndoesEncoded(qs);
    }
    if multiset(ps) == multiset(qs) {
      MapOfRearranged(Encoded, ps, qs);
      SortedIsUnique(ParameterLe, s, t);
    }
  }

  // ----- canonicalizeQuery -----

  function Count(values: map<string, seq<string>>, p: Parameter): nat {
    if p.key in values then multiset(values[p.key])[p.value] else 0
  }

  /** `ps` lists every value of every key of the parsed query, in some order. */
  ghost predicate Lists(ps: seq<Parameter>, values: map<string, seq<string>>) {
    forall p :: multiset(ps)[p] == Count(values, p)
  }

  function OfKey(key: string, list: seq<string>): (ps: seq<Parameter>)
    ensures |ps| == |list| && forall i :: 0 <= i < |list| ==> ps[i] == Parameter(key, list[i])
  {
    if list == [] then [] else [Parameter(key, list[0])] + OfKey(key, list[1..])
  }

  lemma {:induction false} OfKeyCounts(key: string, list: seq<string>, p: Parameter)
    ensures multiset(OfKey(key, list))[p] == if p.key == key then multiset(list)[p.value] else 0
  {
    if list != [] {
      OfKeyCounts(key, list[1..], p);
      assert list == [list[0]] + list[1..];
      assert OfKey(key, list) == [Parameter(key, list[0])] + OfKey(key, list[1..]);
      assert multiset(OfKey(key, list)) == multiset{Parameter(key, list[0])} + multiset(OfKey(key, list[1..]));
      assert multiset(list) == multiset{list[0]} + multiset(list[1..]);
    }
  }

  /** The keys not in `todo` are all listed. */
  ghost predicate ListsDone(ps: seq<Parameter>, values: map<string, seq<string>>, todo: set<string>) {
    forall p :: multiset(ps)[p] == if p.key in todo then 0 else Count(values, p)
  }

  lemma ListsOneMoreKey(ps: seq<Parameter>, values: map<string, seq<string>>, todo: set<string>, key: string)
    requires ListsDone(ps, values, todo) && key in todo && key in values
    ensures ListsDone(ps + OfKey(key, values[key]), values, todo - {key})
  {
    var more := OfKey(key, values[key]);
    forall p ensures multiset(ps + more)[p] == if p.key in todo - {key} then 0 else Count(values, p) {
      OfKeyCounts(key, values[key], p);
      assert multiset(ps + more)[p] == multiset(ps)[p] + multiset(more)[p];
    }
  }

  method AppendValues(pairs: seq<Parameter>, key: string, list: seq<string>) returns (longer: seq<Parameter>)
    ensures longer == pairs + Map(Encoded, OfKey(key, list))
  {
    var encodedKey := AwsPercentEncode(key, true);
    ghost var all := Map(Encoded, OfKey(key, list));
    longer := pairs;
    for i := 0 to |list|
      invariant longer == pairs + all[..i]
    {
      var encodedValue := AwsPercentEncode(list[i], true);
      EncodedValue(key, list, i);
      AppendNext(pairs, all, i);
      longer := longer + [Parameter(encodedKey, encodedValue)];
    }
    assert all[..|list|] == all;
  }

  lemma AppendNext(pairs: seq<Parameter>, all: seq<Parameter>, i: nat)
    requires i < |all|
    ensures pairs + all[..i + 1] == pairs + all[..i] + [all[i]]
  {
  }

  lemma EncodedValue(key: string, list: seq<string>, i: nat)
    requires i < |list|
    ensures Map(Encoded, OfKey(key, list))[i] == Parameter(PercentEncode(key, true), PercentEncode(list[i], true))
  {
  }

  method WriteItems(pairs: seq<Parameter>) returns (b: string)
    ensures b == Join(pairs)
  {
    b := "";
    for i := 0 to |pairs|
      invariant b + (if i == 0 then Join(pairs) else Tail(pairs[i..])) == Join(pairs)
    {
      JoinFrom(pairs, i, b);
      if i > 0 {
        b := b + "&";
      }
      b := b + pairs[i].key + "=" + pairs[i].value;
    }
  }

  lemma JoinFrom(ps: seq<Parameter>, i: nat, b: string)
    requires i < |ps|
    ensures b + Tail(ps[i..]) == b + "&" + ps[i].key + "=" + ps[i].value + Tail(ps[i + 1..])
    ensures b + Join(ps[i..]) == b + ps[i].key + "=" + ps[i].value + Tail(ps[i + 1..])
  {
    assert ps[i..][1..] == ps[i + 1..];
    assert Tail(ps[i..]) == "&" + (ps[i].key + "=" + ps[i].value) + Tail(ps[i + 1..]);
    assert Join(ps[i..]) == (ps[i].key + "=" + ps[i].value) + Tail(ps[i + 1..]);
  }

  /** The encoding, sorting and joining of the parsed query, whose map is ranged over in any order. */
  method CanonicalizeValues(values: map<string, seq<string>>) returns (canonical: string)
    ensures forall ps :: Lists(ps, values) ==> canonical == Canonical(ps)
  {
    var pairs: seq<Parameter> := [];
    ghost var listed: seq<Parameter> := [];
    var todo := values.Keys;
    while todo != {}
      invariant todo <= values.Keys
      invariant ListsDone(listed, values, todo) && pairs == Map(Encoded, listed)
    {
      var key :| key in todo;
      pairs := AppendValues(pairs, key, values[key]);
      MapOfConcat(Encoded, listed, OfKey(key, values[key]));
      ListsOneMoreKey(listed, values, todo, key);
      listed := listed + OfKey(key, values[key]);
      todo := todo - {key};
    }
    ParametersAreOrdered();
    canonical := WriteItems(Sort(ParameterLe, pairs));
    CanonicalOfListing(listed, values);
  }

  lemma CanonicalOfListing(listed: seq<Parameter>, values: map<string, seq<string>>)
    requires ListsDone(listed, values, {})
    ensures Lists(listed, values)
    ensures forall ps :: Lists(ps, values) ==> Canonical(listed) == Canonical(ps)
  {
    forall p ensures multiset(listed)[p] == Count(values, p) {}
    forall ps | Lists(ps, values) ensures Canonical(listed) == Canonical(ps) {
      SameListing(ps, listed, values);
      CanonicalIsComplete(ps, listed);
    }
  }

  lemma SameListing(ps: seq<Parameter>, qs: seq<Parameter>, values: map<string, seq<string>>)
    requires Lists(ps, values) && Lists(qs, values)
    ensures multiset(ps) == multiset(qs)
  {
    forall p ensures multiset(ps)[p] == multiset(qs)[p] {}
  }

  // ----- the raw query -----

  /** strings.ReplaceAll(q, "+", "%20"). */
  function ReplacePlus(q: string): string {
    if q == [] then [] else (if q[0] == '+' then "%20" else [q[0]]) + ReplacePlus(q[1..])
  }

  function Before(q: string, sep: char): (head: string)
    ensures |head| <= |q|
  {
    if q == [] || q[0] == sep then [] else [q[0]] + Before(q[1..], sep)
  }

  function After(q: string, sep: char): (rest: string)
    ensures q != [] ==> |rest| < |q|
  {
    if q == [] then [] else if q[0] == sep then q[1..] else After(q[1..], sep)
  }

  /** One piece between ampersands: nothing when it is empty, holds a semicolon or is malformed. */
  function ParsePiece(piece: string): seq<Parameter> {
    if piece == [] || ';' in piece then []
    else
      var key, value := Unescape(Before(piece, '=')), Unescape(After(piece, '='));
      if key.None? || value.None? then [] else [Parameter(Runes(key.value), Runes(value.value))]
  }

  function Parse(q: string): seq<Parameter>
    decreases |q|
  {
    if q == [] then [] else ParsePiece(Before(q, '&')) + Parse(After(q, '&'))
  }

  /** The decoded parameters of a raw query. */
  function Parameters(rawQuery: string): seq<Parameter> {
    Parse(ReplacePlus(rawQuery))
  }

  function CanonicalOf(rawQuery: string): string {
    Canonical(Parameters(rawQuery))
  }

  /** Two raw queries have the same canonical string exactly when they carry the same parameters. */
  lemma SameCanonicalIffSameParameters(q: string, r: string)
    ensures CanonicalOf(q) == CanonicalOf(r) <==> multiset(Parameters(q)) == multiset(Parameters(r))
  {
    CanonicalIsComplete(Parameters(q), Parameters(r));
  }

  lemma {:induction false} CutAt(a: string, sep: char, t: string)
    requires sep !in a && (t == [] || t[0] == sep)
    ensures Before(a + t, sep) == a && After(a + t, sep) == if t == [] then [] else t[1..]
  {
    if a == [] {
      assert a + t == t;
    } else {
      assert (a + t)[1..] == a[1..] + t;
      CutAt(a[1..], sep, t);
    }
  }

  lemma {:induction false} NothingToReplace(q: string)
    requires '+' !in q
    ensures ReplacePlus(q) == q
  {
    if q != [] { NothingToReplace(q[1..]); }
  }

  ghost predicate EncodedAlphabet(s: string) {
    forall c :: c in s ==> IsUnreserved(c) || c == '%'
  }

  lemma CutItem(key: string, value: string)
    requires '=' !in key
    ensures Before(key + "=" + value, '=') == key && After(key + "=" + value, '=') == value
  {
    assert key + "=" + value == key + ("=" + value) && ("=" + value)[1..] == value;
    CutAt(key, '=', "=" + value);
  }

  lemma ParsePieceOf(piece: string, kb: seq<Byte>, vb: seq<Byte>)
    requires piece != [] && ';' !in piece
    requires Unescape(Before(piece, '=')) == Some(kb) && Unescape(After(piece, '=')) == Some(vb)
    ensures ParsePiece(piece) == [Parameter(Runes(kb), Runes(vb))]
  {
  }

  lemma EncodedString(s: string)
    ensures
      var e := PercentEncode(s, true);
      '=' !in e && ';' !in e && '&' !in e && '+' !in e && Unescape(e) == Some(EncodeAll(s))
  {
    EncodedIsClean(s);
    assert EncodedAlphabet(PercentEncode(s, true));
    PercentDecodesBack(s, true);
  }

  /** An encoded item parses back to the parameter it encodes. */
  lemma ParseItem(p: Parameter)
    ensures ParsePiece(Item(Encoded(p))) == [p]
    ensures '&' !in Item(Encoded(p)) && '+' !in Item(Encoded(p)) && Item(Encoded(p)) != []
  {
    var k, v := PercentEncode(p.key, true), PercentEncode(p.value, true);
    EncodedString(p.key);
    EncodedString(p.value);
    CutItem(k, v);
    assert Item(Encoded(p)) == k + "=" + v;
    ParsePieceOf(k + "=" + v, EncodeAll(p.key), EncodeAll(p.value));
    Utf8DecodesBack(p.key);
    Utf8DecodesBack(p.value);
  }

  lemma {:induction false} ParseTail(ps: seq<Parameter>)
    ensures ps != [] ==> Parse(Join(Map(Encoded, ps))) == ps
    ensures '+' !in Tail(Map(Encoded, ps))
  {
    if ps != [] {
      var es, rest := Map(Encoded, ps), Tail(Map(Encoded, ps[1..]));
      assert es[1..] == Map(Encoded, ps[1..]) && es[0] == Encoded(ps[0]);
      ParseItem(ps[0]);
      ParseTail(ps[1..]);
      JoinIsTail(es[1..]);
      assert Tail(es) == "&" + Item(es[0]) + rest;
      ParseItemAndRest(ps[0], rest);
      assert Join(es) == Item(es[0]) + rest;
      assert ps == [ps[0]] + ps[1..];
    }
  }

  lemma ParseItemAndRest(p: Parameter, rest: string)
    requires rest == [] || rest[0] == '&'
    ensures Parse(Item(Encoded(p)) + rest) == [p] + Parse(if rest == [] then [] else rest[1..])
  {
    ParseItem(p);
    CutAt(Item(Encoded(p)), '&', rest);
    ParseStep([], Item(Encoded(p)) + rest);
  }

  lemma ParseJoined(ps: seq<Parameter>)
    ensures Parse(Join(Map(Encoded, ps))) == ps && '+' !in Join(Map(Encoded, ps))
  {
    ParseTail(ps);
    JoinIsTail(Map(Encoded, ps));
  }

  lemma JoinIsTail(es: seq<Parameter>)
    ensures es != [] ==> Tail(es) == "&" + Join(es) && Tail(es)[1..] == Join(es)
    ensures forall c :: c in Join(es) ==> c in Tail(es)
  {
    if es != [] { assert Tail(es) == "&" + (Item(es[0]) + Tail(es[1..])); }
  }

  /** The canonical string is a query with the same parameters. */
  lemma CanonicalKeepsParameters(ps: seq<Parameter>)
    ensures multiset(Parameters(Canonical(ps))) == multiset(ps)
  {
    ParametersAreOrdered();
    var m := Map(Encoded, ps);
    var es := Sort(ParameterLe, m);
    var qs := Map(Decoded, es);
    forall i | 0 <= i < |es| ensures Map(Encoded, qs)[i] == es[i] {
      assert es[i] in multiset(m);
      var j :| 0 <= j < |m| && m[j] == es[i];
      EncodeThenDecode(ps[j].key, true);
      EncodeThenDecode(ps[j].value, true);
    }
    assert Map(Encoded, qs) == es;
    ParseJoined(qs);
    NothingToReplace(Canonical(ps));
    MapOfRearranged(Decoded, es, m);
    DecodedUndoesEncoded(ps);
  }

  /** Canonicalising twice changes nothing. */
  lemma CanonicalIsAFixedPoint(rawQuery: string)
    ensures CanonicalOf(CanonicalOf(rawQuery)) == CanonicalOf(rawQuery)
  {
    CanonicalKeepsParameters(Parameters(rawQuery));
    SameCanonicalIffSameParameters(CanonicalOf(rawQuery), rawQuery);
  }

  // ----- canonicalizeQuery -----

  method ParseQuery(query: string) returns (values: map<string, seq<string>>)
    ensures Lists(Parse(query), values)
  {
    var rest := query;
    ghost var parsed: seq<Parameter> := [];
    values := map[];
    while rest != ""
      invariant parsed + Parse(rest) == Parse(query)
      invariant Lists(parsed, values)
      decreases |rest|
    {
      ghost var before := parsed;
      parsed := parsed + ParsePiece(Before(rest, '&'));
      values := AddPiece(values, Before(rest, '&'), before);
      ParseStep(before, rest);
      rest := After(rest, '&');
    }
    assert parsed + [] == parsed;
  }

  lemma ParseStep(parsed: seq<Parameter>, q: string)
    requires q != ""
    ensures parsed + Parse(q) == parsed + ParsePiece(Before(q, '&')) + Parse(After(q, '&'))
  {
  }

  /** One iteration of url.ParseQuery. */
  method AddPiece(values: map<string, seq<string>>, piece: string, ghost parsed: seq<Parameter>)
    returns (more: map<string, seq<string>>)
    requires Lists(parsed, values)
    ensures Lists(parsed + ParsePiece(piece), more)
  {
    assert parsed + [] == parsed;
    if ';' in piece || piece == "" { return values; }
    var key, value := Unescape(Before(piece, '=')), Unescape(After(piece, '='));
    if key.None? || value.None? { return values; }
    var k, v := Runes(key.value), Runes(value.value);
    ListsOneMoreValue(parsed, values, k, v);
    more := values[k := (if k in values then values[k] else []) + [v]];
  }

  lemma ListsOneMoreValue(ps: seq<Parameter>, values: map<string, seq<string>>, k: string, v: string)
    requires Lists(ps, values)
    ensures Lists(ps + [Parameter(k, v)], values[k := (if k in values then values[k] else []) + [v]])
  {
    var list := if k in values then values[k] else [];
    var more := values[k := list + [v]];
    var qs := ps + [Parameter(k, v)];
    forall p ensures multiset(qs)[p] == Count(more, p) {
      assert multiset(qs)[p] == multiset(ps)[p] + multiset([Parameter(k, v)])[p];
      assert multiset(list + [v])[p.value] == multiset(list)[p.value] + multiset([v])[p.value];
      assert multiset(ps)[p] == Count(values, p);
    }
  }

  method CanonicalizeQuery(rawQuery: string) returns (canonical: string)
    ensures canonical == CanonicalOf(rawQuery)
  {
    if rawQuery == "" {
      ParametersAreOrdered();
      return "";
    }
    var normalized := ReplacePlus(rawQuery);
    var values := ParseQuery(normalized);
    canonical := CanonicalizeValues(values);
  }
}
