/**
 The canonical query character by character and piece by piece: which characters stay,
 how the others are written, how items are ordered and joined, and which pieces of a raw
 query count.
 */
module CanonicalText {
  import opened Common
  import opened Text
  import opened Sorting
  import opened CanonicalQuery

  // ----- percent-encoding -----

  const HEX := "0123456789ABCDEF"

  /** A byte is written as a percent sign and two upper-case hexadecimal digits. */
  lemma EscapeMeans(b: Byte)
    ensures Escape(b) == ['%', HEX[b / 16], HEX[b % 16]]
  {
    DigitMeans(b / 16);
    DigitMeans(b % 16);
  }

  lemma DigitMeans(n: int)
    requires 0 <= n < 16
    ensures HexDigit(n) == HEX[n] && HexValue(HEX[n]) == Some(n) && HexValue("0123456789abcdef"[n]) == Some(n)
  {
  }

  /** The bytes one after another, each as three characters. */
  ghost predicate EscapesEach(bytes: seq<Byte>, e: string) {
    |e| == 3 * |bytes| &&
    forall k :: 0 <= k < |bytes| ==>
      e[3 * k] == '%' && e[3 * k + 1] == HEX[bytes[k] / 16] && e[3 * k + 2] == HEX[bytes[k] % 16]
  }

  lemma {:induction false} EscapeAllMeans(bytes: seq<Byte>)
    ensures EscapesEach(bytes, EscapeAll(bytes))
  {
    if bytes != [] {
      EscapeAllMeans(bytes[1..]);
      EscapeMeans(bytes[0]);
      var e, rest := EscapeAll(bytes), EscapeAll(bytes[1..]);
      assert e == Escape(bytes[0]) + rest;
      forall k | 0 <= k < |bytes|
        ensures e[3 * k] == '%' && e[3 * k + 1] == HEX[bytes[k] / 16] && e[3 * k + 2] == HEX[bytes[k] % 16]
      {
        if k > 0 {
          assert bytes[k] == bytes[1..][k - 1];
          assert e[3 * k] == rest[3 * (k - 1)] && e[3 * k + 1] == rest[3 * (k - 1) + 1];
          assert e[3 * k + 2] == rest[3 * (k - 1) + 2];
        }
      }
    }
  }

  /** Letters, digits and - . _ ~ stay, and a slash when it may; of any other character every UTF-8 byte is escaped. */
  lemma EncodedCharacter(c: char, encodeSlash: bool)
    ensures var stays := 'A' <= c <= 'Z' || 'a' <= c <= 'z' || '0' <= c <= '9' || c in ['-', '.', '_', '~']
        || (c == '/' && !encodeSlash);
      if stays then PercentEncode([c], encodeSlash) == [c] else EscapesEach(Utf8(c), PercentEncode([c], encodeSlash))
  {
    assert [c][1..] == [] && PercentEncode([], encodeSlash) == [];
    EscapeAllMeans(Utf8(c));
    assert EncodeChar(c, encodeSlash) + [] == EncodeChar(c, encodeSlash);
  }

  /** Characters are encoded independently of each other. */
  lemma {:induction false} EncodingSplits(s: string, t: string, encodeSlash: bool)
    ensures PercentEncode(s + t, encodeSlash) == PercentEncode(s, encodeSlash) + PercentEncode(t, encodeSlash)
  {
    if s == [] {
      assert s + t == t;
    } else {
      assert (s + t)[1..] == s[1..] + t && (s + t)[0] == s[0];
      EncodingSplits(s[1..], t, encodeSlash);
    }
  }

  // ----- order and joining -----

  /** The keys in order, and the values in order under equal keys. */
  ghost predicate InOrder(es: seq<Parameter>) {
    forall i, j :: 0 <= i < j < |es| ==> NotAfter(es[i], es[j])
  }

  predicate NotAfter(e: Parameter, f: Parameter) {
    Le(e.key, f.key) && (e.key == f.key ==> Le(e.value, f.value))
  }

  /** The canonical string joins the encoded parameters, slashes encoded too, in order. */
  lemma CanonicalMeans(ps: seq<Parameter>) returns (es: seq<Parameter>)
    ensures InOrder(es) && Canonical(ps) == Join(es)
    ensures multiset(es) ==
      multiset(seq(|ps|, i requires 0 <= i < |ps| =>
        Parameter(PercentEncode(ps[i].key, true), PercentEncode(ps[i].value, true))))
  {
    ParametersAreOrdered();
    es := Sort(ParameterLe, Map(Encoded, ps));
    assert Map(Encoded, ps) == seq(|ps|, i requires 0 <= i < |ps| =>
      Parameter(PercentEncode(ps[i].key, true), PercentEncode(ps[i].value, true)));
    forall i, j | 0 <= i < j < |es| ensures NotAfter(es[i], es[j]) {
      assert ParameterLe(es[i], es[j]);
      LeTotal(es[i].key, es[i].key);
    }
  }

  /** One item is its key, an equals sign and its value; lists of items meet at an ampersand. */
  lemma {:induction false} JoinSplits(ps: seq<Parameter>, qs: seq<Parameter>, p: Parameter)
    ensures Join([]) == "" && Join([p]) == p.key + "=" + p.value
    ensures ps != [] && qs != [] ==> Join(ps + qs) == Join(ps) + "&" + Join(qs)
  {
    assert [p][1..] == [] && Item(p) + Tail([]) == Item(p);
    if ps != [] && qs != [] {
      TailSplits(ps[1..], qs);
      assert (ps + qs)[1..] == ps[1..] + qs;
      JoinIsTail(qs);
      assert Join(ps + qs) == Item(ps[0]) + (Tail(ps[1..]) + ("&" + Join(qs)));
    }
  }

  lemma {:induction false} TailSplits(ps: seq<Parameter>, qs: seq<Parameter>)
    ensures Tail(ps + qs) == Tail(ps) + Tail(qs)
  {
    if ps == [] {
      assert ps + qs == qs;
    } else {
      assert (ps + qs)[1..] == ps[1..] + qs;
      TailSplits(ps[1..], qs);
    }
  }

  // ----- the raw query -----

  /** A plus sign becomes an encoded space, wherever it stands; every other character stays. */
  lemma {:induction false} PlusIsSpace(q: string, r: string, c: char)
    ensures ReplacePlus(q + r) == ReplacePlus(q) + ReplacePlus(r)
    ensures ReplacePlus([c]) == if c == '+' then "%20" else [c]
  {
    assert [c][1..] == [] && ReplacePlus([]) == [];
    if q == [] {
      assert q + r == r;
    } else {
      assert (q + r)[1..] == q[1..] + r && (q + r)[0] == q[0];
      PlusIsSpace(q[1..], r, c);
    }
  }

  ghost predicate IsHex(c: char) {
    '0' <= c <= '9' || 'A' <= c <= 'F' || 'a' <= c <= 'f'
  }

  /** A percent sign that two hexadecimal digits do not follow. */
  ghost predicate BadEscapeAt(e: string, i: nat) {
    i < |e| && e[i] == '%' && (i + 2 >= |e| || !IsHex(e[i + 1]) || !IsHex(e[i + 2]))
  }

  ghost predicate Malformed(e: string) {
    exists i: nat :: BadEscapeAt(e, i)
  }

  /** Unescaping fails exactly on a malformed escape. */
  lemma {:induction false} UnescapeFailsIff(e: string)
    ensures Unescape(e) == None <==> Malformed(e)
    decreases |e|
  {
    if e != [] && !BadEscapeAt(e, 0) {
      var n := if e[0] == '%' then 3 else 1;
      UnescapeFailsIff(e[n..]);
      if i: nat :| BadEscapeAt(e[n..], i) { assert BadEscapeAt(e, i + n); }
      if i: nat :| BadEscapeAt(e, i) {
        assert i >= n;
        assert BadEscapeAt(e[n..], i - n);
      }
    }
  }

  /** A piece of the query is dropped exactly when it is empty, holds a semicolon, or has a malformed key or value. */
  lemma PieceDroppedIff(piece: string)
    ensures ParsePiece(piece) == []
      <==> piece == "" || ';' in piece || Malformed(Before(piece, '=')) || Malformed(After(piece, '='))
  {
    UnescapeFailsIff(Before(piece, '='));
    UnescapeFailsIff(After(piece, '='));
  }

  /** Pieces end at ampersands and count one after another. */
  lemma ParseSplits(piece: string, rest: string)
    requires '&' !in piece
    ensures Parse(piece) == ParsePiece(piece)
    ensures Parse(piece + "&" + rest) == ParsePiece(piece) + Parse(rest)
  {
    CutAt(piece, '&', []);
    assert piece + [] == piece && ParsePiece(piece) + [] == ParsePiece(piece);
    CutAt(piece, '&', "&" + rest);
    assert piece + "&" + rest == piece + ("&" + rest) && ("&" + rest)[1..] == rest;
  }
}
