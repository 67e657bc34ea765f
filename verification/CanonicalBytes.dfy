/**
 The bytes behind the parameters of a query: which queries the canonical string tells
 apart although ranging over a string reads every invalid byte as U+FFFD.
 */
module CanonicalBytes {
  import opened Common
  import opened Sorting
  import opened CanonicalQuery

  /** A parameter as the query holds it: the unescaped bytes. */
  datatype RawParameter = RawParameter(key: seq<Byte>, value: seq<Byte>)

  /** Ranging over the two strings. */
  function Read(p: RawParameter): Parameter {
    Parameter(Runes(p.key), Runes(p.value))
  }

  function RawPiece(piece: string): seq<RawParameter> {
    if piece == [] || ';' in piece then []
    else
      var key, value := Unescape(Before(piece, '=')), Unescape(After(piece, '='));
      if key.None? || value.None? then [] else [RawParameter(key.value, value.value)]
  }

  function RawParse(q: string): seq<RawParameter>
    decreases |q|
  {
    if q == [] then [] else RawPiece(Before(q, '&')) + RawParse(After(q, '&'))
  }

  function RawParameters(rawQuery: string): seq<RawParameter> {
    RawParse(ReplacePlus(rawQuery))
  }

  lemma {:induction false} ParseReadsBytes(q: string)
    ensures Parse(q) == Map(Read, RawParse(q))
    decreases |q|
  {
    if q != [] {
      ParseReadsBytes(After(q, '&'));
      PieceReadsBytes(Before(q, '&'));
      MapOfConcat(Read, RawPiece(Before(q, '&')), RawParse(After(q, '&')));
    }
  }

  lemma PieceReadsBytes(piece: string)
    ensures ParsePiece(piece) == Map(Read, RawPiece(piece))
  {
  }

  /** The bytes are the encoding of some string. */
  predicate ValidUtf8(bytes: seq<Byte>)
    decreases |bytes|
  {
    bytes == [] || (StartsValid(bytes) && ValidUtf8(bytes[Announced(bytes[0])..]))
  }

  lemma {:induction false} ValidReadsBack(bytes: seq<Byte>)
    requires ValidUtf8(bytes)
    ensures EncodeAll(Runes(bytes)) == bytes
    decreases |bytes|
  {
    if bytes != [] {
      var n := Announced(bytes[0]);
      ValidReadsBack(bytes[n..]);
      EncodeOneMore(CodePoint(bytes[..n]) as char, Runes(bytes[n..]));
      SplitAt(bytes, n);
    }
  }

  lemma EncodeOneMore(c: char, s: string)
    ensures EncodeAll([c] + s) == Utf8(c) + EncodeAll(s)
  {
    assert ([c] + s)[1..] == s;
  }

  lemma SplitAt(bytes: seq<Byte>, n: nat)
    requires n <= |bytes|
    ensures bytes[..n] + bytes[n..] == bytes
  {
  }

  function Written(p: Parameter): RawParameter {
    RawParameter(EncodeAll(p.key), EncodeAll(p.value))
  }

  ghost predicate AllValid(ps: seq<RawParameter>) {
    forall i :: 0 <= i < |ps| ==> ValidUtf8(ps[i].key) && ValidUtf8(ps[i].value)
  }

  lemma WrittenUndoesRead(ps: seq<RawParameter>)
    requires AllValid(ps)
    ensures Map(Written, Map(Read, ps)) == ps
  {
    forall i | 0 <= i < |ps| ensures Map(Written, Map(Read, ps))[i] == ps[i] {
      ValidReadsBack(ps[i].key);
      ValidReadsBack(ps[i].value);
    }
  }

  /** On valid UTF-8 the canonical string is complete for the very bytes of the parameters. */
  lemma SameCanonicalIffSameBytes(q: string, r: string)
    requires AllValid(RawParameters(q)) && AllValid(RawParameters(r))
    ensures CanonicalOf(q) == CanonicalOf(r) <==> multiset(RawParameters(q)) == multiset(RawParameters(r))
  {
    SameCanonicalIffSameParameters(q, r);
    ParseReadsBytes(ReplacePlus(q));
    ParseReadsBytes(ReplacePlus(r));
    if multiset(Parameters(q)) == multiset(Parameters(r)) {
      MapOfRearranged(Written, Parameters(q), Parameters(r));
      WrittenUndoesRead(RawParameters(q));
      WrittenUndoesRead(RawParameters(r));
    }
    if multiset(RawParameters(q)) == multiset(RawParameters(r)) {
      MapOfRearranged(Read, RawParameters(q), RawParameters(r));
    }
  }

  /** Two queries whose values are different invalid bytes have one canonical string: both read as U+FFFD. */
  lemma InvalidBytesCollide()
    ensures CanonicalOf("x=%FF") == CanonicalOf("x=%FE")
    ensures multiset(RawParameters("x=%FF")) != multiset(RawParameters("x=%FE"))
  {
    ReadsAsReplacement("%FF", 0xFF);
    ReadsAsReplacement("%FE", 0xFE);
    assert "x" + "=" + "%FF" == "x=%FF" && "x" + "=" + "%FE" == "x=%FE";
    assert RawParameter([0x78], [0xFF]) in multiset([RawParameter([0x78], [0xFF])]);
  }

  lemma ReadsAsReplacement(value: string, b: Byte)
    requires (value == "%FF" && b == 0xFF) || (value == "%FE" && b == 0xFE)
    ensures var q := "x" + "=" + value;
      RawParameters(q) == [RawParameter([0x78], [b])] && Parameters(q) == [Parameter("x", [REPLACEMENT])]
  {
    assert value == Escape(b);
    LoneEscape(b);
    InvalidByte(value, b);
  }

  lemma InvalidByte(value: string, b: Byte)
    requires '&' !in value && '+' !in value && ';' !in value && Unescape(value) == Some([b]) && 0xFE <= b
    ensures var q := "x" + "=" + value;
      RawParameters(q) == [RawParameter([0x78], [b])] && Parameters(q) == [Parameter("x", [REPLACEMENT])]
  {
    var q := "x" + "=" + value;
    UnescapesToX();
    RawOfItem("x", value, [0x78], [b]);
    NothingToReplace(q);
    ParseReadsBytes(q);
    Utf8DecodesBack("x");
    LoneByte(b);
    assert Map(Read, [RawParameter([0x78], [b])]) == [Read(RawParameter([0x78], [b]))];
  }

  lemma UnescapesToX()
    ensures Unescape("x") == Some([0x78]) && EncodeAll("x") == [0x78]
  {
    var x: seq<Byte> := Utf8('x');
    assert x == [0x78] && x + [] == x;
    assert "x"[1..] == "" && Unescape("") == Some([]) && EncodeAll("") == [];
  }

  lemma LoneEscape(b: Byte)
    ensures Unescape(Escape(b)) == Some([b])
  {
    UnescapeOne(b, "", []);
    assert Escape(b) + "" == Escape(b) && [b] + [] == [b];
  }

  lemma LoneByte(b: Byte)
    requires 0xFE <= b
    ensures Runes([b]) == [REPLACEMENT]
  {
    assert [b][1..] == [];
  }

  lemma RawOfItem(key: string, value: string, kb: seq<Byte>, vb: seq<Byte>)
    requires '=' !in key && '&' !in key && '&' !in value && ';' !in key && ';' !in value
    requires Unescape(key) == Some(kb) && Unescape(value) == Some(vb)
    ensures RawParse(key + "=" + value) == [RawParameter(kb, vb)]
  {
    var q := key + "=" + value;
    CutItem(key, value);
    assert q + "" == q;
    CutAt(q, '&', "");
    RawPieceOf(q, kb, vb);
  }

  lemma RawPieceOf(piece: string, kb: seq<Byte>, vb: seq<Byte>)
    requires piece != [] && ';' !in piece
    requires Unescape(Before(piece, '=')) == Some(kb) && Unescape(After(piece, '=')) == Some(vb)
    ensures RawPiece(piece) == [RawParameter(kb, vb)]
  {
  }

  // ----- writing bytes as a query -----

  function RawText(p: RawParameter): string {
    EscapeAll(p.key) + "=" + EscapeAll(p.value)
  }

  /** A query that carries exactly these bytes, every one escaped. */
  function WriteRaw(ps: seq<RawParameter>): string {
    if |ps| == 0 then "" else RawText(ps[0]) + RawTail(ps[1..])
  }

  function RawTail(ps: seq<RawParameter>): string {
    if |ps| == 0 then "" else "&" + RawText(ps[0]) + RawTail(ps[1..])
  }

  lemma EscapedString(bytes: seq<Byte>)
    ensures var e := EscapeAll(bytes); '=' !in e && ';' !in e && '&' !in e && '+' !in e && Unescape(e) == Some(bytes)
  {
    EscapedIsClean(bytes);
    assert EncodedAlphabet(EscapeAll(bytes));
    UnescapeAll(bytes, "", []);
    assert EscapeAll(bytes) + "" == EscapeAll(bytes) && bytes + [] == bytes;
  }

  lemma RawTextParses(p: RawParameter)
    ensures RawPiece(RawText(p)) == [p] && RawText(p) != []
    ensures '&' !in RawText(p) && '+' !in RawText(p)
  {
    EscapedString(p.key);
    EscapedString(p.value);
    CutItem(EscapeAll(p.key), EscapeAll(p.value));
    RawPieceOf(RawText(p), p.key, p.value);
  }

  lemma RawParseStep(p: RawParameter, rest: string)
    requires rest == [] || rest[0] == '&'
    ensures RawParse(RawText(p) + rest) == [p] + RawParse(if rest == [] then [] else rest[1..])
  {
    RawTextParses(p);
    CutAt(RawText(p), '&', rest);
  }

  lemma RawTailIs(ps: seq<RawParameter>)
    ensures ps != [] ==> RawTail(ps) == "&" + WriteRaw(ps) && RawTail(ps)[1..] == WriteRaw(ps)
  {
    if ps != [] { assert RawTail(ps) == "&" + (RawText(ps[0]) + RawTail(ps[1..])); }
  }

  lemma {:induction false} WriteRawParses(ps: seq<RawParameter>)
    ensures RawParse(WriteRaw(ps)) == ps && '+' !in WriteRaw(ps) && '+' !in RawTail(ps)
  {
    if ps != [] {
      WriteRawParses(ps[1..]);
      RawTailIs(ps);
      RawTailIs(ps[1..]);
      RawTextParses(ps[0]);
      RawParseStep(ps[0], RawTail(ps[1..]));
      assert ps == [ps[0]] + ps[1..];
    }
  }

  // ----- exactly which queries share their canonical string -----

  /** Some query with other byte parameters has the same canonical string. */
  ghost predicate Shared(q: string) {
    exists r :: CanonicalOf(r) == CanonicalOf(q) && multiset(RawParameters(r)) != multiset(RawParameters(q))
  }

  /** No key and no value reads as containing U+FFFD. */
  ghost predicate NoReplacement(ps: seq<Parameter>) {
    forall i :: 0 <= i < |ps| ==> REPLACEMENT !in ps[i].key && REPLACEMENT !in ps[i].value
  }

  /** Bytes that read without U+FFFD are valid. */
  lemma {:induction false} ReadsCleanlyIsValid(bytes: seq<Byte>)
    requires REPLACEMENT !in Runes(bytes)
    ensures ValidUtf8(bytes)
    decreases |bytes|
  {
    if bytes != [] {
      var n := Announced(bytes[0]);
      assert Runes(bytes) == [CodePoint(bytes[..n]) as char] + Runes(bytes[n..]);
      assert forall c :: c in Runes(bytes[n..]) ==> c in Runes(bytes);
      ReadsCleanlyIsValid(bytes[n..]);
    }
  }

  lemma ReadsCleanlyIsAllValid(ps: seq<RawParameter>)
    requires NoReplacement(Map(Read, ps))
    ensures AllValid(ps)
  {
    forall i | 0 <= i < |ps| ensures ValidUtf8(ps[i].key) && ValidUtf8(ps[i].value) {
      assert Map(Read, ps)[i] == Read(ps[i]);
      ReadsCleanlyIsValid(ps[i].key);
      ReadsCleanlyIsValid(ps[i].value);
    }
  }

  /** The string with the byte FF, which is never valid, for every U+FFFD. */
  function Misspelt(s: string): seq<Byte> {
    if s == [] then [] else (if s[0] == REPLACEMENT then [0xFF] else Utf8(s[0])) + Misspelt(s[1..])
  }

  lemma InvalidFirst(rest: seq<Byte>)
    ensures Runes([0xFF] + rest) == [REPLACEMENT] + Runes(rest)
  {
    var bytes: seq<Byte> := [0xFF] + rest;
    assert bytes[1..] == rest && bytes[0] == 0xFF && Announced(bytes[0]) == 4;
    if |bytes| >= 4 {
      assert bytes[..4][0] == 0xFF;
      forall c: char ensures Utf8(c) != bytes[..4] { NeverFF(c); }
    }
  }

  lemma NeverFF(c: char)
    ensures Utf8(c)[0] != 0xFF
  {
  }

  lemma {:induction false} MisspeltReadsBack(s: string)
    ensures Runes(Misspelt(s)) == s
  {
    if s != [] {
      MisspeltReadsBack(s[1..]);
      if s[0] == REPLACEMENT { InvalidFirst(Misspelt(s[1..])); } else { RunesOfChar(s[0], Misspelt(s[1..])); }
      assert [s[0]] + s[1..] == s;
    }
  }

  lemma {:induction false} MisspeltIsShorter(s: string)
    ensures |Misspelt(s)| <= |EncodeAll(s)|
    ensures REPLACEMENT in s ==> |Misspelt(s)| < |EncodeAll(s)|
  {
    if s != [] {
      MisspeltIsShorter(s[1..]);
      assert s[0] == REPLACEMENT ==> |Utf8(s[0])| == 3;
      assert REPLACEMENT in s ==> s[0] == REPLACEMENT || REPLACEMENT in s[1..];
    }
  }

  /** Any bytes that read as containing U+FFFD have a different spelling that reads the same. */
  function Respelt(bytes: seq<Byte>): (other: seq<Byte>)
    requires REPLACEMENT in Runes(bytes)
    ensures Runes(other) == Runes(bytes) && other != bytes
  {
    var s := Runes(bytes);
    Utf8DecodesBack(s);
    MisspeltReadsBack(s);
    MisspeltIsShorter(s);
    if bytes == EncodeAll(s) then Misspelt(s) else EncodeAll(s)
  }

  lemma OtherSpelling(p: RawParameter) returns (other: RawParameter)
    requires REPLACEMENT in Read(p).key || REPLACEMENT in Read(p).value
    ensures other != p && Read(other) == Read(p)
  {
    if REPLACEMENT in Read(p).key {
      other := p.(key := Respelt(p.key));
    } else {
      other := p.(value := Respelt(p.value));
    }
  }

  lemma ReplacedDiffers(ps: seq<RawParameter>, i: nat, other: RawParameter)
    requires i < |ps| && other != ps[i] && Read(other) == Read(ps[i])
    ensures multiset(ps[i := other]) != multiset(ps)
    ensures Map(Read, ps[i := other]) == Map(Read, ps)
  {
    assert multiset(ps[i := other]) == multiset(ps) - multiset{ps[i]} + multiset{other};
    assert multiset(ps[i := other])[other] == multiset(ps)[other] + 1;
  }

  /** A parameter that reads as containing U+FFFD gives a query away to another one. */
  lemma ReplacementIsShared(q: string, i: nat)
    requires i < |Parameters(q)| && (REPLACEMENT in Parameters(q)[i].key || REPLACEMENT in Parameters(q)[i].value)
    ensures Shared(q)
  {
    var raw := RawParameters(q);
    ParseReadsBytes(ReplacePlus(q));
    assert Parameters(q)[i] == Read(raw[i]);
    var other := OtherSpelling(raw[i]);
    ReplacedDiffers(raw, i, other);
    var r := WriteRaw(raw[i := other]);
    WriteRawParses(raw[i := other]);
    NothingToReplace(r);
    ParseReadsBytes(r);
    assert Parameters(r) == Parameters(q) && RawParameters(r) == raw[i := other];
  }

  /**
   A query shares its canonical string only with queries that carry the same bytes if and
   only if none of its decoded parameters contains U+FFFD: no invalid byte, and no U+FFFD
   that was really sent.
   */
  lemma SharedIff(q: string)
    ensures Shared(q) <==> !NoReplacement(Parameters(q))
  {
    if !NoReplacement(Parameters(q)) {
      var i :| 0 <= i < |Parameters(q)| &&
        (REPLACEMENT in Parameters(q)[i].key || REPLACEMENT in Parameters(q)[i].value);
      ReplacementIsShared(q, i);
    } else {
      forall r | CanonicalOf(r) == CanonicalOf(q) ensures multiset(RawParameters(r)) == multiset(RawParameters(q)) {
        SameCanonicalIffSameParameters(r, q);
        SameMembersClean(Parameters(q), Parameters(r));
        ParseReadsBytes(ReplacePlus(q));
        ParseReadsBytes(ReplacePlus(r));
        ReadsCleanlyIsAllValid(RawParameters(q));
        ReadsCleanlyIsAllValid(RawParameters(r));
        SameCanonicalIffSameBytes(r, q);
      }
    }
  }

  lemma SameMembersClean(ps: seq<Parameter>, qs: seq<Parameter>)
    requires multiset(ps) == multiset(qs) && NoReplacement(ps)
    ensures NoReplacement(qs)
  {
    forall i | 0 <= i < |qs| ensures REPLACEMENT !in qs[i].key && REPLACEMENT !in qs[i].value {
      assert qs[i] in multiset(ps);
      var j :| 0 <= j < |ps| && ps[j] == qs[i];
    }
  }
}
