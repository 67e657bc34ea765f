/**
 When concurrent uploads of one part can leave a mixture of their data in a file that a
 completion takes, and when they cannot.
 */
module ChunkedUploadMixing {
  import opened Common
  import opened ChunkedUpload
  import opened ChunkedUploadRaces

  // ----- what is claimed -----

  /** Part i of the file is this data. */
  predicate PartIs(u: Upload, file: Bytes, i: int, d: Bytes) {
    Start(u, i) + |d| <= |file| && file[Start(u, i)..Start(u, i) + |d|] == d
  }

  ghost predicate OneOfIs(u: Upload, file: Bytes, i: int, offered: set<Bytes>) {
    exists d :: d in offered && PartIs(u, file, i, d)
  }

  /** However uploads of exactly these data race for the part, every file taken has one of them whole. */
  ghost predicate AlwaysWhole(u: Upload, i: int, offered: set<Bytes>) {
    forall steps :: TakesWhole(u, i, offered, RunSteps(u, NOTHING_YET, steps))
  }

  ghost predicate TakesWhole(u: Upload, i: int, offered: set<Bytes>, last: State) {
    OfferedFor(last, i) == offered ==> forall file :: file in last.taken ==> OneOfIs(u, file, i, offered)
  }

  ghost predicate MixByte(offered: set<Bytes>, m: Bytes, k: nat)
    requires k < |m|
  {
    exists d :: d in offered && k < |d| && d[k] == m[k]
  }

  /** Each byte is the one that some of the data have there. */
  ghost predicate IsMix(offered: set<Bytes>, m: Bytes) {
    forall k: nat :: k < |m| ==> MixByte(offered, m, k)
  }

  /** Whatever can be mixed from the data of n bytes is one of them. */
  ghost predicate ClosedUnderMixing(offered: set<Bytes>, n: int) {
    forall m: Bytes :: |m| == n && IsMix(offered, m) ==> m in offered
  }

  ghost predicate DataOfPart(u: Upload, i: int, offered: set<Bytes>) {
    forall d :: d in offered ==> |d| == Expected(u, i)
  }

  // ----- mixtures are all that can happen -----

  lemma WrittenIsAMix(offered: set<Bytes>, file: Bytes, start: nat, n: nat)
    requires start + n <= |file| && Written(offered, file, start, n)
    ensures IsMix(offered, file[start..start + n])
  {
    var m := file[start..start + n];
    forall k: nat | k < n ensures MixByte(offered, m, k) { assert ByteIsFrom(offered, file, start, k); }
  }

  lemma ByteOfPart(u: Upload, s: State, file: Bytes, i: int, k: nat)
    requires 0 < u.chunkSize && 0 <= i && k < u.chunkSize && Start(u, i) == i * u.chunkSize
    requires Start(u, i) + k < |file| && BytesFrom(u, s, file)
    ensures ByteIsFrom(OfferedFor(s, i), file, Start(u, i), k)
  {
    var b := Start(u, i) + k;
    PartOfByte(u.chunkSize, i, b);
    assert ByteFrom(u, s, file[b], b);
  }

  lemma TakenPartIsAMix(u: Upload, s: State, file: Bytes, i: int)
    requires Planned(u) && InPlan(u, i) && |file| == u.fileSize && BytesFrom(u, s, file)
    ensures 0 < Expected(u, i) && Start(u, i) + Expected(u, i) <= |file|
    ensures IsMix(OfferedFor(s, i), file[Start(u, i)..Start(u, i) + Expected(u, i)])
  {
    PartSits(u, i);
    forall k: nat | k < Expected(u, i) ensures ByteIsFrom(OfferedFor(s, i), file, Start(u, i), k) {
      ByteOfPart(u, s, file, i, k);
    }
    WrittenIsAMix(OfferedFor(s, i), file, Start(u, i), Expected(u, i));
  }

  lemma ClosedIsWhole(u: Upload, i: int, offered: set<Bytes>)
    requires Planned(u) && InPlan(u, i) && ClosedUnderMixing(offered, Expected(u, i))
    ensures AlwaysWhole(u, i, offered)
  {
    forall steps ensures TakesWhole(u, i, offered, RunSteps(u, NOTHING_YET, steps)) {
      var last := RunSteps(u, NOTHING_YET, steps);
      CompletionUnderRaces(u, steps);
      if OfferedFor(last, i) == offered {
        forall file | file in last.taken ensures OneOfIs(u, file, i, offered) {
          TakenPartIsAMix(u, last, file, i);
          assert PartIs(u, file, i, file[Start(u, i)..Start(u, i) + Expected(u, i)]);
        }
      }
    }
  }

  // ----- runs that reach a mixture -----

  /** Agent 0 is free and nobody completes. */
  predicate Calm(s: State) {
    PcOf(s, 0).Idle? && s.pending && s.readers == map[] && s.taken == []
  }

  lemma RunThree(u: Upload, s: State, a: Step, b: Step, c: Step)
    ensures RunSteps(u, s, [a, b, c]) == Next(u, Next(u, Next(u, s, a), b), c)
  {
    assert [a, b, c] == [a] + [b] + [c];
    FoldAppend(Stepper(u), s, [a] + [b], [c]);
    FoldAppend(Stepper(u), s, [a], [b]);
    FoldOne(Stepper(u), s, a);
    FoldOne(Stepper(u), Next(u, s, a), b);
    FoldOne(Stepper(u), Next(u, Next(u, s, a), b), c);
  }

  function SendWhole(j: int, d: Bytes): seq<Step> {
    [Begin(0, j, d), WriteBuffer(0, |d|), CountPart(0)]
  }

  /** An upload of n bytes of the data that then stops. */
  function SendPrefix(j: int, d: Bytes, n: nat): seq<Step> {
    [Begin(0, j, d), WriteBuffer(0, n), Stop(0)]
  }

  lemma AfterSendWhole(u: Upload, s: State, j: int, d: Bytes)
    requires Calm(s) && Accepts(u, j, d) && d != []
    ensures var t := RunSteps(u, s, SendWhole(j, d));
      && Calm(t) && t.chunks == s.chunks + {j}
      && t.offered == s.offered[j := OfferedFor(s, j) + {d}]
  {
    RunThree(u, s, Begin(0, j, d), WriteBuffer(0, |d|), CountPart(0));
  }

  /** An upload that nobody interrupts is one attempt on the task. */
  lemma SentAloneIsAnAttempt(u: Upload, s: State, j: int, d: Bytes)
    requires Calm(s) && Accepts(u, j, d) && d != []
    ensures AsUpload(u, RunSteps(u, s, SendWhole(j, d))) == Attempt(AsUpload(u, s), j, d)
  {
    RunThree(u, s, Begin(0, j, d), WriteBuffer(0, |d|), CountPart(0));
    var s1 := Next(u, s, Begin(0, j, d));
    assert s1 == At(s.(offered := s.offered[j := OfferedFor(s, j) + {d}]), 0, Writing(j, d, 0));
    var s2 := Next(u, s1, WriteBuffer(0, |d|));
    assert d[0..0 + |d|] == d && Start(u, j) + 0 == Start(u, j);
    assert s2.staged == Some(WriteAt(s.staged.GetOr([]), Start(u, j), d));
  }

  lemma AfterSendPrefix(u: Upload, s: State, j: int, d: Bytes, n: nat)
    requires Calm(s) && Accepts(u, j, d) && 0 < n <= |d|
    ensures var t := RunSteps(u, s, SendPrefix(j, d, n));
      && Calm(t) && t.chunks == s.chunks
      && t.offered == s.offered[j := OfferedFor(s, j) + {d}]
      && t.staged == Some(WriteAt(s.staged.GetOr([]), Start(u, j), d[..n]))
  {
    RunThree(u, s, Begin(0, j, d), WriteBuffer(0, n), Stop(0));
  }

  lemma RunBoth(u: Upload, s: State, a: seq<Step>, b: seq<Step>)
    ensures RunSteps(u, s, a + b) == RunSteps(u, RunSteps(u, s, a), b)
  {
    FoldAppend(Stepper(u), s, a, b);
  }

  /** The first n parts uploaded alone, part i with the data d. */
  lemma SendParts(u: Upload, i: int, d: Bytes, n: nat) returns (steps: seq<Step>)
    requires Planned(u) && u.pending && InPlan(u, i) && |d| == Expected(u, i) && n <= u.chunksCount
    ensures var s := RunSteps(u, NOTHING_YET, steps);
      && Calm(s) && (forall j :: 0 <= j < n ==> j in s.chunks)
      && OfferedFor(s, i) == if i < n then {d} else {}
    decreases n
  {
    if n == 0 {
      steps := [];
    } else {
      var first := SendParts(u, i, d, n - 1);
      var s := RunSteps(u, NOTHING_YET, first);
      PartSits(u, n - 1);
      var data := if n - 1 == i then d else Zeros(Expected(u, n - 1));
      AfterSendWhole(u, s, n - 1, data);
      steps := first + SendWhole(n - 1, data);
      RunBoth(u, NOTHING_YET, first, SendWhole(n - 1, data));
    }
  }

  /** Every one of the data offered for the part: one byte of each written, then stopped. */
  lemma OfferAll(u: Upload, s: State, i: int, more: set<Bytes>) returns (steps: seq<Step>)
    requires u.pending && Calm(s) && InPlan(u, i) && 0 < Expected(u, i) && DataOfPart(u, i, more)
    ensures var t := RunSteps(u, s, steps);
      Calm(t) && t.chunks == s.chunks && OfferedFor(t, i) == OfferedFor(s, i) + more
    decreases more
  {
    if more == {} {
      steps := [];
    } else {
      var d :| d in more;
      AfterSendPrefix(u, s, i, d, 1);
      var t := RunSteps(u, s, SendPrefix(i, d, 1));
      var rest := OfferAll(u, t, i, more - {d});
      steps := SendPrefix(i, d, 1) + rest;
      RunBoth(u, s, SendPrefix(i, d, 1), rest);
      assert OfferedFor(s, i) + {d} + (more - {d}) == OfferedFor(s, i) + more;
    }
  }

  /** From byte k on the part reads like m. */
  ghost predicate ReadsFrom(file: Bytes, start: nat, m: Bytes, k: nat) {
    start + |m| <= |file| && forall j: nat :: k <= j < |m| ==> file[start + j] == m[j]
  }

  lemma PrefixSetsByte(file: Bytes, start: nat, m: Bytes, k: nat, d: Bytes)
    requires k < |m| && |d| == |m| && d[k] == m[k] && ReadsFrom(file, start, m, k + 1)
    ensures ReadsFrom(WriteAt(file, start, d[..k + 1]), start, m, k)
  {
    var after := WriteAt(file, start, d[..k + 1]);
    forall j: nat | k <= j < |m| ensures after[start + j] == m[j] {
      assert after[start + j] == ByteAfter(file, start, d[..k + 1], start + j);
    }
  }

  /** Ever shorter prefixes of the data that have the wanted byte last, so that each byte is written last by its own. */
  lemma Layer(u: Upload, s: State, i: int, m: Bytes, k: nat) returns (steps: seq<Step>)
    requires u.pending && Calm(s) && InPlan(u, i) && |m| == Expected(u, i) && k <= |m|
    requires DataOfPart(u, i, OfferedFor(s, i)) && IsMix(OfferedFor(s, i), m)
    requires s.staged.Some? && Start(u, i) + |m| <= |s.staged.value|
    ensures var t := RunSteps(u, s, steps);
      && Calm(t) && t.chunks == s.chunks && OfferedFor(t, i) == OfferedFor(s, i)
      && t.staged.Some? && ReadsFrom(t.staged.value, Start(u, i), m, k)
    decreases |m| - k
  {
    if k == |m| {
      steps := [];
    } else {
      var first := Layer(u, s, i, m, k + 1);
      var t := RunSteps(u, s, first);
      assert MixByte(OfferedFor(s, i), m, k);
      var d :| d in OfferedFor(s, i) && k < |d| && d[k] == m[k];
      OneLayer(u, t, i, m, k, d);
      steps := first + SendPrefix(i, d, k + 1);
      RunBoth(u, s, first, SendPrefix(i, d, k + 1));
    }
  }

  lemma OneLayer(u: Upload, s: State, i: int, m: Bytes, k: nat, d: Bytes)
    requires u.pending && Calm(s) && InPlan(u, i) && |m| == Expected(u, i) && d in OfferedFor(s, i)
    requires k < |m| && |d| == |m| && d[k] == m[k]
    requires s.staged.Some? && ReadsFrom(s.staged.value, Start(u, i), m, k + 1)
    ensures var t := RunSteps(u, s, SendPrefix(i, d, k + 1));
      && Calm(t) && t.chunks == s.chunks && OfferedFor(t, i) == OfferedFor(s, i)
      && t.staged.Some? && ReadsFrom(t.staged.value, Start(u, i), m, k)
  {
    AfterSendPrefix(u, s, i, d, k + 1);
    PrefixSetsByte(s.staged.value, Start(u, i), m, k, d);
    assert OfferedFor(s, i) + {d} == OfferedFor(s, i);
  }

  /** A completion that reads the whole file at once. */
  lemma TakeIt(u: Upload, s: State) returns (steps: seq<Step>)
    requires Calm(s) && CompleteError(AsUpload(u, s)) == None && 0 < u.fileSize
    ensures var t := RunSteps(u, s, steps); t.taken == [s.staged.value] && t.offered == s.offered && !t.pending
  {
    var file := s.staged.value;
    steps := [StartRead(0), ReadBuffer(0, |file|), Take(0)];
    RunThree(u, s, StartRead(0), ReadBuffer(0, |file|), Take(0));
    assert [] + file[0..|file|] == file;
  }

  /** Every mixture of the data, with exactly these data offered, is in a file some run takes. */
  lemma MixtureIsReached(u: Upload, i: int, offered: set<Bytes>, m: Bytes) returns (steps: seq<Step>)
    requires Planned(u) && u.pending && InPlan(u, i) && DataOfPart(u, i, offered)
    requires |m| == Expected(u, i) && IsMix(offered, m)
    ensures var last := RunSteps(u, NOTHING_YET, steps);
      && OfferedFor(last, i) == offered
      && exists file :: file in last.taken && PartIs(u, file, i, m)
  {
    PartSits(u, i);
    assert MixByte(offered, m, 0);
    var d :| d in offered;
    var parts := SendParts(u, i, d, u.chunksCount);
    var s1 := RunSteps(u, NOTHING_YET, parts);
    var offers := OfferAll(u, s1, i, offered);
    var s2 := RunSteps(u, s1, offers);
    RunBoth(u, NOTHING_YET, parts, offers);
    assert {d} + offered == offered;
    CompletionUnderRaces(u, parts + offers);
    var layers := Layer(u, s2, i, m, 0);
    var s3 := RunSteps(u, s2, layers);
    RunBoth(u, NOTHING_YET, parts + offers, layers);
    CompletionUnderRaces(u, parts + offers + layers);
    var take := TakeIt(u, s3);
    steps := parts + offers + layers + take;
    RunBoth(u, NOTHING_YET, parts + offers + layers, take);
    var file := s3.staged.value;
    assert file[Start(u, i)..Start(u, i) + |m|] == m;
    assert PartIs(u, file, i, m) && file in RunSteps(u, NOTHING_YET, steps).taken;
  }

  // ----- the exact condition -----

  /**
   Concurrent uploads of a part always leave one of their data whole in every file taken
   if and only if the data are closed under mixing: whoever takes each byte from some of
   them gets one of them.
   */
  lemma WholePartIff(u: Upload, i: int, offered: set<Bytes>)
    requires Planned(u) && u.pending && InPlan(u, i) && DataOfPart(u, i, offered)
    ensures AlwaysWhole(u, i, offered) <==> ClosedUnderMixing(offered, Expected(u, i))
  {
    if ClosedUnderMixing(offered, Expected(u, i)) { ClosedIsWhole(u, i, offered); }
    if AlwaysWhole(u, i, offered) {
      forall m: Bytes | |m| == Expected(u, i) && IsMix(offered, m) ensures m in offered {
        var steps := MixtureIsReached(u, i, offered, m);
        var last := RunSteps(u, NOTHING_YET, steps);
        assert TakesWhole(u, i, offered, last);
        var file :| file in last.taken && PartIs(u, file, i, m);
        assert OneOfIs(u, file, i, offered);
        var d :| d in offered && PartIs(u, file, i, d);
        assert d == m;
      }
    }
  }

  predicate DifferAtMostOnce(d: Bytes, e: Bytes)
    requires |d| == |e|
  {
    forall j, k :: 0 <= j < k < |d| ==> d[j] == e[j] || d[k] == e[k]
  }

  /** Data any two of which differ in at most one byte are closed under mixing. */
  lemma NearlyEqualIsClosed(offered: set<Bytes>, n: int)
    requires offered != {} && forall d :: d in offered ==> |d| == n
    requires forall d, e :: d in offered && e in offered ==> DifferAtMostOnce(d, e)
    ensures ClosedUnderMixing(offered, n)
  {
    forall m: Bytes | |m| == n && IsMix(offered, m) ensures m in offered {
      var d :| d in offered;
      if m != d {
        var p: nat :| p < n && m[p] != d[p];
        assert MixByte(offered, m, p);
        var e :| e in offered && p < |e| && e[p] == m[p];
        forall q: nat | q < n ensures m[q] == e[q] { SameElsewhere(offered, n, m, d, e, p, q); }
        assert m == e;
      }
    }
  }

  lemma SameElsewhere(offered: set<Bytes>, n: int, m: Bytes, d: Bytes, e: Bytes, p: nat, q: nat)
    requires forall x :: x in offered ==> |x| == n
    requires forall x, y :: x in offered && y in offered ==> DifferAtMostOnce(x, y)
    requires |m| == n && IsMix(offered, m) && d in offered && e in offered
    requires p < n && q < n && e[p] == m[p] != d[p]
    ensures m[q] == e[q]
  {
    assert MixByte(offered, m, q);
    var f :| f in offered && q < |f| && f[q] == m[q];
    assert DifferAtMostOnce(d, e) && DifferAtMostOnce(e, f) && DifferAtMostOnce(d, f);
  }

  /** Two data are closed under mixing exactly when they differ in at most one byte. */
  lemma TwoAreClosedIff(d: Bytes, e: Bytes)
    requires |d| == |e|
    ensures ClosedUnderMixing({d, e}, |d|) <==> DifferAtMostOnce(d, e)
  {
    if DifferAtMostOnce(d, e) { NearlyEqualIsClosed({d, e}, |d|); }
    forall j, k | 0 <= j < k < |d| && d[j] != e[j] && d[k] != e[k] ensures !ClosedUnderMixing({d, e}, |d|) {
      var m := d[..j + 1] + e[j + 1..];
      forall x: nat | x < |m| ensures MixByte({d, e}, m, x) {
        assert m[x] == if x <= j then d[x] else e[x];
        if x <= j { assert d in {d, e}; } else { assert e in {d, e}; }
      }
      assert m[j] == d[j] && m[k] == e[k];
      assert IsMix({d, e}, m) && m !in {d, e};
    }
  }

  /** Two uploads of a part always leave one of them whole if and only if they differ in at most one byte. */
  lemma TwoUploadsIff(u: Upload, i: int, d: Bytes, e: Bytes)
    requires Planned(u) && u.pending && InPlan(u, i) && |d| == |e| == Expected(u, i)
    ensures AlwaysWhole(u, i, {d, e}) <==> DifferAtMostOnce(d, e)
  {
    WholePartIff(u, i, {d, e});
    TwoAreClosedIff(d, e);
  }

  /** So do any number of uploads any two of which differ in at most one byte; retries of one upload in particular. */
  lemma NearlyEqualUploadsStayWhole(u: Upload, i: int, offered: set<Bytes>)
    requires Planned(u) && InPlan(u, i) && offered != {} && DataOfPart(u, i, offered)
    requires forall d, e :: d in offered && e in offered ==> DifferAtMostOnce(d, e)
    ensures AlwaysWhole(u, i, offered)
  {
    NearlyEqualIsClosed(offered, Expected(u, i));
    ClosedIsWhole(u, i, offered);
  }
}
