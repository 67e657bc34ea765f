/**
 A gRPC completion that cannot persist removes the staged file but keeps the counted
 chunks and leaves the task pending (internal/grpcsvc/upload_service.go). What the
 completions after it accept.
 */
module ChunkedUploadRetry {
  import opened Common
  import opened ChunkedUpload

  /** The byte a staged file has when only these parts have been written: theirs, or zero. */
  function ByteOfParts(u: Upload, last: map<int, Bytes>, b: nat): bv8
    requires u.chunkSize > 0
  {
    var i := b / u.chunkSize;
    if i in last && b % u.chunkSize < |last[i]| then last[i][b % u.chunkSize] else 0
  }

  /** The file is no longer than the written parts reach. */
  predicate Reached(u: Upload, last: map<int, Bytes>, size: nat) {
    size <= u.fileSize && (u.chunksCount - 1 !in last ==> size <= (u.chunksCount - 1) * u.chunkSize)
  }

  ghost predicate PartsInside(u: Upload, last: map<int, Bytes>, size: nat) {
    forall i :: i in last ==> PartInFile(u, i, last[i], size)
  }

  ghost predicate BytesOfParts(u: Upload, last: map<int, Bytes>, file: Bytes)
    requires u.chunkSize > 0
  {
    forall b: nat :: b < |file| ==> file[b] == ByteOfParts(u, last, b)
  }

  ghost predicate OnlyParts(u: Upload, last: map<int, Bytes>) {
    var file := u.staged.GetOr([]);
    && 0 < u.chunkSize && u.pending && 0 < u.chunksCount
    && (u.staged == None <==> last == map[])
    && Reached(u, last, |file|) && PartsInside(u, last, |file|) && BytesOfParts(u, last, file)
  }

  predicate PartInFile(u: Upload, i: int, data: Bytes, size: nat) {
    0 <= i < u.chunksCount && |data| == Expected(u, i) && i * u.chunkSize + |data| <= size
  }

  lemma ByteAfterPart(u: Upload, last: map<int, Bytes>, idx: int, data: Bytes, b: nat)
    requires OnlyParts(u, last) && Accepts(u, idx, data)
    requires b < |Attempt(u, idx, data).staged.value|
    ensures Attempt(u, idx, data).staged.value[b] == ByteOfParts(u, last[idx := data], b)
  {
    var c, file := u.chunkSize, u.staged.GetOr([]);
    var next := Attempt(u, idx, data).staged.value;
    assert Start(u, idx) == idx * c;
    assert next[b] == ByteAfter(file, idx * c, data, b);
    PartOfByte(c, idx, b);
    var i := b / c;
    if i != idx && i in last && b >= |file| {
      assert PartInFile(u, i, last[i], |file|);
      PartOfByte(c, i, b);
    }
  }

  lemma SizeAfterPart(u: Upload, last: map<int, Bytes>, idx: int, data: Bytes)
    requires OnlyParts(u, last) && Accepts(u, idx, data) && data != []
    ensures var after := |Attempt(u, idx, data).staged.value|;
      Reached(u, last[idx := data], after) && PartsInside(u, last[idx := data], after)
  {
    var next, size := last[idx := data], |u.staged.GetOr([])|;
    var after := |Attempt(u, idx, data).staged.value|;
    assert Start(u, idx) == idx * u.chunkSize;
    assert after == if idx * u.chunkSize + |data| <= size then size else idx * u.chunkSize + |data|;
    if idx != u.chunksCount - 1 { Scale(idx, u.chunksCount - 1, u.chunkSize); }
    forall i | i in next ensures PartInFile(u, i, next[i], after) {
      if i != idx { assert PartInFile(u, i, last[i], size); }
    }
  }

  lemma AttemptKeepsParts(u: Upload, last: map<int, Bytes>, idx: int, data: Bytes)
    requires Planned(u) && OnlyParts(u, last)
    ensures OnlyParts(Attempt(u, idx, data), if Accepts(u, idx, data) then last[idx := data] else last)
  {
    if Accepts(u, idx, data) {
      PartRange(u, idx);
      SizeAfterPart(u, last, idx, data);
      BytesAfterPart(u, last, idx, data);
      assert idx in last[idx := data];
      SamePlan(u, Attempt(u, idx, data), last[idx := data]);
    }
  }

  lemma BytesAfterPart(u: Upload, last: map<int, Bytes>, idx: int, data: Bytes)
    requires OnlyParts(u, last) && Accepts(u, idx, data)
    ensures BytesOfParts(u, last[idx := data], Attempt(u, idx, data).staged.value)
  {
    var after := Attempt(u, idx, data).staged.value;
    forall b: nat | b < |after|
      ensures after[b] == ByteOfParts(u, last[idx := data], b)
    {
      ByteAfterPart(u, last, idx, data, b);
    }
  }

  /** All of this depends on the plan of the upload only. */
  lemma SamePlan(u: Upload, v: Upload, last: map<int, Bytes>)
    requires v == u.(chunks := v.chunks, chunksUploaded := v.chunksUploaded, staged := v.staged) && v.staged.Some?
    requires 0 < u.chunkSize && u.pending && 0 < u.chunksCount && last != map[]
    requires Reached(u, last, |v.staged.value|)
    requires PartsInside(u, last, |v.staged.value|) && BytesOfParts(u, last, v.staged.value)
    ensures OnlyParts(v, last)
  {
    var file := v.staged.value;
    forall i | i in last ensures PartInFile(v, i, last[i], |file|) { assert PartInFile(u, i, last[i], |file|); }
    forall b: nat | b < |file| ensures file[b] == ByteOfParts(v, last, b) { assert file[b] == ByteOfParts(u, last, b); }
  }

  /** Every part has been counted. */
  ghost predicate AllCounted(u: Upload) {
    (forall i :: i in u.chunks <==> 0 <= i < u.chunksCount) && |u.chunks| == u.chunksCount
  }

  /** What a failed completion leaves: every part counted, no staged file. */
  ghost predicate LostFile(u: Upload) {
    Planned(u) && u.pending && 0 < u.chunksCount && u.staged == None && AllCounted(u) &&
      u.chunksUploaded == u.chunksCount
  }

  lemma {:induction false} RunAfterLoss(u: Upload, attempts: seq<PartUpload>)
    requires LostFile(u)
    ensures Run(u, attempts) == u.(staged := Run(u, attempts).staged)
    ensures OnlyParts(Run(u, attempts), LastAccepted(u, attempts))
  {
    if attempts != [] {
      var n := |attempts| - 1;
      RunAfterLoss(u, attempts[..n]);
      var v, e := Run(u, attempts[..n]), attempts[n];
      AttemptKeepsParts(v, LastAccepted(u, attempts[..n]), e.idx, e.data);
      CountedAlready(v, e.idx, e.data);
      assert Accepts(v, e.idx, e.data) == Accepts(u, e.idx, e.data);
    } else {
      assert OnlyParts(u, map[]);
    }
  }

  lemma CountedAlready(u: Upload, idx: int, data: Bytes)
    requires AllCounted(u)
    ensures Attempt(u, idx, data) == u.(staged := Attempt(u, idx, data).staged)
  {
    if Accepts(u, idx, data) { assert u.chunks + {idx} == u.chunks; }
  }

  /**
   After a completion that could not persist, the next one accepts as soon as the last
   part has been uploaded again, whatever became of the others: every part not uploaded
   again is zeros in the file it takes.
   */
  lemma CompletionAfterFailedPersist(u: Upload, attempts: seq<PartUpload>)
    requires LostFile(u)
    ensures var v := Run(u, attempts); var last := LastAccepted(u, attempts);
      && (CompleteError(v) == None <==> u.chunksCount - 1 in last)
      && (CompleteError(v) == None ==>
            && v.staged.Some? && |v.staged.value| == u.fileSize
            && forall b: nat :: b < u.fileSize ==> v.staged.value[b] == ByteOfParts(u, last, b))
  {
    RunAfterLoss(u, attempts);
    var v, last := Run(u, attempts), LastAccepted(u, attempts);
    var top := u.chunksCount - 1;
    PartRange(u, top);
    if top in last { assert PartInFile(v, top, last[top], |v.staged.GetOr([])|); }
    forall b: nat | b < |v.staged.GetOr([])| ensures v.staged.GetOr([])[b] == ByteOfParts(u, last, b) {
      assert v.staged.GetOr([])[b] == ByteOfParts(v, last, b);
    }
  }

  /** The data of every part, each of its expected length. */
  ghost predicate DataOfAll(u: Upload, sent: map<int, Bytes>) {
    forall i :: 0 <= i < u.chunksCount ==> i in sent && |sent[i]| == Expected(u, i)
  }

  predicate AllZero(data: Bytes) {
    forall k :: 0 <= k < |data| ==> data[k] == 0
  }

  /** Every part that was not sent again was nothing but zeros. */
  ghost predicate OthersAreZero(u: Upload, sent: map<int, Bytes>, last: map<int, Bytes>) {
    forall i :: 0 <= i < u.chunksCount && i !in last ==> i in sent && AllZero(sent[i])
  }

  /** Every byte of the file is the one its part was last given. */
  ghost predicate FileIs(u: Upload, file: Bytes, data: map<int, Bytes>) {
    forall b :: 0 <= b < u.fileSize ==> ByteFromPart(u, file, data, b)
  }

  /**
   The file taken after a failed persist is exactly what the client sent, before the
   loss or after it, if and only if every part not sent again was nothing but zeros.
   */
  lemma ExactAfterFailedPersistIff(u: Upload, sent: map<int, Bytes>, attempts: seq<PartUpload>)
    requires LostFile(u) && DataOfAll(u, sent) && CompleteError(Run(u, attempts)) == None
    ensures var last := LastAccepted(u, attempts);
      FileIs(u, Run(u, attempts).staged.value, sent + last) <==> OthersAreZero(u, sent, last)
  {
    var last := LastAccepted(u, attempts);
    var file := Run(u, attempts).staged.value;
    RunAfterLoss(u, attempts);
    CompletionAfterFailedPersist(u, attempts);
    if OthersAreZero(u, sent, last) {
      forall b | 0 <= b < u.fileSize ensures ByteFromPart(u, file, sent + last, b) {
        ByteOfEither(u, sent, last, file, b);
      }
    }
    if FileIs(u, file, sent + last) {
      forall i | 0 <= i < u.chunksCount && i !in last ensures i in sent && AllZero(sent[i]) {
        ZeroPart(u, sent, last, file, i);
      }
    }
  }

  lemma ByteOfEither(u: Upload, sent: map<int, Bytes>, last: map<int, Bytes>, file: Bytes, b: nat)
    requires Planned(u) && 0 < u.chunksCount && b < u.fileSize && |file| == u.fileSize
    requires DataOfAll(u, sent) && PartsInside(u, last, |file|) && OthersAreZero(u, sent, last)
    requires file[b] == ByteOfParts(u, last, b)
    ensures ByteFromPart(u, file, sent + last, b)
  {
    BytePosition(u, b);
    var i := b / u.chunkSize;
    if i in last { assert PartInFile(u, i, last[i], |file|); }
  }

  lemma ZeroPart(u: Upload, sent: map<int, Bytes>, last: map<int, Bytes>, file: Bytes, i: int)
    requires Planned(u) && 0 <= i < u.chunksCount && i !in last && |file| == u.fileSize
    requires DataOfAll(u, sent) && FileIs(u, file, sent + last)
    requires forall b: nat :: b < u.fileSize ==> file[b] == ByteOfParts(u, last, b)
    ensures AllZero(sent[i])
  {
    PartRange(u, i);
    forall k | 0 <= k < |sent[i]| ensures sent[i][k] == 0 {
      var b := i * u.chunkSize + k;
      PartOfByte(u.chunkSize, i, b);
      assert ByteFromPart(u, file, sent + last, b);
      assert file[b] == ByteOfParts(u, last, b);
    }
  }

  lemma {:induction false} LastAcceptedAppend(u: Upload, v: Upload, first: seq<PartUpload>, again: seq<PartUpload>)
    requires v == u.(chunks := v.chunks, chunksUploaded := v.chunksUploaded, staged := v.staged)
    ensures LastAccepted(u, first + again) == LastAccepted(u, first) + LastAccepted(v, again)
  {
    if again == [] {
      assert first + again == first;
    } else {
      var n := |again| - 1;
      assert (first + again)[..|first + again| - 1] == first + again[..n];
      LastAcceptedAppend(u, v, first, again[..n]);
      assert Accepts(u, again[n].idx, again[n].data) == Accepts(v, again[n].idx, again[n].data);
    }
  }

  /**
   Over the whole life of a task: a complete upload, a completion that cannot persist,
   more uploads, and a completion that accepts. Every byte of the file taken comes from
   the last accepted upload of its part if and only if each part not sent again was
   nothing but zeros.
   */
  lemma ExactOverWholeLifeIff(u: Upload, first: seq<PartUpload>, again: seq<PartUpload>)
    requires Planned(u) && u.pending && u.chunks == {} && u.chunksUploaded == 0 && u.staged == None
    requires CompleteError(Run(u, first)) == None
    ensures var lost := AfterCompletion(Run(u, first), false, false);
      var file, all := Run(lost, again).staged.GetOr([]), LastAccepted(u, first + again);
      var harmless := OthersAreZero(u, LastAccepted(u, first), LastAccepted(lost, again));
      CompleteError(Run(lost, again)) == None ==> (FileIs(u, file, all) <==> harmless)
  {
    var lost, sent := AfterCompletion(Run(u, first), false, false), LastAccepted(u, first);
    CompleteUploadLost(u, first);
    LastAcceptedAppend(u, lost, first, again);
    if CompleteError(Run(lost, again)) == None {
      ExactAfterFailedPersistIff(lost, sent, again);
      SamePlanSameFile(u, lost, Run(lost, again).staged.value, sent + LastAccepted(lost, again));
    }
  }

  /** What a failed persist leaves of a complete upload: a lost file of the same plan, all of whose parts were sent. */
  lemma CompleteUploadLost(u: Upload, first: seq<PartUpload>)
    requires Planned(u) && u.pending && u.chunks == {} && u.chunksUploaded == 0 && u.staged == None
    requires CompleteError(Run(u, first)) == None
    ensures var lost := AfterCompletion(Run(u, first), false, false);
      && lost == u.(chunks := lost.chunks, chunksUploaded := lost.chunksUploaded, staged := lost.staged)
      && LostFile(lost) && DataOfAll(lost, LastAccepted(u, first))
  {
    RunHolds(u, first);
    CompletionIsExact(u, first);
    FailedPersistLosesTheFile(u, first);
    forall i | 0 <= i < u.chunksCount ensures i in LastAccepted(u, first) {
      assert HoldsPart(Run(u, first), i, LastAccepted(u, first)[i]);
    }
  }

  lemma SamePlanSameFile(u: Upload, v: Upload, file: Bytes, data: map<int, Bytes>)
    requires v.fileSize == u.fileSize && v.chunkSize == u.chunkSize
    ensures FileIs(u, file, data) <==> FileIs(v, file, data)
  {
    forall b ensures ByteFromPart(u, file, data, b) <==> ByteFromPart(v, file, data, b) {}
  }

  /** A completion of a complete upload that cannot persist leads there. */
  lemma FailedPersistLosesTheFile(u: Upload, attempts: seq<PartUpload>)
    requires Planned(u) && u.pending && u.chunks == {} && u.chunksUploaded == 0 && u.staged == None
    requires CompleteError(Run(u, attempts)) == None
    ensures Completion(Run(u, attempts), false, false) == Err(NotPersisted)
    ensures LostFile(AfterCompletion(Run(u, attempts), false, false))
  {
    var v := Run(u, attempts);
    RunHolds(u, attempts);
    var last := LastAccepted(u, attempts);
    forall i | i in v.chunks ensures 0 <= i < u.chunksCount { assert HoldsPart(v, i, last[i]); }
    FullSet(v.chunks, u.chunksCount);
  }

  /** Two parts of one byte, 1 and 2; persisting fails; only the second is sent again; the file taken is 0, 2. */
  lemma ZerosAreAccepted()
    ensures var u := Upload(2, 1, 2, true, {0, 1}, 2, None); var again := [PartUpload(1, [2])];
      LostFile(u) && CompleteError(Run(u, again)) == None && Run(u, again).staged == Some([0, 2])
  {
    var u, again := Upload(2, 1, 2, true, {0, 1}, 2, None), [PartUpload(1, [2])];
    assert Sum64(2) == 2 && PlannedChunks(2, 1) == 2;
    assert LostFile(u);
    assert again[..0] == [] && Run(u, []) == u && LastAccepted(u, []) == map[];
    assert Accepts(u, 1, [2]);
    assert LastAccepted(u, again) == map[1 := [2]];
    CompletionAfterFailedPersist(u, again);
    var file := Run(u, again).staged.value;
    PartOfByte(1, 0, 0);
    PartOfByte(1, 1, 1);
    assert file[0] == ByteOfParts(u, map[1 := [2]], 0) == 0;
    assert file[1] == ByteOfParts(u, map[1 := [2]], 1) == 2;
    assert file == [0, 2];
  }
}
