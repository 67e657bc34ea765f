/**
 Multipart uploads through gRPC: parts arrive in any order, with retries, in one
 staged file; internal/grpcsvc/upload_service.go with WriteUploadChunk and
 UpdateUploadedChunk of internal/service/service.go.
 */
module ChunkedUpload {
  import opened Common

  type Bytes = seq<bv8>

  const MAX_INT64 := 0x7fff_ffff_ffff_ffff
  const MAX_INT32 := 0x7fff_ffff
  const TWO_64 := 0x1_0000_0000_0000_0000

  /** defaultMultipartChunkSize. */
  const DEFAULT_CHUNK_SIZE := 5 * 1024 * 1024

  /** What int64 arithmetic makes of an exact result. */
  function Wrap64(x: int): (r: int)
    ensures IsInt64(r) && (IsInt64(x) ==> r == x)
  {
    var low := x % TWO_64;
    if low > MAX_INT64 then low - TWO_64 else low
  }

  /** The same for the sum of two int64 values, which wraps around at most once. */
  function Sum64(x: int): int {
    if x > MAX_INT64 then x - TWO_64 else if x < -MAX_INT64 - 1 then x + TWO_64 else x
  }

  lemma SumWrapsOnce(x: int)
    requires -TWO_64 <= x < TWO_64
    ensures Sum64(x) == Wrap64(x)
  {
  }

  predicate IsInt64(x: int) {
    -MAX_INT64 - 1 <= x <= MAX_INT64
  }

  /** Go's integer division, which truncates towards zero. */
  function Quotient(x: int, y: int): int
    requires y > 0
  {
    if x >= 0 then x / y else -((-x) / y)
  }

  /** (fileSize + chunkSize - 1) / chunkSize as int64 arithmetic computes it. */
  function PlannedChunks(fileSize: int, chunkSize: int): int
    requires chunkSize > 0
  {
    Quotient(Sum64(fileSize + chunkSize - 1), chunkSize)
  }

  /**
   Without overflow the plan is the ceiling; with overflow it is never positive, so such
   an upload takes no part at all.
   */
  lemma PlannedChunksMeaning(fileSize: int, chunkSize: int)
    requires 0 < fileSize <= MAX_INT64 && 0 < chunkSize <= MAX_INT64
    ensures var n := PlannedChunks(fileSize, chunkSize);
      if fileSize + chunkSize - 1 <= MAX_INT64 then 0 < n && (n - 1) * chunkSize < fileSize <= n * chunkSize else n <= 0
  {
    var sum := fileSize + chunkSize - 1;
    if sum <= MAX_INT64 {
      DivMod(sum, chunkSize);
    } else {
      DivMod(TWO_64 - sum, chunkSize);
      assert Quotient(sum - TWO_64, chunkSize) == -((TWO_64 - sum) / chunkSize);
    }
  }

  /** The task row, its upload_chunks rows and the staged file. */
  datatype Upload = Upload(
    fileSize: int, chunkSize: int, chunksCount: int, pending: bool,
    chunks: set<int>, chunksUploaded: int, staged: Option<Bytes>)

  datatype Error =
    | InvalidFileSize | TooManyParts | NotPending | IndexOutOfRange | WrongPartSize
    | Incomplete | QuotaExceeded | SourceUnavailable | WrongSourceSize | NotPersisted

  /** What CreateMultipartUpload guarantees about a task. */
  ghost predicate Planned(u: Upload) {
    && 0 < u.fileSize <= MAX_INT64 && 0 < u.chunkSize <= MAX_INT64
    && u.chunksCount == PlannedChunks(u.fileSize, u.chunkSize)
  }

  /** Bytes expected in one part: a full chunk, or what remains for the last one. */
  function Expected(u: Upload, idx: int): int {
    if u.fileSize - idx * u.chunkSize < u.chunkSize then u.fileSize - idx * u.chunkSize else u.chunkSize
  }

  /** Where a part starts in the staged file. */
  function Start(u: Upload, idx: int): nat {
    if idx <= 0 || u.chunkSize <= 0 then 0 else idx * u.chunkSize
  }

  function Zeros(n: nat): Bytes {
    seq(n, _ => 0)
  }

  /** The byte at position b after a write: the written one, else the old one, else a zero-filled gap. */
  function ByteAfter(file: Bytes, offset: nat, data: Bytes, b: nat): bv8 {
    if offset <= b < offset + |data| then data[b - offset] else if b < |file| then file[b] else 0
  }

  /** WriteAt: overwrite at the offset, zero-filling a gap and growing the file as needed. */
  function WriteAt(file: Bytes, offset: nat, data: Bytes): (r: Bytes)
    ensures |r| == if data == [] || offset + |data| <= |file| then |file| else offset + |data|
    ensures forall b :: 0 <= b < |r| ==> r[b] == ByteAfter(file, offset, data, b)
  {
    if data == [] then file
    else
      var padded := if |file| < offset then file + Zeros(offset - |file|) else file;
      padded[..offset] + data + if offset + |data| < |padded| then padded[offset + |data|..] else []
  }

  /** Consecutive writes of an io.Copy amount to one write. */
  lemma WriteAtTwice(file: Bytes, offset: nat, a: Bytes, b: Bytes)
    ensures WriteAt(WriteAt(file, offset, a), offset + |a|, b) == WriteAt(file, offset, a + b)
  {
    var first := WriteAt(file, offset, a);
    var two, one := WriteAt(first, offset + |a|, b), WriteAt(file, offset, a + b);
    assert |two| == |one|;
    forall i | 0 <= i < |one| ensures two[i] == one[i] {
      assert two[i] == ByteAfter(first, offset + |a|, b, i);
      assert one[i] == ByteAfter(file, offset, a + b, i);
      if i < |first| { assert first[i] == ByteAfter(file, offset, a, i); }
    }
  }

  lemma WriteStores(file: Bytes, offset: nat, data: Bytes)
    requires data != []
    ensures var r := WriteAt(file, offset, data); offset + |data| <= |r| && r[offset..offset + |data|] == data
  {
    var r := WriteAt(file, offset, data);
    forall i | 0 <= i < |data| ensures r[offset + i] == data[i] {
      assert r[offset + i] == ByteAfter(file, offset, data, offset + i);
    }
  }

  lemma WriteSparesOthers(file: Bytes, offset: nat, data: Bytes, at: nat, n: nat)
    requires at + n <= |file| && (at + n <= offset || offset + |data| <= at)
    ensures var r := WriteAt(file, offset, data); at + n <= |r| && r[at..at + n] == file[at..at + n]
  {
    var r := WriteAt(file, offset, data);
    forall b | at <= b < at + n ensures r[b] == file[b] {
      assert r[b] == ByteAfter(file, offset, data, b);
    }
  }

  // ----- one part -----

  predicate Accepts(u: Upload, idx: int, data: Bytes) {
    u.pending && 0 <= idx < u.chunksCount && |data| == Expected(u, idx)
  }

  /** The part ends where the next one starts, or with the file. */
  lemma AcceptsIff(u: Upload, idx: int, data: Bytes)
    ensures Accepts(u, idx, data) <==>
      && u.pending && 0 <= idx < u.chunksCount
      && var next := idx * u.chunkSize + u.chunkSize;
         idx * u.chunkSize + |data| == if next < u.fileSize then next else u.fileSize
  {
  }

  /** An attempt to upload a part: a rejected one leaves no trace. */
  function Attempt(u: Upload, idx: int, data: Bytes): Upload {
    if !Accepts(u, idx, data) then u
    else u.(
      staged := Some(WriteAt(u.staged.GetOr([]), Start(u, idx), data)),
      chunks := u.chunks + {idx},
      chunksUploaded := if idx in u.chunks then u.chunksUploaded else u.chunksUploaded + 1)
  }

  datatype PartUpload = PartUpload(idx: int, data: Bytes)

  function Run(u: Upload, attempts: seq<PartUpload>): Upload {
    if attempts == [] then u
    else
      var n := |attempts| - 1;
      Attempt(Run(u, attempts[..n]), attempts[n].idx, attempts[n].data)
  }

  /** For every part index, the data of its last accepted upload. */
  function LastAccepted(u: Upload, attempts: seq<PartUpload>): map<int, Bytes> {
    if attempts == [] then map[]
    else
      var n := |attempts| - 1;
      var before := LastAccepted(u, attempts[..n]);
      if Accepts(u, attempts[n].idx, attempts[n].data) then before[attempts[n].idx := attempts[n].data] else before
  }

  /** populateUploadedChunks and the checks of CompleteMultipartUpload. */
  function CompleteError(u: Upload): Option<Error> {
    var uploaded := if u.chunks == {} then u.chunksUploaded else |u.chunks|;
    if !u.pending then Some(NotPending)
    else if u.chunksCount <= 0 || uploaded != u.chunksCount then Some(Incomplete)
    else if u.staged == None then Some(SourceUnavailable)
    else if |u.staged.value| != u.fileSize then Some(WrongSourceSize)
    else None
  }

  /** The answer of a completion, given whether the workspace is over its quota and whether persisting works. */
  function Completion(u: Upload, overQuota: bool, persisted: bool): Result<Bytes, Error> {
    var problem := CompleteError(u);
    if problem == Some(NotPending) || problem == Some(Incomplete) then Err(problem.value)
    else if overQuota then Err(QuotaExceeded)
    else if problem.Some? then Err(problem.value)
    else if !persisted then Err(NotPersisted)
    else Ok(u.staged.value)
  }

  /** A completion that cannot persist removes the staged file and keeps the counted chunks. */
  function AfterCompletion(u: Upload, overQuota: bool, persisted: bool): Upload {
    match Completion(u, overQuota, persisted)
    case Ok(_) => u.(pending := false)
    case Err(NotPersisted) => u.(staged := None)
    case Err(_) => u
  }

  // ----- what the staged file holds -----

  /** Part i's range of the staged file. */
  ghost predicate HoldsPart(u: Upload, i: int, data: Bytes) {
    && 0 <= i < u.chunksCount && |data| == Expected(u, i) && u.staged.Some?
    && var at := i * u.chunkSize; 0 <= at && at + |data| <= |u.staged.value| && u.staged.value[at..at + |data|] == data
  }

  ghost predicate Holds(u: Upload, last: map<int, Bytes>) {
    && Planned(u)
    && u.chunks == last.Keys && u.chunksUploaded == |u.chunks|
    && (u.staged == None <==> u.chunks == {})
    && (u.staged.Some? ==> |u.staged.value| <= u.fileSize)
    && forall i :: i in last ==> HoldsPart(u, i, last[i])
  }

  /** A valid index starts inside the file, and different parts do not overlap. */
  lemma PartRange(u: Upload, i: int)
    requires Planned(u) && 0 <= i < u.chunksCount
    ensures 0 <= i * u.chunkSize < u.fileSize
    ensures 0 < Expected(u, i) <= u.chunkSize && i * u.chunkSize + Expected(u, i) <= u.fileSize
    ensures i == u.chunksCount - 1 ==> i * u.chunkSize + Expected(u, i) == u.fileSize
  {
    PlannedChunksMeaning(u.fileSize, u.chunkSize);
    Scale(0, i, u.chunkSize);
    Scale(i, u.chunksCount - 1, u.chunkSize);
  }

  lemma Scale(i: int, j: int, c: int)
    requires i <= j && c > 0
    ensures i * c <= j * c
    ensures i < j ==> i * c + c <= j * c
  {
    if i < j { assert (j - i - 1) * c >= 0; }
  }

  /** Writing one part leaves every other part in place. */
  lemma OtherPartSurvives(u: Upload, idx: int, data: Bytes, i: int, part: Bytes)
    requires 0 < u.chunkSize && Accepts(u, idx, data) && i != idx && HoldsPart(u, i, part)
    ensures HoldsPart(Attempt(u, idx, data), i, part)
  {
    if i < idx { Scale(i, idx, u.chunkSize); } else { Scale(idx, i, u.chunkSize); }
    WriteSparesOthers(u.staged.value, idx * u.chunkSize, data, i * u.chunkSize, |part|);
  }

  lemma WrittenPartIsHeld(u: Upload, idx: int, data: Bytes)
    requires Planned(u) && Accepts(u, idx, data)
    ensures HoldsPart(Attempt(u, idx, data), idx, data)
    ensures
      var before := |u.staged.GetOr([])|;
      before <= u.fileSize ==> |Attempt(u, idx, data).staged.value| <= u.fileSize
  {
    PartRange(u, idx);
    WriteStores(u.staged.GetOr([]), idx * u.chunkSize, data);
  }

  lemma AttemptKeeps(u: Upload, last: map<int, Bytes>, idx: int, data: Bytes)
    requires Holds(u, last)
    ensures Holds(Attempt(u, idx, data), if Accepts(u, idx, data) then last[idx := data] else last)
  {
    if Accepts(u, idx, data) {
      var v := Attempt(u, idx, data);
      var next := last[idx := data];
      WrittenPartIsHeld(u, idx, data);
      ChunkIsCountedOnce(u, idx, data);
      PartsAreHeld(u, last, idx, data);
      assert v.chunks == next.Keys;
    }
  }

  lemma PartsAreHeld(u: Upload, last: map<int, Bytes>, idx: int, data: Bytes)
    requires Holds(u, last) && Accepts(u, idx, data)
    ensures var next := last[idx := data]; forall i :: i in next ==> HoldsPart(Attempt(u, idx, data), i, next[i])
  {
    var next := last[idx := data];
    WrittenPartIsHeld(u, idx, data);
    forall i | i in next ensures HoldsPart(Attempt(u, idx, data), i, next[i]) {
      if i != idx { OtherPartSurvives(u, idx, data, i, last[i]); }
    }
  }

  lemma ChunkIsCountedOnce(u: Upload, idx: int, data: Bytes)
    requires u.chunksUploaded == |u.chunks|
    ensures Attempt(u, idx, data).chunksUploaded == |Attempt(u, idx, data).chunks|
  {
    if idx in u.chunks { assert u.chunks + {idx} == u.chunks; }
  }

  lemma {:induction false} RunHolds(u: Upload, attempts: seq<PartUpload>)
    requires Planned(u) && u.pending && u.chunks == {} && u.chunksUploaded == 0 && u.staged == None
    ensures Holds(Run(u, attempts), LastAccepted(u, attempts))
    ensures Run(u, attempts) ==
      u.(chunks := Run(u, attempts).chunks, chunksUploaded := Run(u, attempts).chunksUploaded,
        staged := Run(u, attempts).staged)
  {
    if attempts != [] {
      var n := |attempts| - 1;
      RunHolds(u, attempts[..n]);
      AttemptKeeps(Run(u, attempts[..n]), LastAccepted(u, attempts[..n]), attempts[n].idx, attempts[n].data);
    }
  }

  // ----- completion -----

  function Upto(n: nat): (s: set<int>)
    ensures |s| == n && forall i :: i in s <==> 0 <= i < n
  {
    if n == 0 then {} else Upto(n - 1) + {n - 1}
  }

  lemma FullSet(s: set<int>, n: nat)
    requires |s| == n && forall i :: i in s ==> 0 <= i < n
    ensures forall i :: 0 <= i < n ==> i in s
  {
    var missing := Upto(n) - s;
    assert |Upto(n)| == |s| + |missing| by { assert Upto(n) == s + missing; }
    forall i | 0 <= i < n ensures i in s { assert i in Upto(n) && i !in missing; }
  }

  /** There is at least one part, and every part index has data. */
  ghost predicate EveryPart(u: Upload, last: map<int, Bytes>) {
    u.chunksCount > 0 && forall i :: 0 <= i < u.chunksCount ==> i in last
  }

  lemma AllPartsIffCount(chunks: set<int>, last: map<int, Bytes>, n: nat)
    requires chunks == last.Keys && forall i :: i in chunks ==> 0 <= i < n
    ensures |chunks| == n <==> forall i :: 0 <= i < n ==> i in last
  {
    if |chunks| == n {
      FullSet(chunks, n);
      forall i | 0 <= i < n ensures i in last { assert i in chunks; }
    }
    if forall i :: 0 <= i < n ==> i in last { assert chunks == Upto(n); }
  }

  lemma DivMod(b: nat, c: int)
    requires c > 0
    ensures b == b / c * c + b % c && 0 <= b % c < c && 0 <= b / c
  {
  }

  /** Which part a byte belongs to, and where it stands in it. */
  lemma PartOfByte(c: int, i: int, b: nat)
    requires 0 < c && 0 <= i
    ensures b / c == i <==> i * c <= b < i * c + c
    ensures i * c <= b < i * c + c ==> b % c == b - i * c
  {
    DivMod(b, c);
    var q := b / c;
    if q < i { Scale(q, i, c); }
    if i < q { Scale(i, q, c); }
  }

  /** Every byte of the file belongs to exactly one part: the one its position divides to. */
  lemma BytePosition(u: Upload, b: nat)
    requires Planned(u) && b < u.fileSize && u.chunksCount > 0
    ensures 0 <= b / u.chunkSize < u.chunksCount && b % u.chunkSize < Expected(u, b / u.chunkSize)
    ensures b == b / u.chunkSize * u.chunkSize + b % u.chunkSize
  {
    PlannedChunksMeaning(u.fileSize, u.chunkSize);
    DivMod(b, u.chunkSize);
    if b / u.chunkSize >= u.chunksCount { Scale(u.chunksCount, b / u.chunkSize, u.chunkSize); }
  }

  /**
   After any sequence of part uploads, in any order, with retries and rejections:
   completion accepts exactly when every part has been accepted at least once, and
   then the staged file has the declared size and each byte comes from the last
   accepted upload of its part.
   */
  lemma CompletionIsExact(u: Upload, attempts: seq<PartUpload>)
    requires Planned(u) && u.pending && u.chunks == {} && u.chunksUploaded == 0 && u.staged == None
    ensures var v := Run(u, attempts); var last := LastAccepted(u, attempts);
      && v.chunksUploaded == |v.chunks|
      && (CompleteError(v) == None <==> EveryPart(u, last))
      && CompleteError(v) != Some(WrongSourceSize) && CompleteError(v) != Some(SourceUnavailable)
      && (CompleteError(v) == None ==>
            && v.staged.Some? && |v.staged.value| == u.fileSize
            && forall b :: 0 <= b < u.fileSize ==> ByteFromPart(u, v.staged.value, last, b))
  {
    RunHolds(u, attempts);
    var v, last := Run(u, attempts), LastAccepted(u, attempts);
    forall i | i in v.chunks ensures 0 <= i < u.chunksCount { assert HoldsPart(v, i, last[i]); }
    if u.chunksCount > 0 {
      AllPartsIffCount(v.chunks, last, u.chunksCount);
      if |v.chunks| == u.chunksCount {
        var top := u.chunksCount - 1;
        assert HoldsPart(v, top, last[top]);
        PartRange(v, top);
      }
    }
    assert CompleteError(v) == None <==> EveryPart(u, last);
    if CompleteError(v) == None {
      forall b | 0 <= b < u.fileSize ensures ByteFromPart(u, v.staged.value, last, b) {
        BytePosition(u, b);
        var i := b / u.chunkSize;
        assert i in last && HoldsPart(v, i, last[i]);
        var at := i * u.chunkSize;
        assert v.staged.value[at..at + |last[i]|][b % u.chunkSize] == v.staged.value[b];
      }
    }
  }

  // ----- a file cut into parts -----

  /** The piece of the content that stands at the part's place. */
  function Piece(content: Bytes, c: int, i: int): Bytes
    requires 0 < c && 0 <= i && i * c < |content|
  {
    content[i * c..if i * c + c < |content| then i * c + c else |content|]
  }

  ghost predicate IsPiece(content: Bytes, c: int, a: PartUpload)
    requires 0 < c
  {
    0 <= a.idx && a.idx * c < |content| && a.data == Piece(content, c, a.idx)
  }

  ghost predicate EveryPieceSent(content: Bytes, c: int, attempts: seq<PartUpload>) {
    forall i :: 0 <= i && i * c < |content| ==> Sent(attempts, i)
  }

  ghost predicate Sent(attempts: seq<PartUpload>, i: int) {
    exists k :: 0 <= k < |attempts| && attempts[k].idx == i
  }

  lemma PieceIsAccepted(u: Upload, content: Bytes, a: PartUpload)
    requires Planned(u) && u.pending && |content| == u.fileSize && u.fileSize + u.chunkSize - 1 <= MAX_INT64
    requires IsPiece(content, u.chunkSize, a)
    ensures Accepts(u, a.idx, a.data)
  {
    PlannedChunksMeaning(u.fileSize, u.chunkSize);
    if a.idx >= u.chunksCount { Scale(u.chunksCount, a.idx, u.chunkSize); }
  }

  lemma {:induction false} PiecesAreLast(u: Upload, content: Bytes, attempts: seq<PartUpload>)
    requires Planned(u) && u.pending && |content| == u.fileSize && u.fileSize + u.chunkSize - 1 <= MAX_INT64
    requires forall a :: a in attempts ==> IsPiece(content, u.chunkSize, a)
    ensures forall i :: i in LastAccepted(u, attempts) <==> Sent(attempts, i)
    ensures forall i :: i in LastAccepted(u, attempts) ==>
      IsPiece(content, u.chunkSize, PartUpload(i, LastAccepted(u, attempts)[i]))
  {
    if attempts != [] {
      var n := |attempts| - 1;
      assert attempts == attempts[..n] + [attempts[n]];
      PiecesAreLast(u, content, attempts[..n]);
      PieceIsAccepted(u, content, attempts[n]);
      var last, before := LastAccepted(u, attempts), LastAccepted(u, attempts[..n]);
      assert last == before[attempts[n].idx := attempts[n].data];
      forall i ensures i in last <==> Sent(attempts, i) {
        if k :| 0 <= k < |attempts| && attempts[k].idx == i {
          if k < n { assert attempts[..n][k].idx == i; }
        }
        if Sent(attempts[..n], i) {
          var k :| 0 <= k < n && attempts[..n][k].idx == i;
          assert attempts[k].idx == i;
        }
      }
    }
  }

  /** Every byte of the file stands where it stood in the content. */
  lemma PiecesMakeTheContent(u: Upload, content: Bytes, last: map<int, Bytes>, file: Bytes)
    requires Planned(u) && u.chunksCount > 0 && |content| == |file| == u.fileSize
    requires forall i :: i in last ==> IsPiece(content, u.chunkSize, PartUpload(i, last[i]))
    requires forall b :: 0 <= b < u.fileSize ==> ByteFromPart(u, file, last, b)
    ensures file == content
  {
    forall b | 0 <= b < u.fileSize ensures file[b] == content[b] {
      assert ByteFromPart(u, file, last, b);
      BytePosition(u, b);
      assert IsPiece(content, u.chunkSize, PartUpload(b / u.chunkSize, last[b / u.chunkSize]));
    }
  }

  /**
   A client that cuts its file at the task's part size and sends the pieces in any order,
   any of them repeatedly: each is accepted, and the completion takes exactly that file
   if and only if every piece was sent.
   */
  lemma CutFileComesBackIff(u: Upload, content: Bytes, attempts: seq<PartUpload>)
    requires Planned(u) && u.pending && u.chunks == {} && u.chunksUploaded == 0 && u.staged == None
    requires |content| == u.fileSize && u.fileSize + u.chunkSize - 1 <= MAX_INT64
    requires forall a :: a in attempts ==> IsPiece(content, u.chunkSize, a)
    ensures forall k :: 0 <= k < |attempts| ==>
      Accepts(Run(u, attempts[..k]), attempts[k].idx, attempts[k].data)
    ensures Completion(Run(u, attempts), false, true) == Ok(content)
      <==> EveryPieceSent(content, u.chunkSize, attempts)
  {
    forall k | 0 <= k < |attempts| ensures Accepts(Run(u, attempts[..k]), attempts[k].idx, attempts[k].data) {
      RunHolds(u, attempts[..k]);
      PieceIsAccepted(Run(u, attempts[..k]), content, attempts[k]);
    }
    var v, last := Run(u, attempts), LastAccepted(u, attempts);
    CompletionIsExact(u, attempts);
    PiecesAreLast(u, content, attempts);
    EveryPartIsEveryPiece(u, content, attempts);
    if CompleteError(v) == None { PiecesMakeTheContent(u, content, last, v.staged.value); }
  }

  lemma EveryPartIsEveryPiece(u: Upload, content: Bytes, attempts: seq<PartUpload>)
    requires Planned(u) && u.pending && |content| == u.fileSize && u.fileSize + u.chunkSize - 1 <= MAX_INT64
    requires forall a :: a in attempts ==> IsPiece(content, u.chunkSize, a)
    ensures EveryPart(u, LastAccepted(u, attempts)) <==> EveryPieceSent(content, u.chunkSize, attempts)
  {
    PiecesAreLast(u, content, attempts);
    PlannedChunksMeaning(u.fileSize, u.chunkSize);
    var last := LastAccepted(u, attempts);
    forall i | 0 <= i ensures i < u.chunksCount <==> i * u.chunkSize < |content| {
      if i < u.chunksCount { Scale(i, u.chunksCount - 1, u.chunkSize); } else { Scale(u.chunksCount, i, u.chunkSize); }
    }
    if EveryPart(u, last) {
      forall i | 0 <= i && i * u.chunkSize < |content| ensures Sent(attempts, i) { assert i in last; }
    }
  }

  /**
   A wrapped part count: the largest file size is accepted, and then no sequence of
   part uploads can ever complete the task, because no part is in range.
   */
  lemma WrappedCountNeverCompletes(attempts: seq<PartUpload>)
    ensures PlannedChunks(MAX_INT64, DEFAULT_CHUNK_SIZE) < 0
    ensures
      var u := Upload(MAX_INT64, DEFAULT_CHUNK_SIZE, PlannedChunks(MAX_INT64, DEFAULT_CHUNK_SIZE), true, {}, 0, None);
      Planned(u) && Run(u, attempts) == u && CompleteError(Run(u, attempts)) == Some(Incomplete)
  {
    var u := Upload(MAX_INT64, DEFAULT_CHUNK_SIZE, PlannedChunks(MAX_INT64, DEFAULT_CHUNK_SIZE), true, {}, 0, None);
    NoPartInRange(u, attempts);
  }

  /** A task with no part in range never changes. */
  lemma {:induction false} NoPartInRange(u: Upload, attempts: seq<PartUpload>)
    requires u.chunksCount <= 0
    ensures Run(u, attempts) == u
  {
    if attempts != [] { NoPartInRange(u, attempts[..|attempts| - 1]); }
  }

  ghost predicate ByteFromPart(u: Upload, file: Bytes, last: map<int, Bytes>, b: int) {
    u.chunkSize > 0 && 0 <= b < |file| &&
    var i := b / u.chunkSize;
    i in last && b % u.chunkSize < |last[i]| && file[b] == last[i][b % u.chunkSize]
  }
}
