/** The gRPC upload service's methods over one task row and its staged file. */
module ChunkedUploadService {
  import opened Common
  import opened ChunkedUpload

  /** The payload of a stream of data messages. */
  function Flatten(messages: seq<Bytes>): Bytes {
    if messages == [] then [] else Flatten(messages[..|messages| - 1]) + messages[|messages| - 1]
  }

  lemma {:induction false} FlattenGrows(messages: seq<Bytes>, i: nat)
    requires i <= |messages|
    ensures |Flatten(messages[..i])| <= |Flatten(messages)|
    decreases |messages|
  {
    var n := |messages| - 1;
    if i == |messages| {
      assert messages[..i] == messages;
    } else {
      FlattenGrows(messages[..n], i);
      assert messages[..n][..i] == messages[..i];
    }
  }

  /** Buffer size of io.Copy. */
  const COPY_BUFFER := 32 * 1024

  lemma CopyStep(file: Bytes, offset: nat, data: Bytes, k: nat, n: nat)
    requires k + n <= |data|
    ensures WriteAt(WriteAt(file, offset, data[..k]), offset + k, data[k..k + n]) ==
      WriteAt(file, offset, data[..k + n])
  {
    assert data[..k + n] == data[..k] + data[k..k + n];
    WriteAtTwice(file, offset, data[..k], data[k..k + n]);
  }

  /** io.Copy into the file at an offset, one buffer after another. */
  method CopyAt(file: Bytes, offset: nat, data: Bytes) returns (copied: Bytes)
    ensures copied == WriteAt(file, offset, data)
  {
    copied := file;
    var written := 0;
    assert WriteAt(file, offset, data[..0]) == file;
    while written < |data|
      invariant 0 <= written <= |data|
      invariant copied == WriteAt(file, offset, data[..written])
    {
      var n := if |data| - written < COPY_BUFFER then |data| - written else COPY_BUFFER;
      CopyStep(file, offset, data, written, n);
      copied := WriteAt(copied, offset + written, data[written..written + n]);
      written := written + n;
    }
    assert data[..|data|] == data;
  }

  method CreateMultipartUpload(fileSize: int, requestedChunkSize: int) returns (result: Result<MultipartUpload, Error>)
    requires -MAX_INT64 - 1 <= fileSize <= MAX_INT64 && -MAX_INT64 - 1 <= requestedChunkSize <= MAX_INT64
    ensures var chunkSize := if requestedChunkSize <= 0 then DEFAULT_CHUNK_SIZE else requestedChunkSize;
      result.Ok? <==> fileSize > 0 && PlannedChunks(fileSize, chunkSize) <= MAX_INT32
    ensures result.Ok? ==>
      && fresh(result.value) && Planned(result.value.State()) && result.value.fileSize == fileSize
      && result.value.pending && result.value.chunks == {} && result.value.chunksUploaded == 0 &&
        result.value.staged == None
    ensures result.Ok? ==>
      result.value.chunkSize == if requestedChunkSize <= 0 then DEFAULT_CHUNK_SIZE else requestedChunkSize
    ensures result == Err(InvalidFileSize) <==> fileSize <= 0
  {
    if fileSize <= 0 { return Err(InvalidFileSize); }
    var chunkSize := if requestedChunkSize <= 0 then DEFAULT_CHUNK_SIZE else requestedChunkSize;
    var chunks := Quotient(Wrap64(fileSize + chunkSize - 1), chunkSize);
    SumWrapsOnce(fileSize + chunkSize - 1);
    if chunks > MAX_INT32 { return Err(TooManyParts); }
    var upload := new MultipartUpload(fileSize, chunkSize, chunks);
    result := Ok(upload);
  }

  /** int64(idx) * chunkSize. */
  function Offset64(u: Upload, idx: int): int {
    Wrap64(idx * u.chunkSize)
  }

  /** The chunk's length: a full one, or what remains of the file. */
  function Expected64(u: Upload, idx: int): int {
    var remaining := Wrap64(u.fileSize - Offset64(u, idx));
    if remaining < u.chunkSize then remaining else u.chunkSize
  }

  /** WriteUploadChunk's own bounds. */
  predicate InRange(u: Upload, idx: int) {
    0 <= idx && 0 < u.chunkSize && 0 < u.fileSize && Offset64(u, idx) < u.fileSize
  }

  /** Without overflow a chunk goes to its own place, and with it never. */
  lemma OffsetIsExactIff(u: Upload, idx: int)
    requires 0 <= idx && 0 < u.chunkSize
    ensures Offset64(u, idx) == idx * u.chunkSize <==> idx * u.chunkSize <= MAX_INT64
  {
  }

  /** A chunk in range is never expected to be empty. */
  lemma NeverNothing(u: Upload, idx: int)
    requires InRange(u, idx) && IsInt64(u.fileSize)
    ensures Expected64(u, idx) != 0
  {
  }

  /** For a part of a planned upload the arithmetic is exact. */
  lemma PlannedIsExact(u: Upload, idx: int)
    requires Planned(u) && 0 <= idx < u.chunksCount
    ensures InRange(u, idx) && Offset64(u, idx) == Start(u, idx) && Expected64(u, idx) == Expected(u, idx)
    ensures 0 < Expected(u, idx) < MAX_INT64
  {
    PartRange(u, idx);
    PlannedChunksMeaning(u.fileSize, u.chunkSize);
  }

  /** io.LimitReader. */
  function AtMost(data: Bytes, limit: int): Bytes {
    if |data| <= limit then data else if limit < 0 then [] else data[..limit]
  }

  /** The receive loop: the data of the stream when it has exactly the expected length. */
  method ReceivePart(messages: seq<Bytes>, expected: int) returns (part: Option<Bytes>)
    requires 0 <= expected
    ensures part == if |Flatten(messages)| == expected then Some(Flatten(messages)) else None
  {
    var received: Bytes := [];
    for i := 0 to |messages|
      invariant received == Flatten(messages[..i]) && |received| <= expected
    {
      assert messages[..i + 1][..i] == messages[..i];
      FlattenGrows(messages, i + 1);
      if |messages[i]| > expected - |received| { return None; }
      received := received + messages[i];
    }
    assert messages[..|messages|] == messages;
    part := if |received| == expected then Some(received) else None;
  }

  class MultipartUpload {
    const fileSize: int
    const chunkSize: int
    const chunksCount: int
    var pending: bool
    var chunks: set<int>
    var chunksUploaded: int
    var staged: Option<Bytes>

    constructor (fileSize: int, chunkSize: int, chunksCount: int)
      ensures State() == Upload(fileSize, chunkSize, chunksCount, true, {}, 0, None)
    {
      this.fileSize, this.chunkSize, this.chunksCount := fileSize, chunkSize, chunksCount;
      pending, chunks, chunksUploaded, staged := true, {}, 0, None;
    }

    ghost function State(): Upload
      reads this
    {
      Upload(fileSize, chunkSize, chunksCount, pending, chunks, chunksUploaded, staged)
    }

    /** The insert-or-nothing on upload_chunks and the conditional increment: recording a chunk twice counts it once. */
    method UpdateUploadedChunk(idx: int)
      modifies this`chunks, this`chunksUploaded
      ensures chunks == old(chunks) + {idx}
      ensures chunksUploaded == old(chunksUploaded) + |chunks| - |old(chunks)|
      ensures chunksUploaded == if idx in old(chunks) then old(chunksUploaded) else old(chunksUploaded) + 1
    {
      if idx in chunks {
        assert chunks + {idx} == chunks;
        return;
      }
      chunks := chunks + {idx};
      chunksUploaded := chunksUploaded + 1;
    }

    /**
     Copies the reader into the staged file at the chunk's offset, at most one byte
     beyond the expected length, in io.Copy's pieces, for any index and any sizes. The
     file is created before anything is written, and no write goes to a negative offset.
     */
    method WriteUploadChunk(idx: int, reader: Bytes) returns (ok: bool)
      requires IsInt64(idx) && IsInt64(chunkSize) && IsInt64(fileSize)
      modifies this`staged
      ensures var u := old(State());
        var limit := Wrap64(Expected64(u, idx) + 1);
        var data := if |reader| <= limit then reader else if 0 <= limit then reader[..limit] else [];
        && (ok <==> InRange(u, idx) && 0 <= Offset64(u, idx) && |data| == Expected64(u, idx))
        && (!InRange(u, idx) ==> staged == old(staged))
        && (InRange(u, idx) ==>
              staged == Some(if Offset64(u, idx) < 0 then u.staged.GetOr([])
                else WriteAt(u.staged.GetOr([]), Offset64(u, idx), data)))
    {
      if idx < 0 || chunkSize <= 0 || fileSize <= 0 { return false; }
      var u := Upload(fileSize, chunkSize, chunksCount, pending, chunks, chunksUploaded, staged);
      var offset, expected := Offset64(u, idx), Expected64(u, idx);
      if offset >= fileSize { return false; }
      if staged == None { staged := Some([]); }
      var data := AtMost(reader, Wrap64(expected + 1));
      if offset < 0 {
        // A write of anything fails, and nothing is not a chunk.
        NeverNothing(u, idx);
        return data == [] && expected == 0;
      }
      var file := CopyAt(staged.value, offset, data);
      staged := Some(file);
      ok := |data| == expected;
    }

    method UploadMultipartPart(idx: int, messages: seq<Bytes>) returns (result: Result<int, Error>)
      requires Planned(State())
      modifies this
      ensures result.Ok? <==> Accepts(old(State()), idx, Flatten(messages))
      ensures result.Ok? ==> result.value == |Flatten(messages)|
      ensures State() == Attempt(old(State()), idx, Flatten(messages))
    {
      if idx < 0 { return Err(IndexOutOfRange); }
      if !pending { return Err(NotPending); }
      if idx >= chunksCount { return Err(IndexOutOfRange); }
      PlannedIsExact(State(), idx);
      var expected := if fileSize - idx * chunkSize < chunkSize then fileSize - idx * chunkSize else chunkSize;
      var part := ReceivePart(messages, expected);
      if part == None { return Err(WrongPartSize); }
      var ok := WriteUploadChunk(idx, part.value);
      assert ok;
      UpdateUploadedChunk(idx);
      result := Ok(|part.value|);
    }

    /**
     The checks, the workspace quota among them, and then the attempt to persist the
     staged bytes. When that fails the staged file is removed all the same, and the task
     stays pending with its counted chunks.
     */
    method CompleteMultipartUpload(overQuota: bool, persisted: bool) returns (result: Result<Bytes, Error>)
      modifies this`pending, this`staged
      ensures result == Completion(old(State()), overQuota, persisted)
      ensures State() == AfterCompletion(old(State()), overQuota, persisted)
      ensures result.Ok? ==> old(pending) && !pending && !overQuota && persisted && old(staged) == Some(result.value)
      ensures result.Ok? ==> |result.value| == fileSize
      ensures result.Err? ==> pending == old(pending)
      ensures result == Err(NotPending) <==> !old(pending)
      ensures result == Err(Incomplete) <==>
        old(pending) &&
          (chunksCount <= 0 || (if old(chunks) == {} then old(chunksUploaded) else |old(chunks)|) != chunksCount)
      ensures result == Err(QuotaExceeded) ==> overQuota
      ensures overQuota ==> result in {Err(NotPending), Err(Incomplete), Err(QuotaExceeded)}
      ensures staged == if result == Err(NotPersisted) then None else old(staged)
    {
      if !pending { return Err(NotPending); }
      var uploaded := if chunks == {} then chunksUploaded else |chunks|;
      if chunksCount <= 0 || uploaded != chunksCount { return Err(Incomplete); }
      if overQuota { return Err(QuotaExceeded); }
      if staged == None { return Err(SourceUnavailable); }
      if |staged.value| != fileSize { return Err(WrongSourceSize); }
      if !persisted {
        staged := None;
        return Err(NotPersisted);
      }
      pending := false;
      result := Ok(staged.value);
    }
  }
}
