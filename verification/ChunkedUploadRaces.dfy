/**
 Parts uploaded in parallel: each upload copies its data into the shared staged file
 buffer by buffer and counts its part afterwards, while others write theirs, the same
 part included, and any of them may stop halfway. Completions read the file buffer by
 buffer too, while uploads that were accepted before go on writing into it.
 */
module ChunkedUploadRaces {
  import opened Common
  import opened ChunkedUpload

  datatype Pc = Idle | Writing(idx: int, data: Bytes, pos: nat)

  /**
   What changes while parts are uploaded. `offered` is every data accepted for a part so
   far, `readers` what each completion under way has read, `taken` the files that
   completions took.
   */
  datatype State = State(
    pending: bool, staged: Option<Bytes>, chunks: set<int>, counted: int,
    writers: map<nat, Pc>, offered: map<int, set<Bytes>>,
    readers: map<nat, Bytes>, taken: seq<Bytes>)

  datatype Step =
    | Begin(agent: nat, idx: int, data: Bytes)
    | WriteBuffer(agent: nat, size: nat)
    | CountPart(agent: nat)
    | Stop(agent: nat)
    | StartRead(agent: nat)
    | ReadBuffer(agent: nat, size: nat)
    | Take(agent: nat)

  function PcOf(s: State, writer: nat): Pc {
    if writer in s.writers then s.writers[writer] else Idle
  }

  function At(s: State, writer: nat, pc: Pc): State {
    s.(writers := s.writers[writer := pc])
  }

  function OfferedFor(s: State, idx: int): set<Bytes> {
    if idx in s.offered then s.offered[idx] else {}
  }

  /** The task row and the staged file; u is the row as it was created. */
  function AsUpload(u: Upload, s: State): Upload {
    u.(pending := s.pending, chunks := s.chunks, chunksUploaded := s.counted, staged := s.staged)
  }

  /** The staged file once the upload has written its next buffer. */
  function FileAfter(u: Upload, s: State, pc: Pc, size: nat): Bytes
    requires CanWrite(pc, size)
  {
    WriteAt(s.staged.GetOr([]), Start(u, pc.idx) + pc.pos, pc.data[pc.pos..pc.pos + size])
  }

  /** One atomic step; a step that is not enabled changes nothing. */
  function Next(u: Upload, s: State, step: Step): State {
    var pc := PcOf(s, step.agent);
    match step
    case Begin(w, idx, data) =>
      if pc.Idle? && s.pending && Accepts(u, idx, data) then
        At(s.(offered := s.offered[idx := OfferedFor(s, idx) + {data}]), w, Writing(idx, data, 0))
      else s
    case WriteBuffer(w, size) =>
      if CanWrite(pc, size) then
        At(s.(staged := Some(FileAfter(u, s, pc, size))), w, Writing(pc.idx, pc.data, pc.pos + size))
      else s
    case CountPart(w) =>
      if pc.Writing? && pc.pos == |pc.data| then
        At(s.(chunks := s.chunks + {pc.idx}, counted := if pc.idx in s.chunks then s.counted else s.counted + 1), w,
          Idle)
      else s
    case Stop(w) => At(s, w, Idle)
    case StartRead(r) =>
      if r !in s.readers && CompleteError(AsUpload(u, s)) == None then s.(readers := s.readers[r := []]) else s
    case ReadBuffer(r, size) =>
      if CanRead(s, r, size) then
        var pos := |s.readers[r]|;
        s.(readers := s.readers[r := s.readers[r] + s.staged.value[pos..pos + size]])
      else s
    case Take(r) =>
      if r in s.readers && s.staged.Some? && |s.readers[r]| == |s.staged.value| then
        s.(pending := false, readers := s.readers - {r}, taken := s.taken + [s.readers[r]])
      else s
  }

  predicate CanRead(s: State, reader: nat, size: nat) {
    reader in s.readers && s.staged.Some? && 0 < size && |s.readers[reader]| + size <= |s.staged.value|
  }

  function Stepper(u: Upload): (State, Step) -> State {
    (s, step) => Next(u, s, step)
  }

  function RunSteps(u: Upload, s: State, steps: seq<Step>): State {
    Fold(Stepper(u), s, steps)
  }

  // ----- one part of the file -----

  /** Byte k of the part that starts here is the one some of these data have there. */
  ghost predicate ByteIsFrom(offered: set<Bytes>, file: Bytes, start: nat, k: nat) {
    start + k < |file| && exists d :: d in offered && k < |d| && d[k] == file[start + k]
  }

  /** So are the first n bytes of the part. */
  ghost predicate Written(offered: set<Bytes>, file: Bytes, start: nat, n: int) {
    forall k: nat :: k < n ==> ByteIsFrom(offered, file, start, k)
  }

  lemma OfferMore(offered: set<Bytes>, more: set<Bytes>, file: Bytes, start: nat, n: int)
    requires offered <= more && Written(offered, file, start, n)
    ensures Written(more, file, start, n)
  {
    forall k: nat | k < n ensures ByteIsFrom(more, file, start, k) { assert ByteIsFrom(offered, file, start, k); }
  }

  /** A write elsewhere leaves the part alone. */
  lemma WriteElsewhere(offered: set<Bytes>, file: Bytes, start: nat, n: int, offset: nat, piece: Bytes)
    requires Written(offered, file, start, n) && (start + n <= offset || offset + |piece| <= start)
    ensures Written(offered, WriteAt(file, offset, piece), start, n)
  {
    var after := WriteAt(file, offset, piece);
    forall k: nat | k < n ensures ByteIsFrom(offered, after, start, k) {
      assert ByteIsFrom(offered, file, start, k);
      assert after[start + k] == ByteAfter(file, offset, piece, start + k);
    }
  }

  /** A buffer of one of the data, at its own place, leaves written what is written and adds its own bytes. */
  lemma WriteOwnBuffer(offered: set<Bytes>, file: Bytes, start: nat, n: int, data: Bytes, pos: nat, size: nat)
    requires data in offered && 0 < size && pos + size <= |data| && Written(offered, file, start, n)
    ensures Written(offered, WriteAt(file, start + pos, data[pos..pos + size]), start, n)
    ensures pos <= n ==> Written(offered, WriteAt(file, start + pos, data[pos..pos + size]), start, pos + size)
  {
    var piece := data[pos..pos + size];
    var after := WriteAt(file, start + pos, piece);
    forall k: nat | k < n || pos <= k < pos + size ensures ByteIsFrom(offered, after, start, k) {
      if k < n { assert ByteIsFrom(offered, file, start, k); }
      assert after[start + k] == ByteAfter(file, start + pos, piece, start + k);
      if pos <= k < pos + size { assert data[k] == piece[k - pos] == after[start + k]; }
    }
  }

  // ----- the invariant -----

  predicate InPlan(u: Upload, idx: int) {
    0 <= idx < u.chunksCount
  }

  ghost predicate WriterInv(u: Upload, s: State, pc: Pc) {
    pc.Writing? ==>
      && InPlan(u, pc.idx) && |pc.data| == Expected(u, pc.idx) && pc.pos <= |pc.data| &&
        pc.data in OfferedFor(s, pc.idx)
      && Written(OfferedFor(s, pc.idx), s.staged.GetOr([]), Start(u, pc.idx), pc.pos)
  }

  ghost predicate PartInv(u: Upload, s: State, idx: int) {
    InPlan(u, idx) && Written(OfferedFor(s, idx), s.staged.GetOr([]), Start(u, idx), Expected(u, idx))
  }

  /** The uploading half of the invariant. */
  ghost predicate PartsInv(u: Upload, s: State) {
    && s.counted == |s.chunks| && |s.staged.GetOr([])| <= u.fileSize
    && (forall idx :: idx in s.chunks ==> PartInv(u, s, idx))
    && (forall w :: w in s.writers ==> WriterInv(u, s, s.writers[w]))
  }

  /** The byte is the one that some accepted upload of its part has at position b of the file. */
  ghost predicate ByteFrom(u: Upload, s: State, value: bv8, b: nat)
    requires u.chunkSize > 0
  {
    exists d :: d in OfferedFor(s, b / u.chunkSize) && b % u.chunkSize < |d| && d[b % u.chunkSize] == value
  }

  ghost predicate BytesFrom(u: Upload, s: State, bytes: Bytes)
    requires u.chunkSize > 0
  {
    forall b: nat :: b < |bytes| ==> ByteFrom(u, s, bytes[b], b)
  }

  ghost predicate AllCounted(u: Upload, s: State) {
    forall i :: InPlan(u, i) ==> i in s.chunks
  }

  /** The completing half: whoever reads has found every part counted and reads accepted bytes. */
  ghost predicate ReadsInv(u: Upload, s: State)
    requires u.chunkSize > 0
  {
    && (s.readers != map[] ==> AllCounted(u, s))
    && (forall r :: r in s.readers ==> BytesFrom(u, s, s.readers[r]))
    && (forall t :: t in s.taken ==> |t| == u.fileSize && BytesFrom(u, s, t))
  }

  ghost predicate Inv(u: Upload, s: State)
    requires u.chunkSize > 0
  {
    PartsInv(u, s) && ReadsInv(u, s)
  }

  // ----- every step keeps it -----

  lemma PartSits(u: Upload, idx: int)
    requires Planned(u) && InPlan(u, idx)
    ensures Start(u, idx) == idx * u.chunkSize && 0 < Expected(u, idx) <= u.chunkSize
    ensures Start(u, idx) + Expected(u, idx) <= u.fileSize
  {
    PartRange(u, idx);
  }

  lemma PartsApart(u: Upload, i: int, j: int)
    requires Planned(u) && InPlan(u, i) && InPlan(u, j) && i != j
    ensures Start(u, i) + Expected(u, i) <= Start(u, j) || Start(u, j) + Expected(u, j) <= Start(u, i)
  {
    PartSits(u, i);
    PartSits(u, j);
    if i < j { Scale(i, j, u.chunkSize); } else { Scale(j, i, u.chunkSize); }
  }

  /** One buffer leaves the first n bytes of any part written. */
  lemma BufferKeepsPart(file: Bytes, offered: set<Bytes>, start: nat, n: int, offset: nat, data: Bytes, pos: nat,
        size: nat)
    requires 0 < size && pos + size <= |data| && Written(offered, file, start, n)
    requires (offset == start && data in offered) || start + n <= offset || offset + |data| <= start
    ensures Written(offered, WriteAt(file, offset + pos, data[pos..pos + size]), start, n)
  {
    if offset == start && data in offered {
      WriteOwnBuffer(offered, file, start, n, data, pos, size);
    } else {
      WriteElsewhere(offered, file, start, n, offset + pos, data[pos..pos + size]);
    }
  }

  predicate CanWrite(pc: Pc, size: nat) {
    pc.Writing? && 0 < size && pc.pos + size <= |pc.data|
  }

  lemma BufferKeeps(u: Upload, s: State, w: nat, size: nat)
    requires Planned(u) && PartsInv(u, s)
    ensures PartsInv(u, Next(u, s, WriteBuffer(w, size)))
  {
    var pc, next := PcOf(s, w), Next(u, s, WriteBuffer(w, size));
    if CanWrite(pc, size) {
      assert WriterInv(u, s, pc);
      PartSits(u, pc.idx);
      forall idx | idx in next.chunks ensures PartInv(u, next, idx) { BufferKeepsCounted(u, s, next, pc, size, idx); }
      forall v | v in next.writers ensures WriterInv(u, next, next.writers[v]) {
        if v == w {
          BufferKeepsItsWriter(u, s, w, size);
        } else {
          BufferKeepsOthers(u, s, next, pc, size, s.writers[v]);
        }
      }
    }
  }

  lemma BufferKeepsCounted(u: Upload, s: State, t: State, pc: Pc, size: nat, idx: int)
    requires Planned(u) && WriterInv(u, s, pc) && CanWrite(pc, size) && PartInv(u, s, idx)
    requires t.offered == s.offered && t.staged == Some(FileAfter(u, s, pc, size))
    ensures PartInv(u, t, idx)
  {
    BufferKeepsWritten(u, s, t, pc, size, idx, Expected(u, idx));
  }

  /** What is written of a part stays written. */
  lemma BufferKeepsWritten(u: Upload, s: State, t: State, pc: Pc, size: nat, idx: int, n: int)
    requires Planned(u) && WriterInv(u, s, pc) && CanWrite(pc, size) && InPlan(u, idx) && n <= Expected(u, idx)
    requires Written(OfferedFor(s, idx), s.staged.GetOr([]), Start(u, idx), n)
    requires t.staged == Some(FileAfter(u, s, pc, size))
    ensures Written(OfferedFor(s, idx), t.staged.value, Start(u, idx), n)
  {
    if idx != pc.idx { PartsApart(u, idx, pc.idx); }
    BufferKeepsPart(
      s.staged.GetOr([]), OfferedFor(s, idx), Start(u, idx), n, Start(u, pc.idx), pc.data, pc.pos, size);
  }

  lemma BufferKeepsItsWriter(u: Upload, s: State, w: nat, size: nat)
    requires WriterInv(u, s, PcOf(s, w)) && CanWrite(PcOf(s, w), size)
    ensures var next := Next(u, s, WriteBuffer(w, size)); WriterInv(u, next, next.writers[w])
  {
    var pc := PcOf(s, w);
    WriteOwnBuffer(OfferedFor(s, pc.idx), s.staged.GetOr([]), Start(u, pc.idx), pc.pos, pc.data, pc.pos, size);
  }

  lemma BufferKeepsOthers(u: Upload, s: State, t: State, pc: Pc, size: nat, other: Pc)
    requires Planned(u) && WriterInv(u, s, pc) && CanWrite(pc, size) && WriterInv(u, s, other)
    requires t.offered == s.offered && t.staged == Some(FileAfter(u, s, pc, size))
    ensures WriterInv(u, t, other)
  {
    if other.Writing? { BufferKeepsWritten(u, s, t, pc, size, other.idx, other.pos); }
  }

  /** A step that leaves the file alone and takes nothing offered back leaves what is written. */
  lemma SameFileKeeps(u: Upload, s: State, t: State)
    requires PartsInv(u, s) && t.staged == s.staged && forall i :: OfferedFor(s, i) <= OfferedFor(t, i)
    ensures forall idx :: idx in s.chunks ==> PartInv(u, t, idx)
    ensures forall w :: w in s.writers ==> WriterInv(u, t, s.writers[w])
  {
    var file := s.staged.GetOr([]);
    forall idx | idx in s.chunks ensures PartInv(u, t, idx) {
      assert PartInv(u, s, idx);
      OfferMore(OfferedFor(s, idx), OfferedFor(t, idx), file, Start(u, idx), Expected(u, idx));
    }
    forall w | w in s.writers ensures WriterInv(u, t, s.writers[w]) {
      var pc := s.writers[w];
      assert WriterInv(u, s, pc);
      if pc.Writing? { OfferMore(OfferedFor(s, pc.idx), OfferedFor(t, pc.idx), file, Start(u, pc.idx), pc.pos); }
    }
  }

  lemma StepKeepsParts(u: Upload, s: State, step: Step)
    requires Planned(u) && PartsInv(u, s)
    ensures PartsInv(u, Next(u, s, step))
  {
    var next := Next(u, s, step);
    match step
    case WriteBuffer(w, size) => BufferKeeps(u, s, w, size);
    case CountPart(w) =>
      SameFileKeeps(u, s, next);
      var pc := PcOf(s, w);
      if pc.Writing? {
        assert WriterInv(u, s, pc);
        if pc.idx in s.chunks { assert s.chunks + {pc.idx} == s.chunks; }
      }
    case _ => SameFileKeeps(u, s, next);
  }

  lemma MoreOffered(u: Upload, s: State, t: State, bytes: Bytes)
    requires u.chunkSize > 0 && BytesFrom(u, s, bytes) && forall i :: OfferedFor(s, i) <= OfferedFor(t, i)
    ensures BytesFrom(u, t, bytes)
  {
    forall b: nat | b < |bytes| ensures ByteFrom(u, t, bytes[b], b) {
      assert ByteFrom(u, s, bytes[b], b);
    }
  }

  lemma OfferedGrows(u: Upload, s: State, step: Step)
    ensures forall i :: OfferedFor(s, i) <= OfferedFor(Next(u, s, step), i)
    ensures s.chunks <= Next(u, s, step).chunks
  {
  }

  /** Once every part is counted the whole file is there, made of accepted bytes. */
  lemma WholeFile(u: Upload, s: State)
    requires Planned(u) && 0 < u.chunksCount && PartsInv(u, s) && AllCounted(u, s)
    ensures s.staged.Some? && |s.staged.value| == u.fileSize && BytesFrom(u, s, s.staged.value)
  {
    var top := u.chunksCount - 1;
    var file := s.staged.GetOr([]);
    assert PartInv(u, s, top);
    PartSits(u, top);
    PartRange(u, top);
    assert ByteIsFrom(OfferedFor(s, top), file, Start(u, top), Expected(u, top) - 1);
    forall b: nat | b < u.fileSize ensures ByteFrom(u, s, file[b], b) {
      BytePosition(u, b);
      var i, k := b / u.chunkSize, b % u.chunkSize;
      assert PartInv(u, s, i);
      PartSits(u, i);
      assert ByteIsFrom(OfferedFor(s, i), file, Start(u, i), k);
    }
  }

  /** A completion's checks pass exactly while the task is pending and every part is counted. */
  lemma ChecksPassIff(u: Upload, s: State)
    requires Planned(u) && 0 < u.chunksCount && PartsInv(u, s)
    ensures CompleteError(AsUpload(u, s)) == None <==> s.pending && AllCounted(u, s)
  {
    forall i | i in s.chunks ensures InPlan(u, i) { assert PartInv(u, s, i); }
    CountsAll(s.chunks, u.chunksCount);
    if |s.chunks| == u.chunksCount {
      FullSet(s.chunks, u.chunksCount);
      WholeFile(u, s);
    }
  }

  lemma CountsAll(chunks: set<int>, n: nat)
    requires forall i :: i in chunks ==> 0 <= i < n
    ensures |chunks| == n <==> forall i :: 0 <= i < n ==> i in chunks
  {
    AllPartsIffCount(chunks, map i | i in chunks :: [], n);
  }

  lemma StepKeepsReads(u: Upload, s: State, step: Step)
    requires Planned(u) && 0 < u.chunksCount && Inv(u, s)
    ensures ReadsInv(u, Next(u, s, step))
  {
    var next := Next(u, s, step);
    OfferedGrows(u, s, step);
    if step.StartRead? { ChecksPassIff(u, s); }
    forall t | t in next.taken ensures |t| == u.fileSize && BytesFrom(u, next, t) {
      if t !in s.taken { WholeFile(u, s); }
      MoreOffered(u, s, next, t);
    }
    forall r | r in next.readers ensures BytesFrom(u, next, next.readers[r]) {
      if r in s.readers { ReaderKeeps(u, s, step, r); }
    }
  }

  lemma ReaderKeeps(u: Upload, s: State, step: Step, r: nat)
    requires Planned(u) && 0 < u.chunksCount && Inv(u, s)
    requires r in s.readers && r in Next(u, s, step).readers
    ensures BytesFrom(u, Next(u, s, step), Next(u, s, step).readers[r])
  {
    var next := Next(u, s, step);
    OfferedGrows(u, s, step);
    if step.ReadBuffer? && step.agent == r && CanRead(s, r, step.size) {
      WholeFile(u, s);
      var before := s.readers[r];
      forall b: nat | b < |next.readers[r]| ensures ByteFrom(u, s, next.readers[r][b], b) {
        assert next.readers[r][b] == if b < |before| then before[b] else s.staged.value[b];
      }
    }
    MoreOffered(u, s, next, next.readers[r]);
  }

  lemma StepKeeps(u: Upload, s: State, step: Step)
    requires Planned(u) && 0 < u.chunksCount && Inv(u, s)
    ensures Inv(u, Next(u, s, step))
  {
    StepKeepsParts(u, s, step);
    StepKeepsReads(u, s, step);
  }

  lemma {:induction false} RunKeeps(u: Upload, s: State, steps: seq<Step>)
    requires Planned(u) && 0 < u.chunksCount && Inv(u, s)
    ensures Inv(u, RunSteps(u, s, steps))
    decreases |steps|
  {
    if steps != [] {
      StepKeeps(u, s, steps[0]);
      RunKeeps(u, Next(u, s, steps[0]), steps[1..]);
    }
  }

  // ----- completion -----

  /** A new task with nobody uploading. */
  const NOTHING_YET := State(true, None, {}, 0, map[], map[], map[], [])

  /**
   However uploads of the parts interleave, buffer by buffer, with others of the same
   part, with ones that stop halfway and with completions that are reading: a completion
   starts exactly while the task is pending and every part is counted. The staged file
   then has the declared size, and so has every file taken, late writers or not, and each
   byte of theirs is the one that some accepted upload of its part has there.
   */
  lemma CompletionUnderRaces(u: Upload, steps: seq<Step>)
    requires Planned(u) && 0 < u.chunksCount
    ensures var last := RunSteps(u, NOTHING_YET, steps);
      && (CompleteError(AsUpload(u, last)) == None <==> last.pending && AllCounted(u, last))
      && (AllCounted(u, last) ==>
            last.staged.Some? && |last.staged.value| == u.fileSize && BytesFrom(u, last, last.staged.value))
      && (forall t :: t in last.taken ==> |t| == u.fileSize && BytesFrom(u, last, t))
  {
    RunKeeps(u, NOTHING_YET, steps);
    var last := RunSteps(u, NOTHING_YET, steps);
    ChecksPassIff(u, last);
    if AllCounted(u, last) { WholeFile(u, last); }
  }

  // ----- one mixture -----

  const ONE_PART := Upload(2, 2, 1, true, {}, 0, None)
  const MIXING := [Begin(0, 0, [1, 1]), Begin(1, 0, [2, 2]), WriteBuffer(0, 2), WriteBuffer(1, 1), CountPart(0)]

  lemma RunFive(u: Upload, s: State, steps: seq<Step>)
    requires |steps| == 5
    ensures RunSteps(u, s, steps) ==
      Next(u, Next(u, Next(u, Next(u, Next(u, s, steps[0]), steps[1]), steps[2]), steps[3]), steps[4])
  {
    RunFirst(u, s, steps);
    var s1 := Next(u, s, steps[0]);
    RunFirst(u, s1, steps[1..]);
    var s2 := Next(u, s1, steps[1]);
    RunFirst(u, s2, steps[2..]);
    var s3 := Next(u, s2, steps[2]);
    RunFirst(u, s3, steps[3..]);
    RunFirst(u, Next(u, s3, steps[3]), steps[4..]);
  }

  lemma RunFirst(u: Upload, s: State, steps: seq<Step>)
    requires steps != []
    ensures RunSteps(u, s, steps) == RunSteps(u, Next(u, s, steps[0]), steps[1..])
  {
  }

  /** Two uploads of one part at once: the file taken is neither 1, 1 nor 2, 2. */
  lemma RacesCanMixData()
    ensures Planned(ONE_PART)
    ensures var last := RunSteps(ONE_PART, NOTHING_YET, MIXING);
      CompleteError(AsUpload(ONE_PART, last)) == None && last.staged == Some([2, 1])
  {
    assert Sum64(3) == 3 && PlannedChunks(2, 2) == 1;
    RunFive(ONE_PART, NOTHING_YET, MIXING);
    BothBegun();
    TheMixture(Next(ONE_PART, Next(ONE_PART, NOTHING_YET, MIXING[0]), MIXING[1]));
  }

  lemma BothBegun()
    ensures var s2 := Next(ONE_PART, Next(ONE_PART, NOTHING_YET, MIXING[0]), MIXING[1]);
      && s2.pending && s2.staged == None && s2.chunks == {} && s2.counted == 0
      && PcOf(s2, 0) == Writing(0, [1, 1], 0) && PcOf(s2, 1) == Writing(0, [2, 2], 0)
  {
  }

  lemma TheMixture(s: State)
    requires s.pending && s.staged == None && s.chunks == {} && s.counted == 0
    requires PcOf(s, 0) == Writing(0, [1, 1], 0) && PcOf(s, 1) == Writing(0, [2, 2], 0)
    ensures var last := Next(ONE_PART, Next(ONE_PART, Next(ONE_PART, s, MIXING[2]), MIXING[3]), MIXING[4]);
      last.pending && last.staged == Some([2, 1]) && last.chunks == {0} && last.counted == 1
  {
    var ones, twos: Bytes := [1, 1], [2, 2];
    assert ones[0..2] == ones && twos[0..1] == [2];
    assert WriteAt([], 0, ones) == ones;
    assert WriteAt(ones, 0, [2]) == [2, 1];
  }
}
