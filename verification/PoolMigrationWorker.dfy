/** One worker running a migration task to its end without interruption. */
module PoolMigrationWorker {
  import opened Common
  import opened Text
  import opened PoolMigration
  import opened PoolMigrationRuns

  datatype Error = InvalidParameters | SourceBlobMissing(id: Id)

  /** The live files the task still has to move. */
  function Pending(m: Migration, files: Files): set<Id> {
    set id | id in files && Waiting(m, files, id)
  }

  /** The assumptions of a one-directional migration, together with their goal. */
  ghost predicate Sound(m: Migration, w: World, want: Contents)
    requires m.Valid()
  {
    && DistinctBackends(m) && AllReadable(m, w, want) && KeyNamesContent(w.files, want)
    && (m.Copies() ==> AllCounted(m, w.files))
  }

  lemma MoveFileShrinksPending(m: Migration, w: World, id: Id)
    requires m.Valid() && id in Pending(m, w.files) && MoveFile(m, w, id).Some?
    ensures Pending(m, MoveFile(m, w, id).value.files) == Pending(m, w.files) - {id}
  {
  }

  /** An uninterrupted move is a sequence of the steps that the interleaving model has shown harmless. */
  lemma MoveFileKeepsSound(m: Migration, w: World, want: Contents, id: Id)
    requires m.Valid() && Sound(m, w, want) && id in Pending(m, w.files)
    ensures MoveFile(m, w, id).Some? && Sound(m, MoveFile(m, w, id).value, want)
  {
    var all := m.(scope := None);
    var s := State(w, want, map[], None);
    SoundIsInv(m, all, w, want);
    assert ReadableFile(m, w, want, id);
    var key := KeyOf(w.files[id]);
    if key != "" && m.Copies() {
      PutKeeps(all, s, id, key, want[id]);
      var put := PutBlob(w, m.pools[m.target].site, key, want[id]);
      RepointKeeps(all, s.(w := put), id);
      var moved := Repoint(all, put, id);
      assert moved == Repoint(m, put, id);
      if Dereferenced(m, moved.files, key) {
        assert Dereferenced(all, moved.files, key);
        DeleteKeeps(all, s.(w := moved), id, key);
      }
    } else {
      RepointKeeps(all, s, id);
      assert Repoint(all, w, id) == Repoint(m, w, id);
    }
    SoundIsInv(m, all, MoveFile(m, w, id).value, want);
  }

  /** The scope of a task plays no part in soundness. */
  lemma SoundIsInv(m: Migration, all: Migration, w: World, want: Contents)
    requires m.Valid() && all == m.(scope := None)
    ensures Sound(m, w, want) <==> Inv(all, State(w, want, map[], None))
  {
    forall id | Live(w.files, id) ensures ReadableFile(m, w, want, id) <==> ReadableFile(all, w, want, id) {}
    forall id, key ensures Counted(m, w.files, id, key) <==> Counted(all, w.files, id, key) {}
  }

  /** The site holds a blob under the key. */
  predicate Holds(blobs: Blobs, site: Site, key: string) {
    site in blobs && key in blobs[site]
  }

  /**
   The bytes of one moved file: between two backends they are under the same key at the
   target; the source gives them up exactly when no live row of the source pool names the
   key in its storage_key; no other blob changes, and none does when there is nothing to copy.
   */
  ghost predicate MovedBlob(m: Migration, f: File, before: Blobs, files: Files, after: Blobs, ok: bool)
    requires m.Valid()
  {
    var key := if f.storageKey != "" then f.storageKey else if f.objectKey != "" then f.objectKey else f.objectId;
    var source, target := m.pools[m.source], m.pools[m.target];
    var copies := key != "" && source.config != target.config;
    && (ok <==> (copies ==> Holds(before, source.site, key)))
    && (!ok || !copies ==> after == before)
    && (ok && copies ==> forall site, k :: k != key || site !in {source.site, target.site} ==>
          (Holds(after, site, k) <==> Holds(before, site, k))
          && (Holds(after, site, k) ==> after[site][k] == before[site][k]))
    && (ok && copies && source.site != target.site ==>
          && Holds(after, target.site, key) && after[target.site][key] == before[source.site][key]
          && (Holds(after, source.site, key) <==> exists g ::
                g in files && !files[g].deleted && files[g].pool == Some(m.source) && files[g].storageKey == key)
          && (Holds(after, source.site, key) ==> after[source.site][key] == before[source.site][key]))
  }

  /** An uninterrupted move, told by columns and blobs: it fails exactly when there is nothing to copy from. */
  lemma MoveFileMeans(m: Migration, w: World, id: Id)
    requires m.Valid() && id in w.files
    ensures match MoveFile(m, w, id)
      case None => MovedBlob(m, w.files[id], w.blobs, w.files, w.blobs, false)
      case Some(moved) =>
        && MovedBlob(m, w.files[id], w.blobs, moved.files, moved.blobs, true)
        && moved.files == if w.files[id].deleted then w.files else w.files[id := w.files[id].(pool := Some(m.target))]
  {
    if MoveFile(m, w, id).Some? {
      var moved, key := MoveFile(m, w, id).value, KeyOf(w.files[id]);
      assert Dereferenced(m, moved.files, key) <==> forall g :: g in moved.files ==> !Counted(m, moved.files, g, key);
      if !Dereferenced(m, moved.files, key) {
        var g :| g in moved.files && Counted(m, moved.files, g, key);
        assert moved.files[g].storageKey == key;
      }
    }
  }

  /** A live row of the source pool, in scope, went to the target pool; nothing else in it changed. */
  predicate MovedRow(m: Migration, id: Id, before: File, after: File) {
    && !before.deleted && before.pool == Some(m.source) && (m.scope.Some? ==> id in m.scope.value)
    && after == before.(pool := Some(m.target))
  }

  /** Moves changed these rows at most, each once. */
  ghost predicate MovedRows(m: Migration, before: Files, after: Files) {
    before.Keys == after.Keys
    && forall id :: id in after ==> after[id] == before[id] || MovedRow(m, id, before[id], after[id])
  }

  lemma MovedOneMore(m: Migration, before: Files, w: World, id: Id)
    requires m.Valid() && MovedRows(m, before, w.files) && id in Pending(m, w.files) && MoveFile(m, w, id).Some?
    ensures MovedRows(m, before, MoveFile(m, w, id).value.files)
  {
    MoveFileMeans(m, w, id);
  }

  class Worker {
    var files: Files
    var blobs: Blobs
    var status: string
    var chunksUploaded: nat

    ghost function Here(): World
      reads this
    {
      World(files, blobs)
    }

    method MoveFileToPool(m: Migration, id: Id) returns (ok: bool)
      requires m.Valid() && id in files
      modifies this`files, this`blobs
      ensures ok <==> MoveFile(m, old(Here()), id).Some?
      ensures Here() == if ok then MoveFile(m, old(Here()), id).value else old(Here())
    {
      var f := files[id];
      var key := KeyOf(f);
      var src, dst := m.pools[m.source].site, m.pools[m.target].site;
      if key != "" && m.Copies() {
        if src !in blobs || key !in blobs[src] { return false; }
        var there := if dst in blobs then blobs[dst] else map[];
        blobs := blobs[dst := there[key := blobs[src][key]]];
      }
      if Live(files, id) { files := files[id := files[id].(pool := Some(m.target))]; }
      if key != "" && m.Copies() {
        var counted := set g | g in files && Counted(m, files, g, key);
        var refs := |counted|;
        assert refs == 0 <==> counted == {};
        assert counted == {} <==> Dereferenced(m, files, key) by {
          if !Dereferenced(m, files, key) {
            var g :| g in files && Counted(m, files, g, key);
            assert g in counted;
          }
        }
        if refs == 0 && src in blobs { blobs := blobs[src := blobs[src] - {key}]; }
      }
      ok := true;
    }

    /** The query ordered by id: the least pending file. */
    method FirstPending(m: Migration) returns (first: Option<Id>)
      ensures match first
        case None => Pending(m, files) == {}
        case Some(id) => id in Pending(m, files) && forall g :: g in Pending(m, files) ==> Le(id, g)
      ensures first == None <==>
        forall id :: id in files && !files[id].deleted && files[id].pool == Some(m.source) ==>
          m.scope.Some? && id !in m.scope.value
      ensures first.Some? ==>
        var f := files[first.value];
        !f.deleted && f.pool == Some(m.source) && (m.scope.Some? ==> first.value in m.scope.value)
    {
      var pending := Pending(m, files);
      first := if pending == {} then None else Some(Least(pending));
      assert forall id :: id in files && Waiting(m, files, id) ==> id in pending;
    }

    /**
     Moves pending files one by one until none is left. On a sound world it always
     gets there, keeps every live file readable, and counts each file it moved.
     */
    method RunPoolMigration(m: Migration, ghost want: Contents) returns (result: Result<(), Error>)
      modifies this
      ensures result.Ok? ==> m.Valid() && status == "completed" && Pending(m, files) == {} && NoneLeft(m, files)
      ensures result.Err? ==> status == old(status)
      ensures chunksUploaded + |Pending(m, files)| == old(chunksUploaded) + |Pending(m, old(files))|
      ensures m.Valid() && Sound(m, old(Here()), want) ==> result.Ok? && Sound(m, Here(), want)
      ensures result.Ok? ==>
        forall id :: id in files && !files[id].deleted && files[id].pool == Some(m.source) ==>
          m.scope.Some? && id !in m.scope.value
      ensures MovedRows(m, old(files), files)
    {
      if !(m.source in m.pools && m.target in m.pools && m.source != m.target) { return Err(InvalidParameters); }
      while true
        invariant status == old(status) && MovedRows(m, old(files), files)
        invariant chunksUploaded + |Pending(m, files)| == old(chunksUploaded) + |Pending(m, old(files))|
        invariant Sound(m, old(Here()), want) ==> Sound(m, Here(), want)
        decreases |Pending(m, files)|
      {
        var first := FirstPending(m);
        if first == None {
          forall id | id in files && Live(files, id) && files[id].pool == Some(m.source) ensures !m.InScope(id) {
            assert id !in Pending(m, files);
          }
          status := "completed";
          return Ok(());
        }
        ghost var before := Here();
        if Sound(m, before, want) { MoveFileKeepsSound(m, before, want, first.value); }
        var ok := MoveFileToPool(m, first.value);
        if !ok { return Err(SourceBlobMissing(first.value)); }
        MoveFileShrinksPending(m, before, first.value);
        MovedOneMore(m, old(files), before, first.value);
        chunksUploaded := chunksUploaded + 1;
      }
    }
  }
}
