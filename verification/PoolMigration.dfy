/**
 Pool migration of internal/worker/worker.go: copy the blob, repoint the row,
 count the remaining references, delete the source blob. The atomic steps are
 functions; PoolMigrationRuns interleaves them over any number of workers.
 */
module PoolMigration {
  import opened Common

  type Id = string
  type Site = string
  type Bytes = seq<bv8>
  type Blobs = map<Site, map<string, Bytes>>

  /** A pool: its storage configuration and the physical place that configuration reaches. */
  datatype Pool = Pool(config: string, site: Site)

  /** A cloud_files row with the storage key of its object; blank strings stand for missing columns. */
  datatype File = File(pool: Option<Id>, storageKey: string, objectKey: string, objectId: string, deleted: bool)

  type Files = map<Id, File>

  datatype World = World(files: Files, blobs: Blobs)

  /**
   One migration: pools, the backend of pool-less rows, the two pools and the optional
   list of files; an empty list counts as none.
   */
  datatype Migration = Migration(pools: map<Id, Pool>, fallback: Site, source: Id, target: Id, scope: Option<set<Id>>)
  {
    predicate Valid() {
      source in pools && target in pools && source != target
    }

    /** Blobs are copied unless the two configurations are the same. */
    predicate Copies()
      requires Valid()
    {
      pools[source].config != pools[target].config
    }

    predicate InScope(id: Id) {
      scope.Some? ==> id in scope.value
    }
  }

  /** The key a file's bytes are stored under. */
  function KeyOf(f: File): string {
    if f.storageKey != "" then f.storageKey else if f.objectKey != "" then f.objectKey else f.objectId
  }

  /** The backend a file is read from. */
  function SiteOf(m: Migration, f: File): Option<Site> {
    match f.pool
    case None => Some(m.fallback)
    case Some(p) => if p in m.pools then Some(m.pools[p].site) else None
  }

  function BlobAt(blobs: Blobs, site: Site, key: string): Option<Bytes> {
    if site in blobs && key in blobs[site] then Some(blobs[site][key]) else None
  }

  predicate Live(files: Files, id: Id) {
    id in files && !files[id].deleted
  }

  // ----- the atomic steps of moveFileToPool -----

  function PutBlob(w: World, site: Site, key: string, data: Bytes): World {
    var there := if site in w.blobs then w.blobs[site] else map[];
    w.(blobs := w.blobs[site := there[key := data]])
  }

  function DeleteBlob(w: World, site: Site, key: string): World {
    if site in w.blobs then w.(blobs := w.blobs[site := w.blobs[site] - {key}]) else w
  }

  /** The conditional UPDATE; gorm's soft-delete scope spares deleted rows. */
  function Repoint(m: Migration, w: World, id: Id): World {
    if Live(w.files, id) then w.(files := w.files[id := w.files[id].(pool := Some(m.target))]) else w
  }

  /** Live rows the reference count sees: in the source pool, with the key in their own storage_key column. */
  predicate Counted(m: Migration, files: Files, id: Id, key: string) {
    Live(files, id) && files[id].pool == Some(m.source) && files[id].storageKey == key
  }

  predicate Dereferenced(m: Migration, files: Files, key: string) {
    forall id :: id in files ==> !Counted(m, files, id, key)
  }

  /** An uninterrupted moveFileToPool; None when the source blob is missing. */
  function MoveFile(m: Migration, w: World, id: Id): Option<World>
    requires m.Valid() && id in w.files
  {
    var key := KeyOf(w.files[id]);
    if key == "" || !m.Copies() then Some(Repoint(m, w, id))
    else match BlobAt(w.blobs, m.pools[m.source].site, key)
      case None => None
      case Some(data) =>
        var moved := Repoint(m, PutBlob(w, m.pools[m.target].site, key, data), id);
        Some(if Dereferenced(m, moved.files, key) then DeleteBlob(moved, m.pools[m.source].site, key) else moved)
  }

  // ----- what must stay true -----

  /** The content every file is supposed to have. */
  type Contents = map<Id, Bytes>

  ghost predicate ReadableFile(m: Migration, w: World, want: Contents, id: Id)
    requires id in w.files
  {
    var f := w.files[id];
    KeyOf(f) != "" ==>
      id in want && SiteOf(m, f).Some? && BlobAt(w.blobs, SiteOf(m, f).value, KeyOf(f)) == Some(want[id])
  }

  /** Every live file's bytes are readable under its key in the backend of the pool its row names. */
  ghost predicate AllReadable(m: Migration, w: World, want: Contents) {
    forall id :: Live(w.files, id) ==> ReadableFile(m, w, want, id)
  }

  ghost predicate Uses(m: Migration, f: File, site: Site, key: string) {
    KeyOf(f) == key && SiteOf(m, f) == Some(site)
  }

  // ----- one move: the exact condition -----

  /** Live files that read the key from the target backend expect the bytes the move writes there. */
  ghost predicate OverwriteHarmless(m: Migration, w: World, want: Contents, id: Id)
    requires m.Valid() && id in w.files && id in want
  {
    forall g :: Live(w.files, g) && g in want && Uses(m, w.files[g], m.pools[m.target].site, KeyOf(w.files[id])) ==>
      want[g] == want[id]
  }

  /**
   Once the row is repointed, either the count still sees a reference, or no live
   file reads the key from the source backend.
   */
  ghost predicate DeleteHarmless(m: Migration, w: World, id: Id)
    requires m.Valid() && id in w.files
  {
    var key := KeyOf(w.files[id]);
    var files := Repoint(m, w, id).files;
    Dereferenced(m, files, key) ==> forall g :: Live(files, g) ==> !Uses(m, files[g], m.pools[m.source].site, key)
  }

  /**
   A move keeps every live file readable if and only if the key does not hold
   other live content at the target and no live file that the reference count
   misses (another pool on the same backend, a row without storage_key, or two
   configurations of one backend) still reads the deleted blob.
   */
  lemma MoveKeepsReadableIff(m: Migration, w: World, want: Contents, id: Id)
    requires m.Valid() && m.Copies() && AllReadable(m, w, want)
    requires Live(w.files, id) && w.files[id].pool == Some(m.source) && KeyOf(w.files[id]) != ""
    ensures MoveFile(m, w, id).Some?
    ensures AllReadable(m, MoveFile(m, w, id).value, want) <==>
      OverwriteHarmless(m, w, want, id) && DeleteHarmless(m, w, id)
  {
    assert ReadableFile(m, w, want, id);
    var key := KeyOf(w.files[id]);
    var src, dst := m.pools[m.source].site, m.pools[m.target].site;
    var after := MoveFile(m, w, id).value;
    var files := Repoint(m, w, id).files;
    assert after.files == files;
    if OverwriteHarmless(m, w, want, id) && DeleteHarmless(m, w, id) {
      forall g | Live(after.files, g) ensures ReadableFile(m, after, want, g) {
        assert ReadableFile(m, w, want, g);
      }
    }
    if AllReadable(m, after, want) {
      forall g | Live(w.files, g) && g in want && Uses(m, w.files[g], dst, key) ensures want[g] == want[id] {
        assert ReadableFile(m, after, want, g);
      }
      if Dereferenced(m, files, key) {
        forall g | Live(files, g) ensures !Uses(m, files[g], src, key) {
          assert ReadableFile(m, after, want, g);
        }
      }
    }
  }

  /** Pools "s" and "u" have different configurations that reach one disk; "a" and "b" share a blob on it. */
  const SHARED_DISK := Migration(
    map["s" := Pool("1", "disk"), "t" := Pool("2", "cloud"), "u" := Pool("3", "disk")], "cloud", "s", "t", None)
  const SHARED_BLOB := World(
    map["a" := File(Some("s"), "k", "", "", false), "b" := File(Some("u"), "k", "", "", false)],
    map["disk" := map["k" := [1]]])

  /** Moving "a" deletes the blob that "b" reads: the count does not see the row of the other pool. */
  lemma MoveCanLoseAFile()
    ensures var want: Contents := map["a" := [1], "b" := [1]];
      && AllReadable(SHARED_DISK, SHARED_BLOB, want)
      && MoveFile(SHARED_DISK, SHARED_BLOB, "a").Some?
      && !AllReadable(SHARED_DISK, MoveFile(SHARED_DISK, SHARED_BLOB, "a").value, want)
      && OverwriteHarmless(SHARED_DISK, SHARED_BLOB, want, "a") && !DeleteHarmless(SHARED_DISK, SHARED_BLOB, "a")
  {
    var want: Contents := map["a" := [1], "b" := [1]];
    var files := Repoint(SHARED_DISK, SHARED_BLOB, "a").files;
    assert Dereferenced(SHARED_DISK, files, "k");
    assert Live(files, "b") && Uses(SHARED_DISK, files["b"], "disk", "k");
    assert AllReadable(SHARED_DISK, SHARED_BLOB, want);
    MoveKeepsReadableIff(SHARED_DISK, SHARED_BLOB, want, "a");
  }

  /** "b" names the blob only through its object, so the count does not see it either. */
  const UNNAMED_BLOB := World(
    map["a" := File(Some("s"), "k", "", "", false), "b" := File(Some("s"), "", "k", "", false)],
    map["disk" := map["k" := [1]]])

  lemma MoveCanLoseAFileWithoutStorageKey()
    ensures var want: Contents := map["a" := [1], "b" := [1]];
      && AllReadable(SHARED_DISK, UNNAMED_BLOB, want)
      && MoveFile(SHARED_DISK, UNNAMED_BLOB, "a").Some?
      && !AllReadable(SHARED_DISK, MoveFile(SHARED_DISK, UNNAMED_BLOB, "a").value, want)
  {
    var want: Contents := map["a" := [1], "b" := [1]];
    var files := Repoint(SHARED_DISK, UNNAMED_BLOB, "a").files;
    assert Dereferenced(SHARED_DISK, files, "k");
    assert Live(files, "b") && Uses(SHARED_DISK, files["b"], "disk", "k");
    assert AllReadable(SHARED_DISK, UNNAMED_BLOB, want);
    MoveKeepsReadableIff(SHARED_DISK, UNNAMED_BLOB, want, "a");
  }
}
