/**
 The cloud_files forest with soft deletes, inherited permissions, the permission
 cache and shared objects: one pure function per atomic step of
 internal/service/service.go.
 */
module FileForest {
  import opened Common
  import opened ParentGraph

  // ----- state -----

  /** A cloud_files row, live or soft-deleted. */
  datatype Row = Row(parent: Option<Id>, deleted: bool, isFolder: bool, workspace: string, objectId: Option<Id>)

  /** A live file_permissions row. */
  datatype AclRow = AclRow(id: Id, file: Id, permission: string, subjectType: string, subject: string)

  datatype Object = Object(deleted: bool)

  type Rows = map<Id, Row>
  type Acl = set<AclRow>
  type Objects = map<Id, Object>

  datatype Key = Key(file: Id, permission: string)
  datatype Lookup = NoSource | Source(source: Id, perms: Acl)
  type Cache = map<Key, Lookup>
  type Groups = map<Id, set<Key>>

  datatype Db = Db(rows: Rows, acl: Acl, objects: Objects, cache: Cache, groups: Groups)

  datatype Error =
    | RecordNotFound
    | ParentIsMovedOrBelow
    | ParentNotFolder
    | WorkspaceMismatch
    | IsFolder
    | ObjectNotFound
    | HiddenPool

  predicate Live(rows: Rows, x: Id) {
    x in rows && !rows[x].deleted
  }

  // ----- the recursive queries -----

  /** Parent edges leaving live rows; the parent itself may be deleted or missing. */
  function LiveParents(rows: Rows): Graph {
    map x | x in rows && !rows[x].deleted && rows[x].parent.Some? :: rows[x].parent.value
  }

  /** Parent edges leaving any row. */
  function AllParents(rows: Rows): Graph {
    map x | x in rows && rows[x].parent.Some? :: rows[x].parent.value
  }

  ghost predicate LiveForest(rows: Rows) {
    Acyclic(LiveParents(rows))
  }

  /** The ancestor query: live rows from x upwards, nearest first. */
  function Ancestors(rows: Rows, x: Id): seq<Id>
    requires LiveForest(rows)
    decreases UpSet(LiveParents(rows), x)
  {
    if !Live(rows, x) then []
    else match rows[x].parent
      case None => [x]
      case Some(p) =>
        UpSetShrinks(LiveParents(rows), x);
        [x] + Ancestors(rows, p)
  }

  /** The live descendant query: the start rows, deleted or not, and the live rows below them. */
  function LiveSubtrees(rows: Rows, starts: set<Id>): set<Id> {
    Below(LiveParents(rows), starts * rows.Keys)
  }

  /** The same query with soft-deleted rows included. */
  function FullSubtrees(rows: Rows, starts: set<Id>): set<Id> {
    Below(AllParents(rows), starts * rows.Keys)
  }

  // ----- inherited permissions -----

  function RowsFor(acl: Acl, x: Id, permission: string): Acl {
    set r | r in acl && r.file == x && r.permission == permission
  }

  /** The nearest row of the chain that carries a row for the permission decides. */
  function NearestSource(chain: seq<Id>, acl: Acl, permission: string): Lookup {
    if chain == [] then NoSource
    else if RowsFor(acl, chain[0], permission) != {} then Source(chain[0], RowsFor(acl, chain[0], permission))
    else NearestSource(chain[1..], acl, permission)
  }

  /** The uncached answer for one file. */
  function LoadInherited(rows: Rows, acl: Acl, x: Id, permission: string): Lookup
    requires LiveForest(rows)
  {
    NearestSource(Ancestors(rows, x), acl, permission)
  }

  // ----- cache and invalidation groups -----

  /** AddToGroup for every group in the list. */
  function Enroll(groups: Groups, key: Key, members: seq<Id>): Groups {
    map a | a in groups.Keys + (set m | m in members) ::
      (if a in groups then groups[a] else {}) + (if a in members then {key} else {})
  }

  /** RemoveGroup for every id: the groups go, and every key any of them held goes with them. */
  function Forget(db: Db, ids: set<Id>): Db {
    var stale := set a, k | a in ids && a in db.groups && k in db.groups[a] :: k;
    db.(cache := db.cache - stale, groups := db.groups - ids)
  }

  /** The answer a caller gets: the cached one when there is one. */
  function Answer(db: Db, x: Id, permission: string): Lookup
    requires LiveForest(db.rows)
  {
    var key := Key(x, permission);
    if key in db.cache then db.cache[key] else LoadInherited(db.rows, db.acl, x, permission)
  }

  function Resolve(db: Db, x: Id, permission: string): Db
    requires LiveForest(db.rows)
  {
    var key := Key(x, permission);
    if key in db.cache then db
    else db.(cache := db.cache[key := LoadInherited(db.rows, db.acl, x, permission)],
             groups := Enroll(db.groups, key, Ancestors(db.rows, x)))
  }

  // ----- mutations -----

  function UpdateAcl(db: Db, x: Id, perms: Acl): Db {
    var kept := set r | r in db.acl && r.file != x;
    Forget(db.(acl := kept + perms), {x})
  }

  predicate MoveRefused(rows: Rows, ids: set<Id>, target: Option<Id>) {
    target.Some? && target.value in LiveSubtrees(rows, ids)
  }

  /** The UPDATE of a batch move; gorm's soft-delete scope spares deleted rows. */
  function Reparent(rows: Rows, ids: set<Id>, target: Option<Id>): Rows {
    map x | x in rows :: if x in ids && !rows[x].deleted then rows[x].(parent := target) else rows[x]
  }

  function Move(db: Db, ids: set<Id>, target: Option<Id>): Db {
    if MoveRefused(db.rows, ids, target) then db
    else
      var rows := Reparent(db.rows, ids, target);
      Forget(db.(rows := rows), LiveSubtrees(rows, ids))
  }

  function SoftDelete(rows: Rows, ids: set<Id>): Rows {
    map x | x in rows :: if x in ids then rows[x].(deleted := true) else rows[x]
  }

  function Delete(db: Db, x: Id): Db {
    if !Live(db.rows, x) then db
    else
      var gone := LiveSubtrees(db.rows, {x});
      Forget(db.(rows := SoftDelete(db.rows, gone)), gone)
  }

  predicate Referenced(rows: Rows, o: Id) {
    exists x :: x in rows && rows[x].objectId == Some(o)
  }

  /** Objects a purge of `gone` looks at. */
  function Touched(rows: Rows, gone: set<Id>): set<Id> {
    set x | x in rows && x in gone && rows[x].objectId.Some? :: rows[x].objectId.value
  }

  function Purge(db: Db, x: Id): Db {
    if x !in db.rows then db
    else
      var gone := FullSubtrees(db.rows, {x});
      var rows := db.rows - gone;
      var released := set o | o in Touched(db.rows, gone) && !Referenced(rows, o);
      Forget(db.(rows := rows,
                 acl := (set r | r in db.acl && r.file !in gone),
                 objects := db.objects - released), gone)
  }

  /** ensureParentWorkspace. */
  function ParentError(rows: Rows, parent: Option<Id>, workspace: string): Option<Error> {
    match parent
    case None => None
    case Some(p) =>
      if !Live(rows, p) then Some(RecordNotFound)
      else if !rows[p].isFolder then Some(ParentNotFolder)
      else if rows[p].workspace != workspace then Some(WorkspaceMismatch)
      else None
  }

  /** A new folder, or a new file over a stored object. A new root gets `grant`, its own access row, if any. */
  function Create(db: Db, id: Id, row: Row, grant: Acl): Db {
    if ParentError(db.rows, row.parent, row.workspace).Some? then db
    else db.(rows := db.rows[id := row], acl := if row.parent.Some? then db.acl else db.acl + grant)
  }

  /** Live children of x: what an overwrite discards as derived files. */
  function LiveChildren(rows: Rows, x: Id): set<Id> {
    set c | c in rows && !rows[c].deleted && rows[c].parent == Some(x)
  }

  function OverwriteError(db: Db, x: Id, o: Id): Option<Error> {
    if !Live(db.rows, x) then Some(RecordNotFound)
    else if db.rows[x].isFolder then Some(IsFolder)
    else if !(o in db.objects && !db.objects[o].deleted) then Some(ObjectNotFound)
    else None
  }

  function Overwrite(db: Db, x: Id, o: Id): Db {
    if OverwriteError(db, x, o).Some? then db
    else
      var rows := SoftDelete(db.rows[x := db.rows[x].(objectId := Some(o))], LiveChildren(db.rows, x));
      var before := db.rows[x].objectId;
      var released := if before.Some? && !Referenced(rows, before.value) then {before.value} else {};
      db.(rows := rows, objects := db.objects - released)
  }

  // ----- invariants -----

  ghost predicate RefsExist(db: Db) {
    forall x :: x in db.rows && db.rows[x].objectId.Some? ==> db.rows[x].objectId.value in db.objects
  }

  /**
   Every cached answer for a live file is the recomputed one, and its key is in
   the group of every live ancestor of the file, itself included.
   */
  ghost predicate Coherent(db: Db)
    requires LiveForest(db.rows)
  {
    forall k :: k in db.cache && Live(db.rows, k.file) ==> KeyCoherent(db, k)
  }

  ghost predicate KeyCoherent(db: Db, k: Key)
    requires LiveForest(db.rows) && k in db.cache
  {
    && db.cache[k] == LoadInherited(db.rows, db.acl, k.file, k.permission)
    && forall a :: a in Ancestors(db.rows, k.file) ==> a in db.groups && k in db.groups[a]
  }

  ghost predicate Inv(db: Db) {
    LiveForest(db.rows) && RefsExist(db) && Coherent(db)
  }

  /** An id no row, parent pointer or cached key mentions: what NewID returns. */
  ghost predicate Fresh(db: Db, z: Id) {
    && z !in db.rows
    && (forall x :: x in db.rows ==> db.rows[x].parent != Some(z))
    && (forall k :: k in db.cache ==> k.file != z)
  }
}
