/** What cat_create, cat_rename and cat_delete do to the catalog, as relations between volumes. */
module CatalogSpec {
  import opened Bytes
  import opened CatalogModel

  datatype Err = NoErr | EInval | EExist | ENoEnt | EIo | ENoSpc | ENameTooLong | Panic

  /** A cnode descriptor; `nameErr` is what decoding its UTF-8 name reported. */
  datatype Desc = Desc(parent: Cnid, name: Name, nameErr: Err, cnid: Cnid, isDir: bool)

  /** The catalog with the volume's next free id and its ids-reused attribute bit. */
  datatype Vol = Vol(tree: Tree, next: Cnid, reused: bool)

  /** buildkey: a missing, overlong or malformed name is refused. */
  function BuildKey(d: Desc): Err {
    if d.name == [] then EInval
    else if d.nameErr == NoErr || d.nameErr == ENameTooLong then d.nameErr
    else EInval
  }

  /** The error for a missing name, a name that is too long, or a name that is not UTF-8. */
  predicate Refused(d: Desc, err: Err) {
    if d.name == [] then err == EInval
    else d.nameErr != NoErr && err == if d.nameErr == ENameTooLong then ENameTooLong else EInval
  }

  ghost predicate ValidVol(fold: Folding, v: Vol) {
    Consistent(fold, v.tree) && AllRooted(fold, v.tree) && FIRST_USER <= v.next
  }

  // Catalog node ids.

  ghost predicate Taken(fold: Folding, tree: Tree, id: Cnid) {
    ThreadKey(fold, id) in tree
  }

  predicate Wraps(id: Cnid) {
    id == 0xFFFF_FFFF || id + 1 < FIRST_USER
  }

  function NextId(id: Cnid): (n: Cnid)
    ensures FIRST_USER <= n
  {
    if Wraps(id) then FIRST_USER else id + 1
  }

  /** Going up from `start` and round, `j` comes before `id`. */
  predicate Before(start: Cnid, j: Cnid, id: Cnid) {
    (start <= j && (id < start || j < id)) || FIRST_USER <= j < id < start
  }

  /** The search that starts at `start` comes to `id`: every user id before it is taken. */
  ghost predicate Probed(fold: Folding, tree: Tree, start: Cnid, id: Cnid) {
    FIRST_USER <= id && forall j: Cnid | Before(start, j, id) :: Taken(fold, tree, j)
  }

  /** `id` is the first free user id at or cyclically after `start`. */
  ghost predicate Allocates(fold: Folding, tree: Tree, start: Cnid, id: Cnid) {
    !Taken(fold, tree, id) && Probed(fold, tree, start, id)
  }

  /** The search comes to an id whose thread cannot be inserted. */
  ghost predicate ThreadFault(fold: Folding, tree: Tree, start: Cnid, faults: set<Cnid>) {
    exists f: Cnid :: f in faults && Probed(fold, tree, start, f)
  }

  ghost predicate HasFreeId(fold: Folding, tree: Tree) {
    exists id: Cnid :: FIRST_USER <= id && !Taken(fold, tree, id)
  }

  // Create.

  function WithNode(fold: Folding, tree: Tree, d: Desc, isDir: bool, id: Cnid, info: Info): Tree {
    tree[ThreadKey(fold, id) := Entry([], Thread(isDir, d.parent, d.name))]
        [KeyOf(fold, d.parent, d.name) := Entry(d.name, Node(isDir, id, info))]
  }

  ghost predicate Created(fold: Folding, v: Vol, d: Desc, isDir: bool, info: Info, v': Vol, id: Cnid) {
    && Allocates(fold, v.tree, v.next, id)
    && d.name != []
    && KeyOf(fold, d.parent, d.name) !in v.tree
    && KeyOf(fold, d.parent, d.name) != ThreadKey(fold, id)
    && v'.tree == WithNode(fold, v.tree, d, isDir, id, info)
    && v'.next == NextId(id)
    && v'.reused == (v.reused || id < v.next || Wraps(id))
  }

  /** Nothing happened to the catalog; at most the ids-reused bit was raised. */
  ghost predicate Unchanged(v: Vol, v': Vol) {
    v'.tree == v.tree && v'.next == v.next && (v.reused ==> v'.reused)
  }

  // Rename.

  /** The descriptor names a record of the catalog, in some spelling of its name. */
  ghost predicate Describes(fold: Folding, tree: Tree, d: Desc) {
    var k := KeyOf(fold, d.parent, d.name);
    && k in tree && tree[k].rec.Node?
    && tree[k].rec.id == d.cnid && tree[k].rec.isDir == d.isDir
  }

  function Rethread(fold: Folding, tree: Tree, id: Cnid, isDir: bool, to: Desc): Tree {
    tree[ThreadKey(fold, id) := Entry([], Thread(isDir, to.parent, to.name))]
  }

  /** The record can be put at its new key: no other record is there. */
  ghost predicate Movable(fold: Folding, t: Tree, from: Desc, to: Desc) {
    var fk, tk := KeyOf(fold, from.parent, from.name), KeyOf(fold, to.parent, to.name);
    fk in t && t[fk].rec.Node? && (tk in t ==> tk == fk)
  }

  /** It sits at its new key instead of its old one, with what it held but for the encoding hint. */
  ghost function Relocated(fold: Folding, t: Tree, from: Desc, to: Desc, hint: UInt32): Tree
    requires Movable(fold, t, from, to)
  {
    var fk, tk := KeyOf(fold, from.parent, from.name), KeyOf(fold, to.parent, to.name);
    var rec := t[fk].rec;
    (t - {fk})[tk := Entry(to.name, Node(rec.isDir, rec.id, rec.info.(encoding := hint)))]
  }

  /** The record moves to its new key with the encoding hint `hint`, and its thread follows. */
  ghost predicate Renamed(fold: Folding, v: Vol, from: Desc, to: Desc, hint: UInt32, v': Vol) {
    && to.name != []
    && v'.next == v.next && v'.reused == v.reused
    && Movable(fold, v.tree, from, to)
    && v'.tree == Rethread(fold, Relocated(fold, v.tree, from, to, hint), from.cnid, from.isDir, to)
  }

  /** The destination is a folder off the way up from which the moved folder is absent. */
  ghost predicate MoveAllowed(fold: Folding, tree: Tree, from: Desc, to: Desc) {
    from.isDir && from.parent != to.parent ==>
      exists n: nat :: AtDepth(fold, tree, to.parent, n) && Avoids(fold, tree, to.parent, n, from.cnid)
  }

  /** The name is held by another node of the same folder. */
  ghost predicate Clash(fold: Folding, tree: Tree, from: Desc, to: Desc) {
    && from.parent == to.parent
    && KeyOf(fold, to.parent, to.name) in tree
    && KeyOf(fold, to.parent, to.name) != KeyOf(fold, from.parent, from.name)
  }

  /** Failing operations of a rename; `walk` holds the folders whose thread cannot be read. */
  datatype RenameFaults = RenameFaults(
    space: bool, walk: set<Cnid>, search: bool, insert: bool, again: bool, remove: bool, replace: bool,
    undo: bool, threadRemove: bool, threadInsert: bool)

  const NO_FAULTS := RenameFaults(false, {}, false, false, false, false, false, false, false, false)

  /** The record gets to its new key: the point of no return is reached. */
  ghost predicate Moves(fold: Folding, t: Tree, from: Desc, to: Desc, io: RenameFaults) {
    var fk, tk := KeyOf(fold, from.parent, from.name), KeyOf(fold, to.parent, to.name);
    && fk in t && !io.search && !io.insert && !io.remove
    && (tk in t ==> tk == fk && !io.replace)
  }

  /** The hint of a renamed record: that of the new name, unless the record was read again as a case variant. */
  ghost function StoredHint(fold: Folding, t: Tree, from: Desc, to: Desc, encoding: UInt32, io: RenameFaults): UInt32
    requires Describes(fold, t, from)
  {
    if KeyOf(fold, to.parent, to.name) in t && !io.again then
      t[KeyOf(fold, from.parent, from.name)].rec.info.encoding
    else encoding
  }

  /** The record was moved half way when something failed, so that it has to be moved back. */
  ghost predicate Undoes(fold: Folding, t: Tree, from: Desc, to: Desc, io: RenameFaults) {
    var fk, tk := KeyOf(fold, from.parent, from.name), KeyOf(fold, to.parent, to.name);
    && fk in t && !io.search && !io.insert
    && if tk in t then from.parent == to.parent && !io.remove && (if tk == fk then io.replace else io.again)
       else io.remove
  }

  /**
   * The record is put back with the encoding hint of its intended name: the name is in use in the
   * same folder, and the second search, which would have read the record again, failed.
   */
  ghost predicate LeavesHint(fold: Folding, t: Tree, from: Desc, to: Desc, io: RenameFaults) {
    Undoes(fold, t, from, to, io) && KeyOf(fold, to.parent, to.name) in t && io.again
  }

  /** What a rename leaves that stopped before the point of no return. */
  ghost function Restored(fold: Folding, t: Tree, from: Desc, to: Desc, encoding: UInt32, io: RenameFaults): Tree {
    var fk := KeyOf(fold, from.parent, from.name);
    if LeavesHint(fold, t, from, to, io) then t[fk := Reencoded(t[fk], encoding)] else t
  }

  /** It leaves something else than it found if and only if it leaves a hint, and the hint is another one. */
  lemma RestoredIff(fold: Folding, t: Tree, from: Desc, to: Desc, encoding: UInt32, io: RenameFaults)
    requires Describes(fold, t, from)
    ensures var e := t[KeyOf(fold, from.parent, from.name)];
            Restored(fold, t, from, to, encoding, io) != t <==>
            LeavesHint(fold, t, from, to, io) && e.rec.info.encoding != encoding
  {
    var fk := KeyOf(fold, from.parent, from.name);
    var u := Restored(fold, t, from, to, encoding, io);
    if u == t && LeavesHint(fold, t, from, to, io) {
      assert u[fk] == Reencoded(t[fk], encoding);
    } else if t[fk].rec.info.encoding == encoding {
      assert Reencoded(t[fk], encoding) == t[fk];
    }
  }

  /** The name is in use, and no error comes of it. */
  ghost predicate SilentClash(fold: Folding, t: Tree, from: Desc, to: Desc, io: RenameFaults) {
    && KeyOf(fold, from.parent, from.name) in t && !io.search && !io.insert
    && Clash(fold, t, from, to) && !io.again
  }

  /** The checks of a rename within a folder. */
  predicate Checks(from: Desc, to: Desc, io: RenameFaults) {
    BuildKey(from) == NoErr && BuildKey(to) == NoErr && !io.space
  }

  /** The thread of a moved record, behind the point of no return. */
  ghost function ThreadMoved(fold: Folding, u: Tree, from: Desc, to: Desc, io: RenameFaults): Tree {
    var ck := ThreadKey(fold, from.cnid);
    if !io.threadInsert && (io.threadRemove ==> ck !in u) then Rethread(fold, u, from.cnid, from.isDir, to)
    else if io.threadRemove then u
    else u - {ck}
  }

  function Reencoded(e: Entry, encoding: UInt32): Entry {
    if e.rec.Node? then e.(rec := e.rec.(info := e.rec.info.(encoding := encoding))) else e
  }

  // Delete.

  ghost predicate Deleted(fold: Folding, v: Vol, key: Key, id: Cnid, v': Vol) {
    v' == v.(tree := v.tree - {key} - {ThreadKey(fold, id)})
  }

  ghost predicate EmptyFolder(fold: Folding, tree: Tree, id: Cnid) {
    forall k | k in tree && k.parent == id :: k == ThreadKey(fold, id)
  }
}
