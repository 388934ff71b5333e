/**
 * The catalog transactions of hfs_catalog.c on an HFS Plus volume.  Each B-tree operation succeeds,
 * or fails and changes nothing; the `fault` arguments say which ones fail.
 */
module Catalog {
  import opened Bytes
  import opened CatalogModel
  import opened CatalogSpec
  import opened CatalogProofs

  /** Failing operations of a create; `thread` holds the ids whose thread insertion fails. */
  datatype CreateFaults = CreateFaults(space: bool, thread: set<Cnid>, record: bool, backOut: bool)

  datatype DeleteFaults = DeleteFaults(thread: bool, space: bool, record: bool, backThread: bool)

  class Volume {
    const fold: Folding
    var tree: Tree
    var next: Cnid
    var reused: bool

    constructor (fold: Folding, tree: Tree, next: Cnid, reused: bool)
      ensures this.fold == fold && State() == Vol(tree, next, reused)
    {
      this.fold := fold;
      this.tree, this.next, this.reused := tree, next, reused;
    }

    ghost function State(): Vol
      reads this
    {
      Vol(tree, next, reused)
    }

    ghost predicate Valid()
      reads this
    {
      ValidVol(fold, State())
    }

    // The B-tree.

    method BTInsert(key: Key, e: Entry, fault: bool) returns (err: Err)
      modifies this`tree
      ensures err == if fault then EIo else if key in old(tree) then EExist else NoErr
      ensures tree == if err == NoErr then old(tree)[key := e] else old(tree)
    {
      if fault {
        return EIo;
      }
      if key in tree {
        return EExist;
      }
      tree := tree[key := e];
      return NoErr;
    }

    method BTDelete(key: Key, fault: bool) returns (err: Err)
      modifies this`tree
      ensures err == if fault then EIo else if key !in old(tree) then ENoEnt else NoErr
      ensures tree == if err == NoErr then old(tree) - {key} else old(tree)
    {
      if fault {
        return EIo;
      }
      if key !in tree {
        return ENoEnt;
      }
      tree := tree - {key};
      return NoErr;
    }

    method BTSearch(key: Key, fault: bool, unread: Entry) returns (err: Err, e: Entry)
      ensures err == if fault then EIo else if key !in tree then ENoEnt else NoErr
      ensures e == if err == NoErr then tree[key] else unread
    {
      if fault {
        return EIo, unread;
      }
      if key !in tree {
        return ENoEnt, unread;
      }
      return NoErr, tree[key];
    }

    // Create.

    /** Steps from `id` to `free`, going up and round. */
    static function Distance(id: int, free: int): int {
      if id <= free then free - id else free - id + 0x1_0000_0000
    }

    /** The loop of cat_create: insert the thread under the first free id. */
    method InsertThread(thread: Entry, faults: set<Cnid>) returns (err: Err, id: Cnid)
      requires FIRST_USER <= next && HasFreeId(fold, tree)
      modifies this`tree, this`reused
      ensures err == if ThreadFault(fold, old(tree), next, faults) then EIo else NoErr
      ensures err == NoErr ==> Allocates(fold, old(tree), next, id) && tree == old(tree)[ThreadKey(fold, id) := thread]
      ensures err == NoErr ==> reused == (old(reused) || id < next)
      ensures err != NoErr ==> tree == old(tree) && (old(reused) ==> reused)
    {
      ghost var free: Cnid :| FIRST_USER <= free && !Taken(fold, tree, free);
      id := next;
      while true
        invariant FIRST_USER <= id
        invariant tree == old(tree)
        invariant reused == (old(reused) || id < next)
        invariant forall j: Cnid | Before(next, j, id) :: Taken(fold, tree, j) && j !in faults
        decreases Distance(id, free)
      {
        err := BTInsert(ThreadKey(fold, id), thread, id in faults);
        if err == EExist {
          if Wraps(id) {
            reused := true;
          }
          id := NextId(id);
          continue;
        }
        if err == NoErr {
          NoFaultBefore(old(tree), id, faults);
        } else {
          assert id in faults && Probed(fold, old(tree), next, id);
        }
        return;
      }
    }

    lemma NoFaultBefore(t: Tree, id: Cnid, faults: set<Cnid>)
      requires Allocates(fold, t, next, id) && id !in faults && FIRST_USER <= next
      requires forall j: Cnid | Before(next, j, id) :: j !in faults
      ensures !ThreadFault(fold, t, next, faults)
    {
      forall f: Cnid | f in faults ensures !Probed(fold, t, next, f) {
        if FIRST_USER <= f {
          assert Before(next, id, f);
        }
      }
    }

    /**
     * cat_create.  On success the node and its thread appear under a fresh id; on failure the catalog
     * is as it was, unless backing out the thread failed as well.
     */
    method Create(d: Desc, isDir: bool, info: Info, io: CreateFaults) returns (err: Err, id: Cnid)
      requires Valid() && HasFreeId(fold, tree)
      requires IsFolder(fold, tree, d.parent)
      modifies this
      ensures d.name == [] || d.nameErr != NoErr ==> Refused(d, err)
      ensures d.name != [] && d.nameErr == NoErr ==>
                err == if io.space then ENoSpc
                       else if ThreadFault(fold, old(tree), old(next), io.thread) || io.record then EIo
                       else if KeyOf(fold, d.parent, d.name) in old(tree) then EExist
                       else NoErr
      ensures err == NoErr ==> Created(fold, old(State()), d, isDir, info, State(), id)
      ensures err != NoErr && !io.backOut ==> Unchanged(old(State()), State())
      ensures err != NoErr ==>
                (tree != old(tree) <==>
                 BuildKey(d) == NoErr && !io.space && !ThreadFault(fold, old(tree), old(next), io.thread) && io.backOut)
      ensures err != NoErr && tree != old(tree) ==> !Consistent(fold, tree)
      ensures err == NoErr || !io.backOut ==> Valid()
      ensures next >= FIRST_USER
    {
      id := next;
      err := BuildKey(d);
      if err != NoErr {
        return;
      }
      if io.space {
        return ENoSpc, id;
      }
      var key := KeyOf(fold, d.parent, d.name);
      err, id := InsertThread(Entry([], Thread(isDir, d.parent, d.name)), io.thread);
      if err != NoErr {
        return;
      }
      err := BTInsert(key, Entry(d.name, Node(isDir, id, info)), io.record);
      if err != NoErr {
        var ignored := BTDelete(ThreadKey(fold, id), io.backOut);
        assert !io.backOut ==> tree == old(tree);
        if io.backOut {
          LoneThread(fold, old(tree), id, Entry([], Thread(isDir, d.parent, d.name)), tree);
        }
        return;
      }
      if Wraps(id) {
        reused := true;
      }
      next := NextId(id);
      assert Created(fold, old(State()), d, isDir, info, State(), id);
      CreatedStaysValid(fold, old(State()), d, isDir, info, State(), id);
    }

    // Delete.

    /** getkey: a node's key from its thread. */
    method GetKey(id: Cnid, fault: bool) returns (err: Err, key: Key)
      requires Consistent(fold, tree)
      ensures err == if fault then EIo else if Taken(fold, tree, id) then NoErr else ENoEnt
      ensures err == NoErr ==> key in tree && tree[key].rec.Node? && tree[key].rec.id == id
    {
      var k := ThreadKey(fold, id);
      var e;
      err, e := BTSearch(k, fault, Entry([], Thread(false, 0, [])));
      key := k;
      if err == NoErr {
        ThreadAt(fold, tree, id);
        match e.rec {
          case Thread(_, parent, name) =>
            key := KeyOf(fold, parent, name);
          case Node(_, _, _) =>
            err := ENoEnt;
        }
      }
    }

    /**
     * cat_delete.  The record goes, then its thread; a failure to remove the thread is ignored.  The
     * volume stays valid exactly if the thread went too and nothing was left in the folder.
     */
    method Delete(d: Desc, fileid: Cnid, io: DeleteFaults) returns (err: Err, ghost home: Key)
      requires Valid()
      requires d.name != [] && KeyOf(fold, d.parent, d.name) in tree ==> Describes(fold, tree, d)
      requires d.name == [] ==> fileid != ROOT
      modifies this
      ensures d.cnid < FIRST_USER || d.parent == ROOT_PARENT ==> err == EInval
      ensures d.cnid >= FIRST_USER && d.parent != ROOT_PARENT && d.name != [] ==>
                if d.nameErr != NoErr then Refused(d, err)
                else err == if io.space then ENoSpc
                            else if io.record then EIo
                            else if KeyOf(fold, d.parent, d.name) in old(tree) then NoErr
                            else ENoEnt
      ensures d.cnid >= FIRST_USER && d.parent != ROOT_PARENT && d.name == [] ==>
                err == if io.thread then EIo
                       else if !Taken(fold, old(tree), fileid) then ENoEnt
                       else if io.space then ENoSpc
                       else if io.record then EIo
                       else NoErr
      ensures err != NoErr ==> State() == old(State())
      ensures err == NoErr ==>
                var id := if d.name == [] then fileid else d.cnid;
                && home in old(tree) && old(tree)[home].rec.Node? && old(tree)[home].rec.id == id
                && (d.name != [] ==> home == KeyOf(fold, d.parent, d.name))
                && (!io.backThread ==> Deleted(fold, old(State()), home, id, State()))
      ensures Valid() <==>
                err != NoErr ||
                (!io.backThread && EmptyFolder(fold, old(tree), if d.name == [] then fileid else d.cnid))
    {
      if d.cnid < FIRST_USER || d.parent == ROOT_PARENT {
        return EInval, Key(0, []);
      }
      var key, cnid;
      if d.name == [] {
        err, key := GetKey(fileid, io.thread);
        cnid := fileid;
      } else {
        err, key, cnid := BuildKey(d), KeyOf(fold, d.parent, d.name), d.cnid;
      }
      home := key;
      if err != NoErr {
        return;
      }
      if io.space {
        return ENoSpc, key;
      }
      err := BTDelete(key, io.record);
      if err != NoErr {
        return;
      }
      var ignored := BTDelete(ThreadKey(fold, cnid), io.backThread);
      if io.backThread {
        DanglingThread(fold, old(tree), key, tree);
      } else {
        assert Deleted(fold, old(State()), key, cnid, State());
        DeleteDone(fold, old(State()), key, State());
      }
    }

    // Rename.

    /**
     * The walk of cat_rename from a folder up to the root, looking for `cnid` on the way.
     * It ends because the depth of the current folder shrinks.
     */
    method WalkToRoot(cnid: Cnid, start: Cnid, faults: set<Cnid>, ghost n: nat) returns (err: Err)
      requires Consistent(fold, tree) && AtDepth(fold, tree, start, n)
      requires cnid != start && cnid != ROOT
      ensures err == NoErr || err == EInval || err == EIo
      ensures faults == {} ==> err != EIo
      ensures err != EIo ==> (err == NoErr <==> Avoids(fold, tree, start, n, cnid))
    {
      var pathcnid: Cnid := start;
      ghost var m: nat := n;
      while pathcnid > ROOT
        invariant pathcnid != cnid
        invariant AtDepth(fold, tree, pathcnid, m)
        invariant Avoids(fold, tree, start, n, cnid) <==> Avoids(fold, tree, pathcnid, m, cnid)
        decreases m
      {
        var e;
        err, e := BTSearch(ThreadKey(fold, pathcnid), pathcnid in faults, Entry([], Thread(false, 0, [])));
        if err != NoErr {
          return;
        }
        pathcnid, m := e.rec.parent, m - 1;
        if pathcnid == cnid {
          return EInval;
        }
      }
      OnlyRootBelowUserIds(pathcnid, m);
      err := NoErr;
    }

    lemma OnlyRootBelowUserIds(c: Cnid, m: nat)
      requires Consistent(fold, tree) && AtDepth(fold, tree, c, m) && c <= ROOT
      ensures c == ROOT && m == 0
    {
    }

    /** The check of cat_rename that a folder is not moved into itself or below itself. */
    method CheckMove(from: Desc, todir: Desc, to: Desc, faults: set<Cnid>) returns (err: Err)
      requires Valid() && from.isDir && from.parent != to.parent && from.cnid != ROOT_PARENT
      requires IsFolder(fold, tree, to.parent)
      requires todir.parent == tree[ThreadKey(fold, to.parent)].rec.parent
      ensures err == NoErr || err == EInval || err == EIo
      ensures faults == {} ==> err != EIo
      ensures err != EIo ==> (err == NoErr <==> MoveAllowed(fold, tree, from, to))
    {
      var cnid, pathcnid := from.cnid, todir.parent;
      ghost var n := DepthOf(fold, tree, to.parent);
      forall k: nat | AtDepth(fold, tree, to.parent, k) ensures k == n {
        DepthUnique(fold, tree, to.parent, k, n);
      }
      assert MoveAllowed(fold, tree, from, to) <==> Avoids(fold, tree, to.parent, n, cnid);
      if cnid == ROOT || cnid == to.parent || cnid == pathcnid {
        if cnid == ROOT {
          RootNotAvoided(fold, tree, to.parent, n);
        } else if cnid == pathcnid {
          assert !Avoids(fold, tree, pathcnid, n - 1, cnid);
        }
        return EInval;
      }
      if pathcnid > ROOT {
        err := WalkToRoot(cnid, pathcnid, faults, n - 1);
      } else {
        if n > 0 {
          OnlyRootBelowUserIds(pathcnid, n - 1);
        }
        err := NoErr;
      }
    }

    /** The source record, as the first search read it, with the encoding hint of the new name. */
    ghost predicate ReadRecord(t: Tree, from: Desc, encoding: UInt32, fromName: Name, rec: Record) {
      var fk := KeyOf(fold, from.parent, from.name);
      fk in t && t[fk].rec.Node? && Entry(fromName, rec) == Reencoded(t[fk], encoding)
    }

    /** Step 2 when the new name exists in the same folder: a case variant of the old one, or a clash. */
    method ReplaceVariant(from: Desc, to: Desc, encoding: UInt32, fromName: Name, source: Record, io: RenameFaults)
      returns (err: Err, done: bool)
      requires Consistent(fold, tree) && Describes(fold, tree, from) && from.parent == to.parent
      requires KeyOf(fold, to.parent, to.name) in tree
      requires ReadRecord(tree, from, encoding, fromName, source)
      modifies this`tree
      ensures !io.search && !io.insert ==>
                && done == Moves(fold, old(tree), from, to, io)
                && (err == Panic <==> io.undo && Undoes(fold, old(tree), from, to, io))
                && (!done && err != Panic ==> tree == Restored(fold, old(tree), from, to, encoding, io))
      ensures err == NoErr <==> done || (!io.again && Clash(fold, old(tree), from, to))
      ensures done ==>
                && Movable(fold, old(tree), from, to)
                && tree == Relocated(fold, old(tree), from, to, StoredHint(fold, old(tree), from, to, encoding, io))
    {
      ghost var t := tree;
      var fk, tk := KeyOf(fold, from.parent, from.name), KeyOf(fold, to.parent, to.name);
      var rec, e := source, Entry(fromName, source);
      done := false;
      err, e := BTSearch(tk, io.again, Entry(fromName, source));
      rec := e.rec;
      if rec.Thread? || rec.isDir != source.isDir || rec.id != from.cnid {
        return;
      }
      if !io.again {
        UniqueHome(fold, t, fk, tk);
      }
      err, done := Respell(fk, tk, Entry(to.name, rec), Entry(fromName, rec), io);
      if !done && !io.again {
        assert t[fk := Entry(fromName, rec)] == t;
      }
    }

    /** Take the record from its old key so that it can be put at the new one; put it back on failure. */
    method Respell(fk: Key, tk: Key, moved: Entry, original: Entry, io: RenameFaults) returns (err: Err, done: bool)
      requires fk in tree
      modifies this`tree
      ensures done <==> err == NoErr
      ensures done == (!io.remove && !io.replace && (tk in old(tree) ==> tk == fk))
      ensures err == Panic <==> io.undo && !io.remove && !done
      ensures tree == if done then (old(tree) - {fk})[tk := moved]
                      else if io.remove then old(tree)
                      else if io.undo then old(tree) - {fk}
                      else old(tree)[fk := original]
    {
      done := false;
      err := BTDelete(fk, io.remove);
      if err != NoErr {
        return;
      }
      err := BTInsert(tk, moved, io.replace);
      if err == NoErr {
        done := true;
        return;
      }
      var undo := BTInsert(fk, original, io.undo);
      if undo != NoErr {
        err := Panic;
      }
      assert !io.undo ==> tree == old(tree)[fk := original];
      assert io.undo ==> tree == old(tree) - {fk};
    }

    /**
     * Steps 1 to 3 of cat_rename: put the record at its new key and take it from the old one, undoing
     * the first if the second fails.  `done` says that the point of no return was reached.
     */
    method MoveRecord(from: Desc, to: Desc, encoding: UInt32, io: RenameFaults) returns (err: Err, done: bool)
      requires Consistent(fold, tree)
      requires KeyOf(fold, from.parent, from.name) in tree ==> Describes(fold, tree, from)
      modifies this`tree
      ensures done == Moves(fold, old(tree), from, to, io)
      ensures done ==>
                && Movable(fold, old(tree), from, to)
                && tree == Relocated(fold, old(tree), from, to, StoredHint(fold, old(tree), from, to, encoding, io))
      ensures err == NoErr <==> done || SilentClash(fold, old(tree), from, to, io)
      ensures err == Panic <==> io.undo && Undoes(fold, old(tree), from, to, io)
      ensures !done && err != Panic ==> tree == Restored(fold, old(tree), from, to, encoding, io)
      ensures !io.search && !io.insert && !io.again && !io.remove && !io.replace ==>
                var fk, tk := KeyOf(fold, from.parent, from.name), KeyOf(fold, to.parent, to.name);
                err == if fk !in old(tree) then ENoEnt
                       else if tk in old(tree) && from.parent != to.parent then EExist
                       else NoErr
    {
      ghost var t := tree;
      var fk, tk := KeyOf(fold, from.parent, from.name), KeyOf(fold, to.parent, to.name);
      var e;
      done := false;
      err, e := BTSearch(fk, io.search, Entry([], Thread(false, 0, [])));
      if err != NoErr {
        return;
      }
      var fromName, rec := e.name, Reencoded(e, encoding).rec;
      err := BTInsert(tk, Entry(to.name, rec), io.insert);
      if err == EExist {
        if from.parent == to.parent {
          err, done := ReplaceVariant(from, to, encoding, fromName, rec, io);
        }
        return;
      }
      if err != NoErr {
        return;
      }
      err := BTDelete(fk, io.remove);
      if err != NoErr {
        var undo := BTDelete(tk, io.undo);
        if undo != NoErr {
          err := Panic;
        }
        assert !io.undo ==> tree == t;
        return;
      }
      done := true;
      assert tree == (t - {fk})[tk := Entry(to.name, rec)];
    }

    /**
     * cat_rename.  Unless moving the record back fails, which is a panic, either the node is renamed or
     * the catalog is restored; restored means exactly as it was but for the case of LeavesHint.
     */
    method Rename(from: Desc, todir: Desc, to: Desc, encoding: UInt32, io: RenameFaults)
        returns (err: Err, ghost checked: bool)
      requires Valid()
      requires KeyOf(fold, from.parent, from.name) in tree ==> Describes(fold, tree, from)
      requires from.cnid != ROOT_PARENT
      requires IsFolder(fold, tree, to.parent) || to.parent == from.parent
      requires from.isDir && from.parent != to.parent ==>
                 todir.parent == tree[ThreadKey(fold, to.parent)].rec.parent
      modifies this
      ensures next == old(next) && reused == old(reused)
      ensures checked ==> Checks(from, to, io) && MoveAllowed(fold, old(tree), from, to)
      ensures Checks(from, to, io) && (from.parent == to.parent || io.walk == {}) ==>
                checked == MoveAllowed(fold, old(tree), from, to)
      ensures !checked ==> err != NoErr && err != Panic && tree == old(tree)
      // Names that are missing, overlong or malformed.
      ensures from.name == [] || to.name == [] ==> err == EInval
      ensures from.name != [] && to.name != [] && from.nameErr != NoErr ==> Refused(from, err)
      ensures from.name != [] && to.name != [] && from.nameErr == NoErr && to.nameErr != NoErr ==> Refused(to, err)
      ensures from.name == [] || to.name == [] || from.nameErr != NoErr || to.nameErr != NoErr ==> !checked
      ensures checked && Moves(fold, old(tree), from, to, io) ==>
                && Describes(fold, old(tree), from)
                && var hint := StoredHint(fold, old(tree), from, to, encoding, io);
                   && RenamedLate(fold, old(State()), from, to, hint, io, State())
                   && (err == NoErr <==> !io.threadRemove && !io.threadInsert)
                   && (err == NoErr ==> Renamed(fold, old(State()), from, to, hint, State()))
      ensures checked && !Moves(fold, old(tree), from, to, io) ==>
                // A clash in the same folder is reported as success although nothing was renamed.
                && (err == NoErr <==> SilentClash(fold, old(tree), from, to, io))
                && (err == Panic <==> io.undo && Undoes(fold, old(tree), from, to, io))
                && (err != Panic ==> tree == Restored(fold, old(tree), from, to, encoding, io))
      // Short of the point of no return, anything is left behind if and only if a new hint is.
      ensures err != Panic && !(checked && Moves(fold, old(tree), from, to, io)) ==>
                var fk := KeyOf(fold, from.parent, from.name);
                tree != old(tree) <==>
                checked && LeavesHint(fold, old(tree), from, to, io) && old(tree)[fk].rec.info.encoding != encoding
      ensures io == NO_FAULTS && checked ==>
                var fk, tk := KeyOf(fold, from.parent, from.name), KeyOf(fold, to.parent, to.name);
                err == if fk !in old(tree) then ENoEnt
                       else if tk in old(tree) && from.parent != to.parent then EExist
                       else NoErr
      ensures err != Panic && !io.threadRemove && !io.threadInsert && !BlanksRoot(fold, from, to) ==> Valid()
    {
      err := CheckRename(from, todir, to, io);
      checked := err == NoErr;
      if err != NoErr {
        return;
      }
      var done;
      err, done := MoveRecord(from, to, encoding, io);
      if done {
        err := MoveThread(from, to, io);
        RenameDone(fold, old(State()), from, to, StoredHint(fold, old(tree), from, to, encoding, io), io, State());
      } else if err != Panic {
        RestoredStaysValid(fold, old(State()), from, to, encoding, io, State());
      }
    }

    /** The checks of cat_rename before it touches the catalog. */
    method CheckRename(from: Desc, todir: Desc, to: Desc, io: RenameFaults) returns (err: Err)
      requires Valid() && from.cnid != ROOT_PARENT
      requires IsFolder(fold, tree, to.parent) || to.parent == from.parent
      requires from.isDir && from.parent != to.parent ==>
                 todir.parent == tree[ThreadKey(fold, to.parent)].rec.parent
      ensures err == NoErr ==> Checks(from, to, io) && MoveAllowed(fold, tree, from, to)
      ensures Checks(from, to, io) && (from.parent == to.parent || io.walk == {}) ==>
                err == if MoveAllowed(fold, tree, from, to) then NoErr else EInval
      ensures err != Panic
      ensures from.name == [] || to.name == [] ==> err == EInval
      ensures from.name != [] && to.name != [] && from.nameErr != NoErr ==> Refused(from, err)
      ensures from.name != [] && to.name != [] && from.nameErr == NoErr && to.nameErr != NoErr ==> Refused(to, err)
    {
      if from.name == [] || to.name == [] {
        return EInval;
      }
      err := BuildKey(from);
      if err != NoErr {
        return;
      }
      err := BuildKey(to);
      if err != NoErr {
        return;
      }
      if io.space {
        return ENoSpc;
      }
      if from.isDir && from.parent != to.parent {
        err := CheckMove(from, todir, to, io.walk);
      }
    }

    /** Steps 4 and 5 of cat_rename, behind the point of no return. */
    method MoveThread(from: Desc, to: Desc, io: RenameFaults) returns (err: Err)
      modifies this`tree
      ensures tree == ThreadMoved(fold, old(tree), from, to, io)
      ensures err == if io.threadInsert then EIo
                     else if io.threadRemove && ThreadKey(fold, from.cnid) in old(tree) then EExist
                     else NoErr
    {
      var ck := ThreadKey(fold, from.cnid);
      var ignored := BTDelete(ck, io.threadRemove);
      err := BTInsert(ck, Entry([], Thread(from.isDir, to.parent, to.name)), io.threadInsert);
      assert ck !in old(tree) ==> old(tree) - {ck} == old(tree);
    }
  }

  /** The record was moved, and its thread as far as that went. */
  ghost predicate RenamedLate(fold: Folding, v: Vol, from: Desc, to: Desc, hint: UInt32, io: RenameFaults, v': Vol) {
    && v'.next == v.next && v'.reused == v.reused
    && Movable(fold, v.tree, from, to)
    && v'.tree == ThreadMoved(fold, Relocated(fold, v.tree, from, to, hint), from, to, io)
  }

  lemma RestoredStaysValid(fold: Folding, v: Vol, from: Desc, to: Desc, encoding: UInt32, io: RenameFaults, v': Vol)
    requires ValidVol(fold, v) && v'.tree == Restored(fold, v.tree, from, to, encoding, io)
    requires v'.next == v.next && v'.reused == v.reused
    requires KeyOf(fold, from.parent, from.name) in v.tree ==> Describes(fold, v.tree, from)
    ensures ValidVol(fold, v')
    ensures KeyOf(fold, from.parent, from.name) in v.tree ==>
              var fk := KeyOf(fold, from.parent, from.name);
              v'.tree != v.tree <==> LeavesHint(fold, v.tree, from, to, io) && v.tree[fk].rec.info.encoding != encoding
  {
    var fk := KeyOf(fold, from.parent, from.name);
    if fk in v.tree {
      RestoredIff(fold, v.tree, from, to, encoding, io);
      if LeavesHint(fold, v.tree, from, to, io) {
        RehintedStaysValid(fold, v, fk, encoding, v');
      }
    }
  }

  lemma RenameDone(fold: Folding, v: Vol, from: Desc, to: Desc, hint: UInt32, io: RenameFaults, v': Vol)
    requires ValidVol(fold, v) && RenameDescribed(fold, v, from, to) && MoveAllowed(fold, v.tree, from, to)
    requires to.name != [] && RenamedLate(fold, v, from, to, hint, io, v')
    ensures ThreadKey(fold, from.cnid) in Relocated(fold, v.tree, from, to, hint)
    ensures !io.threadRemove && !io.threadInsert ==> Renamed(fold, v, from, to, hint, v')
    ensures !io.threadRemove && !io.threadInsert && !BlanksRoot(fold, from, to) ==> ValidVol(fold, v')
  {
    assert NodeAgrees(fold, v.tree, KeyOf(fold, from.parent, from.name));
    if !io.threadRemove && !io.threadInsert {
      RenameValidIff(fold, v, from, to, hint, v');
    }
  }

  /** A thread that could not be written leaves its record without one. */
  lemma LostThread(fold: Folding, v: Vol, from: Desc, to: Desc, hint: UInt32, io: RenameFaults, v': Vol)
    requires ValidVol(fold, v) && RenameDescribed(fold, v, from, to)
    requires RenamedLate(fold, v, from, to, hint, io, v') && io.threadInsert && !io.threadRemove
    requires fold(to.name) != fold([])
    ensures !Consistent(fold, v'.tree)
  {
    var tk, ck := KeyOf(fold, to.parent, to.name), ThreadKey(fold, from.cnid);
    assert tk in v'.tree && v'.tree[tk].rec.Node? && ck !in v'.tree;
    assert !NodeAgrees(fold, v'.tree, tk);
  }

  /** One that could not be removed still names the old place, which is wrong if the place or spelling changed. */
  lemma StaleThread(fold: Folding, v: Vol, from: Desc, to: Desc, hint: UInt32, io: RenameFaults, v': Vol)
    requires ValidVol(fold, v) && RenameDescribed(fold, v, from, to)
    requires RenamedLate(fold, v, from, to, hint, io, v') && io.threadRemove && fold(to.name) != fold([])
    ensures var fk := KeyOf(fold, from.parent, from.name);
            Consistent(fold, v'.tree) ==> KeyOf(fold, to.parent, to.name) == fk && to.name == v.tree[fk].name
  {
    var fk, tk, ck := KeyOf(fold, from.parent, from.name), KeyOf(fold, to.parent, to.name), ThreadKey(fold, from.cnid);
    assert NodeAgrees(fold, v.tree, fk);
    assert tk in v'.tree && v'.tree[tk].rec.Node? && v'.tree[ck] == v.tree[ck];
    if Consistent(fold, v'.tree) {
      assert NodeAgrees(fold, v'.tree, tk);
    }
  }

  /** Removing a record but not its thread leaves the thread dangling. */
  lemma DanglingThread(fold: Folding, t: Tree, key: Key, u: Tree)
    requires Consistent(fold, t) && key in t && t[key].rec.Node? && u == t - {key}
    ensures !Consistent(fold, u)
  {
    var ck := ThreadKey(fold, t[key].rec.id);
    assert NodeAgrees(fold, t, key);
    assert ck in u && u[ck].rec.Thread? && !ThreadAgrees(fold, u, ck);
  }

  /** A thread without its record. */
  lemma LoneThread(fold: Folding, t: Tree, id: Cnid, thread: Entry, u: Tree)
    requires Consistent(fold, t) && !Taken(fold, t, id) && thread.rec.Thread?
    requires u == t[ThreadKey(fold, id) := thread]
    ensures !Consistent(fold, u)
  {
    var ck := ThreadKey(fold, id);
    var home := KeyOf(fold, thread.rec.parent, thread.rec.name);
    if home in t && t[home].rec.Node? {
      assert NodeAgrees(fold, t, home);
    }
    assert !ThreadAgrees(fold, u, ck);
  }

  lemma DeleteDone(fold: Folding, v: Vol, key: Key, v': Vol)
    requires ValidVol(fold, v) && key in v.tree && v.tree[key].rec.Node? && v.tree[key].rec.id != ROOT
    requires Deleted(fold, v, key, v.tree[key].rec.id, v')
    ensures ValidVol(fold, v') <==> EmptyFolder(fold, v.tree, v.tree[key].rec.id)
  {
    var e := v.tree[key];
    assert NodeAgrees(fold, v.tree, key);
    DeletedValidIff(fold, v, Desc(key.parent, e.name, NoErr, e.rec.id, e.rec.isDir), v');
  }
}
