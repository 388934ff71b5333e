/** Every create, rename and delete keeps the catalog a consistent tree. */
module CatalogProofs {
  import opened Bytes
  import opened CatalogModel
  import opened CatalogSpec

  // Create.

  lemma CreatedNewId(fold: Folding, v: Vol, d: Desc, isDir: bool, info: Info, v': Vol, id: Cnid)
    requires Consistent(fold, v.tree) && IsFolder(fold, v.tree, d.parent)
    requires Created(fold, v, d, isDir, info, v', id)
    ensures forall k | k in v.tree :: k in v'.tree && v'.tree[k] == v.tree[k]
    ensures d.parent != id
    ensures forall k | k in v.tree :: k.parent == id ==> k != ThreadKey(fold, id)
    ensures forall k | k in v.tree && v.tree[k].rec.Node? :: v.tree[k].rec.id != id && k.parent != id
  {
    forall k | k in v.tree && v.tree[k].rec.Node?
      ensures v.tree[k].rec.id != id && k.parent != id
    {
      assert NodeAgrees(fold, v.tree, k);
      ParentIsFolder(fold, v.tree, k);
    }
  }

  lemma CreatedConsistent(fold: Folding, v: Vol, d: Desc, isDir: bool, info: Info, v': Vol, id: Cnid)
    requires Consistent(fold, v.tree) && IsFolder(fold, v.tree, d.parent)
    requires Created(fold, v, d, isDir, info, v', id)
    ensures Consistent(fold, v'.tree)
  {
    CreatedNewId(fold, v, d, isDir, info, v', id);
    var t, u := v.tree, v'.tree;
    assert KeyOf(fold, d.parent, d.name) != ThreadKey(fold, d.parent);
    forall k | k in u && u[k].rec.Node?
      ensures NodeAgrees(fold, u, k) && (u[k].rec.id != ROOT ==> IsFolder(fold, u, k.parent))
    {
      if k != KeyOf(fold, d.parent, d.name) {
        KeptNode(fold, t, u, k);
      }
    }
    forall k | k in u && u[k].rec.Thread? ensures ThreadAgrees(fold, u, k) {
      if k != ThreadKey(fold, id) {
        assert ThreadAgrees(fold, t, k);
      }
    }
  }

  /** Adding entries does not disturb a node. */
  lemma KeptNode(fold: Folding, t: Tree, u: Tree, k: Key)
    requires Consistent(fold, t) && k in t && t[k].rec.Node?
    requires forall x | x in t :: x in u && u[x] == t[x]
    ensures NodeAgrees(fold, u, k) && (u[k].rec.id != ROOT ==> IsFolder(fold, u, k.parent))
  {
    assert NodeAgrees(fold, t, k);
    ParentIsFolder(fold, t, k);
  }

  lemma CreatedRooted(fold: Folding, v: Vol, d: Desc, isDir: bool, info: Info, v': Vol, id: Cnid)
    requires ValidVol(fold, v) && IsFolder(fold, v.tree, d.parent)
    requires Created(fold, v, d, isDir, info, v', id)
    ensures AllRooted(fold, v'.tree)
  {
    CreatedNewId(fold, v, d, isDir, info, v', id);
    forall c: Cnid | IsFolder(fold, v'.tree, c) ensures Rooted(fold, v'.tree, c) {
      if c != id {
        assert IsFolder(fold, v.tree, c);
        OldPathSurvives(fold, v.tree, v'.tree, c, id);
      } else {
        OldPathSurvives(fold, v.tree, v'.tree, d.parent, id);
        var n: nat :| AtDepth(fold, v'.tree, d.parent, n);
        assert AtDepth(fold, v'.tree, id, n + 1);
      }
    }
  }

  lemma OldPathSurvives(fold: Folding, t: Tree, u: Tree, c: Cnid, x: Cnid)
    requires Rooted(fold, t, c) && !Taken(fold, t, x) && x != ROOT
    requires forall k | k in t :: k in u && u[k] == t[k]
    ensures Rooted(fold, u, c)
  {
    var n: nat :| AtDepth(fold, t, c, n);
    UntakenAvoided(fold, t, c, n, x);
    AvoidingPathSurvives(fold, t, u, c, n, x);
  }

  lemma {:induction false} UntakenAvoided(fold: Folding, t: Tree, c: Cnid, n: nat, x: Cnid)
    requires AtDepth(fold, t, c, n) && !Taken(fold, t, x) && x != ROOT
    ensures Avoids(fold, t, c, n, x)
    decreases n
  {
    if n > 0 {
      UntakenAvoided(fold, t, t[ThreadKey(fold, c)].rec.parent, n - 1, x);
    }
  }

  lemma CreatedStaysValid(fold: Folding, v: Vol, d: Desc, isDir: bool, info: Info, v': Vol, id: Cnid)
    requires ValidVol(fold, v) && IsFolder(fold, v.tree, d.parent)
    requires Created(fold, v, d, isDir, info, v', id)
    ensures ValidVol(fold, v')
  {
    CreatedConsistent(fold, v, d, isDir, info, v', id);
    CreatedRooted(fold, v, d, isDir, info, v', id);
  }

  // A record that only gets another encoding hint.

  /** What a failed rename can leave behind: the record at `k` with another encoding hint. */
  ghost predicate Rehinted(v: Vol, k: Key, encoding: UInt32, v': Vol) {
    && k in v.tree && v.tree[k].rec.Node?
    && v'.tree == v.tree[k := Reencoded(v.tree[k], encoding)]
    && v'.next == v.next && v'.reused == v.reused
  }

  lemma RehintedConsistent(fold: Folding, v: Vol, k: Key, encoding: UInt32, v': Vol)
    requires Consistent(fold, v.tree) && Rehinted(v, k, encoding, v')
    ensures Consistent(fold, v'.tree)
  {
    var t, u := v.tree, v'.tree;
    assert NodeAgrees(fold, t, k);
    assert forall c: Cnid | IsFolder(fold, t, c) :: IsFolder(fold, u, c);
    forall x | x in u && u[x].rec.Node?
      ensures NodeAgrees(fold, u, x) && (u[x].rec.id != ROOT ==> IsFolder(fold, u, x.parent))
    {
      assert NodeAgrees(fold, t, x);
      ParentIsFolder(fold, t, x);
    }
    forall x | x in u && u[x].rec.Thread? ensures ThreadAgrees(fold, u, x) {
      assert ThreadAgrees(fold, t, x);
    }
  }

  lemma RehintedStaysValid(fold: Folding, v: Vol, k: Key, encoding: UInt32, v': Vol)
    requires ValidVol(fold, v) && Rehinted(v, k, encoding, v')
    ensures ValidVol(fold, v')
  {
    RehintedConsistent(fold, v, k, encoding, v');
    forall c: Cnid | IsFolder(fold, v'.tree, c) ensures Rooted(fold, v'.tree, c) {
      var n := DepthOf(fold, v.tree, c);
      UntakenAvoided(fold, v.tree, c, n, ROOT_PARENT);
      AvoidingPathSurvives(fold, v.tree, v'.tree, c, n, ROOT_PARENT);
    }
  }

  // Rename.

  /** What the callers of cat_rename promise: the source is there, and so is the target's folder. */
  ghost predicate RenameDescribed(fold: Folding, v: Vol, from: Desc, to: Desc) {
    && Describes(fold, v.tree, from)
    && (IsFolder(fold, v.tree, to.parent) || to.parent == from.parent)
  }

  ghost predicate RenameAgrees(fold: Folding, v: Vol, from: Desc, to: Desc) {
    RenameDescribed(fold, v, from, to) && MoveAllowed(fold, v.tree, from, to)
  }

  /** Only the volume itself could be given a name that the key comparison cannot tell from none. */
  ghost predicate BlanksRoot(fold: Folding, from: Desc, to: Desc) {
    from.cnid == ROOT && fold(to.name) == fold([])
  }

  lemma {:induction false} RootNotAvoided(fold: Folding, t: Tree, c: Cnid, n: nat)
    requires AtDepth(fold, t, c, n)
    ensures !Avoids(fold, t, c, n, ROOT)
    decreases n
  {
    if n > 0 {
      RootNotAvoided(fold, t, t[ThreadKey(fold, c)].rec.parent, n - 1);
    }
  }

  lemma RenameParents(fold: Folding, v: Vol, from: Desc, to: Desc)
    requires Consistent(fold, v.tree) && RenameDescribed(fold, v, from, to)
    ensures from.cnid == ROOT ==> from.parent == ROOT_PARENT
    ensures from.cnid != ROOT ==> IsFolder(fold, v.tree, to.parent)
    ensures MoveAllowed(fold, v.tree, from, to) && from.cnid == ROOT ==> to.parent == ROOT_PARENT
  {
    assert NodeAgrees(fold, v.tree, KeyOf(fold, from.parent, from.name));
    if MoveAllowed(fold, v.tree, from, to) && from.cnid == ROOT && from.parent != to.parent {
      var n: nat :| AtDepth(fold, v.tree, to.parent, n) && Avoids(fold, v.tree, to.parent, n, ROOT);
      RootNotAvoided(fold, v.tree, to.parent, n);
    }
  }

  /** The shape of the catalog after a rename: one node at its new key, its thread, the rest as before. */
  ghost predicate MovedNode(fold: Folding, t: Tree, u: Tree, from: Desc, to: Desc) {
    var fk, tk := KeyOf(fold, from.parent, from.name), KeyOf(fold, to.parent, to.name);
    var ck := ThreadKey(fold, from.cnid);
    && tk.folded != fold([])
    && tk in u && u[tk].name == to.name
    && u[tk].rec.Node? && u[tk].rec.id == from.cnid && u[tk].rec.isDir == from.isDir
    && ck in u && u[ck].rec == Thread(from.isDir, to.parent, to.name)
    && (forall k | k in u && k != tk && k != ck :: k in t && k != fk && u[k] == t[k])
    && (forall k | k in t && k != fk && k != ck :: k in u && u[k] == t[k])
  }

  lemma RenamedShape(fold: Folding, v: Vol, from: Desc, to: Desc, hint: UInt32, v': Vol)
    requires Consistent(fold, v.tree) && Describes(fold, v.tree, from)
    requires IsFolder(fold, v.tree, to.parent) || fold(to.name) != fold([])
    requires Renamed(fold, v, from, to, hint, v')
    ensures MovedNode(fold, v.tree, v'.tree, from, to)
  {
    var tk := KeyOf(fold, to.parent, to.name);
    assert NodeAgrees(fold, v.tree, KeyOf(fold, from.parent, from.name));
    if IsFolder(fold, v.tree, to.parent) {
      assert tk != ThreadKey(fold, to.parent);
    }
  }

  lemma MovedConsistent(fold: Folding, t: Tree, u: Tree, from: Desc, to: Desc)
    requires Consistent(fold, t) && Describes(fold, t, from) && MovedNode(fold, t, u, from, to)
    requires from.cnid == ROOT ==> to.parent == ROOT_PARENT
    requires from.cnid != ROOT ==> IsFolder(fold, t, to.parent)
    ensures Consistent(fold, u)
  {
    var ck := ThreadKey(fold, from.cnid);
    assert NodeAgrees(fold, t, KeyOf(fold, from.parent, from.name));
    forall k | k in u && u[k].rec.Node?
      ensures NodeAgrees(fold, u, k) && (u[k].rec.id != ROOT ==> IsFolder(fold, u, k.parent))
    {
      MovedNodes(fold, t, u, from, to, k);
    }
    forall k | k in u && u[k].rec.Thread? ensures ThreadAgrees(fold, u, k) {
      if k != ck {
        MovedThreads(fold, t, u, from, to, k);
      }
    }
    MovedFolders(fold, t, u, from, to, ROOT);
  }

  lemma MovedFolders(fold: Folding, t: Tree, u: Tree, from: Desc, to: Desc, c: Cnid)
    requires Consistent(fold, t) && Describes(fold, t, from) && MovedNode(fold, t, u, from, to)
    requires IsFolder(fold, t, c)
    ensures IsFolder(fold, u, c)
  {
    assert NodeAgrees(fold, t, KeyOf(fold, from.parent, from.name));
  }

  lemma MovedNodes(fold: Folding, t: Tree, u: Tree, from: Desc, to: Desc, k: Key)
    requires Consistent(fold, t) && Describes(fold, t, from) && MovedNode(fold, t, u, from, to)
    requires from.cnid != ROOT ==> IsFolder(fold, t, to.parent)
    requires k in u && u[k].rec.Node?
    ensures NodeAgrees(fold, u, k)
    ensures u[k].rec.id != ROOT ==> IsFolder(fold, u, k.parent)
  {
    var fk, tk := KeyOf(fold, from.parent, from.name), KeyOf(fold, to.parent, to.name);
    assert NodeAgrees(fold, t, fk);
    if k != tk {
      assert NodeAgrees(fold, t, k);
      if t[k].rec.id == from.cnid {
        UniqueHome(fold, t, k, fk);
      }
    }
    if u[k].rec.id != ROOT {
      MovedFolders(fold, t, u, from, to, k.parent);
    }
  }

  lemma MovedThreads(fold: Folding, t: Tree, u: Tree, from: Desc, to: Desc, k: Key)
    requires Consistent(fold, t) && Describes(fold, t, from) && MovedNode(fold, t, u, from, to)
    requires k in u && u[k].rec.Thread? && k != ThreadKey(fold, from.cnid)
    ensures ThreadAgrees(fold, u, k)
  {
    assert ThreadAgrees(fold, t, k);
    assert NodeAgrees(fold, t, KeyOf(fold, from.parent, from.name));
    var r := t[k].rec;
    assert KeyOf(fold, r.parent, r.name) != KeyOf(fold, from.parent, from.name);
  }

  /** A rename keeps threads and records in step, except for one that blanks the volume name. */
  lemma RenamedConsistent(fold: Folding, v: Vol, from: Desc, to: Desc, hint: UInt32, v': Vol)
    requires Consistent(fold, v.tree) && RenameAgrees(fold, v, from, to)
    requires Renamed(fold, v, from, to, hint, v')
    ensures Consistent(fold, v'.tree) <==> !BlanksRoot(fold, from, to)
  {
    RenameParents(fold, v, from, to);
    if BlanksRoot(fold, from, to) {
      assert KeyOf(fold, to.parent, to.name) == ThreadKey(fold, ROOT_PARENT);
    } else {
      RenamedShape(fold, v, from, to, hint, v');
      MovedConsistent(fold, v.tree, v'.tree, from, to);
    }
  }

  lemma MovedThreadParents(fold: Folding, t: Tree, u: Tree, from: Desc, to: Desc)
    requires Consistent(fold, t) && Describes(fold, t, from) && MovedNode(fold, t, u, from, to)
    ensures SameThreadsExcept(fold, t, u, from.cnid)
    ensures forall c: Cnid | IsFolder(fold, u, c) :: IsFolder(fold, t, c)
  {
    var fk := KeyOf(fold, from.parent, from.name);
    assert NodeAgrees(fold, t, fk);
    forall c: Cnid | c != from.cnid && IsFolder(fold, t, c)
      ensures IsFolder(fold, u, c) && u[ThreadKey(fold, c)].rec.parent == t[ThreadKey(fold, c)].rec.parent
    {
      assert ThreadKey(fold, c) != fk;
    }
  }

  /** If the walk to the root accepted the move, every folder still reaches the root. */
  lemma RenamedRooted(fold: Folding, v: Vol, from: Desc, to: Desc, hint: UInt32, v': Vol)
    requires ValidVol(fold, v) && RenameAgrees(fold, v, from, to)
    requires Renamed(fold, v, from, to, hint, v') && !BlanksRoot(fold, from, to)
    ensures AllRooted(fold, v'.tree)
  {
    RenameParents(fold, v, from, to);
    RenamedShape(fold, v, from, to, hint, v');
    MovedThreadParents(fold, v.tree, v'.tree, from, to);
    assert NodeAgrees(fold, v.tree, KeyOf(fold, from.parent, from.name));
    if from.isDir {
      FolderMoved(fold, v.tree, v'.tree, from, to);
    } else {
      FileMoved(fold, v.tree, v'.tree, from.cnid);
    }
  }

  lemma FolderMoved(fold: Folding, t: Tree, u: Tree, from: Desc, to: Desc)
    requires AllRooted(fold, t)
    requires Describes(fold, t, from) && from.isDir
    requires IsFolder(fold, t, from.cnid) && t[ThreadKey(fold, from.cnid)].rec.parent == from.parent
    requires MovedNode(fold, t, u, from, to) && SameThreadsExcept(fold, t, u, from.cnid)
    requires MoveAllowed(fold, t, from, to)
    requires forall c: Cnid | IsFolder(fold, u, c) :: IsFolder(fold, t, c)
    ensures AllRooted(fold, u)
  {
    var m := 0;
    if from.cnid != ROOT {
      m := MovedDepth(fold, t, u, from, to);
    }
    forall c: Cnid | IsFolder(fold, u, c) ensures Rooted(fold, u, c) {
      var n := DepthOf(fold, t, c);
      RehungPath(fold, t, u, c, n, from.cnid, m);
    }
  }

  lemma FileMoved(fold: Folding, t: Tree, u: Tree, x: Cnid)
    requires AllRooted(fold, t) && !IsFolder(fold, t, x) && IsFolder(fold, t, ROOT)
    requires SameThreadsExcept(fold, t, u, x)
    requires forall c: Cnid | IsFolder(fold, u, c) :: IsFolder(fold, t, c)
    ensures AllRooted(fold, u)
  {
    forall c: Cnid | IsFolder(fold, u, c) ensures Rooted(fold, u, c) {
      var n := DepthOf(fold, t, c);
      FileAvoided(fold, t, c, n, x);
      AvoidingPathSurvives(fold, t, u, c, n, x);
    }
  }

  lemma {:induction false} FileAvoided(fold: Folding, t: Tree, c: Cnid, n: nat, x: Cnid)
    requires AtDepth(fold, t, c, n) && !IsFolder(fold, t, x) && x != ROOT
    ensures Avoids(fold, t, c, n, x)
    decreases n
  {
    if n > 0 {
      FileAvoided(fold, t, t[ThreadKey(fold, c)].rec.parent, n - 1, x);
    }
  }

  lemma MovedDepth(fold: Folding, t: Tree, u: Tree, from: Desc, to: Desc) returns (m: nat)
    requires Describes(fold, t, from) && from.isDir && from.cnid != ROOT
    requires IsFolder(fold, t, from.cnid) && t[ThreadKey(fold, from.cnid)].rec.parent == from.parent
    requires Rooted(fold, t, from.cnid)
    requires MovedNode(fold, t, u, from, to) && SameThreadsExcept(fold, t, u, from.cnid)
    requires MoveAllowed(fold, t, from, to)
    ensures AtDepth(fold, u, from.cnid, m)
  {
    var x := from.cnid;
    if from.parent == to.parent {
      m :| AtDepth(fold, t, x, m);
      ParentAvoids(fold, t, x, m - 1);
      AvoidingPathSurvives(fold, t, u, to.parent, m - 1, x);
    } else {
      var n: nat :| AtDepth(fold, t, to.parent, n) && Avoids(fold, t, to.parent, n, x);
      AvoidingPathSurvives(fold, t, u, to.parent, n, x);
      m := n + 1;
    }
  }

  /** A folder is not on the way up from its own parent. */
  lemma ParentAvoids(fold: Folding, t: Tree, x: Cnid, n: nat)
    requires AtDepth(fold, t, x, n + 1)
    ensures Avoids(fold, t, t[ThreadKey(fold, x)].rec.parent, n, x)
  {
    DeeperAvoids(fold, t, t[ThreadKey(fold, x)].rec.parent, n, x, n + 1);
  }

  lemma {:induction false} DeeperAvoids(fold: Folding, t: Tree, c: Cnid, n: nat, x: Cnid, m: nat)
    requires AtDepth(fold, t, c, n) && AtDepth(fold, t, x, m) && n < m
    ensures Avoids(fold, t, c, n, x)
    decreases n
  {
    if c == x {
      DepthUnique(fold, t, c, n, m);
    }
    if n > 0 {
      DeeperAvoids(fold, t, t[ThreadKey(fold, c)].rec.parent, n - 1, x, m);
    }
  }

  /** A path that runs into `x` in one catalog leads there in the other. */
  lemma {:induction false} PathMeets(fold: Folding, t: Tree, u: Tree, c: Cnid, n: nat, x: Cnid, k: nat) returns (j: nat)
    requires AtDepth(fold, t, c, n) && !Avoids(fold, t, c, n, x)
    requires SameThreadsExcept(fold, t, u, x)
    requires AtDepth(fold, u, c, k)
    ensures j <= k && AtDepth(fold, u, x, j)
    decreases n
  {
    if c == x {
      j := k;
    } else {
      j := PathMeets(fold, t, u, t[ThreadKey(fold, c)].rec.parent, n - 1, x, k - 1);
    }
  }

  lemma Detached(fold: Folding, t: Tree, u: Tree, x: Cnid, p: Cnid, n: nat)
    requires AtDepth(fold, t, p, n) && !Avoids(fold, t, p, n, x)
    requires SameThreadsExcept(fold, t, u, x)
    requires x != ROOT && IsFolder(fold, u, x) && u[ThreadKey(fold, x)].rec.parent == p
    ensures !Rooted(fold, u, x)
  {
    if m: nat :| AtDepth(fold, u, x, m) {
      var j := PathMeets(fold, t, u, p, n, x, m - 1);
      DepthUnique(fold, u, x, j, m);
    }
  }

  /** A move that the walk refuses would cut the moved folder off from the root. */
  lemma RefusedMoveDetaches(fold: Folding, v: Vol, from: Desc, to: Desc, hint: UInt32, v': Vol)
    requires ValidVol(fold, v) && RenameDescribed(fold, v, from, to) && !MoveAllowed(fold, v.tree, from, to)
    requires Renamed(fold, v, from, to, hint, v') && Consistent(fold, v'.tree)
    ensures IsFolder(fold, v'.tree, from.cnid) && !Rooted(fold, v'.tree, from.cnid)
  {
    RenameParents(fold, v, from, to);
    RenamedShape(fold, v, from, to, hint, v');
    MovedThreadParents(fold, v.tree, v'.tree, from, to);
    var n := DepthOf(fold, v.tree, to.parent);
    Detached(fold, v.tree, v'.tree, from.cnid, to.parent, n);
  }

  /**
   * The checks of cat_rename are exact: completing the rename leaves a valid volume if and only
   * if the walk accepts the move and the volume is not given a blank name.
   */
  lemma RenameValidIff(fold: Folding, v: Vol, from: Desc, to: Desc, hint: UInt32, v': Vol)
    requires ValidVol(fold, v) && RenameDescribed(fold, v, from, to)
    requires Renamed(fold, v, from, to, hint, v')
    ensures ValidVol(fold, v') <==> MoveAllowed(fold, v.tree, from, to) && !BlanksRoot(fold, from, to)
  {
    if MoveAllowed(fold, v.tree, from, to) {
      RenamedConsistent(fold, v, from, to, hint, v');
      if !BlanksRoot(fold, from, to) {
        RenamedRooted(fold, v, from, to, hint, v');
      }
    } else if Consistent(fold, v'.tree) {
      RefusedMoveDetaches(fold, v, from, to, hint, v');
    }
  }

  // Delete.

  ghost predicate Dropped(t: Tree, u: Tree, rk: Key, ck: Key) {
    && (forall k | k in u :: k in t && k != rk && k != ck && u[k] == t[k])
    && (forall k | k in t && k != rk && k != ck :: k in u)
  }

  lemma DroppedNode(fold: Folding, t: Tree, u: Tree, rk: Key, c: Cnid, k: Key)
    requires Consistent(fold, t) && rk in t && t[rk].rec.Node? && t[rk].rec.id == c && EmptyFolder(fold, t, c)
    requires Dropped(t, u, rk, ThreadKey(fold, c)) && k in u && u[k].rec.Node?
    ensures NodeAgrees(fold, u, k)
    ensures u[k].rec.id != ROOT ==> IsFolder(fold, u, k.parent)
  {
    assert NodeAgrees(fold, t, k) && NodeAgrees(fold, t, rk);
    ParentIsFolder(fold, t, k);
    if t[k].rec.id == c {
      UniqueHome(fold, t, k, rk);
    }
    assert k.parent != c;
  }

  lemma DroppedThread(fold: Folding, t: Tree, u: Tree, rk: Key, c: Cnid, k: Key)
    requires Consistent(fold, t) && rk in t && t[rk].rec.Node? && t[rk].rec.id == c
    requires Dropped(t, u, rk, ThreadKey(fold, c)) && k in u && u[k].rec.Thread?
    ensures ThreadAgrees(fold, u, k)
  {
    assert ThreadAgrees(fold, t, k) && NodeAgrees(fold, t, rk);
  }

  lemma DeletedConsistent(fold: Folding, v: Vol, d: Desc, v': Vol)
    requires Consistent(fold, v.tree)
    requires Describes(fold, v.tree, d) && d.cnid != ROOT && EmptyFolder(fold, v.tree, d.cnid)
    requires Deleted(fold, v, KeyOf(fold, d.parent, d.name), d.cnid, v')
    ensures Consistent(fold, v'.tree)
  {
    var t, u, rk := v.tree, v'.tree, KeyOf(fold, d.parent, d.name);
    assert NodeAgrees(fold, t, rk);
    assert Dropped(t, u, rk, ThreadKey(fold, d.cnid));
    forall k | k in u && u[k].rec.Node?
      ensures NodeAgrees(fold, u, k) && (u[k].rec.id != ROOT ==> IsFolder(fold, u, k.parent))
    {
      DroppedNode(fold, t, u, rk, d.cnid, k);
    }
    forall k | k in u && u[k].rec.Thread? ensures ThreadAgrees(fold, u, k) {
      DroppedThread(fold, t, u, rk, d.cnid, k);
    }
  }

  lemma DeletedThreads(fold: Folding, v: Vol, d: Desc, v': Vol)
    requires Consistent(fold, v.tree) && Describes(fold, v.tree, d)
    requires Deleted(fold, v, KeyOf(fold, d.parent, d.name), d.cnid, v')
    ensures SameThreadsExcept(fold, v.tree, v'.tree, d.cnid)
    ensures forall c: Cnid | IsFolder(fold, v'.tree, c) :: IsFolder(fold, v.tree, c) && c != d.cnid
  {
    var t, u, rk := v.tree, v'.tree, KeyOf(fold, d.parent, d.name);
    assert rk.folded != fold([]) by {
      assert NodeAgrees(fold, t, rk);
    }
    forall c: Cnid | c != d.cnid && IsFolder(fold, t, c)
      ensures IsFolder(fold, u, c) && u[ThreadKey(fold, c)].rec.parent == t[ThreadKey(fold, c)].rec.parent
    {
      assert ThreadKey(fold, c) in u;
    }
    forall c: Cnid | IsFolder(fold, u, c) ensures IsFolder(fold, t, c) && c != d.cnid {
      assert u[ThreadKey(fold, c)] == t[ThreadKey(fold, c)];
    }
  }

  lemma DeletedRooted(fold: Folding, v: Vol, d: Desc, v': Vol)
    requires ValidVol(fold, v)
    requires Describes(fold, v.tree, d) && d.cnid != ROOT && EmptyFolder(fold, v.tree, d.cnid)
    requires Deleted(fold, v, KeyOf(fold, d.parent, d.name), d.cnid, v')
    ensures AllRooted(fold, v'.tree)
  {
    DeletedThreads(fold, v, d, v');
    forall c: Cnid | IsFolder(fold, v'.tree, c) ensures Rooted(fold, v'.tree, c) {
      var n := DepthOf(fold, v.tree, c);
      EmptyAvoided(fold, v.tree, c, n, d.cnid);
      AvoidingPathSurvives(fold, v.tree, v'.tree, c, n, d.cnid);
    }
  }

  lemma {:induction false} EmptyAvoided(fold: Folding, t: Tree, c: Cnid, n: nat, x: Cnid)
    requires Consistent(fold, t) && AtDepth(fold, t, c, n) && c != x && x != ROOT && EmptyFolder(fold, t, x)
    ensures Avoids(fold, t, c, n, x)
    decreases n
  {
    if n > 0 {
      var r := t[ThreadKey(fold, c)].rec;
      assert ThreadAgrees(fold, t, ThreadKey(fold, c));
      assert NodeAgrees(fold, t, KeyOf(fold, r.parent, r.name));
      EmptyAvoided(fold, t, r.parent, n - 1, x);
    }
  }

  lemma DeletedStaysValid(fold: Folding, v: Vol, d: Desc, v': Vol)
    requires ValidVol(fold, v)
    requires Describes(fold, v.tree, d) && d.cnid != ROOT && EmptyFolder(fold, v.tree, d.cnid)
    requires Deleted(fold, v, KeyOf(fold, d.parent, d.name), d.cnid, v')
    ensures ValidVol(fold, v')
  {
    DeletedConsistent(fold, v, d, v');
    DeletedRooted(fold, v, d, v');
  }

  /** A node below the folder of a deleted record is left without a parent. */
  lemma OrphanLeft(fold: Folding, v: Vol, d: Desc, v': Vol, k: Key)
    requires ValidVol(fold, v) && Describes(fold, v.tree, d) && d.cnid != ROOT
    requires Deleted(fold, v, KeyOf(fold, d.parent, d.name), d.cnid, v')
    requires k in v.tree && k.parent == d.cnid && k != ThreadKey(fold, d.cnid)
    ensures !Consistent(fold, v'.tree)
  {
    var t, u, rk := v.tree, v'.tree, KeyOf(fold, d.parent, d.name);
    assert NodeAgrees(fold, t, rk);
    assert t[k].rec.Thread? ==> ThreadAgrees(fold, t, k);
    ParentIsFolder(fold, t, k);
    if k == rk {
      var n := DepthOf(fold, t, d.cnid);
      DepthUnique(fold, t, d.cnid, n, n - 1);
    } else if Consistent(fold, u) {
      ParentIsFolder(fold, u, k);
    }
  }

  /** Deleting a record and its thread leaves a valid volume if and only if nothing was left in the folder. */
  lemma DeletedValidIff(fold: Folding, v: Vol, d: Desc, v': Vol)
    requires ValidVol(fold, v) && Describes(fold, v.tree, d) && d.cnid != ROOT
    requires Deleted(fold, v, KeyOf(fold, d.parent, d.name), d.cnid, v')
    ensures ValidVol(fold, v') <==> EmptyFolder(fold, v.tree, d.cnid)
  {
    if EmptyFolder(fold, v.tree, d.cnid) {
      DeletedStaysValid(fold, v, d, v');
    } else {
      var k :| k in v.tree && k.parent == d.cnid && k != ThreadKey(fold, d.cnid);
      OrphanLeft(fold, v, d, v', k);
    }
  }
}
