/**
 * The HFS Plus catalog as a map: name keys lead to file and folder records, thread keys lead back
 * from a catalog node id to its (parent, name).  Keys are compared through a case-folding function,
 * which is a parameter everywhere: nothing is assumed of it.
 */
module CatalogModel {
  import opened Bytes

  type Cnid = UInt32
  type Name = seq<UInt16>
  type Folding = Name -> Name

  const ROOT_PARENT: Cnid := 1
  const ROOT: Cnid := 2
  const FIRST_USER: Cnid := 16

  /** What a record holds besides its kind and id; `isLink` marks a hard link to inode `linkRef`. */
  datatype Info = Info(encoding: UInt32, isLink: bool, linkRef: UInt32, linkCount: UInt32, rest: seq<Byte>)

  datatype Record =
    | Node(isDir: bool, id: Cnid, info: Info)
    | Thread(isDir: bool, parent: Cnid, name: Name)

  datatype Key = Key(parent: Cnid, folded: Name)

  /** A record under its key as spelled on disk. */
  datatype Entry = Entry(name: Name, rec: Record)

  type Tree = map<Key, Entry>

  function KeyOf(fold: Folding, parent: Cnid, name: Name): Key {
    Key(parent, fold(name))
  }

  function ThreadKey(fold: Folding, id: Cnid): Key {
    Key(id, fold([]))
  }

  ghost predicate NodeAgrees(fold: Folding, tree: Tree, k: Key)
    requires k in tree && tree[k].rec.Node?
  {
    var e := tree[k];
    && k.folded == fold(e.name)
    && k.folded != fold([])
    && ThreadKey(fold, e.rec.id) in tree
    && tree[ThreadKey(fold, e.rec.id)].rec == Thread(e.rec.isDir, k.parent, e.name)
  }

  ghost predicate ThreadAgrees(fold: Folding, tree: Tree, k: Key)
    requires k in tree && tree[k].rec.Thread?
  {
    var t := tree[k].rec;
    var home := KeyOf(fold, t.parent, t.name);
    && k.folded == fold([])
    && home in tree
    && tree[home].name == t.name
    && tree[home].rec.Node?
    && tree[home].rec.id == k.parent
    && tree[home].rec.isDir == t.isDir
  }

  ghost predicate IsFolder(fold: Folding, tree: Tree, id: Cnid) {
    var k := ThreadKey(fold, id);
    k in tree && tree[k].rec.Thread? && tree[k].rec.isDir
  }

  /** Threads and file/folder records are in one-to-one correspondence, and every parent exists. */
  ghost predicate Consistent(fold: Folding, tree: Tree) {
    && (forall k {:trigger NodeAgrees(fold, tree, k)} | k in tree && tree[k].rec.Node? :: NodeAgrees(fold, tree, k))
    && (forall k {:trigger ThreadAgrees(fold, tree, k)} | k in tree && tree[k].rec.Thread? ::
          ThreadAgrees(fold, tree, k))
    && IsFolder(fold, tree, ROOT)
    && tree[ThreadKey(fold, ROOT)].rec.parent == ROOT_PARENT
    && (forall k {:trigger IsFolder(fold, tree, k.parent)} | k in tree && tree[k].rec.Node? && tree[k].rec.id != ROOT ::
          IsFolder(fold, tree, k.parent))
    && ThreadKey(fold, 0) !in tree && ThreadKey(fold, ROOT_PARENT) !in tree
  }

  /** Thread keys hold threads. */
  lemma ThreadAt(fold: Folding, tree: Tree, id: Cnid)
    requires Consistent(fold, tree) && ThreadKey(fold, id) in tree
    ensures tree[ThreadKey(fold, id)].rec.Thread? && ThreadAgrees(fold, tree, ThreadKey(fold, id))
  {
    var k := ThreadKey(fold, id);
    assert tree[k].rec.Node? ==> NodeAgrees(fold, tree, k);
  }

  lemma ParentIsFolder(fold: Folding, tree: Tree, k: Key)
    requires Consistent(fold, tree) && k in tree && tree[k].rec.Node?
    ensures tree[k].rec.id != ROOT ==> IsFolder(fold, tree, k.parent)
    ensures tree[k].rec.id == ROOT ==> k.parent == ROOT_PARENT
  {
    assert NodeAgrees(fold, tree, k);
  }

  /** No two records share an id. */
  lemma UniqueHome(fold: Folding, tree: Tree, a: Key, b: Key)
    requires Consistent(fold, tree)
    requires a in tree && tree[a].rec.Node? && b in tree && tree[b].rec.Node?
    requires tree[a].rec.id == tree[b].rec.id
    ensures a == b
  {
    assert NodeAgrees(fold, tree, a) && NodeAgrees(fold, tree, b);
  }

  // The way up.

  /** The root is `n` steps up from folder `c`. */
  ghost predicate AtDepth(fold: Folding, tree: Tree, c: Cnid, n: nat)
    decreases n
  {
    if n == 0 then c == ROOT
    else
      && c != ROOT
      && IsFolder(fold, tree, c)
      && AtDepth(fold, tree, tree[ThreadKey(fold, c)].rec.parent, n - 1)
  }

  ghost predicate Rooted(fold: Folding, tree: Tree, c: Cnid) {
    exists n: nat :: AtDepth(fold, tree, c, n)
  }

  /** Every folder reaches the root: the folders form a tree. */
  ghost predicate AllRooted(fold: Folding, tree: Tree) {
    forall c: Cnid {:trigger Rooted(fold, tree, c)} | IsFolder(fold, tree, c) :: Rooted(fold, tree, c)
  }

  lemma DepthOf(fold: Folding, tree: Tree, c: Cnid) returns (n: nat)
    requires AllRooted(fold, tree) && IsFolder(fold, tree, c)
    ensures AtDepth(fold, tree, c, n)
  {
    assert Rooted(fold, tree, c);
    n :| AtDepth(fold, tree, c, n);
  }

  /** Folder `x` is not on the way up from `c`. */
  ghost predicate Avoids(fold: Folding, tree: Tree, c: Cnid, n: nat, x: Cnid)
    requires AtDepth(fold, tree, c, n)
    decreases n
  {
    c != x && (n > 0 ==> Avoids(fold, tree, tree[ThreadKey(fold, c)].rec.parent, n - 1, x))
  }

  ghost predicate SameThreadsExcept(fold: Folding, t: Tree, u: Tree, x: Cnid) {
    forall c: Cnid | c != x && IsFolder(fold, t, c) ::
      IsFolder(fold, u, c) && u[ThreadKey(fold, c)].rec.parent == t[ThreadKey(fold, c)].rec.parent
  }

  lemma {:induction false} AvoidingPathSurvives(fold: Folding, t: Tree, u: Tree, c: Cnid, n: nat, x: Cnid)
    requires AtDepth(fold, t, c, n) && Avoids(fold, t, c, n, x)
    requires SameThreadsExcept(fold, t, u, x)
    ensures AtDepth(fold, u, c, n)
    decreases n
  {
    if n > 0 {
      AvoidingPathSurvives(fold, t, u, t[ThreadKey(fold, c)].rec.parent, n - 1, x);
    }
  }

  /** Re-hanging folder `x` below a rooted folder keeps everything rooted. */
  lemma {:induction false} RehungPath(fold: Folding, t: Tree, u: Tree, c: Cnid, n: nat, x: Cnid, m: nat)
    requires AtDepth(fold, t, c, n)
    requires SameThreadsExcept(fold, t, u, x)
    requires AtDepth(fold, u, x, m)
    ensures Rooted(fold, u, c)
    decreases n
  {
    if c == x {
    } else if n == 0 {
      assert AtDepth(fold, u, c, 0);
    } else {
      var p := t[ThreadKey(fold, c)].rec.parent;
      RehungPath(fold, t, u, p, n - 1, x, m);
      var k: nat :| AtDepth(fold, u, p, k);
      assert AtDepth(fold, u, c, k + 1);
    }
  }

  lemma {:induction false} DepthUnique(fold: Folding, t: Tree, c: Cnid, m: nat, n: nat)
    requires AtDepth(fold, t, c, m) && AtDepth(fold, t, c, n)
    ensures m == n
    decreases n
  {
    if m > 0 && n > 0 {
      DepthUnique(fold, t, t[ThreadKey(fold, c)].rec.parent, m - 1, n - 1);
    }
  }
}
