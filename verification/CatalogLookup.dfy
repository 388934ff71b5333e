/** Looking nodes up, by key and by id, hard links resolved. */
module CatalogLookup {
  import opened Bytes
  import opened CatalogModel
  import opened CatalogSpec
  import opened CatalogRuns

  /** Where the inodes behind hard links live: a private folder, and the name of inode `n` in it. */
  datatype Links = Links(privateDir: Cnid, inodeName: UInt32 -> Name)

  /** Descriptor (parent, spelled name, id, kind) and record of a node; `rdev` is its link reference. */
  datatype Lookup =
    | Missing
    | Damaged
    | Found(parent: Cnid, name: Name, cnid: Cnid, isDir: bool, rec: Record, rdev: UInt32)

  /** resolvelink: the inode record, with at least one reference counted; the link itself if it is gone. */
  function ResolveLink(fold: Folding, tree: Tree, links: Links, rec: Record): (r: Record)
    requires rec.Node?
    ensures r.Node?
  {
    var k := KeyOf(fold, links.privateDir, links.inodeName(rec.info.linkRef));
    if k in tree && tree[k].rec.Node? then
      var inode := tree[k].rec;
      if inode.info.linkCount == 0 then inode.(info := inode.info.(linkCount := 2)) else inode
    else rec
  }

  /** cat_lookupbykey */
  function LookupByKey(fold: Folding, tree: Tree, links: Links, k: Key): (r: Lookup) {
    if k !in tree then Missing
    else
      var e := tree[k];
      if e.rec.Thread? then Damaged
      else if !e.rec.isDir && e.rec.info.isLink then
        var rec := ResolveLink(fold, tree, links, e.rec);
        Found(k.parent, e.name, e.rec.id, rec.isDir, rec, e.rec.info.linkRef)
      else Found(k.parent, e.name, e.rec.id, e.rec.isDir, e.rec, 0)
  }

  /** cat_idlookup: through the thread. */
  function LookupById(fold: Folding, tree: Tree, links: Links, id: Cnid): (r: Lookup) {
    var k := ThreadKey(fold, id);
    if k !in tree then Missing
    else match tree[k].rec
      case Thread(_, parent, name) => LookupByKey(fold, tree, links, KeyOf(fold, parent, name))
      case Node(_, _, _) => Missing
  }

  /** Both ways of looking a node up give the same answer, and it is about that node. */
  lemma LookupsAgree(fold: Folding, tree: Tree, links: Links, k: Key)
    requires Consistent(fold, tree) && k in tree && tree[k].rec.Node?
    ensures var r := LookupById(fold, tree, links, tree[k].rec.id);
            && r == LookupByKey(fold, tree, links, k)
            && r.Found? && r.cnid == tree[k].rec.id && r.parent == k.parent
            && r.name == tree[k].name && fold(r.name) == k.folded
            && r.isDir == r.rec.isDir
            && (tree[k].rec.isDir || !tree[k].rec.info.isLink ==> r.rec == tree[k].rec && r.rdev == 0)
  {
    assert NodeAgrees(fold, tree, k);
  }

  /**
   * A hard link is looked up under its own id, with what its inode in the private folder holds and at least
   * one reference; without an inode it stands for itself.  Its reference is shown either way.
   */
  lemma LinksResolved(fold: Folding, tree: Tree, links: Links, k: Key)
    requires Consistent(fold, tree) && k in tree && tree[k].rec.Node?
    requires !tree[k].rec.isDir && tree[k].rec.info.isLink
    ensures var link := tree[k].rec;
            var inode := KeyOf(fold, links.privateDir, links.inodeName(link.info.linkRef));
            var r := LookupById(fold, tree, links, link.id);
            && r.Found? && r.cnid == link.id && r.rdev == link.info.linkRef
            && (inode in tree && tree[inode].rec.Node? ==>
                  var found := tree[inode].rec;
                  && r.isDir == found.isDir && r.rec.Node? && r.rec.isDir == found.isDir && r.rec.id == found.id
                  && r.rec.info.linkCount == (if found.info.linkCount == 0 then 2 else found.info.linkCount)
                  && r.rec.info.(linkCount := found.info.linkCount) == found.info)
            && (inode !in tree || tree[inode].rec.Thread? ==> r.rec == link && r.isDir == false)
  {
    assert NodeAgrees(fold, tree, k);
  }

  /** Two links to one inode are different nodes with the same contents. */
  lemma LinksShare(fold: Folding, tree: Tree, links: Links, j: Key, k: Key)
    requires Consistent(fold, tree) && j in tree && tree[j].rec.Node? && k in tree && tree[k].rec.Node? && j != k
    requires !tree[j].rec.isDir && tree[j].rec.info.isLink && !tree[k].rec.isDir && tree[k].rec.info.isLink
    requires tree[j].rec.info.linkRef == tree[k].rec.info.linkRef
    requires var inode := KeyOf(fold, links.privateDir, links.inodeName(tree[k].rec.info.linkRef));
             inode in tree && tree[inode].rec.Node?
    ensures var a, b := LookupById(fold, tree, links, tree[j].rec.id), LookupById(fold, tree, links, tree[k].rec.id);
            a.Found? && b.Found? && a.rec == b.rec && a.rdev == b.rdev && a.cnid != b.cnid
  {
    LinksResolved(fold, tree, links, j);
    LinksResolved(fold, tree, links, k);
    if tree[j].rec.id == tree[k].rec.id {
      UniqueHome(fold, tree, j, k);
    }
  }

  /** An id without a node is reported missing, and no other. */
  lemma MissingExactly(fold: Folding, tree: Tree, links: Links, id: Cnid)
    requires Consistent(fold, tree)
    ensures LookupById(fold, tree, links, id) == Missing <==>
            forall k | k in tree && tree[k].rec.Node? :: tree[k].rec.id != id
    ensures LookupById(fold, tree, links, id) != Damaged
  {
    var t := ThreadKey(fold, id);
    if t in tree {
      ThreadAt(fold, tree, id);
    } else {
      forall k | k in tree && tree[k].rec.Node? ensures tree[k].rec.id != id {
        assert NodeAgrees(fold, tree, k);
      }
    }
  }

  lemma ReachableLookupsAgree(fold: Folding, vs: seq<Vol>, steps: seq<Step>, i: nat, links: Links, k: Key)
    requires IsRun(fold, vs, steps) && ValidVol(fold, vs[0]) && i < |vs|
    requires k in vs[i].tree && vs[i].tree[k].rec.Node?
    ensures LookupById(fold, vs[i].tree, links, vs[i].tree[k].rec.id) == LookupByKey(fold, vs[i].tree, links, k)
    ensures LookupByKey(fold, vs[i].tree, links, k).Found?
  {
    RunStaysValid(fold, vs, steps, i);
    LookupsAgree(fold, vs[i].tree, links, k);
  }
}
