/** Calls of the catalog transactions, in any order, make up a run: what holds of runs holds of the volume. */
module CatalogSession {
  import opened Bytes
  import opened CatalogModel
  import opened CatalogSpec
  import opened CatalogProofs
  import opened Catalog
  import opened CatalogRuns
  import opened CatalogLookup

  lemma RunGrows(fold: Folding, vs: seq<Vol>, steps: seq<Step>, s: Step, v: Vol)
    requires IsRun(fold, vs, steps) && Next(fold, vs[|steps|], s, v)
    ensures IsRun(fold, vs + [v], steps + [s])
  {
    var ws, ss := vs + [v], steps + [s];
    forall i | 0 <= i < |ss| ensures NextAt(fold, ws, ss, i) {
      assert i < |steps| ==> NextAt(fold, vs, steps, i);
    }
  }

  class Session {
    const volume: Volume
    /** The volumes so far, and the steps between them. */
    ghost var states: seq<Vol>
    ghost var steps: seq<Step>

    ghost predicate Valid()
      reads this, volume
    {
      && IsRun(volume.fold, states, steps)
      && ValidVol(volume.fold, states[0])
      && states[|steps|] == volume.State()
    }

    constructor (volume: Volume)
      requires volume.Valid()
      ensures Valid() && this.volume == volume && steps == []
    {
      this.volume := volume;
      states, steps := [volume.State()], [];
    }

    lemma VolumeValid()
      requires Valid()
      ensures volume.Valid()
    {
      RunStaysValid(volume.fold, states, steps, |steps|);
    }

    /** Whatever was called before, both ways of looking a node up agree. */
    lemma LookupsAgreeNow(links: Links, k: Key)
      requires Valid() && k in volume.tree && volume.tree[k].rec.Node?
      ensures LookupById(volume.fold, volume.tree, links, volume.tree[k].rec.id) ==
              LookupByKey(volume.fold, volume.tree, links, k)
    {
      ReachableLookupsAgree(volume.fold, states, steps, |steps|, links, k);
    }

    /** While the ids-reused bit is clear, no id that a call of Create returned is returned by a later one. */
    lemma IdsDiffer(i: nat, j: nat)
      requires Valid() && i < j < |steps| && steps[i].Create? && steps[j].Create? && !volume.reused
      ensures FIRST_USER <= steps[i].id < steps[j].id
    {
      NextGrows(volume.fold, states, steps, j + 1, |steps|);
      IdsIncrease(volume.fold, states, steps, i, j);
    }

    /** One more step. */
    ghost method Record(s: Step)
      requires IsRun(volume.fold, states, steps) && ValidVol(volume.fold, states[0])
      requires Next(volume.fold, states[|steps|], s, volume.State())
      modifies this
      ensures Valid() && steps == old(steps) + [s]
    {
      RunGrows(volume.fold, states, steps, s, volume.State());
      states, steps := states + [volume.State()], steps + [s];
    }

    method Create(d: Desc, isDir: bool, info: Info, io: CreateFaults) returns (err: Err, id: Cnid)
      requires Valid() && HasFreeId(volume.fold, volume.tree)
      requires IsFolder(volume.fold, volume.tree, d.parent) && !io.backOut
      modifies this, volume
      ensures Valid()
      ensures steps == old(steps) + [if err == NoErr then Step.Create(d, isDir, info, id) else Fail]
    {
      VolumeValid();
      err, id := volume.Create(d, isDir, info, io);
      Record(if err == NoErr then Step.Create(d, isDir, info, id) else Fail);
    }

    method Delete(d: Desc, fileid: Cnid, io: DeleteFaults) returns (err: Err)
      requires Valid()
      requires d.name != [] && KeyOf(volume.fold, d.parent, d.name) in volume.tree ==>
                 Describes(volume.fold, volume.tree, d)
      requires d.name == [] ==> fileid != ROOT
      requires EmptyFolder(volume.fold, volume.tree, if d.name == [] then fileid else d.cnid) && !io.backThread
      modifies this, volume
      ensures Valid() && |steps| == |old(steps)| + 1 && old(steps) <= steps
      ensures if err == NoErr then steps[|steps| - 1].Delete? else steps[|steps| - 1] == Fail
    {
      VolumeValid();
      ghost var before := volume.tree;
      ghost var home;
      err, home := volume.Delete(d, fileid, io);
      if err == NoErr {
        ghost var e := before[home];
        assert NodeAgrees(volume.fold, before, home);
        Record(Step.Delete(Desc(home.parent, e.name, NoErr, e.rec.id, e.rec.isDir)));
      } else {
        Record(Fail);
      }
    }

    /** Faults behind the point of no return and of the undo are left to RenamedLate and to the panic. */
    method Rename(from: Desc, todir: Desc, to: Desc, encoding: UInt32, io: RenameFaults) returns (err: Err)
      requires Valid() && !io.undo && !io.threadRemove && !io.threadInsert
      requires KeyOf(volume.fold, from.parent, from.name) in volume.tree ==> Describes(volume.fold, volume.tree, from)
      requires from.cnid != ROOT_PARENT && !BlanksRoot(volume.fold, from, to)
      requires IsFolder(volume.fold, volume.tree, to.parent) || to.parent == from.parent
      requires from.isDir && from.parent != to.parent ==>
                 todir.parent == volume.tree[ThreadKey(volume.fold, to.parent)].rec.parent
      modifies this, volume
      ensures Valid() && |steps| == |old(steps)| + 1 && old(steps) <= steps
      ensures var s, k := steps[|steps| - 1], KeyOf(volume.fold, from.parent, from.name);
              s == Fail || s == Rehint(k, encoding) ||
              (&& Describes(volume.fold, old(volume.tree), from)
               && s == Step.Rename(from, to, StoredHint(volume.fold, old(volume.tree), from, to, encoding, io)))
    {
      VolumeValid();
      ghost var before := volume.State();
      ghost var checked;
      err, checked := volume.Rename(from, todir, to, encoding, io);
      if checked && Moves(volume.fold, before.tree, from, to, io) {
        Record(Step.Rename(from, to, StoredHint(volume.fold, before.tree, from, to, encoding, io)));
      } else if volume.tree == before.tree {
        Record(Fail);
      } else {
        Record(Rehint(KeyOf(volume.fold, from.parent, from.name), encoding));
      }
    }
  }
}
