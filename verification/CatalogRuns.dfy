/** Whole runs of catalog transactions: what holds in every reachable catalog. */
module CatalogRuns {
  import opened Bytes
  import opened CatalogModel
  import opened CatalogSpec
  import opened CatalogProofs

  datatype Step =
    | Create(d: Desc, isDir: bool, info: Info, id: Cnid)
    | Rename(from: Desc, to: Desc, hint: UInt32)
    | Delete(d: Desc)
    | Rehint(k: Key, encoding: UInt32)
    | Fail

  /** One transaction that completed, on descriptors that agree with the catalog, or what a failed one leaves. */
  ghost predicate Next(fold: Folding, v: Vol, s: Step, v': Vol) {
    match s
    case Create(d, isDir, info, id) =>
      IsFolder(fold, v.tree, d.parent) && Created(fold, v, d, isDir, info, v', id)
    case Rename(from, to, hint) =>
      RenameAgrees(fold, v, from, to) && !BlanksRoot(fold, from, to) && Renamed(fold, v, from, to, hint, v')
    case Delete(d) =>
      && Describes(fold, v.tree, d) && d.cnid != ROOT && EmptyFolder(fold, v.tree, d.cnid)
      && Deleted(fold, v, KeyOf(fold, d.parent, d.name), d.cnid, v')
    case Rehint(k, encoding) =>
      Rehinted(v, k, encoding, v')
    case Fail =>
      Unchanged(v, v')
  }

  ghost predicate NextAt(fold: Folding, vs: seq<Vol>, steps: seq<Step>, i: int)
    requires 0 <= i < |steps| < |vs|
  {
    Next(fold, vs[i], steps[i], vs[i + 1])
  }

  ghost predicate IsRun(fold: Folding, vs: seq<Vol>, steps: seq<Step>) {
    |vs| == |steps| + 1 && forall i | 0 <= i < |steps| :: NextAt(fold, vs, steps, i)
  }

  /** A volume with nothing but its root folder. */
  function FreshVolume(fold: Folding, name: Name, info: Info): Vol {
    Vol(map[ThreadKey(fold, ROOT) := Entry([], Thread(true, ROOT_PARENT, name)),
            KeyOf(fold, ROOT_PARENT, name) := Entry(name, Node(true, ROOT, info))],
        FIRST_USER, false)
  }

  /** Runs have somewhere to start, whatever the volume is called. */
  lemma FreshVolumeValid(fold: Folding, name: Name, info: Info)
    requires fold(name) != fold([])
    ensures ValidVol(fold, FreshVolume(fold, name, info))
  {
    var tree := FreshVolume(fold, name, info).tree;
    forall c: Cnid | IsFolder(fold, tree, c) ensures Rooted(fold, tree, c) {
      assert AtDepth(fold, tree, ROOT, 0);
      assert c == ROOT;
    }
  }

  lemma NextStaysValid(fold: Folding, v: Vol, s: Step, v': Vol)
    requires ValidVol(fold, v) && Next(fold, v, s, v')
    ensures ValidVol(fold, v')
  {
    match s {
      case Create(d, isDir, info, id) => CreatedStaysValid(fold, v, d, isDir, info, v', id);
      case Rename(from, to, hint) => RenameValidIff(fold, v, from, to, hint, v');
      case Delete(d) => DeletedStaysValid(fold, v, d, v');
      case Rehint(k, encoding) => RehintedStaysValid(fold, v, k, encoding, v');
      case Fail =>
    }
  }

  lemma StepStaysValid(fold: Folding, vs: seq<Vol>, steps: seq<Step>, i: nat)
    requires IsRun(fold, vs, steps) && i < |steps| && ValidVol(fold, vs[i])
    ensures ValidVol(fold, vs[i + 1])
  {
    assert NextAt(fold, vs, steps, i);
    NextStaysValid(fold, vs[i], steps[i], vs[i + 1]);
  }

  /** Threads and records correspond, and the folders form a tree, in every reachable catalog. */
  lemma {:induction false} RunStaysValid(fold: Folding, vs: seq<Vol>, steps: seq<Step>, i: nat)
    requires IsRun(fold, vs, steps) && ValidVol(fold, vs[0]) && i < |vs|
    ensures ValidVol(fold, vs[i])
  {
    if i > 0 {
      RunStaysValid(fold, vs, steps, i - 1);
      StepStaysValid(fold, vs, steps, i - 1);
    }
  }

  lemma NextIds(fold: Folding, v: Vol, s: Step, v': Vol)
    requires Next(fold, v, s, v') && FIRST_USER <= v.next
    ensures v.reused ==> v'.reused
    ensures !v'.reused ==> v.next <= v'.next
    ensures s.Create? ==> FIRST_USER <= s.id && !Taken(fold, v.tree, s.id)
    ensures s.Create? && !v'.reused ==> v.next <= s.id < v'.next
  {
  }

  lemma StepIds(fold: Folding, vs: seq<Vol>, steps: seq<Step>, i: nat)
    requires IsRun(fold, vs, steps) && ValidVol(fold, vs[0]) && i < |steps|
    ensures vs[i].reused ==> vs[i + 1].reused
    ensures !vs[i + 1].reused ==> vs[i].next <= vs[i + 1].next
    ensures steps[i].Create? ==> FIRST_USER <= steps[i].id && !Taken(fold, vs[i].tree, steps[i].id)
    ensures steps[i].Create? && !vs[i + 1].reused ==> vs[i].next <= steps[i].id < vs[i + 1].next
  {
    RunStaysValid(fold, vs, steps, i);
    assert NextAt(fold, vs, steps, i);
    NextIds(fold, vs[i], steps[i], vs[i + 1]);
  }

  lemma {:induction false} NextGrows(fold: Folding, vs: seq<Vol>, steps: seq<Step>, i: nat, j: nat)
    requires IsRun(fold, vs, steps) && ValidVol(fold, vs[0]) && i <= j < |vs| && !vs[j].reused
    ensures !vs[i].reused && vs[i].next <= vs[j].next
    decreases j
  {
    if i < j {
      StepIds(fold, vs, steps, j - 1);
      NextGrows(fold, vs, steps, i, j - 1);
    }
  }

  /** While the ids-reused bit is clear, later creates hand out larger ids, whatever was deleted. */
  lemma IdsIncrease(fold: Folding, vs: seq<Vol>, steps: seq<Step>, i: nat, j: nat)
    requires IsRun(fold, vs, steps) && ValidVol(fold, vs[0])
    requires i < j < |steps| && steps[i].Create? && steps[j].Create? && !vs[j + 1].reused
    ensures FIRST_USER <= steps[i].id < steps[j].id
  {
    StepIds(fold, vs, steps, j);
    NextGrows(fold, vs, steps, i + 1, j);
    StepIds(fold, vs, steps, i);
  }

  /** The id the search loop of cat_create tries after `n` ids were found in use. */
  function Probe(start: Cnid, n: nat): Cnid {
    if n == 0 then start else NextId(Probe(start, n - 1))
  }

  /** Without a free user id the search loop meets a thread at every turn, for ever. */
  lemma {:induction false} NoFreeIdNeverStops(fold: Folding, tree: Tree, start: Cnid, n: nat)
    requires FIRST_USER <= start && !HasFreeId(fold, tree)
    ensures FIRST_USER <= Probe(start, n) && Taken(fold, tree, Probe(start, n))
  {
    if n > 0 {
      NoFreeIdNeverStops(fold, tree, start, n - 1);
    }
  }
}
