/** Inputs on which the catalog transactions do not do what one would expect of them. */
module CatalogFailures {
  import opened CatalogModel
  import opened CatalogSpec
  import opened CatalogProofs
  import opened Catalog
  import opened CatalogRuns

  /** Names compared as they are. */
  function AsIs(n: Name): Name {
    n
  }

  const PLAIN := Info(0, false, 0, 1, [])
  const VOLUME_NAME: Name := [0x76]
  const FILE_A := Desc(ROOT, [0x61], NoErr, 16, false)
  const FILE_B := Desc(ROOT, [0x62], NoErr, 17, false)

  /** A volume with two files in its root folder. */
  function TwoFiles(): Vol {
    var one := WithNode(AsIs, FreshVolume(AsIs, VOLUME_NAME, PLAIN).tree, FILE_A, false, 16, PLAIN);
    Vol(WithNode(AsIs, one, FILE_B, false, 17, PLAIN), 18, false)
  }

  lemma TwoFilesValid()
    ensures ValidVol(AsIs, TwoFiles())
    ensures Describes(AsIs, TwoFiles().tree, FILE_A) && Describes(AsIs, TwoFiles().tree, FILE_B)
    ensures TwoFiles().tree[KeyOf(AsIs, ROOT, [0x61])].rec.info == PLAIN
  {
    var v0 := FreshVolume(AsIs, VOLUME_NAME, PLAIN);
    FreshVolumeValid(AsIs, VOLUME_NAME, PLAIN);
    var v1 := Vol(WithNode(AsIs, v0.tree, FILE_A, false, 16, PLAIN), 17, false);
    assert Created(AsIs, v0, FILE_A, false, PLAIN, v1, 16);
    CreatedStaysValid(AsIs, v0, FILE_A, false, PLAIN, v1, 16);
    var v2 := TwoFiles();
    assert Created(AsIs, v1, FILE_B, false, PLAIN, v2, 17);
    CreatedStaysValid(AsIs, v1, FILE_B, false, PLAIN, v2, 17);
  }

  /** Renaming one file to the name of the other is a clash that no error comes of. */
  lemma ClashHappens()
    ensures SilentClash(AsIs, TwoFiles().tree, FILE_A, FILE_B, NO_FAULTS) && Checks(FILE_A, FILE_B, NO_FAULTS)
    ensures forall hint :: !Renamed(AsIs, TwoFiles(), FILE_A, FILE_B, hint, TwoFiles())
  {
    TwoFilesValid();
  }

  /** The rename reports success, and nothing was renamed. */
  method RenameOntoOther() returns (err: Err, after: Tree)
    ensures err == NoErr && after == TwoFiles().tree
    ensures forall hint :: !Renamed(AsIs, TwoFiles(), FILE_A, FILE_B, hint, TwoFiles().(tree := after))
  {
    TwoFilesValid();
    ClashHappens();
    var volume := new Volume(AsIs, TwoFiles().tree, 18, false);
    ghost var checked;
    err, checked := volume.Rename(FILE_A, FILE_A, FILE_B, 0, NO_FAULTS);
    after := volume.tree;
  }

  /** If the second search of that rename fails, and the new name has another encoding. */
  lemma HintHappens()
    ensures var io := NO_FAULTS.(again := true);
            && LeavesHint(AsIs, TwoFiles().tree, FILE_A, FILE_B, io) && Checks(FILE_A, FILE_B, io)
            && Restored(AsIs, TwoFiles().tree, FILE_A, FILE_B, 1, io) != TwoFiles().tree
  {
    TwoFilesValid();
    RestoredIff(AsIs, TwoFiles().tree, FILE_A, FILE_B, 1, NO_FAULTS.(again := true));
  }

  /** The rename fails, and the file it did not rename has another encoding hint. */
  method RenameLeavesHint() returns (err: Err, after: Tree)
    ensures err != NoErr && err != Panic && after != TwoFiles().tree
    ensures var k := KeyOf(AsIs, ROOT, [0x61]);
            k in after && after[k].rec == Node(false, 16, PLAIN.(encoding := 1))
  {
    TwoFilesValid();
    HintHappens();
    var volume := new Volume(AsIs, TwoFiles().tree, 18, false);
    ghost var checked;
    err, checked := volume.Rename(FILE_A, FILE_A, FILE_B, 1, NO_FAULTS.(again := true));
    after := volume.tree;
  }

  /** Key comparison skips some characters; here, the zero width joiner. */
  function SkipJoiner(n: Name): Name {
    if n == [0x200D] then [] else n
  }

  /** Giving the volume a name that is all skipped characters. */
  lemma BlankedRootHappens()
    ensures var from := Desc(ROOT_PARENT, VOLUME_NAME, NoErr, ROOT, true);
            var to := from.(name := [0x200D]);
            && ValidVol(SkipJoiner, FreshVolume(SkipJoiner, VOLUME_NAME, PLAIN))
            && RenameAgrees(SkipJoiner, FreshVolume(SkipJoiner, VOLUME_NAME, PLAIN), from, to)
            && Moves(SkipJoiner, FreshVolume(SkipJoiner, VOLUME_NAME, PLAIN).tree, from, to, NO_FAULTS)
            && BlanksRoot(SkipJoiner, from, to)
  {
    FreshVolumeValid(SkipJoiner, VOLUME_NAME, PLAIN);
  }

  /** The rename succeeds, and the catalog is no longer consistent. */
  method BlankRoot() returns (err: Err, ghost after: Vol)
    ensures err == NoErr && !ValidVol(SkipJoiner, after)
    ensures var from := Desc(ROOT_PARENT, VOLUME_NAME, NoErr, ROOT, true);
            Renamed(SkipJoiner, FreshVolume(SkipJoiner, VOLUME_NAME, PLAIN), from, from.(name := [0x200D]), 0, after)
  {
    var from := Desc(ROOT_PARENT, VOLUME_NAME, NoErr, ROOT, true);
    var to := from.(name := [0x200D]);
    BlankedRootHappens();
    ghost var before := FreshVolume(SkipJoiner, VOLUME_NAME, PLAIN);
    var volume := new Volume(SkipJoiner, FreshVolume(SkipJoiner, VOLUME_NAME, PLAIN).tree, FIRST_USER, false);
    ghost var checked;
    err, checked := volume.Rename(from, from, to, 0, NO_FAULTS);
    after := volume.State();
    RenameValidIff(SkipJoiner, before, from, to, 0, after);
  }
}
