/**
 * What the byte order of a node means for its values. The fields of every structure are listed by offset and
 * width; a field read big-endian on disk has the value it has read little-endian in memory, and every byte
 * outside the fields is the same in both.
 */
module NodeFields {
  import opened Bytes
  import opened ByteOrder
  import opened Held
  import opened ShapeChain
  import opened NodeLayout
  import opened BTNode

  /** `count` fields of `width` bytes each, one behind the other from `at` on. */
  datatype Run = Run(at: nat, width: nat, count: nat)

  /** The unsigned integer of `w` bytes at `p`, least significant byte first. */
  function Little(s: seq<Byte>, p: nat, w: nat): nat
    requires p + w <= |s|
    decreases w
  {
    if w == 0 then 0 else s[p] + 0x100 * Little(s, p + 1, w - 1)
  }

  /** The unsigned integer of `w` bytes at `p`, most significant byte first. */
  function BigEndian(s: seq<Byte>, p: nat, w: nat): nat
    requires p + w <= |s|
  {
    if w == 0 then 0 else 0x100 * BigEndian(s, p, w - 1) + s[p + w - 1]
  }

  /** The field of `w` bytes at `p` has the same value in `b`, big-endian, and in `n`, little-endian. */
  predicate SameValue(b: seq<Byte>, n: seq<Byte>, p: nat, w: nat) {
    p + w <= |b| && p + w <= |n| && BigEndian(b, p, w) == Little(n, p, w)
  }

  /** Field `j` of a run of fields, in a structure at `p`. */
  predicate SameField(b: seq<Byte>, n: seq<Byte>, p: nat, run: Run, j: nat) {
    SameValue(b, n, p + run.at + run.width * j, run.width)
  }

  ghost predicate SameValues(b: seq<Byte>, n: seq<Byte>, p: nat, run: Run) {
    forall j: nat | j < run.count :: SameField(b, n, p, run, j)
  }

  predicate InRun(run: Run, i: nat) {
    run.at <= i < run.at + run.width * run.count
  }

  predicate InRuns(runs: seq<Run>, i: nat) {
    exists x | 0 <= x < |runs| :: InRun(runs[x], i)
  }

  predicate SameByte(b: seq<Byte>, n: seq<Byte>, i: nat) {
    i < |b| && i < |n| && b[i] == n[i]
  }

  /**
   * Of the structure at `p`, the part from `lo` to `hi`: the fields in `runs` have the same values, all other
   * bytes are the same.
   */
  ghost predicate Agree(b: seq<Byte>, n: seq<Byte>, p: nat, lo: nat, hi: nat, runs: seq<Run>) {
    && (forall x | 0 <= x < |runs| :: SameValues(b, n, p, runs[x]))
    && (forall i: nat {:trigger InRuns(runs, i)} | lo <= i < hi :: InRuns(runs, i) || SameByte(b, n, p + i))
  }

  // Turning a field end for end.

  lemma {:induction false} TurnedValue(b: seq<Byte>, n: seq<Byte>, q: nat, p: nat, w: nat)
    requires q + w <= |b| && p + w <= |n|
    requires forall i | q <= i < q + w :: b[i] == n[p + (q + w - 1 - i)]
    ensures BigEndian(b, q, w) == Little(n, p, w)
    decreases w
  {
    if w > 0 {
      TurnedValue(b, n, q, p + 1, w - 1);
      assert b[q + w - 1] == n[p];
    }
  }

  predicate TurnedByte(b: seq<Byte>, n: seq<Byte>, q: nat, sh: Shape, i: nat)
    requires i < Size(sh) && q + Size(sh) <= |b| && q + Size(sh) <= |n|
  {
    b[q + i] == n[q + Mate(sh, i)]
  }

  /** The bytes of a structure of shape `sh` at `q`, turned in `b`. */
  ghost predicate Turned(b: seq<Byte>, n: seq<Byte>, q: nat, sh: Shape) {
    && q + Size(sh) <= |b| && q + Size(sh) <= |n|
    && forall i: nat {:trigger TurnedByte(b, n, q, sh, i)} | i < Size(sh) :: TurnedByte(b, n, q, sh, i)
  }

  lemma TurnedField(b: seq<Byte>, n: seq<Byte>, q: nat, w: nat)
    requires Turned(b, n, q, Field(w))
    ensures SameValue(b, n, q, w)
  {
    forall i | q <= i < q + w ensures b[i] == n[q + (q + w - 1 - i)] {
      assert TurnedByte(b, n, q, Field(w), i - q);
    }
    TurnedValue(b, n, q, q, w);
  }

  /** A field at `at` that the structure turns as a whole. */
  lemma TurnedAt(b: seq<Byte>, n: seq<Byte>, q: nat, sh: Shape, at: nat, w: nat, f: nat)
    requires Turned(b, n, q, sh) && at + w <= Size(sh) && f == q + at
    requires forall i: nat | at <= i < at + w :: Mate(sh, i) == at + (at + w - 1 - i)
    ensures SameValue(b, n, f, w)
  {
    forall i | f <= i < f + w ensures b[i] == n[f + (f + w - 1 - i)] {
      assert TurnedByte(b, n, q, sh, i - q);
    }
    TurnedValue(b, n, f, f, w);
  }

  lemma TurnedWord(b: seq<Byte>, n: seq<Byte>, q: nat, count: nat, j: nat)
    requires Turned(b, n, q, Words(count)) && j < count
    ensures SameValue(b, n, q + 2 * j, 2)
  {
    forall i: nat | 2 * j <= i < 2 * j + 2 ensures Mate(Words(count), i) == 2 * j + (2 * j + 2 - 1 - i) {
      WordMateAt(count, j, i - 2 * j);
    }
    TurnedAt(b, n, q, Words(count), 2 * j, 2, q + 2 * j);
  }

  lemma TurnedLong(b: seq<Byte>, n: seq<Byte>, q: nat, count: nat, j: nat)
    requires Turned(b, n, q, Longs(count)) && j < count
    ensures SameValue(b, n, q + 4 * j, 4)
  {
    forall i: nat | 4 * j <= i < 4 * j + 4 ensures Mate(Longs(count), i) == 4 * j + (4 * j + 4 - 1 - i) {
      LongMateAt(count, j, i - 4 * j);
    }
    TurnedAt(b, n, q, Longs(count), 4 * j, 4, q + 4 * j);
  }

  lemma TurnedFirst(b: seq<Byte>, n: seq<Byte>, q: nat, first: Shape, rest: Shape)
    requires Turned(b, n, q, Then(first, rest))
    ensures Turned(b, n, q, first)
  {
    forall i: nat | i < Size(first) ensures TurnedByte(b, n, q, first, i) {
      assert TurnedByte(b, n, q, Then(first, rest), i);
    }
  }

  lemma TurnedRest(b: seq<Byte>, n: seq<Byte>, q: nat, first: Shape, rest: Shape, m: nat)
    requires Turned(b, n, q, Then(first, rest)) && m == q + Size(first)
    ensures Turned(b, n, m, rest)
  {
    forall i: nat | i < Size(rest) ensures TurnedByte(b, n, m, rest, i) {
      var j := Size(first) + i;
      assert TurnedByte(b, n, q, Then(first, rest), j);
      assert Mate(Then(first, rest), j) == Size(first) + Mate(rest, i);
    }
  }

  // The fields of a shape.

  function Runs(sh: Shape, base: nat): seq<Run> {
    match sh
    case Plain(_) => []
    case Field(w) => [Run(base, w, 1)]
    case Words(count) => [Run(base, 2, count)]
    case Longs(count) => [Run(base, 4, count)]
    case Then(first, rest) => Runs(first, base) + Runs(rest, base + Size(first))
  }

  lemma OneRun(b: seq<Byte>, n: seq<Byte>, p: nat, run: Run)
    requires SameValues(b, n, p, run)
    ensures Agree(b, n, p, run.at, run.at + run.width * run.count, [run])
  {
    forall i: nat | run.at <= i < run.at + run.width * run.count ensures InRuns([run], i) {
      assert InRun([run][0], i);
    }
  }

  lemma MoreRuns(runs: seq<Run>, more: seq<Run>, i: nat)
    ensures InRuns(runs, i) || InRuns(more, i) ==> InRuns(runs + more, i)
  {
    if x :| 0 <= x < |runs| && InRun(runs[x], i) {
      assert InRun((runs + more)[x], i);
    }
    if x :| 0 <= x < |more| && InRun(more[x], i) {
      assert InRun((runs + more)[|runs| + x], i);
    }
  }

  lemma AgreeBoth(b: seq<Byte>, n: seq<Byte>, p: nat, lo: nat, mid: nat, hi: nat, runs: seq<Run>, more: seq<Run>)
    requires Agree(b, n, p, lo, mid, runs) && Agree(b, n, p, mid, hi, more)
    ensures Agree(b, n, p, lo, hi, runs + more)
  {
    var all := runs + more;
    forall x | 0 <= x < |all| ensures SameValues(b, n, p, all[x]) {
      assert all[x] == if x < |runs| then runs[x] else more[x - |runs|];
    }
    forall i: nat | lo <= i < hi ensures InRuns(all, i) || SameByte(b, n, p + i) {
      MoreRuns(runs, more, i);
      assert InRuns(runs, i) || InRuns(more, i) || SameByte(b, n, p + i);
    }
  }

  lemma PlainAgrees(b: seq<Byte>, n: seq<Byte>, p: nat, base: nat, size: nat)
    requires Turned(b, n, p + base, Plain(size))
    ensures Agree(b, n, p, base, base + size, [])
  {
    forall i: nat | base <= i < base + size ensures InRuns([], i) || SameByte(b, n, p + i) {
      assert TurnedByte(b, n, p + base, Plain(size), i - base);
    }
  }

  /** A turned structure agrees with itself on its fields. */
  lemma {:induction false} ShapeAgrees(b: seq<Byte>, n: seq<Byte>, p: nat, base: nat, sh: Shape)
    requires Turned(b, n, p + base, sh)
    ensures Agree(b, n, p, base, base + Size(sh), Runs(sh, base))
    decreases sh
  {
    match sh {
      case Plain(size) => PlainAgrees(b, n, p, base, size);
      case Field(w) =>
        TurnedField(b, n, p + base, w);
        assert forall j: nat | j < 1 :: SameField(b, n, p, Run(base, w, 1), j);
        OneRun(b, n, p, Run(base, w, 1));
      case Words(count) =>
        forall j: nat | j < count ensures SameField(b, n, p, Run(base, 2, count), j) {
          TurnedWord(b, n, p + base, count, j);
        }
        OneRun(b, n, p, Run(base, 2, count));
      case Longs(count) =>
        forall j: nat | j < count ensures SameField(b, n, p, Run(base, 4, count), j) {
          TurnedLong(b, n, p + base, count, j);
        }
        OneRun(b, n, p, Run(base, 4, count));
      case Then(first, rest) =>
        var mid := base + Size(first);
        TurnedFirst(b, n, p + base, first, rest);
        TurnedRest(b, n, p + base, first, rest, p + mid);
        ShapeAgrees(b, n, p, base, first);
        ShapeAgrees(b, n, p, mid, rest);
        AgreeBoth(b, n, p, base, mid, mid + Size(rest), Runs(first, base), Runs(rest, mid));
    }
  }

  lemma HeldAgrees(b: seq<Byte>, n: seq<Byte>, p: nat, native: seq<Byte>, sh: Shape, runs: seq<Run>)
    requires Holds(b, p, native, sh, false) && Runs(sh, 0) == runs
    requires p + |native| <= |n| && native == n[p..p + |native|]
    ensures Agree(b, n, p, 0, |native|, runs)
  {
    forall i: nat | i < Size(sh) ensures TurnedByte(b, n, p, sh, i) {
      assert HeldByte(b, p, native, sh, false, i);
    }
    ShapeAgrees(b, n, p, 0, sh);
  }

  // The fields of each structure.

  /** Links to the next and previous node; number of records. */
  const DESCRIPTOR := [Run(0, 4, 2), Run(10, 2, 1)]

  /**
   * Depth; root, leaf records, first and last leaf; node size, greatest key length; total and free nodes; clump
   * size; attributes.
   */
  const HEADER_RECORD := [Run(0, 2, 1), Run(2, 4, 4), Run(18, 2, 2), Run(22, 4, 2), Run(32, 4, 1), Run(38, 4, 1)]

  /** Type, flags; valence, id and five dates; owner and group; mode; special word; text encoding. */
  const PLUS_FOLDER := [
    Run(0, 2, 1), Run(2, 2, 1), Run(4, 4, 7), Run(32, 4, 2), Run(42, 2, 1), Run(44, 4, 1), Run(80, 4, 1)
  ]

  /**
   * Type, flags; id and five dates; owner and group; mode; special word; text encoding; of either fork the
   * logical size in 64 bits, clump size, blocks and eight extents.
   */
  const PLUS_FILE := [
    Run(0, 2, 1), Run(2, 2, 1), Run(8, 4, 6), Run(32, 4, 2), Run(42, 2, 1), Run(44, 4, 1), Run(80, 4, 1),
    Run(88, 8, 1), Run(96, 4, 18), Run(168, 8, 1), Run(176, 4, 18)
  ]

  /** Type; parent id; name of `length` characters. */
  function PlusThreadRuns(length: nat): seq<Run> {
    [Run(0, 2, 1), Run(4, 4, 1), Run(8, 2, 1), Run(10, 2, length)]
  }

  /** Type; flags and valence; id and three dates. */
  const HFS_FOLDER := [Run(0, 2, 1), Run(2, 2, 2), Run(6, 4, 4)]

  /** Type; id; of either fork first block, logical and physical size; three dates; clump size and extents. */
  const HFS_FILE := [
    Run(0, 2, 1), Run(20, 4, 1), Run(24, 2, 1), Run(26, 4, 2), Run(34, 2, 1), Run(36, 4, 2), Run(44, 4, 3),
    Run(72, 2, 13)
  ]

  /** Type; parent id. */
  const HFS_THREAD := [Run(0, 2, 1), Run(10, 4, 1)]

  /** The fields of a record's data: a child node, extents, or a catalog record of the given type. */
  function DataRuns(t: Tree, index: bool, data: seq<Byte>): seq<Run>
    requires DataFits(t, index, data)
  {
    if index then [Run(0, 4, 1)]
    else match t
      case PlusExtents => [Run(0, 4, 16)]
      case HfsExtents => [Run(0, 2, 6)]
      case PlusCatalog =>
        if Little(data, 0, 2) == 1 then PLUS_FOLDER
        else if Little(data, 0, 2) == 2 then PLUS_FILE
        else PlusThreadRuns(Little(data, 8, 2))
      case HfsCatalog =>
        if Little(data, 0, 2) == 0x100 then HFS_FOLDER
        else if Little(data, 0, 2) == 0x200 then HFS_FILE
        else HFS_THREAD
  }

  /** The fields of a record's key. */
  function KeyRuns(t: Tree, rec: seq<Byte>): seq<Run>
    requires KeyFits(t, rec)
  {
    match t
    case PlusExtents => [Run(0, 2, 1), Run(4, 4, 2)]
    case PlusCatalog => [Run(0, 2, 1), Run(2, 4, 1), Run(6, 2, 1), Run(8, 2, Little(rec, 6, 2))]
    case HfsExtents => [Run(2, 4, 1), Run(6, 2, 1)]
    case HfsCatalog => [Run(2, 4, 1)]
  }

  // They are those of the shapes.

  lemma WordIsLittle(s: seq<Byte>, p: nat)
    requires p + 2 <= |s|
    ensures Little(s, p, 2) == U16(s, p)
  {
    assert Little(s, p + 1, 1) == s[p + 1];
  }

  lemma RunsThen(first: Shape, rest: Shape, base: nat)
    ensures Runs(Then(first, rest), base) == Runs(first, base) + Runs(rest, base + Size(first))
  {
  }

  lemma PermissionRuns()
    ensures Runs(Then(BsdInfo(), FinderInfo()), 32) == [Run(32, 4, 2), Run(42, 2, 1), Run(44, 4, 1), Run(80, 4, 1)]
  {
    var mode := Then(Field(2), Field(4));
    assert Runs(mode, 42) == [Run(42, 2, 1), Run(44, 4, 1)];
    assert Runs(Then(Plain(2), mode), 40) == [Run(42, 2, 1), Run(44, 4, 1)];
    assert Runs(BsdInfo(), 32) == [Run(32, 4, 2), Run(42, 2, 1), Run(44, 4, 1)];
    assert Runs(Then(Field(4), Plain(4)), 80) == [Run(80, 4, 1)];
    assert Runs(FinderInfo(), 48) == [Run(80, 4, 1)];
  }

  lemma FolderRuns()
    ensures Runs(Then(Field(2), PlusFolder()), 0) == PLUS_FOLDER
  {
    PermissionRuns();
    var head, tail := Then(Field(2), Longs(7)), Then(BsdInfo(), FinderInfo());
    assert Runs(head, 2) == [Run(2, 2, 1), Run(4, 4, 7)];
    RunsThen(head, tail, 2);
    RunsThen(Field(2), PlusFolder(), 0);
  }

  lemma FileHeadRuns()
    ensures Runs(Then(Then(Field(2), Then(Plain(4), Longs(6))), Then(BsdInfo(), FinderInfo())), 2) == PLUS_FILE[1..7]
  {
    PermissionRuns();
    var dates := Then(Plain(4), Longs(6));
    var head, tail := Then(Field(2), dates), Then(BsdInfo(), FinderInfo());
    assert Runs(dates, 4) == [Run(8, 4, 6)];
    RunsThen(Field(2), dates, 2);
    RunsThen(head, tail, 2);
  }

  lemma ForkRuns()
    ensures Runs(Then(ForkData(), ForkData()), 88) == PLUS_FILE[7..]
  {
    assert Runs(ForkData(), 88) == [Run(88, 8, 1), Run(96, 4, 18)];
    assert Runs(ForkData(), 168) == [Run(168, 8, 1), Run(176, 4, 18)];
    RunsThen(ForkData(), ForkData(), 88);
  }

  lemma FileRuns()
    ensures Runs(Then(Field(2), PlusFile()), 0) == PLUS_FILE
  {
    FileHeadRuns();
    ForkRuns();
    var head := Then(Then(Field(2), Then(Plain(4), Longs(6))), Then(BsdInfo(), FinderInfo()));
    RunsThen(head, Then(ForkData(), ForkData()), 2);
    RunsThen(Field(2), PlusFile(), 0);
    assert PLUS_FILE == [Run(0, 2, 1)] + (PLUS_FILE[1..7] + PLUS_FILE[7..]);
  }

  lemma ThreadRuns(length: nat)
    ensures Runs(Then(Field(2), PlusThread(length)), 0) == PlusThreadRuns(length)
  {
    var head := Then(Plain(2), Field(4));
    assert Runs(head, 2) == [Run(4, 4, 1)];
    assert Runs(Counted(length), 8) == [Run(8, 2, 1), Run(10, 2, length)];
    RunsThen(head, Counted(length), 2);
    RunsThen(Field(2), PlusThread(length), 0);
  }

  lemma HfsFolderRuns()
    ensures Runs(Then(Field(2), HfsFolder()), 0) == HFS_FOLDER
  {
    var tail := Then(Longs(4), Plain(48));
    assert Runs(tail, 6) == [Run(6, 4, 4)];
    RunsThen(Words(2), tail, 2);
    RunsThen(Field(2), HfsFolder(), 0);
  }

  lemma HfsFileRuns()
    ensures Runs(Then(Field(2), HfsFile()), 0) == HFS_FILE
  {
    var forks := Then(HfsFork(), HfsFork());
    var id := Then(Field(4), forks);
    var head := Then(Plain(18), id);
    var dates, extents := Then(Longs(3), Plain(16)), Then(Words(13), Plain(4));
    assert Runs(HfsFork(), 24) == [Run(24, 2, 1), Run(26, 4, 2)];
    assert Runs(HfsFork(), 34) == [Run(34, 2, 1), Run(36, 4, 2)];
    RunsThen(HfsFork(), HfsFork(), 24);
    RunsThen(Field(4), forks, 20);
    RunsThen(Plain(18), id, 2);
    assert Runs(dates, 44) == [Run(44, 4, 3)];
    assert Runs(extents, 72) == [Run(72, 2, 13)];
    RunsThen(dates, extents, 44);
    RunsThen(head, Then(dates, extents), 2);
    RunsThen(Field(2), HfsFile(), 0);
  }

  lemma HfsThreadRuns()
    ensures Runs(Then(Field(2), HfsThread()), 0) == HFS_THREAD
  {
    assert Runs(HfsThread(), 2) == [Run(10, 4, 1)];
    RunsThen(Field(2), HfsThread(), 0);
  }

  lemma DescriptorRuns()
    ensures Runs(Descriptor(), 0) == DESCRIPTOR
  {
    var tail := Then(Field(2), Plain(2));
    assert Runs(tail, 10) == [Run(10, 2, 1)];
    assert Runs(Then(Plain(2), tail), 8) == [Run(10, 2, 1)];
    RunsThen(Longs(2), Then(Plain(2), tail), 0);
  }

  lemma HeaderRuns()
    ensures Runs(HeaderRecord(), 0) == HEADER_RECORD
  {
    var depth, sizes := Then(Field(2), Longs(4)), Then(Words(2), Longs(2));
    var clump, attributes := Then(Plain(2), Field(4)), Then(Plain(2), Then(Field(4), Plain(64)));
    assert Runs(depth, 0) == [Run(0, 2, 1), Run(2, 4, 4)];
    assert Runs(sizes, 18) == [Run(18, 2, 2), Run(22, 4, 2)];
    RunsThen(depth, sizes, 0);
    assert Runs(clump, 30) == [Run(32, 4, 1)];
    assert Runs(Then(Field(4), Plain(64)), 38) == [Run(38, 4, 1)];
    assert Runs(attributes, 36) == [Run(38, 4, 1)];
    RunsThen(clump, attributes, 30);
    RunsThen(Then(depth, sizes), Then(clump, attributes), 0);
  }

  lemma CatalogRuns(t: Tree, data: seq<Byte>)
    requires (t == PlusCatalog || t == HfsCatalog) && CatalogFits(t, data)
    ensures Runs(Then(Field(2), CatalogBody(t, data)), 0) == DataRuns(t, false, data)
  {
    WordIsLittle(data, 0);
    if t == PlusCatalog {
      if U16(data, 0) == 1 {
        FolderRuns();
      } else if U16(data, 0) == 2 {
        FileRuns();
      } else {
        WordIsLittle(data, 8);
        ThreadRuns(U16(data, 8));
      }
    } else if U16(data, 0) == 0x100 {
      HfsFolderRuns();
    } else if U16(data, 0) == 0x200 {
      HfsFileRuns();
    } else {
      HfsThreadRuns();
    }
  }

  lemma DataShapeRuns(t: Tree, index: bool, data: seq<Byte>)
    requires DataFits(t, index, data)
    ensures Runs(DataShape(t, index, data), 0) == DataRuns(t, index, data)
  {
    var fields := DataFields(t, index, data);
    RunsThen(fields, Plain(|data| - Size(fields)), 0);
    if !index && (t == PlusCatalog || t == HfsCatalog) {
      CatalogRuns(t, data);
    }
  }

  lemma KeyShapeRuns(t: Tree, rec: seq<Byte>)
    requires KeyFits(t, rec)
    ensures Runs(KeyShape(t, rec), 0) == KeyRuns(t, rec)
  {
    var fields := KeyFields(t, rec);
    RunsThen(fields, Plain(KeySpan(t, rec) - Size(fields)), 0);
    match t {
      case PlusExtents =>
        var rest := Then(Plain(2), Longs(2));
        assert Runs(rest, 2) == [Run(4, 4, 2)];
        RunsThen(Field(2), rest, 0);
      case PlusCatalog =>
        var head, name := Then(Field(2), Field(4)), Counted(U16(rec, 6));
        WordIsLittle(rec, 6);
        assert Runs(head, 0) == [Run(0, 2, 1), Run(2, 4, 1)];
        assert Runs(name, 6) == [Run(6, 2, 1), Run(8, 2, U16(rec, 6))];
        RunsThen(head, name, 0);
      case HfsExtents =>
        var rest := Then(Field(4), Field(2));
        assert Runs(rest, 2) == [Run(2, 4, 1), Run(6, 2, 1)];
        RunsThen(Plain(2), rest, 0);
      case HfsCatalog =>
        RunsThen(Plain(2), Field(4), 0);
    }
  }

  // Nodes.

  lemma PartsHeld(t: Tree, n: seq<Byte>)
    requires NodeFits(t, n)
    ensures Holds(Big(t, n), 0, n[..14], Descriptor(), false)
    ensures Holds(Big(t, n), 14, n[14..TableStart(n)], Padded(BodyShape(t, n), TableStart(n) - 14), false)
    ensures Holds(Big(t, n), TableStart(n), n[TableStart(n)..], Words(Count(n) + 1), false)
  {
    var b, e := Big(t, n), TableStart(n);
    var body, table := Padded(BodyShape(t, n), e - 14), Words(Count(n) + 1);
    var front := Then(Descriptor(), body);
    HeldInPlace(n, 0, NodeShape(t, n));
    assert n[0..0 + Size(NodeShape(t, n))] == n;
    HoldsParts(b, 0, n, front, table, false, e);
    HoldsParts(b, 0, n[..e], Descriptor(), body, false, 14);
    assert n[..e][..14] == n[..14] && n[..e][14..] == n[14..e];
  }

  lemma BodyHeld(t: Tree, n: seq<Byte>, e: nat)
    requires NodeFits(t, n) && e == 14 + Size(BodyShape(t, n))
    ensures Holds(Big(t, n), 14, n[14..e], BodyShape(t, n), false)
    ensures Holds(Big(t, n), e, n[e..TableStart(n)], Plain(TableStart(n) - e), false)
  {
    var b, native := Big(t, n), n[14..TableStart(n)];
    PartsHeld(t, n);
    HoldsParts(b, 14, native, BodyShape(t, n), Plain(TableStart(n) - e), false, e - 14);
    assert native[..e - 14] == n[14..e] && native[e - 14..] == n[e..TableStart(n)];
  }

  /** The node descriptor and the table of record offsets. */
  lemma FrameValues(t: Tree, n: seq<Byte>)
    requires NodeFits(t, n)
    ensures Agree(Big(t, n), n, 0, 0, 14, DESCRIPTOR)
    ensures var c := Count(n) + 1;
            Agree(Big(t, n), n, |n| - 2 * c, 0, 2 * c, [Run(0, 2, c)])
  {
    var e := TableStart(n);
    PartsHeld(t, n);
    DescriptorRuns();
    HeldAgrees(Big(t, n), n, 0, n[..14], Descriptor(), DESCRIPTOR);
    HeldAgrees(Big(t, n), n, e, n[e..], Words(Count(n) + 1), [Run(0, 2, Count(n) + 1)]);
  }

  /** The record of a header node, and the bytes behind it. */
  lemma HeaderValues(t: Tree, n: seq<Byte>)
    requires NodeFits(t, n) && n[8] == HEADER
    ensures Agree(Big(t, n), n, 14, 0, 106, HEADER_RECORD)
    ensures forall i: nat | 120 <= i < TableStart(n) :: SameByte(Big(t, n), n, i)
  {
    BodyHeld(t, n, 120);
    HeaderRuns();
    HeldAgrees(Big(t, n), n, 14, n[14..120], HeaderRecord(), HEADER_RECORD);
    GapKept(t, n, 120);
  }

  lemma GapKept(t: Tree, n: seq<Byte>, e: nat)
    requires NodeFits(t, n) && e == 14 + Size(BodyShape(t, n))
    ensures forall i: nat | e <= i < TableStart(n) :: SameByte(Big(t, n), n, i)
  {
    var b, gap := Big(t, n), Plain(TableStart(n) - e);
    BodyHeld(t, n, e);
    forall i: nat | e <= i < TableStart(n) ensures SameByte(b, n, i) {
      assert HeldByte(b, e, n[e..TableStart(n)], gap, false, i - e);
      assert Mate(gap, i - e) == i - e;
    }
  }

  /** Behind the records, and in nodes of other kinds behind the descriptor, nothing differs. */
  lemma FreeSpaceKept(t: Tree, n: seq<Byte>)
    requires NodeFits(t, n) && n[8] != HEADER
    ensures var e := if HasRecords(n) then Offset(n, Count(n)) else 14;
            forall i: nat | e <= i < TableStart(n) :: SameByte(Big(t, n), n, i)
  {
    if HasRecords(n) {
      RecordsPlaced(t, n, Count(n));
      ChainEnds(RecordShapes(t, n), 14, 0);
    }
    GapKept(t, n, 14 + Size(BodyShape(t, n)));
  }

  lemma RecordOnDisk(t: Tree, n: seq<Byte>, r: nat)
    requires NodeFits(t, n) && HasRecords(n) && r < Count(n)
    ensures RecordFits(t, n[8] == INDEX, Record(n, r))
    ensures Holds(Big(t, n), Offset(n, r), Record(n, r), RecordShape(t, n[8] == INDEX, Record(n, r)), false)
  {
    var shapes := RecordShapes(t, n);
    RecordsHeld(t, n, false);
    RecordsPlaced(t, n, Count(n));
    ChainEnds(shapes, 14, 0);
    BodyHeld(t, n, Offset(n, Count(n)));
    HeldAt(Big(t, n), 14, Records(n), shapes, false, r);
    RecordIsLink(t, n, r);
    assert RecordAtFits(t, n, r);
    assert ShapesRecord(t, n, shapes, r);
  }

  /** Keys are as long as their first field says, on standard HFS rounded up to an even length. */
  lemma KeyLengths(t: Tree, rec: seq<Byte>)
    requires KeyFits(t, rec)
    ensures t.PlusExtents? || t.PlusCatalog? ==> KeySpan(t, rec) == Little(rec, 0, 2) + 2
    ensures t.HfsExtents? || t.HfsCatalog? ==>
              KeySpan(t, rec) % 2 == 0 && 0 <= KeySpan(t, rec) - (Little(rec, 0, 1) + 1) <= 1
  {
    WordIsLittle(rec, 0);
    assert Little(rec, 0, 1) == rec[0];
  }

  lemma RecordPartsHeld(t: Tree, n: seq<Byte>, r: nat, p: nat, rec: seq<Byte>, k: nat)
    requires NodeFits(t, n) && HasRecords(n) && r < Count(n)
    requires p == Offset(n, r) && rec == Record(n, r) && RecordFits(t, n[8] == INDEX, rec) && k == KeySpan(t, rec)
    ensures rec[..k] == n[p..p + k] && rec[k..] == n[p + k..p + |rec|]
    ensures Holds(Big(t, n), p, rec[..k], KeyShape(t, rec), false)
    ensures Holds(Big(t, n), p + k, rec[k..], DataShape(t, n[8] == INDEX, rec[k..]), false)
  {
    RecordOnDisk(t, n, r);
    HoldsParts(Big(t, n), p, rec, KeyShape(t, rec), DataShape(t, n[8] == INDEX, rec[k..]), false, k);
  }

  /** The key of every record of a leaf or index node. */
  lemma KeyValues(t: Tree, n: seq<Byte>, r: nat, p: nat, rec: seq<Byte>, k: nat)
    requires NodeFits(t, n) && HasRecords(n) && r < Count(n)
    requires p == Offset(n, r) && rec == Record(n, r) && RecordFits(t, n[8] == INDEX, rec) && k == KeySpan(t, rec)
    ensures Agree(Big(t, n), n, p, 0, k, KeyRuns(t, rec))
  {
    RecordPartsHeld(t, n, r, p, rec, k);
    KeyShapeRuns(t, rec);
    HeldAgrees(Big(t, n), n, p, rec[..k], KeyShape(t, rec), KeyRuns(t, rec));
  }

  /** And its data, behind the key. */
  lemma DataValues(t: Tree, n: seq<Byte>, r: nat, p: nat, rec: seq<Byte>, k: nat)
    requires NodeFits(t, n) && HasRecords(n) && r < Count(n)
    requires p == Offset(n, r) && rec == Record(n, r) && RecordFits(t, n[8] == INDEX, rec) && k == KeySpan(t, rec)
    ensures Agree(Big(t, n), n, p + k, 0, |rec| - k, DataRuns(t, n[8] == INDEX, rec[k..]))
  {
    RecordPartsHeld(t, n, r, p, rec, k);
    DataAgrees(Big(t, n), n, p + k, t, n[8] == INDEX, rec[k..]);
  }

  lemma DataAgrees(b: seq<Byte>, n: seq<Byte>, p: nat, t: Tree, index: bool, data: seq<Byte>)
    requires DataFits(t, index, data) && Holds(b, p, data, DataShape(t, index, data), false)
    requires p + |data| <= |n| && data == n[p..p + |data|]
    ensures Agree(b, n, p, 0, |data|, DataRuns(t, index, data))
  {
    DataShapeRuns(t, index, data);
    HeldAgrees(b, n, p, data, DataShape(t, index, data), DataRuns(t, index, data));
  }

  lemma FileFields(b: seq<Byte>, n: seq<Byte>, p: nat, size: nat)
    requires Agree(b, n, p, 0, size, PLUS_FILE)
    ensures SameValue(b, n, p + 88, 8) && SameValue(b, n, p + 168, 8)
  {
    var data, resource := PLUS_FILE[7], PLUS_FILE[9];
    assert SameValues(b, n, p, data) && SameValues(b, n, p, resource);
    assert SameField(b, n, p, data, 0) && SameField(b, n, p, resource, 0);
  }

  /** The logical sizes of both forks of a file. */
  lemma FileSizes(n: seq<Byte>, r: nat, p: nat, rec: seq<Byte>, k: nat)
    requires NodeFits(PlusCatalog, n) && n[8] == LEAF && r < Count(n)
    requires p == Offset(n, r) && rec == Record(n, r) && RecordFits(PlusCatalog, false, rec)
    requires k == Little(rec, 0, 2) + 2 && Little(rec[k..], 0, 2) == 2
    ensures SameValue(Big(PlusCatalog, n), n, p + k + 88, 8)
    ensures SameValue(Big(PlusCatalog, n), n, p + k + 168, 8)
  {
    KeyLengths(PlusCatalog, rec);
    DataValues(PlusCatalog, n, r, p, rec, k);
    FileFields(Big(PlusCatalog, n), n, p + k, |rec| - k);
  }
}
