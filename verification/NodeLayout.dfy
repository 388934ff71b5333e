/**
 * The layout of B-tree nodes, read off a node in native (little-endian) order: where its
 * multi-byte fields are, as field widths from the first byte of the node to the last.
 */
module NodeLayout {
  import opened Bytes
  import opened ByteOrder
  import opened ShapeChain

  /** Which records a tree holds: extents or catalog, of an HFS Plus or a standard HFS volume. */
  datatype Tree = PlusExtents | PlusCatalog | HfsExtents | HfsCatalog

  const LEAF: Byte := 0xFF
  const INDEX: Byte := 0
  const HEADER: Byte := 1

  function U16(s: seq<Byte>, p: nat): (v: nat)
    requires p + 2 <= |s|
    ensures v < 0x1_0000
  {
    s[p] as int + 0x100 * s[p + 1] as int
  }

  // Record data.

  /** HFSPlusForkData: logical size; clump size, block count and eight extents. */
  function ForkData(): (sh: Shape)
    ensures Size(sh) == 80
  {
    Then(Field(8), Longs(18))
  }

  /** HFSPlusBSDInfo: owner, group; two bytes of flags; mode; the special word. */
  function BsdInfo(): (sh: Shape)
    ensures Size(sh) == 16
  {
    Then(Longs(2), Then(Plain(2), Then(Field(2), Field(4))))
  }

  /** Finder information, text encoding, a reserved word. */
  function FinderInfo(): (sh: Shape)
    ensures Size(sh) == 40
  {
    Then(Plain(32), Then(Field(4), Plain(4)))
  }

  /** HFSPlusCatalogFolder behind its type: flags; valence, id and five dates; permissions; Finder information. */
  function PlusFolder(): (sh: Shape)
    ensures Size(sh) == 86
  {
    Then(Then(Field(2), Longs(7)), Then(BsdInfo(), FinderInfo()))
  }

  /**
   * HFSPlusCatalogFile behind its type: flags; a reserved word; id and five dates; permissions; Finder
   * information; data and resource fork.
   */
  function PlusFile(): (sh: Shape)
    ensures Size(sh) == 246
  {
    var head := Then(Field(2), Then(Plain(4), Longs(6)));
    Then(Then(head, Then(BsdInfo(), FinderInfo())), Then(ForkData(), ForkData()))
  }

  /** HFSCatalogFolder behind its type: flags and valence; id and three dates; Finder information and reserved words. */
  function HfsFolder(): (sh: Shape)
    ensures Size(sh) == 68
  {
    Then(Words(2), Then(Longs(4), Plain(48)))
  }

  /** Start block, logical and physical size of a standard HFS fork. */
  function HfsFork(): (sh: Shape)
    ensures Size(sh) == 10
  {
    Then(Field(2), Longs(2))
  }

  /**
   * HFSCatalogFile behind its type: flags, file type and Finder information; id; data and resource fork; three
   * dates; more Finder information; clump size and the extents of both forks; a reserved word.
   */
  function HfsFile(): (sh: Shape)
    ensures Size(sh) == 100
  {
    var head := Then(Plain(18), Then(Field(4), Then(HfsFork(), HfsFork())));
    Then(head, Then(Then(Longs(3), Plain(16)), Then(Words(13), Plain(4))))
  }

  /**
   * BTHeaderRec: depth; root, record count, first and last leaf; node and key size; total and free nodes;
   * a reserved word; clump size; type and a reserved byte; attributes; reserved words.
   */
  function HeaderRecord(): (sh: Shape)
    ensures Size(sh) == 106
  {
    var head := Then(Then(Field(2), Longs(4)), Then(Words(2), Longs(2)));
    Then(head, Then(Then(Plain(2), Field(4)), Then(Plain(2), Then(Field(4), Plain(64)))))
  }

  /** A 16-bit count and that many 16-bit characters. */
  function Counted(n: nat): (sh: Shape)
    ensures Size(sh) == 2 + 2 * n
  {
    Then(Field(2), Words(n))
  }

  /** HFSPlusCatalogThread behind its type, with a name of `n` characters. */
  function PlusThread(n: nat): (sh: Shape)
    ensures Size(sh) == 8 + 2 * n
  {
    Then(Then(Plain(2), Field(4)), Counted(n))
  }

  /** HFSCatalogThread behind its type, up to its name. */
  function HfsThread(): (sh: Shape)
    ensures Size(sh) == 12
  {
    Then(Plain(8), Field(4))
  }

  /** What follows the type of a catalog leaf record. */
  function CatalogBody(t: Tree, data: seq<Byte>): (sh: Shape)
    requires CatalogFits(t, data)
    ensures 2 + Size(sh) <= |data|
  {
    var kind := U16(data, 0);
    if t == PlusCatalog then
      if kind == 1 then PlusFolder()
      else if kind == 2 then PlusFile()
      else PlusThread(U16(data, 8))
    else
      if kind == 0x100 then HfsFolder()
      else if kind == 0x200 then HfsFile()
      else HfsThread()
  }

  predicate CatalogFits(t: Tree, data: seq<Byte>) {
    && 2 <= |data|
    && var kind := U16(data, 0);
       if t == PlusCatalog then
         || (kind == 1 && 88 <= |data|)
         || (kind == 2 && 248 <= |data|)
         || ((kind == 3 || kind == 4) && 10 <= |data| && 10 + 2 * U16(data, 8) <= |data|)
       else
         || (kind == 0x100 && 70 <= |data|)
         || (kind == 0x200 && 102 <= |data|)
         || ((kind == 0x300 || kind == 0x400) && 14 <= |data|)
  }

  predicate DataFits(t: Tree, index: bool, data: seq<Byte>) {
    if index then 4 <= |data|
    else match t
      case PlusExtents => 64 <= |data|
      case HfsExtents => 12 <= |data|
      case _ => CatalogFits(t, data)
  }

  /** The fields of a record's data; the rest of the record is left alone. */
  function DataFields(t: Tree, index: bool, data: seq<Byte>): (sh: Shape)
    requires DataFits(t, index, data)
    ensures Size(sh) <= |data|
  {
    if index then Field(4)
    else match t
      case PlusExtents => Longs(16)
      case HfsExtents => Words(6)
      case _ => Then(Field(2), CatalogBody(t, data))
  }

  // Keys.

  /** The distance from the start of a record to its data. */
  function KeySpan(t: Tree, rec: seq<Byte>): nat
    requires 2 <= |rec|
  {
    if t.PlusExtents? || t.PlusCatalog? then U16(rec, 0) + 2 else (rec[0] as int + 2) / 2 * 2
  }

  predicate KeyFits(t: Tree, rec: seq<Byte>) {
    && 2 <= |rec|
    && KeySpan(t, rec) <= |rec|
    && match t
       case PlusExtents => 12 <= KeySpan(t, rec)
       case PlusCatalog => 8 <= KeySpan(t, rec) && 8 + 2 * U16(rec, 6) <= KeySpan(t, rec)
       case HfsExtents => 8 <= KeySpan(t, rec)
       case HfsCatalog => 6 <= KeySpan(t, rec)
  }

  function KeyFields(t: Tree, rec: seq<Byte>): (sh: Shape)
    requires KeyFits(t, rec)
    ensures Size(sh) <= KeySpan(t, rec)
  {
    match t
    case PlusExtents => Then(Field(2), Then(Plain(2), Longs(2)))
    case PlusCatalog => Then(Then(Field(2), Field(4)), Counted(U16(rec, 6)))
    case HfsExtents => Then(Plain(2), Then(Field(4), Field(2)))
    case HfsCatalog => Then(Plain(2), Field(4))
  }

  // Records.

  predicate RecordFits(t: Tree, index: bool, rec: seq<Byte>) {
    KeyFits(t, rec) && DataFits(t, index, rec[KeySpan(t, rec)..])
  }

  /** Fields `sh` and, behind them, bytes that are left alone. */
  function Padded(sh: Shape, size: nat): (p: Shape)
    requires Size(sh) <= size
    ensures Size(p) == size
  {
    Then(sh, Plain(size - Size(sh)))
  }

  function KeyShape(t: Tree, rec: seq<Byte>): (sh: Shape)
    requires KeyFits(t, rec)
    ensures Size(sh) == KeySpan(t, rec)
  {
    Padded(KeyFields(t, rec), KeySpan(t, rec))
  }

  function DataShape(t: Tree, index: bool, data: seq<Byte>): (sh: Shape)
    requires DataFits(t, index, data)
    ensures Size(sh) == |data|
  {
    Padded(DataFields(t, index, data), |data|)
  }

  function RecordShape(t: Tree, index: bool, rec: seq<Byte>): (sh: Shape)
    requires RecordFits(t, index, rec)
    ensures Size(sh) == |rec|
  {
    Then(KeyShape(t, rec), DataShape(t, index, rec[KeySpan(t, rec)..]))
  }

  // Nodes.

  /** BTNodeDescriptor: links to the next and previous node; kind and height; record count; a reserved word. */
  function Descriptor(): (sh: Shape)
    ensures Size(sh) == 14
  {
    Then(Longs(2), Then(Plain(2), Then(Field(2), Plain(2))))
  }

  function Count(n: seq<Byte>): nat
    requires 14 <= |n|
  {
    U16(n, 10)
  }

  predicate TableFits(n: seq<Byte>) {
    14 <= |n| && 14 + 2 * (Count(n) + 1) <= |n|
  }

  function TableStart(n: seq<Byte>): nat
    requires TableFits(n)
  {
    |n| - 2 * (Count(n) + 1)
  }

  /** Record offsets grow downwards from the end of the node; the last one is the free space. */
  function Offset(n: seq<Byte>, r: nat): nat
    requires TableFits(n) && r <= Count(n)
  {
    U16(n, |n| - 2 * (r + 1))
  }

  predicate HasRecords(n: seq<Byte>)
    requires 14 <= |n|
  {
    n[8] == LEAF || n[8] == INDEX
  }

  /** Record `r` ends where the next one starts, behind its own start. */
  predicate InOrder(n: seq<Byte>, r: nat)
    requires TableFits(n) && r < Count(n)
  {
    Offset(n, r) <= Offset(n, r + 1)
  }

  ghost predicate OffsetsFit(n: seq<Byte>) {
    && TableFits(n)
    && Offset(n, 0) == 14
    && (forall r {:trigger InOrder(n, r)} | 0 <= r < Count(n) :: InOrder(n, r))
    && Offset(n, Count(n)) <= TableStart(n)
  }

  lemma {:induction false} OffsetsAbove(n: seq<Byte>, r: nat)
    requires OffsetsFit(n) && r <= Count(n)
    ensures 14 <= Offset(n, r)
  {
    if r > 0 {
      assert InOrder(n, r - 1);
      OffsetsAbove(n, r - 1);
    }
  }

  lemma {:induction false} OffsetsBelow(n: seq<Byte>, r: nat)
    requires OffsetsFit(n) && r <= Count(n)
    ensures Offset(n, r) <= TableStart(n)
    ensures Offset(n, r) <= Offset(n, Count(n))
    decreases Count(n) - r
  {
    if r < Count(n) {
      assert InOrder(n, r);
      OffsetsBelow(n, r + 1);
    }
  }

  ghost function Record(n: seq<Byte>, r: nat): (rec: seq<Byte>)
    requires OffsetsFit(n) && r < Count(n)
    ensures Offset(n, r) <= Offset(n, r + 1) <= |n|
    ensures rec == n[Offset(n, r)..Offset(n, r + 1)]
  {
    assert InOrder(n, r);
    OffsetsBelow(n, r + 1);
    n[Offset(n, r)..Offset(n, r + 1)]
  }

  ghost predicate RecordAtFits(t: Tree, n: seq<Byte>, r: nat)
    requires OffsetsFit(n) && r < Count(n)
  {
    RecordFits(t, n[8] == INDEX, Record(n, r))
  }

  ghost predicate NodeFits(t: Tree, n: seq<Byte>) {
    && OffsetsFit(n)
    && (HasRecords(n) ==> forall r {:trigger RecordAtFits(t, n, r)} | 0 <= r < Count(n) :: RecordAtFits(t, n, r))
    && (n[8] == HEADER ==> 14 + 106 <= TableStart(n))
  }

  ghost predicate ShapesRecord(t: Tree, n: seq<Byte>, shapes: seq<Shape>, r: nat)
    requires NodeFits(t, n) && HasRecords(n) && r < Count(n) == |shapes|
  {
    assert RecordAtFits(t, n, r);
    shapes[r] == RecordShape(t, n[8] == INDEX, Record(n, r))
  }

  ghost predicate ShapesRecords(t: Tree, n: seq<Byte>, shapes: seq<Shape>)
    requires NodeFits(t, n) && HasRecords(n)
  {
    && |shapes| == Count(n)
    && forall r {:trigger ShapesRecord(t, n, shapes, r)} | 0 <= r < Count(n) :: ShapesRecord(t, n, shapes, r)
  }

  lemma {:induction false} RecordShapesExist(t: Tree, n: seq<Byte>, c: nat) returns (shapes: seq<Shape>)
    requires NodeFits(t, n) && HasRecords(n) && c <= Count(n)
    ensures |shapes| == c
    ensures forall r | 0 <= r < c :: RecordAtFits(t, n, r) && shapes[r] == RecordShape(t, n[8] == INDEX, Record(n, r))
  {
    if c == 0 {
      shapes := [];
    } else {
      shapes := RecordShapesExist(t, n, c - 1);
      assert RecordAtFits(t, n, c - 1);
      shapes := shapes + [RecordShape(t, n[8] == INDEX, Record(n, c - 1))];
    }
  }

  lemma SomeShapes(t: Tree, n: seq<Byte>)
    requires NodeFits(t, n) && HasRecords(n)
    ensures exists shapes :: ShapesRecords(t, n, shapes)
  {
    var shapes := RecordShapesExist(t, n, Count(n));
    assert ShapesRecords(t, n, shapes);
  }

  /** The shapes of all records. */
  ghost function RecordShapes(t: Tree, n: seq<Byte>): (shapes: seq<Shape>)
    requires NodeFits(t, n) && HasRecords(n)
    ensures |shapes| == Count(n)
  {
    SomeShapes(t, n);
    var shapes :| ShapesRecords(t, n, shapes);
    shapes
  }

  lemma {:induction false} RecordsPlaced(t: Tree, n: seq<Byte>, r: nat)
    requires NodeFits(t, n) && HasRecords(n) && r <= Count(n)
    ensures Place(RecordShapes(t, n), 14, r) == Offset(n, r)
  {
    if r > 0 {
      RecordsPlaced(t, n, r - 1);
      assert ShapesRecord(t, n, RecordShapes(t, n), r - 1);
    }
  }

  ghost function BodyShape(t: Tree, n: seq<Byte>): (sh: Shape)
    requires NodeFits(t, n)
    ensures 14 + Size(sh) <= TableStart(n)
  {
    if HasRecords(n) then
      RecordsPlaced(t, n, Count(n));
      ChainEnds(RecordShapes(t, n), 14, 0);
      Chain(RecordShapes(t, n), 0)
    else if n[8] == HEADER then HeaderRecord()
    else Plain(0)
  }

  /** Every field of the node, gaps included. */
  ghost function NodeShape(t: Tree, n: seq<Byte>): (sh: Shape)
    requires NodeFits(t, n)
    ensures Size(sh) == |n|
  {
    Then(Then(Descriptor(), Padded(BodyShape(t, n), TableStart(n) - 14)), Words(Count(n) + 1))
  }

  /** The node as it is on disk. */
  ghost function Big(t: Tree, n: seq<Byte>): (b: seq<Byte>)
    requires NodeFits(t, n)
    ensures |b| == |n|
  {
    Flip(n, NodeShape(t, n))
  }
}
