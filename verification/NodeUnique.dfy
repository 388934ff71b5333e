/** The big-endian form determines the node: swapping has exactly one possible outcome. */
module NodeUnique {
  import opened Bytes
  import opened ByteOrder
  import opened Held
  import opened ShapeChain
  import opened NodeLayout
  import opened NodeSwap
  import opened NodeFrame
  import opened BTNode

  /** Two structures found in the same place. */
  ghost predicate BothHeld(s: seq<Byte>, p: nat, x: seq<Byte>, xs: Shape, y: seq<Byte>, ys: Shape) {
    Holds(s, p, x, xs, false) && Holds(s, p, y, ys, false)
  }

  lemma SameShapeSameBytes(s: seq<Byte>, p: nat, x: seq<Byte>, y: seq<Byte>, sh: Shape)
    requires BothHeld(s, p, x, sh, y, sh)
    ensures x == y
  {
    forall j | 0 <= j < |x| ensures x[j] == y[j] {
      var i := Mate(sh, j);
      MateTwice(sh, j);
      assert HeldByte(s, p, x, sh, false, i) && HeldByte(s, p, y, sh, false, i);
    }
  }

  lemma SameFirstWord(s: seq<Byte>, p: nat, x: seq<Byte>, xs: Shape, y: seq<Byte>, ys: Shape)
    requires BothHeld(s, p, x, Then(Field(2), xs), y, Then(Field(2), ys))
    ensures 2 <= |x| && 2 <= |y| && U16(x, 0) == U16(y, 0)
  {
    FirstPart(s, p, x, Field(2), xs, false, 2);
    FirstPart(s, p, y, Field(2), ys, false, 2);
    HeldWord(s, p, x[..2], false);
    HeldWord(s, p, y[..2], false);
  }

  lemma HeldFirst(s: seq<Byte>, p: nat, x: seq<Byte>, xa: Shape, xb: Shape, y: seq<Byte>, ya: Shape, yb: Shape)
    requires BothHeld(s, p, x, Then(xa, xb), y, Then(ya, yb))
    ensures Size(xa) <= |x| && Size(ya) <= |y|
    ensures BothHeld(s, p, x[..Size(xa)], xa, y[..Size(ya)], ya)
  {
    FirstPart(s, p, x, xa, xb, false, Size(xa));
    FirstPart(s, p, y, ya, yb, false, Size(ya));
  }

  /** Behind first parts of `n` bytes each. */
  lemma HeldSecond(
      s: seq<Byte>, p: nat, x: seq<Byte>, xa: Shape, xb: Shape, y: seq<Byte>, ya: Shape, yb: Shape, n: nat)
    requires BothHeld(s, p, x, Then(xa, xb), y, Then(ya, yb)) && n == Size(xa) && n == Size(ya)
    ensures n <= |x| && n <= |y| && BothHeld(s, p + n, x[n..], xb, y[n..], yb)
  {
    SecondPart(s, p, x, xa, xb, false, n);
    SecondPart(s, p, y, ya, yb, false, n);
  }

  lemma HeldUnpadded(s: seq<Byte>, p: nat, x: seq<Byte>, xs: Shape, y: seq<Byte>, ys: Shape)
    requires Size(xs) <= |x| && Size(ys) <= |y|
    requires BothHeld(s, p, x, Padded(xs, |x|), y, Padded(ys, |y|))
    ensures BothHeld(s, p, x[..Size(xs)], xs, y[..Size(ys)], ys)
  {
    HoldsUnpadded(s, p, x, xs, false);
    HoldsUnpadded(s, p, y, ys, false);
  }

  /** A counted name behind a head of six bytes. */
  lemma SameCount(s: seq<Byte>, p: nat, head: Shape, x: seq<Byte>, a: nat, y: seq<Byte>, b: nat)
    requires Size(head) == 6 && BothHeld(s, p, x, Then(head, Counted(a)), y, Then(head, Counted(b)))
    ensures 8 <= |x| && 8 <= |y| && U16(x[6..], 0) == U16(y[6..], 0)
  {
    HeldSecond(s, p, x, head, Counted(a), y, head, Counted(b), 6);
    SameFirstWord(s, p + 6, x[6..], Words(a), y[6..], Words(b));
  }

  // Keys.

  /** The fields of a record's key. */
  ghost function KeyPart(t: Tree, rec: seq<Byte>): (k: seq<Byte>)
    requires KeyFits(t, rec)
    ensures |k| == Size(KeyFields(t, rec))
  {
    rec[..KeySpan(t, rec)][..Size(KeyFields(t, rec))]
  }

  lemma KeysHeld(s: seq<Byte>, p: nat, t: Tree, x: seq<Byte>, y: seq<Byte>, xs: Shape, ys: Shape)
    requires KeyFits(t, x) && KeyFits(t, y)
    requires BothHeld(s, p, x, Then(KeyShape(t, x), xs), y, Then(KeyShape(t, y), ys))
    ensures BothHeld(s, p, KeyPart(t, x), KeyFields(t, x), KeyPart(t, y), KeyFields(t, y))
  {
    HeldFirst(s, p, x, KeyShape(t, x), xs, y, KeyShape(t, y), ys);
    HeldUnpadded(s, p, x[..KeySpan(t, x)], KeyFields(t, x), y[..KeySpan(t, y)], KeyFields(t, y));
  }

  lemma SameSpan(s: seq<Byte>, p: nat, t: Tree, x: seq<Byte>, y: seq<Byte>)
    requires KeyFits(t, x) && KeyFits(t, y)
    requires BothHeld(s, p, KeyPart(t, x), KeyFields(t, x), KeyPart(t, y), KeyFields(t, y))
    ensures KeySpan(t, x) == KeySpan(t, y)
  {
    var kx, ky := KeyPart(t, x), KeyPart(t, y);
    match t {
      case PlusExtents =>
        SameFirstWord(s, p, kx, Then(Plain(2), Longs(2)), ky, Then(Plain(2), Longs(2)));
      case PlusCatalog =>
        var head := Then(Field(2), Field(4));
        HeldFirst(s, p, kx, head, Counted(U16(x, 6)), ky, head, Counted(U16(y, 6)));
        SameFirstWord(s, p, kx[..6], Field(4), ky[..6], Field(4));
      case HfsExtents =>
        PlainByte(s, p, kx, 2, Then(Field(4), Field(2)), false);
        PlainByte(s, p, ky, 2, Then(Field(4), Field(2)), false);
      case HfsCatalog =>
        PlainByte(s, p, kx, 2, Field(4), false);
        PlainByte(s, p, ky, 2, Field(4), false);
    }
  }

  lemma SameName(s: seq<Byte>, p: nat, x: seq<Byte>, y: seq<Byte>)
    requires KeyFits(PlusCatalog, x) && KeyFits(PlusCatalog, y)
    requires BothHeld(s, p, KeyPart(PlusCatalog, x), KeyFields(PlusCatalog, x), KeyPart(PlusCatalog, y),
                      KeyFields(PlusCatalog, y))
    ensures U16(x, 6) == U16(y, 6)
  {
    var kx, ky := KeyPart(PlusCatalog, x), KeyPart(PlusCatalog, y);
    SameCount(s, p, Then(Field(2), Field(4)), kx, U16(x, 6), ky, U16(y, 6));
    assert kx[6..][0] == x[6] && kx[6..][1] == x[7];
    assert ky[6..][0] == y[6] && ky[6..][1] == y[7];
  }

  lemma SameKeyShape(s: seq<Byte>, p: nat, t: Tree, x: seq<Byte>, y: seq<Byte>, xs: Shape, ys: Shape)
    requires KeyFits(t, x) && KeyFits(t, y)
    requires BothHeld(s, p, x, Then(KeyShape(t, x), xs), y, Then(KeyShape(t, y), ys))
    ensures KeyShape(t, x) == KeyShape(t, y)
  {
    KeysHeld(s, p, t, x, y, xs, ys);
    SameSpan(s, p, t, x, y);
    if t == PlusCatalog {
      SameName(s, p, x, y);
    }
  }

  // Data.

  lemma SameKind(s: seq<Byte>, p: nat, x: seq<Byte>, xs: Shape, y: seq<Byte>, ys: Shape)
    requires 2 + Size(xs) <= |x| && 2 + Size(ys) <= |y|
    requires BothHeld(s, p, x, Padded(Then(Field(2), xs), |x|), y, Padded(Then(Field(2), ys), |y|))
    ensures U16(x, 0) == U16(y, 0)
    ensures BothHeld(s, p + 2, x[..2 + Size(xs)][2..], xs, y[..2 + Size(ys)][2..], ys)
  {
    TypedParts(s, p, false, x, xs);
    TypedParts(s, p, false, y, ys);
  }

  lemma SameCatalogBody(s: seq<Byte>, p: nat, t: Tree, x: seq<Byte>, y: seq<Byte>)
    requires (t == PlusCatalog || t == HfsCatalog) && CatalogFits(t, x) && CatalogFits(t, y)
    requires BothHeld(s, p, x, DataShape(t, false, x), y, DataShape(t, false, y))
    ensures CatalogBody(t, x) == CatalogBody(t, y)
  {
    var xs, ys := CatalogBody(t, x), CatalogBody(t, y);
    SameKind(s, p, x, xs, y, ys);
    if t == PlusCatalog && U16(x, 0) != 1 && U16(x, 0) != 2 {
      var ox, oy := x[..2 + Size(xs)][2..], y[..2 + Size(ys)][2..];
      SameCount(s, p + 2, Then(Plain(2), Field(4)), ox, U16(x, 8), oy, U16(y, 8));
      ThreadName(x, 2 + Size(xs));
      ThreadName(y, 2 + Size(ys));
    }
  }

  lemma SameData(s: seq<Byte>, p: nat, t: Tree, index: bool, x: seq<Byte>, y: seq<Byte>)
    requires DataFits(t, index, x) && DataFits(t, index, y) && |x| == |y|
    requires BothHeld(s, p, x, DataShape(t, index, x), y, DataShape(t, index, y))
    ensures DataShape(t, index, x) == DataShape(t, index, y)
  {
    if !index && (t == PlusCatalog || t == HfsCatalog) {
      SameCatalogBody(s, p, t, x, y);
    }
  }

  lemma SameSpans(t: Tree, x: seq<Byte>, y: seq<Byte>)
    requires KeyFits(t, x) && KeyFits(t, y) && KeyShape(t, x) == KeyShape(t, y)
    ensures KeySpan(t, x) == KeySpan(t, y)
  {
    assert Size(KeyShape(t, x)) == Size(KeyShape(t, y));
  }

  lemma SameRecord(s: seq<Byte>, p: nat, t: Tree, index: bool, x: seq<Byte>, y: seq<Byte>)
    requires RecordFits(t, index, x) && RecordFits(t, index, y) && |x| == |y|
    requires BothHeld(s, p, x, RecordShape(t, index, x), y, RecordShape(t, index, y))
    ensures x == y
  {
    var m, n := KeySpan(t, x), KeySpan(t, y);
    var dx, dy := DataShape(t, index, x[m..]), DataShape(t, index, y[n..]);
    SameKeyShape(s, p, t, x, y, dx, dy);
    SameSpans(t, x, y);
    HeldSecond(s, p, x, KeyShape(t, x), dx, y, KeyShape(t, y), dy, m);
    SameData(s, p + m, t, index, x[m..], y[n..]);
    SameShapeSameBytes(s, p, x, y, RecordShape(t, index, x));
  }

  // Nodes.

  lemma CountShown(t: Tree, n: seq<Byte>)
    requires NodeFits(t, n)
    ensures Big(t, n)[10] == n[11] && Big(t, n)[11] == n[10]
    ensures FlipFrame(Big(t, n), Count(n)) == FlipBody(t, n)
  {
    var m := FlipBody(t, n);
    BigIsFrameAndBody(t, n);
    FrameTwice(m, Count(n));
    var desc := FlipAt(m, 0, Descriptor());
    MidwayWord(t, n, false, 10);
    FlipAtByte(n, 14, BodyShape(t, n), 11);
    DescriptorSteps(m);
    var links := FlipAt(m, 0, Longs(2));
    FlipAtByte(m, 0, Longs(2), 10);
    FlipAtByte(m, 0, Longs(2), 11);
    FlipAtByte(links, 10, Field(2), 10);
    FlipAtByte(links, 10, Field(2), 11);
    FlipAtByte(desc, TableStart(n), Words(Count(n) + 1), 10);
    FlipAtByte(desc, TableStart(n), Words(Count(n) + 1), 11);
  }

  lemma SameFrame(t: Tree, x: seq<Byte>, y: seq<Byte>)
    requires NodeFits(t, x) && NodeFits(t, y) && Big(t, x) == Big(t, y)
    ensures |x| == |y| && Count(x) == Count(y) && FlipBody(t, x) == FlipBody(t, y)
  {
    CountShown(t, x);
    CountShown(t, y);
  }

  lemma SameOutside(t: Tree, x: seq<Byte>, y: seq<Byte>, i: nat)
    requires NodeFits(t, x) && NodeFits(t, y) && |x| == |y| && FlipBody(t, x) == FlipBody(t, y)
    requires Count(x) == Count(y) && i < |x| && (i < 14 || TableStart(x) <= i)
    ensures x[i] == y[i]
  {
    FlipAtByte(x, 14, BodyShape(t, x), i);
    FlipAtByte(y, 14, BodyShape(t, y), i);
  }

  lemma SameOffset(t: Tree, x: seq<Byte>, y: seq<Byte>, r: nat)
    requires NodeFits(t, x) && NodeFits(t, y) && |x| == |y| && FlipBody(t, x) == FlipBody(t, y)
    requires Count(x) == Count(y) && r <= Count(x)
    ensures Offset(x, r) == Offset(y, r)
  {
    SameOutside(t, x, y, |x| - 2 * (r + 1));
    SameOutside(t, x, y, |x| - 2 * (r + 1) + 1);
  }

  lemma RecordFound(t: Tree, n: seq<Byte>, r: nat)
    requires NodeFits(t, n) && HasRecords(n) && r < Count(n)
    ensures RecordFits(t, n[8] == INDEX, Record(n, r))
    ensures Holds(FlipBody(t, n), Offset(n, r), Record(n, r), RecordShape(t, n[8] == INDEX, Record(n, r)), false)
  {
    RecordsHeld(t, n, false);
    HeldAt(FlipBody(t, n), 14, Records(n), RecordShapes(t, n), false, r);
    RecordIsLink(t, n, r);
    assert RecordAtFits(t, n, r);
    assert ShapesRecord(t, n, RecordShapes(t, n), r);
  }

  lemma SameBounds(t: Tree, x: seq<Byte>, y: seq<Byte>, r: nat)
    requires NodeFits(t, x) && NodeFits(t, y) && |x| == |y| && FlipBody(t, x) == FlipBody(t, y)
    requires Count(x) == Count(y) && r < Count(x)
    ensures Offset(x, r) == Offset(y, r) && |Record(x, r)| == |Record(y, r)| && x[8] == y[8]
  {
    SameOffset(t, x, y, r);
    SameOffset(t, x, y, r + 1);
    SameOutside(t, x, y, 8);
  }

  lemma SameRecordAt(t: Tree, x: seq<Byte>, y: seq<Byte>, r: nat)
    requires NodeFits(t, x) && NodeFits(t, y) && |x| == |y| && FlipBody(t, x) == FlipBody(t, y)
    requires Count(x) == Count(y) && HasRecords(x) && HasRecords(y) && r < Count(x)
    ensures Record(x, r) == Record(y, r)
  {
    SameBounds(t, x, y, r);
    RecordFound(t, x, r);
    RecordFound(t, y, r);
    SameRecord(FlipBody(t, x), Offset(x, r), t, x[8] == INDEX, Record(x, r), Record(y, r));
  }

  lemma SameShapes(t: Tree, x: seq<Byte>, y: seq<Byte>)
    requires NodeFits(t, x) && NodeFits(t, y) && |x| == |y| && FlipBody(t, x) == FlipBody(t, y)
    requires Count(x) == Count(y) && HasRecords(x) && HasRecords(y)
    ensures RecordShapes(t, x) == RecordShapes(t, y)
  {
    var xs, ys := RecordShapes(t, x), RecordShapes(t, y);
    SameOutside(t, x, y, 8);
    forall r | 0 <= r < |xs| ensures xs[r] == ys[r] {
      SameRecordAt(t, x, y, r);
      assert ShapesRecord(t, x, xs, r);
      assert ShapesRecord(t, y, ys, r);
    }
  }

  /** Different nodes have different big-endian forms. */
  lemma BigDetermines(t: Tree, x: seq<Byte>, y: seq<Byte>)
    requires NodeFits(t, x) && NodeFits(t, y) && Big(t, x) == Big(t, y)
    ensures x == y
  {
    SameFrame(t, x, y);
    SameOutside(t, x, y, 8);
    if HasRecords(x) {
      SameShapes(t, x, y);
    }
    FlipAtTwice(x, 14, BodyShape(t, x));
    FlipAtTwice(y, 14, BodyShape(t, y));
  }
}
