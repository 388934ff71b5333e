/** Whole B-tree nodes: from big-endian to native order and back (hfs_swap_BTNode). */
module BTNode {
  import opened Bytes
  import opened ByteOrder
  import opened Held
  import opened ShapeChain
  import opened NodeLayout
  import opened NodeSwap
  import opened NodeFrame

  /** The node between its two passes: descriptor and offsets native, records not yet turned. */
  ghost function Midway(t: Tree, n: seq<Byte>, unswap: bool): (m: seq<Byte>)
    requires NodeFits(t, n)
    ensures |m| == |n|
  {
    if unswap then n else FlipBody(t, n)
  }

  /** Bytes outside the records are native midway, and stay so while records are turned. */
  lemma MidwayWord(t: Tree, n: seq<Byte>, unswap: bool, q: nat)
    requires NodeFits(t, n) && q + 2 <= |n| && (q + 2 <= 14 || TableStart(n) <= q)
    ensures U16(Midway(t, n, unswap), q) == U16(n, q)
    ensures Midway(t, n, unswap)[q] == n[q]
  {
    FlipAtByte(n, 14, BodyShape(t, n), q);
    FlipAtByte(n, 14, BodyShape(t, n), q + 1);
  }

  // Records.

  /** The records in native order, from the first one to the free space. */
  ghost function Records(n: seq<Byte>): seq<Byte>
    requires OffsetsFit(n)
  {
    OffsetsAbove(n, Count(n));
    n[14..Offset(n, Count(n))]
  }

  lemma RecordsHeld(t: Tree, n: seq<Byte>, unswap: bool)
    requires NodeFits(t, n) && HasRecords(n)
    ensures HoldsChain(Midway(t, n, unswap), 14, Records(n), RecordShapes(t, n), unswap)
    ensures Place(RecordShapes(t, n), 14, Count(n)) <= TableStart(n)
  {
    RecordsPlaced(t, n, Count(n));
    ChainEnds(RecordShapes(t, n), 14, 0);
    HeldInPlace(n, 14, BodyShape(t, n));
  }

  lemma SliceOfSlice(n: seq<Byte>, p: nat, a: nat, b: nat, e: nat)
    requires p <= a <= b <= e <= |n|
    ensures n[p..e][a - p..b - p] == n[a..b]
  {
    SameBytes(n[p..e][a - p..b - p], n[a..b]);
  }

  lemma RecordIsLink(t: Tree, n: seq<Byte>, r: nat)
    requires NodeFits(t, n) && HasRecords(n) && r < Count(n)
    ensures Place(RecordShapes(t, n), 14, r) == Offset(n, r) && Place(RecordShapes(t, n), 14, r + 1) == Offset(n, r + 1)
    ensures 14 <= Offset(n, r) && Offset(n, r + 1) - 14 <= |Records(n)|
    ensures Link(14, Records(n), RecordShapes(t, n), r) == Record(n, r)
  {
    RecordsPlaced(t, n, r);
    RecordsPlaced(t, n, r + 1);
    OffsetsAbove(n, r);
    OffsetsBelow(n, r + 1);
    SliceOfSlice(n, 14, Offset(n, r), Offset(n, r + 1), Offset(n, Count(n)));
  }

  /** The offsets stay readable while the records are turned. */
  lemma TurnedWord(t: Tree, n: seq<Byte>, unswap: bool, r: nat, q: nat)
    requires NodeFits(t, n) && HasRecords(n) && r <= Count(n)
    requires TableStart(n) <= q && q + 2 <= |n|
    requires Place(RecordShapes(t, n), 14, Count(n)) <= TableStart(n)
    ensures U16(TurnedFrom(Midway(t, n, unswap), 14, RecordShapes(t, n), r), q) == U16(n, q)
  {
    var shapes := RecordShapes(t, n);
    MidwayWord(t, n, unswap, q);
    ChainEnds(shapes, 14, r);
    WordOutside(Midway(t, n, unswap), Place(shapes, 14, r), Chain(shapes, r), q);
  }

  /** The step from record `r + 1` to record `r`. */
  lemma NextRecord(t: Tree, n: seq<Byte>, unswap: bool, r: nat, rec: seq<Byte>, sh: Shape, before: seq<Byte>)
    requires NodeFits(t, n) && HasRecords(n) && r < Count(n)
    requires Place(RecordShapes(t, n), 14, Count(n)) <= |n|
    requires before == TurnedFrom(Midway(t, n, unswap), 14, RecordShapes(t, n), r + 1)
    requires rec == Record(n, r) && sh == RecordShapes(t, n)[r]
    ensures U16(before, |n| - 2 * (r + 1)) == Offset(n, r)
    ensures Holds(before, Offset(n, r), rec, sh, unswap)
    ensures FlipAt(before, Offset(n, r), sh) == TurnedFrom(Midway(t, n, unswap), 14, RecordShapes(t, n), r)
  {
    RecordsHeld(t, n, unswap);
    TurnedWord(t, n, unswap, r + 1, |n| - 2 * (r + 1));
    OneMoreTurned(Midway(t, n, unswap), 14, Records(n), RecordShapes(t, n), unswap, r);
    RecordIsLink(t, n, r);
  }

  /** One record, found through the table. */
  method SwapRecordAt(buf: array<Byte>, t: Tree, index: bool, unswap: bool, r: nat, ghost n: seq<Byte>)
      returns (panic: bool)
    requires NodeFits(t, n) && HasRecords(n) && r < Count(n) && index == (n[8] == INDEX)
    requires Place(RecordShapes(t, n), 14, Count(n)) <= |n|
    requires buf[..] == TurnedFrom(Midway(t, n, unswap), 14, RecordShapes(t, n), r + 1)
    modifies buf
    ensures !panic
    ensures buf[..] == TurnedFrom(Midway(t, n, unswap), 14, RecordShapes(t, n), r)
  {
    NextRecord(t, n, unswap, r, Record(n, r), RecordShapes(t, n)[r], buf[..]);
    assert RecordAtFits(t, n, r);
    assert ShapesRecord(t, n, RecordShapes(t, n), r);
    var offset := WordAt(buf, buf.Length - 2 * (r + 1));
    panic := SwapRecord(buf, offset, t, index, unswap, Record(n, r));
  }

  /** Records of index and leaf nodes, in the order of the table: last record first. */
  method SwapRecords(buf: array<Byte>, t: Tree, unswap: bool, ghost n: seq<Byte>) returns (panic: bool)
    requires NodeFits(t, n) && HasRecords(n)
    requires buf[..] == Midway(t, n, unswap)
    modifies buf
    ensures !panic
    ensures buf[..] == FlipAt(old(buf[..]), 14, BodyShape(t, n))
  {
    ghost var shapes := RecordShapes(t, n);
    MidwayWord(t, n, unswap, 8);
    MidwayWord(t, n, unswap, 10);
    RecordsHeld(t, n, unswap);
    NoneTurned(buf[..], 14, shapes);
    var count, index := WordAt(buf, 10), buf[8] == INDEX;
    var r := count;
    panic := false;
    while r > 0
      invariant r <= count && !panic
      invariant buf[..] == TurnedFrom(Midway(t, n, unswap), 14, shapes, r)
    {
      r := r - 1;
      var failed := SwapRecordAt(buf, t, index, unswap, r, n);
      panic := panic || failed;
    }
  }

  /** Records or header record, by the kind of the node; map nodes are left to the bitmap code. */
  method SwapBody(buf: array<Byte>, t: Tree, unswap: bool, ghost n: seq<Byte>) returns (panic: bool)
    requires NodeFits(t, n)
    requires buf[..] == Midway(t, n, unswap)
    modifies buf
    ensures !panic
    ensures buf[..] == FlipAt(old(buf[..]), 14, BodyShape(t, n))
  {
    MidwayWord(t, n, unswap, 8);
    var kind := buf[8];
    panic := false;
    if kind == INDEX || kind == LEAF {
      panic := SwapRecords(buf, t, unswap, n);
    } else if kind == HEADER {
      SwapShape(buf, 14, HeaderRecord());
    } else {
      FlipAtPlain(buf[..], 14, 0);
    }
  }

  // Nodes.

  lemma OffsetsInside(t: Tree, n: seq<Byte>, unswap: bool)
    requires NodeFits(t, n)
    ensures TableFits(Midway(t, n, unswap)) && Count(Midway(t, n, unswap)) == Count(n)
    ensures TableInside(Midway(t, n, unswap), Count(n) + 1)
  {
    var m, c := Midway(t, n, unswap), Count(n) + 1;
    MidwayWord(t, n, unswap, 10);
    forall i | 0 <= i < c ensures U16(m, |m| - 2 * c + 2 * i) < |m| {
      var r := c - 1 - i;
      OffsetsBelow(n, r);
      MidwayWord(t, n, unswap, |m| - 2 * (r + 1));
    }
  }

  /**
   * hfs_swap_BTNode, swapping: the big-endian form of any well-formed node becomes that node,
   * and no panic is reached on the way.
   */
  method Swap(buf: array<Byte>, t: Tree, ghost n: seq<Byte>) returns (panic: bool)
    requires NodeFits(t, n) && buf[..] == Big(t, n)
    modifies buf
    ensures !panic
    ensures buf[..] == n
  {
    BigIsFrameAndBody(t, n);
    OffsetsInside(t, n, false);
    FlipAtTwice(n, 14, BodyShape(t, n));
    var first := SwapFrame(buf, Midway(t, n, false));
    var second := SwapBody(buf, t, false, n);
    panic := first || second;
  }

  lemma FrameKept(t: Tree, n: seq<Byte>)
    requires NodeFits(t, n)
    ensures TableFits(FlipBody(t, n)) && Count(FlipBody(t, n)) == Count(n)
    ensures TableInside(FlipBody(t, n), Count(n) + 1)
    ensures FlipFrame(FlipBody(t, n), Count(n)) == Big(t, n)
  {
    OffsetsInside(t, n, false);
    BigIsFrameAndBody(t, n);
  }

  /** hfs_swap_BTNode, unswapping: any well-formed node becomes its big-endian form. */
  method Unswap(buf: array<Byte>, t: Tree) returns (panic: bool)
    requires NodeFits(t, buf[..])
    modifies buf
    ensures !panic
    ensures buf[..] == Big(t, old(buf[..]))
  {
    ghost var n := buf[..];
    var first := SwapBody(buf, t, true, n);
    FrameKept(t, n);
    var second := UnswapFrame(buf);
    panic := first || second;
  }

  /** Unswapping and swapping again gives the node back, and the other way round. */
  method RoundTrips(native: array<Byte>, big: array<Byte>, t: Tree, ghost n: seq<Byte>)
    requires native != big && NodeFits(t, native[..])
    requires NodeFits(t, n) && big[..] == Big(t, n)
    modifies native, big
    ensures native[..] == old(native[..])
    ensures big[..] == old(big[..])
  {
    var _ := Unswap(native, t);
    var _ := Swap(native, t, old(native[..]));
    var _ := Swap(big, t, n);
    var _ := Unswap(big, t);
  }
}
