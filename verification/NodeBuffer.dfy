/**
 * The byte order of a cached B-tree node over its whole life: fetched (GetBTreeBlock), changed,
 * written back (hfs_bwrite), trashed and reclaimed, with only its last word telling its order.
 */
module NodeBuffer {
  import opened Bytes
  import opened ByteOrder
  import opened NodeLayout
  import opened NodeSwap
  import opened NodeFrame
  import opened BTNode

  /** What a node of the file means: cleared and never used since, or a node in native order. */
  datatype Content = Blank | Node(native: seq<Byte>)

  /** A header node names the size of the nodes, which the buffer has. */
  predicate SizeMatches(n: seq<Byte>)
    requires 34 <= |n|
  {
    n[8] == HEADER ==> U16(n, 32) == |n|
  }

  ghost predicate Sound(t: Tree, size: nat, c: Content) {
    && 34 <= size
    && (c.Node? ==> |c.native| == size && NodeFits(t, c.native) && SizeMatches(c.native))
  }

  ghost function Native(t: Tree, size: nat, c: Content): (s: seq<Byte>)
    requires Sound(t, size, c)
    ensures |s| == size
  {
    if c.Blank? then Zeros(size) else c.native
  }

  ghost function OnDisk(t: Tree, size: nat, c: Content): (s: seq<Byte>)
    requires Sound(t, size, c)
    ensures |s| == size
  {
    if c.Blank? then Zeros(size) else Big(t, c.native)
  }

  function Marker(s: seq<Byte>): nat
    requires 2 <= |s|
  {
    U16(s, |s| - 2)
  }

  /** Bytes of the offsets table in the big-endian form. */
  lemma BigTableByte(t: Tree, n: seq<Byte>, p: nat, c: nat, k: nat)
    requires NodeFits(t, n) && p == TableStart(n) && c == Count(n) && k < 2 * (c + 1)
    ensures Big(t, n)[p + k] == n[p + Mate(Words(c + 1), k)]
  {
    var m, table := FlipBody(t, n), Words(c + 1);
    BigIsFrameAndBody(t, n);
    var j := p + Mate(table, k);
    FlipAtByte(FlipAt(m, 0, Descriptor()), p, table, p + k);
    FlipAtByte(m, 0, Descriptor(), j);
    FlipAtByte(n, 14, BodyShape(t, n), j);
  }

  lemma LastWordMates(c: nat)
    ensures Mate(Words(c + 1), 2 * c) == 2 * c + 1 && Mate(Words(c + 1), 2 * c + 1) == 2 * c
  {
    WordMateAt(c + 1, c, 0);
    WordMateAt(c + 1, c, 1);
  }

  lemma FirstOffset(n: seq<Byte>)
    requires OffsetsFit(n)
    ensures n[|n| - 2] == 14 && n[|n| - 1] == 0
  {
    assert Offset(n, 0) == n[|n| - 2] as int + 0x100 * n[|n| - 1] as int;
  }

  lemma NodeMarkers(t: Tree, n: seq<Byte>)
    requires NodeFits(t, n)
    ensures Big(t, n)[|n| - 2] == 0 && Big(t, n)[|n| - 1] == 14
  {
    var p, c := TableStart(n), Count(n);
    FirstOffset(n);
    LastWordMates(c);
    BigTableByte(t, n, p, c, 2 * c);
    BigTableByte(t, n, p, c, 2 * c + 1);
    assert p + 2 * c == |n| - 2;
  }

  /** Native nodes end in 0x000e, big-endian ones read 0x0e00, and cleared ones zero. */
  lemma MarkerTells(t: Tree, size: nat, c: Content)
    requires Sound(t, size, c)
    ensures Marker(Native(t, size, c)) == if c.Node? then 0x000e else 0
    ensures Marker(OnDisk(t, size, c)) == if c.Node? then 0x0e00 else 0
  {
    if c.Node? {
      FirstOffset(c.native);
      NodeMarkers(t, c.native);
    }
  }

  lemma BigBodyByte(t: Tree, n: seq<Byte>, i: nat)
    requires NodeFits(t, n) && 14 <= i < TableStart(n)
    ensures Big(t, n)[i] == FlipBody(t, n)[i]
  {
    var m, p, table := FlipBody(t, n), TableStart(n), Words(Count(n) + 1);
    BigIsFrameAndBody(t, n);
    FlipAtByte(FlipAt(m, 0, Descriptor()), p, table, i);
    FlipAtByte(m, 0, Descriptor(), i);
  }

  lemma FrameKeepsKind(m: seq<Byte>, c: nat)
    requires 14 + 2 * (c + 1) <= |m|
    ensures FlipFrame(m, c)[8] == m[8]
  {
    var rest := Then(Plain(2), Then(Field(2), Plain(2)));
    assert Mate(rest, 0) == 0;
    assert Mate(Descriptor(), 8) == 8;
    FlipAtByte(m, 0, Descriptor(), 8);
    FlipAtByte(FlipAt(m, 0, Descriptor()), |m| - 2 * (c + 1), Words(c + 1), 8);
  }

  lemma BigKind(t: Tree, n: seq<Byte>)
    requires NodeFits(t, n)
    ensures Big(t, n)[8] == n[8]
  {
    BigIsFrameAndBody(t, n);
    FrameKeepsKind(FlipBody(t, n), Count(n));
    FlipAtByte(n, 14, BodyShape(t, n), 8);
  }

  /** Where BTHeaderRec keeps the node size. */
  lemma HeaderSizeField()
    ensures Mate(HeaderRecord(), 18) == 19 && Mate(HeaderRecord(), 19) == 18
  {
    var first, rest := Then(Field(2), Longs(4)), Then(Words(2), Longs(2));
    assert Mate(rest, 0) == 1 && Mate(rest, 1) == 0;
    assert Mate(Then(first, rest), 18) == 19 && Mate(Then(first, rest), 19) == 18;
  }

  function Swap16(v: nat): nat
    requires v < 0x1_0000
  {
    v % 0x100 * 0x100 + v / 0x100
  }

  /** The test for a header read with the wrong block size. */
  predicate Misread(s: seq<Byte>)
    requires 34 <= |s|
  {
    s[8] == HEADER && U16(s, 32) != |s| && Swap16(U16(s, 32)) != |s|
  }

  lemma BigHeaderSize(t: Tree, n: seq<Byte>)
    requires NodeFits(t, n) && n[8] == HEADER
    ensures Big(t, n)[32] == n[33] && Big(t, n)[33] == n[32]
  {
    BigBodyByte(t, n, 32);
    BigBodyByte(t, n, 33);
    HeaderSizeField();
    FlipAtByte(n, 14, HeaderRecord(), 32);
    FlipAtByte(n, 14, HeaderRecord(), 33);
  }

  lemma Swap16Bytes(lo: Byte, hi: Byte)
    ensures Swap16(lo as int + 0x100 * hi as int) == hi as int + 0x100 * lo as int
  {
  }

  lemma NeverMisread(t: Tree, size: nat, c: Content)
    requires Sound(t, size, c)
    ensures !Misread(Native(t, size, c)) && !Misread(OnDisk(t, size, c))
  {
    if c.Node? {
      BigKind(t, c.native);
      if c.native[8] == HEADER {
        BigHeaderSize(t, c.native);
        Swap16Bytes(c.native[33], c.native[32]);
      }
    }
  }

  /** What happens to a node. */
  datatype Step =
    | DoFetch
    | DoFetchEmpty(native: seq<Byte>)
    | DoModify(native: seq<Byte>)
    | DoWrite
    | DoRelease
    | DoTrash
    | DoSync
    | DoReclaim

  /** The node without byte order or cache: its content, the content that was written, and whether it is held. */
  datatype Meaning = Meaning(current: Content, written: Content, held: bool)

  ghost predicate Enabled(t: Tree, size: nat, m: Meaning, step: Step) {
    match step
    case DoFetch => !m.held
    case DoFetchEmpty(n) => !m.held && Sound(t, size, Node(n))
    case DoModify(n) => m.held && Sound(t, size, Node(n))
    case DoWrite => m.held
    case DoRelease => m.held && m.current == m.written
    case DoTrash => m.held
    case DoSync => !m.held
    case DoReclaim => !m.held
  }

  function Apply(m: Meaning, step: Step): Meaning {
    match step
    case DoFetch => m.(held := true)
    case DoFetchEmpty(n) => m.(current := Node(n), held := true)
    case DoModify(n) => m.(current := Node(n))
    case DoWrite => m.(written := m.current, held := false)
    case DoRelease => m.(held := false)
    case DoTrash => m.(current := m.written, held := false)
    case DoSync => m
    case DoReclaim => m
  }

  ghost predicate Allowed(t: Tree, size: nat, m: Meaning, steps: seq<Step>)
    decreases |steps|
  {
    steps == [] || (Enabled(t, size, m, steps[0]) && Allowed(t, size, Apply(m, steps[0]), steps[1..]))
  }

  function Outcome(m: Meaning, steps: seq<Step>): Meaning
    decreases |steps|
  {
    if steps == [] then m else Outcome(Apply(m, steps[0]), steps[1..])
  }

  /** The contents that the fetches of a run see. */
  function Seen(m: Meaning, steps: seq<Step>): seq<Content>
    decreases |steps|
  {
    if steps == [] then []
    else (if steps[0].DoFetch? then [m.current] else []) + Seen(Apply(m, steps[0]), steps[1..])
  }

  ghost predicate IsNative(t: Tree, size: nat, s: seq<Byte>, c: Content) {
    Sound(t, size, c) && s == Native(t, size, c)
  }

  /** Buffers that hold these contents in native order. */
  ghost predicate AllNative(t: Tree, size: nat, seen: seq<seq<Byte>>, contents: seq<Content>) {
    && |seen| == |contents|
    && forall i {:trigger IsNative(t, size, seen[i], contents[i])} | 0 <= i < |seen| ::
         IsNative(t, size, seen[i], contents[i])
  }

  lemma AllNativePlus(t: Tree, size: nat, one: seq<Byte>, c: Content, seen: seq<seq<Byte>>, contents: seq<Content>)
    requires IsNative(t, size, one, c) && AllNative(t, size, seen, contents)
    ensures AllNative(t, size, [one] + seen, [c] + contents)
  {
    forall i | 0 <= i <= |seen| ensures IsNative(t, size, ([one] + seen)[i], ([c] + contents)[i]) {
      if i > 0 {
        assert IsNative(t, size, seen[i - 1], contents[i - 1]);
      }
    }
  }

  /** One node of the B-tree file: its buffer, when there is one, and its block on disk. */
  class NodeBlock {
    const tree: Tree
    const size: nat
    const buffer: array<Byte>
    var cached: bool
    var held: bool
    var disk: seq<Byte>
    ghost var current: Content
    ghost var written: Content

    ghost predicate Valid()
      reads this, buffer
    {
      && buffer.Length == size
      && Sound(tree, size, current) && Sound(tree, size, written)
      && disk == OnDisk(tree, size, written)
      && (cached ==> buffer[..] == OnDisk(tree, size, current) || buffer[..] == Native(tree, size, current))
      && (held ==> cached && buffer[..] == Native(tree, size, current))
      && (!held ==> current == written)
    }

    /** A node cleared on disk (ClearBTNodes) and not cached. */
    constructor (t: Tree, n: nat)
      requires 34 <= n
      ensures Valid() && tree == t && size == n && !held && !cached
      ensures current == Blank && written == Blank
      ensures fresh(buffer)
    {
      tree, size := t, n;
      buffer := new Byte[n];
      cached, held := false, false;
      disk := Zeros(n);
      current, written := Blank, Blank;
    }

    /** bread: the block as the cache has it, else from disk. */
    method Read()
      requires Valid() && !held
      modifies this`cached, buffer
      ensures Valid() && cached
    {
      if !cached {
        forall i | 0 <= i < buffer.Length {
          buffer[i] := disk[i];
        }
        assert buffer[..] == disk;
        cached := true;
      }
    }

    /**
     * GetBTreeBlock: swap only if the marker reads big-endian. The node handed out is native,
     * whichever way it came.
     */
    method Fetch() returns (misread: bool, panic: bool)
      requires Valid() && !held
      modifies this`cached, this`held, buffer
      ensures Valid() && held
      ensures !misread && !panic
      ensures buffer[..] == Native(tree, size, current)
    {
      Read();
      NeverMisread(tree, size, current);
      MarkerTells(tree, size, current);
      misread, panic := Misread(buffer[..]), false;
      if !misread && WordAt(buffer, size - 2) == 0x0e00 {
        panic := Swap(buffer, tree, current.native);
      }
      held := true;
    }

    /** GetBTreeBlock with kGetEmptyBlock: nothing is read, and the holder fills in the whole node. */
    method FetchEmpty(n: seq<Byte>)
      requires Valid() && !held && Sound(tree, size, Node(n))
      modifies this, buffer
      ensures Valid() && held && current == Node(n)
      ensures disk == old(disk) && written == old(written)
    {
      forall i | 0 <= i < buffer.Length {
        buffer[i] := n[i];
      }
      assert buffer[..] == n;
      cached, held := true, true;
      current := Node(n);
    }

    /** The holder changes the node, leaving it well formed. */
    method Modify(n: seq<Byte>)
      requires Valid() && held && Sound(tree, size, Node(n))
      modifies this`current, buffer
      ensures Valid() && current == Node(n)
    {
      forall i | 0 <= i < buffer.Length {
        buffer[i] := n[i];
      }
      assert buffer[..] == n;
      current := Node(n);
    }

    /**
     * hfs_bwrite, by the holder or by a sync: unswap only if the marker reads native. What reaches
     * the disk is big-endian, and the buffer stays behind in that order.
     */
    method Write() returns (panic: bool)
      requires Valid() && cached
      modifies this`held, this`disk, this`written, buffer
      ensures Valid() && !held && !panic
      ensures written == current && disk == OnDisk(tree, size, current)
    {
      MarkerTells(tree, size, current);
      panic := false;
      if WordAt(buffer, size - 2) == 0x000e {
        panic := Unswap(buffer, tree);
      }
      disk := buffer[..];
      written := current;
      held := false;
    }

    /** ReleaseBTreeBlock of a node that was not changed. */
    method Release()
      requires Valid() && held && current == written
      modifies this`held
      ensures Valid() && !held
    {
      held := false;
    }

    /** ReleaseBTreeBlock with kTrashBlock: the buffer is invalidated, changes are lost. */
    method Trash()
      requires Valid() && held
      modifies this`held, this`cached, this`current
      ensures Valid() && !held && !cached && current == written
    {
      cached, held := false, false;
      current := written;
    }

    /** The cache takes the buffer of a node nobody holds. */
    method Reclaim()
      requires Valid() && !held
      modifies this`cached
      ensures Valid() && !cached
    {
      cached := false;
    }

    ghost function Means(): Meaning
      reads this
    {
      Meaning(current, written, held)
    }

    /** One step of a run; `seen` is the buffer a fetch hands out. */
    method Perform(step: Step) returns (seen: seq<Byte>)
      requires Valid() && Enabled(tree, size, Means(), step)
      modifies this, buffer
      ensures Valid() && Means() == Apply(old(Means()), step)
      ensures step.DoFetch? ==> IsNative(tree, size, seen, old(current))
    {
      seen := [];
      match step {
        case DoFetch =>
          var _, _ := Fetch();
          seen := buffer[..];
        case DoFetchEmpty(n) => FetchEmpty(n);
        case DoModify(n) => Modify(n);
        case DoWrite => var _ := Write();
        case DoRelease => Release();
        case DoTrash => Trash();
        case DoSync =>
          if cached {
            var _ := Write();
          }
        case DoReclaim => Reclaim();
      }
    }

    /**
     * Over every run: fetched nodes are native and are the ones last stored, what is on disk is
     * big-endian, and no node is turned twice.
     */
    method Run(steps: seq<Step>) returns (seen: seq<seq<Byte>>)
      requires Valid() && Allowed(tree, size, Means(), steps)
      modifies this, buffer
      ensures Valid() && Means() == Outcome(old(Means()), steps)
      ensures disk == OnDisk(tree, size, written)
      ensures AllNative(tree, size, seen, Seen(old(Means()), steps))
      decreases |steps|
    {
      if steps == [] {
        seen := [];
      } else {
        ghost var m, rest := Means(), steps[1..];
        var one := Perform(steps[0]);
        seen := Run(steps[1..]);
        if steps[0].DoFetch? {
          AllNativePlus(tree, size, one, m.current, seen, Seen(Apply(m, steps[0]), rest));
          seen := [one] + seen;
        }
      }
    }
  }
}
