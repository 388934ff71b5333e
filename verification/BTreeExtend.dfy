/** Growing a B-tree file by whole nodes (hfs_btreeio.c: ExtendBTreeFile and ClearBTNodes). */
module BTreeExtend {
  import opened Bytes
  import opened Arith

  const E_NONE := 0
  const DSK_FUL_ERR := -34

  // What is done with the space that was obtained.

  /**
   * The size the file is cut back to, once `added` bytes were added to `space` bytes of a file
   * that ended at `eof`.
   */
  function Target(eof: nat, space: nat, added: nat, minEOF: nat, node: nat): (t: nat)
    requires 0 < node && eof <= space
    ensures t <= space + added
  {
    if space + added < minEOF then eof else space + added - Excess(added, node)
  }

  /** A file that is too small must have grown by exactly what was added, and must end on a node boundary. */
  predicate Panics(eof: nat, space: nat, added: nat, minEOF: nat, block: nat, node: nat)
    requires 0 < node && 0 < block && eof <= space
  {
    || (space + added < minEOF && space + added - eof != added)
    || Excess(RoundUp(Target(eof, space, added, minEOF, node), block), node) != 0
  }

  /** Block and node sizes divide one another, as powers of two do. */
  ghost predicate Sizes(block: nat, node: nat) {
    0 < block && 0 < node && (Divides(block, node) || Divides(node, block))
  }

  /** Cutting to whole nodes leaves whole blocks. */
  lemma WholeNodes(added: nat, block: nat, node: nat)
    requires Sizes(block, node) && Divides(block, added)
    ensures Divides(node, added - Excess(added, node)) && Divides(block, added - Excess(added, node))
  {
    ExcessDivides(added, node);
    if Divides(block, node) {
      DividesTransitive(block, node, added - Excess(added, node));
    } else {
      DividesTransitive(node, block, added);
      NoExcess(added, node);
    }
  }

  lemma WholeTarget(space: nat, added: nat, block: nat, node: nat)
    requires Sizes(block, node) && Divides(block, added) && Divides(block, space) && Divides(node, space)
    ensures var t := space + added - Excess(added, node); Divides(node, t) && Divides(block, t)
  {
    WholeNodes(added, block, node);
    DividesSum(node, space, added - Excess(added, node));
    DividesSum(block, space, added - Excess(added, node));
  }

  /** What remains of enough space after the cut is still enough. */
  lemma EnoughLeft(space: nat, added: nat, minEOF: nat, node: nat)
    requires 0 < node && Divides(node, space) && Divides(node, minEOF) && minEOF <= space + added
    ensures minEOF <= space + added - Excess(added, node)
  {
    ExcessDivides(added, node);
    var t := space + (added - Excess(added, node));
    DividesSum(node, space, added - Excess(added, node));
    DividesSum(node, minEOF, t);
    if minEOF > t {
      DivisorAtMost(node, minEOF - t);
    }
  }

  /** When nothing panics whatever the allocator grants, as a caller can tell beforehand. */
  predicate Safe(eof: nat, space: nat, minEOF: nat, node: nat)
    requires 0 < node
  {
    eof == space || (Excess(space, node) == 0 && minEOF <= space)
  }

  lemma SafeHolds(eof: nat, space: nat, added: nat, minEOF: nat, block: nat, node: nat)
    requires Sizes(block, node) && Divides(node, eof) && Divides(block, space) && Divides(block, added)
    requires eof <= space && Safe(eof, space, minEOF, node)
    ensures !Panics(eof, space, added, minEOF, block, node)
    ensures var t := Target(eof, space, added, minEOF, node);
            Divides(node, t) && Divides(block, t) && RoundUp(t, block) == t
    ensures Divides(node, space)
  {
    NoExcess(space, node);
    WholeTarget(space, added, block, node);
    var t := Target(eof, space, added, minEOF, node);
    RoundUpMultiple(t, block);
    NoExcess(t, node);
  }

  /**
   * No panic is possible if and only if the file ends where its space ends, or its space is already
   * enough and ends on a node boundary.
   */
  lemma SafeIff(eof: nat, space: nat, minEOF: nat, block: nat, node: nat)
    requires Sizes(block, node) && Divides(node, eof) && Divides(block, space) && eof <= space
    ensures Safe(eof, space, minEOF, node) <==>
            forall added: nat | Divides(block, added) :: !Panics(eof, space, added, minEOF, block, node)
  {
    if Safe(eof, space, minEOF, node) {
      forall added: nat | Divides(block, added) ensures !Panics(eof, space, added, minEOF, block, node) {
        SafeHolds(eof, space, added, minEOF, block, node);
      }
    } else {
      ZeroMultiple(block);
      RoundUpMultiple(space, block);
      assert Panics(eof, space, 0, minEOF, block, node);
    }
  }

  /** A file of one node that has one block more, on a full disk: its size is not what was added to it. */
  lemma PanicHappens()
    ensures Sizes(512, 4096) && Divides(4096, 4096) && Divides(512, 4608) && Divides(512, 0)
    ensures !Safe(4096, 4608, 8192, 4096) && Panics(4096, 4608, 0, 8192, 512, 4096)
  {
    assert 4096 == Times(8, 512) && 4096 == Times(1, 4096) && 4608 == Times(9, 512);
    ZeroMultiple(512);
  }

  /** The file before its new nodes are cleared, where nothing panics. */
  ghost predicate Settled(
      was: seq<Byte>, eof: nat, s: seq<Byte>, added: nat, minEOF: nat, retval: int, block: nat, node: nat) {
    && Sizes(block, node) && Divides(node, |s|) && Divides(block, |s|)
    && (if retval == E_NONE then |s| >= minEOF else retval == DSK_FUL_ERR && |s| == eof)
    && |s| == |was| + added && s[..|was|] == was
    && Excess(|was|, node) == 0 && Excess(added, node) == 0
  }

  lemma SettledOnce(
      was: seq<Byte>, eof: nat, full: seq<Byte>, s: seq<Byte>, grown: nat, minEOF: nat, block: nat, node: nat)
    requires Sizes(block, node) && Divides(node, eof) && Divides(node, minEOF) && eof <= |was|
    requires Divides(block, |was|) && Divides(block, grown) && Safe(eof, |was|, minEOF, node)
    requires |full| == |was| + grown && full[..|was|] == was
    requires |s| == Target(eof, |was|, grown, minEOF, node) && s == full[..|s|]
    ensures var small := |full| < minEOF;
            Settled(was, eof, s, if small then 0 else grown - Excess(grown, node), minEOF,
                    if small then DSK_FUL_ERR else E_NONE, block, node)
  {
    SafeHolds(eof, |was|, grown, minEOF, block, node);
    NoExcess(|was|, node);
    WholeNodes(grown, block, node);
    NoExcess(grown - Excess(grown, node), node);
    if |full| >= minEOF {
      EnoughLeft(|was|, grown, minEOF, node);
    }
  }

  // What the allocator is asked for.

  /** An answer of the allocator: its result code, and the blocks it added. */
  datatype Grant = Grant(retval: int, blocks: nat)

  /** Its answers, in the order in which it is asked. */
  type Allocator = nat -> Grant

  /** Result code and bytes added; success means at least what was asked for. */
  function Answer(g: Grant, bytesToAdd: nat, block: nat): (r: (int, nat)) {
    MulMonotone(0, g.blocks, block);
    var added := g.blocks * block;
    (if g.retval == E_NONE && added < bytesToAdd then DSK_FUL_ERR else g.retval, added)
  }

  /** The disk is full, and nothing was added. */
  predicate Nothing(r: (int, nat)) {
    r == (DSK_FUL_ERR, 0)
  }

  /** Half as much in whole nodes, but at least one node. */
  function Halved(bytes: nat, node: nat): (h: nat)
    requires 0 < node
  {
    if bytes / 2 < node then node else bytes / 2 - Excess(bytes / 2, node)
  }

  /** There is nothing smaller to ask for, or it would be of no use. */
  predicate Least(bytes: nat, need: nat, node: nat) {
    bytes == node || bytes < need
  }

  predicate NextTry(amounts: seq<nat>, need: nat, node: nat, i: nat)
    requires 0 < i < |amounts| && 0 < node
  {
    !Least(amounts[i - 1], need, node) && amounts[i] == Halved(amounts[i - 1], node)
  }

  /** The amounts asked for: at least `need` and a clump, then half as much each time. */
  ghost predicate Tries(amounts: seq<nat>, need: nat, clump: nat, node: nat)
    requires 0 < node
  {
    && amounts != [] && amounts[0] == Max(need, clump)
    && forall i: nat {:trigger NextTry(amounts, need, node, i)} | 0 < i < |amounts| :: NextTry(amounts, need, node, i)
  }

  predicate NothingAt(answers: Allocator, amounts: seq<nat>, block: nat, i: nat)
    requires i < |amounts|
  {
    Nothing(Answer(answers(i), amounts[i], block))
  }

  /** The first `n` answers were for nothing. */
  ghost predicate Fruitless(answers: Allocator, amounts: seq<nat>, n: nat, block: nat)
    requires n <= |amounts|
  {
    forall i: nat {:trigger NothingAt(answers, amounts, block, i)} | i < n :: NothingAt(answers, amounts, block, i)
  }

  /** All answers but the last were for nothing; the last one is `r`, and no other amount is worth a try. */
  ghost predicate Answers(
      answers: Allocator, amounts: seq<nat>, r: (int, nat), need: nat, block: nat, node: nat) {
    && amounts != []
    && Fruitless(answers, amounts, |amounts| - 1, block)
    && r == Answer(answers(|amounts| - 1), amounts[|amounts| - 1], block)
    && (Nothing(r) ==> Least(amounts[|amounts| - 1], need, node))
  }

  /** On a disk with `room` bytes in one piece, which is all that is looked for. */
  ghost predicate InOnePiece(answers: Allocator, amounts: seq<nat>, room: nat, block: nat)
    requires 0 < block
  {
    forall i: nat | i < |amounts| ::
      Answer(answers(i), amounts[i], block) ==
      if amounts[i] <= room then (E_NONE, RoundUp(amounts[i], block)) else (DSK_FUL_ERR, 0)
  }

  /** Halving `bytes` until it fits the room ends with enough. */
  predicate Reaches(bytes: nat, need: nat, room: nat, block: nat, node: nat)
    requires 0 < block && 0 < node <= need
  {
    if bytes <= room then RoundUp(bytes, block) >= need
    else if Least(bytes, need, node) then false
    else
      HalvedLess(bytes, node);
      Reaches(Halved(bytes, node), need, room, block, node)
  }

  lemma HalvedLess(bytes: nat, node: nat)
    requires 0 < node < bytes
    ensures node <= Halved(bytes, node) < bytes && Divides(node, Halved(bytes, node))
  {
    var half := bytes / 2;
    if half < node {
      assert node == Times(1, node);
    } else {
      ExcessDivides(half, node);
      DivisorAtMost(node, half - Excess(half, node));
    }
  }

  lemma {:induction false} ReachesFrom(
      answers: Allocator, amounts: seq<nat>, i: nat, r: (int, nat), need: nat, clump: nat, room: nat, block: nat,
      node: nat)
    requires 0 < block && 0 < node <= need && i < |amounts| && Tries(amounts, need, clump, node)
    requires Answers(answers, amounts, r, need, block, node) && InOnePiece(answers, amounts, room, block)
    ensures Reaches(amounts[i], need, room, block, node) <==> r.1 >= need
    decreases |amounts| - i
  {
    if i < |amounts| - 1 {
      assert NothingAt(answers, amounts, block, i);
      assert NextTry(amounts, need, node, i + 1);
      ReachesFrom(answers, amounts, i + 1, r, need, clump, room, block, node);
    }
  }

  /** Room in one piece is found if and only if halving the first amount hits on it. */
  lemma RoomFoundIff(
      answers: Allocator, amounts: seq<nat>, r: (int, nat), need: nat, clump: nat, room: nat, block: nat, node: nat)
    requires 0 < block && 0 < node <= need && Tries(amounts, need, clump, node)
    requires Answers(answers, amounts, r, need, block, node) && InOnePiece(answers, amounts, room, block)
    ensures r.1 >= need <==> Reaches(Max(need, clump), need, room, block, node)
    ensures need <= room && (clump <= need || clump <= room) ==> r.1 >= need
  {
    ReachesFrom(answers, amounts, 0, r, need, clump, room, block, node);
    if need <= room && (clump <= need || clump <= room) {
      RoundUpDivides(Max(need, clump), block);
    }
  }

  /** Six nodes are needed and seven are free in one piece, but ten are asked for, and then five. */
  lemma RoomMissed()
    ensures !Reaches(40960, 24576, 28672, 4096, 4096)
  {
    assert Halved(40960, 4096) == 20480 by {
      assert 20480 == Times(5, 4096);
      NoExcess(20480, 4096);
    }
    assert RoundUp(20480, 4096) == 20480 by {
      assert 20480 == Times(5, 4096);
      RoundUpMultiple(20480, 4096);
    }
  }

  /** `n` bytes from `p` on were zeroed. */
  ghost predicate ClearedIn(was: seq<Byte>, s: seq<Byte>, p: nat, n: nat) {
    |s| == |was| && forall i | 0 <= i < |s| :: s[i] == if p <= i < p + n then 0 else was[i]
  }

  // The file.

  class BTreeFile {
    const blockSize: nat
    const nodeSize: nat
    const clumpSize: nat
    /** The bytes of the allocation blocks of the file. */
    var space: seq<Byte>
    var eof: nat

    ghost predicate Valid()
      reads this
    {
      && Sizes(blockSize, nodeSize)
      && Divides(blockSize, |space|) && Divides(nodeSize, eof) && eof <= |space|
    }

    /** ExtendFileC: any number of blocks, with any contents. */
    method ExtendFileC(bytesToAdd: nat, answer: Grant) returns (retval: int, added: nat)
      requires 0 < blockSize && Divides(blockSize, |space|)
      modifies this`space
      ensures Divides(blockSize, added) && |space| == |old(space)| + added
      ensures Divides(blockSize, |space|)
      ensures space[..|old(space)|] == old(space)
      ensures (retval, added) == Answer(answer, bytesToAdd, blockSize)
    {
      var r := Answer(answer, bytesToAdd, blockSize);
      retval, added := r.0, r.1;
      MultipleDivides(answer.blocks, blockSize);
      DividesSum(blockSize, |space|, added);
      var bytes := new Byte[added];
      space := space + bytes[..];
    }

    /** TruncateFileC: down to whole blocks. */
    method TruncateFileC(peof: nat)
      requires 0 < blockSize && Divides(blockSize, |space|) && RoundUp(peof, blockSize) <= |space|
      modifies this`space
      ensures |space| == RoundUp(peof, blockSize) && space == old(space)[..|space|]
    {
      space := space[..RoundUp(peof, blockSize)];
    }

    /** A smaller amount to ask for, still in whole nodes. */
    method Halve(bytesToAdd: nat) returns (bytes: nat)
      requires 0 < nodeSize < bytesToAdd
      ensures bytes == Halved(bytesToAdd, nodeSize)
      ensures nodeSize <= bytes < bytesToAdd && Divides(nodeSize, bytes)
    {
      HalvedLess(bytesToAdd, nodeSize);
      bytes := bytesToAdd / 2;
      if bytes < nodeSize {
        bytes := nodeSize;
      } else {
        var over := Remainder(bytes, nodeSize);
        bytes := bytes - over;
      }
    }

    /** The loop: ask for less and less until something is granted or nothing is left to try. */
    method Obtain(minEOF: nat, answers: Allocator) returns (retval: int, added: nat, ghost amounts: seq<nat>)
      requires Valid() && eof < minEOF && Divides(nodeSize, minEOF)
      modifies this`space
      ensures Divides(blockSize, added) && |space| == |old(space)| + added
      ensures Divides(blockSize, |space|)
      ensures space[..|old(space)|] == old(space)
      ensures Tries(amounts, minEOF - eof, clumpSize, nodeSize)
      ensures Answers(answers, amounts, (retval, added), minEOF - eof, blockSize, nodeSize)
    {
      DividesSum(nodeSize, minEOF, eof);
      DivisorAtMost(nodeSize, minEOF - eof);
      var bytesToAdd := Max(minEOF - eof, clumpSize);
      var i: nat := 0;
      amounts := [bytesToAdd];
      retval, added := ExtendFileC(bytesToAdd, answers(i));
      while retval == DSK_FUL_ERR && added == 0 && !(bytesToAdd == nodeSize || bytesToAdd < minEOF - eof)
        invariant nodeSize <= bytesToAdd
        invariant |amounts| == i + 1 && amounts[i] == bytesToAdd
        invariant Tries(amounts, minEOF - eof, clumpSize, nodeSize)
        invariant Fruitless(answers, amounts, i, blockSize)
        invariant (retval, added) == Answer(answers(i), bytesToAdd, blockSize)
        invariant Divides(blockSize, added) && |space| == |old(space)| + added
        invariant Divides(blockSize, |space|)
        invariant space[..|old(space)|] == old(space)
        decreases bytesToAdd
      {
        ghost var before := amounts;
        bytesToAdd := Halve(bytesToAdd);
        i, amounts := i + 1, amounts + [bytesToAdd];
        retval, added := ExtendFileC(bytesToAdd, answers(i));
        MoreTries(answers, before, minEOF - eof, clumpSize, blockSize, nodeSize, bytesToAdd);
      }
    }

    static lemma MoreTries(
        answers: Allocator, amounts: seq<nat>, need: nat, clump: nat, block: nat, node: nat, bytes: nat)
      requires 0 < node && Tries(amounts, need, clump, node) && Fruitless(answers, amounts, |amounts| - 1, block)
      requires NothingAt(answers, amounts, block, |amounts| - 1)
      requires !Least(amounts[|amounts| - 1], need, node) && bytes == Halved(amounts[|amounts| - 1], node)
      ensures Tries(amounts + [bytes], need, clump, node)
      ensures Fruitless(answers, amounts + [bytes], |amounts|, block)
    {
      var more := amounts + [bytes];
      forall i: nat | i < |amounts| ensures NothingAt(answers, more, block, i) {
        assert NothingAt(answers, amounts, block, i);
      }
      forall i: nat | 0 < i < |more| ensures NextTry(more, need, node, i) {
        assert i < |amounts| ==> NextTry(amounts, need, node, i);
      }
    }

    /** One node. */
    method ClearNode(p: nat)
      requires p + nodeSize <= |space|
      modifies this`space
      ensures ClearedIn(old(space), space, p, nodeSize)
    {
      space := space[..p] + Zeros(nodeSize) + space[p + nodeSize..];
    }

    /** ClearBTNodes: one zeroed node after the other, from the node that holds `offset`. */
    method ClearBTNodes(offset: nat, amount: nat)
      requires 0 < nodeSize && offset + amount <= |space|
      modifies this`space
      ensures ClearedIn(old(space), space, offset - Excess(offset, nodeSize), amount - Excess(amount, nodeSize))
    {
      ghost var start: nat, total: nat := offset - Excess(offset, nodeSize), amount - Excess(amount, nodeSize);
      ghost var done: nat, was := 0, space;
      var p, count := NodeAt(offset), NodesIn(amount);
      while count > 0
        invariant done + Span(count, nodeSize) == total && p == start + done
        invariant ClearedIn(was, space, start, done)
      {
        ClearNode(p);
        done := done + nodeSize;
        p, count := p + nodeSize, count - 1;
      }
    }

    /** The start of the node that holds `offset`. */
    function NodeAt(offset: nat): (p: nat)
      requires 0 < nodeSize
      ensures p == offset - Excess(offset, nodeSize)
    {
      QuotientIsDiv(offset, nodeSize);
      offset / nodeSize * nodeSize
    }

    function NodesIn(amount: nat): (count: nat)
      requires 0 < nodeSize
      ensures Span(count, nodeSize) == amount - Excess(amount, nodeSize)
    {
      QuotientIsDiv(amount, nodeSize);
      SpanIsProduct(amount / nodeSize, nodeSize);
      amount / nodeSize
    }

    /** `count` pieces of size `d`. */
    static function Span(count: nat, d: nat): nat {
      if count == 0 then 0 else Span(count - 1, d) + d
    }

    static lemma {:induction false} SpanIsProduct(count: nat, d: nat)
      ensures Span(count, d) == count * d
    {
      if count > 0 {
        SpanIsProduct(count - 1, d);
        MulDistributes(count, 1, d);
      }
    }

    /** Cutting back what cannot be used; `added` becomes what is kept. */
    method Trim(minEOF: nat, origSize: nat, grown: nat, failed: int)
        returns (retval: int, added: nat, panic: bool)
      requires Sizes(blockSize, nodeSize) && Divides(blockSize, |space|)
      requires grown <= |space| && origSize <= |space| - grown
      modifies this
      ensures panic == Panics(origSize, |old(space)| - grown, grown, minEOF, blockSize, nodeSize)
      ensures !panic ==>
                && |space| == RoundUp(Target(origSize, |old(space)| - grown, grown, minEOF, nodeSize), blockSize)
                && |space| <= |old(space)| && space == old(space)[..|space|] && eof == |space|
                && retval == (if |old(space)| < minEOF then DSK_FUL_ERR else E_NONE)
                && added == (if |old(space)| < minEOF then 0 else grown - Excess(grown, nodeSize))
    {
      retval, added, panic := failed, grown, false;
      eof := |space|;
      RoundUpMultiple(|space|, blockSize);
      if eof >= minEOF && retval != E_NONE {
        retval := E_NONE;
      }
      var over := Remainder(grown, nodeSize);
      if eof < minEOF || over != 0 {
        var trim: nat := over;
        if eof < minEOF {
          retval := DSK_FUL_ERR;
          trim := eof - origSize;
          if trim != grown {
            return retval, added, true;
          }
        }
        RoundUpBelow(eof - trim, |space|, blockSize);
        TruncateFileC(eof - trim);
        eof := |space|;
        added := grown - trim;
      }
      var tail := Remainder(eof, nodeSize);
      panic := tail != 0;
    }

    /** The space obtained and cut back to whole nodes. */
    method Grow(minEOF: nat, answers: Allocator)
        returns (retval: int, added: nat, panic: bool, ghost granted: nat, ghost amounts: seq<nat>)
      requires Valid() && Divides(nodeSize, minEOF) && eof < minEOF
      modifies this
      ensures Divides(blockSize, granted) && Tries(amounts, minEOF - old(eof), clumpSize, nodeSize)
      ensures exists code ::
                Answers(answers, amounts, (code, granted), minEOF - old(eof), blockSize, nodeSize)
      ensures !panic ==> retval == if |old(space)| + granted < minEOF then DSK_FUL_ERR else E_NONE
      ensures panic == Panics(old(eof), |old(space)|, granted, minEOF, blockSize, nodeSize)
      ensures !panic ==> added <= eof == |space|
      ensures Safe(old(eof), |old(space)|, minEOF, nodeSize) ==>
                !panic && Settled(old(space), old(eof), space, added, minEOF, retval, blockSize, nodeSize)
    {
      ghost var was: seq<Byte>, wasEof := space, eof;
      var grown;
      retval, grown, amounts := Obtain(minEOF, answers);
      granted := grown;
      ghost var full: seq<Byte> := space;
      retval, added, panic := Trim(minEOF, eof, grown, retval);
      if Safe(wasEof, |was|, minEOF, nodeSize) {
        SafeHolds(wasEof, |was|, grown, minEOF, blockSize, nodeSize);
        SettledOnce(was, wasEof, full, space, grown, minEOF, blockSize, nodeSize);
      }
    }

    /**
     * ExtendBTreeFile: the file ends on a node boundary, large enough or exactly as before with the
     * disk full; what was there stays and everything new is zero.
     */
    method Extend(minEOF: nat, answers: Allocator)
        returns (retval: int, panic: bool, ghost granted: nat, ghost amounts: seq<nat>)
      requires Valid() && Divides(nodeSize, minEOF)
      modifies this
      ensures minEOF > old(eof) ==>
                && Divides(blockSize, granted)
                && Tries(amounts, minEOF - old(eof), clumpSize, nodeSize)
                && (exists code :: Answers(answers, amounts, (code, granted), minEOF - old(eof), blockSize, nodeSize))
                && (!panic ==> retval == if |old(space)| + granted < minEOF then DSK_FUL_ERR else E_NONE)
                && panic == Panics(old(eof), |old(space)|, granted, minEOF, blockSize, nodeSize)
      ensures minEOF <= old(eof) ==> retval == -1 && !panic && eof == old(eof) && space == old(space)
      ensures minEOF > old(eof) && Safe(old(eof), |old(space)|, minEOF, nodeSize) ==>
                && !panic && Valid() && eof == |space|
                && (if retval == E_NONE then eof >= minEOF else retval == DSK_FUL_ERR && eof == old(eof))
                && |old(space)| <= |space| && space == old(space) + Zeros(|space| - |old(space)|)
    {
      panic := false;
      if minEOF <= eof {
        return -1, false, 0, [];
      }
      ghost var was: seq<Byte>, wasEof := space, eof;
      var added;
      retval, added, panic, granted, amounts := Grow(minEOF, answers);
      if panic {
        return;
      }
      ghost var grown := space;
      ClearBTNodes(eof - added, added);
      if Safe(wasEof, |was|, minEOF, nodeSize) {
        assert grown[..|was|] == was;
        assert space == was + Zeros(added);
      }
    }
  }
}
