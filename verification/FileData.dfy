/** Block-buffered file data: the read, write and truncate loops of hfs_readwrite.c. */
module FileData {
  import opened Arith
  import opened Bytes
  import opened PosixFile

  datatype Errno = ENone | EInval | EPerm | ENoSpc | EIsDir | EFBig | ERofs | EIo

  /** What the allocator answers when it is asked for space: an error or none, and the blocks it added either way. */
  datatype Grant = Grant(err: Errno, blocks: nat)

  /** Its answers, in the order in which it is asked. */
  type Allocator = nat -> Grant

  predicate Helps(g: Grant) {
    g.err == ENone && g.blocks > 0
  }

  /** The space added by the first `n` answers. */
  function Granted(answers: Allocator, n: nat, block: nat): (space: nat) {
    if n == 0 then 0 else
    MulMonotone(0, answers(n - 1).blocks, block);
    Granted(answers, n - 1, block) + answers(n - 1).blocks * block
  }

  /** After `n` answers there is still too little. */
  predicate Short(answers: Allocator, n: nat, have: nat, want: nat, block: nat) {
    have + Granted(answers, n, block) < want
  }

  /** Each of the first `n` answers was needed, and helped. */
  predicate Helped(answers: Allocator, n: nat, have: nat, want: nat, block: nat) {
    n == 0 ||
    (Helped(answers, n - 1, have, want, block) && Short(answers, n - 1, have, want, block) && Helps(answers(n - 1)))
  }

  /**
   * On the way from `have` to `want` bytes the allocator is asked `asked` times: each time there was too little,
   * each answer but the last one helped, and after the last one there is enough or it did not help.
   */
  predicate Asked(answers: Allocator, asked: nat, have: nat, want: nat, block: nat) {
    if asked == 0 then want <= have
    else
      && Helped(answers, asked - 1, have, want, block) && Short(answers, asked - 1, have, want, block)
      && (Helps(answers(asked - 1)) ==> !Short(answers, asked, have, want, block))
  }

  lemma {:induction false} HelpedAt(answers: Allocator, n: nat, have: nat, want: nat, block: nat, j: nat)
    requires Helped(answers, n, have, want, block) && j < n
    ensures Short(answers, j, have, want, block) && Helps(answers(j))
    decreases n
  {
    if j < n - 1 {
      HelpedAt(answers, n - 1, have, want, block, j);
    }
  }

  /** The answers decide how often it is asked. */
  lemma AskedOnce(answers: Allocator, a: nat, b: nat, have: nat, want: nat, block: nat)
    requires Asked(answers, a, have, want, block) && Asked(answers, b, have, want, block)
    ensures a == b
  {
    if a != b {
      var less, more := Min(a, b), Max(a, b);
      if less < more - 1 {
        HelpedAt(answers, more - 1, have, want, block, less);
      }
      if less > 0 {
        HelpedAt(answers, more - 1, have, want, block, less - 1);
      }
    }
  }

  /** The unread part of a caller's request, as far as uiomove has consumed it. */
  method Uiomove(bp: array<Byte>, at: nat, data: seq<Byte>, from: nat, n: nat)
    requires at + n <= bp.Length && from + n <= |data|
    modifies bp
    ensures forall i | 0 <= i < bp.Length ::
              bp[i] == if at <= i < at + n then data[from + i - at] else old(bp[i])
  {
    forall i | at <= i < at + n {
      bp[i] := data[from + i - at];
    }
  }

  method Bzero(bp: array<Byte>, at: nat, n: nat)
    requires at + n <= bp.Length
    modifies bp
    ensures forall i | 0 <= i < bp.Length ::
              bp[i] == if at <= i < at + n then 0 else old(bp[i])
  {
    forall i | at <= i < at + n {
      bp[i] := 0;
    }
  }

  /** A buffer obtained without reading: its contents are whatever memory held. */
  method GetBlk(n: nat) returns (bp: array<Byte>)
    ensures fresh(bp) && bp.Length == n
  {
    bp := new Byte[n];
  }

  /** One open fork: its logical size and the bytes of all the space allocated to it. */
  class Fork {
    const blockSize: nat
    const logBlockSize: nat
    var device: seq<Byte>
    var size: nat
    ghost var history: seq<Op>

    ghost predicate Shape()
      reads this
    {
      && 0 < blockSize
      && Divides(logBlockSize, blockSize)
      && Divides(blockSize, |device|)
    }

    ghost predicate Valid()
      reads this
    {
      && Shape()
      && size <= |device|
      && device[..size] == Run(history)
    }

    ghost function Contents(): (c: seq<Byte>)
      requires Valid()
      reads this
    {
      device[..size]
    }

    constructor (blockSize: nat, logBlockSize: nat)
      requires 0 < blockSize && Divides(logBlockSize, blockSize)
      ensures Valid() && history == [] && Contents() == []
    {
      this.blockSize := blockSize;
      this.logBlockSize := logBlockSize;
      device, size := [], 0;
      history := [];
      new;
      ZeroMultiple(blockSize);
    }

    lemma Aligned()
      requires Shape()
      ensures Divides(logBlockSize, |device|)
    {
      DividesTransitive(logBlockSize, blockSize, |device|);
    }

    // Blocks that cannot be had from the device are given by their numbers.

    /** Byte `i` lies in such a block. */
    predicate Bad(bad: set<nat>, i: nat)
      requires 0 < logBlockSize
    {
      i / logBlockSize in bad
    }

    ghost predicate Clear(bad: set<nat>, lo: nat, hi: nat)
      requires 0 < logBlockSize
    {
      forall i: nat | lo <= i < hi :: !Bad(bad, i)
    }

    /** Going up from `lo`, the bytes below `i` can be had, and byte `i` cannot. */
    ghost predicate FirstBad(bad: set<nat>, lo: nat, i: nat)
      requires 0 < logBlockSize
    {
      Clear(bad, lo, i) && Bad(bad, i)
    }

    /** The block of byte `i` lies between `lo` and `hi`. */
    predicate Whole(i: nat, lo: nat, hi: nat)
      requires 0 < logBlockSize
    {
      lo <= i / logBlockSize * logBlockSize && i / logBlockSize * logBlockSize + logBlockSize <= hi
    }

    /** A block that is only partly between `lo` and `hi` cannot be had. */
    ghost predicate BadEdge(bad: set<nat>, lo: nat, hi: nat)
      requires 0 < logBlockSize
    {
      exists i: nat :: lo <= i < hi && Bad(bad, i) && !Whole(i, lo, hi)
    }

    lemma InBlock(b: nat, i: nat)
      requires 0 < logBlockSize && b * logBlockSize <= i < b * logBlockSize + logBlockSize
      ensures i / logBlockSize == b
    {
      DivModUnique(i, logBlockSize, b, i - b * logBlockSize);
    }

    lemma BlockClear(bad: set<nat>, b: nat, lo: nat, hi: nat)
      requires 0 < logBlockSize && b !in bad && b * logBlockSize <= lo && hi <= b * logBlockSize + logBlockSize
      ensures Clear(bad, lo, hi)
    {
      forall i: nat | lo <= i < hi ensures !Bad(bad, i) {
        InBlock(b, i);
      }
    }

    /** The logical block holding a byte, and the byte's place in it. */
    method Locate(offset: nat) returns (lblkno: nat, blkoff: nat)
      requires Shape() && offset < |device|
      ensures lblkno == offset / logBlockSize && blkoff == offset % logBlockSize
      ensures offset == lblkno * logBlockSize + blkoff
      ensures blkoff < logBlockSize
      ensures lblkno * logBlockSize + logBlockSize <= |device|
    {
      lblkno, blkoff := offset / logBlockSize, offset % logBlockSize;
      DivMod(offset, logBlockSize);
      Aligned();
      NextMultiple(logBlockSize, |device|, offset);
    }

    // The buffer cache.  Reading a block returns what was last written to it; getting one may fail.

    method Bread(lblkno: nat) returns (bp: array<Byte>)
      requires lblkno * logBlockSize + logBlockSize <= |device|
      ensures fresh(bp) && bp.Length == logBlockSize
      ensures forall i | 0 <= i < logBlockSize :: bp[i] == device[lblkno * logBlockSize + i]
    {
      var block := device[lblkno * logBlockSize..lblkno * logBlockSize + logBlockSize];
      bp := new Byte[logBlockSize](i requires 0 <= i < logBlockSize => block[i]);
    }

    method Bwrite(lblkno: nat, bp: array<Byte>)
      requires bp.Length == logBlockSize
      requires lblkno * logBlockSize + logBlockSize <= |device|
      modifies this`device
      ensures |device| == old(|device|)
      ensures forall i | 0 <= i < |device| ::
                device[i] == if lblkno * logBlockSize <= i < lblkno * logBlockSize + logBlockSize
                             then bp[i - lblkno * logBlockSize] else old(device[i])
    {
      var base := lblkno * logBlockSize;
      device := device[..base] + bp[..] + device[base + logBlockSize..];
    }

    /** The allocator adds whole blocks with unspecified contents, and may add fewer than asked, or fail. */
    method ExtendFileC(bytesToAdd: nat, answer: Grant) returns (err: Errno, actualBytesAdded: nat)
      requires 0 < blockSize
      modifies this`device
      ensures err == answer.err && actualBytesAdded == answer.blocks * blockSize
      ensures actualBytesAdded == 0 <==> answer.blocks == 0
      ensures |device| == old(|device|) + actualBytesAdded
      ensures Divides(blockSize, actualBytesAdded)
      ensures old(device) <= device
    {
      err := answer.err;
      MulMonotone(0, answer.blocks, blockSize);
      MulMonotone(1, Max(1, answer.blocks), blockSize);
      actualBytesAdded := answer.blocks * blockSize;
      MultipleDivides(answer.blocks, blockSize);
      var added := GetBlk(actualBytesAdded);
      device := device + added[..];
    }

    /** The allocator is asked once more, of a file that had `have` bytes when it was asked first. */
    method Ask(bytesToAdd: nat, answers: Allocator, i: nat, ghost have: nat) returns (err: Errno, added: nat)
      requires 0 < blockSize && Divides(blockSize, |device|) && |device| == have + Granted(answers, i, blockSize)
      modifies this`device
      ensures err == answers(i).err && (added == 0 <==> answers(i).blocks == 0)
      ensures |device| == old(|device|) + added == have + Granted(answers, i + 1, blockSize)
      ensures Divides(blockSize, |device|) && old(device) <= device
    {
      err, added := ExtendFileC(bytesToAdd, answers(i));
      DividesSum(blockSize, |device| - added, added);
    }

    /** Freeing space keeps every byte below the new length. */
    method TruncateFileC(length: nat)
      requires 0 < blockSize && length <= |device| && Divides(blockSize, |device|)
      modifies this`device
      ensures length <= |device| <= old(|device|) && |device| < length + blockSize
      ensures Divides(blockSize, |device|)
      ensures device <= old(device)
    {
      if length == 0 {
        device := [];
        ZeroMultiple(blockSize);
      } else {
        var last := (length - 1) / blockSize;
        DivMod(length - 1, blockSize);
        NextMultiple(blockSize, |device|, length - 1);
        MultipleDivides(last + 1, blockSize);
        MulDistributes(last, 1, blockSize);
        device := device[..last * blockSize + blockSize];
      }
    }

    /** One trip round the loop of hfs_read: what is wanted of the current logical block. */
    method ReadFragment(uioOffset: nat, uioResid: nat, bad: set<nat>) returns (failed: bool, frag: seq<Byte>)
      requires Shape() && uioOffset < size <= |device| && 0 < uioResid
      ensures failed <==> Bad(bad, uioOffset)
      ensures !failed ==>
                && 0 < |frag| <= Min(uioResid, size - uioOffset)
                && frag == device[uioOffset..uioOffset + |frag|]
                && Clear(bad, uioOffset, uioOffset + |frag|)
    {
      var logBlockNo, startOffset := Locate(uioOffset);
      if logBlockNo in bad {
        return true, [];
      }
      var moveSize := Min(Min(logBlockSize - startOffset, size - uioOffset), uioResid);
      var bp := Bread(logBlockNo);
      failed, frag := false, bp[startOffset..startOffset + moveSize];
      BlockClear(bad, logBlockNo, uioOffset, uioOffset + moveSize);
    }

    /** The loop of hfs_read; the first block that cannot be read ends it. */
    method ReadFragments(offset: nat, resid: nat, bad: set<nat>) returns (err: Errno, out: seq<Byte>)
      requires Shape() && offset <= size <= |device|
      ensures err == ENone || err == EIo
      ensures out <= device[offset..Min(offset + resid, size)]
      ensures err == ENone ==>
                out == device[offset..Min(offset + resid, size)] && Clear(bad, offset, Min(offset + resid, size))
      ensures err == EIo ==>
                offset + |out| < Min(offset + resid, size) && FirstBad(bad, offset, offset + |out|)
    {
      var uioOffset, uioResid := offset, resid;
      out := [];
      while uioResid > 0 && size - uioOffset > 0
        invariant offset <= uioOffset <= size
        invariant 0 <= uioResid && uioOffset + uioResid == offset + resid
        invariant out == device[offset..uioOffset]
        invariant Clear(bad, offset, uioOffset)
        decreases uioResid
      {
        var failed, frag := ReadFragment(uioOffset, uioResid, bad);
        if failed {
          return EIo, out;
        }
        out := out + frag;
        uioOffset, uioResid := uioOffset + |frag|, uioResid - |frag|;
      }
      err := ENone;
    }

    lemma ReadIsSlice(offset: nat, resid: nat, out: seq<Byte>)
      requires Valid() && offset <= size && out <= device[offset..Min(offset + resid, size)]
      ensures device[offset..Min(offset + resid, size)] == Slice(Contents(), offset, resid)
      ensures forall k | 0 <= k < |out| :: out[k] == LastByte(history, offset + k)
    {
      SlicePrefix(device, size, offset, resid);
      SliceIsLast(history, offset, resid);
    }

    /**
     * hfs_read: the bytes of the flat file, clipped at its end, up to the first one that cannot be had from the
     * device.
     */
    method Read(isFile: bool, offset: int, resid: nat, bad: set<nat>) returns (err: Errno, out: seq<Byte>)
      requires Valid()
      ensures err == ENone || err == EIsDir || err == EInval || err == EIo
      ensures err == EIsDir <==> !isFile
      ensures err == EInval <==> isFile && resid != 0 && offset < 0
      ensures err == EIsDir || err == EInval || resid == 0 ==> out == []
      ensures err == ENone && resid != 0 ==> offset >= 0 && out == Slice(Contents(), offset, resid)
      ensures err == EIo ==>
                && offset >= 0 && out <= Slice(Contents(), offset, resid) && |out| < |Slice(Contents(), offset, resid)|
                && FirstBad(bad, offset, offset + |out|)
      ensures err == ENone && resid != 0 ==> Clear(bad, offset, offset + |out|)
      ensures forall k | 0 <= k < |out| :: 0 <= offset && out[k] == LastByte(history, offset + k)
    {
      out := [];
      if !isFile {
        return EIsDir, [];
      }
      if resid == 0 {
        return ENone, [];
      }
      if offset < 0 {
        return EInval, [];
      }
      if offset > size {
        return ENone, [];
      }
      err, out := ReadFragments(offset, resid, bad);
      ReadIsSlice(offset, resid, out);
    }

    /**
     * The space loop of hfs_write: grow until the last byte to be written is allocated.  An error of the
     * allocator is passed on, and an answer without blocks is taken for a full volume.
     */
    method Secure(writelimit: nat, answers: Allocator) returns (err: Errno, ghost asked: nat)
      requires Shape()
      modifies this`device
      ensures Shape() && old(device) <= device
      ensures Asked(answers, asked, old(|device|), writelimit, blockSize)
      ensures |device| == old(|device|) + Granted(answers, asked, blockSize)
      ensures err == if asked == 0 then ENone
                     else if answers(asked - 1) == Grant(ENone, 0) then ENoSpc
                     else answers(asked - 1).err
      ensures err == ENone ==> writelimit <= |device|
    {
      var i: nat := 0;
      err, asked := ENone, 0;
      while writelimit > |device|
        invariant i == asked && err == ENone
        invariant Shape() && old(device) <= device
        invariant |device| == old(|device|) + Granted(answers, asked, blockSize)
        invariant Helped(answers, asked, old(|device|), writelimit, blockSize)
        decreases writelimit - |device|
      {
        var added;
        err, added := Ask(writelimit - |device|, answers, i, old(|device|));
        i, asked := i + 1, asked + 1;
        if added == 0 && err == ENone {
          err := ENoSpc;
        }
        if err != ENone {
          return;
        }
      }
    }

    /** More space changes no byte of the file. */
    method Reserve(writelimit: nat, answers: Allocator) returns (err: Errno, ghost asked: nat)
      requires Valid()
      modifies this`device
      ensures Valid() && Contents() == old(Contents())
      ensures Asked(answers, asked, old(|device|), writelimit, blockSize)
      ensures |device| == old(|device|) + Granted(answers, asked, blockSize)
      ensures err == if asked == 0 then ENone
                     else if answers(asked - 1) == Grant(ENone, 0) then ENoSpc
                     else answers(asked - 1).err
      ensures err == ENone ==> writelimit <= |device|
    {
      err, asked := Secure(writelimit, answers);
      assert device[..size] == old(device[..size]);
    }

    /**
     * The copying of hfs_write, once there is room: the POSIX write, or what the first byte that cannot be had
     * from the device leaves of it.
     */
    method WriteAt(offset: nat, data: seq<Byte>, ioUnit: bool, bad: set<nat>) returns (err: Errno, ghost curr: nat)
      requires Valid() && data != [] && offset + |data| <= |device|
      modifies this
      ensures Valid() && (err == ENone || err == EIo)
      ensures err == ENone ==>
                && history == old(history) + [PosixFile.Write(offset, data)]
                && Clear(bad, Min(offset, old(size)), offset + |data|)
      ensures err == EIo ==>
                && InterruptedAt(old(history), old(size), offset, data, ioUnit, history, curr)
                && curr < offset + |data| && FirstBad(bad, Min(offset, old(size)), curr)
    {
      var origFileSize := size;
      var at;
      err, at := Transfer(offset, data, bad);
      curr := at;
      ghost var op := PartialOp(size, offset, data, curr);
      assert err == ENone ==> data[..|data|] == data;
      history := history + [op];
      RunAppend(old(history), op);
      if err != ENone && ioUnit {
        Shrink(origFileSize, false);
        history := history + [PosixFile.Truncate(origFileSize)];
        RunAppend(old(history) + [op], PosixFile.Truncate(origFileSize));
      }
    }

    /**
     * hfs_write, non-UBC path: the POSIX write, an unchanged file, or an interrupted write.  What is asked of the
     * allocator and of the device decides which.
     */
    method Write(isFile: bool, start: int, data: seq<Byte>, ioAppend: bool, appendOnly: bool, ioUnit: bool, limit: nat,
                 answers: Allocator, bad: set<nat>)
        returns (err: Errno, ghost started: bool, ghost asked: nat, ghost curr: nat)
      requires Valid()
      modifies this
      ensures Valid()
      ensures start < 0 ==> err == EInval && !started
      ensures start >= 0 && data == [] ==> err == ENone && !started
      ensures start >= 0 && data != [] && !isFile ==> err == EIsDir && !started
      ensures start >= 0 && data != [] && isFile ==>
                var offset := if ioAppend then old(size) else start;
                if appendOnly && offset != old(size) then err == EPerm && !started
                else if offset + |data| > limit then err == EFBig && !started
                else
                  && Asked(answers, asked, old(|device|), offset + |data|, blockSize)
                  && (started <==> asked == 0 || Helps(answers(asked - 1)))
                  && (!started ==> err == if answers(asked - 1).err == ENone then ENoSpc else answers(asked - 1).err)
                  && (started ==> err == ENone || err == EIo)
                  && (started && err == ENone ==>
                        && history == old(history) + [PosixFile.Write(offset, data)]
                        && Clear(bad, Min(offset, old(size)), offset + |data|))
                  && (started && err == EIo ==>
                        && InterruptedAt(old(history), old(size), offset, data, ioUnit, history, curr)
                        && curr < offset + |data| && FirstBad(bad, Min(offset, old(size)), curr))
      ensures err == ENone ==> started || data == []
      ensures !started ==> Contents() == old(Contents()) && history == old(history)
    {
      started, asked, curr := false, 0, 0;
      if start < 0 {
        return EInval, false, 0, 0;
      }
      if data == [] {
        return ENone, false, 0, 0;
      }
      if !isFile {
        return EIsDir, false, 0, 0;
      }
      var offset := if ioAppend then size else start;
      if appendOnly && offset != size {
        return EPerm, false, 0, 0;
      }
      var writelimit := offset + |data|;
      if writelimit > limit {
        return EFBig, false, 0, 0;
      }
      err, asked := Reserve(writelimit, answers);
      if err == ENone {
        started := true;
        err, curr := WriteAt(offset, data, ioUnit, bad);
      }
    }

    /**
     * One trip round the copy loop of hfs_write: bytes [curr, curr') take their new values,
     * zero before `offset` and data from there on; every other byte of the old file is kept.
     */
    method TransferBlock(offset: nat, data: seq<Byte>, curr: nat, bad: set<nat>) returns (failed: bool, curr': nat)
      requires Shape()
      requires offset + |data| <= |device| && curr < offset + |data|
      requires curr <= size <= |device|
      requires curr < offset ==> curr == size
      modifies this`device
      ensures |device| == old(|device|)
      ensures failed <==> Bad(bad, curr)
      ensures if failed then curr' == curr else curr < curr' <= offset + |data| && Clear(bad, curr, curr')
      ensures forall i | curr <= i < curr' :: device[i] == if i < offset then 0 else data[i - offset]
      ensures forall i | 0 <= i < curr || curr' <= i < size :: device[i] == old(device[i])
    {
      var currOffset, uioOffset, writelimit := curr, Max(curr, offset), offset + |data|;
      var logBlockNo, blkoffset := Locate(currOffset);
      var xfersize := Min(logBlockSize - blkoffset, writelimit - currOffset);
      if logBlockNo in bad {
        return true, curr;
      }
      BlockClear(bad, logBlockNo, curr, curr + xfersize);
      var bp;
      if blkoffset == 0 && (xfersize >= logBlockSize || currOffset == size) {
        bp := GetBlk(logBlockSize);
      } else {
        bp := Bread(logBlockNo);
      }
      if uioOffset > currOffset {
        var clearSize := Min(uioOffset - currOffset, xfersize);
        Bzero(bp, blkoffset, clearSize);
        currOffset, blkoffset, xfersize := currOffset + clearSize, blkoffset + clearSize, xfersize - clearSize;
      }
      if xfersize > 0 {
        Uiomove(bp, blkoffset, data, uioOffset - offset, xfersize);
        currOffset := currOffset + xfersize;
      }
      Bwrite(logBlockNo, bp);
      failed, curr' := false, currOffset;
    }

    /**
     * The copy loop of hfs_write: block by block, zeroing the gap past the old end of file. A block that
     * cannot be had ends it.
     */
    method Transfer(offset: nat, data: seq<Byte>, bad: set<nat>) returns (err: Errno, currOffset: nat)
      requires Valid()
      requires data != [] && offset + |data| <= |device|
      modifies this`device, this`size
      ensures |device| == old(|device|) && size <= |device|
      ensures Min(offset, old(size)) <= currOffset <= offset + |data| && size == Max(old(size), currOffset)
      ensures err == ENone || err == EIo
      ensures err == ENone ==> currOffset == offset + |data|
      ensures Clear(bad, Min(offset, old(size)), currOffset)
      ensures err == EIo ==> currOffset < offset + |data| && Bad(bad, currOffset)
      ensures device[..size] == Apply(old(Contents()), PartialOp(size, offset, data, currOffset))
    {
      ghost var was := Contents();
      var writelimit := offset + |data|;
      err := ENone;
      currOffset := Min(offset, size);
      while currOffset < writelimit && err == ENone
        invariant Min(offset, old(size)) <= currOffset <= writelimit
        invariant size == Max(old(size), currOffset)
        invariant |device| == old(|device|)
        invariant currOffset < offset ==> currOffset == size
        invariant err == ENone || err == EIo
        invariant Clear(bad, Min(offset, old(size)), currOffset)
        invariant err == EIo ==> currOffset < writelimit && Bad(bad, currOffset)
        invariant forall i | 0 <= i < currOffset :: device[i] == OverwrittenByte(was, offset, data, i)
        invariant forall i | currOffset <= i < old(size) :: device[i] == old(device[i])
        decreases writelimit - currOffset, err == ENone
      {
        var failed;
        failed, currOffset := TransferBlock(offset, data, currOffset, bad);
        if failed {
          err := EIo;
        } else if currOffset > size {
          size := currOffset;
        }
      }
      PartlyWritten(was, device[..size], offset, data, currOffset);
    }

    lemma EdgeOfBlock(b: nat, lo: nat, filepos: nat, hi: nat)
      requires 0 < logBlockSize && b == filepos / logBlockSize && lo <= filepos < hi
      requires filepos == lo || filepos % logBlockSize == 0
      ensures Whole(filepos, lo, hi) <==> filepos % logBlockSize == 0 && filepos + logBlockSize <= hi
      ensures forall i: nat | b * logBlockSize <= i < b * logBlockSize + logBlockSize ::
                i / logBlockSize == b && (Whole(i, lo, hi) <==> Whole(filepos, lo, hi))
      ensures (b * logBlockSize + logBlockSize) % logBlockSize == 0
    {
      DivMod(filepos, logBlockSize);
      forall i: nat | b * logBlockSize <= i < b * logBlockSize + logBlockSize ensures i / logBlockSize == b {
        InBlock(b, i);
      }
      MulDistributes(b, 1, logBlockSize);
      DivModUnique(b * logBlockSize + logBlockSize, logBlockSize, b + 1, 0);
    }

    /**
     * One trip round the zeroing loop of hfs_truncate, which started at `lo`.  A block that is zeroed as a whole
     * is not read.
     */
    method ClearBlock(filepos: nat, bytestoclear: nat, bad: set<nat>, ghost lo: nat)
        returns (failed: bool, blkzeros: nat)
      requires Shape()
      requires 0 < bytestoclear && filepos + bytestoclear <= |device|
      requires lo <= filepos && (filepos == lo || filepos % logBlockSize == 0)
      modifies this`device
      ensures |device| == old(|device|)
      ensures failed <==> Bad(bad, filepos) && !Whole(filepos, lo, filepos + bytestoclear)
      ensures failed ==> device == old(device)
      ensures !failed ==>
                && 0 < blkzeros <= bytestoclear
                && (blkzeros < bytestoclear ==> (filepos + blkzeros) % logBlockSize == 0)
                && (forall i: nat | filepos <= i < filepos + blkzeros ::
                      Bad(bad, i) ==> Whole(i, lo, filepos + bytestoclear))
                && forall i | filepos <= i < filepos + blkzeros :: device[i] == 0
      ensures forall i | 0 <= i < filepos :: device[i] == old(device[i])
    {
      var lblkno, blkoff := Locate(filepos);
      EdgeOfBlock(lblkno, lo, filepos, filepos + bytestoclear);
      blkzeros := Min(bytestoclear, logBlockSize - blkoff);
      var bp;
      if blkoff == 0 && bytestoclear >= logBlockSize {
        bp := GetBlk(logBlockSize);
      } else if lblkno in bad {
        return true, 0;
      } else {
        bp := Bread(lblkno);
      }
      Bzero(bp, blkoff, blkzeros);
      Bwrite(lblkno, bp);
      failed := false;
    }

    /**
     * The growing half of hfs_truncate, once there is room: the new tail reads as zeros.  It fails exactly if a
     * block at one of its ends has to be read and cannot be.
     */
    method Grow(length: nat, bad: set<nat>) returns (err: Errno)
      requires Valid()
      requires size <= length <= |device|
      modifies this`device, this`size
      ensures |device| == old(|device|)
      ensures err == if BadEdge(bad, old(size), length) then EIo else ENone
      ensures err == ENone ==> size == length && device[..size] == Resize(old(Contents()), length)
      ensures err != ENone ==> size == old(size) && device[..size] == old(Contents())
    {
      var bytestoclear, filepos := length - size, size;
      while bytestoclear > 0
        invariant 0 <= bytestoclear && filepos + bytestoclear == length
        invariant size == old(size) <= filepos
        invariant |device| == old(|device|)
        invariant bytestoclear > 0 ==> filepos == size || filepos % logBlockSize == 0
        invariant forall i: nat | size <= i < filepos :: Bad(bad, i) ==> Whole(i, size, length)
        invariant forall i | 0 <= i < filepos :: device[i] == if i < size then old(device[i]) else 0
      {
        var failed, blkzeros := ClearBlock(filepos, bytestoclear, bad, size);
        if failed {
          assert BadEdge(bad, old(size), length);
          return EIo;
        }
        bytestoclear, filepos := bytestoclear - blkzeros, filepos + blkzeros;
      }
      size := length;
      err := ENone;
    }

    /** Dropping buffers past the new end loses their unwritten changes: those bytes are unspecified. */
    method Vtruncbuf(length: nat)
      requires length <= |device|
      modifies this`device
      ensures |device| == old(|device|)
      ensures device[..length] == old(device[..length])
    {
      var stale := GetBlk(|device| - length);
      device := device[..length] + stale[..];
    }

    /** The shrinking half of hfs_truncate; only with `ndelay` is the space given back. */
    method Shrink(length: nat, ndelay: bool)
      requires Valid()
      requires length <= size
      modifies this`device, this`size
      ensures Divides(blockSize, |device|)
      ensures if ndelay then |device| < length + blockSize else |device| == old(|device|)
      ensures size == length <= |device|
      ensures device[..size] == Resize(old(Contents()), length)
    {
      if size > length {
        Vtruncbuf(length);
      }
      assert device[..length] == old(device[..length]);
      if ndelay {
        ghost var kept := device;
        TruncateFileC(length);
        assert device[..length] == kept[..length];
      }
      size := length;
    }

    /**
     * The space loop of hfs_truncate.  An allocator that succeeds without adding anything
     * clips the requested length to the space there is.
     */
    method ReserveOrClip(length: nat, answers: Allocator) returns (err: Errno, length': nat, ghost asked: nat)
      requires Valid()
      requires size < length
      modifies this`device
      ensures Valid() && Contents() == old(Contents()) && history == old(history)
      ensures Asked(answers, asked, old(|device|), length, blockSize)
      ensures |device| == old(|device|) + Granted(answers, asked, blockSize)
      ensures err == if asked == 0 then ENone else answers(asked - 1).err
      ensures err == ENone ==> length' == Min(length, |device|)
    {
      var i: nat := 0;
      err, length', asked := ENone, length, 0;
      while length' > |device| && err == ENone
        invariant i == asked
        invariant Divides(blockSize, |device|)
        invariant old(device) <= device
        invariant length' == length
        invariant |device| == old(|device|) + Granted(answers, asked, blockSize)
        invariant err == ENone ==> Helped(answers, asked, old(|device|), length, blockSize)
        invariant err != ENone ==> asked > 0 && Asked(answers, asked, old(|device|), length, blockSize)
        invariant err == if asked == 0 then ENone else answers(asked - 1).err
        decreases length - |device|, err == ENone
      {
        var added;
        err, added := Ask(length' - |device|, answers, i, old(|device|));
        i, asked := i + 1, asked + 1;
        if added == 0 && err == ENone {
          if length' > |device| {
            length' := |device|;
          }
          return;
        }
      }
    }

    /**
     * hfs_truncate.  On success the file is resized to `length`, or to all the space there is when the allocator
     * could give no more; on failure its contents are unchanged.  Shortening a file never fails, and neither
     * does lengthening it within its space unless a block at one of the ends cannot be read.
     */
    method Truncate(readOnly: bool, isFile: bool, length: int, ndelay: bool, answers: Allocator, bad: set<nat>)
        returns (err: Errno, ghost asked: nat)
      requires Valid()
      modifies this
      ensures Valid()
      ensures readOnly ==> err == ERofs
      ensures !readOnly && !isFile ==> err == EIsDir
      ensures !readOnly && isFile && length < 0 ==> err == EInval
      ensures !readOnly && isFile && 0 <= length <= old(size) ==>
                err == ENone && if ndelay then |device| < length + blockSize else |device| == old(|device|)
      ensures !readOnly && isFile && old(size) < length ==>
                && Asked(answers, asked, old(|device|), length, blockSize)
                && var space := old(|device|) + Granted(answers, asked, blockSize);
                   err == if asked > 0 && answers(asked - 1).err != ENone then answers(asked - 1).err
                          else if BadEdge(bad, old(size), Min(length, space)) then EIo
                          else ENone
      ensures err == ENone ==>
                && !readOnly && isFile && length >= 0
                && Contents() == Resize(old(Contents()), Min(length, |device|))
                && history == old(history) + [PosixFile.Truncate(Min(length, |device|))]
      ensures err == ENone && length <= old(|device|) ==> Contents() == Resize(old(Contents()), length)
      ensures err != ENone ==> Contents() == old(Contents()) && history == old(history)
    {
      asked := 0;
      if readOnly {
        return ERofs, 0;
      }
      if !isFile {
        return EIsDir, 0;
      }
      if length < 0 {
        return EInval, 0;
      }
      var newLength := length;
      if length > size {
        if length > |device| {
          err, newLength, asked := ReserveOrClip(length, answers);
          if err != ENone {
            return;
          }
        }
        err := Grow(newLength, bad);
        if err != ENone {
          return;
        }
      } else {
        Shrink(length, ndelay);
      }
      history := history + [PosixFile.Truncate(newLength)];
      RunAppend(old(history), PosixFile.Truncate(newLength));
      err := ENone;
    }
  }

  /** What the copy loop of a write has done when it stands at `curr`. */
  function PartialOp(size: nat, offset: nat, data: seq<Byte>, curr: nat): Op
    requires curr <= offset + |data|
  {
    if offset < curr then PosixFile.Write(offset, data[..curr - offset]) else PosixFile.Truncate(size)
  }

  lemma PartialAt(was: seq<Byte>, size: nat, offset: nat, data: seq<Byte>, curr: nat, i: nat)
    requires curr <= offset + |data| && size == Max(|was|, curr) && Min(offset, |was|) <= curr && i < size
    ensures var c := Apply(was, PartialOp(size, offset, data, curr));
            |c| == size && c[i] == if i < curr then OverwrittenByte(was, offset, data, i) else was[i]
  {
    if offset < curr {
      OverwriteAt(was, offset, data[..curr - offset], i);
    }
  }

  lemma PartlyWritten(was: seq<Byte>, now: seq<Byte>, offset: nat, data: seq<Byte>, curr: nat)
    requires curr <= offset + |data| && |now| == Max(|was|, curr) && Min(offset, |was|) <= curr
    requires forall i | 0 <= i < |now| :: now[i] == if i < curr then OverwrittenByte(was, offset, data, i) else was[i]
    ensures now == Apply(was, PartialOp(|now|, offset, data, curr))
  {
    var c := Apply(was, PartialOp(|now|, offset, data, curr));
    if now != [] {
      PartialAt(was, |now|, offset, data, curr, 0);
    }
    forall i | 0 <= i < |now| ensures |c| == |now| && now[i] == c[i] {
      PartialAt(was, |now|, offset, data, curr, i);
    }
  }

  /** What a write that was interrupted at `curr` comes to, taken back to the old length if it is to be one unit. */
  ghost predicate InterruptedAt(
      was: seq<Op>, size: nat, offset: nat, data: seq<Byte>, ioUnit: bool, now: seq<Op>, curr: nat) {
    && Min(offset, size) <= curr <= offset + |data|
    && var part := was + [PartialOp(Max(size, curr), offset, data, curr)];
       now == if ioUnit then part + [PosixFile.Truncate(size)] else part
  }

  /** A logical block size that tiles the allocation block in whole device blocks. */
  ghost predicate Admissible(d: nat, allocationBlockSize: nat, blockSizeLimit: nat, baseMultiple: nat) {
    Divides(d, allocationBlockSize) && Divides(baseMultiple, d) && d <= blockSizeLimit
  }

  /**
   * BestBlockSizeFit.  When the base divides the allocation block the result divides it too:
   * the page size if that does, else the largest admissible size.
   */
  method BestBlockSizeFit(allocationBlockSize: nat, blockSizeLimit: nat, baseMultiple: nat, pageSize: nat)
    returns (best: nat)
    requires 0 < baseMultiple && 0 < pageSize && 0 < allocationBlockSize
    ensures !Divides(baseMultiple, allocationBlockSize) ==> best == 512
    ensures Divides(baseMultiple, allocationBlockSize) && Divides(pageSize, allocationBlockSize) ==> best == pageSize
    ensures Divides(baseMultiple, allocationBlockSize) && !Divides(pageSize, allocationBlockSize) &&
            baseMultiple <= blockSizeLimit ==>
              && Admissible(best, allocationBlockSize, blockSizeLimit, baseMultiple)
              && forall d: nat | Admissible(d, allocationBlockSize, blockSizeLimit, baseMultiple) :: d <= best
  {
    DividesIsMod(baseMultiple, allocationBlockSize);
    DividesIsMod(pageSize, allocationBlockSize);
    if allocationBlockSize % baseMultiple != 0 {
      return 512;
    }
    if allocationBlockSize % pageSize == 0 {
      return pageSize;
    }
    best := LargestFraction(allocationBlockSize, blockSizeLimit, baseMultiple);
  }

  /** The countdown loop of BestBlockSizeFit. */
  method LargestFraction(allocationBlockSize: nat, blockSizeLimit: nat, baseMultiple: nat) returns (best: nat)
    requires 0 < allocationBlockSize && Divides(baseMultiple, allocationBlockSize)
    ensures baseMultiple <= blockSizeLimit ==>
              && Admissible(best, allocationBlockSize, blockSizeLimit, baseMultiple)
              && forall d: nat | Admissible(d, allocationBlockSize, blockSizeLimit, baseMultiple) :: d <= best
  {
    var blockCount := allocationBlockSize / baseMultiple;
    DividesIsMod(baseMultiple, allocationBlockSize);
    DivMod(allocationBlockSize, baseMultiple);
    assert Times(blockCount, baseMultiple) == allocationBlockSize;
    forall d: nat | Admissible(d, allocationBlockSize, blockSizeLimit, baseMultiple)
      ensures d <= Times(blockCount, baseMultiple)
    {
      DivisorAtMost(d, allocationBlockSize);
    }
    assert Divides(baseMultiple, baseMultiple) by {
      assert baseMultiple == Times(1, baseMultiple);
    }
    while blockCount > 0
      invariant 0 <= blockCount
      invariant forall d: nat | Admissible(d, allocationBlockSize, blockSizeLimit, baseMultiple) ::
                  d <= Times(blockCount, baseMultiple)
    {
      var trialBlockSize := PositiveMultiple(blockCount, baseMultiple);
      DividesIsMod(trialBlockSize, allocationBlockSize);
      DividesIsMod(baseMultiple, trialBlockSize);
      if allocationBlockSize % trialBlockSize == 0 {
        if trialBlockSize <= blockSizeLimit && trialBlockSize % baseMultiple == 0 {
          return trialBlockSize;
        }
      }
      forall d: nat | Admissible(d, allocationBlockSize, blockSizeLimit, baseMultiple)
        ensures d <= Times(blockCount - 1, baseMultiple)
      {
        MultipleBelow(baseMultiple, d, blockCount);
      }
      blockCount := blockCount - 1;
    }
    assert baseMultiple <= blockSizeLimit ==>
             Admissible(baseMultiple, allocationBlockSize, blockSizeLimit, baseMultiple);
    best := 512;
  }

  function PositiveMultiple(k: nat, d: nat): (m: nat)
    requires 0 < k && 0 < d
    ensures 0 < m == Times(k, d) && Divides(d, m)
  {
    MulMonotone(1, k, d);
    Times(k, d)
  }
}
