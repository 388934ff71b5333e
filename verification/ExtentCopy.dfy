/** The resumable copy of a volume's extents into the bands of a sparse bundle (xnu/CopyHFSMeta). */
module ExtentCopy {
  import opened Bytes
  import opened Arith

  const EXTENT_COUNT := 100
  const BUFFER_SIZE := 1024 * 1024

  datatype Extent = Extent(base: nat, length: nat)

  // The list of extents.

  function Flat(list: seq<seq<Extent>>): seq<Extent> {
    if list == [] then [] else Flat(list[..|list| - 1]) + list[|list| - 1]
  }

  function ByteCount(exts: seq<Extent>): nat {
    if exts == [] then 0 else ByteCount(exts[..|exts| - 1]) + exts[|exts| - 1].length
  }

  lemma FlatLast(front: seq<seq<Extent>>, last: seq<Extent>)
    ensures Flat(front + [last]) == Flat(front) + last
  {
    assert (front + [last])[..|front|] == front;
  }

  /** The first chunks make up the first part of the list. */
  lemma {:induction false} FlatPrefix(list: seq<seq<Extent>>, c: nat)
    requires c <= |list|
    ensures |Flat(list[..c])| <= |Flat(list)| && Flat(list)[..|Flat(list[..c])|] == Flat(list[..c])
  {
    if c == |list| {
      assert list[..c] == list;
    } else {
      var front := list[..|list| - 1];
      FlatPrefix(front, c);
      assert front[..c] == list[..c];
    }
  }

  lemma FlatTo(list: seq<seq<Extent>>, c: nat)
    requires 0 < c <= |list|
    ensures |Flat(list[..c])| == |Flat(list[..c - 1])| + |list[c - 1]|
    ensures |Flat(list[..c])| <= |Flat(list)|
  {
    assert list[..c][..c - 1] == list[..c - 1];
    FlatPrefix(list, c);
  }

  /** Where extent `i` of chunk `c` is among all. */
  lemma ChunkInFlat(list: seq<seq<Extent>>, c: nat, i: nat)
    requires c < |list| && i < |list[c]|
    ensures |Flat(list[..c])| + i < |Flat(list)| && Flat(list)[|Flat(list[..c])| + i] == list[c][i]
  {
    var upTo := list[..c + 1];
    assert upTo[..c] == list[..c];
    FlatPrefix(list, c + 1);
    assert Flat(upTo)[|Flat(list[..c])| + i] == list[c][i];
  }

  lemma ByteCountLast(exts: seq<Extent>, e: Extent)
    ensures ByteCount(exts + [e]) == ByteCount(exts) + e.length
  {
    assert (exts + [e])[..|exts|] == exts;
  }

  /** Chunks of at most 100 extents; only the last may have room. */
  predicate Chunked(list: seq<seq<Extent>>) {
    && (forall i | 0 <= i < |list| :: 0 < |list[i]| <= EXTENT_COUNT)
    && (forall i | 0 <= i < |list| - 1 :: |list[i]| == EXTENT_COUNT)
  }

  /** Only the last chunk has room, so that an extent put there is last in the list. */
  lemma InChunk(list: seq<seq<Extent>>, i: nat, e: Extent)
    requires Chunked(list) && i < |list| && |list[i]| < EXTENT_COUNT
    ensures Chunked(list[i := list[i] + [e]]) && Flat(list[i := list[i] + [e]]) == Flat(list) + [e]
  {
    assert i == |list| - 1;
    var front, last := list[..i], list[i];
    assert list == front + [last];
    assert list[i := last + [e]] == front + [last + [e]];
    FlatLast(front, last);
    FlatLast(front, last + [e]);
  }

  lemma InNewChunk(list: seq<seq<Extent>>, e: Extent)
    requires Chunked(list) && forall j | 0 <= j < |list| :: |list[j]| == EXTENT_COUNT
    ensures Chunked(list + [[e]]) && Flat(list + [[e]]) == Flat(list) + [e]
  {
    FlatLast(list, [e]);
  }

  class VolumeObjects {
    var list: seq<seq<Extent>>
    var count: nat
    var byteCount: nat

    ghost predicate Valid()
      reads this
    {
      Chunked(list) && count == |Flat(list)| && byteCount == ByteCount(Flat(list))
    }

    constructor ()
      ensures Valid() && Flat(list) == []
    {
      list, count, byteCount := [], 0, 0;
    }

    /** AddExtentForFile: the extent goes to the end, whichever chunk has room for it. */
    method AddExtent(base: nat, length: nat)
      requires Valid()
      modifies this
      ensures Valid() && Flat(list) == old(Flat(list)) + [Extent(base, length)]
    {
      var e := Extent(base, length);
      var i := 0;
      while i < |list| && |list[i]| >= EXTENT_COUNT
        invariant i <= |list|
        invariant forall j | 0 <= j < i :: |list[j]| == EXTENT_COUNT
      {
        i := i + 1;
      }
      ByteCountLast(Flat(list), e);
      if i < |list| {
        InChunk(list, i, e);
        list := list[i := list[i] + [e]];
      } else {
        InNewChunk(list, e);
        list := list + [[e]];
      }
      count, byteCount := count + 1, byteCount + length;
    }
  }

  // The bytes of the extents, one after the other.

  function Range(base: nat, length: nat): (r: seq<nat>)
    ensures |r| == length
  {
    if length == 0 then [] else Range(base, length - 1) + [base + length - 1]
  }

  lemma {:induction false} RangeAt(base: nat, length: nat, i: nat)
    requires i < length
    ensures Range(base, length)[i] == base + i
  {
    if i < length - 1 {
      RangeAt(base, length - 1, i);
    }
  }

  /** The device offsets in the order in which they are copied. */
  function Stream(exts: seq<Extent>): (s: seq<nat>)
    ensures |s| == ByteCount(exts)
  {
    if exts == [] then []
    else Stream(exts[..|exts| - 1]) + Range(exts[|exts| - 1].base, exts[|exts| - 1].length)
  }

  lemma {:induction false} RangeSplit(base: nat, m: nat, n: nat)
    ensures Range(base, m + n) == Range(base, m) + Range(base + m, n)
  {
    if n > 0 {
      RangeSplit(base, m, n - 1);
    } else {
      assert Range(base, m) + [] == Range(base, m);
    }
  }

  /** `n` bytes of the stream from `p` on are consecutive on the device, from `offset` on. */
  ghost predicate Consecutive(stream: seq<nat>, p: nat, offset: nat, n: nat) {
    p + n <= |stream| && stream[p..p + n] == Range(offset, n)
  }

  lemma SliceIn<T>(s: seq<T>, p: nat, n: nat, m: nat, k: nat)
    requires p + n <= |s| && m + k <= n
    ensures s[p..p + n][m..m + k] == s[p + m..p + m + k]
  {
    var a, b := s[p..p + n][m..m + k], s[p + m..p + m + k];
    forall i | 0 <= i < k ensures a[i] == b[i] {
      assert s[p..p + n][m + i] == s[p + m + i];
    }
  }

  /** So are any `k` of them behind the first `m`. */
  lemma ConsecutiveRest(stream: seq<nat>, p: nat, offset: nat, n: nat, m: nat, k: nat)
    requires Consecutive(stream, p, offset, n) && m + k <= n
    ensures Consecutive(stream, p + m, offset + m, k)
  {
    RangeSplit(offset, m, n - m);
    RangeSplit(offset + m, k, n - m - k);
    var all := stream[p..p + n];
    SliceIn(stream, p, n, m, k);
    assert all[m..] == Range(offset + m, n - m);
    assert all[m..][..k] == all[m..m + k];
  }

  lemma {:induction false} StreamPrefix(exts: seq<Extent>, k: nat)
    requires k <= |exts|
    ensures ByteCount(exts[..k]) <= ByteCount(exts)
    ensures Stream(exts)[..ByteCount(exts[..k])] == Stream(exts[..k])
  {
    if k == |exts| {
      assert exts[..k] == exts;
    } else {
      var front := exts[..|exts| - 1];
      StreamPrefix(front, k);
      assert front[..k] == exts[..k];
    }
  }

  /** Extent `k` of the stream. */
  lemma ExtentInStream(exts: seq<Extent>, k: nat)
    requires k < |exts|
    ensures ByteCount(exts[..k + 1]) == ByteCount(exts[..k]) + exts[k].length
    ensures Consecutive(Stream(exts), ByteCount(exts[..k]), exts[k].base, exts[k].length)
  {
    var part := exts[..k + 1];
    assert part[..k] == exts[..k];
    StreamPrefix(exts, k + 1);
    var p := ByteCount(exts[..k]);
    assert Stream(exts)[p..p + exts[k].length] == Stream(exts)[..p + exts[k].length][p..];
    assert Stream(part)[p..] == Range(exts[k].base, exts[k].length);
  }

  // Where bytes go.

  /** The band of a device offset, and the place in it. */
  function Key(o: nat, bandSize: nat): (nat, nat)
    requires 0 < bandSize
  {
    (Quotient(o, bandSize), Excess(o, bandSize))
  }

  lemma KeyIsDivMod(o: nat, bandSize: nat)
    requires 0 < bandSize
    ensures Key(o, bandSize) == (o / bandSize, o % bandSize)
  {
    QuotientIsDiv(o, bandSize);
  }

  lemma KeyDetermines(a: nat, b: nat, bandSize: nat)
    requires 0 < bandSize && Key(a, bandSize) == Key(b, bandSize)
    ensures a == b
  {
    QuotientAndExcess(a, bandSize);
    QuotientAndExcess(b, bandSize);
  }

  type Bands = map<(nat, nat), Byte>

  /** Entry `k` of the bands is a byte of the source, taken from the stream. */
  ghost predicate FromStream(source: seq<Byte>, stream: seq<nat>, bandSize: nat, k: (nat, nat), b: Byte)
    requires 0 < bandSize
  {
    exists o: nat :: o in stream && o < |source| && k == Key(o, bandSize) && b == source[o]
  }

  /** Nothing but bytes of the extents is in the bands, each in its own place. */
  ghost predicate Faithful(source: seq<Byte>, stream: seq<nat>, bandSize: nat, bands: Bands)
    requires 0 < bandSize
  {
    forall k {:trigger FromStream(source, stream, bandSize, k, bands[k])} | k in bands ::
      FromStream(source, stream, bandSize, k, bands[k])
  }

  /** The first `n` bytes of the stream are in the bands. */
  ghost predicate Copied(stream: seq<nat>, bandSize: nat, bands: Bands, n: nat)
    requires 0 < bandSize
  {
    n <= |stream| && forall i | 0 <= i < n :: Key(stream[i], bandSize) in bands
  }

  /** The whole copy. */
  ghost predicate Image(source: seq<Byte>, stream: seq<nat>, bandSize: nat, bands: Bands)
    requires 0 < bandSize
  {
    Faithful(source, stream, bandSize, bands) && Copied(stream, bandSize, bands, |stream|)
  }

  lemma ImageHas(source: seq<Byte>, stream: seq<nat>, bandSize: nat, x: Bands, y: Bands, k: (nat, nat))
    requires 0 < bandSize && Faithful(source, stream, bandSize, x) && Image(source, stream, bandSize, y) && k in x
    ensures k in y && x[k] == y[k]
  {
    assert FromStream(source, stream, bandSize, k, x[k]);
    var o: nat :| o in stream && o < |source| && k == Key(o, bandSize) && x[k] == source[o];
    var i :| 0 <= i < |stream| && stream[i] == o;
    assert Key(stream[i], bandSize) in y;
    assert FromStream(source, stream, bandSize, k, y[k]);
    var p: nat :| p in stream && p < |source| && k == Key(p, bandSize) && y[k] == source[p];
    KeyDetermines(o, p, bandSize);
  }

  /** There is only one: however it was reached, a complete copy holds the same bytes. */
  lemma ImageUnique(source: seq<Byte>, stream: seq<nat>, bandSize: nat, x: Bands, y: Bands)
    requires 0 < bandSize && Image(source, stream, bandSize, x) && Image(source, stream, bandSize, y)
    ensures x == y
  {
    forall k | k in x ensures k in y && x[k] == y[k] {
      ImageHas(source, stream, bandSize, x, y, k);
    }
    forall k | k in y ensures k in x {
      ImageHas(source, stream, bandSize, y, x, k);
    }
  }

  lemma PutFaithful(source: seq<Byte>, stream: seq<nat>, bandSize: nat, bands: Bands, o: nat)
    requires 0 < bandSize && Faithful(source, stream, bandSize, bands) && o in stream && o < |source|
    ensures Faithful(source, stream, bandSize, bands[Key(o, bandSize) := source[o]])
  {
    var next := bands[Key(o, bandSize) := source[o]];
    forall k | k in next ensures FromStream(source, stream, bandSize, k, next[k]) {
      if k != Key(o, bandSize) {
        assert FromStream(source, stream, bandSize, k, bands[k]);
      }
    }
  }

  /** `n` bytes of the stream from `p` on are in the bands. */
  ghost predicate PresentIn(stream: seq<nat>, bandSize: nat, bands: Bands, p: nat, n: nat)
    requires 0 < bandSize
  {
    p + n <= |stream| && forall i | p <= i < p + n :: Key(stream[i], bandSize) in bands
  }

  lemma PresentJoin(stream: seq<nat>, bandSize: nat, before: Bands, bands: Bands, p: nat, m: nat, n: nat)
    requires 0 < bandSize && before.Keys <= bands.Keys
    requires PresentIn(stream, bandSize, before, p, m) && PresentIn(stream, bandSize, bands, p + m, n)
    ensures PresentIn(stream, bandSize, bands, p, m + n)
  {
    forall i | p <= i < p + m + n ensures Key(stream[i], bandSize) in bands {
      if i < p + m {
        assert Key(stream[i], bandSize) in before.Keys;
      }
    }
  }

  lemma CopiedKept(stream: seq<nat>, bandSize: nat, before: Bands, bands: Bands, n: nat)
    requires 0 < bandSize && before.Keys <= bands.Keys && Copied(stream, bandSize, before, n)
    ensures Copied(stream, bandSize, bands, n)
  {
    forall i | 0 <= i < n ensures Key(stream[i], bandSize) in bands {
      assert Key(stream[i], bandSize) in before.Keys;
    }
  }

  lemma CopiedMore(stream: seq<nat>, bandSize: nat, bands: Bands, p: nat, n: nat)
    requires 0 < bandSize && Copied(stream, bandSize, bands, p) && PresentIn(stream, bandSize, bands, p, n)
    ensures Copied(stream, bandSize, bands, p + n)
  {
  }

  lemma CopiedLess(stream: seq<nat>, bandSize: nat, bands: Bands, n: nat, m: nat)
    requires 0 < bandSize && Copied(stream, bandSize, bands, n) && m <= n
    ensures Copied(stream, bandSize, bands, m)
  {
  }

  lemma ConsecutiveAt(stream: seq<nat>, p: nat, offset: nat, n: nat, j: nat)
    requires Consecutive(stream, p, offset, n) && j < n
    ensures stream[p + j] == offset + j && offset + j in stream
  {
    RangeAt(offset, n, j);
    assert stream[p..p + n][j] == stream[p + j];
  }

  // The copy.

  /** Reading whole blocks around a piece of the device stays on the device and covers its first byte. */
  lemma BlocksInside(size: nat, offset: nat, total: nat, d: nat)
    requires 0 < size && offset + size <= total && Divides(d, total)
    ensures Excess(offset, d) < d <= RoundUp(size, d)
    ensures offset - Excess(offset, d) + RoundUp(size, d) <= total
  {
    var base := offset - Excess(offset, d);
    ExcessDivides(offset, d);
    DividesSum(d, total, base);
    RoundUpBelow(size, total - base, d);
    RoundUpDivides(size, d);
    DivisorAtMost(d, RoundUp(size, d));
  }

  /** An operation on the devices, or a moment between two: it fails, or moves so many bytes if it can. */
  datatype Event = Event(fails: bool, amount: nat)

  /** What happens, in order. */
  type Events = nat -> Event

  /** How many of the events from `lo` to `hi` are failures. */
  ghost function Faults(events: Events, lo: nat, hi: nat): nat {
    if hi <= lo then 0 else Faults(events, lo, hi - 1) + if events(hi - 1).fails then 1 else 0
  }

  lemma {:induction false} FaultsJoin(events: Events, lo: nat, mid: nat, hi: nat)
    requires lo <= mid <= hi
    ensures Faults(events, lo, hi) == Faults(events, lo, mid) + Faults(events, mid, hi)
  {
    if mid < hi {
      FaultsJoin(events, lo, mid, hi - 1);
    }
  }

  class Copy {
    const source: seq<Byte>
    const blockSize: nat
    const bandSize: nat
    const list: seq<seq<Extent>>
    const byteCount: nat
    ghost const extents: seq<Extent>
    /** Bytes that were written to band files; all others read as zero. */
    var bands: Bands
    /** The band the open descriptor belongs to, -1 if there is none. */
    var openBand: int
    /** The recorded progress, 0 if there is none. */
    var progress: nat
    /** How many bytes were ever copied. */
    ghost var fetched: nat
    const events: Events
    /** The events so far. */
    var clock: nat

    ghost predicate Valid()
      reads this
    {
      && 0 < bandSize && Divides(blockSize, |source|)
      && extents == Flat(list) && byteCount == ByteCount(extents)
      && (forall e | e in extents :: e.base + e.length <= |source|)
      && Faithful(source, Stream(extents), bandSize, bands)
      && Copied(Stream(extents), bandSize, bands, progress)
    }

    ghost predicate Complete()
      requires 0 < bandSize
      reads this
    {
      Image(source, Stream(extents), bandSize, bands)
    }

    constructor (source: seq<Byte>, blockSize: nat, bandSize: nat, vop: VolumeObjects, events: Events)
      requires 0 < bandSize && Divides(blockSize, |source|) && vop.Valid()
      requires forall e | e in Flat(vop.list) :: e.base + e.length <= |source|
      ensures Valid() && progress == 0
      ensures this.source == source && this.bandSize == bandSize && extents == Flat(vop.list)
    {
      this.source, this.blockSize, this.bandSize := source, blockSize, bandSize;
      list, byteCount, extents := vop.list, vop.byteCount, Flat(vop.list);
      bands, openBand, progress, fetched := map[], -1, 0, 0;
      this.events, clock := events, 0;
    }

    /**
     * UnalignedRead, from a device that returns at least the first byte that is wanted: a piece of what was
     * wanted, short where the `got` bytes that were read do not reach its end.
     */
    method UnalignedRead(size: nat, offset: nat, answer: nat) returns (buffer: seq<Byte>, ghost got: nat)
      requires Divides(blockSize, |source|) && 0 < size && offset + size <= |source|
      ensures 0 < |buffer| <= size && buffer == source[offset..offset + |buffer|]
      ensures got == Max(Excess(offset, blockSize) + 1, Min(answer, RoundUp(size, blockSize)))
      ensures |buffer| == Min(size, got - Excess(offset, blockSize))
    {
      BlocksInside(size, offset, |source|, blockSize);
      var readSize := RoundedUp(size, blockSize);
      var baseOffset := RoundedDown(offset, blockSize);
      var off := offset - baseOffset;
      var pread := Max(off + 1, Min(answer, readSize));
      got := pread;
      if baseOffset == offset && readSize == size {
        return source[offset..offset + pread], pread;
      }
      var blocks := source[baseOffset..baseOffset + pread];
      var nread := pread - off;
      if nread > size {
        nread := size;
      }
      buffer := blocks[off..off + nread];
      SliceIn(source, baseOffset, pread, off, nread);
    }

    /** One byte in the open band. */
    method PutByte(b: Byte, at: nat, ghost o: nat)
      requires Valid() && 0 <= openBand && Key(o, bandSize) == (openBand, at)
      requires o in Stream(extents) && o < |source| && b == source[o]
      modifies this`bands
      ensures Valid() && old(bands).Keys <= bands.Keys && Key(o, bandSize) in bands
    {
      PutFaithful(source, Stream(extents), bandSize, bands, o);
      bands := bands[(openBand, at) := b];
    }

    /** pwrite to the open band: the first byte of `buffer` goes to offset `o`, the others behind it. */
    method Pwrite(buffer: seq<Byte>, n: nat, at: nat, ghost o: nat, ghost p: nat)
      requires Valid() && n <= |buffer| && at + n <= bandSize
      requires 0 <= openBand && Key(o, bandSize) == (openBand, at)
      requires o + n <= |source| && buffer[..n] == source[o..o + n]
      requires Consecutive(Stream(extents), p, o, n)
      modifies this`bands
      ensures Valid() && old(bands).Keys <= bands.Keys
      ensures PresentIn(Stream(extents), bandSize, bands, p, n)
    {
      ghost var stream := Stream(extents);
      for j := 0 to n
        invariant Valid() && old(bands).Keys <= bands.Keys
        invariant PresentIn(stream, bandSize, bands, p, j)
      {
        ExcessAdvance(o, j, bandSize);
        ConsecutiveAt(stream, p, o, n, j);
        assert buffer[j] == buffer[..n][j] == source[o + j];
        PutByte(buffer[j], at + j, o + j);
      }
    }

    /** One turn of doSparseWrite: as much as the band of offset `o` and the write take. */
    method WriteBand(o: nat, buffer: seq<Byte>, ghost p: nat) returns (ok: bool, nwritten: nat)
      requires Valid() && buffer != [] && o + |buffer| <= |source| && buffer == source[o..o + |buffer|]
      requires Consecutive(Stream(extents), p, o, |buffer|)
      modifies this`bands, this`openBand, this`clock
      ensures clock == old(clock) + 1 && ok == !events(old(clock)).fails
      ensures Valid() && old(bands).Keys <= bands.Keys
      ensures ok ==> 0 < nwritten <= |buffer| && PresentIn(Stream(extents), bandSize, bands, p, nwritten)
    {
      QuotientIsDiv(o, bandSize);
      var bandNum, bandOffset := o / bandSize, o % bandSize;
      var amount := Min(|buffer|, bandSize - bandOffset);
      if openBand != bandNum {
        openBand := bandNum;
      }
      var event := events(clock);
      clock := clock + 1;
      if event.fails {
        openBand := -1;
        return false, 0;
      }
      nwritten := Max(1, Min(event.amount, amount));
      ConsecutiveRest(Stream(extents), p, o, |buffer|, 0, nwritten);
      SliceIn(source, o, |buffer|, 0, nwritten);
      Pwrite(buffer, nwritten, bandOffset, o, p);
      ok := true;
    }

    /**
     * doSparseWrite: the pieces of `buffer` go to their bands, as much as each write takes, until all
     * is written or a write fails.
     */
    method SparseWrite(offset: nat, buffer: seq<Byte>, ghost p: nat) returns (ok: bool)
      requires Valid() && offset + |buffer| <= |source| && buffer == source[offset..offset + |buffer|]
      requires Consecutive(Stream(extents), p, offset, |buffer|)
      modifies this`bands, this`openBand, this`clock
      ensures old(clock) <= clock && Faults(events, old(clock), clock) == if ok then 0 else 1
      ensures Valid() && old(bands).Keys <= bands.Keys
      ensures ok ==> PresentIn(Stream(extents), bandSize, bands, p, |buffer|)
    {
      ghost var stream := Stream(extents);
      var written := 0;
      while written < |buffer|
        invariant written <= |buffer|
        invariant old(clock) <= clock && Faults(events, old(clock), clock) == 0
        invariant Valid() && old(bands).Keys <= bands.Keys
        invariant PresentIn(stream, bandSize, bands, p, written)
        decreases |buffer| - written
      {
        var left := |buffer| - written;
        ghost var before := bands;
        ConsecutiveRest(stream, p, offset, |buffer|, written, left);
        SliceIn(source, offset, |buffer|, written, left);
        var n;
        ok, n := WriteBand(offset + written, buffer[written..], p + written);
        if !ok {
          return;
        }
        PresentJoin(stream, bandSize, before, bands, p, written, n);
        written := written + n;
      }
      ok := true;
    }

    /** A piece is read and written. */
    method MovePiece(start: nat, amount: nat, ghost p: nat) returns (ok: bool, nread: nat)
      requires Valid() && 0 < amount && start + amount <= |source|
      requires Consecutive(Stream(extents), p, start, amount) && Copied(Stream(extents), bandSize, bands, p)
      modifies this`bands, this`openBand, this`clock
      ensures Valid() && Copied(Stream(extents), bandSize, bands, p)
      ensures ok ==> 0 < nread <= amount && Copied(Stream(extents), bandSize, bands, p + nread)
      ensures old(clock) <= clock && Faults(events, old(clock), clock) == if ok then 0 else 1
    {
      ghost var stream, before := Stream(extents), bands;
      var read := events(clock);
      clock := clock + 1;
      if read.fails {
        return false, 0;
      }
      var buffer, _ := UnalignedRead(amount, start, read.amount);
      nread := |buffer|;
      ConsecutiveRest(stream, p, start, amount, 0, nread);
      ghost var mid := clock;
      ok := SparseWrite(start, buffer, p);
      FaultsJoin(events, old(clock), mid, clock);
      CopiedKept(stream, bandSize, before, bands, p);
      if ok {
        CopiedMore(stream, bandSize, bands, p, nread);
      }
    }

    /** One turn of WriteExtentToSparse; false on a failed read or write, or if stopped before the progress is noted. */
    method WritePiece(start: nat, amount: nat, printing: bool, ghost p: nat, position: nat)
        returns (ok: bool, nread: nat)
      requires Valid() && 0 < amount && start + amount <= |source|
      requires Consecutive(Stream(extents), p, start, amount)
      requires position == p && Copied(Stream(extents), bandSize, bands, p)
      modifies this
      ensures Valid() && Copied(Stream(extents), bandSize, bands, p)
      ensures ok ==> 0 < nread <= amount && Copied(Stream(extents), bandSize, bands, p + nread)
      ensures old(clock) <= clock && Faults(events, old(clock), clock) == if ok then 0 else 1
      ensures fetched == old(fetched) + if ok then nread else 0
      ensures progress == if ok && printing then position + nread else old(progress)
    {
      ok, nread := MovePiece(start, amount, p);
      if !ok {
        return;
      }
      var note := events(clock);
      clock := clock + 1;
      if note.fails {
        return false, 0;
      }
      fetched := fetched + nread;
      if printing {
        progress := position + nread;
      }
    }

    /** WriteExtentToSparse: short reads are followed up until the whole extent is written. */
    method WriteExtent(start: nat, len: nat, position: nat, printing: bool) returns (ok: bool, totalWritten: nat)
      requires Valid() && start + len <= |source|
      requires Consecutive(Stream(extents), position, start, len)
      requires Copied(Stream(extents), bandSize, bands, position) && (printing ==> progress == position)
      modifies this
      ensures Valid()
      ensures ok ==> totalWritten == position + len && Copied(Stream(extents), bandSize, bands, position + len)
      ensures ok ==> fetched == old(fetched) + len
      ensures old(clock) <= clock && Faults(events, old(clock), clock) == if ok then 0 else 1
      ensures old(fetched) <= fetched
      ensures progress == if printing then position + fetched - old(fetched) else old(progress)
    {
      ghost var stream := Stream(extents);
      var total := 0;
      totalWritten := position;
      while total < len
        invariant total <= len && totalWritten == position + total && fetched == old(fetched) + total
        invariant progress == if printing then totalWritten else old(progress)
        invariant old(clock) <= clock && Faults(events, old(clock), clock) == 0
        invariant Valid() && Copied(stream, bandSize, bands, position + total)
        decreases len - total
      {
        var amt := Min(BUFFER_SIZE, len - total);
        ConsecutiveRest(stream, position, start, len, total, amt);
        var nread;
        ghost var mid := clock;
        ok, nread := WritePiece(start + total, amt, printing, position + total, totalWritten);
        FaultsJoin(events, old(clock), mid, clock);
        if !ok {
          return;
        }
        total, totalWritten := total + nread, totalWritten + nread;
      }
      ok := true;
    }

    /** The progress when `total` bytes were passed of a copy that started at `start`, and `left` are to be skipped. */
    ghost predicate Noted(total: nat, left: nat, printing: bool, start: nat)
      reads this
    {
      && (left > 0 ==> total + left == start)
      && (printing && left == 0 ==> progress == total)
      && (!printing ==> progress == start)
    }

    /** How far the copy is before extent `e`, with `left` bytes still to skip. */
    ghost predicate At(e: nat, total: nat, left: nat, printing: bool, start: nat, before: nat)
      reads this
    {
      && Valid() && e <= |extents| && total == ByteCount(extents[..e])
      && Copied(Stream(extents), bandSize, bands, total + left)
      && Noted(total, left, printing, start)
      && fetched - before == total + left - start && start <= total + left
    }

    /** A copy that failed noted exactly what it copied, if it notes anything. */
    ghost predicate Stopped(printing: bool, start: nat, before: nat)
      reads this
    {
      before <= fetched && progress == start + if printing then fetched - before else 0
    }

    /** What is left of extent `e` behind its first `left` bytes. */
    method CopyRest(extent: Extent, total: nat, left: nat, printing: bool, ghost e: nat, ghost first: nat,
                    ghost before: nat)
        returns (ok: bool, newTotal: nat)
      requires At(e, total, left, printing, first, before) && e < |extents| && extent == extents[e]
      requires left < extent.length
      modifies this
      ensures Valid()
      ensures old(clock) <= clock && Faults(events, old(clock), clock) == if ok then 0 else 1
      ensures ok ==> At(e + 1, newTotal, 0, printing, first, before)
      ensures !ok ==> Stopped(printing, first, before)
    {
      ExtentInStream(extents, e);
      ConsecutiveRest(Stream(extents), total, extent.base, extent.length, left, extent.length - left);
      assert extents[e] in extents;
      if left != 0 {
        progress := total + left;
      }
      ok, newTotal := WriteExtent(extent.base + left, extent.length - left, total + left, printing);
    }

    /** One extent, number `e` of all, of which the first `left` bytes are skipped. */
    method CopyExtent(extent: Extent, total: nat, left: nat, printing: bool, ghost e: nat, ghost first: nat,
                      ghost before: nat)
        returns (ok: bool, newTotal: nat, newLeft: nat)
      requires At(e, total, left, printing, first, before) && e < |extents| && extent == extents[e]
      modifies this
      ensures Valid()
      ensures old(clock) <= clock && Faults(events, old(clock), clock) == if ok then 0 else 1
      ensures ok ==> At(e + 1, newTotal, newLeft, printing, first, before) && newLeft == Max(0, left - extent.length)
      ensures !ok ==> Stopped(printing, first, before)
    {
      if left < extent.length {
        newLeft := 0;
        ok, newTotal := CopyRest(extent, total, left, printing, e, first, before);
      } else {
        ExtentInStream(extents, e);
        newLeft, newTotal := left - extent.length, total + extent.length;
        CopiedLess(Stream(extents), bandSize, bands, newTotal + newLeft, newTotal);
        if printing {
          progress := newTotal;
        }
        ok := true;
      }
    }

    /** doCleanup: all bands are removed. */
    method Cleanup()
      requires Valid() && progress == 0
      modifies this`bands
      ensures Valid() && bands == map[]
    {
      bands := map[];
    }

    /** The inner loop: the extents of one chunk. */
    method CopyChunk(c: nat, total: nat, left: nat, printing: bool, ghost start: nat, ghost before: nat)
        returns (ok: bool, newTotal: nat, newLeft: nat)
      requires c < |list| && At(|Flat(list[..c])|, total, left, printing, start, before)
      modifies this
      ensures Valid()
      ensures old(clock) <= clock && Faults(events, old(clock), clock) == if ok then 0 else 1
      ensures ok ==> At(|Flat(list[..c + 1])|, newTotal, newLeft, printing, start, before)
      ensures !ok ==> Stopped(printing, start, before)
    {
      ghost var first := |Flat(list[..c])|;
      newTotal, newLeft := total, left;
      for i := 0 to |list[c]|
        invariant At(first + i, newTotal, newLeft, printing, start, before)
        invariant old(clock) <= clock && Faults(events, old(clock), clock) == 0
      {
        ChunkInFlat(list, c, i);
        ghost var mid := clock;
        ok, newTotal, newLeft := CopyExtent(list[c][i], newTotal, newLeft, printing, first + i, start, before);
        FaultsJoin(events, old(clock), mid, clock);
        if !ok {
          return;
        }
      }
      ok := true;
      FlatTo(list, c + 1);
    }

    /**
     * CopyObjectsToDest, from the recorded progress.  If nothing fails everything is there, and exactly what the
     * progress left open was copied.  Otherwise the progress still names bytes that are all there, and has
     * grown by just what was copied if it is noted as the copy goes on.
     */
    method CopyObjects(printing: bool) returns (ok: bool)
      requires Valid()
      modifies this
      ensures Valid()
      ensures old(clock) <= clock && Faults(events, old(clock), clock) == if ok then 0 else 1
      ensures ok ==> Complete() && progress == 0
      ensures ok ==> fetched - old(fetched) == ByteCount(extents) - old(progress)
      ensures !ok ==>
                old(fetched) <= fetched && progress == old(progress) + if printing then fetched - old(fetched) else 0
    {
      var left: nat, total: nat := progress, 0;
      if left == 0 {
        Cleanup();
      }
      ghost var start, before := progress, fetched;
      assert extents[..0] == [];
      for c := 0 to |list|
        invariant At(|Flat(list[..c])|, total, left, printing, start, before)
        invariant old(clock) <= clock && Faults(events, old(clock), clock) == 0
      {
        ghost var mid := clock;
        ok, total, left := CopyChunk(c, total, left, printing, start, before);
        FaultsJoin(events, old(clock), mid, clock);
        if !ok {
          return;
        }
      }
      assert list[..|list|] == list && extents[..|extents|] == extents;
      CopiedLess(Stream(extents), bandSize, bands, total + left, total);
      if total == byteCount {
        progress := 0;
      }
      ok := true;
    }

    /**
     * Sessions that are interrupted anywhere and resumed, until one of them gets through: one more than there are
     * failures are enough.  Over all of them no byte is copied twice if the progress is noted.
     */
    method Sessions(attempts: nat, printing: bool) returns (finished: bool)
      requires Valid()
      modifies this
      ensures Valid() && (finished ==> Complete() && progress == 0)
      ensures old(clock) <= clock
      ensures if finished then Faults(events, old(clock), clock) < attempts
              else Faults(events, old(clock), clock) == attempts
      ensures finished && printing ==> fetched - old(fetched) == ByteCount(extents) - old(progress)
    {
      finished := false;
      for i := 0 to attempts
        invariant Valid() && !finished
        invariant old(clock) <= clock && Faults(events, old(clock), clock) == i
        invariant printing ==> fetched - old(fetched) == progress - old(progress)
      {
        ghost var mid := clock;
        finished := CopyObjects(printing);
        FaultsJoin(events, old(clock), mid, clock);
        if finished {
          return;
        }
      }
    }
  }

  /** However often two copies of the same extents were interrupted, in the end they hold the same bytes. */
  lemma SameBytesInTheEnd(a: Copy, b: Copy)
    requires a.source == b.source && a.extents == b.extents && a.bandSize == b.bandSize > 0
    requires a.Complete() && b.Complete()
    ensures a.bands == b.bands
  {
    ImageUnique(a.source, Stream(a.extents), a.bandSize, a.bands, b.bands);
  }
}
