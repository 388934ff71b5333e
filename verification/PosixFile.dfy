/** The flat meaning of a file: what POSIX promises for write, ftruncate and read. */
module PosixFile {
  import opened Bytes

  datatype Op =
    | Write(offset: nat, data: seq<Byte>)
    | Truncate(length: nat)

  function Resize(c: seq<Byte>, length: nat): (r: seq<Byte>)
    ensures |r| == length
  {
    if length <= |c| then c[..length] else c + Zeros(length - |c|)
  }

  function Overwrite(c: seq<Byte>, offset: nat, data: seq<Byte>): (r: seq<Byte>)
    ensures |r| == if data == [] then |c| else Max(|c|, offset + |data|)
  {
    if data == [] then c else
    var wide := Resize(c, Max(|c|, offset + |data|));
    wide[..offset] + data + wide[offset + |data|..]
  }

  /** Byte `i` of the file after a write: new, old, or in the gap between. */
  function OverwrittenByte(c: seq<Byte>, offset: nat, data: seq<Byte>, i: nat): Byte {
    if offset <= i < offset + |data| then data[i - offset] else if i < |c| then c[i] else 0
  }

  lemma OverwriteAt(c: seq<Byte>, offset: nat, data: seq<Byte>, i: nat)
    requires i < |Overwrite(c, offset, data)|
    ensures Overwrite(c, offset, data)[i] == OverwrittenByte(c, offset, data, i)
  {
  }

  function Slice(c: seq<Byte>, offset: nat, n: nat): (r: seq<Byte>) {
    c[Min(offset, |c|)..Min(offset + n, |c|)]
  }

  function Apply(c: seq<Byte>, op: Op): (r: seq<Byte>) {
    match op
    case Write(offset, data) => Overwrite(c, offset, data)
    case Truncate(length) => Resize(c, length)
  }

  function Run(ops: seq<Op>): (c: seq<Byte>) {
    if ops == [] then [] else Apply(Run(ops[..|ops| - 1]), ops[|ops| - 1])
  }

  /** Byte `i` as a reader of the history would reconstruct it, newest operation first. */
  function LastByte(ops: seq<Op>, i: nat): (b: Byte) {
    if ops == [] then 0 else
    match ops[|ops| - 1]
    case Write(offset, data) =>
      if offset <= i < offset + |data| then data[i - offset] else LastByte(ops[..|ops| - 1], i)
    case Truncate(length) =>
      if length <= i then 0 else LastByte(ops[..|ops| - 1], i)
  }

  /** Last writer wins, and every byte no surviving write covers is zero. */
  lemma {:induction false} RunIsLastByte(ops: seq<Op>, i: nat)
    ensures LastByte(ops, i) == if i < |Run(ops)| then Run(ops)[i] else 0
  {
    if ops != [] {
      RunIsLastByte(ops[..|ops| - 1], i);
    }
  }

  lemma RunAppend(ops: seq<Op>, op: Op)
    ensures Run(ops + [op]) == Apply(Run(ops), op)
  {
    assert (ops + [op])[..|ops|] == ops;
  }

  lemma SlicePrefix(s: seq<Byte>, size: nat, offset: nat, n: nat)
    requires offset <= size <= |s|
    ensures s[offset..Min(offset + n, size)] == Slice(s[..size], offset, n)
  {
  }

  /** What a read returns is determined by the history, byte by byte. */
  lemma SliceIsLast(ops: seq<Op>, offset: nat, n: nat)
    ensures forall k | 0 <= k < |Slice(Run(ops), offset, n)| ::
              Slice(Run(ops), offset, n)[k] == LastByte(ops, offset + k)
  {
    var c := Run(ops);
    forall k | 0 <= k < |Slice(c, offset, n)| ensures Slice(c, offset, n)[k] == LastByte(ops, offset + k) {
      SliceAt(c, offset, n, k);
      RunIsLastByte(ops, offset + k);
    }
  }

  lemma SliceAt(c: seq<Byte>, offset: nat, n: nat, k: nat)
    requires k < |Slice(c, offset, n)|
    ensures offset + k < |c| && Slice(c, offset, n)[k] == c[offset + k]
  {
  }
}
