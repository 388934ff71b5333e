/** Swapping B-tree nodes in place (hfs_endian.c), at positions read from the node being swapped. */
module NodeSwap {
  import opened Bytes
  import opened ByteOrder
  import opened Held
  import opened NodeLayout

  /** Reading a 16-bit field: before it is unswapped, or after it was swapped. */
  lemma HeldWord(s: seq<Byte>, p: nat, native: seq<Byte>, unswap: bool)
    requires Holds(s, p, native, Field(2), unswap)
    ensures unswap ==> U16(s, p) == U16(native, 0)
    ensures !unswap ==> U16(FlipAt(s, p, Field(2)), p) == U16(native, 0)
  {
    assert HeldByte(s, p, native, Field(2), unswap, 0) && HeldByte(s, p, native, Field(2), unswap, 1);
    FlipAtByte(s, p, Field(2), p);
    FlipAtByte(s, p, Field(2), p + 1);
  }

  function WordAt(buf: array<Byte>, p: nat): (v: nat)
    requires p + 2 <= buf.Length
    reads buf
    ensures v == U16(buf[..], p)
  {
    U16([buf[p], buf[p + 1]], 0)
  }

  /** A length that is read on the native side of its own swap. */
  method SwapLength(buf: array<Byte>, p: nat, unswap: bool, ghost native: seq<Byte>) returns (length: nat)
    requires Holds(buf[..], p, native, Field(2), unswap)
    modifies buf
    ensures length == U16(native, 0)
    ensures buf[..] == FlipAt(old(buf[..]), p, Field(2))
  {
    HeldWord(buf[..], p, native, unswap);
    if !unswap {
      SwapField(buf, p, 2);
    }
    length := WordAt(buf, p);
    if unswap {
      SwapField(buf, p, 2);
    }
  }

  /**
   * A counted array of characters: its length is swapped before the characters when swapping, after
   * them when unswapping, because it says how many there are.
   */
  method SwapUnicode(buf: array<Byte>, p: nat, unswap: bool, ghost native: seq<Byte>)
    requires 2 <= |native| && Holds(buf[..], p, native, Counted(U16(native, 0)), unswap)
    modifies buf
    ensures buf[..] == FlipAt(old(buf[..]), p, Counted(U16(native, 0)))
  {
    ghost var s, chars := buf[..], Words(U16(native, 0));
    HoldsParts(s, p, native, Field(2), chars, unswap, 2);
    HeldWord(s, p, native[..2], unswap);
    FlipAtThen(s, p, Field(2), chars);
    if !unswap {
      SwapField(buf, p, 2);
    }
    var length := WordAt(buf, p);
    SwapWords(buf, p + 2, length);
    if unswap {
      SwapField(buf, p, 2);
    }
  }

  // Keys.

  lemma FlipAtPadded(s: seq<Byte>, p: nat, sh: Shape, size: nat)
    requires Size(sh) <= size && p + size <= |s|
    ensures FlipAt(s, p, Padded(sh, size)) == FlipAt(s, p, sh)
  {
    FlipAtJoin(s, p, sh, Plain(size - Size(sh)));
    FlipAtPlain(FlipAt(s, p, sh), p + Size(sh), size - Size(sh));
  }

  lemma HoldsUnpadded(s: seq<Byte>, p: nat, native: seq<Byte>, sh: Shape, unswap: bool)
    requires Size(sh) <= |native| && Holds(s, p, native, Padded(sh, |native|), unswap)
    ensures Holds(s, p, native[..Size(sh)], sh, unswap)
  {
    FirstPart(s, p, native, sh, Plain(|native| - Size(sh)), unswap, Size(sh));
  }

  /** The 16-bit word a native structure starts with. */
  lemma FirstWord(native: seq<Byte>, n: nat)
    requires 2 <= n <= |native|
    ensures U16(native[..n][..2], 0) == U16(native, 0) == U16(native[..n], 0)
  {
  }

  method SwapPlusExtentKey(buf: array<Byte>, p: nat, unswap: bool, ghost key: seq<Byte>) returns (span: nat)
    requires KeyFits(PlusExtents, key) && |key| == KeySpan(PlusExtents, key)
    requires Holds(buf[..], p, key, KeyShape(PlusExtents, key), unswap)
    modifies buf
    ensures span == |key|
    ensures buf[..] == FlipAt(old(buf[..]), p, KeyShape(PlusExtents, key))
  {
    ghost var s, rest := buf[..], Then(Plain(2), Longs(2));
    HoldsUnpadded(s, p, key, Then(Field(2), rest), unswap);
    FirstPart(s, p, key[..12], Field(2), rest, unswap, 2);
    FirstWord(key, 12);
    FlipAtPadded(s, p, Then(Field(2), rest), |key|);
    FlipAtJoin(s, p, Field(2), rest);
    var length := SwapLength(buf, p, unswap, key[..12][..2]);
    span := length + 2;
    SwapShape(buf, p + 2, Then(Plain(2), Longs(2)));
  }

  lemma NameLength(key: seq<Byte>, n: nat)
    requires 8 <= n <= |key|
    ensures U16(key[..n][6..], 0) == U16(key, 6)
  {
  }

  method SwapPlusCatalogKey(buf: array<Byte>, p: nat, unswap: bool, ghost key: seq<Byte>) returns (span: nat)
    requires KeyFits(PlusCatalog, key) && |key| == KeySpan(PlusCatalog, key)
    requires Holds(buf[..], p, key, KeyShape(PlusCatalog, key), unswap)
    modifies buf
    ensures span == |key|
    ensures buf[..] == FlipAt(old(buf[..]), p, KeyShape(PlusCatalog, key))
  {
    ghost var s, head, name := buf[..], Then(Field(2), Field(4)), Counted(U16(key, 6));
    ghost var fields := key[..8 + 2 * U16(key, 6)];
    HoldsUnpadded(s, p, key, Then(head, name), unswap);
    HoldsParts(s, p, fields, head, name, unswap, 6);
    FirstPart(s, p, fields[..6], Field(2), Field(4), unswap, 2);
    HoldsKept(s, p, head, p + 6, fields[6..], name, unswap);
    NameLength(key, |fields|);
    FlipAtPadded(s, p, Then(head, name), |key|);
    FlipAtJoin(s, p, head, name);
    FlipAtJoin(s, p, Field(2), Field(4));
    var length := SwapLength(buf, p, unswap, fields[..6][..2]);
    span := length + 2;
    SwapField(buf, p + 2, 4);
    SwapUnicode(buf, p + 6, unswap, fields[6..]);
  }

  /** A byte that no swap touches. */
  lemma PlainByte(s: seq<Byte>, p: nat, native: seq<Byte>, n: nat, rest: Shape, unswap: bool)
    requires 0 < n && Holds(s, p, native, Then(Plain(n), rest), unswap)
    ensures 0 < |native| && p < |s|
    ensures s[p] == native[0] == FlipAt(s, p, Then(Plain(n), rest))[p]
  {
    assert Mate(Plain(n), 0) == 0;
    assert Mate(Then(Plain(n), rest), 0) == 0;
    assert HeldByte(s, p, native, Then(Plain(n), rest), unswap, 0);
    FlipAtByte(s, p, Then(Plain(n), rest), p);
  }

  /** Standard HFS keys: fixed fields, and a key length of one byte that is never swapped. */
  method SwapHfsKey(buf: array<Byte>, p: nat, t: Tree, unswap: bool, ghost key: seq<Byte>) returns (span: nat)
    requires t == HfsExtents || t == HfsCatalog
    requires KeyFits(t, key) && |key| == KeySpan(t, key)
    requires Holds(buf[..], p, key, KeyShape(t, key), unswap)
    modifies buf
    ensures span == |key|
    ensures buf[..] == FlipAt(old(buf[..]), p, KeyShape(t, key))
  {
    ghost var s := buf[..];
    ghost var rest := if t == HfsExtents then Then(Field(4), Field(2)) else Field(4);
    ghost var fields := Then(Plain(2), rest);
    HoldsUnpadded(s, p, key, fields, unswap);
    PlainByte(s, p, key[..Size(fields)], 2, rest, unswap);
    FlipAtPadded(s, p, fields, |key|);
    if t == HfsExtents {
      SwapShape(buf, p, Then(Plain(2), Then(Field(4), Field(2))));
    } else {
      SwapShape(buf, p, Then(Plain(2), Field(4)));
    }
    span := (buf[p] as int + 2) / 2 * 2;
  }

  method SwapKey(buf: array<Byte>, p: nat, t: Tree, unswap: bool, ghost key: seq<Byte>) returns (span: nat)
    requires KeyFits(t, key) && |key| == KeySpan(t, key)
    requires Holds(buf[..], p, key, KeyShape(t, key), unswap)
    modifies buf
    ensures span == |key|
    ensures buf[..] == FlipAt(old(buf[..]), p, KeyShape(t, key))
  {
    match t {
      case PlusExtents => span := SwapPlusExtentKey(buf, p, unswap, key);
      case PlusCatalog => span := SwapPlusCatalogKey(buf, p, unswap, key);
      case _ => span := SwapHfsKey(buf, p, t, unswap, key);
    }
  }

  // Data.

  lemma ThreadName(data: seq<Byte>, n: nat)
    requires 10 <= n <= |data|
    ensures U16(data[..n][2..][6..], 0) == U16(data, 8)
  {
  }

  /** HFSPlusCatalogThread behind its type. */
  method SwapPlusThread(buf: array<Byte>, p: nat, unswap: bool, ghost native: seq<Byte>)
    requires 8 <= |native| && Holds(buf[..], p, native, PlusThread(U16(native[6..], 0)), unswap)
    modifies buf
    ensures buf[..] == FlipAt(old(buf[..]), p, PlusThread(U16(native[6..], 0)))
  {
    ghost var s, head, name := buf[..], Then(Plain(2), Field(4)), Counted(U16(native[6..], 0));
    HoldsParts(s, p, native, head, name, unswap, 6);
    HoldsKept(s, p, head, p + 6, native[6..], name, unswap);
    FlipAtJoin(s, p, head, name);
    SwapShape(buf, p, Then(Plain(2), Field(4)));
    SwapUnicode(buf, p + 6, unswap, native[6..]);
  }

  /** What follows the type of a catalog record; any other type is a panic. */
  method SwapCatalogBody(buf: array<Byte>, p: nat, t: Tree, kind: nat, unswap: bool, ghost data: seq<Byte>)
      returns (panic: bool)
    requires (t == PlusCatalog || t == HfsCatalog) && CatalogFits(t, data) && kind == U16(data, 0)
    requires Holds(buf[..], p, data[..2 + Size(CatalogBody(t, data))][2..], CatalogBody(t, data), unswap)
    modifies buf
    ensures !panic
    ensures buf[..] == FlipAt(old(buf[..]), p, CatalogBody(t, data))
  {
    panic := false;
    if t == PlusCatalog {
      if kind == 1 {
        SwapShape(buf, p, PlusFolder());
      } else if kind == 2 {
        SwapShape(buf, p, PlusFile());
      } else if kind == 3 || kind == 4 {
        ghost var n := 2 + Size(CatalogBody(t, data));
        ThreadName(data, n);
        SwapPlusThread(buf, p, unswap, data[..n][2..]);
      } else {
        panic := true;
      }
    } else {
      if kind == 0x100 {
        SwapShape(buf, p, HfsFolder());
      } else if kind == 0x200 {
        SwapShape(buf, p, HfsFile());
      } else if kind == 0x300 || kind == 0x400 {
        SwapShape(buf, p, HfsThread());
      } else {
        panic := true;
      }
    }
  }

  lemma TypedFields(s: seq<Byte>, p: nat, unswap: bool, fields: seq<Byte>, body: Shape)
    requires Holds(s, p, fields, Then(Field(2), body), unswap)
    ensures 2 <= |fields| && p + 2 <= |s|
    ensures unswap ==> U16(s, p) == U16(fields[..2], 0)
    ensures !unswap ==> U16(FlipAt(s, p, Field(2)), p) == U16(fields[..2], 0)
    ensures Holds(s, p + 2, fields[2..], body, unswap)
    ensures Holds(FlipAt(s, p, Field(2)), p + 2, fields[2..], body, unswap)
  {
    FirstPart(s, p, fields, Field(2), body, unswap, 2);
    SecondPart(s, p, fields, Field(2), body, unswap, 2);
    HeldWord(s, p, fields[..2], unswap);
    HoldsKept(s, p, Field(2), p + 2, fields[2..], body, unswap);
  }

  /** A record body behind its 16-bit type. */
  lemma TypedParts(s: seq<Byte>, p: nat, unswap: bool, data: seq<Byte>, body: Shape)
    requires 2 + Size(body) <= |data| && Holds(s, p, data, Padded(Then(Field(2), body), |data|), unswap)
    ensures unswap ==> U16(s, p) == U16(data, 0)
    ensures !unswap ==> U16(FlipAt(s, p, Field(2)), p) == U16(data, 0)
    ensures Holds(s, p + 2, data[..2 + Size(body)][2..], body, unswap)
    ensures Holds(FlipAt(s, p, Field(2)), p + 2, data[..2 + Size(body)][2..], body, unswap)
  {
    var fields := data[..2 + Size(body)];
    HoldsUnpadded(s, p, data, Then(Field(2), body), unswap);
    TypedFields(s, p, unswap, fields, body);
    FirstWord(data, |fields|);
  }

  lemma TypedWhole(s: seq<Byte>, p: nat, size: nat, body: Shape, whole: Shape)
    requires 2 + Size(body) <= size && p + size <= |s| && whole == Padded(Then(Field(2), body), size)
    ensures FlipAt(FlipAt(s, p, Field(2)), p + 2, body) == FlipAt(s, p, whole)
    ensures FlipAt(FlipAt(s, p + 2, body), p, Field(2)) == FlipAt(s, p, whole)
  {
    var word := Field(2);
    FlipAtThen(s, p, word, body);
    FlipAtPadded(s, p, Then(word, body), size);
  }

  /** A catalog leaf record: its type is read on the native side of its own swap. */
  method SwapCatalogData(buf: array<Byte>, p: nat, t: Tree, unswap: bool, ghost data: seq<Byte>)
      returns (panic: bool)
    requires (t == PlusCatalog || t == HfsCatalog) && CatalogFits(t, data)
    requires Holds(buf[..], p, data, DataShape(t, false, data), unswap)
    modifies buf
    ensures !panic
    ensures buf[..] == FlipAt(old(buf[..]), p, DataShape(t, false, data))
  {
    ghost var body := CatalogBody(t, data);
    TypedParts(buf[..], p, unswap, data, body);
    TypedWhole(buf[..], p, |data|, body, DataShape(t, false, data));
    if !unswap {
      SwapField(buf, p, 2);
    }
    var kind := WordAt(buf, p);
    panic := SwapCatalogBody(buf, p + 2, t, kind, unswap, data);
    if unswap {
      SwapField(buf, p, 2);
    }
  }

  method SwapData(buf: array<Byte>, p: nat, t: Tree, index: bool, unswap: bool, ghost data: seq<Byte>)
      returns (panic: bool)
    requires DataFits(t, index, data)
    requires Holds(buf[..], p, data, DataShape(t, index, data), unswap)
    modifies buf
    ensures !panic
    ensures buf[..] == FlipAt(old(buf[..]), p, DataShape(t, index, data))
  {
    FlipAtPadded(buf[..], p, DataFields(t, index, data), |data|);
    panic := false;
    if index {
      SwapField(buf, p, 4);
    } else if t == PlusExtents {
      SwapLongs(buf, p, 16);
    } else if t == HfsExtents {
      SwapWords(buf, p, 6);
    } else {
      panic := SwapCatalogData(buf, p, t, unswap, data);
    }
  }

  lemma KeyOnItsOwn(t: Tree, rec: seq<Byte>)
    requires KeyFits(t, rec)
    ensures var key := rec[..KeySpan(t, rec)];
            KeyFits(t, key) && KeySpan(t, key) == |key| && KeyShape(t, key) == KeyShape(t, rec)
  {
    var key := rec[..KeySpan(t, rec)];
    assert key[0] == rec[0] && key[1] == rec[1];
    assert t == PlusCatalog ==> U16(key, 6) == U16(rec, 6);
  }

  lemma RecordParts(s: seq<Byte>, p: nat, t: Tree, index: bool, unswap: bool, rec: seq<Byte>, n: nat)
    requires RecordFits(t, index, rec) && n == KeySpan(t, rec)
    requires Holds(s, p, rec, RecordShape(t, index, rec), unswap)
    ensures KeyFits(t, rec[..n]) && KeySpan(t, rec[..n]) == n
    ensures Holds(s, p, rec[..n], KeyShape(t, rec[..n]), unswap)
    ensures var done := FlipAt(s, p, KeyShape(t, rec[..n]));
            && Holds(done, p + n, rec[n..], DataShape(t, index, rec[n..]), unswap)
            && FlipAt(done, p + n, DataShape(t, index, rec[n..])) == FlipAt(s, p, RecordShape(t, index, rec))
  {
    var key, data := KeyShape(t, rec), DataShape(t, index, rec[n..]);
    HoldsParts(s, p, rec, key, data, unswap, n);
    HoldsKept(s, p, key, p + n, rec[n..], data, unswap);
    KeyOnItsOwn(t, rec);
    FlipAtJoin(s, p, key, data);
  }

  method SwapRecord(buf: array<Byte>, p: nat, t: Tree, index: bool, unswap: bool, ghost rec: seq<Byte>)
      returns (panic: bool)
    requires RecordFits(t, index, rec)
    requires Holds(buf[..], p, rec, RecordShape(t, index, rec), unswap)
    modifies buf
    ensures !panic
    ensures buf[..] == FlipAt(old(buf[..]), p, RecordShape(t, index, rec))
  {
    ghost var n := KeySpan(t, rec);
    RecordParts(buf[..], p, t, index, unswap, rec, n);
    var span := SwapKey(buf, p, t, unswap, rec[..n]);
    panic := SwapData(buf, p + span, t, index, unswap, rec[n..]);
  }
}
