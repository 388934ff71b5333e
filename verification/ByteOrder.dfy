/** Byte order of structures: which of their bytes form fields that are stored big-endian on disk. */
module ByteOrder {
  import opened Bytes

  /** Bytes never swapped, one field, an array of 16- or 32-bit fields, or one structure behind another. */
  datatype Shape =
    | Plain(n: nat)
    | Field(w: nat)
    | Words(count: nat)
    | Longs(count: nat)
    | Then(first: Shape, rest: Shape)

  function Size(sh: Shape): nat {
    match sh
    case Plain(n) => n
    case Field(w) => w
    case Words(count) => 2 * count
    case Longs(count) => 4 * count
    case Then(first, rest) => Size(first) + Size(rest)
  }

  /** In an array of 16-bit fields. */
  function WordMate(count: nat, i: nat): (m: nat)
    requires i < 2 * count
    ensures m < 2 * count
  {
    if i < 2 then 1 - i else 2 + WordMate(count - 1, i - 2)
  }

  /** In an array of 32-bit fields. */
  function LongMate(count: nat, i: nat): (m: nat)
    requires i < 4 * count
    ensures m < 4 * count
  {
    if i < 4 then 3 - i else 4 + LongMate(count - 1, i - 4)
  }

  /** Where byte `i` comes from when every field is turned end for end. */
  function Mate(sh: Shape, i: nat): (m: nat)
    requires i < Size(sh)
    ensures m < Size(sh)
  {
    match sh
    case Plain(n) => i
    case Field(w) => w - 1 - i
    case Words(count) => WordMate(count, i)
    case Longs(count) => LongMate(count, i)
    case Then(first, rest) =>
      if i < Size(first) then Mate(first, i) else Size(first) + Mate(rest, i - Size(first))
  }

  lemma {:induction false} WordMateAt(count: nat, j: nat, k: nat)
    requires j < count && k < 2
    ensures 2 * j + k < 2 * count && WordMate(count, 2 * j + k) == 2 * j + 1 - k
  {
    if j > 0 {
      WordMateAt(count - 1, j - 1, k);
      assert 2 * (j - 1) + k == 2 * j + k - 2;
    }
  }

  lemma {:induction false} LongMateAt(count: nat, j: nat, k: nat)
    requires j < count && k < 4
    ensures 4 * j + k < 4 * count && LongMate(count, 4 * j + k) == 4 * j + 3 - k
  {
    if j > 0 {
      LongMateAt(count - 1, j - 1, k);
      assert 4 * (j - 1) + k == 4 * j + k - 4;
    }
  }

  lemma {:induction false} WordMateTwice(count: nat, i: nat)
    requires i < 2 * count
    ensures WordMate(count, WordMate(count, i)) == i
  {
    if i >= 2 {
      WordMateTwice(count - 1, i - 2);
    }
  }

  lemma {:induction false} LongMateTwice(count: nat, i: nat)
    requires i < 4 * count
    ensures LongMate(count, LongMate(count, i)) == i
  {
    if i >= 4 {
      LongMateTwice(count - 1, i - 4);
    }
  }

  /** One more field at the end of an array. */
  lemma {:induction false} WordsGrow(count: nat, i: nat)
    requires i < 2 * count
    ensures WordMate(count + 1, i) == WordMate(count, i)
  {
    if i >= 2 {
      WordsGrow(count - 1, i - 2);
    }
  }

  lemma {:induction false} LongsGrow(count: nat, i: nat)
    requires i < 4 * count
    ensures LongMate(count + 1, i) == LongMate(count, i)
  {
    if i >= 4 {
      LongsGrow(count - 1, i - 4);
    }
  }

  lemma OneMoreWord(count: nat, i: nat)
    requires i < 2 * (count + 1)
    ensures Mate(Then(Words(count), Field(2)), i) == Mate(Words(count + 1), i)
  {
    if i < 2 * count {
      WordsGrow(count, i);
    } else {
      WordMateAt(count + 1, count, i - 2 * count);
    }
  }

  lemma OneMoreLong(count: nat, i: nat)
    requires i < 4 * (count + 1)
    ensures Mate(Then(Longs(count), Field(4)), i) == Mate(Longs(count + 1), i)
  {
    if i < 4 * count {
      LongsGrow(count, i);
    } else {
      LongMateAt(count + 1, count, i - 4 * count);
    }
  }

  /** Byte `i` of a buffer once the structure at `p` is flipped. */
  function Flipped(s: seq<Byte>, p: nat, sh: Shape, i: nat): Byte
    requires p + Size(sh) <= |s| && i < |s|
  {
    if p <= i < p + Size(sh) then s[p + Mate(sh, i - p)] else s[i]
  }

  predicate FlipsByte(s: seq<Byte>, p: nat, sh: Shape, r: seq<Byte>, i: nat)
    requires p + Size(sh) <= |s| && i < |s| == |r|
  {
    r[i] == Flipped(s, p, sh, i)
  }

  ghost predicate Flips(s: seq<Byte>, p: nat, sh: Shape, r: seq<Byte>)
    requires p + Size(sh) <= |s|
  {
    |r| == |s| && forall i {:trigger FlipsByte(s, p, sh, r, i)} | 0 <= i < |s| :: FlipsByte(s, p, sh, r, i)
  }

  lemma FlipExists(s: seq<Byte>, p: nat, sh: Shape)
    requires p + Size(sh) <= |s|
    ensures exists r :: Flips(s, p, sh, r)
  {
    var r := seq(|s|, i requires 0 <= i < |s| => Flipped(s, p, sh, i));
    assert Flips(s, p, sh, r);
  }

  /** The buffer with every field of the structure at `p` turned end for end. */
  ghost function FlipAt(s: seq<Byte>, p: nat, sh: Shape): (r: seq<Byte>)
    requires p + Size(sh) <= |s|
    ensures |r| == |s|
  {
    FlipExists(s, p, sh);
    var r :| Flips(s, p, sh, r);
    r
  }

  /** A whole structure flipped. */
  ghost function Flip(s: seq<Byte>, sh: Shape): (r: seq<Byte>)
    requires |s| == Size(sh)
    ensures |r| == |s|
  {
    FlipAt(s, 0, sh)
  }

  lemma FlipAtByte(s: seq<Byte>, p: nat, sh: Shape, i: nat)
    requires p + Size(sh) <= |s| && i < |s|
    ensures FlipAt(s, p, sh)[i] == Flipped(s, p, sh, i)
  {
    assert FlipsByte(s, p, sh, FlipAt(s, p, sh), i);
  }

  lemma FlipAtIndex(s: seq<Byte>, p: nat, sh: Shape)
    requires p + Size(sh) <= |s|
    ensures forall i | 0 <= i < |s| :: FlipAt(s, p, sh)[i] == Flipped(s, p, sh, i)
  {
    forall i | 0 <= i < |s| ensures FlipAt(s, p, sh)[i] == Flipped(s, p, sh, i) {
      FlipAtByte(s, p, sh, i);
    }
  }

  lemma {:induction false} MateTwice(sh: Shape, i: nat)
    requires i < Size(sh)
    ensures Mate(sh, Mate(sh, i)) == i
  {
    match sh {
      case Then(first, rest) =>
        if i < Size(first) {
          MateTwice(first, i);
        } else {
          MateTwice(rest, i - Size(first));
        }
      case Words(count) => WordMateTwice(count, i);
      case Longs(count) => LongMateTwice(count, i);
      case _ =>
    }
  }

  // Flipping in steps.

  lemma SameBytes(x: seq<Byte>, y: seq<Byte>)
    requires |x| == |y| && forall i | 0 <= i < |x| :: x[i] == y[i]
    ensures x == y
  {
  }

  lemma JoinedByte(s: seq<Byte>, p: nat, a: Shape, b: Shape, q: nat, one: seq<Byte>, i: nat)
    requires p + Size(a) + Size(b) <= |s| && i < |s| && q == p + Size(a) && one == FlipAt(s, p, a)
    ensures FlipAt(one, q, b)[i] == FlipAt(s, p, Then(a, b))[i]
  {
    FlipAtByte(one, q, b, i);
    FlipAtByte(s, p, Then(a, b), i);
    if q <= i < q + Size(b) {
      assert Mate(Then(a, b), i - p) == Size(a) + Mate(b, i - q);
      FlipAtByte(s, p, a, q + Mate(b, i - q));
    } else {
      FlipAtByte(s, p, a, i);
    }
  }

  /** Two consecutive structures are swapped one by one. */
  lemma FlipAtJoin(s: seq<Byte>, p: nat, a: Shape, b: Shape)
    requires p + Size(a) + Size(b) <= |s|
    ensures FlipAt(FlipAt(s, p, a), p + Size(a), b) == FlipAt(s, p, Then(a, b))
  {
    var one, q := FlipAt(s, p, a), p + Size(a);
    var left, right := FlipAt(one, q, b), FlipAt(s, p, Then(a, b));
    forall i | 0 <= i < |s| ensures left[i] == right[i] {
      JoinedByte(s, p, a, b, q, one, i);
    }
    SameBytes(left, right);
  }

  lemma ApartByte(s: seq<Byte>, p: nat, a: Shape, q: nat, b: Shape, i: nat)
    requires p + Size(a) <= |s| && q + Size(b) <= |s| && i < |s|
    requires p + Size(a) <= q || q + Size(b) <= p
    ensures p <= i < p + Size(a) ==> FlipAt(FlipAt(s, p, a), q, b)[i] == s[p + Mate(a, i - p)]
    ensures q <= i < q + Size(b) ==> FlipAt(FlipAt(s, p, a), q, b)[i] == s[q + Mate(b, i - q)]
    ensures !(p <= i < p + Size(a)) && !(q <= i < q + Size(b)) ==> FlipAt(FlipAt(s, p, a), q, b)[i] == s[i]
  {
    FlipAtByte(s, p, a, if q <= i < q + Size(b) then q + Mate(b, i - q) else i);
    FlipAtByte(FlipAt(s, p, a), q, b, i);
  }

  lemma CommutedByte(s: seq<Byte>, p: nat, a: Shape, q: nat, b: Shape, i: nat)
    requires p + Size(a) <= q && q + Size(b) <= |s| && i < |s|
    ensures FlipAt(FlipAt(s, p, a), q, b)[i] == FlipAt(FlipAt(s, q, b), p, a)[i]
  {
    ApartByte(s, p, a, q, b, i);
    ApartByte(s, q, b, p, a, i);
  }

  /** Structures that do not overlap may be swapped in either order. */
  lemma FlipAtCommute(s: seq<Byte>, p: nat, a: Shape, q: nat, b: Shape)
    requires p + Size(a) <= q && q + Size(b) <= |s|
    ensures FlipAt(FlipAt(s, p, a), q, b) == FlipAt(FlipAt(s, q, b), p, a)
  {
    var left, right := FlipAt(FlipAt(s, p, a), q, b), FlipAt(FlipAt(s, q, b), p, a);
    forall i | 0 <= i < |s| ensures left[i] == right[i] {
      CommutedByte(s, p, a, q, b, i);
    }
    SameBytes(left, right);
  }

  /** Two consecutive structures, in either order. */
  lemma FlipAtThen(s: seq<Byte>, p: nat, a: Shape, b: Shape)
    requires p + Size(a) + Size(b) <= |s|
    ensures FlipAt(FlipAt(s, p, a), p + Size(a), b) == FlipAt(s, p, Then(a, b))
    ensures FlipAt(FlipAt(s, p + Size(a), b), p, a) == FlipAt(s, p, Then(a, b))
  {
    FlipAtJoin(s, p, a, b);
    FlipAtCommute(s, p, a, p + Size(a), b);
  }

  lemma TwiceByte(s: seq<Byte>, p: nat, sh: Shape, i: nat)
    requires p + Size(sh) <= |s| && i < |s|
    ensures FlipAt(FlipAt(s, p, sh), p, sh)[i] == s[i]
  {
    FlipAtByte(FlipAt(s, p, sh), p, sh, i);
    if p <= i < p + Size(sh) {
      FlipAtByte(s, p, sh, p + Mate(sh, i - p));
      MateTwice(sh, i - p);
    } else {
      FlipAtByte(s, p, sh, i);
    }
  }

  /** Flipping a structure twice changes nothing. */
  lemma FlipAtTwice(s: seq<Byte>, p: nat, sh: Shape)
    requires p + Size(sh) <= |s|
    ensures FlipAt(FlipAt(s, p, sh), p, sh) == s
  {
    var twice := FlipAt(FlipAt(s, p, sh), p, sh);
    forall i | 0 <= i < |s| ensures twice[i] == s[i] {
      TwiceByte(s, p, sh, i);
    }
    SameBytes(twice, s);
  }

  lemma FlipAtPlain(s: seq<Byte>, p: nat, n: nat)
    requires p + n <= |s|
    ensures FlipAt(s, p, Plain(n)) == s
  {
    FlipAtIndex(s, p, Plain(n));
  }

  /** Shapes that place their bytes alike flip alike. */
  lemma FlipAtSame(s: seq<Byte>, p: nat, a: Shape, b: Shape)
    requires Size(a) == Size(b) && p + Size(a) <= |s|
    requires forall i | 0 <= i < Size(a) :: Mate(a, i) == Mate(b, i)
    ensures FlipAt(s, p, a) == FlipAt(s, p, b)
  {
    FlipAtIndex(s, p, a);
    FlipAtIndex(s, p, b);
  }

  lemma NextWord(s: seq<Byte>, p: nat, j: nat)
    requires p + 2 * (j + 1) <= |s|
    ensures FlipAt(FlipAt(s, p, Words(j)), p + 2 * j, Field(2)) == FlipAt(s, p, Words(j + 1))
  {
    FlipAtJoin(s, p, Words(j), Field(2));
    forall i | 0 <= i < 2 * (j + 1) ensures Mate(Then(Words(j), Field(2)), i) == Mate(Words(j + 1), i) {
      OneMoreWord(j, i);
    }
    FlipAtSame(s, p, Then(Words(j), Field(2)), Words(j + 1));
  }

  lemma NextLong(s: seq<Byte>, p: nat, j: nat)
    requires p + 4 * (j + 1) <= |s|
    ensures FlipAt(FlipAt(s, p, Longs(j)), p + 4 * j, Field(4)) == FlipAt(s, p, Longs(j + 1))
  {
    FlipAtJoin(s, p, Longs(j), Field(4));
    forall i | 0 <= i < 4 * (j + 1) ensures Mate(Then(Longs(j), Field(4)), i) == Mate(Longs(j + 1), i) {
      OneMoreLong(j, i);
    }
    FlipAtSame(s, p, Then(Longs(j), Field(4)), Longs(j + 1));
  }

  // In place.

  /** bswap16, bswap32 and bswap64 on a field of the buffer. */
  method SwapField(buf: array<Byte>, p: nat, w: nat)
    requires p + w <= buf.Length
    modifies buf
    ensures buf[..] == FlipAt(old(buf[..]), p, Field(w))
  {
    forall i | p <= i < p + w {
      buf[i] := buf[p + p + w - 1 - i];
    }
    FlipAtIndex(old(buf[..]), p, Field(w));
  }

  /** An array of 16-bit fields. */
  method SwapWords(buf: array<Byte>, p: nat, count: nat)
    requires p + 2 * count <= buf.Length
    modifies buf
    ensures buf[..] == FlipAt(old(buf[..]), p, Words(count))
  {
    FlipAtIndex(buf[..], p, Words(0));
    for j := 0 to count
      invariant buf[..] == FlipAt(old(buf[..]), p, Words(j))
    {
      NextWord(old(buf[..]), p, j);
      SwapField(buf, p + 2 * j, 2);
    }
  }

  /** An array of 32-bit fields. */
  method SwapLongs(buf: array<Byte>, p: nat, count: nat)
    requires p + 4 * count <= buf.Length
    modifies buf
    ensures buf[..] == FlipAt(old(buf[..]), p, Longs(count))
  {
    FlipAtIndex(buf[..], p, Longs(0));
    for j := 0 to count
      invariant buf[..] == FlipAt(old(buf[..]), p, Longs(j))
    {
      NextLong(old(buf[..]), p, j);
      SwapField(buf, p + 4 * j, 4);
    }
  }

  /** The fields of a structure, one after the other. */
  method SwapShape(buf: array<Byte>, p: nat, sh: Shape)
    requires p + Size(sh) <= buf.Length
    modifies buf
    ensures buf[..] == FlipAt(old(buf[..]), p, sh)
    decreases sh
  {
    match sh {
      case Plain(n) => FlipAtPlain(buf[..], p, n);
      case Field(w) => SwapField(buf, p, w);
      case Words(count) => SwapWords(buf, p, count);
      case Longs(count) => SwapLongs(buf, p, count);
      case Then(first, rest) =>
        FlipAtJoin(buf[..], p, first, rest);
        SwapShape(buf, p, first);
        SwapShape(buf, p + Size(first), rest);
    }
  }
}
