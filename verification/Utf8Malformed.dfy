/** Which byte strings the decoder refuses, and where. */
module Utf8Malformed {
  import opened Bytes
  import opened Composition
  import opened Utf8Encode
  import opened Utf8Decode

  /** The bytes of a character, by its first one. */
  function Width(b: Byte): (w: nat)
    ensures 1 <= w <= 4
  {
    if b < 0x80 then 1 else if b < 0xE0 then 2 else if b < 0xF0 then 3 else 4
  }

  /**
   * No character starts with this byte; or the string ends inside the character; or the value is below 0x80 in
   * two bytes, below 0x800 in three.  The bytes behind the first one add to the value whatever they are.
   */
  predicate Malformed(s: seq<Byte>)
    requires s != []
  {
    var b: int := s[0];
    || 0x80 <= b < 0xC0
    || 0xF8 <= b
    || (0x80 <= b && |s| < Width(b))
    || (0xC0 <= b < 0xE0 && 0x3080 <= b * 0x40 + s[1] < 0x3080 + 0x80)
    || (0xE0 <= b < 0xF0 && 0xE2080 <= (b * 0x40 + s[1]) * 0x40 + s[2] < 0xE2080 + 0x800)
  }

  /** The first `j` bytes are whole characters, none of them a NUL or malformed. */
  predicate Whole(s: seq<Byte>, j: nat)
    decreases j
  {
    j == 0 ||
    (s != [] && s[0] != 0 && !Malformed(s) && Width(s[0]) <= j && Whole(s[Width(s[0])..], j - Width(s[0])))
  }

  /** What stands behind them is malformed. */
  predicate MalformedAt(s: seq<Byte>, j: nat) {
    j < |s| && Whole(s, j) && s[j] != 0 && Malformed(s[j..])
  }

  // One character.

  lemma BadIff(s: seq<Byte>)
    requires s != []
    ensures Next(s).Bad? <==> Malformed(s)
  {
    if s[0] >= 0x80 {
      ExtraIsWidth(s[0]);
    }
  }

  lemma ExtraIsWidth(b: Byte)
    requires b >= 0x80
    ensures ExtraBytes(b) == if b < 0xC0 || b >= 0xF8 then 0 else Width(b) - 1
  {
  }

  /** The value is what the bits of the bytes add up to, each less the marks that its place calls for. */
  lemma ShortBits(s: seq<Byte>, a: int, b: int, c: int)
    requires s != [] && !Malformed(s) && s[0] < 0xF0 && a == s[0]
    requires |s| > 1 ==> b == s[1]
    requires |s| > 2 ==> c == s[2]
    ensures a < 0x80 ==> Next(s) == Ascii(a)
    ensures 0x80 <= a < 0xE0 ==> Next(s) == Unit(((a - 0xC0) * 0x40 + (b - 0x80)) % 0x1_0000, 2)
    ensures 0xE0 <= a ==> Next(s) == Unit(((a - 0xE0) * 0x1000 + (b - 0x80) * 0x40 + (c - 0x80)) % 0x1_0000, 3)
  {
    BadIff(s);
    if a >= 0x80 {
      ExtraIsWidth(s[0]);
    }
  }

  /** In four bytes, less 0x10000 and in two halves of ten bits. */
  lemma LongBits(s: seq<Byte>, a: int, b: int, c: int, d: int, v: int)
    requires s != [] && !Malformed(s) && 0xF0 <= s[0] == a && b == s[1] && c == s[2] && d == s[3]
    requires v == ((a - 0xF0) * 0x4_0000 + (b - 0x80) * 0x1000 + (c - 0x80) * 0x40 + (d - 0x80) - 0x1_0000)
                  % 0x1_0000_0000
    ensures Next(s) == Pair((v / 0x400 + 0xD800) % 0x1_0000, v % 0x400 + 0xDC00)
  {
    BadIff(s);
    ExtraIsWidth(s[0]);
    Minus32Wraps(((a * 0x40 + b) * 0x40 + c) * 0x40 + d, 0x3C82080 + 0x1_0000);
  }

  lemma Minus32Wraps(x: nat, y: nat)
    requires x < 0x1_0000_0000 && y < 0x1_0000_0000
    ensures Minus32(x, y) == (x - y) % 0x1_0000_0000
  {
  }

  lemma Taken(s: seq<Byte>, out: seq<UInt16>, room: nat, alt: UInt16, mode: Mode, tb: Tables)
    requires s != [] && |out| < room && Valid(tb)
    ensures Take(s, out, room, alt, mode, tb).1.status == Invalid <==> Malformed(s)
    ensures Malformed(s) ==> Take(s, out, room, alt, mode, tb).1 == Decoded(out, Invalid)
    ensures !Malformed(s) ==> Take(s, out, room, alt, mode, tb).0 == Width(s[0]) <= |s|
  {
    BadIff(s);
    if s[0] >= 0x80 {
      ExtraIsWidth(s[0]);
    }
  }

  /** It is read off its own bytes. */
  lemma NextAlone(s: seq<Byte>, j: nat)
    requires s != [] && !Malformed(s) && Width(s[0]) <= j <= |s|
    ensures s[..j] != [] && !Malformed(s[..j]) && Next(s[..j]) == Next(s)
  {
    if s[0] >= 0x80 {
      ExtraIsWidth(s[0]);
    }
  }

  lemma {:induction false} WholeFits(s: seq<Byte>, j: nat)
    requires Whole(s, j)
    ensures j <= |s|
    decreases j
  {
    if j > 0 {
      WholeFits(s[Width(s[0])..], j - Width(s[0]));
    }
  }

  lemma DropPrefix(s: seq<Byte>, w: nat, j: nat)
    requires w <= j <= |s|
    ensures s[..j][w..] == s[w..][..j - w] && s[w..][j - w..] == s[j..]
  {
  }

  // Strings.

  /** One turn: the character is refused, or decoding goes on behind it. */
  lemma FirstTurn(s: seq<Byte>, out: seq<UInt16>, room: nat, alt: UInt16, mode: Mode, tb: Tables, r: Decoded)
    requires s != [] && s[0] != 0 && |out| < room && Valid(tb) && r == Take(s, out, room, alt, mode, tb).1
    ensures Malformed(s) ==> Decode(s, out, room, alt, mode, tb) == Decoded(out, Invalid)
    ensures !Malformed(s) ==>
              && r.status != Invalid && |r.out| <= room && Width(s[0]) <= |s|
              && Decode(s, out, room, alt, mode, tb) ==
                 if r.status == Ok then Decode(s[Width(s[0])..], r.out, room, alt, mode, tb) else r
  {
    Taken(s, out, room, alt, mode, tb);
  }

  /** Whole characters are decoded as if they were the string; decoding goes on behind them. */
  lemma {:induction false} DecodedWhole(
      s: seq<Byte>, j: nat, out: seq<UInt16>, room: nat, alt: UInt16, mode: Mode, tb: Tables)
    requires Whole(s, j) && j <= |s| && |out| <= room && Valid(tb)
    ensures var d := Decode(s[..j], out, room, alt, mode, tb);
            && d.status != Invalid
            && Decode(s, out, room, alt, mode, tb) ==
               if d.status == Ok then Decode(s[j..], d.out, room, alt, mode, tb) else d
    decreases j
  {
    if j == 0 {
      assert s[..j] == [] && s[j..] == s;
    } else {
      NextAlone(s, j);
      assert s[..j][0] == s[0];
      if |out| < room {
        var w, r := Width(s[0]), Take(s, out, room, alt, mode, tb).1;
        assert Take(s[..j], out, room, alt, mode, tb) == Take(s, out, room, alt, mode, tb);
        FirstTurn(s, out, room, alt, mode, tb, r);
        FirstTurn(s[..j], out, room, alt, mode, tb, r);
        DropPrefix(s, w, j);
        if r.status == Ok {
          DecodedWhole(s[w..], j - w, r.out, room, alt, mode, tb);
        }
      }
    }
  }

  /** A string with a malformed character is refused at it, unless the buffer was full before. */
  lemma RefusedAt(s: seq<Byte>, j: nat, out: seq<UInt16>, room: nat, alt: UInt16, mode: Mode, tb: Tables)
    requires MalformedAt(s, j) && |out| <= room && Valid(tb)
    ensures var d := Decode(s[..j], out, room, alt, mode, tb);
            && d.status != Invalid
            && Decode(s, out, room, alt, mode, tb) ==
               if d.status == Ok && |d.out| < room then Decoded(d.out, Invalid) else Decoded(d.out, TooLong)
  {
    var d := Decode(s[..j], out, room, alt, mode, tb);
    DecodedWhole(s, j, out, room, alt, mode, tb);
    if d.status == Ok && |d.out| < room {
      FirstTurn(s[j..], d.out, room, alt, mode, tb, Take(s[j..], d.out, room, alt, mode, tb).1);
    }
  }

  /** A string that is refused has one. */
  lemma {:induction false} RefusedHas(
      s: seq<Byte>, out: seq<UInt16>, room: nat, alt: UInt16, mode: Mode, tb: Tables) returns (j: nat)
    requires |out| <= room && Valid(tb) && Decode(s, out, room, alt, mode, tb).status == Invalid
    ensures MalformedAt(s, j)
    decreases |s|
  {
    if Malformed(s) {
      assert s[0..] == s;
      j := 0;
    } else {
      var w, r := Width(s[0]), Take(s, out, room, alt, mode, tb).1;
      FirstTurn(s, out, room, alt, mode, tb, r);
      j := RefusedHas(s[w..], r.out, room, alt, mode, tb);
      DropPrefix(s, w, w + j);
      j := w + j;
    }
  }

  /**
   * EINVAL is returned if and only if there is a malformed character in front of the first NUL and the buffer
   * is not full before it; the output is then that of the bytes before it.
   */
  lemma InvalidIff(s: seq<Byte>, out: seq<UInt16>, room: nat, alt: UInt16, mode: Mode, tb: Tables)
    requires |out| <= room && Valid(tb)
    ensures Decode(s, out, room, alt, mode, tb).status == Invalid <==>
            exists j: nat :: MalformedAt(s, j) && Roomy(s[..j], out, room, alt, mode, tb)
    ensures forall j: nat | MalformedAt(s, j) && Roomy(s[..j], out, room, alt, mode, tb) ::
              Decode(s, out, room, alt, mode, tb).out == Decode(s[..j], out, room, alt, mode, tb).out
  {
    forall j: nat | MalformedAt(s, j)
      ensures Decode(s, out, room, alt, mode, tb).status == Invalid <==> Roomy(s[..j], out, room, alt, mode, tb)
      ensures Decode(s, out, room, alt, mode, tb).out == Decode(s[..j], out, room, alt, mode, tb).out
    {
      RefusedAt(s, j, out, room, alt, mode, tb);
    }
    if Decode(s, out, room, alt, mode, tb).status == Invalid {
      var j := RefusedHas(s, out, room, alt, mode, tb);
    }
  }

  /** The string is decoded, and leaves room. */
  ghost predicate Roomy(s: seq<Byte>, out: seq<UInt16>, room: nat, alt: UInt16, mode: Mode, tb: Tables)
    requires |out| <= room && Valid(tb)
  {
    var d := Decode(s, out, room, alt, mode, tb);
    d.status == Ok && |d.out| < room
  }

  // Without decomposition a unit for every byte is room enough.

  lemma TakenUnits(s: seq<Byte>, out: seq<UInt16>, room: nat, alt: UInt16, mode: Mode, tb: Tables)
    requires s != [] && |out| + |s| <= room && Valid(tb) && mode != Decomposed && !Malformed(s)
    ensures var (n, r) := Take(s, out, room, alt, mode, tb);
            r.status == Ok && |r.out| <= |out| + n
  {
    BadIff(s);
  }

  lemma {:induction false} UnitsFit(s: seq<Byte>, out: seq<UInt16>, room: nat, alt: UInt16, mode: Mode, tb: Tables)
    requires |out| + |s| <= room && Valid(tb) && mode != Decomposed
    ensures Decode(s, out, room, alt, mode, tb).status != TooLong
    ensures |Decode(s, out, room, alt, mode, tb).out| <= |out| + |s|
    decreases |s|
  {
    if s != [] && s[0] != 0 {
      var r := Take(s, out, room, alt, mode, tb).1;
      FirstTurn(s, out, room, alt, mode, tb, r);
      if !Malformed(s) {
        TakenUnits(s, out, room, alt, mode, tb);
        Taken(s, out, room, alt, mode, tb);
        UnitsFit(s[Width(s[0])..], r.out, room, alt, mode, tb);
      }
    }
  }

  /** There the status says whether the string is well-formed up to its first NUL, and nothing else. */
  lemma StatusTells(s: seq<Byte>, room: nat, alt: UInt16, mode: Mode, tb: Tables)
    requires |s| <= room && Valid(tb) && mode != Decomposed
    ensures Decode(s, [], room, alt, mode, tb).status == Invalid <==> exists j: nat :: MalformedAt(s, j)
    ensures Decode(s, [], room, alt, mode, tb).status == Ok <==> forall j: nat :: !MalformedAt(s, j)
  {
    UnitsFit(s, [], room, alt, mode, tb);
    InvalidIff(s, [], room, alt, mode, tb);
    forall j: nat | MalformedAt(s, j) ensures Roomy(s[..j], [], room, alt, mode, tb) {
      UnitsFit(s[..j], [], room, alt, mode, tb);
      DecodedWhole(s, j, [], room, alt, mode, tb);
    }
  }

  /** A byte that cannot follow a first byte is not refused: C0 41 stands for U+FFC1. */
  lemma StrayByteTaken(room: nat, alt: UInt16, tb: Tables)
    requires 1 <= room && Valid(tb) && alt != 0xFFC1
    ensures Decode([0xC0, 0x41], [], room, alt, Mode.Plain, tb) == Decoded([0xFFC1], Ok)
  {
    var s: seq<Byte> := [0xC0, 0x41];
    var none: seq<UInt16> := [];
    assert Next(s) == Unit(0xFFC1, 2);
    assert none + [Stored(0xFFC1, alt)] == [0xFFC1];
    assert Take(s, [], room, alt, Mode.Plain, tb) == (2, Decoded([0xFFC1], Ok));
    assert s[2..] == [];
  }
}
