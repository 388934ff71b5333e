/** MacRoman names to and from decomposed Unicode and UTF-8 (hfs_encodings.c). */
module MacRoman {
  import opened Bytes
  import opened Composition
  import opened Utf8Encode
  import opened Utf8Decode
  import opened Utf8RoundTrip

  const FALLBACK: Byte := 0x3F
  const MAX_UNITS := 75
  const STR31 := 31

  // Tables.

  /** gHiBitBaseUnicode */
  function Base(c: Byte): UInt16 {
    match c
    case 0x80 | 0x81 | 0xCB | 0xCC | 0xE5 | 0xE7 => 0x41
    case 0x82 => 0x43
    case 0x83 | 0xE6 | 0xE8 | 0xE9 => 0x45
    case 0x84 => 0x4E
    case 0x85 | 0xCD | 0xEE | 0xEF | 0xF1 => 0x4F
    case 0x86 | 0xF2 | 0xF3 | 0xF4 => 0x55
    case 0x87 | 0x88 | 0x89 | 0x8A | 0x8B | 0x8C => 0x61
    case 0x8D => 0x63
    case 0x8E | 0x8F | 0x90 | 0x91 => 0x65
    case 0x92 | 0x93 | 0x94 | 0x95 => 0x69
    case 0x96 => 0x6E
    case 0x97 | 0x98 | 0x99 | 0x9A | 0x9B => 0x6F
    case 0x9C | 0x9D | 0x9E | 0x9F => 0x75
    case 0xA0 => 0x2020
    case 0xA1 => 0xB0
    case 0xA2 => 0xA2
    case 0xA3 => 0xA3
    case 0xA4 => 0xA7
    case 0xA5 => 0x2022
    case 0xA6 => 0xB6
    case 0xA7 => 0xDF
    case 0xA8 => 0xAE
    case 0xA9 => 0xA9
    case 0xAA => 0x2122
    case 0xAB => 0xB4
    case 0xAC => 0xA8
    case 0xAD => 0x2260
    case 0xAE => 0xC6
    case 0xAF => 0xD8
    case 0xB0 => 0x221E
    case 0xB1 => 0xB1
    case 0xB2 => 0x2264
    case 0xB3 => 0x2265
    case 0xB4 => 0xA5
    case 0xB5 => 0xB5
    case 0xB6 => 0x2202
    case 0xB7 => 0x2211
    case 0xB8 => 0x220F
    case 0xB9 => 0x3C0
    case 0xBA => 0x222B
    case 0xBB => 0xAA
    case 0xBC => 0xBA
    case 0xBD => 0x3A9
    case 0xBE => 0xE6
    case 0xBF => 0xF8
    case 0xC0 => 0xBF
    case 0xC1 => 0xA1
    case 0xC2 => 0xAC
    case 0xC3 => 0x221A
    case 0xC4 => 0x192
    case 0xC5 => 0x2248
    case 0xC6 => 0x2206
    case 0xC7 => 0xAB
    case 0xC8 => 0xBB
    case 0xC9 => 0x2026
    case 0xCA => 0xA0
    case 0xCE => 0x152
    case 0xCF => 0x153
    case 0xD0 => 0x2013
    case 0xD1 => 0x2014
    case 0xD2 => 0x201C
    case 0xD3 => 0x201D
    case 0xD4 => 0x2018
    case 0xD5 => 0x2019
    case 0xD6 => 0xF7
    case 0xD7 => 0x25CA
    case 0xD8 => 0x79
    case 0xD9 => 0x59
    case 0xDA => 0x2044
    case 0xDB => 0x20AC
    case 0xDC => 0x2039
    case 0xDD => 0x203A
    case 0xDE => 0xFB01
    case 0xDF => 0xFB02
    case 0xE0 => 0x2021
    case 0xE1 => 0xB7
    case 0xE2 => 0x201A
    case 0xE3 => 0x201E
    case 0xE4 => 0x2030
    case 0xEA | 0xEB | 0xEC | 0xED => 0x49
    case 0xF0 => 0xF8FF
    case 0xF5 => 0x131
    case 0xF6 => 0x2C6
    case 0xF7 => 0x2DC
    case 0xF8 => 0xAF
    case 0xF9 => 0x2D8
    case 0xFA => 0x2D9
    case 0xFB => 0x2DA
    case 0xFC => 0xB8
    case 0xFD => 0x2DD
    case 0xFE => 0x2DB
    case 0xFF => 0x2C7
    case _ => 0
  }

  /** gHiBitCombUnicode: the combining character that goes with a letter. */
  function Mark(c: Byte): UInt16 {
    match c
    case 0x80 | 0x85 | 0x86 | 0x8A | 0x91 | 0x95 | 0x9A | 0x9F | 0xD8 | 0xD9 | 0xE8 | 0xEC => 0x308
    case 0x81 | 0x8C => 0x30A
    case 0x82 | 0x8D => 0x327
    case 0x83 | 0x87 | 0x8E | 0x92 | 0x97 | 0x9C | 0xE7 | 0xEA | 0xEE | 0xF2 => 0x301
    case 0x84 | 0x8B | 0x96 | 0x9B | 0xCC | 0xCD => 0x303
    case 0x88 | 0x8F | 0x93 | 0x98 | 0x9D | 0xCB | 0xE9 | 0xED | 0xF1 | 0xF4 => 0x300
    case 0x89 | 0x90 | 0x94 | 0x99 | 0x9E | 0xE5 | 0xE6 | 0xEB | 0xEF | 0xF3 => 0x302
    case _ => 0
  }

  /** gLatin1Table */
  function Latin1(lsb: Byte): Byte {
    match lsb
    case 0xA0 => 0xCA
    case 0xA1 => 0xC1
    case 0xA2 => 0xA2
    case 0xA3 => 0xA3
    case 0xA4 => 0xDB
    case 0xA5 => 0xB4
    case 0xA7 => 0xA4
    case 0xA8 => 0xAC
    case 0xA9 => 0xA9
    case 0xAA => 0xBB
    case 0xAB => 0xC7
    case 0xAC => 0xC2
    case 0xAE => 0xA8
    case 0xAF => 0xF8
    case 0xB0 => 0xA1
    case 0xB1 => 0xB1
    case 0xB4 => 0xAB
    case 0xB5 => 0xB5
    case 0xB6 => 0xA6
    case 0xB7 => 0xE1
    case 0xB8 => 0xFC
    case 0xBA => 0xBC
    case 0xBB => 0xC8
    case 0xBF => 0xC0
    case 0xC6 => 0xAE
    case 0xD8 => 0xAF
    case 0xDF => 0xA7
    case 0xE6 => 0xBE
    case 0xF7 => 0xD6
    case 0xF8 => 0xBF
    case _ => FALLBACK
  }

  /** gSpaceModsTable */
  function SpaceMods(lsb: Byte): Byte {
    match lsb
    case 0xC6 => 0xF6
    case 0xC7 => 0xFF
    case 0xD8 => 0xF9
    case 0xD9 => 0xFA
    case 0xDA => 0xFB
    case 0xDB => 0xFE
    case 0xDC => 0xF7
    case 0xDD => 0xFD
    case _ => FALLBACK
  }

  /** gPunctTable */
  function Punct(lsb: Byte): Byte {
    match lsb
    case 0x13 => 0xD0
    case 0x14 => 0xD1
    case 0x18 => 0xD4
    case 0x19 => 0xD5
    case 0x1A => 0xE2
    case 0x1C => 0xD2
    case 0x1D => 0xD3
    case 0x1E => 0xE3
    case 0x20 => 0xA0
    case 0x21 => 0xE0
    case 0x22 => 0xA5
    case 0x26 => 0xC9
    case 0x30 => 0xE4
    case 0x39 => 0xDC
    case 0x3A => 0xDD
    case 0x44 => 0xDA
    case 0xAC => 0xDB
    case _ => FALLBACK
  }

  /** gMathTable */
  function Maths(lsb: Byte): Byte {
    match lsb
    case 0x02 => 0xB6
    case 0x06 => 0xC6
    case 0x0F => 0xB8
    case 0x11 => 0xB7
    case 0x1A => 0xC3
    case 0x1E => 0xB0
    case 0x2B => 0xBA
    case 0x48 => 0xC5
    case 0x60 => 0xAD
    case 0x64 => 0xB2
    case 0x65 => 0xB3
    case _ => FALLBACK
  }

  /** gReverseCombTable: a letter and one of the marks 0x0300 to 0x030A. */
  function Marked(letter: Byte, lsb: Byte): Byte {
    match letter
    case 0x41 => (match lsb
      case 0x00 => 0xCB case 0x01 => 0xE7 case 0x02 => 0xE5 case 0x03 => 0xCC case 0x08 => 0x80 case 0x0A => 0x81
      case _ => FALLBACK)
    case 0x45 => (match lsb case 0x00 => 0xE9 case 0x01 => 0x83 case 0x02 => 0xE6 case 0x08 => 0xE8 case _ => FALLBACK)
    case 0x49 => (match lsb case 0x00 => 0xED case 0x01 => 0xEA case 0x02 => 0xEB case 0x08 => 0xEC case _ => FALLBACK)
    case 0x4E => (match lsb case 0x03 => 0x84 case _ => FALLBACK)
    case 0x4F => (match lsb
      case 0x00 => 0xF1 case 0x01 => 0xEE case 0x02 => 0xEF case 0x03 => 0xCD case 0x08 => 0x85 case _ => FALLBACK)
    case 0x55 => (match lsb case 0x00 => 0xF4 case 0x01 => 0xF2 case 0x02 => 0xF3 case 0x08 => 0x86 case _ => FALLBACK)
    case 0x59 => (match lsb case 0x08 => 0xD9 case _ => FALLBACK)
    case 0x61 => (match lsb
      case 0x00 => 0x88 case 0x01 => 0x87 case 0x02 => 0x89 case 0x03 => 0x8B case 0x08 => 0x8A case 0x0A => 0x8C
      case _ => FALLBACK)
    case 0x65 => (match lsb case 0x00 => 0x8F case 0x01 => 0x8E case 0x02 => 0x90 case 0x08 => 0x91 case _ => FALLBACK)
    case 0x69 => (match lsb case 0x00 => 0x93 case 0x01 => 0x92 case 0x02 => 0x94 case 0x08 => 0x95 case _ => FALLBACK)
    case 0x6E => (match lsb case 0x03 => 0x96 case _ => FALLBACK)
    case 0x6F => (match lsb
      case 0x00 => 0x98 case 0x01 => 0x97 case 0x02 => 0x99 case 0x03 => 0x9B case 0x08 => 0x9A case _ => FALLBACK)
    case 0x75 => (match lsb case 0x00 => 0x9D case 0x01 => 0x9C case 0x02 => 0x9E case 0x08 => 0x9F case _ => FALLBACK)
    case 0x79 => (match lsb case 0x08 => 0xD8 case _ => FALLBACK)
    case _ => FALLBACK
  }

  /** Characters on pages without a table. */
  function Others(u: UInt16): Byte {
    match u
    case 0x0131 => 0xF5
    case 0x0152 => 0xCE
    case 0x0153 => 0xCF
    case 0x0192 => 0xC4
    case 0x2122 => 0xAA
    case 0x25CA => 0xD7
    case 0xF8FF => 0xF0
    case 0xFB01 => 0xDE
    case 0xFB02 => 0xDF
    case _ => FALLBACK
  }

  // MacRoman to Unicode.

  predicate Letter(u: UInt16) {
    0x41 <= u <= 0x7A
  }

  /** One character: itself, another one, or a letter and its mark. */
  function Units(c: Byte): (u: seq<UInt16>)
    ensures 1 <= |u| <= 2
  {
    if c < 0x80 then [c]
    else if Letter(Base(c)) then [Base(c), Mark(c)]
    else [Base(c)]
  }

  function ToUnicode(name: seq<Byte>): (u: seq<UInt16>)
    ensures |name| <= |u| <= 2 * |name|
  {
    if name == [] then [] else ToUnicode(name[..|name| - 1]) + Units(name[|name| - 1])
  }

  method PutUnits(c: Byte, uni: array<UInt16>, count: nat) returns (n: nat)
    requires count + 2 <= uni.Length
    modifies uni
    ensures n <= count + 2 && uni[..n] == old(uni[..count]) + Units(c)
  {
    n := count;
    if c < 0x80 {
      uni[n] := c;
      n := n + 1;
    } else {
      var base := Base(c);
      uni[n] := base;
      n := n + 1;
      if Letter(base) {
        uni[n] := Mark(c);
        n := n + 1;
      }
    }
  }

  /** mac_roman_to_unicode: 75 units are always enough. */
  method MacRomanToUnicode(name: seq<Byte>, uni: array<UInt16>) returns (count: nat)
    requires |name| <= STR31 && uni.Length == MAX_UNITS
    modifies uni
    ensures count <= 62 && uni[..count] == ToUnicode(name)
  {
    count := 0;
    for i := 0 to |name|
      invariant count <= 2 * i && uni[..count] == ToUnicode(name[..i])
    {
      assert name[..i + 1][..i] == name[..i];
      count := PutUnits(name[i], uni, count);
    }
    assert name[..|name|] == name;
  }

  // Unicode to MacRoman.

  /** A unit after the letter `prev` (0 if there is none): its byte, and whether it takes the letter's place. */
  function Mapped(u: UInt16, prev: Byte): (Byte, bool) {
    var lsb: Byte := u % 0x100;
    var page := u / 0x100;
    if u < 0x80 then (lsb, false)
    else if page == 0 then (Latin1(lsb), false)
    else if page == 0x02 then (SpaceMods(lsb), false)
    else if page == 0x20 then (Punct(lsb), false)
    else if page == 0x22 then (Maths(lsb), false)
    else if page == 0x03 then
      if u <= 0x30A then
        if 0x41 <= prev < 0x7A then (Marked(prev, lsb), true) else (FALLBACK, false)
      else if u == 0x327 then
        if prev == 0x43 then (0x82, true) else if prev == 0x63 then (0x8D, true) else (FALLBACK, false)
      else if u == 0x3A9 then (0xBD, false)
      else if u == 0x3C0 then (0xB9, false)
      else (FALLBACK, false)
    else (Others(u), false)
  }

  datatype Outcome = Good | UsedFallbacks | RanOut

  /** A name so far, the letter a mark may still join, and whether a fallback was used. */
  datatype Partial = Partial(name: seq<Byte>, prev: Byte, fallback: bool) {
    predicate Valid() {
      prev != 0 ==> name != [] && name[|name| - 1] == prev
    }
  }

  /** The name once a unit was mapped to `m`. */
  function Extended(p: Partial, u: UInt16, m: (Byte, bool)): (r: Partial)
    requires p.Valid() && (m.1 ==> p.name != [])
    ensures r.Valid()
  {
    var kept := if m.1 then p.name[..|p.name| - 1] else p.name;
    Partial(kept + [m.0], if u < 0x80 then m.0 else 0, p.fallback || (u >= 0x80 && m.0 == FALLBACK))
  }

  predicate MapsTo(u: UInt16, prev: Byte, m: (Byte, bool)) {
    m == Mapped(u, prev)
  }

  ghost predicate Follows(p: Partial, u: UInt16, q: Partial) {
    && p.Valid() && q.Valid()
    && forall m {:trigger MapsTo(u, p.prev, m)} | MapsTo(u, p.prev, m) ::
         (m.1 ==> p.name != []) && q == Extended(p, u, m)
  }

  lemma SomeFollows(p: Partial, u: UInt16)
    requires p.Valid()
    ensures exists q :: Follows(p, u, q)
  {
    var m := Mapped(u, p.prev);
    assert Follows(p, u, Extended(p, u, m));
  }

  /** One more unit. */
  ghost function More(p: Partial, u: UInt16): (r: Partial)
    requires p.Valid()
    ensures r.Valid()
  {
    SomeFollows(p, u);
    var q :| Follows(p, u, q);
    q
  }

  lemma MoreIs(p: Partial, u: UInt16, m: (Byte, bool))
    requires p.Valid() && m == Mapped(u, p.prev)
    ensures (m.1 ==> p.name != []) && More(p, u) == Extended(p, u, m)
  {
    assert MapsTo(u, p.prev, m);
  }

  ghost function FromUnicode(u: seq<UInt16>, p: Partial): (seq<Byte>, Outcome)
    requires p.Valid()
  {
    if u == [] then (p.name, if p.fallback then UsedFallbacks else Good)
    else
      var next := More(p, u[0]);
      if |next.name| > STR31 then (next.name[..|next.name| - 1], RanOut) else FromUnicode(u[1..], next)
  }

  /** The switch over the pages of Unicode. */
  method MapUnit(c: UInt16, letter: Byte, ghost p: Partial) returns (mc: Byte, back: bool)
    requires p.Valid() && p.prev == letter
    ensures back ==> p.name != []
    ensures c < 0x80 ==> mc == c && !back
    ensures More(p, c).name == (if back then p.name[..|p.name| - 1] else p.name) + [mc]
    ensures More(p, c).prev == if c < 0x80 then mc else 0
    ensures More(p, c).fallback == (p.fallback || (c >= 0x80 && mc == FALLBACK))
  {
    MoreIs(p, c, Mapped(c, letter));
    mc, back := Mapped(c, letter).0, Mapped(c, letter).1;
  }

  /** One turn of the loop; nothing is written if the name is full. */
  method TakeUnit(c: UInt16, pascal: array<Byte>, len: nat, letter: Byte, fell: bool)
      returns (n: nat, prev: Byte, fallback: bool, full: bool)
    requires len <= STR31 == pascal.Length && Partial(pascal[..len], letter, fell).Valid()
    modifies pascal
    ensures var next := More(Partial(old(pascal[..len]), letter, fell), c);
            && n <= STR31 && full == (|next.name| > STR31)
            && (full ==> pascal[..n] == next.name[..|next.name| - 1])
            && (!full ==> Partial(pascal[..n], prev, fallback) == next)
  {
    ghost var p := Partial(pascal[..len], letter, fell);
    var mc, back := MapUnit(c, letter, p);
    n, fallback := len, fell;
    if c >= 0x80 {
      if back {
        n := n - 1;
      }
      fallback := fell || mc == FALLBACK;
      prev := 0;
    } else {
      prev := mc;
    }
    ghost var kept := pascal[..n];
    assert More(p, c).name == kept + [mc];
    full := n >= STR31;
    if !full {
      pascal[n] := mc;
      n := n + 1;
      assert pascal[..n] == kept + [mc];
    }
  }

  /** unicode_to_mac_roman */
  method UnicodeToMacRoman(u: seq<UInt16>) returns (name: seq<Byte>, outcome: Outcome)
    ensures (name, outcome) == FromUnicode(u, Partial([], 0, false))
    ensures |name| <= STR31
  {
    var pascal := new Byte[STR31];
    var n: nat, i: nat := 0, 0;
    var prev: Byte, fallback := 0, false;
    assert u[0..] == u;
    while i < |u|
      invariant i <= |u| && n <= STR31
      invariant Partial(pascal[..n], prev, fallback).Valid()
      invariant FromUnicode(u[i..], Partial(pascal[..n], prev, fallback)) == FromUnicode(u, Partial([], 0, false))
    {
      var full;
      n, prev, fallback, full := TakeUnit(u[i], pascal, n, prev, fallback);
      if full {
        return pascal[..n], RanOut;
      }
      assert u[i..][1..] == u[i + 1..];
      i := i + 1;
    }
    name, outcome := pascal[..n], if fallback then UsedFallbacks else Good;
  }

  // The way back.

  /** Every high character maps back: a letter's mark takes the letter's place, others stand alone. */
  predicate MapsBack(c: Byte, prev: Byte)
    requires 0x80 <= c
  {
    if Letter(Base(c)) then
      Mark(c) >= 0x80 && Mapped(Mark(c), Base(c)) == (c, true)
    else
      Base(c) >= 0x80 && Mapped(Base(c), prev) == (c, false) && Base(c) != ALT_NULL
  }

  lemma MapsBackFrom80(c: Byte, prev: Byte)
    requires 0x80 <= c < 0x90
    ensures MapsBack(c, prev)
  {
  }

  lemma MapsBackFrom90(c: Byte, prev: Byte)
    requires 0x90 <= c < 0xA0
    ensures MapsBack(c, prev)
  {
  }

  lemma MapsBackFromA0(c: Byte, prev: Byte)
    requires 0xA0 <= c < 0xB0
    ensures MapsBack(c, prev)
  {
  }

  lemma MapsBackFromB0(c: Byte, prev: Byte)
    requires 0xB0 <= c < 0xC0
    ensures MapsBack(c, prev)
  {
  }

  lemma MapsBackFromC0(c: Byte, prev: Byte)
    requires 0xC0 <= c < 0xE0
    ensures MapsBack(c, prev)
  {
  }

  lemma MapsBackFromE0(c: Byte, prev: Byte)
    requires 0xE0 <= c < 0xF0
    ensures MapsBack(c, prev)
  {
  }

  lemma MapsBackFromF0(c: Byte, prev: Byte)
    requires 0xF0 <= c < 0x100
    ensures MapsBack(c, prev)
  {
  }

  lemma HighMapsBack(c: Byte, prev: Byte)
    requires 0x80 <= c
    ensures MapsBack(c, prev)
  {
    if c < 0x90 {
      MapsBackFrom80(c, prev);
    } else if c < 0xA0 {
      MapsBackFrom90(c, prev);
    } else if c < 0xB0 {
      MapsBackFromA0(c, prev);
    } else if c < 0xC0 {
      MapsBackFromB0(c, prev);
    } else if c < 0xE0 {
      MapsBackFromC0(c, prev);
    } else if c < 0xF0 {
      MapsBackFromE0(c, prev);
    } else {
      MapsBackFromF0(c, prev);
    }
  }

  // Which units have a MacRoman character.

  /** Character `c` stands for `u`, or for the letter `prev` with the mark `u`. */
  predicate StandsFor(c: Byte, prev: Byte, u: UInt16) {
    Units(c) == [u] || Units(c) == [prev, u]
  }

  lemma Latin1Signs(lsb: Byte)
    requires 0x80 <= lsb < 0xB0 && lsb != 0xA4 && Latin1(lsb) != FALLBACK
    ensures Latin1(lsb) >= 0x80 && Units(Latin1(lsb)) == [lsb]
  {
  }

  lemma Latin1Letters(lsb: Byte)
    requires 0xB0 <= lsb && Latin1(lsb) != FALLBACK
    ensures Latin1(lsb) >= 0x80 && Units(Latin1(lsb)) == [lsb]
  {
  }

  lemma SpaceModsStands(lsb: Byte)
    requires SpaceMods(lsb) != FALLBACK
    ensures SpaceMods(lsb) >= 0x80 && Units(SpaceMods(lsb)) == [0x200 + lsb]
  {
  }

  lemma QuotesStand(lsb: Byte)
    requires lsb < 0x20 && Punct(lsb) != FALLBACK
    ensures Punct(lsb) >= 0x80 && Units(Punct(lsb)) == [0x2000 + lsb]
  {
  }

  lemma PunctStands(lsb: Byte)
    requires lsb >= 0x20 && Punct(lsb) != FALLBACK
    ensures Punct(lsb) >= 0x80 && Units(Punct(lsb)) == [0x2000 + lsb]
  {
  }

  lemma MathsStands(lsb: Byte)
    requires Maths(lsb) != FALLBACK
    ensures Maths(lsb) >= 0x80 && Units(Maths(lsb)) == [0x2200 + lsb]
  {
  }

  lemma MarkedStands(letter: Byte, lsb: Byte)
    requires lsb <= 0x0A && Marked(letter, lsb) != FALLBACK
    ensures Marked(letter, lsb) >= 0x80 && Units(Marked(letter, lsb)) == [letter, 0x300 + lsb]
  {
  }

  lemma GreekStands(u: UInt16, prev: Byte)
    requires 0x300 <= u < 0x400 && Mapped(u, prev).0 != FALLBACK
    ensures Mapped(u, prev).0 >= 0x80 && StandsFor(Mapped(u, prev).0, prev, u)
  {
    if u <= 0x30A {
      MarkedStands(prev, u % 0x100);
    }
  }

  lemma OthersStand(u: UInt16)
    requires Others(u) != FALLBACK
    ensures Others(u) >= 0x80 && Units(Others(u)) == [u]
  {
  }

  /** A unit is mapped to what stands for it; the currency sign alone goes to the euro sign. */
  lemma MappedStands(u: UInt16, prev: Byte)
    requires 0x80 <= u && u != 0xA4 && Mapped(u, prev).0 != FALLBACK
    ensures Mapped(u, prev).0 >= 0x80 && StandsFor(Mapped(u, prev).0, prev, u)
  {
    var lsb: Byte, page := u % 0x100, u / 0x100;
    if page == 0 {
      if lsb < 0xB0 {
        Latin1Signs(lsb);
      } else {
        Latin1Letters(lsb);
      }
    } else if page == 0x02 {
      SpaceModsStands(lsb);
    } else if page == 0x03 {
      GreekStands(u, prev);
    } else if page == 0x20 {
      if lsb < 0x20 {
        QuotesStand(lsb);
      } else {
        PunctStands(lsb);
      }
    } else if page == 0x22 {
      MathsStands(lsb);
    } else {
      OthersStand(u);
    }
  }

  lemma StandsMapped(c: Byte, prev: Byte, u: UInt16)
    requires 0x80 <= c && 0x80 <= u && StandsFor(c, prev, u)
    ensures Mapped(u, prev).0 == c
  {
    HighMapsBack(c, prev);
  }

  /** The letter, or other ASCII character, in front of unit `i`. */
  function PrevOf(u: seq<UInt16>, i: nat): Byte
    requires i < |u|
  {
    if i > 0 && u[i - 1] < 0x80 then u[i - 1] else 0
  }

  /** Unit `i`, behind what is in front of it, has no MacRoman character. */
  ghost predicate Unmapped(u: seq<UInt16>, i: nat)
    requires i < |u|
  {
    u[i] >= 0x80 && u[i] != 0xA4 && forall c: Byte | 0x80 <= c :: !StandsFor(c, PrevOf(u, i), u[i])
  }

  lemma FallsBack(u: seq<UInt16>, i: nat)
    requires i < |u|
    ensures Unmapped(u, i) <==> u[i] >= 0x80 && Mapped(u[i], PrevOf(u, i)).0 == FALLBACK
  {
    if u[i] >= 0x80 && u[i] != 0xA4 {
      if Mapped(u[i], PrevOf(u, i)).0 != FALLBACK {
        MappedStands(u[i], PrevOf(u, i));
      } else {
        forall c: Byte | 0x80 <= c ensures !StandsFor(c, PrevOf(u, i), u[i]) {
          if StandsFor(c, PrevOf(u, i), u[i]) {
            StandsMapped(c, PrevOf(u, i), u[i]);
          }
        }
      }
    }
  }

  ghost predicate SomeUnmapped(u: seq<UInt16>, i: nat) {
    exists j: nat :: i <= j < |u| && Unmapped(u, j)
  }

  lemma {:induction false} FallbacksFrom(u: seq<UInt16>, i: nat, p: Partial)
    requires i <= |u| && p.Valid() && (i < |u| ==> p.prev == PrevOf(u, i))
    ensures FromUnicode(u[i..], p).1 != RanOut ==>
              (FromUnicode(u[i..], p).1 == UsedFallbacks <==> p.fallback || SomeUnmapped(u, i))
    ensures FromUnicode(u[i..], p).1 != RanOut ==>
              (FromUnicode(u[i..], p).1 == Good <==> !p.fallback && !SomeUnmapped(u, i))
    decreases |u| - i
  {
    if i < |u| {
      var next := More(p, u[i]);
      MoreIs(p, u[i], Mapped(u[i], p.prev));
      FallsBack(u, i);
      assert u[i..][0] == u[i] && u[i..][1..] == u[i + 1..];
      if |next.name| <= STR31 {
        FallbacksFrom(u, i + 1, next);
        assert SomeUnmapped(u, i) <==> Unmapped(u, i) || SomeUnmapped(u, i + 1);
      }
    }
  }

  /** For a name that fits, fallbacks are reported if and only if some unit has no MacRoman character. */
  lemma FallbackIff(u: seq<UInt16>)
    requires FromUnicode(u, Partial([], 0, false)).1 != RanOut
    ensures FromUnicode(u, Partial([], 0, false)).1 == UsedFallbacks <==> exists i: nat :: i < |u| && Unmapped(u, i)
    ensures FromUnicode(u, Partial([], 0, false)).1 == Good <==> forall i: nat | i < |u| :: !Unmapped(u, i)
  {
    assert u[0..] == u;
    FallbacksFrom(u, 0, Partial([], 0, false));
  }

  /** The state after a whole character. */
  function After(p: Partial, c: Byte): Partial {
    Partial(p.name + [c], if c < 0x80 then c else 0, p.fallback)
  }

  lemma MarkJoins(p: Partial, letter: UInt16, mark: UInt16, c: Byte, rest: seq<UInt16>)
    requires p.Valid() && |p.name| < STR31 && Letter(letter) && mark >= 0x80 && c >= 0x80
    requires Mapped(mark, letter) == (c, true)
    ensures FromUnicode([letter, mark] + rest, p) == FromUnicode(rest, After(p, c))
  {
    var u := [letter, mark] + rest;
    var q := Partial(p.name + [letter], letter, p.fallback);
    MoreIs(p, letter, (letter, false));
    assert u[1..] == [mark] + rest && ([mark] + rest)[1..] == rest;
    assert q.name[..|q.name| - 1] == p.name;
    MoreIs(q, mark, (c, true));
  }

  /** A character's units are read back as that character. */
  lemma CharBack(p: Partial, c: Byte, rest: seq<UInt16>)
    requires p.Valid() && |p.name| < STR31
    ensures After(p, c).Valid()
    ensures FromUnicode(Units(c) + rest, p) == FromUnicode(rest, After(p, c))
  {
    var u := Units(c) + rest;
    if c >= 0x80 && Letter(Base(c)) {
      HighMapsBack(c, 0);
      MarkJoins(p, Base(c), Mark(c), c, rest);
    } else {
      if c >= 0x80 {
        HighMapsBack(c, p.prev);
      }
      assert u[1..] == rest;
      MoreIs(p, u[0], (c, false));
    }
  }

  /** Parts one behind the other. */
  function Concat(parts: seq<seq<UInt16>>): (u: seq<UInt16>) {
    if parts == [] then [] else Concat(parts[..|parts| - 1]) + parts[|parts| - 1]
  }

  lemma {:induction false} ConcatFront(part: seq<UInt16>, parts: seq<seq<UInt16>>)
    ensures Concat([part] + parts) == part + Concat(parts)
    decreases |parts|
  {
    var s := [part] + parts;
    if parts == [] {
      assert s[..0] == [];
    } else {
      var front, last := parts[..|parts| - 1], parts[|parts| - 1];
      ConcatFront(part, front);
      assert s[..|s| - 1] == [part] + front;
      Reassociate(part, Concat(front), last);
    }
  }

  function Spelling(name: seq<Byte>): (parts: seq<seq<UInt16>>)
    ensures |parts| == |name| && forall i | 0 <= i < |name| :: parts[i] == Units(name[i])
  {
    seq(|name|, i requires 0 <= i < |name| => Units(name[i]))
  }

  lemma {:induction false} Spelled(name: seq<Byte>)
    ensures ToUnicode(name) == Concat(Spelling(name))
  {
    if name != [] {
      var k := |name| - 1;
      Spelled(name[..k]);
      assert Spelling(name)[..k] == Spelling(name[..k]);
    }
  }

  lemma ToUnicodeFront(c: Byte, name: seq<Byte>)
    ensures ToUnicode([c] + name) == Units(c) + ToUnicode(name)
  {
    Spelled([c] + name);
    Spelled(name);
    assert Spelling([c] + name) == [Units(c)] + Spelling(name);
    ConcatFront(Units(c), Spelling(name));
  }

  lemma FirstCharBack(name: seq<Byte>, p: Partial, next: Partial)
    requires name != [] && p.Valid() && |p.name| < STR31 && next == After(p, name[0])
    ensures next.Valid() && FromUnicode(ToUnicode(name), p) == FromUnicode(ToUnicode(name[1..]), next)
  {
    assert name == [name[0]] + name[1..];
    ToUnicodeFront(name[0], name[1..]);
    CharBack(p, name[0], ToUnicode(name[1..]));
  }

  /** Decomposed Unicode and back: every name of up to 31 bytes is recovered, without fallbacks. */
  lemma {:induction false} UnicodeTrip(name: seq<Byte>, p: Partial)
    requires p.Valid() && !p.fallback && |p.name| + |name| <= STR31
    ensures FromUnicode(ToUnicode(name), p) == (p.name + name, Good)
    decreases |name|
  {
    if name == [] {
      assert p.name + name == p.name;
    } else {
      var next := After(p, name[0]);
      FirstCharBack(name, p, next);
      UnicodeTrip(name[1..], next);
      assert next.name + name[1..] == p.name + name;
    }
  }

  // Through UTF-8.

  /** A name with colons turned into slashes. */
  function Slashes(name: seq<Byte>): (r: seq<Byte>)
    ensures |r| == |name|
  {
    if name == [] then []
    else Slashes(name[..|name| - 1]) + [if name[|name| - 1] == COLON then 0x2F else name[|name| - 1]]
  }

  lemma {:induction false} SlashesAt(name: seq<Byte>, i: nat)
    requires i < |name|
    ensures Slashes(name)[i] == if name[i] == COLON then 0x2F else name[i]
  {
    if i < |name| - 1 {
      SlashesAt(name[..|name| - 1], i);
    }
  }

  lemma SlashesSame(name: seq<Byte>)
    ensures Slashes(name) == name <==> forall i | 0 <= i < |name| :: name[i] != COLON
  {
    forall i | 0 <= i < |name| ensures Slashes(name)[i] == if name[i] == COLON then 0x2F else name[i] {
      SlashesAt(name, i);
    }
  }

  lemma UnitsBack(c: Byte)
    ensures Restored(Units(c)) == Units(if c == COLON then 0x2F else c)
  {
    RestoredUnits(Units(c));
    if c >= 0x80 {
      HighMapsBack(c, 0);
    }
  }

  lemma {:induction false} RestoredName(name: seq<Byte>)
    ensures Restored(ToUnicode(name)) == ToUnicode(Slashes(name))
  {
    if name != [] {
      var k := |name| - 1;
      var front, u := ToUnicode(name[..k]), ToUnicode(name);
      RestoredName(name[..k]);
      UnitsBack(name[k]);
      RestoredSplit(u, |front|);
      assert u[..|front|] == front && u[|front|..] == Units(name[k]);
      assert Slashes(name)[..k] == Slashes(name[..k]);
    }
  }

  lemma UnitsNotSurrogates(c: Byte, i: nat)
    requires i < |Units(c)|
    ensures !Surrogate(Shown(Units(c)[i], COLON))
  {
    if c >= 0x80 {
      HighMapsBack(c, 0);
    }
  }

  lemma {:induction false} NoSurrogates(name: seq<Byte>, i: nat)
    requires i < |ToUnicode(name)|
    ensures !Surrogate(Shown(ToUnicode(name)[i], COLON))
  {
    var k := |name| - 1;
    var front := ToUnicode(name[..k]);
    if i < |front| {
      NoSurrogates(name[..k], i);
    } else {
      UnitsNotSurrogates(name[k], i - |front|);
    }
  }

  lemma {:induction false} NoneUnpaired(u: seq<UInt16>)
    requires forall i | 0 <= i < |u| :: !Surrogate(Shown(u[i], COLON))
    ensures Unpaired(u, COLON) == 0
  {
    if u != [] {
      NoneUnpaired(u[Step(u, COLON)..]);
    }
  }

  /** The length reported for a name that does not fit is the length it needs. */
  lemma LengthExact(name: seq<Byte>)
    ensures |Encode(ToUnicode(name), COLON)| == LengthSum(ToUnicode(name), COLON)
  {
    var u := ToUnicode(name);
    forall i | 0 <= i < |u| ensures !Surrogate(Shown(u[i], COLON)) {
      NoSurrogates(name, i);
    }
    NoneUnpaired(u);
    LengthsAgree(u, COLON);
  }

  /** mac_roman_to_utf8 */
  method MacRomanToUtf8(name: seq<Byte>, dst: array<Byte>) returns (status: Status, len: nat)
    requires |name| <= STR31 && dst.Length >= 1
    modifies dst
    ensures status == Invalid <==> name == []
    ensures status == TooLong <==> name != [] && |Encode(ToUnicode(name), COLON)| >= dst.Length
    ensures status == Ok ==> len < dst.Length && dst[..len] == Encode(ToUnicode(name), COLON) && dst[len] == 0
    ensures name != [] ==> len == |Encode(ToUnicode(name), COLON)|
  {
    var uni := new UInt16[MAX_UNITS];
    var count := MacRomanToUnicode(name, uni);
    len := 0;
    if count == 0 {
      return Invalid, 0;
    }
    var used;
    status, len, used := EncodeStr(uni[..count], dst, COLON, true);
    if status == TooLong {
      LengthExact(name);
      len := EncodeLen(uni[..count], COLON);
    }
  }

  /** utf8_to_mac_roman */
  method Utf8ToMacRoman(src: seq<Byte>, tb: Tables) returns (status: Status, name: seq<Byte>, outcome: Outcome)
    requires Valid(tb)
    ensures var d := Decode(src, [], MAX_UNITS, COLON, Mode.Plain, tb);
            && status == d.status
            && (status == Ok ==> (name, outcome) == FromUnicode(d.out, Partial([], 0, false)))
  {
    var uni := new UInt16[MAX_UNITS];
    var len;
    status, len := DecodeStr(src, uni, COLON, Mode.Plain, tb);
    name, outcome := [], Good;
    if status == Ok {
      name, outcome := UnicodeToMacRoman(uni[..len]);
    }
  }

  /** Decoding and mapping the UTF-8 form of a name. */
  lemma NameTrip(name: seq<Byte>, tb: Tables)
    requires Valid(tb) && |name| <= STR31
    ensures Decode(Encode(ToUnicode(name), COLON), [], MAX_UNITS, COLON, Mode.Plain, tb) ==
            Decoded(ToUnicode(Slashes(name)), Ok)
    ensures FromUnicode(ToUnicode(Slashes(name)), Partial([], 0, false)) == (Slashes(name), Good)
  {
    var u := ToUnicode(name);
    RoundTrip(u, [], MAX_UNITS, tb);
    assert [] + Restored(u) == Restored(u);
    RestoredName(name);
    UnicodeTrip(Slashes(name), Partial([], 0, false));
    assert [] + Slashes(name) == Slashes(name);
  }

  /** Every non-empty name survives the trip but for its colons, without errors or fallbacks. */
  method Trip(name: seq<Byte>, tb: Tables) returns (back: seq<Byte>, status: Status, outcome: Outcome)
    requires 0 < |name| <= STR31 && Valid(tb)
    ensures status == Ok && outcome == Good && back == Slashes(name)
    ensures back == name <==> forall i | 0 <= i < |name| :: name[i] != COLON
  {
    var utf8 := new Byte[3 * MAX_UNITS + 1];
    AtMostTripled(ToUnicode(name), COLON);
    var first, len := MacRomanToUtf8(name, utf8);
    NameTrip(name, tb);
    SlashesSame(name);
    status, back, outcome := Utf8ToMacRoman(utf8[..len], tb);
  }
}
