/** UTF-8 to UTF-16 (vfs_utfconv.c: utf8_decodestr). */
module Utf8Decode {
  import opened Bytes
  import opened Composition
  import opened Utf8Encode

  datatype Mode = Plain | Decomposed | Precomposed

  /** What the bytes at some place stand for, before any composition. */
  datatype Token = Bad | Ascii(c: UInt16) | Unit(u: UInt16, size: nat) | Pair(hi: UInt16, lo: UInt16)

  /** utf_extrabytes, by the first five bits of a byte from 0x80 up; 0 where the table has -1. */
  function ExtraBytes(b: Byte): (n: nat)
    requires b >= 0x80
    ensures n <= 3
  {
    var i := b / 8;
    if 24 <= i < 28 then 1 else if 28 <= i < 30 then 2 else if i == 30 then 3 else 0
  }

  /** 32-bit subtraction. */
  function Minus32(x: nat, y: nat): (d: UInt32)
    requires x < 0x1_0000_0000 && y < 0x1_0000_0000
  {
    if x >= y then x - y else x + 0x1_0000_0000 - y
  }

  /** Continuation bytes are not checked; the result only has to be at least the least value of its length. */
  function Next(s: seq<Byte>): (t: Token)
    requires s != []
    ensures t.Unit? ==> 2 <= t.size <= 3 && t.size <= |s|
    ensures t.Pair? ==> 4 <= |s|
  {
    var b: int := s[0];
    if b < 0x80 then Ascii(b)
    else
      var extra := ExtraBytes(s[0]);
      if extra == 0 || |s| - 1 < extra then Bad
      else if extra == 1 then
        var ch := Minus32(b * 0x40 + s[1], 0x3080);
        if ch < 0x80 then Bad else Unit(ch % 0x1_0000, 2)
      else if extra == 2 then
        var ch := Minus32((b * 0x40 + s[1]) * 0x40 + s[2], 0xE2080);
        if ch < 0x800 then Bad else Unit(ch % 0x1_0000, 3)
      else
        var ch := Minus32(((b * 0x40 + s[1]) * 0x40 + s[2]) * 0x40 + s[3], 0x3C82080 + 0x1_0000);
        Pair((ch / 0x400 + 0xD800) % 0x1_0000, ch % 0x400 + 0xDC00)
  }

  datatype Decoded = Decoded(out: seq<UInt16>, status: Status)

  function Slashed(c: UInt16, alt: UInt16): UInt16 {
    if c == alt then SLASH else c
  }

  /** A character above ASCII as it is stored. */
  function Stored(c: UInt16, alt: UInt16): UInt16 {
    Slashed(if c == ALT_NULL then 0 else c, alt)
  }

  /** Appending `c`, or replacing the last unit with its composition with `c`. */
  function Append(out: seq<UInt16>, c: UInt16, alt: UInt16, mode: Mode, tb: Tables): (r: seq<UInt16>)
    requires Valid(tb)
    ensures |out| <= |r| <= |out| + 1
  {
    if mode == Precomposed && out != [] && Combinable(tb, c) && Combine(tb, out[|out| - 1], c) != 0 then
      out[..|out| - 1] + [Stored(Combine(tb, out[|out| - 1], c), alt)]
    else out + [Stored(c, alt)]
  }

  /** What is written of a decomposed character, and whether the buffer is full then. */
  function Spread(out: seq<UInt16>, parts: seq<UInt16>, room: nat): (r: Decoded)
    requires |out| < room
  {
    if |out| + |parts| >= room then Decoded(out + parts[..room - |out|], TooLong) else Decoded(out + parts, Ok)
  }

  /** One character; the number of bytes it took, and the output so far. */
  function Take(s: seq<Byte>, out: seq<UInt16>, room: nat, alt: UInt16, mode: Mode, tb: Tables): (r: (nat, Decoded))
    requires s != [] && |out| < room && Valid(tb)
    ensures 1 <= r.0 <= |s|
    ensures |r.1.out| <= room
  {
    match Next(s)
    case Bad => (1, Decoded(out, Invalid))
    case Ascii(c) => (1, Decoded(out + [Slashed(c, alt)], Ok))
    case Pair(hi, lo) =>
      (4, if |out| + 1 >= room then Decoded(out + [hi], TooLong) else Decoded(out + [hi, lo], Ok))
    case Unit(c, size) =>
      (size, if mode == Decomposed && Decomposable(tb, c) then Spread(out, Decompose(tb, c), room)
             else Decoded(Append(out, c, alt, mode, tb), Ok))
  }

  function Decode(s: seq<Byte>, out: seq<UInt16>, room: nat, alt: UInt16, mode: Mode, tb: Tables): (r: Decoded)
    requires Valid(tb) && |out| <= room
    ensures |r.out| <= room
    decreases |s|
  {
    if s == [] || s[0] == 0 then Decoded(out, Ok)
    else if |out| >= room then Decoded(out, TooLong)
    else
      var (n, r) := Take(s, out, room, alt, mode, tb);
      if r.status == Ok then Decode(s[n..], r.out, room, alt, mode, tb) else r
  }

  /** One turn of the decoding that stands at byte `i`. */
  lemma DecodeTurn(s: seq<Byte>, i: nat, out: seq<UInt16>, room: nat, alt: UInt16, mode: Mode, tb: Tables, n: nat,
                   r: Decoded)
    requires i < |s| && s[i] != 0 && |out| < room && Valid(tb)
    requires (n, r) == Take(s[i..], out, room, alt, mode, tb)
    ensures 1 <= n <= |s| - i && |r.out| <= room
    ensures Decode(s[i..], out, room, alt, mode, tb) ==
            if r.status == Ok then Decode(s[i + n..], r.out, room, alt, mode, tb) else r
  {
    assert s[i..][0] == s[i] && s[i..][n..] == s[i + n..];
  }

  ghost predicate Rest(s: seq<Byte>, i: nat, rest: seq<Byte>) {
    i <= |s| && rest == s[i..]
  }

  /** Decoding that stands at byte `i` with `out` written ends in `goal`. */
  ghost predicate Leads(s: seq<Byte>, i: nat, out: seq<UInt16>, room: nat, alt: UInt16, mode: Mode, tb: Tables,
                        goal: Decoded)
    requires Valid(tb) && |out| <= room
  {
    forall rest {:trigger Rest(s, i, rest)} :: Rest(s, i, rest) ==> Decode(rest, out, room, alt, mode, tb) == goal
  }

  lemma Begins(s: seq<Byte>, room: nat, alt: UInt16, mode: Mode, tb: Tables)
    requires Valid(tb)
    ensures Leads(s, 0, [], room, alt, mode, tb, Decode(s, [], room, alt, mode, tb))
  {
  }

  lemma Ends(s: seq<Byte>, i: nat, out: seq<UInt16>, room: nat, alt: UInt16, mode: Mode, tb: Tables, goal: Decoded)
    requires i <= |s| && |out| <= room && Valid(tb) && Leads(s, i, out, room, alt, mode, tb, goal)
    requires i == |s| || s[i] == 0 || |out| == room
    ensures goal == Decoded(out, if i == |s| || s[i] == 0 then Ok else TooLong)
  {
    assert Rest(s, i, s[i..]);
  }

  // The decoder.

  method PutSequence(ucs: array<UInt16>, len: nat, parts: seq<UInt16>) returns (n: nat, full: bool)
    requires len < ucs.Length
    modifies ucs
    ensures n <= ucs.Length
    ensures Decoded(ucs[..n], if full then TooLong else Ok) == Spread(old(ucs[..len]), parts, ucs.Length)
  {
    ghost var out := ucs[..len];
    n := len;
    for i := 0 to |parts|
      invariant n == len + i < ucs.Length
      invariant ucs[..n] == out + parts[..i]
    {
      ucs[n] := parts[i];
      n := n + 1;
      assert parts[..i + 1] == parts[..i] + [parts[i]];
      if n >= ucs.Length {
        return n, true;
      }
    }
    assert parts[..|parts|] == parts;
    full := false;
  }

  method PutUnit(ucs: array<UInt16>, len: nat, unit: UInt16, alt: UInt16, mode: Mode, tb: Tables) returns (n: nat)
    requires len < ucs.Length && Valid(tb)
    modifies ucs
    ensures n <= ucs.Length && ucs[..n] == Append(old(ucs[..len]), unit, alt, mode, tb)
  {
    var c: UInt16 := unit;
    n := len;
    if mode == Precomposed && n > 0 && Combinable(tb, c) {
      var composite := Combine(tb, ucs[n - 1], c);
      if composite != 0 {
        n, c := n - 1, composite;
      }
    }
    if c == ALT_NULL {
      c := 0;
    }
    if c == alt {
      c := SLASH;
    }
    ucs[n] := c;
    n := n + 1;
  }

  /** One character. */
  method TakeOne(s: seq<Byte>, ucs: array<UInt16>, len: nat, alt: UInt16, mode: Mode, tb: Tables)
      returns (used: nat, n: nat, status: Status)
    requires s != [] && len < ucs.Length && Valid(tb)
    modifies ucs
    ensures n <= ucs.Length
    ensures (used, Decoded(ucs[..n], status)) == Take(s, old(ucs[..len]), ucs.Length, alt, mode, tb)
  {
    ghost var out := ucs[..len];
    used, n, status := 1, len, Ok;
    match Next(s) {
      case Bad =>
        status := Invalid;
      case Ascii(c) =>
        ucs[len] := Slashed(c, alt);
        n := len + 1;
        assert ucs[..n] == out + [Slashed(c, alt)];
      case Pair(hi, lo) =>
        used := 4;
        ucs[len] := hi;
        n := len + 1;
        assert ucs[..n] == out + [hi];
        if n >= ucs.Length {
          status := TooLong;
        } else {
          ucs[n] := lo;
          n := n + 1;
          assert ucs[..n] == out + [hi, lo];
        }
      case Unit(c, size) =>
        used := size;
        if mode == Decomposed && Decomposable(tb, c) {
          var full;
          n, full := PutSequence(ucs, len, Decompose(tb, c));
          status := if full then TooLong else Ok;
        } else {
          n := PutUnit(ucs, len, c, alt, mode, tb);
        }
    }
  }

  /** One turn of the loop, when decoding the whole string gives `goal`. */
  method Turn(s: seq<Byte>, i: nat, ucs: array<UInt16>, len: nat, alt: UInt16, mode: Mode, tb: Tables,
              ghost goal: Decoded)
      returns (used: nat, n: nat, status: Status)
    requires i < |s| && s[i] != 0 && len < ucs.Length && Valid(tb)
    requires Leads(s, i, ucs[..len], ucs.Length, alt, mode, tb, goal)
    modifies ucs
    ensures 1 <= used <= |s| - i && n <= ucs.Length
    ensures status != Ok ==> Decoded(ucs[..n], status) == goal
    ensures status == Ok ==> Leads(s, i + used, ucs[..n], ucs.Length, alt, mode, tb, goal)
  {
    ghost var out := ucs[..len];
    assert Rest(s, i, s[i..]);
    used, n, status := TakeOne(s[i..], ucs, len, alt, mode, tb);
    DecodeTurn(s, i, out, ucs.Length, alt, mode, tb, used, Decoded(ucs[..n], status));
  }

  /** utf8_decodestr, into a buffer of `ucs.Length` units. */
  method DecodeStr(s: seq<Byte>, ucs: array<UInt16>, alt: UInt16, mode: Mode, tb: Tables)
      returns (status: Status, len: nat)
    requires Valid(tb)
    modifies ucs
    ensures len <= ucs.Length
    ensures Decoded(ucs[..len], status) == Decode(s, [], ucs.Length, alt, mode, tb)
  {
    ghost var goal := Decode(s, [], ucs.Length, alt, mode, tb);
    var i := 0;
    len, status := 0, Ok;
    Begins(s, ucs.Length, alt, mode, tb);
    while i < |s| && s[i] != 0
      invariant i <= |s| && len <= ucs.Length && status == Ok
      invariant Leads(s, i, ucs[..len], ucs.Length, alt, mode, tb, goal)
      decreases |s| - i
    {
      if len >= ucs.Length {
        Ends(s, i, ucs[..len], ucs.Length, alt, mode, tb, goal);
        return TooLong, len;
      }
      var used, n, result := Turn(s, i, ucs, len, alt, mode, tb, goal);
      if result != Ok {
        return result, n;
      }
      i, len := i + used, n;
    }
    Ends(s, i, ucs[..len], ucs.Length, alt, mode, tb, goal);
  }
}
