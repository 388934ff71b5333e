/** UTF-16 to UTF-8 (vfs_utfconv.c: utf8_encodelen and utf8_encodestr). */
module Utf8Encode {
  import opened Bytes

  const SLASH: UInt16 := 0x2F
  const COLON: UInt16 := 0x3A
  const UNDERSCORE: UInt16 := 0x5F
  const ALT_NULL: UInt16 := 0x2400

  predicate High(c: UInt16) {
    0xD800 <= c <= 0xDBFF
  }

  predicate Low(c: UInt16) {
    0xDC00 <= c <= 0xDFFF
  }

  predicate Surrogate(c: UInt16) {
    High(c) || Low(c)
  }

  /** The unit that stands for `c` in a file name: no slash and no NUL may appear. */
  function Shown(c: UInt16, alt: UInt16): (s: UInt16)
    ensures s == SLASH ==> c == SLASH && alt == SLASH
    ensures s != 0
  {
    if c == SLASH then (if alt != 0 then alt else UNDERSCORE) else if c == 0 then ALT_NULL else c
  }

  /** Units j and j + 1 are encoded together. */
  predicate PairAt(u: seq<UInt16>, alt: UInt16, j: nat) {
    j + 1 < |u| && High(Shown(u[j], alt)) && Low(u[j + 1])
  }

  /** How many units the first character takes. */
  function Step(u: seq<UInt16>, alt: UInt16): (n: nat)
    requires |u| > 0
    ensures 1 <= n <= 2 && n <= |u|
  {
    if PairAt(u, alt, 0) then 2 else 1
  }

  function PairValue(hi: UInt16, lo: UInt16): (v: nat)
    requires High(hi) && Low(lo)
    ensures 0x10000 <= v <= 0x10FFFF
  {
    (hi - 0xD800) * 0x400 + (lo - 0xDC00) + 0x10000
  }

  function OneByte(c: UInt16): (b: seq<Byte>)
    requires c < 0x80
  {
    [c]
  }

  function TwoBytes(c: UInt16): seq<Byte>
    requires c < 0x800
  {
    [0xC0 + c / 0x40, 0x80 + c % 0x40]
  }

  function ThreeBytes(c: UInt16): seq<Byte> {
    [0xE0 + c / 0x1000, 0x80 + c / 0x40 % 0x40, 0x80 + c % 0x40]
  }

  function FourBytes(v: nat): seq<Byte>
    requires v <= 0x10FFFF
  {
    [0xF0 + v / 0x40000, 0x80 + v / 0x1000 % 0x40, 0x80 + v / 0x40 % 0x40, 0x80 + v % 0x40]
  }

  /** The bytes of the first character of `u`. */
  function EncodeOne(u: seq<UInt16>, alt: UInt16): (b: seq<Byte>)
    requires |u| > 0
    ensures 1 <= |b| <= 4
  {
    var c := Shown(u[0], alt);
    if c < 0x80 then OneByte(c)
    else if c < 0x800 then TwoBytes(c)
    else if PairAt(u, alt, 0) then FourBytes(PairValue(c, u[1]))
    else ThreeBytes(c)
  }

  function Encode(u: seq<UInt16>, alt: UInt16): seq<Byte> {
    if u == [] then [] else EncodeOne(u, alt) + Encode(u[Step(u, alt)..], alt)
  }

  /** Cutting at `i` does not separate a pair. */
  predicate Boundary(u: seq<UInt16>, alt: UInt16, i: nat) {
    i <= |u| && (0 < i ==> !PairAt(u, alt, i - 1))
  }

  lemma PrefixStarts(u: seq<UInt16>, alt: UInt16, i: nat)
    requires Boundary(u, alt, i) && 0 < i
    ensures Step(u, alt) <= i && Step(u[..i], alt) == Step(u, alt)
    ensures EncodeOne(u[..i], alt) == EncodeOne(u, alt)
    ensures Boundary(u[Step(u, alt)..], alt, i - Step(u, alt))
  {
    var n := Step(u, alt);
    assert i > n ==> PairAt(u[n..], alt, i - n - 1) == PairAt(u, alt, i - 1);
  }

  lemma Reassociate<T>(a: seq<T>, b: seq<T>, c: seq<T>)
    ensures a + (b + c) == a + b + c
  {
  }

  lemma SplitSlices(u: seq<UInt16>, n: nat, i: nat)
    requires n <= i <= |u|
    ensures u[n..][..i - n] == u[..i][n..] && u[n..][i - n..] == u[i..]
  {
  }

  lemma EncodeStep(u: seq<UInt16>, alt: UInt16, n: nat)
    requires u != [] && n == Step(u, alt)
    ensures Encode(u, alt) == EncodeOne(u, alt) + Encode(u[n..], alt)
  {
  }

  /** The encoding of a string is that of its parts, wherever it is cut between characters. */
  lemma {:induction false} EncodeSplit(u: seq<UInt16>, alt: UInt16, i: nat)
    requires Boundary(u, alt, i)
    ensures Encode(u, alt) == Encode(u[..i], alt) + Encode(u[i..], alt)
    decreases |u|
  {
    if i == 0 {
      assert u[0..] == u;
    } else {
      PrefixStarts(u, alt, i);
      var n := Step(u, alt);
      EncodeStep(u, alt, n);
      EncodeStep(u[..i], alt, n);
      EncodeSplit(u[n..], alt, i - n);
      SplitSlices(u, n, i);
      Reassociate(EncodeOne(u, alt), Encode(u[..i][n..], alt), Encode(u[i..], alt));
    }
  }

  lemma OneAlone(u: seq<UInt16>, alt: UInt16)
    requires |u| > 0
    ensures Encode(u[..Step(u, alt)], alt) == EncodeOne(u, alt)
  {
    var n := Step(u, alt);
    var one := u[..n];
    assert Step(one, alt) == n && EncodeOne(one, alt) == EncodeOne(u, alt);
    assert one[n..] == [];
  }

  lemma BoundaryNext(u: seq<UInt16>, alt: UInt16, i: nat)
    requires Boundary(u, alt, i) && i < |u|
    ensures i + Step(u[i..], alt) <= |u| && Boundary(u, alt, i + Step(u[i..], alt))
    ensures Boundary(u[..i + Step(u[i..], alt)], alt, i)
  {
    assert PairAt(u[i..], alt, 0) == PairAt(u, alt, i);
  }

  /** One more character. */
  lemma EncodeNext(u: seq<UInt16>, alt: UInt16, i: nat, n: nat)
    requires Boundary(u, alt, i) && i < |u| && n == Step(u[i..], alt)
    ensures i + n <= |u| && Boundary(u, alt, i + n)
    ensures Encode(u[..i + n], alt) == Encode(u[..i], alt) + EncodeOne(u[i..], alt)
  {
    BoundaryNext(u, alt, i);
    var v := u[..i + n];
    EncodeSplit(v, alt, i);
    assert v[..i] == u[..i] && v[i..] == u[i..][..n];
    OneAlone(u[i..], alt);
  }

  /** A character that does not fit makes the whole name too long. */
  lemma RestTooLong(u: seq<UInt16>, alt: UInt16, i: nat)
    requires Boundary(u, alt, i) && i < |u|
    ensures |Encode(u, alt)| >= |Encode(u[..i], alt)| + |EncodeOne(u[i..], alt)|
  {
    EncodeSplit(u, alt, i);
  }

  lemma SlashNext(u: seq<UInt16>, alt: UInt16, i: nat, n: nat)
    requires i < |u| && n == Step(u[i..], alt)
    ensures SLASH in u[..i + n] <==> SLASH in u[..i] || u[i] == SLASH
  {
    if n == 1 {
      assert u[..i + 1] == u[..i] + [u[i]];
    } else {
      assert u[..i + 2] == u[..i] + [u[i], u[i + 1]];
    }
  }

  // Lengths.

  function UnitLength(c: UInt16): nat {
    if c < 0x80 then 1 else if c < 0x800 then 2 else if Surrogate(c) then 2 else 3
  }

  function LengthSum(u: seq<UInt16>, alt: UInt16): nat {
    if u == [] then 0 else LengthSum(u[..|u| - 1], alt) + UnitLength(Shown(u[|u| - 1], alt))
  }

  /** utf8_encodelen */
  method EncodeLen(u: seq<UInt16>, alt: UInt16) returns (len: nat)
    ensures len == LengthSum(u, alt)
  {
    len := 0;
    for i := 0 to |u|
      invariant len == LengthSum(u[..i], alt)
    {
      assert u[..i + 1][..i] == u[..i];
      len := len + UnitLength(Shown(u[i], alt));
    }
    assert u[..|u|] == u;
  }

  /** Surrogates that are encoded on their own. */
  function Unpaired(u: seq<UInt16>, alt: UInt16): nat {
    if u == [] then 0
    else (if Step(u, alt) == 1 && Surrogate(Shown(u[0], alt)) then 1 else 0) + Unpaired(u[Step(u, alt)..], alt)
  }

  lemma {:induction false} LengthSumFront(c: UInt16, u: seq<UInt16>, alt: UInt16)
    ensures LengthSum([c] + u, alt) == UnitLength(Shown(c, alt)) + LengthSum(u, alt)
    decreases |u|
  {
    var v := [c] + u;
    if u == [] {
      assert v[..0] == [];
    } else {
      LengthSumFront(c, u[..|u| - 1], alt);
      assert v[..|v| - 1] == [c] + u[..|u| - 1];
    }
  }

  /** The computed length falls short by one byte for every unpaired surrogate. */
  lemma {:induction false} LengthsAgree(u: seq<UInt16>, alt: UInt16)
    ensures |Encode(u, alt)| == LengthSum(u, alt) + Unpaired(u, alt)
    decreases |u|
  {
    if u != [] {
      LengthSumFront(u[0], u[1..], alt);
      assert u == [u[0]] + u[1..];
      if PairAt(u, alt, 0) {
        LengthSumFront(u[1], u[2..], alt);
        assert u[1..] == [u[1]] + u[2..];
      }
      LengthsAgree(u[Step(u, alt)..], alt);
    }
  }

  /** Three bytes per unit always suffice. */
  lemma {:induction false} AtMostTripled(u: seq<UInt16>, alt: UInt16)
    ensures |Encode(u, alt)| <= 3 * |u|
    decreases |u|
  {
    if u != [] {
      AtMostTripled(u[Step(u, alt)..], alt);
    }
  }

  // The encoder.

  datatype Status = Ok | Invalid | TooLong

  /** One character at `i`, if it fits below `limit`. */
  method EncodeUnit(u: seq<UInt16>, i: nat, alt: UInt16, buf: array<Byte>, p: nat, limit: nat)
      returns (fits: bool, n: nat, q: nat)
    requires i < |u| && p <= limit <= buf.Length
    modifies buf
    ensures n == Step(u[i..], alt)
    ensures fits == (p + |EncodeOne(u[i..], alt)| <= limit)
    ensures q == p + (if fits then |EncodeOne(u[i..], alt)| else 0)
    ensures buf[..q] == old(buf[..p]) + (if fits then EncodeOne(u[i..], alt) else [])
  {
    var c: UInt16 := Shown(u[i], alt);
    n, q := 1, p;
    if c < 0x80 {
      fits := p < limit;
      if fits {
        buf[p] := c;
        q := p + 1;
      }
    } else if c < 0x800 {
      fits := p + 1 < limit;
      if fits {
        buf[p], buf[p + 1] := 0xC0 + c / 0x40, 0x80 + c % 0x40;
        q := p + 2;
      }
    } else if High(c) && i + 1 < |u| && Low(u[i + 1]) {
      n := 2;
      var pair := PairValue(c, u[i + 1]);
      fits := p + 3 < limit;
      if fits {
        buf[p], buf[p + 1] := 0xF0 + pair / 0x40000, 0x80 + pair / 0x1000 % 0x40;
        buf[p + 2], buf[p + 3] := 0x80 + pair / 0x40 % 0x40, 0x80 + pair % 0x40;
        q := p + 4;
      }
    } else {
      fits := p + 2 < limit;
      if fits {
        buf[p], buf[p + 1], buf[p + 2] := 0xE0 + c / 0x1000, 0x80 + c / 0x40 % 0x40, 0x80 + c % 0x40;
        q := p + 3;
      }
    }
  }

  /** Room for the characters of the name once the terminator is set aside. */
  function Limit(buflen: nat, terminated: bool): nat
    requires terminated ==> buflen >= 1
  {
    if terminated then buflen - 1 else buflen
  }

  /** The loop of utf8_encodestr, for `limit` bytes. */
  method EncodeChars(u: seq<UInt16>, buf: array<Byte>, alt: UInt16, limit: nat)
      returns (result: Status, len: nat, used: nat)
    requires limit <= buf.Length
    modifies buf
    ensures used <= |u| && len <= limit && buf[..len] == Encode(u[..used], alt)
    ensures result == TooLong ==> used < |u| && Boundary(u, alt, used) && len + |EncodeOne(u[used..], alt)| > limit
    ensures result != TooLong ==> used == |u| && result == if alt == 0 && SLASH in u[..used] then Invalid else Ok
  {
    used, len, result := 0, 0, Ok;
    while used < |u|
      invariant used <= |u| && Boundary(u, alt, used) && len <= limit
      invariant buf[..len] == Encode(u[..used], alt)
      invariant result == if alt == 0 && SLASH in u[..used] then Invalid else Ok
    {
      ghost var n := Step(u[used..], alt);
      EncodeNext(u, alt, used, n);
      SlashNext(u, alt, used, n);
      if u[used] == SLASH && alt == 0 {
        result := Invalid;
      }
      var fits, step, q := EncodeUnit(u, used, alt, buf, len, limit);
      if !fits {
        return TooLong, len, used;
      }
      used, len := used + step, q;
    }
  }

  /**
   * utf8_encodestr. The whole name is encoded exactly if it fits; otherwise the output is the whole
   * encoding of the first `used` units, and the next character would not have fitted.
   */
  method EncodeStr(u: seq<UInt16>, buf: array<Byte>, alt: UInt16, terminated: bool)
      returns (result: Status, len: nat, used: nat)
    requires terminated ==> buf.Length >= 1
    modifies buf
    ensures used <= |u| && len <= Limit(buf.Length, terminated)
    ensures buf[..len] == Encode(u[..used], alt)
    ensures terminated ==> buf[len] == 0
    ensures result == TooLong <==> |Encode(u, alt)| > Limit(buf.Length, terminated)
    ensures result == TooLong ==>
              used < |u| && len + |EncodeOne(u[used..], alt)| > Limit(buf.Length, terminated)
    ensures result != TooLong ==> buf[..len] == Encode(u, alt)
    ensures result != TooLong ==> (result == Invalid <==> alt == 0 && SLASH in u)
  {
    result, len, used := EncodeChars(u, buf, alt, Limit(buf.Length, terminated));
    assert u[..|u|] == u;
    if result == TooLong {
      RestTooLong(u, alt, used);
    }
    if terminated {
      buf[len] := 0;
    }
  }

  /** builddesc: 3n + 1 bytes are never too few, so its second attempt is never made. */
  method BuildName(u: seq<UInt16>) returns (name: array<Byte>, len: nat, retried: bool)
    ensures !retried && len < name.Length
    ensures name[..len] == Encode(u, COLON) && name[len] == 0
  {
    name := new Byte[3 * |u| + 1];
    var result, n, _ := EncodeStr(u, name, COLON, true);
    AtMostTripled(u, COLON);
    len, retried := n, result == TooLong;
  }
}
