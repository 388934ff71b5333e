/** What encoding and decoding a name mean: the standards they follow, and that one undoes the other. */
module Utf8RoundTrip {
  import opened Bytes
  import opened Composition
  import opened Utf8Encode
  import opened Utf8Decode

  // Decoding undoes encoding.

  lemma TwoBack(c: UInt16, rest: seq<Byte>)
    requires 0x80 <= c < 0x800
    ensures Next(TwoBytes(c) + rest) == Unit(c, 2)
  {
    var s := TwoBytes(c) + rest;
    assert s[0] == 0xC0 + c / 0x40 && s[1] == 0x80 + c % 0x40;
  }

  lemma ThreeBack(c: UInt16, rest: seq<Byte>)
    requires 0x800 <= c
    ensures Next(ThreeBytes(c) + rest) == Unit(c, 3)
  {
    var s := ThreeBytes(c) + rest;
    assert s[0] == 0xE0 + c / 0x1000 && s[1] == 0x80 + c / 0x40 % 0x40 && s[2] == 0x80 + c % 0x40;
    assert c / 0x40 == c / 0x1000 * 0x40 + c / 0x40 % 0x40;
  }

  lemma SplitPair(v: nat)
    requires 0x10000 <= v <= 0x10FFFF
    ensures v == ((v / 0x40000 * 0x40 + v / 0x1000 % 0x40) * 0x40 + v / 0x40 % 0x40) * 0x40 + v % 0x40
  {
    assert v / 0x1000 == v / 0x40000 * 0x40 + v / 0x1000 % 0x40;
    assert v / 0x40 == v / 0x1000 * 0x40 + v / 0x40 % 0x40;
  }

  lemma PairHalves(hi: UInt16, lo: UInt16)
    requires High(hi) && Low(lo)
    ensures (PairValue(hi, lo) - 0x10000) / 0x400 == hi - 0xD800
    ensures (PairValue(hi, lo) - 0x10000) % 0x400 == lo - 0xDC00
  {
  }

  lemma NextFour(s: seq<Byte>, v: nat)
    requires 0x10000 <= v <= 0x10FFFF && |s| >= 4 && s[..4] == FourBytes(v)
    ensures Next(s) == Pair((v - 0x10000) / 0x400 + 0xD800, (v - 0x10000) % 0x400 + 0xDC00)
  {
    SplitPair(v);
    assert s[0] == s[..4][0] && s[1] == s[..4][1] && s[2] == s[..4][2] && s[3] == s[..4][3];
    var a, b, c, d := v / 0x40000, v / 0x1000 % 0x40, v / 0x40 % 0x40, v % 0x40;
    var raw := (((0xF0 + a) * 0x40 + (0x80 + b)) * 0x40 + (0x80 + c)) * 0x40 + (0x80 + d);
    assert raw - 0x3C82080 == v;
  }

  lemma FourBack(hi: UInt16, lo: UInt16, rest: seq<Byte>)
    requires High(hi) && Low(lo)
    ensures Next(FourBytes(PairValue(hi, lo)) + rest) == Pair(hi, lo)
  {
    var v := PairValue(hi, lo);
    PairHalves(hi, lo);
    NextFour(FourBytes(v) + rest, v);
  }

  /** A unit after the trip: slashes and colons both come back as slashes, both kinds of NUL as NUL. */
  function Back(c: UInt16): UInt16 {
    if c == COLON then SLASH else if c == ALT_NULL then 0 else c
  }

  function Restored(u: seq<UInt16>): (r: seq<UInt16>)
    ensures |r| == |u|
  {
    if u == [] then [] else [Back(u[0])] + Restored(u[1..])
  }

  lemma {:induction false} RestoredUnits(u: seq<UInt16>)
    ensures forall i | 0 <= i < |u| :: Restored(u)[i] == Back(u[i])
  {
    if u != [] {
      RestoredUnits(u[1..]);
    }
  }

  lemma TakeBack(u: seq<UInt16>, rest: seq<Byte>, out: seq<UInt16>, room: nat, tb: Tables)
    requires u != [] && Valid(tb) && |out| + Step(u, COLON) <= room
    ensures var one := EncodeOne(u, COLON);
            && one[0] != 0
            && Take(one + rest, out, room, COLON, Mode.Plain, tb) ==
               (|one|, Decoded(out + Restored(u[..Step(u, COLON)]), Ok))
  {
    var c: UInt16 := Shown(u[0], COLON);
    var back := Restored(u[..Step(u, COLON)]);
    RestoredUnits(u[..Step(u, COLON)]);
    if c < 0x80 {
      assert back == [Back(u[0])];
    } else if c < 0x800 {
      TwoBack(c, rest);
      assert back == [Back(u[0])];
    } else if PairAt(u, COLON, 0) {
      FourBack(c, u[1], rest);
      assert back == [u[0], u[1]];
    } else {
      ThreeBack(c, rest);
      assert back == [Back(u[0])];
    }
  }

  lemma {:induction false} RestoredSplit(u: seq<UInt16>, n: nat)
    requires n <= |u|
    ensures Restored(u) == Restored(u[..n]) + Restored(u[n..])
  {
    if n == 0 {
      assert u[0..] == u;
    } else {
      RestoredSplit(u[1..], n - 1);
      SplitSlices(u, 1, n);
      Reassociate([Back(u[0])], Restored(u[..n][1..]), Restored(u[n..]));
    }
  }

  /** One character decoded, and the rest still to come. */
  lemma OneStep(one: seq<Byte>, rest: seq<Byte>, out: seq<UInt16>, next: seq<UInt16>, room: nat, mode: Mode, tb: Tables)
    requires one != [] && one[0] != 0 && Valid(tb) && |out| < room && |next| <= room
    requires Take(one + rest, out, room, COLON, mode, tb) == (|one|, Decoded(next, Ok))
    ensures Decode(one + rest, out, room, COLON, mode, tb) == Decode(rest, next, room, COLON, mode, tb)
  {
    var s := one + rest;
    assert s[0] != 0 && s[|one|..] == rest;
  }

  lemma FirstBack(u: seq<UInt16>, n: nat, out: seq<UInt16>, next: seq<UInt16>, room: nat, tb: Tables)
    requires u != [] && n == Step(u, COLON) && Valid(tb) && |out| + n <= room && next == out + Restored(u[..n])
    ensures |next| <= room
    ensures Decode(Encode(u, COLON), out, room, COLON, Mode.Plain, tb) ==
            Decode(Encode(u[n..], COLON), next, room, COLON, Mode.Plain, tb)
  {
    var one, rest := EncodeOne(u, COLON), Encode(u[n..], COLON);
    TakeBack(u, rest, out, room, tb);
    OneStep(one, rest, out, next, room, Mode.Plain, tb);
  }

  /** For every string, unpaired surrogates included. */
  lemma {:induction false} RoundTrip(u: seq<UInt16>, out: seq<UInt16>, room: nat, tb: Tables)
    requires Valid(tb) && |out| + |u| <= room
    ensures Decode(Encode(u, COLON), out, room, COLON, Mode.Plain, tb) == Decoded(out + Restored(u), Ok)
    decreases |u|
  {
    if u == [] {
      assert out + Restored(u) == out;
    } else {
      var n := Step(u, COLON);
      var first, rest := Restored(u[..n]), Restored(u[n..]);
      FirstBack(u, n, out, out + first, room, tb);
      RoundTrip(u[n..], out + first, room, tb);
      RestoredSplit(u, n);
      Reassociate(out, first, rest);
    }
  }

  /** The trip through the two routines, in buffers that are just large enough. */
  method ThereAndBack(u: seq<UInt16>, tb: Tables) returns (v: seq<UInt16>, status: Status)
    requires Valid(tb)
    ensures status == Ok && v == Restored(u)
  {
    var name, len, _ := BuildName(u);
    var ucs := new UInt16[|u|];
    RoundTrip(u, [], |u|, tb);
    var n;
    status, n := DecodeStr(name[..len], ucs, COLON, Mode.Plain, tb);
    v := ucs[..n];
  }

  // Section 3 of RFC 3629 and section 2 of RFC 2781.

  predicate Scalar(v: nat) {
    v <= 0x10FFFF && !(0xD800 <= v <= 0xDFFF)
  }

  /** The octets `b` are the UTF-8 form of `v`. */
  predicate Utf8Of(b: seq<Byte>, v: nat) {
    && Scalar(v)
    && match |b|
       case 1 => b[0] < 0x80 && v == b[0]
       case 2 =>
         && 0xC0 <= b[0] < 0xE0 && 0x80 <= b[1] < 0xC0
         && v == (b[0] - 0xC0) as int * 0x40 + (b[1] - 0x80) as int && 0x80 <= v
       case 3 =>
         && 0xE0 <= b[0] < 0xF0 && 0x80 <= b[1] < 0xC0 && 0x80 <= b[2] < 0xC0
         && v == ((b[0] - 0xE0) as int * 0x40 + (b[1] - 0x80) as int) * 0x40 + (b[2] - 0x80) as int && 0x800 <= v
       case 4 =>
         && 0xF0 <= b[0] < 0xF8 && 0x80 <= b[1] < 0xC0 && 0x80 <= b[2] < 0xC0 && 0x80 <= b[3] < 0xC0
         && v == (((b[0] - 0xF0) as int * 0x40 + (b[1] - 0x80) as int) * 0x40 + (b[2] - 0x80) as int) * 0x40
                 + (b[3] - 0x80) as int
         && 0x10000 <= v
       case _ => false
  }

  /** The octets are the UTF-8 forms of these code points, one after the other. */
  ghost predicate Utf8Text(b: seq<Byte>, vs: seq<nat>) {
    if vs == [] then b == []
    else exists n | 0 <= n <= |b| :: Utf8Of(b[..n], vs[0]) && Utf8Text(b[n..], vs[1..])
  }

  /** The UTF-16 form of a code point. */
  function Utf16(v: nat): seq<UInt16>
    requires Scalar(v)
  {
    if v < 0x10000 then [v] else [0xD800 + (v - 0x10000) / 0x400, 0xDC00 + (v - 0x10000) % 0x400]
  }

  function Utf16Text(vs: seq<nat>): seq<UInt16>
    requires forall v | v in vs :: Scalar(v)
  {
    if vs == [] then [] else Utf16(vs[0]) + Utf16Text(vs[1..])
  }

  /** The code point that appears in the file name. */
  function Substitute(v: nat): nat {
    if v == SLASH then COLON else if v == 0 then ALT_NULL else v
  }

  lemma Utf16Starts(v: nat, rest: seq<UInt16>)
    requires Scalar(v)
    ensures Step(Utf16(v) + rest, COLON) == |Utf16(v)|
    ensures Utf8Of(EncodeOne(Utf16(v) + rest, COLON), Substitute(v))
  {
    var u := Utf16(v) + rest;
    if v < 0x10000 {
      assert u[0] == v;
      assert !High(Shown(u[0], COLON));
      ThreeValue(Shown(u[0], COLON));
    } else {
      assert u[0] == 0xD800 + (v - 0x10000) / 0x400 && u[1] == 0xDC00 + (v - 0x10000) % 0x400;
      assert PairValue(u[0], u[1]) == v;
      SplitPair(v);
    }
  }

  lemma ThreeValue(c: UInt16)
    ensures c == (c / 0x1000 * 0x40 + c / 0x40 % 0x40) * 0x40 + c % 0x40
  {
    assert c / 0x40 == c / 0x1000 * 0x40 + c / 0x40 % 0x40;
  }

  function Substituted(vs: seq<nat>): (r: seq<nat>)
    ensures |r| == |vs| && forall i | 0 <= i < |vs| :: r[i] == Substitute(vs[i])
  {
    seq(|vs|, i requires 0 <= i < |vs| => Substitute(vs[i]))
  }

  /** The encoder turns the UTF-16 form of any text into its UTF-8 form, apart from the two substitutions. */
  lemma {:induction false} EncodesUtf8(vs: seq<nat>)
    requires forall v | v in vs :: Scalar(v)
    ensures Utf8Text(Encode(Utf16Text(vs), COLON), Substituted(vs))
    ensures Unpaired(Utf16Text(vs), COLON) == 0
    decreases |vs|
  {
    if vs != [] {
      var rest := Utf16Text(vs[1..]);
      var u := Utf16(vs[0]) + rest;
      Utf16Starts(vs[0], rest);
      EncodesUtf8(vs[1..]);
      var one, b := EncodeOne(u, COLON), Encode(u, COLON);
      assert u[|Utf16(vs[0])|..] == rest;
      assert Substituted(vs)[1..] == Substituted(vs[1..]);
      assert b[..|one|] == one && b[|one|..] == Encode(rest, COLON);
    }
  }

  lemma FirstPoint(u: seq<UInt16>, n: nat) returns (v: nat)
    requires u != [] && n == Step(u, COLON) && (n == 1 ==> !Surrogate(Shown(u[0], COLON)))
    ensures Scalar(v) && Utf16(v) == u[..n]
  {
    v := if n == 2 then PairValue(u[0], u[1]) else u[0];
    if n == 2 {
      PairHalves(u[0], u[1]);
    }
  }

  /** Every string without unpaired surrogates is such a UTF-16 form. */
  lemma {:induction false} PairedIsUtf16(u: seq<UInt16>) returns (vs: seq<nat>)
    requires Unpaired(u, COLON) == 0
    ensures forall v | v in vs :: Scalar(v)
    ensures Utf16Text(vs) == u
    decreases |u|
  {
    if u == [] {
      vs := [];
    } else {
      var n := Step(u, COLON);
      var v := FirstPoint(u, n);
      var rest := PairedIsUtf16(u[n..]);
      vs := [v] + rest;
      assert vs[0] == v && vs[1..] == rest;
      assert u == u[..n] + u[n..];
    }
  }
}
