/** Korean names: decomposed on the way in, precomposed on the way out, and unchanged in the end. */
module HangulTrip {
  import opened Bytes
  import opened Composition
  import opened Utf8Encode
  import opened Utf8Decode
  import opened Utf8RoundTrip

  /** ASCII other than NUL, slash and colon. */
  predicate PlainAscii(c: UInt16) {
    0 < c < 0x80 && c != SLASH && c != COLON
  }

  predicate Korean(w: seq<UInt16>) {
    forall i | 0 <= i < |w| :: Syllable(w[i]) || PlainAscii(w[i])
  }

  function Parts(c: UInt16): (p: seq<UInt16>)
    ensures 1 <= |p| <= 3
  {
    if Syllable(c) then Jamo(c) else [c]
  }

  /** The text with every syllable spread into its jamo. */
  function AllParts(w: seq<UInt16>): (p: seq<UInt16>)
    ensures |p| >= |w|
  {
    if w == [] then [] else Parts(w[0]) + AllParts(w[1..])
  }

  /** A unit that is encoded on its own whatever follows. */
  predicate Alone(c: UInt16) {
    PlainAscii(c) || (0x800 <= c && !Surrogate(c) && c != ALT_NULL)
  }

  lemma EncodeAlone(c: UInt16, rest: seq<UInt16>)
    requires Alone(c)
    ensures Encode([c] + rest, COLON) == EncodeOne([c], COLON) + Encode(rest, COLON)
    ensures EncodeOne([c], COLON) == if c < 0x80 then OneByte(c) else ThreeBytes(c)
    ensures EncodeOne([c], COLON)[0] != 0
  {
    var u := [c] + rest;
    assert Step(u, COLON) == 1 && u[1..] == rest;
    assert EncodeOne(u, COLON) == EncodeOne([c], COLON);
  }

  lemma AsciiTaken(c: UInt16, rest: seq<Byte>, out: seq<UInt16>, room: nat, mode: Mode, tb: Tables)
    requires PlainAscii(c) && Valid(tb) && |out| < room
    ensures Decode(OneByte(c) + rest, out, room, COLON, mode, tb) == Decode(rest, out + [c], room, COLON, mode, tb)
  {
    OneStep(OneByte(c), rest, out, out + [c], room, mode, tb);
  }

  /**
   * A buffer of `room` units takes text `w` that fills `used` of them: there is a unit to spare, or the
   * text fills it exactly and does not end in a syllable, after which the decoder wants more room.
   */
  predicate Accepted(w: seq<UInt16>, used: nat, room: nat) {
    used < room || (used == room && (w == [] || PlainAscii(w[|w| - 1])))
  }

  lemma FullBuffer(b: seq<Byte>, out: seq<UInt16>, room: nat, mode: Mode, tb: Tables)
    requires Valid(tb) && b != [] && b[0] != 0 && |out| == room
    ensures Decode(b, out, room, COLON, mode, tb).status == TooLong
  {
  }

  /** A character that fills the buffer ends the decoding. */
  lemma Stops(one: seq<Byte>, rest: seq<Byte>, out: seq<UInt16>, room: nat, mode: Mode, tb: Tables)
    requires one != [] && one[0] != 0 && Valid(tb) && |out| < room
    requires Take(one + rest, out, room, COLON, mode, tb).1.status == TooLong
    ensures Decode(one + rest, out, room, COLON, mode, tb).status == TooLong
  {
    assert (one + rest)[0] != 0;
  }

  lemma EncodedStarts(c: UInt16, more: seq<UInt16>)
    requires Alone(c)
    ensures Encode([c] + more, COLON) != [] && Encode([c] + more, COLON)[0] != 0
  {
    EncodeAlone(c, more);
  }

  // Decomposing.

  lemma SyllableSpread(c: UInt16, rest: seq<Byte>, out: seq<UInt16>, room: nat, tb: Tables)
    requires Syllable(c) && HangulRows(tb) && |out| + |Jamo(c)| < room
    ensures Decode(ThreeBytes(c) + rest, out, room, COLON, Decomposed, tb) ==
            Decode(rest, out + Jamo(c), room, COLON, Decomposed, tb)
  {
    ThreeBack(c, rest);
    SyllablesDecompose(tb, c);
    OneStep(ThreeBytes(c), rest, out, out + Jamo(c), room, Decomposed, tb);
  }

  lemma FirstSpread(w: seq<UInt16>, out: seq<UInt16>, next: seq<UInt16>, room: nat, tb: Tables)
    requires w != [] && (Syllable(w[0]) || PlainAscii(w[0])) && HangulRows(tb)
    requires next == out + Parts(w[0]) && (|next| < room || (PlainAscii(w[0]) && |next| == room))
    ensures Decode(Encode(w, COLON), out, room, COLON, Decomposed, tb) ==
            Decode(Encode(w[1..], COLON), next, room, COLON, Decomposed, tb)
  {
    var c, more := w[0], w[1..];
    assert w == [c] + more;
    EncodeAlone(c, more);
    if Syllable(c) {
      SyllableSpread(c, Encode(more, COLON), out, room, tb);
    } else {
      AsciiTaken(c, Encode(more, COLON), out, room, Decomposed, tb);
    }
  }

  /** A syllable whose jamo do not leave a unit to spare. */
  lemma SyllableStopped(c: UInt16, rest: seq<Byte>, out: seq<UInt16>, room: nat, tb: Tables)
    requires Syllable(c) && HangulRows(tb) && |out| < room <= |out| + |Jamo(c)|
    ensures Decode(ThreeBytes(c) + rest, out, room, COLON, Decomposed, tb).status == TooLong
  {
    ThreeBack(c, rest);
    SyllablesDecompose(tb, c);
    Stops(ThreeBytes(c), rest, out, room, Decomposed, tb);
  }

  lemma FirstStopped(w: seq<UInt16>, out: seq<UInt16>, room: nat, tb: Tables)
    requires w != [] && (Syllable(w[0]) || PlainAscii(w[0])) && HangulRows(tb)
    requires |out| == room || (Syllable(w[0]) && |out| < room <= |out| + |Jamo(w[0])|)
    ensures Decode(Encode(w, COLON), out, room, COLON, Decomposed, tb).status == TooLong
  {
    var c, more := w[0], w[1..];
    assert w == [c] + more;
    EncodeAlone(c, more);
    EncodedStarts(c, more);
    if |out| == room {
      FullBuffer(Encode(w, COLON), out, room, Decomposed, tb);
    } else {
      SyllableStopped(c, Encode(more, COLON), out, room, tb);
    }
  }

  /** A text is taken together with its first character, unless that one is a syllable at the very end. */
  lemma AcceptedRest(w: seq<UInt16>, used: nat, room: nat)
    requires w != [] && (|w| > 1 || PlainAscii(w[0]) || used < room)
    ensures Accepted(w, used, room) == Accepted(w[1..], used, room)
  {
  }

  ghost predicate Encodes(w: seq<UInt16>, b: seq<Byte>) {
    b == Encode(w, COLON)
  }

  /** What decoding an encoded text comes to. */
  ghost predicate DecodesTo(w: seq<UInt16>, out: seq<UInt16>, room: nat, mode: Mode, tb: Tables, d: Decoded)
    requires Valid(tb) && |out| <= room
  {
    forall b {:trigger Encodes(w, b)} | Encodes(w, b) :: Decode(b, out, room, COLON, mode, tb) == d
  }

  lemma DecodeNone(out: seq<UInt16>, room: nat, mode: Mode, tb: Tables)
    requires Valid(tb) && |out| <= room
    ensures DecodesTo([], out, room, mode, tb, Decoded(out, Ok))
  {
  }

  lemma SpreadFirst(w: seq<UInt16>, out: seq<UInt16>, next: seq<UInt16>, room: nat, tb: Tables, d: Decoded)
    requires w != [] && (Syllable(w[0]) || PlainAscii(w[0])) && HangulRows(tb)
    requires next == out + Parts(w[0]) && (|next| < room || (PlainAscii(w[0]) && |next| == room))
    requires DecodesTo(w[1..], next, room, Decomposed, tb, d)
    ensures DecodesTo(w, out, room, Decomposed, tb, d)
  {
    FirstSpread(w, out, next, room, tb);
    assert Encodes(w[1..], Encode(w[1..], COLON));
  }

  /** The text is spread behind `out` if the buffer takes it. */
  ghost predicate Spreads(w: seq<UInt16>, out: seq<UInt16>, room: nat, tb: Tables, d: Decoded)
    requires Valid(tb) && |out| <= room
  {
    && DecodesTo(w, out, room, Decomposed, tb, d)
    && (d.status == Ok <==> Accepted(w, |out| + |AllParts(w)|, room))
    && (d.status == Ok ==> d.out == out + AllParts(w))
  }

  lemma SpreadStops(w: seq<UInt16>, out: seq<UInt16>, room: nat, tb: Tables) returns (d: Decoded)
    requires w != [] && (Syllable(w[0]) || PlainAscii(w[0])) && HangulRows(tb)
    requires |out| == room || (Syllable(w[0]) && |out| < room <= |out| + |Jamo(w[0])|)
    ensures Spreads(w, out, room, tb, d) && d.status == TooLong
  {
    FirstStopped(w, out, room, tb);
    d := Decode(Encode(w, COLON), out, room, COLON, Decomposed, tb);
  }

  lemma SpreadsNone(out: seq<UInt16>, room: nat, tb: Tables)
    requires Valid(tb) && |out| <= room
    ensures Spreads([], out, room, tb, Decoded(out, Ok))
  {
    DecodeNone(out, room, Decomposed, tb);
    assert out + [] == out;
  }

  lemma SpreadsMore(w: seq<UInt16>, out: seq<UInt16>, next: seq<UInt16>, room: nat, tb: Tables, d: Decoded)
    requires w != [] && (Syllable(w[0]) || PlainAscii(w[0])) && HangulRows(tb)
    requires next == out + Parts(w[0]) && (|next| < room || (PlainAscii(w[0]) && |next| == room))
    requires Spreads(w[1..], next, room, tb, d)
    ensures Spreads(w, out, room, tb, d)
  {
    SpreadFirst(w, out, next, room, tb, d);
    Reassociate(out, Parts(w[0]), AllParts(w[1..]));
    AcceptedRest(w, |out| + |AllParts(w)|, room);
  }

  lemma {:induction false} SpreadAll(w: seq<UInt16>, out: seq<UInt16>, room: nat, tb: Tables) returns (d: Decoded)
    requires Korean(w) && HangulRows(tb) && |out| <= room
    ensures Spreads(w, out, room, tb, d)
    decreases |w|
  {
    if w == [] {
      SpreadsNone(out, room, tb);
      d := Decoded(out, Ok);
    } else {
      var next := out + Parts(w[0]);
      if |out| == room || (Syllable(w[0]) && room <= |next|) {
        d := SpreadStops(w, out, room, tb);
      } else {
        d := SpreadAll(w[1..], next, room, tb);
        SpreadsMore(w, out, next, room, tb, d);
      }
    }
  }

  /** Decoding with decomposition spreads every syllable, in exactly the buffers that take it. */
  lemma Decomposing(w: seq<UInt16>, out: seq<UInt16>, room: nat, tb: Tables)
    requires Korean(w) && HangulRows(tb) && |out| <= room
    ensures var d := Decode(Encode(w, COLON), out, room, COLON, Decomposed, tb);
            && (d.status == Ok <==> Accepted(w, |out| + |AllParts(w)|, room))
            && (d.status == Ok ==> d.out == out + AllParts(w))
  {
    var d := SpreadAll(w, out, room, tb);
    assert Encodes(w, Encode(w, COLON));
  }

  // Composing.

  /** A jamo that joins what is already there. */
  lemma Joined(c: UInt16, whole: UInt16, rest: seq<Byte>, out: seq<UInt16>, base: UInt16, room: nat, tb: Tables)
    requires HangulRows(tb) && (Vowel(c) || Trailing(c)) && |out| + 1 < room
    requires whole == Combine(tb, base, c) && Syllable(whole)
    ensures Decode(ThreeBytes(c) + rest, out + [base], room, COLON, Precomposed, tb) ==
            Decode(rest, out + [whole], room, COLON, Precomposed, tb)
  {
    ThreeBack(c, rest);
    JamoCombine(tb, c);
    var was := out + [base];
    assert was[..|was| - 1] == out;
    assert Append(was, c, COLON, Precomposed, tb) == out + [whole];
    OneStep(ThreeBytes(c), rest, was, out + [whole], room, Precomposed, tb);
  }

  lemma LeadingTaken(c: UInt16, rest: seq<Byte>, out: seq<UInt16>, room: nat, tb: Tables)
    requires HangulRows(tb) && Leading(c) && |out| < room
    ensures Decode(ThreeBytes(c) + rest, out, room, COLON, Precomposed, tb) ==
            Decode(rest, out + [c], room, COLON, Precomposed, tb)
  {
    ThreeBack(c, rest);
    JamoCombine(tb, c);
    OneStep(ThreeBytes(c), rest, out, out + [c], room, Precomposed, tb);
  }

  /** The first two jamo of a syllable. */
  lemma PairJoined(j: seq<UInt16>, lv: UInt16, tail: seq<UInt16>, out: seq<UInt16>, room: nat, tb: Tables)
    requires HangulRows(tb) && |out| + 1 < room
    requires |j| == 2 && Leading(j[0]) && Vowel(j[1]) && lv == Combine(tb, j[0], j[1]) && Syllable(lv)
    ensures Decode(Encode(j + tail, COLON), out, room, COLON, Precomposed, tb) ==
            Decode(Encode(tail, COLON), out + [lv], room, COLON, Precomposed, tb)
  {
    assert j + tail == [j[0]] + ([j[1]] + tail);
    EncodeAlone(j[0], [j[1]] + tail);
    EncodeAlone(j[1], tail);
    LeadingTaken(j[0], Encode([j[1]] + tail, COLON), out, room, tb);
    Joined(j[1], lv, Encode(tail, COLON), out, j[0], room, tb);
  }

  lemma TrailingJoined(t: UInt16, c: UInt16, lv: UInt16, more: seq<UInt16>, out: seq<UInt16>, room: nat, tb: Tables)
    requires HangulRows(tb) && |out| + 1 < room && Trailing(t) && c == Combine(tb, lv, t) && Syllable(c)
    ensures Decode(Encode([t] + more, COLON), out + [lv], room, COLON, Precomposed, tb) ==
            Decode(Encode(more, COLON), out + [c], room, COLON, Precomposed, tb)
  {
    EncodeAlone(t, more);
    Joined(t, c, Encode(more, COLON), out, lv, room, tb);
  }

  /** The jamo of one syllable become that syllable again. */
  lemma SyllableJoined(c: UInt16, more: seq<UInt16>, out: seq<UInt16>, room: nat, tb: Tables)
    requires Syllable(c) && HangulRows(tb) && |out| + 1 < room
    ensures Decode(Encode(Jamo(c) + more, COLON), out, room, COLON, Precomposed, tb) ==
            Decode(Encode(more, COLON), out + [c], room, COLON, Precomposed, tb)
  {
    var j := Jamo(c);
    JamoRecombine(tb, c);
    var lv := Combine(tb, j[0], j[1]);
    if |j| == 3 {
      assert j + more == j[..2] + ([j[2]] + more);
      PairJoined(j[..2], lv, [j[2]] + more, out, room, tb);
      TrailingJoined(j[2], c, lv, more, out, room, tb);
    } else {
      PairJoined(j, lv, more, out, room, tb);
    }
  }

  lemma FirstJoined(w: seq<UInt16>, out: seq<UInt16>, room: nat, tb: Tables)
    requires w != [] && (Syllable(w[0]) || PlainAscii(w[0])) && HangulRows(tb)
    requires |out| + 1 < room || (PlainAscii(w[0]) && |out| < room)
    ensures Decode(Encode(AllParts(w), COLON), out, room, COLON, Precomposed, tb) ==
            Decode(Encode(AllParts(w[1..]), COLON), out + [w[0]], room, COLON, Precomposed, tb)
  {
    var c, parts := w[0], AllParts(w[1..]);
    if Syllable(c) {
      SyllableJoined(c, parts, out, room, tb);
    } else {
      EncodeAlone(c, parts);
      AsciiTaken(c, Encode(parts, COLON), out, room, Precomposed, tb);
    }
  }

  /** With one unit left, the leading consonant of a syllable fills the buffer. */
  lemma LeadingFills(c: UInt16, rest: seq<Byte>, out: seq<UInt16>, room: nat, tb: Tables)
    requires HangulRows(tb) && Leading(c) && |out| + 1 == room && rest != [] && rest[0] != 0
    ensures Decode(ThreeBytes(c) + rest, out, room, COLON, Precomposed, tb).status == TooLong
  {
    LeadingTaken(c, rest, out, room, tb);
    FullBuffer(rest, out + [c], room, Precomposed, tb);
  }

  lemma VowelWaits(j: seq<UInt16>, tail: seq<UInt16>, out: seq<UInt16>, room: nat, tb: Tables)
    requires HangulRows(tb) && |j| == 2 && Leading(j[0]) && Vowel(j[1]) && |out| + 1 == room
    ensures Decode(Encode(j + tail, COLON), out, room, COLON, Precomposed, tb).status == TooLong
  {
    var more := [j[1]] + tail;
    assert j + tail == [j[0]] + more;
    EncodeAlone(j[0], more);
    EncodedStarts(j[1], tail);
    LeadingFills(j[0], Encode(more, COLON), out, room, tb);
  }

  lemma FirstUnjoined(w: seq<UInt16>, out: seq<UInt16>, room: nat, tb: Tables)
    requires w != [] && (Syllable(w[0]) || PlainAscii(w[0])) && HangulRows(tb)
    requires |out| == room || (Syllable(w[0]) && |out| + 1 == room)
    ensures Decode(Encode(AllParts(w), COLON), out, room, COLON, Precomposed, tb).status == TooLong
  {
    var c, parts := w[0], AllParts(w[1..]);
    if Syllable(c) {
      JamoRecombine(tb, c);
    }
    var p := Parts(c);
    if |out| == room {
      assert p + parts == [p[0]] + (p[1..] + parts);
      EncodedStarts(p[0], p[1..] + parts);
      FullBuffer(Encode(AllParts(w), COLON), out, room, Precomposed, tb);
    } else {
      assert p + parts == p[..2] + (p[2..] + parts);
      VowelWaits(p[..2], p[2..] + parts, out, room, tb);
    }
  }

  lemma JoinFirst(w: seq<UInt16>, out: seq<UInt16>, room: nat, tb: Tables, d: Decoded)
    requires w != [] && (Syllable(w[0]) || PlainAscii(w[0])) && HangulRows(tb)
    requires |out| + 1 < room || (PlainAscii(w[0]) && |out| < room)
    requires DecodesTo(AllParts(w[1..]), out + [w[0]], room, Precomposed, tb, d)
    ensures DecodesTo(AllParts(w), out, room, Precomposed, tb, d)
  {
    FirstJoined(w, out, room, tb);
    assert Encodes(AllParts(w[1..]), Encode(AllParts(w[1..]), COLON));
  }

  lemma JoinStops(w: seq<UInt16>, out: seq<UInt16>, room: nat, tb: Tables) returns (d: Decoded)
    requires w != [] && (Syllable(w[0]) || PlainAscii(w[0])) && HangulRows(tb)
    requires |out| == room || (Syllable(w[0]) && |out| + 1 == room)
    ensures DecodesTo(AllParts(w), out, room, Precomposed, tb, d) && d.status == TooLong
  {
    FirstUnjoined(w, out, room, tb);
    d := Decode(Encode(AllParts(w), COLON), out, room, COLON, Precomposed, tb);
  }

  lemma {:induction false} JoinAll(w: seq<UInt16>, out: seq<UInt16>, room: nat, tb: Tables) returns (d: Decoded)
    requires Korean(w) && HangulRows(tb) && |out| <= room
    ensures DecodesTo(AllParts(w), out, room, Precomposed, tb, d)
    ensures d.status == Ok <==> Accepted(w, |out| + |w|, room)
    ensures d.status == Ok ==> d.out == out + w
    decreases |w|
  {
    if w == [] {
      DecodeNone(out, room, Precomposed, tb);
      d := Decoded(out, Ok);
      assert out + w == out;
    } else if |out| == room || (Syllable(w[0]) && |out| + 1 == room) {
      d := JoinStops(w, out, room, tb);
    } else {
      d := JoinAll(w[1..], out + [w[0]], room, tb);
      JoinFirst(w, out, room, tb, d);
      Reassociate(out, [w[0]], w[1..]);
      assert [w[0]] + w[1..] == w;
      AcceptedRest(w, |out| + |w|, room);
    }
  }

  /** Decoding with precomposition puts the syllables together again, in exactly the buffers that take them. */
  lemma Composing(w: seq<UInt16>, out: seq<UInt16>, room: nat, tb: Tables)
    requires Korean(w) && HangulRows(tb) && |out| <= room
    ensures var d := Decode(Encode(AllParts(w), COLON), out, room, COLON, Precomposed, tb);
            && (d.status == Ok <==> Accepted(w, |out| + |w|, room))
            && (d.status == Ok ==> d.out == out + w)
  {
    var d := JoinAll(w, out, room, tb);
    assert Encodes(AllParts(w), Encode(AllParts(w), COLON));
  }

  lemma Nothing(w: seq<UInt16>)
    ensures [] + w == w
  {
  }

  /**
   * The whole trip: decoded with decomposition, encoded again, decoded with precomposition. Each pass
   * succeeds in exactly the buffers that take the text, and in the end it is unchanged.
   */
  lemma KoreanTrip(w: seq<UInt16>, room: nat, room': nat, tb: Tables)
    requires Korean(w) && HangulRows(tb)
    ensures var d := Decode(Encode(w, COLON), [], room, COLON, Decomposed, tb);
            && (d.status == Ok <==> Accepted(w, |AllParts(w)|, room))
            && (d.status == Ok ==>
                  var c := Decode(Encode(d.out, COLON), [], room', COLON, Precomposed, tb);
                  && (c.status == Ok <==> Accepted(w, |w|, room'))
                  && (c.status == Ok ==> c.out == w))
  {
    Nothing(w);
    Nothing(AllParts(w));
    Decomposing(w, [], room, tb);
    Composing(w, [], room', tb);
  }

  /** A name that fits exactly and is reported as too long. */
  lemma ExactRoomFails(tb: Tables)
    requires HangulRows(tb)
    ensures Korean([0xAC00]) && |AllParts([0xAC00])| == 2 && !Accepted([0xAC00], 2, 2)
    ensures Decode(Encode([0xAC00], COLON), [], 2, COLON, Decomposed, tb) == Decoded([0x1100, 0x1161], TooLong)
  {
    var b := Encode([0xAC00], COLON);
    EncodeAlone(0xAC00, []);
    assert [0xAC00] + [] == [0xAC00];
    assert b == ThreeBytes(0xAC00) + [];
    ThreeBack(0xAC00, []);
    SyllablesDecompose(tb, 0xAC00);
    assert AllParts([0xAC00]) == Jamo(0xAC00) + [];
    assert [] + Jamo(0xAC00)[..2] == [0x1100, 0x1161];
  }
}
