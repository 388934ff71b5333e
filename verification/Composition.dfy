/**
 * Composing and decomposing characters (vfs_utfconv.c). Hangul is arithmetic; everything else comes
 * out of tables, of which only what the Hangul rows hold is fixed here.
 */
module Composition {
  import opened Arith
  import opened Bytes

  const S_BASE := 0xAC00
  const L_BASE := 0x1100
  const V_BASE := 0x1161
  const T_BASE := 0x11A7
  const S_COUNT := 11172
  const L_COUNT := 19
  const V_COUNT := 21
  const T_COUNT := 28
  const N_COUNT := 588

  /**
   * Two bitmaps over the characters, the decomposition of characters other than Hangul, and the
   * precomposed character for a base and a combining character (0 if there is none).
   */
  datatype Tables = Tables(
    combining: seq<Byte>,
    decomposable: seq<Byte>,
    others: UInt16 -> seq<UInt16>,
    composites: (UInt16, UInt16) -> UInt16)

  // Bitmaps.

  predicate Bit(b: Byte, k: nat)
    requires k < 8
  {
    b / Pow2(k) % 2 == 1
  }

  /** One byte per row of 256 characters: all, none, or the number of a 32-byte bitmap further on. */
  predicate WellFormed(bitmap: seq<Byte>) {
    256 <= |bitmap| && forall i | 0 <= i < 256 :: bitmap[i] < 0xFF ==> 256 + 32 * bitmap[i] <= |bitmap|
  }

  predicate InBitmap(bitmap: seq<Byte>, c: UInt16)
    requires WellFormed(bitmap)
  {
    var row := bitmap[c / 0x100];
    if row == 0xFF then true
    else if row == 0 then false
    else Bit(bitmap[256 + 32 * (row - 1) + c % 0x100 / 8], c % 8)
  }

  predicate Valid(tb: Tables) {
    WellFormed(tb.combining) && WellFormed(tb.decomposable)
  }

  /** unicode_combinable */
  predicate Combinable(tb: Tables, c: UInt16)
    requires Valid(tb)
  {
    c >= 0x300 && InBitmap(tb.combining, c)
  }

  /** unicode_decomposeable */
  predicate Decomposable(tb: Tables, c: UInt16)
    requires Valid(tb)
  {
    c >= 0xC0 && InBitmap(tb.decomposable, c)
  }

  // Hangul.

  predicate Syllable(c: UInt16) {
    S_BASE <= c < S_BASE + S_COUNT
  }

  predicate Leading(c: UInt16) {
    L_BASE <= c < L_BASE + L_COUNT
  }

  predicate Vowel(c: UInt16) {
    V_BASE <= c < V_BASE + V_COUNT
  }

  predicate Trailing(c: UInt16) {
    T_BASE < c < T_BASE + T_COUNT
  }

  /**
   * The Hangul rows of the tables: syllables decompose, vowels and trailing consonants combine, leading
   * consonants do not.
   */
  predicate HangulRows(tb: Tables) {
    && Valid(tb)
    && (forall i | 0xAC <= i < 0xD7 :: tb.decomposable[i] == 0xFF)
    && tb.decomposable[0xD7] == 0x11
    && (forall i | 768 <= i < 788 :: tb.decomposable[i] == 0xFF)
    && tb.decomposable[788] == 0x0F
    && tb.combining[0x11] == 0x14
    && (forall i | 864 <= i < 876 :: tb.combining[i] == 0)
    && tb.combining[876] == 0xFE && tb.combining[877] == 0xFF && tb.combining[878] == 0x3F
    && tb.combining[885] == 0xFF && tb.combining[886] == 0xFF && tb.combining[887] == 0xFF
    && tb.combining[888] == 0x07
  }

  lemma SmallPowers(k: nat)
    requires k < 8
    ensures Pow2(k) == if k == 0 then 1 else if k == 1 then 2 else if k == 2 then 4 else if k == 3 then 8
                       else if k == 4 then 16 else if k == 5 then 32 else if k == 6 then 64 else 128
  {
    assert Pow2(3) == 8 && Pow2(4) == 16 && Pow2(5) == 32 && Pow2(6) == 64 && Pow2(7) == 128;
  }

  lemma AllBits(k: nat)
    requires k < 8
    ensures Bit(0xFF, k) && !Bit(0, k)
    ensures k < 4 ==> Bit(0x0F, k)
    ensures k < 6 ==> Bit(0x3F, k)
    ensures k < 3 ==> Bit(0x07, k)
    ensures k > 0 ==> Bit(0xFE, k)
  {
    SmallPowers(k);
  }

  lemma SyllablesDecompose(tb: Tables, c: UInt16)
    requires HangulRows(tb) && Syllable(c)
    ensures Decomposable(tb, c)
  {
    var row, byte := c / 0x100, c % 0x100 / 8;
    if row == 0xD7 {
      assert tb.decomposable[768 + byte] == if byte < 20 then 0xFF else 0x0F;
      AllBits(c % 8);
    } else {
      assert tb.decomposable[row] == 0xFF;
    }
  }

  lemma JamoCombine(tb: Tables, c: UInt16)
    requires HangulRows(tb)
    ensures Vowel(c) || Trailing(c) ==> Combinable(tb, c)
    ensures Leading(c) ==> !Combinable(tb, c)
  {
    AllBits(c % 8);
  }

  /** The first branch of unicode_decompose. */
  function Jamo(c: UInt16): (j: seq<UInt16>)
    requires S_BASE <= c <= S_BASE + S_COUNT
    ensures |j| == 2 || |j| == 3
  {
    var i := c - S_BASE;
    var lv := [i / N_COUNT + L_BASE, i % N_COUNT / T_COUNT + V_BASE];
    if i % T_COUNT != 0 then lv + [i % T_COUNT + T_BASE] else lv
  }

  /** unicode_decompose */
  function Decompose(tb: Tables, c: UInt16): seq<UInt16> {
    if S_BASE <= c <= S_BASE + S_COUNT then Jamo(c) else tb.others(c)
  }

  /** unicode_combine; 0 if the two do not combine. */
  function Combine(tb: Tables, base: UInt16, c: UInt16): (r: UInt16) {
    if Vowel(c) && Leading(base) then
      S_BASE + (base - L_BASE) * N_COUNT + (c - V_BASE) * T_COUNT
    else if Trailing(c) && Syllable(base) then
      if (base - S_BASE) % T_COUNT != 0 then 0 else base + (c - T_BASE)
    else tb.composites(base, c)
  }

  /** Section 3.12 of the Unicode Standard: a syllable is recovered from its jamo, one at a time. */
  lemma JamoRecombine(tb: Tables, c: UInt16)
    requires Syllable(c)
    ensures var j := Jamo(c);
            && Leading(j[0]) && Vowel(j[1]) && Syllable(Combine(tb, j[0], j[1]))
            && (|j| == 2 ==> Combine(tb, j[0], j[1]) == c)
            && (|j| == 3 ==> Trailing(j[2]) && Combine(tb, Combine(tb, j[0], j[1]), j[2]) == c)
  {
    var i := c - S_BASE;
    assert i == i / N_COUNT * N_COUNT + i % N_COUNT;
    var r := i % N_COUNT;
    assert r == r / T_COUNT * T_COUNT + r % T_COUNT;
    assert r % T_COUNT == i % T_COUNT;
  }

  /** What jamo combine to is a syllable, and decomposing it gives them back. */
  lemma CombineDecomposes(tb: Tables, l: UInt16, v: UInt16, t: UInt16)
    requires Leading(l) && Vowel(v) && Trailing(t)
    ensures Syllable(Combine(tb, l, v)) && Jamo(Combine(tb, l, v)) == [l, v]
    ensures Syllable(Combine(tb, Combine(tb, l, v), t)) && Jamo(Combine(tb, Combine(tb, l, v), t)) == [l, v, t]
  {
    var a, b, d := l - L_BASE, v - V_BASE, t - T_BASE;
    var i := a * N_COUNT + b * T_COUNT;
    assert i / N_COUNT == a && i % N_COUNT == b * T_COUNT;
    assert b * T_COUNT / T_COUNT == b && i % T_COUNT == 0;
    var k := i + d;
    assert k / N_COUNT == a && k % N_COUNT == b * T_COUNT + d;
    assert (b * T_COUNT + d) / T_COUNT == b && k % T_COUNT == d;
  }

  // Table lookup.

  /** A table of keys in increasing order, each with a value. */
  datatype Entry = Entry(key: nat, value: nat)

  predicate Sorted(table: seq<Entry>) {
    forall i, j | 0 <= i < j < |table| :: table[i].key < table[j].key
  }

  /** getmappedvalue16 and getmappedvalue32: the value of the one entry with this key, or 0. */
  method MappedValue(table: seq<Entry>, c: nat) returns (value: nat)
    requires |table| > 0 && Sorted(table)
    ensures forall i | 0 <= i < |table| :: table[i].key == c ==> value == table[i].value
    ensures (forall i | 0 <= i < |table| :: table[i].key != c) ==> value == 0
  {
    if c < table[0].key || c > table[|table| - 1].key {
      return 0;
    }
    var p, q := 0, |table| - 1;
    while p <= q
      invariant 0 <= p <= |table| && -1 <= q < |table|
      invariant forall i | 0 <= i < p :: table[i].key < c
      invariant forall i | q < i < |table| :: table[i].key > c
      decreases q - p
    {
      var divider := p + (q - p) / 2;
      if c < table[divider].key {
        q := divider - 1;
      } else if c > table[divider].key {
        p := divider + 1;
      } else {
        return table[divider].value;
      }
    }
    value := 0;
  }
}
