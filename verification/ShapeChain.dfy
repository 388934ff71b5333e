/** Structures laid end to end, turned one at a time from the last to the first. */
module ShapeChain {
  import opened Bytes
  import opened ByteOrder
  import opened Held

  /** Where structure `r` starts if the first one starts at `p`. */
  ghost function Place(shapes: seq<Shape>, p: nat, r: nat): (q: nat)
    requires r <= |shapes|
  {
    if r == 0 then p else Place(shapes, p, r - 1) + Size(shapes[r - 1])
  }

  /** Structure `r` and the ones behind it as one structure. */
  ghost function Chain(shapes: seq<Shape>, r: nat): (sh: Shape)
    requires r <= |shapes|
    decreases |shapes| - r
  {
    if r == |shapes| then Plain(0) else Then(shapes[r], Chain(shapes, r + 1))
  }

  lemma {:induction false} ChainEnds(shapes: seq<Shape>, p: nat, r: nat)
    requires r <= |shapes|
    ensures Place(shapes, p, r) + Size(Chain(shapes, r)) == Place(shapes, p, |shapes|)
    decreases |shapes| - r
  {
    if r < |shapes| {
      ChainEnds(shapes, p, r + 1);
    }
  }

  lemma {:induction false} PlaceAbove(shapes: seq<Shape>, p: nat, r: nat)
    requires r <= |shapes|
    ensures p <= Place(shapes, p, r)
  {
    if r > 0 {
      PlaceAbove(shapes, p, r - 1);
    }
  }

  /** The structures `shapes`, of which `native` is the native form, from `p` on. */
  ghost predicate HoldsChain(s: seq<Byte>, p: nat, native: seq<Byte>, shapes: seq<Shape>, unswap: bool) {
    Holds(s, p, native, Chain(shapes, 0), unswap)
  }

  lemma DropMore(native: seq<Byte>, a: nat, b: nat)
    requires a + b <= |native|
    ensures native[a..][b..] == native[a + b..]
    ensures native[a..][..b] == native[a..a + b]
  {
  }

  lemma {:induction false} HeldFrom(
      s: seq<Byte>, p: nat, native: seq<Byte>, shapes: seq<Shape>, unswap: bool, r: nat)
    requires HoldsChain(s, p, native, shapes, unswap) && r <= |shapes|
    ensures 0 <= Place(shapes, p, r) - p <= |native|
    ensures Holds(s, Place(shapes, p, r), native[Place(shapes, p, r) - p..], Chain(shapes, r), unswap)
  {
    if r == 0 {
      assert native[0..] == native;
    } else {
      HeldFrom(s, p, native, shapes, unswap, r - 1);
      var q := Place(shapes, p, r - 1);
      HoldsParts(s, q, native[q - p..], shapes[r - 1], Chain(shapes, r), unswap, Size(shapes[r - 1]));
      DropMore(native, q - p, Size(shapes[r - 1]));
    }
  }

  /** The native form of structure `r`. */
  ghost function Link(p: nat, native: seq<Byte>, shapes: seq<Shape>, r: nat): (link: seq<Byte>)
    requires r < |shapes| && 0 <= Place(shapes, p, r) - p && Place(shapes, p, r + 1) - p <= |native|
    ensures |link| == Size(shapes[r])
  {
    native[Place(shapes, p, r) - p..Place(shapes, p, r + 1) - p]
  }

  lemma HeldAt(s: seq<Byte>, p: nat, native: seq<Byte>, shapes: seq<Shape>, unswap: bool, r: nat)
    requires HoldsChain(s, p, native, shapes, unswap) && r < |shapes|
    ensures 0 <= Place(shapes, p, r) - p && Place(shapes, p, r + 1) - p <= |native|
    ensures Holds(s, Place(shapes, p, r), Link(p, native, shapes, r), shapes[r], unswap)
  {
    HeldFrom(s, p, native, shapes, unswap, r);
    var q := Place(shapes, p, r);
    HoldsParts(s, q, native[q - p..], shapes[r], Chain(shapes, r + 1), unswap, Size(shapes[r]));
    DropMore(native, q - p, Size(shapes[r]));
  }

  /** Structure `r` and the ones behind it turned. */
  ghost function TurnedFrom(s: seq<Byte>, p: nat, shapes: seq<Shape>, r: nat): (f: seq<Byte>)
    requires r <= |shapes| && Place(shapes, p, |shapes|) <= |s|
    ensures |f| == |s|
  {
    ChainEnds(shapes, p, r);
    FlipAt(s, Place(shapes, p, r), Chain(shapes, r))
  }

  lemma NoneTurned(s: seq<Byte>, p: nat, shapes: seq<Shape>)
    requires Place(shapes, p, |shapes|) <= |s|
    ensures TurnedFrom(s, p, shapes, |shapes|) == s
  {
    FlipAtPlain(s, Place(shapes, p, |shapes|), 0);
  }

  lemma OneMoreTurned(s: seq<Byte>, p: nat, native: seq<Byte>, shapes: seq<Shape>, unswap: bool, r: nat)
    requires HoldsChain(s, p, native, shapes, unswap) && r < |shapes|
    requires Place(shapes, p, |shapes|) <= |s|
    ensures 0 <= Place(shapes, p, r) - p && Place(shapes, p, r + 1) - p <= |native|
    ensures var before, q := TurnedFrom(s, p, shapes, r + 1), Place(shapes, p, r);
            && Holds(before, q, Link(p, native, shapes, r), shapes[r], unswap)
            && FlipAt(before, q, shapes[r]) == TurnedFrom(s, p, shapes, r)
  {
    var q, rest := Place(shapes, p, r), Chain(shapes, r + 1);
    HeldAt(s, p, native, shapes, unswap, r);
    ChainEnds(shapes, p, r + 1);
    HoldsKept(s, q + Size(shapes[r]), rest, q, Link(p, native, shapes, r), shapes[r], unswap);
    FlipAtThen(s, q, shapes[r], rest);
  }
}
