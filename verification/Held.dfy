/** Structures in a buffer that is being swapped or unswapped. */
module Held {
  import opened Bytes
  import opened ByteOrder

  /** Byte `i` of a native structure is as it is when it is to be unswapped, turned when it is to be swapped. */
  predicate HeldByte(s: seq<Byte>, p: nat, native: seq<Byte>, sh: Shape, unswap: bool, i: nat)
    requires i < Size(sh) == |native| && p + |native| <= |s|
  {
    s[p + i] == if unswap then native[i] else native[Mate(sh, i)]
  }

  /** The bytes from `p` on hold a native structure of shape `sh` that is to be swapped or unswapped. */
  ghost predicate Holds(s: seq<Byte>, p: nat, native: seq<Byte>, sh: Shape, unswap: bool) {
    && Size(sh) == |native| && p + |native| <= |s|
    && forall i {:trigger HeldByte(s, p, native, sh, unswap, i)} | 0 <= i < |native| ::
         HeldByte(s, p, native, sh, unswap, i)
  }

  lemma FirstPart(s: seq<Byte>, p: nat, native: seq<Byte>, a: Shape, b: Shape, unswap: bool, n: nat)
    requires Holds(s, p, native, Then(a, b), unswap) && n == Size(a)
    ensures n <= |native| && Holds(s, p, native[..n], a, unswap)
  {
    var first := native[..n];
    forall i | 0 <= i < n ensures HeldByte(s, p, first, a, unswap, i) {
      assert HeldByte(s, p, native, Then(a, b), unswap, i);
    }
  }

  lemma SecondByte(
      s: seq<Byte>, p: nat, native: seq<Byte>, a: Shape, b: Shape, unswap: bool, q: nat, rest: seq<Byte>, i: nat)
    requires Holds(s, p, native, Then(a, b), unswap) && Size(a) <= |native|
    requires q == p + Size(a) && rest == native[Size(a)..] && i < |rest|
    ensures i < Size(b) == |rest| && HeldByte(s, q, rest, b, unswap, i)
  {
    var n := Size(a);
    var j := n + i;
    assert Mate(Then(a, b), j) == n + Mate(b, i);
    assert HeldByte(s, p, native, Then(a, b), unswap, j);
    assert s[q + i] == s[p + j];
    assert rest[i] == native[j] && rest[Mate(b, i)] == native[n + Mate(b, i)];
  }

  lemma SecondPart(s: seq<Byte>, p: nat, native: seq<Byte>, a: Shape, b: Shape, unswap: bool, n: nat)
    requires Holds(s, p, native, Then(a, b), unswap) && n == Size(a)
    ensures n <= |native| && Holds(s, p + n, native[n..], b, unswap)
  {
    var q, rest := p + n, native[n..];
    forall i | 0 <= i < |rest| ensures i < Size(b) == |rest| && HeldByte(s, q, rest, b, unswap, i) {
      SecondByte(s, p, native, a, b, unswap, q, rest, i);
    }
  }

  /** A structure whose first part has `n` bytes holds its two parts. */
  lemma HoldsParts(s: seq<Byte>, p: nat, native: seq<Byte>, a: Shape, b: Shape, unswap: bool, n: nat)
    requires Holds(s, p, native, Then(a, b), unswap) && n == Size(a)
    ensures n <= |native|
    ensures Holds(s, p, native[..n], a, unswap)
    ensures Holds(s, p + n, native[n..], b, unswap)
  {
    FirstPart(s, p, native, a, b, unswap, n);
    SecondPart(s, p, native, a, b, unswap, n);
  }

  /** Flipping elsewhere does not disturb what a place holds. */
  lemma HoldsKept(s: seq<Byte>, q: nat, done: Shape, p: nat, native: seq<Byte>, sh: Shape, unswap: bool)
    requires Holds(s, p, native, sh, unswap) && q + Size(done) <= |s|
    requires q + Size(done) <= p || p + |native| <= q
    ensures Holds(FlipAt(s, q, done), p, native, sh, unswap)
  {
    var f := FlipAt(s, q, done);
    forall i | 0 <= i < |native| ensures HeldByte(f, p, native, sh, unswap, i) {
      assert HeldByte(s, p, native, sh, unswap, i);
      FlipAtByte(s, q, done, p + i);
    }
  }

  /** A structure in the middle of a native buffer, and the same structure once it was flipped there. */
  lemma HeldInPlace(n: seq<Byte>, p: nat, sh: Shape)
    requires p + Size(sh) <= |n|
    ensures Holds(n, p, n[p..p + Size(sh)], sh, true)
    ensures Holds(FlipAt(n, p, sh), p, n[p..p + Size(sh)], sh, false)
  {
    var native, f := n[p..p + Size(sh)], FlipAt(n, p, sh);
    forall i | 0 <= i < Size(sh) ensures HeldByte(n, p, native, sh, true, i) && HeldByte(f, p, native, sh, false, i) {
      FlipAtByte(n, p, sh, p + i);
    }
  }
}
