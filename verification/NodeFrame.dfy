/** The node descriptor and the table of record offsets, which say where everything else is. */
module NodeFrame {
  import opened Bytes
  import opened ByteOrder
  import opened NodeLayout
  import opened NodeSwap

  /** Descriptor and the table of `c + 1` offsets flipped. */
  ghost function FlipFrame(s: seq<Byte>, c: nat): (r: seq<Byte>)
    requires 14 + 2 * (c + 1) <= |s|
    ensures |r| == |s|
  {
    FlipAt(FlipAt(s, 0, Descriptor()), |s| - 2 * (c + 1), Words(c + 1))
  }

  /** The node with its records (or header record) flipped. */
  ghost function FlipBody(t: Tree, n: seq<Byte>): (r: seq<Byte>)
    requires NodeFits(t, n)
    ensures |r| == |n|
  {
    FlipAt(n, 14, BodyShape(t, n))
  }

  lemma BigIsFrameAndBody(t: Tree, n: seq<Byte>)
    requires NodeFits(t, n)
    ensures Big(t, n) == FlipFrame(FlipBody(t, n), Count(n))
  {
    var body := BodyShape(t, n);
    var padded := Padded(body, TableStart(n) - 14);
    FlipAtJoin(n, 0, Then(Descriptor(), padded), Words(Count(n) + 1));
    FlipAtThen(n, 0, Descriptor(), padded);
    FlipAtPadded(n, 14, body, TableStart(n) - 14);
  }

  lemma FrameTwice(s: seq<Byte>, c: nat)
    requires 14 + 2 * (c + 1) <= |s|
    ensures FlipFrame(FlipFrame(s, c), c) == s
  {
    var q := |s| - 2 * (c + 1);
    var one := FlipAt(s, 0, Descriptor());
    FlipAtCommute(FlipAt(one, q, Words(c + 1)), 0, Descriptor(), q, Words(c + 1));
    FlipAtTwice(one, q, Words(c + 1));
    FlipAtTwice(s, 0, Descriptor());
  }

  /** Links and record count, in either order. */
  lemma DescriptorSteps(s: seq<Byte>)
    requires 14 <= |s|
    ensures FlipAt(FlipAt(s, 0, Longs(2)), 10, Field(2)) == FlipAt(s, 0, Descriptor())
  {
    var one := FlipAt(s, 0, Longs(2));
    FlipAtJoin(s, 0, Longs(2), Then(Plain(2), Then(Field(2), Plain(2))));
    FlipAtJoin(one, 8, Plain(2), Then(Field(2), Plain(2)));
    FlipAtPlain(one, 8, 2);
    FlipAtJoin(one, 10, Field(2), Plain(2));
    FlipAtPlain(FlipAt(one, 10, Field(2)), 12, 2);
  }

  lemma WordOutside(s: seq<Byte>, p: nat, sh: Shape, q: nat)
    requires p + Size(sh) <= |s| && q + 2 <= |s|
    requires q + 2 <= p || p + Size(sh) <= q
    ensures U16(FlipAt(s, p, sh), q) == U16(s, q)
  {
    FlipAtByte(s, p, sh, q);
    FlipAtByte(s, p, sh, q + 1);
  }

  /** A word of the table is as in the fully flipped table as soon as it was passed. */
  lemma WordPassed(s: seq<Byte>, p: nat, i: nat, c: nat)
    requires i < c && p + 2 * c <= |s|
    ensures U16(FlipAt(s, p, Words(i + 1)), p + 2 * i) == U16(FlipAt(s, p, Words(c)), p + 2 * i)
  {
    WordMateAt(i + 1, i, 0);
    WordMateAt(i + 1, i, 1);
    WordMateAt(c, i, 0);
    WordMateAt(c, i, 1);
    FlipAtByte(s, p, Words(i + 1), p + 2 * i);
    FlipAtByte(s, p, Words(i + 1), p + 2 * i + 1);
    FlipAtByte(s, p, Words(c), p + 2 * i);
    FlipAtByte(s, p, Words(c), p + 2 * i + 1);
  }

  /** Every offset in the table lies inside the node. */
  ghost predicate TableInside(s: seq<Byte>, c: nat)
    requires 2 * c <= |s|
  {
    forall i | 0 <= i < c :: U16(s, |s| - 2 * c + 2 * i) < |s|
  }

  /** The offsets table; `unswap` checks each offset before it is turned, otherwise after. */
  method SwapTable(buf: array<Byte>, c: nat, unswap: bool, ghost native: seq<Byte>) returns (panic: bool)
    requires 2 * c <= buf.Length == |native| && TableInside(native, c)
    requires native == if unswap then buf[..] else FlipAt(buf[..], buf.Length - 2 * c, Words(c))
    modifies buf
    ensures !panic
    ensures buf[..] == FlipAt(old(buf[..]), buf.Length - 2 * c, Words(c))
  {
    ghost var s := buf[..];
    var p := buf.Length - 2 * c;
    panic := p > buf.Length;
    FlipAtIndex(s, p, Words(0));
    for i := 0 to c
      invariant !panic
      invariant buf[..] == FlipAt(s, p, Words(i))
    {
      NextWord(s, p, i);
      WordPassed(s, p, i, c);
      WordOutside(s, p, Words(i), p + 2 * i);
      if !unswap {
        SwapField(buf, p + 2 * i, 2);
      }
      if WordAt(buf, p + 2 * i) >= buf.Length {
        panic := true;
      }
      if unswap {
        SwapField(buf, p + 2 * i, 2);
      }
    }
  }

  lemma CountKept(m: seq<Byte>, c: nat)
    requires 14 + 2 * (c + 1) <= |m|
    ensures U16(FlipAt(FlipFrame(m, c), 0, Descriptor()), 10) == U16(m, 10)
    ensures FlipAt(FlipAt(FlipFrame(m, c), 0, Descriptor()), |m| - 2 * (c + 1), Words(c + 1)) == m
  {
    var q := |m| - 2 * (c + 1);
    var one := FlipAt(m, 0, Descriptor());
    FlipAtCommute(one, 0, Descriptor(), q, Words(c + 1));
    FlipAtTwice(m, 0, Descriptor());
    WordOutside(m, q, Words(c + 1), 10);
    FrameTwice(m, c);
  }

  /** Swapping starts with the descriptor, whose count then says where the table is. */
  method SwapFrame(buf: array<Byte>, ghost m: seq<Byte>) returns (panic: bool)
    requires TableFits(m) && TableInside(m, Count(m) + 1)
    requires buf[..] == FlipFrame(m, Count(m))
    modifies buf
    ensures !panic
    ensures buf[..] == m
  {
    DescriptorSteps(buf[..]);
    CountKept(m, Count(m));
    SwapLongs(buf, 0, 2);
    SwapField(buf, 10, 2);
    var count := WordAt(buf, 10);
    panic := SwapTable(buf, count + 1, false, m);
  }

  lemma UnswapSteps(s: seq<Byte>, c: nat)
    requires 14 + 2 * (c + 1) <= |s|
    ensures var q := |s| - 2 * (c + 1);
            && FlipAt(FlipAt(FlipAt(s, 0, Longs(2)), q, Words(c + 1)), 10, Field(2)) == FlipFrame(s, c)
            && U16(FlipAt(s, 0, Longs(2)), 10) == U16(s, 10)
  {
    var q := |s| - 2 * (c + 1);
    var one := FlipAt(s, 0, Longs(2));
    FlipAtCommute(one, 10, Field(2), q, Words(c + 1));
    DescriptorSteps(s);
    WordOutside(s, 0, Longs(2), 10);
  }

  lemma InsideKept(s: seq<Byte>, c: nat)
    requires 14 + 2 * c <= |s| && TableInside(s, c)
    ensures TableInside(FlipAt(s, 0, Longs(2)), c)
  {
    var one := FlipAt(s, 0, Longs(2));
    forall i | 0 <= i < c ensures U16(one, |s| - 2 * c + 2 * i) < |s| {
      WordOutside(s, 0, Longs(2), |s| - 2 * c + 2 * i);
    }
  }

  /** Unswapping leaves the count to the end. */
  method UnswapFrame(buf: array<Byte>) returns (panic: bool)
    requires TableFits(buf[..]) && TableInside(buf[..], Count(buf[..]) + 1)
    modifies buf
    ensures !panic
    ensures buf[..] == FlipFrame(old(buf[..]), Count(old(buf[..])))
  {
    UnswapSteps(buf[..], Count(buf[..]));
    InsideKept(buf[..], Count(buf[..]) + 1);
    SwapLongs(buf, 0, 2);
    var count := WordAt(buf, 10);
    panic := SwapTable(buf, count + 1, true, buf[..]);
    SwapField(buf, 10, 2);
  }
}
