/** The few facts about division that the block and band arithmetic needs. */
module Arith {
  lemma MulMonotone(a: int, b: int, n: nat)
    requires a <= b
    ensures a * n <= b * n
  {
  }

  /** Quotient and remainder are the only pair with these bounds. */
  lemma DivModUnique(x: int, n: nat, q: int, r: int)
    requires 0 <= r < n && x == q * n + r
    ensures x / n == q && x % n == r
  {
    var d := x / n;
    assert x == d * n + x % n;
    if d < q {
      MulMonotone(d + 1, q, n);
    } else if q < d {
      MulMonotone(q + 1, d, n);
    }
  }

  lemma DivMod(x: int, n: nat)
    requires 0 < n
    ensures x == (x / n) * n + x % n
    ensures 0 <= x % n < n
  {
  }

  function Times(k: int, d: nat): int {
    k * d
  }

  ghost predicate Divides(d: nat, x: int) {
    0 < d && exists k :: x == Times(k, d)
  }

  lemma DividesIsMod(d: nat, x: int)
    requires 0 < d
    ensures Divides(d, x) <==> x % d == 0
  {
    DivMod(x, d);
    if x % d == 0 {
      assert x == Times(x / d, d);
    }
    if k :| x == Times(k, d) {
      DivModUnique(x, d, k, 0);
    }
  }

  lemma MultipleDivides(k: int, d: nat)
    requires 0 < d
    ensures Divides(d, k * d)
  {
    assert k * d == Times(k, d);
  }

  lemma ZeroMultiple(d: nat)
    requires 0 < d
    ensures Divides(d, 0)
  {
    assert 0 == Times(0, d);
  }

  lemma DividesTransitive(a: nat, b: nat, x: int)
    requires Divides(a, b) && Divides(b, x)
    ensures Divides(a, x)
  {
    var k :| b == Times(k, a);
    var m :| x == Times(m, b);
    assert x == Times(m * k, a) by {
      MulAssociates(m, k, a);
    }
  }

  lemma MulAssociates(a: int, b: int, c: int)
    ensures a * (b * c) == (a * b) * c
  {
  }

  lemma MulDistributes(a: int, b: int, c: int)
    ensures (a + b) * c == a * c + b * c
    ensures (a - b) * c == a * c - b * c
  {
  }

  lemma DividesSum(d: nat, x: int, y: int)
    requires Divides(d, x) && Divides(d, y)
    ensures Divides(d, x + y) && Divides(d, x - y)
  {
    var a :| x == Times(a, d);
    var b :| y == Times(b, d);
    MulDistributes(a, b, d);
    assert x + y == Times(a + b, d);
    assert x - y == Times(a - b, d);
  }

  /** A multiple of `d` strictly above a point is at least a whole step above its block. */
  lemma NextMultiple(d: nat, x: int, y: int)
    requires Divides(d, x) && y < x
    ensures (y / d) * d + d <= x
  {
    DivMod(y, d);
    var q := y / d;
    var k :| x == Times(k, d);
    if k <= q {
      MulMonotone(k, q, d);
    }
    MulMonotone(q + 1, k, d);
    MulDistributes(q, 1, d);
  }

  lemma DivisorAtMost(d: nat, x: int)
    requires Divides(d, x) && 0 < x
    ensures d <= x
  {
    var k :| x == Times(k, d);
    if k < 1 {
      MulMonotone(k, 0, d);
    }
    MulMonotone(1, k, d);
  }

  /** Between consecutive multiples there is no other. */
  lemma MultipleBelow(d: nat, x: int, k: int)
    requires Divides(d, x) && x < Times(k, d)
    ensures x <= Times(k - 1, d)
  {
    var m :| x == Times(m, d);
    if k <= m {
      MulMonotone(k, m, d);
    }
    MulMonotone(m, k - 1, d);
  }

  // Whole pieces of a size, without division.

  /** What is left of `x` once whole pieces of size `d` are taken away. */
  function Excess(x: nat, d: nat): (r: nat)
    requires 0 < d
    ensures r < d && r <= x
  {
    if x < d then x else Excess(x - d, d)
  }

  lemma {:induction false} ExcessDivides(x: nat, d: nat)
    requires 0 < d
    ensures Divides(d, x - Excess(x, d))
  {
    if x < d {
      ZeroMultiple(d);
    } else {
      ExcessDivides(x - d, d);
      assert d == Times(1, d);
      DividesSum(d, x - d - Excess(x - d, d), d);
    }
  }

  lemma ExcessIsMod(x: nat, d: nat)
    requires 0 < d
    ensures Excess(x, d) == x % d
  {
    ExcessDivides(x, d);
    var k :| x - Excess(x, d) == Times(k, d);
    DivModUnique(x, d, k, Excess(x, d));
  }

  lemma NoExcess(x: nat, d: nat)
    requires 0 < d
    ensures Divides(d, x) <==> Excess(x, d) == 0
  {
    ExcessIsMod(x, d);
    DividesIsMod(d, x);
  }

  function RoundUp(x: nat, d: nat): (r: nat)
    requires 0 < d
    ensures x <= r < x + d
  {
    if Excess(x, d) == 0 then x else x + (d - Excess(x, d))
  }

  lemma RoundUpMultiple(x: nat, d: nat)
    requires Divides(d, x)
    ensures RoundUp(x, d) == x
  {
    NoExcess(x, d);
  }

  lemma RoundUpBelow(x: nat, y: nat, d: nat)
    requires Divides(d, y) && x <= y
    ensures RoundUp(x, d) <= y
  {
    ExcessDivides(x, d);
    var down := x - Excess(x, d);
    DividesSum(d, y, down);
    if down < y {
      DivisorAtMost(d, y - down);
    }
  }

  lemma RoundUpDivides(x: nat, d: nat)
    requires 0 < d
    ensures Divides(d, RoundUp(x, d))
  {
    ExcessDivides(x, d);
    assert d == Times(1, d);
    DividesSum(d, x - Excess(x, d), d);
  }

  /** How many whole pieces of size `d` there are in `x`. */
  function Quotient(x: nat, d: nat): nat
    requires 0 < d
  {
    if x < d then 0 else Quotient(x - d, d) + 1
  }

  lemma {:induction false} QuotientAndExcess(x: nat, d: nat)
    requires 0 < d
    ensures x == Quotient(x, d) * d + Excess(x, d)
  {
    if x >= d {
      QuotientAndExcess(x - d, d);
      MulDistributes(Quotient(x - d, d), 1, d);
    }
  }

  lemma QuotientIsDiv(x: nat, d: nat)
    requires 0 < d
    ensures Quotient(x, d) == x / d && Excess(x, d) == x % d
    ensures x / d * d == x - Excess(x, d)
  {
    QuotientAndExcess(x, d);
    DivModUnique(x, d, Quotient(x, d), Excess(x, d));
  }

  /** Within a piece, only the excess changes. */
  lemma {:induction false} ExcessAdvance(x: nat, i: nat, d: nat)
    requires 0 < d && Excess(x, d) + i < d
    ensures Excess(x + i, d) == Excess(x, d) + i && Quotient(x + i, d) == Quotient(x, d)
  {
    if x >= d {
      ExcessAdvance(x - d, i, d);
      assert x + i - d == x - d + i;
    }
  }

  /** The `%` of the source. */
  method Remainder(x: nat, d: nat) returns (r: nat)
    requires 0 < d
    ensures r == Excess(x, d)
  {
    ExcessIsMod(x, d);
    r := x % d;
  }

  /** Rounding down as the source writes it. */
  method RoundedDown(x: nat, d: nat) returns (r: nat)
    requires 0 < d
    ensures r == x - Excess(x, d)
  {
    QuotientIsDiv(x, d);
    r := x / d * d;
  }

  lemma RoundUpUnique(x: nat, d: nat, r: nat)
    requires Divides(d, r) && x <= r < x + d
    ensures r == RoundUp(x, d)
  {
    var u := RoundUp(x, d);
    RoundUpDivides(x, d);
    DividesSum(d, r, u);
    DividesSum(d, u, r);
    if r < u {
      DivisorAtMost(d, u - r);
    } else if u < r {
      DivisorAtMost(d, r - u);
    }
  }

  /** And up. */
  method RoundedUp(x: nat, d: nat) returns (r: nat)
    requires 0 < d
    ensures r == RoundUp(x, d)
  {
    r := RoundedDown(x + d - 1, d);
    ExcessDivides(x + d - 1, d);
    RoundUpUnique(x, d, r);
  }

  // Powers of two.

  function Pow2(k: nat): (p: nat)
    ensures p > 0
  {
    if k == 0 then 1 else 2 * Pow2(k - 1)
  }

  ghost predicate PowerOfTwo(n: nat) {
    exists k :: n == Pow2(k)
  }

  lemma {:induction false} SmallerPowerDivides(j: nat, k: nat)
    requires j <= k
    ensures Divides(Pow2(j), Pow2(k))
  {
    if j == k {
      assert Pow2(k) == Times(1, Pow2(j));
    } else {
      SmallerPowerDivides(j, k - 1);
      assert Pow2(k) == Times(2, Pow2(k - 1));
      DividesTransitive(Pow2(j), Pow2(k - 1), Pow2(k));
    }
  }

  lemma PowersDivide(a: nat, b: nat)
    requires PowerOfTwo(a) && PowerOfTwo(b)
    ensures 0 < a && 0 < b && (Divides(a, b) || Divides(b, a))
  {
    var j: nat :| a == Pow2(j);
    var k: nat :| b == Pow2(k);
    if j <= k {
      SmallerPowerDivides(j, k);
    } else {
      SmallerPowerDivides(k, j);
    }
  }
}
