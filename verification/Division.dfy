/** The few facts of multiplication and division the limiters and rates need. */
module Division {
  lemma MulAtMost(a: int, b: int, d: nat)
    requires a <= b
    ensures a * d <= b * d
  {
    assert b * d - a * d == (b - a) * d;
  }

  lemma MulAtLeast(q: nat, d: int)
    requires d > 0
    ensures q <= q * d
  {
    MulAtMost(1, d, q);
  }

  /** Different multiples of `d` are at least `d` apart. */
  lemma MulApart(a: int, b: int, d: nat)
    ensures a < b ==> a * d + d <= b * d
  {
    if a < b {
      MulAtMost(a + 1, b, d);
      assert (a + 1) * d == a * d + d;
    }
  }

  lemma Quotient(x: nat, d: int)
    requires d > 0
    ensures 0 <= x / d <= x
    ensures (x / d) * d <= x < (x / d) * d + d
  {
    assert x == (x / d) * d + x % d;
    MulAtLeast(x / d, d);
  }

  lemma QuotientIs(x: nat, d: int, k: int)
    requires d > 0 && k * d <= x < k * d + d
    ensures x / d == k
  {
    Quotient(x, d);
    MulApart(x / d, k, d);
    MulApart(k, x / d, d);
  }

  lemma RemainderShift(x: nat, r: nat, d: int)
    requires 0 <= r < d && x % d == 0
    ensures (x + r) % d == r
  {
    var k := x / d;
    assert x == k * d;
    QuotientIs(x + r, d, k);
    assert x + r == ((x + r) / d) * d + (x + r) % d;
  }

  function FloorDiv(x: nat, d: int): (q: nat)
    requires d > 0
    ensures q <= x
  {
    Quotient(x, d);
    x / d
  }

  lemma FloorDivFacts(x: nat, d: int)
    requires d > 0
    ensures FloorDiv(x, d) * d <= x < FloorDiv(x, d) * d + d
    ensures FloorDiv(x, d) * d == x <==> x % d == 0
  {
    Quotient(x, d);
    assert x == (x / d) * d + x % d;
  }

  /** The least number of pieces of size `d` that cover `x`. */
  function CeilDiv(x: nat, d: int): nat
    requires d > 0
  {
    (x + d - 1) / d
  }

  lemma CeilStep(x: nat, d: int)
    requires x > d > 0
    ensures CeilDiv(x, d) == 1 + CeilDiv(x - d, d)
  {
    Quotient(x - 1, d);
    var p := (x - 1) / d;
    assert (p + 1) * d == p * d + d;
    QuotientIs(x + d - 1, d, p + 1);
  }

  lemma CeilMonotone(x: nat, y: nat, d: int)
    requires d > 0 && x <= y
    ensures CeilDiv(x, d) <= CeilDiv(y, d)
  {
    Quotient(x + d - 1, d);
    Quotient(y + d - 1, d);
    var p, q := (x + d - 1) / d, (y + d - 1) / d;
    MulApart(q, p, d);
  }

  lemma CeilSmall(x: nat, d: int)
    requires 0 <= x <= d && 0 < d
    ensures CeilDiv(x, d) == if x == 0 then 0 else 1
  {
    QuotientIs(x + d - 1, d, if x == 0 then 0 else 1);
  }
}
