/**
 Shifting right with a sticky last bit, the way SoftFloat keeps a long significand in a short word.

 `Sticky(x, d)` is `x / d` with its last bit set when the division lost anything. The lemmas say that the sticky
 form commutes with everything the fused multiply-add does to it before the final rounding, so that rounding the
 sticky form truncates the exact value and knows whether it was exact.
 */
module StickyShift {
  import opened Arith
  import opened Bits

  function Sticky(x: nat, d: nat): nat
    requires d >= 1
  {
    Or(x / d, if x % d != 0 then 1 else 0)
  }

  lemma OrOne(q: nat)
    ensures Or(q, 1) == if q % 2 == 0 then q + 1 else q
    ensures Or(q, 0) == q
  {
    if q != 0 { assert Or(q / 2, 0) == q / 2; }
  }

  lemma DivideProduct(x: nat, d: nat, v: nat)
    requires d >= 1 && v >= 1
    ensures d * v >= 1 && x / (d * v) == x / d / v && x % (d * v) == x / d % v * d + x % d
  {
    var q, r := x / d, x % d;
    var h, l := q / v, q % v;
    AtLeastOnce(d, v);
    Regroup(x, d, v, q, r, h, l);
    RemainderUnique(x, d * v, h, l * d + r);
  }

  lemma Regroup(x: nat, d: nat, v: nat, q: nat, r: nat, h: nat, l: nat)
    requires x == q * d + r && r < d && q == h * v + l && l < v
    ensures x == h * (d * v) + (l * d + r) && l * d + r < d * v
  {
    assert (h * v + l) * d == h * (d * v) + l * d;
    AtLeastOnce(v - l, d);
    assert (v - l) * d == d * v - l * d;
  }

  /** A further division by `2 * w` sees the exact quotient in the sticky form, and whether anything was ever lost. */
  lemma StickyQuotient(x: nat, d: nat, w: nat)
    requires d >= 1 && w >= 1
    ensures d * (2 * w) >= 1 && Sticky(x, d) / (2 * w) == x / (d * (2 * w))
    ensures Sticky(x, d) % (2 * w) == 0 <==> x % (d * (2 * w)) == 0
  {
    DivideProduct(x, d, 2 * w);
    var q, r := x / d, x % d;
    OrOne(q);
    if r != 0 {
      OddQuotient(q, Or(q, 1), w);
      assert q % (2 * w) * d >= 0;
    } else if q % (2 * w) != 0 {
      AtLeastOnce(q % (2 * w), d);
    }
  }

  lemma OddQuotient(q: nat, p: nat, w: nat)
    requires w >= 1 && p == if q % 2 == 0 then q + 1 else q
    ensures p / (2 * w) == q / (2 * w) && p % (2 * w) != 0
  {
    DivideTwice(q, w);
    DivideTwice(p, w);
    HalveRemainder(p, w);
  }

  lemma StickyTwice(x: nat, d: nat, w: nat)
    requires d >= 1 && w >= 1
    ensures d * (2 * w) >= 1 && Sticky(Sticky(x, d), 2 * w) == Sticky(x, d * (2 * w))
  {
    StickyQuotient(x, d, w);
  }

  lemma DivideShifted(a: nat, x: nat, d: nat)
    requires d >= 1
    ensures (a * d + x) / d == a + x / d && (a * d + x) % d == x % d
  {
    assert a * d + x == (a + x / d) * d + x % d by { assert x == x / d * d + x % d; }
    RemainderUnique(a * d + x, d, a + x / d, x % d);
  }

  /** Adding an even number to the sticky form. */
  lemma StickySum(a: nat, x: nat, d: nat)
    requires d >= 1 && a % 2 == 0
    ensures Sticky(a * d + x, d) == a + Sticky(x, d)
  {
    DivideShifted(a, x, d);
    OrOne(x / d);
    OrOne(a + x / d);
  }

  /** Subtracting the sticky form from an even number. */
  lemma StickyDifference(a: nat, x: nat, d: nat)
    requires d >= 1 && a % 2 == 0 && x <= a * d
    ensures Sticky(x, d) <= a && Sticky(a * d - x, d) == a - Sticky(x, d)
  {
    DivideDifference(a, x, d);
    OrOne(x / d);
    OrOne((a * d - x) / d);
  }

  lemma DivideDifference(a: nat, x: nat, d: nat)
    requires d >= 1 && x <= a * d
    ensures x / d <= a && (x % d > 0 ==> x / d < a)
    ensures (a * d - x) / d == if x % d == 0 then a - x / d else a - x / d - 1
    ensures (a * d - x) % d == if x % d == 0 then 0 else d - x % d
  {
    var q, r := x / d, x % d;
    assert x == q * d + r;
    QuotientAtMost(a, d, q, r);
    Complement(a, d, q, r);
    if r == 0 {
      RemainderUnique(a * d - x, d, a - q, 0);
    } else {
      RemainderUnique(a * d - x, d, a - q - 1, d - r);
    }
  }

  lemma Complement(a: nat, d: nat, q: nat, r: nat)
    ensures a * d - (q * d + r) == (a - q) * d - r == (a - q - 1) * d + (d - r)
  {
    Distribute(a, q, d);
    Distribute(a - q, 1, d);
  }

  lemma QuotientAtMost(a: nat, d: nat, q: nat, r: nat)
    requires q * d + r <= a * d && r < d
    ensures q <= a && (r > 0 ==> q < a)
  {
    Distribute(q, a, d);
    if q > a {
      AtLeastOnce(q - a, d);
    }
  }

  lemma StickyBound(x: nat, d: nat, b: nat)
    requires d >= 1 && x < b * d && b % 2 == 0
    ensures Sticky(x, d) < b
  {
    OrOne(x / d);
    QuotientAtMost(b, d, x / d, x % d);
    assert x == x / d * d + x % d;
  }

  lemma StickyExact(x: nat, d: nat)
    requires d >= 1 && x % d == 0
    ensures Sticky(x, d) * d == x
  {
    OrOne(x / d);
  }

  lemma StickyPositive(x: nat, d: nat)
    requires d >= 1 && x > 0
    ensures Sticky(x, d) > 0
  {
    OrOne(x / d);
  }
}
