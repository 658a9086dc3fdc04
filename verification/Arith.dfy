/**
 The few facts about products, quotients and remainders that the solver needs spelt out.
 */
module Arith {

  lemma Distribute(a: int, b: int, d: int)
    ensures (a - b) * d == a * d - b * d
  {
  }

  lemma Associate(a: int, b: int, c: int)
    ensures a * b * c == a * (b * c) == a * (c * b) == a * c * b
  {
  }

  lemma LessTimes(r: nat, d: nat, w: nat)
    requires r < d && w >= 1
    ensures r * w < d * w
  {
    AtLeastOnce(d - r, w);
    Distribute(d, r, w);
  }

  lemma TimesMonotone(a: nat, p: nat, q: nat)
    requires p <= q
    ensures a * p <= a * q
  {
    Distribute(q, p, a);
    assert (q - p) * a >= 0;
  }

  lemma Euclid(m: nat, d: nat)
    requires d >= 1
    ensures m == m / d * d + m % d
  {
  }

  lemma RemainderUnique(a: nat, m: nat, q: nat, r: nat)
    requires r < m && a == q * m + r
    ensures a % m == r && a / m == q
  {
    var d := a / m - q;
    assert a % m - r == -(d * m) by { assert (a / m) * m == q * m + d * m; }
    SmallMultipleIsZero(d, m, r - a % m);
  }

  lemma SmallMultipleIsZero(d: int, m: int, x: int)
    requires d * m == x && -m < x < m
    ensures d == 0
  {
    if d >= 1 {
      AtLeastOnce(d, m);
    } else if d <= -1 {
      AtLeastOnce(-d, m);
    }
  }

  lemma AtLeastOnce(d: int, m: int)
    requires d >= 1 && m >= 0
    ensures d * m >= m
  {
    assert (d - 1) * m >= 0;
  }

  lemma HalveRemainder(a: nat, p: nat)
    requires p >= 1
    ensures a % (2 * p) == 2 * ((a / 2) % p) + a % 2
  {
    var h := a / 2;
    var q, r := h / p, h % p;
    assert h == q * p + r;
    assert a == 2 * h + a % 2;
    assert a == q * (2 * p) + (2 * r + a % 2) by { assert 2 * (q * p) == q * (2 * p); }
    RemainderUnique(a, 2 * p, q, 2 * r + a % 2);
  }

  lemma DivideTwice(a: nat, p: nat)
    requires p >= 1
    ensures a / (2 * p) == (a / 2) / p
  {
    var h := a / 2;
    var q, r := h / p, h % p;
    assert a == q * (2 * p) + (2 * r + a % 2) by {
      assert h == q * p + r;
      assert 2 * (q * p) == q * (2 * p);
    }
    RemainderUnique(a, 2 * p, q, 2 * r + a % 2);
  }

  /** A field of `s` values at weight `w`, with other fields on both sides. */
  lemma Field(below: nat, f: nat, above: nat, w: nat, s: nat)
    requires w >= 1 && below < w && f < s
    ensures (below + f * w + above * (w * s)) / w % s == f
  {
    Associate(above, w, s);
    assert below + f * w + above * (w * s) == (f + above * s) * w + below;
    RemainderUnique(below + f * w + above * (w * s), w, f + above * s, below);
    RemainderUnique(f + above * s, s, above, f);
  }
}
