/**
 The AMX-INT8 matrix products: each 32-bit element of the destination tile gains the products of the four bytes of a
 row element and of a column element, in every mixture of signed and unsigned bytes.
 */
module TileDot {
  import opened Arith

  const SIDE: nat := 16
  const WORD32: nat := 0x1_0000_0000

  type Dword = x: int | 0 <= x < 0x1_0000_0000

  /** Whose bytes are signed. */
  datatype Signs = Signs(left: bool, right: bool)

  function Lane(x: Dword, n: nat): (b: nat)
    requires n < 4
    ensures b < 0x100
  {
    x / [1, 0x100, 0x1_0000, 0x100_0000][n] % 0x100
  }

  /** The lanes are the bytes of the word, lowest first. */
  lemma LanesAre(x: Dword)
    ensures x == Lane(x, 0) + 0x100 * Lane(x, 1) + 0x1_0000 * Lane(x, 2) + 0x100_0000 * Lane(x, 3)
  {
    assert x / 0x1_0000 == x / 0x100 / 0x100 && x / 0x100_0000 == x / 0x1_0000 / 0x100;
    assert x / 0x100_0000 < 0x100;
  }

  /** A byte under the type of its array. */
  function Typed(b: nat, signed: bool): (r: int)
    ensures b < 0x100 ==> if signed then -0x80 <= r < 0x80 && (r - b) % 0x100 == 0 else r == b
  {
    if signed && b >= 0x80 then b - 0x100 else b
  }

  /** The conversion to a signed 32-bit number. */
  function ToSigned(x: Dword): (r: int)
    ensures -0x8000_0000 <= r < 0x8000_0000 && (r - x) % WORD32 == 0
  {
    if x >= 0x8000_0000 then x - WORD32 else x
  }

  /** One product as the helpers compute it. Two signed factors multiply as such; otherwise both are converted to
      unsigned words first, and a product with one signed factor is converted back. */
  function Product(b: nat, c: nat, s: Signs): int {
    var x, y := Typed(b, s.left), Typed(c, s.right);
    if s.left && s.right then x * y
    else
      var p := (x % WORD32) * (y % WORD32) % WORD32;
      if s.left || s.right then ToSigned(p) else p
  }

  /** The sum of the four products, converted to an unsigned word. */
  function Dot(x: Dword, y: Dword, s: Signs): Dword {
    (Product(Lane(x, 0), Lane(y, 0), s) + Product(Lane(x, 1), Lane(y, 1), s)
     + Product(Lane(x, 2), Lane(y, 2), s) + Product(Lane(x, 3), Lane(y, 3), s)) % WORD32
  }

  // ------------------------------------------------------------------------- what it means

  function Term(x: Dword, y: Dword, n: nat, s: Signs): int
    requires n < 4
  {
    Typed(Lane(x, n), s.left) * Typed(Lane(y, n), s.right)
  }

  /** The dot product in whole numbers. */
  function ExactDot(x: Dword, y: Dword, s: Signs): int {
    Term(x, y, 0, s) + Term(x, y, 1, s) + Term(x, y, 2, s) + Term(x, y, 3, s)
  }

  /** The detour over unsigned words gives the exact product, and no product is wider than 17 bits. */
  lemma ProductExact(b: nat, c: nat, s: Signs)
    requires b < 0x100 && c < 0x100
    ensures Product(b, c, s) == Typed(b, s.left) * Typed(c, s.right)
    ensures -0x8000 <= Product(b, c, s) < 0x1_0000
    ensures s.left || s.right ==> Product(b, c, s) < 0x8000
  {
    var x, y := Typed(b, s.left), Typed(c, s.right);
    Bounded(x, y);
    if !(s.left && s.right) {
      if x < 0 { Converted(x, y); } else if y < 0 { Converted(y, x); } else { Unchanged(x, y); }
    }
  }

  lemma Unchanged(x: nat, y: nat)
    requires x < 0x100 && y < 0x100
    ensures (x % WORD32) * (y % WORD32) % WORD32 == x * y
  {
    Bounded(x, y);
    assert x % WORD32 == x && y % WORD32 == y;
    var p := x * y;
    assert p % WORD32 == p;
  }

  lemma Bounded(x: int, y: int)
    requires -0x80 <= x < 0x100 && -0x80 <= y < 0x100
    ensures (x < 0) != (y < 0) ==> -0x8000 <= x * y <= 0
    ensures (x < 0) == (y < 0) ==> 0 <= x * y < 0x1_0000
    ensures x < 0x80 || y < 0x80 ==> x * y < 0x8000
  {
    if x >= 0 && y >= 0 {
      TimesMonotone(x, y, 0xFF);
      if x < 0x80 { TimesMonotone(y, x, 0x7F); }
      if y < 0x80 { TimesMonotone(x, y, 0x7F); }
    } else if x < 0 && y < 0 {
      TimesMonotone(-x, -y, 0x80);
      assert x * y == -x * -y;
    } else if x < 0 {
      TimesMonotone(-x, y, 0xFF);
      assert x * y == -(-x * y);
    } else {
      TimesMonotone(-y, x, 0xFF);
      assert x * y == -(x * -y);
    }
  }

  /** A negative factor times a natural one, in unsigned words. */
  lemma Converted(x: int, y: int)
    requires -0x80 <= x < 0 <= y < 0x100
    ensures ToSigned((x % WORD32) * (y % WORD32) % WORD32) == x * y
    ensures (y % WORD32) * (x % WORD32) == (x % WORD32) * (y % WORD32) && y * x == x * y
  {
    Bounded(x, y);
    assert x % WORD32 == x + WORD32 && y % WORD32 == y;
    assert (x + WORD32) * y == x * y + WORD32 * y;
    CutProduct(x * y, y);
  }

  lemma CutProduct(p: int, y: nat)
    requires -0x8000 <= p <= 0
    ensures ToSigned((p + WORD32 * y) % WORD32) == p
  {
  }

  /** No partial sum leaves the 32 bits it is computed in, and the word that comes out is the exact dot product. */
  lemma DotExact(x: Dword, y: Dword, s: Signs)
    ensures var p: seq<int> := seq(4, n requires 0 <= n < 4 => Product(Lane(x, n), Lane(y, n), s));
            && -0x8000_0000 <= p[0] + p[1] < 0x8000_0000 && -0x8000_0000 <= p[0] + p[1] + p[2] < 0x8000_0000
            && -0x8000_0000 <= p[0] + p[1] + p[2] + p[3] < 0x8000_0000
    ensures ToSigned(Dot(x, y, s)) == ExactDot(x, y, s)
    ensures Dot(x, y, s) == ExactDot(x, y, s) % WORD32
  {
    hide Product, Typed, Lane;
    ProductExact(Lane(x, 0), Lane(y, 0), s);
    ProductExact(Lane(x, 1), Lane(y, 1), s);
    ProductExact(Lane(x, 2), Lane(y, 2), s);
    ProductExact(Lane(x, 3), Lane(y, 3), s);
  }

  // ------------------------------------------------------------------------- the instructions

  predicate IsTile(t: array2<Dword>) { t.Length0 == SIDE && t.Length1 == SIDE }

  /** Row `i` of the first tile times column `j` of the second, over the first `k` elements, in whole numbers. */
  function Sum(a: array2<Dword>, b: array2<Dword>, i: nat, j: nat, k: nat, s: Signs): int
    requires IsTile(a) && IsTile(b) && i < SIDE && j < SIDE && k <= SIDE
    reads a, b
  {
    if k == 0 then 0 else Sum(a, b, i, j, k - 1, s) + ExactDot(a[i, k - 1], b[k - 1, j], s)
  }

  function Gained(x: Dword, sum: int): Dword { (x + sum) % WORD32 }

  lemma GainMore(x: Dword, sum: int, y: Dword, z: Dword, s: Signs)
    ensures (Gained(x, sum) + Dot(y, z, s)) % WORD32 == Gained(x, sum + ExactDot(y, z, s))
  {
    DotExact(y, z, s);
    hide Dot, ExactDot;
    CutTwice(x + sum, ExactDot(y, z, s));
  }

  lemma CutTwice(u: int, v: int)
    ensures (u % WORD32 + v % WORD32) % WORD32 == (u + v) % WORD32
  {
  }

  /** The destination tile after `m` rows of `n` elements: what was there plus the matrix product over `k`, cut once,
      and zeros outside. The order of the loops and the cut at every step do not show. The tiles differ, and have sizes
      that fit each other, or the instruction is refused. */
  method Accumulate(dst: array2<Dword>, a: array2<Dword>, b: array2<Dword>, m: nat, n: nat, k: nat, s: Signs)
    requires IsTile(dst) && IsTile(a) && IsTile(b) && dst != a && dst != b && m <= SIDE && n <= SIDE && k <= SIDE
    modifies dst
    ensures forall i, j :: 0 <= i < SIDE && 0 <= j < SIDE ==>
              dst[i, j] == if i < m && j < n then Gained(old(dst[i, j]), Sum(a, b, i, j, k, s)) else 0
  {
    for i := 0 to m
      invariant forall i', j :: 0 <= i' < i && 0 <= j < SIDE ==>
                  dst[i', j] == if j < n then Gained(old(dst[i', j]), Sum(a, b, i', j, k, s)) else 0
      invariant forall i', j :: i <= i' < SIDE && 0 <= j < SIDE ==> dst[i', j] == old(dst[i', j])
    {
      AccumulateRow(dst, a, b, i, n, k, s);
    }
    for i := m to SIDE
      invariant forall i', j :: 0 <= i' < m && 0 <= j < SIDE ==>
                  dst[i', j] == if j < n then Gained(old(dst[i', j]), Sum(a, b, i', j, k, s)) else 0
      invariant forall i', j :: m <= i' < i && 0 <= j < SIDE ==> dst[i', j] == 0
    {
      forall j | 0 <= j < SIDE { dst[i, j] := 0; }
    }
  }

  /** One row. */
  method AccumulateRow(dst: array2<Dword>, a: array2<Dword>, b: array2<Dword>, i: nat, n: nat, k: nat, s: Signs)
    requires IsTile(dst) && IsTile(a) && IsTile(b) && dst != a && dst != b && i < SIDE && n <= SIDE && k <= SIDE
    modifies dst
    ensures forall i', j :: 0 <= i' < SIDE && 0 <= j < SIDE ==>
              dst[i', j] == if i' != i then old(dst[i', j])
                            else if j < n then Gained(old(dst[i, j]), Sum(a, b, i, j, k, s)) else 0
  {
    hide Dot, ExactDot, Gained;
    forall j | 0 <= j < n ensures Gained(dst[i, j], Sum(a, b, i, j, 0, s)) == dst[i, j] { GainNothing(dst[i, j]); }
    for kk := 0 to k
      invariant forall i', j :: 0 <= i' < SIDE && 0 <= j < SIDE ==>
                  dst[i', j] == if i' == i && j < n then Gained(old(dst[i, j]), Sum(a, b, i, j, kk, s))
                                else old(dst[i', j])
    {
      for j := 0 to n
        invariant forall i', j' :: 0 <= i' < SIDE && 0 <= j' < SIDE ==>
                    dst[i', j'] == if i' == i && j' < n
                                   then Gained(old(dst[i, j']), Sum(a, b, i, j', if j' < j then kk + 1 else kk, s))
                                   else old(dst[i', j'])
      {
        GainMore(old(dst[i, j]), Sum(a, b, i, j, kk, s), a[i, kk], b[kk, j], s);
        dst[i, j] := (dst[i, j] + Dot(a[i, kk], b[kk, j], s)) % WORD32;
      }
    }
    for j := n to SIDE
      invariant forall i', j' :: 0 <= i' < SIDE && 0 <= j' < SIDE ==>
                  dst[i', j'] == if i' == i && j' < n then Gained(old(dst[i, j']), Sum(a, b, i, j', k, s))
                                 else if i' == i && j' < j then 0 else old(dst[i', j'])
    {
      dst[i, j] := 0;
    }
  }

  lemma GainNothing(x: Dword)
    ensures Gained(x, 0) == x
  {
  }
}
