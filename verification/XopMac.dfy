/**
 VPMACSWD and VPMACSSWD: the even 16-bit elements of two registers are multiplied, and a 32-bit element of a third is
 added, with wrap-around or with saturation. The result replaces the first operand while that is still being read.
 */
module XopMac {
  import opened Arith

  const WORD16: nat := 0x1_0000
  const WORD32: nat := 0x1_0000_0000
  const MAX32: int := 0x7FFF_FFFF
  const MIN32: int := -0x8000_0000

  type Word16 = x: int | 0 <= x < 0x1_0000
  type Word32 = x: int | 0 <= x < 0x1_0000_0000

  function Signed16(x: Word16): int { if x >= 0x8000 then x - WORD16 else x }

  function Signed32(x: Word32): int { if x >= 0x8000_0000 then x - WORD32 else x }

  /** The sum in whole numbers. */
  function ExactSum(x: Word16, y: Word16, z: Word32): int { Signed16(x) * Signed16(y) + Signed32(z) }

  /** `SaturateQwordSToDwordS`, as a word. */
  function Saturated(v: int): Word32 {
    if v < MIN32 then MIN32 % WORD32 else if v > MAX32 then MAX32 else v % WORD32
  }

  function Wrapped(v: int): Word32 { v % WORD32 }

  /** Saturation gives the 32-bit number nearest to the sum. */
  lemma SaturatedIsNearest(v: int, w: int)
    requires MIN32 <= w <= MAX32
    ensures MIN32 <= Signed32(Saturated(v)) <= MAX32
    ensures var d, e := v - Signed32(Saturated(v)), v - w; w != Signed32(Saturated(v)) ==> d * d < e * e
  {
    var d, e := v - Signed32(Saturated(v)), v - w;
    if v < MIN32 {
      assert Signed32(Saturated(v)) == MIN32;
      if w != MIN32 { Squares(-d, -e); }
    } else if v > MAX32 {
      assert Signed32(Saturated(v)) == MAX32;
      if w != MAX32 { Squares(d, e); }
    } else {
      assert Signed32(Saturated(v)) == v;
      if w != v { assert e * e > 0; }
    }
  }

  lemma Squares(d: int, e: int)
    requires 0 <= d < e
    ensures d * d < e * e
  {
  }

  /** The product fits 32 bits and the sum 33, and the two instructions agree exactly if the sum fits 32. */
  lemma AgreeExactlyInRange(x: Word16, y: Word16, z: Word32)
    ensures -0x4000_0000 <= Signed16(x) * Signed16(y) <= 0x4000_0000
    ensures Wrapped(ExactSum(x, y, z)) == Saturated(ExactSum(x, y, z)) <==> MIN32 <= ExactSum(x, y, z) <= MAX32
    ensures MIN32 <= ExactSum(x, y, z) <= MAX32 ==> Signed32(Wrapped(ExactSum(x, y, z))) == ExactSum(x, y, z)
  {
    ProductBound(Signed16(x), Signed16(y));
  }

  lemma ProductBound(a: int, b: int)
    requires -0x8000 <= a < 0x8000 && -0x8000 <= b < 0x8000
    ensures -0x4000_0000 <= a * b <= 0x4000_0000
  {
    var p, q := if a < 0 then -a else a, if b < 0 then -b else b;
    TimesMonotone(p, q, 0x8000);
    assert a * b == p * q || a * b == -(p * q);
    assert p * q >= 0;
  }

  function DwordAt(words: seq<Word16>, n: nat): Word32
    requires 2 * n + 1 < |words|
  {
    words[2 * n] + WORD16 * words[2 * n + 1]
  }

  function Result(x: Word16, y: Word16, z: Word32, saturate: bool): Word32 {
    if saturate then Saturated(ExactSum(x, y, z)) else Wrapped(ExactSum(x, y, z))
  }

  /** VPMACSSWD keeps the sum within the signed 32-bit numbers, VPMACSWD lets it wrap. */
  predicate ResultMeans(x: Word16, y: Word16, z: Word32, saturate: bool) {
    var sum := Signed16(x) * Signed16(y) + Signed32(z);
    if saturate
    then Signed32(Result(x, y, z, saturate)) == if sum < MIN32 then MIN32 else if sum > MAX32 then MAX32 else sum
    else Result(x, y, z, saturate) == sum % WORD32
  }

  lemma MeansResult(x: Word16, y: Word16, z: Word32, saturate: bool)
    ensures ResultMeans(x, y, z, saturate)
  {
    var sum := ExactSum(x, y, z);
    assert MIN32 <= sum <= MAX32 ==> Signed32(sum % WORD32) == sum;
  }

  /** One element: words `2 * n` and `2 * n + 1` become the result. */
  method Element(op1: array<Word16>, op2: seq<Word16>, op3: seq<Word32>, n: nat, saturate: bool)
    requires op1.Length == |op2| == 8 && |op3| == 4 && n < 4
    modifies op1
    ensures DwordAt(op1[..], n) == Result(old(op1[2 * n]), op2[2 * n], op3[n], saturate)
    ensures forall k :: 0 <= k < 8 && k / 2 != n ==> op1[k] == old(op1[k])
  {
    var r := Result(op1[2 * n], op2[2 * n], op3[n], saturate);
    op1[2 * n], op1[2 * n + 1] := r % WORD16, r / WORD16;
  }

  /** All four elements are those of the operands as they were: overwriting the register in place disturbs none. */
  method MultiplyAdd(op1: array<Word16>, op2: seq<Word16>, op3: seq<Word32>, saturate: bool)
    requires op1.Length == |op2| == 8 && |op3| == 4
    modifies op1
    ensures forall n: nat :: n < 4 ==>
              DwordAt(op1[..], n) == Result(old(op1[2 * n]), op2[2 * n], op3[n], saturate)
    ensures forall n: nat :: n < 4 ==>
              var sum := Signed16(old(op1[2 * n])) * Signed16(op2[2 * n]) + Signed32(op3[n]);
              if saturate then
                Signed32(DwordAt(op1[..], n)) == if sum < MIN32 then MIN32 else if sum > MAX32 then MAX32 else sum
              else DwordAt(op1[..], n) == sum % WORD32
  {
    forall n: nat | n < 4 ensures ResultMeans(op1[2 * n], op2[2 * n], op3[n], saturate) {
      MeansResult(op1[2 * n], op2[2 * n], op3[n], saturate);
    }
    hide Result;
    Element(op1, op2, op3, 0, saturate);
    Element(op1, op2, op3, 1, saturate);
    Element(op1, op2, op3, 2, saturate);
    Element(op1, op2, op3, 3, saturate);
  }
}
