/**
 The bfloat16 fused multiply-add: SoftFloat's 32-bit operation rounding toward zero, the inexact flag ored into the
 last bit (round to odd), then the ordinary narrowing to eight bits with ties to even.

 The reference is IEEE 754-2019 sections 4.3.1 and 5.4.1, stated without any computation: the result is the
 representable value nearest to the exact `a * b + c`, and the even one of two equally near.
 */
module Bf16 {
  import opened Arith
  import opened Bits
  import opened F32MulAdd
  import StickyShift

  const SIGN32: nat := 0x8000_0000
  const SIGN16: nat := 0x8000
  const INFINITY: nat := 0x7F80

  function Unpack(bits: nat): Float {
    Float(bits / SIGN32 % 2 == 1, bits / HIDDEN % 256, bits % HIDDEN)
  }

  function PackFloat(f: Float): nat {
    (if f.sign then SIGN32 else 0) + f.exp * HIDDEN + f.frac
  }

  /** `convert_bfloat16_to_fp32` */
  function Widen(x: nat): nat { x * 0x1_0000 }

  /** `convert_ne_fp32_to_bfloat16`: zeros and denormals keep their sign only, infinities and NaNs their top half,
      and a normal number is rounded by adding just under half, or half when its last kept bit is odd. */
  function Narrow(op: nat): nat {
    var exp, frac := op / HIDDEN % 256, op % HIDDEN;
    if exp == 0 then And(op / 0x1_0000, SIGN16)
    else if exp == 0xFF then
      if frac == 0 then op / 0x1_0000 else Or(op / 0x1_0000, 0x40)
    else
      var roundingBias := 0x7FFF + op / 0x1_0000 % 2;
      (op + roundingBias) % 0x1_0000_0000 / 0x1_0000
  }

  /** The 32-bit result with the inexact flag ored into its last bit. */
  function RoundToOdd(r: Rounded): nat {
    var bits := PackFloat(r.value);
    if r.inexact then Or(bits, 1) else bits
  }

  /** `bf16_mulAdd`; `subProd` and `subC` are the two bits of its operation that negate the product and the addend. */
  function MulAddBf16(a: nat, b: nat, c: nat, subProd: bool, subC: bool): nat {
    Narrow(RoundToOdd(MulAdd(Unpack(Widen(a)), Unpack(Widen(b)), Unpack(Widen(c)), subProd, subC)))
  }

  // ------------------------------------------------------------------------- the reference

  predicate FiniteBf16(x: nat) { x < 0x1_0000 && x / 128 % 256 != 0xFF }

  /** The exact value of the operation, in the units of the 32-bit one. */
  function ExactBf16(a: nat, b: nat, c: nat, subProd: bool, subC: bool): int {
    Exact(Unpack(Widen(a)), Unpack(Widen(b)), Unpack(Widen(c)), subProd, subC)
  }

  /** The magnitudes of eight significant bits in ascending order. From 128 on, index `k` is the bit pattern of the
      magnitude; the 128 below it are one binade more than the format has; infinity stands for 2^128. */
  function Grid(k: nat): (g: nat) {
    (128 + k % 128) * Pow2(k / 128 + 454)
  }

  function Distance(n: nat, k: nat): nat {
    if n < Grid(k) then Grid(k) - n else n - Grid(k)
  }

  /** Index `k` is a nearest one to `n`, and even if there is another. */
  ghost predicate NearestEven(n: nat, k: nat) {
    && k <= INFINITY
    && forall j :: 0 <= j <= INFINITY ==>
         Distance(n, k) <= Distance(n, j) && (Distance(n, k) == Distance(n, j) && j != k ==> k % 2 == 0)
  }

  /** The operation's own contract for a nonzero exact value of magnitude `n`: rounded once to nearest even, zero
      below the smallest normal, and the sign of the exact value in either case. */
  ghost predicate RoundsOnce(negative: bool, n: nat, r: nat) {
    && r < 2 * SIGN16
    && (r / SIGN16 == 1 <==> negative)
    && if n < MinNormal() then r % SIGN16 == 0 else NearestEven(n, r % SIGN16)
  }

  // ------------------------------------------------------------------------- the grid

  lemma GridStep(k: nat)
    ensures Grid(k) < Grid(k + 1)
    ensures Grid(k + 1) == Grid(k) + Pow2(k / 128 + 454)
  {
    var e := k / 128 + 454;
    if k % 128 == 127 {
      assert (k + 1) / 128 == k / 128 + 1 && (k + 1) % 128 == 0;
      assert Pow2(e + 1) == 2 * Pow2(e);
    } else {
      assert (k + 1) / 128 == k / 128 && (k + 1) % 128 == k % 128 + 1;
    }
  }

  lemma {:induction false} GridAscends(i: nat, j: nat)
    requires i < j
    ensures Grid(i) < Grid(j)
  {
    hide Grid, Bits.Pow2;
    GridStep(j - 1);
    if i < j - 1 { GridAscends(i, j - 1); }
  }

  /** Between two neighbours of the grid, the midpoint decides, and on it the even index. */
  lemma MidpointDecides(n: nat, low: nat, k: nat)
    requires low < INFINITY && Grid(low) <= n < Grid(low + 1)
    requires var twice, mid := 2 * n, Grid(low) + Grid(low + 1);
             k == if twice < mid || (twice == mid && low % 2 == 0) then low else low + 1
    ensures NearestEven(n, k)
  {
    hide Grid;
    forall j | 0 <= j <= INFINITY
      ensures Distance(n, k) <= Distance(n, j) && (Distance(n, k) == Distance(n, j) && j != k ==> k % 2 == 0)
    {
      if j < low { GridAscends(j, low); }
      if j > low + 1 { GridAscends(low + 1, j); }
    }
  }

  /** The reference names one result only. */
  lemma NearestEvenUnique(n: nat, k: nat, k': nat)
    requires NearestEven(n, k) && NearestEven(n, k')
    ensures k == k'
  {
    hide Grid;
    if k != k' {
      var low, high := if k < k' then k else k', if k < k' then k' else k;
      assert Distance(n, low) <= Distance(n, high) && Distance(n, high) <= Distance(n, low);
      assert low % 2 == 0 && high % 2 == 0;
      assert Distance(n, low) <= Distance(n, low + 1);
      Inside(n, low, low + 1, high);
    }
  }

  lemma Inside(n: nat, low: nat, mid: nat, high: nat)
    requires low < mid < high && Distance(n, low) == Distance(n, high)
    ensures Distance(n, mid) < Distance(n, low)
  {
    hide Grid;
    GridAscends(low, mid);
    GridAscends(mid, high);
  }

  // ------------------------------------------------------------------------- narrowing

  /** The grid value with exponent `exp` and 8-bit significand `m`, against a last place of 24 bits. */
  lemma GridAt(exp: nat, m: nat)
    requires exp >= 1 && 128 <= m < 256
    ensures var p, low := Pow2(exp + 438), exp * 128 + m - 128;
            Grid(low) == m * 0x1_0000 * p && Grid(low + 1) == Grid(low) + 0x1_0000 * p
  {
    hide Bits.Pow2;
    var low := exp * 128 + m - 128;
    assert low / 128 == exp && low % 128 == m - 128;
    GridStep(low);
    WordSizes();
    Pow2Adds(16, exp + 438);
    Associate(m, 0x1_0000, Pow2(exp + 438));
  }

  /** The exact value against the midpoint, from the sixteen bits that narrowing drops: `t` of them, and whether
      anything lay below them. */
  lemma AgainstMidpoint(n: nat, p: nat, m: nat, t: nat, exact: bool)
    requires p >= 1 && t < 0x1_0000
    requires (m * 0x1_0000 + t) * p <= n < (m * 0x1_0000 + t) * p + p && (exact <==> n == (m * 0x1_0000 + t) * p)
    ensures var low, high := m * 0x1_0000 * p, m * 0x1_0000 * p + 0x1_0000 * p;
            && low <= n < high
            && (2 * n < low + high <==> t < 0x8000)
            && (2 * n == low + high <==> t == 0x8000 && exact)
  {
    var low := m * 0x1_0000 * p;
    assert (m * 0x1_0000 + t) * p == low + t * p;
    assert (0x8000 - t) * p == 0x8000 * p - t * p;
    if t < 0x8000 { AtLeastOnce(0x8000 - t, p); }
    if t > 0x8000 { AtLeastOnce(t - 0x8000, p); }
    AtLeastOnce(0x1_0000 - t, p);
    assert (0x1_0000 - t) * p == 0x1_0000 * p - t * p;
  }

  lemma Fields(top: nat, t: nat)
    requires top < 0x1_0000 && t < 0x1_0000
    ensures (top * 0x1_0000 + t) / 0x1_0000 == top
    ensures (top * 0x1_0000 + t) / HIDDEN % 256 == top / 128 % 256
  {
    assert (top * 0x1_0000 + t) / HIDDEN == (top * 0x1_0000 + t) / 0x1_0000 / 128;
  }

  lemma RoundedField(top: nat, t: nat)
    requires top < 0x1_0000 && t < 0x1_0000 && top / 128 % 256 <= 254
    ensures (top * 0x1_0000 + t + 0x7FFF + top % 2) % 0x1_0000_0000 / 0x1_0000
            == if t + top % 2 > 0x8000 then top + 1 else top
  {
    var s := t + 0x7FFF + top % 2;
    assert top < 0xFF80;
    assert top * 0x1_0000 + s < 0x1_0000_0000;
    assert s / 0x1_0000 == if t + top % 2 > 0x8000 then 1 else 0;
  }

  lemma NarrowNormal(top: nat, t: nat)
    requires top < 0x1_0000 && t < 0x1_0000 && 1 <= top / 128 % 256 <= 254
    ensures Narrow(top * 0x1_0000 + t) == if t + top % 2 > 0x8000 then top + 1 else top
  {
    Fields(top, t);
    RoundedField(top, t);
  }

  lemma StickyOr(top: nat, t: nat)
    ensures Or(top * 0x1_0000 + t, 1) == top * 0x1_0000 + if t % 2 == 0 then t + 1 else t
  {
    StickyShift.OrOne(top * 0x1_0000 + t);
  }

  /** Rounding to odd first does not disturb the rounding to nearest that follows. */
  lemma NarrowBits(top: nat, t: nat, inexact: bool)
    requires top < 0x1_0000 && t < 0x1_0000 && 1 <= top / 128 % 256 <= 254
    ensures var bits := top * 0x1_0000 + t;
            var up := t > 0x8000 || (t == 0x8000 && (inexact || top % 2 == 1));
            Narrow(if inexact then Or(bits, 1) else bits) == if up then top + 1 else top
  {
    hide Narrow, Or;
    StickyOr(top, t);
    NarrowNormal(top, if inexact && t % 2 == 0 then t + 1 else t);
  }

  // ------------------------------------------------------------------------- the operation

  lemma WidenFinite(x: nat)
    requires FiniteBf16(x)
    ensures Finite(Unpack(Widen(x)))
  {
    Fields(x, 0);
  }

  lemma SignAlone(sign: bool)
    ensures And(if sign then SIGN16 else 0, SIGN16) == if sign then SIGN16 else 0
  {
    forall k: nat ensures Bit(And(SIGN16, SIGN16), k) <==> Bit(SIGN16, k) { AndBit(SIGN16, SIGN16, k); }
    BitExtensional(And(SIGN16, SIGN16), SIGN16);
    forall k: nat ensures Bit(And(0, SIGN16), k) <==> Bit(0, k) { AndBit(0, SIGN16, k); ZeroHasNoBits(k); }
    BitExtensional(And(0, SIGN16), 0);
  }

  /** A zero, exact or flushed, keeps its sign. */
  lemma NarrowZero(sign: bool, inexact: bool)
    ensures Narrow(RoundToOdd(Rounded(Float(sign, 0, 0), inexact))) == if sign then SIGN16 else 0
  {
    hide Or, And, Bit;
    var top := if sign then SIGN16 else 0;
    StickyOr(top, 0);
    Fields(top, if inexact then 1 else 0);
    SignAlone(sign);
  }

  lemma PackedTop(f: Float)
    requires 1 <= f.exp <= 254 && f.frac < HIDDEN
    ensures var low := f.exp * 128 + Significand(f) / 0x1_0000 - 128;
            var top := (if f.sign then SIGN16 else 0) + low;
            && 128 <= low < INFINITY && top / 128 % 256 == f.exp && top % 2 == low % 2
            && PackFloat(f) == top * 0x1_0000 + Significand(f) % 0x1_0000
  {
    var m := Significand(f) / 0x1_0000;
    assert 128 <= m < 256;
    assert f.exp * HIDDEN == f.exp * 128 * 0x1_0000;
  }

  /** The nearest even index for a magnitude whose 24-bit cut has top bits `m`, low bits `t` and exponent `exp`. */
  lemma NearestOfCut(n: nat, exp: nat, m: nat, t: nat, exact: bool)
    requires 1 <= exp <= 254 && 128 <= m < 256 && t < 0x1_0000
    requires var cut := (m * 0x1_0000 + t) * Pow2(exp + 438);
             cut <= n < cut + Pow2(exp + 438) && (exact <==> n == cut)
    ensures var low := exp * 128 + m - 128;
            var up := t > 0x8000 || (t == 0x8000 && (!exact || low % 2 == 1));
            NearestEven(n, if up then low + 1 else low)
  {
    hide Bits.Pow2, Grid, NearestEven;
    var low := exp * 128 + m - 128;
    GridAt(exp, m);
    AgainstMidpoint(n, Pow2(exp + 438), m, t, exact);
    MidpointDecides(n, low, if t > 0x8000 || (t == 0x8000 && (!exact || low % 2 == 1)) then low + 1 else low);
  }

  lemma SignedIndex(sign: bool, k: nat, r: nat)
    requires k < SIGN16 && r == (if sign then SIGN16 else 0) + k
    ensures r < 2 * SIGN16 && (r / SIGN16 == 1 <==> sign) && r % SIGN16 == k
  {
  }

  lemma NarrowNormalResult(n: nat, r: Rounded)
    requires CutTo(n, r.value) && (r.inexact <==> n != Magnitude(r.value)) && n >= MinNormal()
    ensures RoundsOnce(r.value.sign, n, Narrow(RoundToOdd(r)))
  {
    hide Narrow, Or, PackFloat, Grid, NearestEven, MinNormal, Bits.Pow2;
    var f := r.value;
    var m, t := Significand(f) / 0x1_0000, Significand(f) % 0x1_0000;
    var low := f.exp * 128 + m - 128;
    var top := (if f.sign then SIGN16 else 0) + low;
    PackedTop(f);
    NarrowBits(top, t, r.inexact);
    assert Significand(f) == m * 0x1_0000 + t && 128 <= m < 256;
    NearestOfCut(n, f.exp, m, t, !r.inexact);
    var k := if t > 0x8000 || (t == 0x8000 && (r.inexact || low % 2 == 1)) then low + 1 else low;
    SignedIndex(f.sign, k, Narrow(RoundToOdd(r)));
  }

  lemma GridTop()
    ensures Grid(INFINITY) == TooLarge()
  {
    hide Bits.Pow2;
    assert INFINITY / 128 + 454 == 709 && INFINITY % 128 == 0;
    Pow2Adds(1, 16);
    Pow2Adds(17, 692);
    assert Pow2(1) == 2 by { SmallPowers(); }
    WordSizes();
    assert 128 * (0x2_0000 * Pow2(692)) == 2 * HIDDEN * Pow2(692);
  }

  lemma Overflowed(n: nat)
    requires n >= TooLarge()
    ensures NearestEven(n, INFINITY)
  {
    hide TooLarge, Grid;
    GridTop();
    forall j | 0 <= j < INFINITY ensures Grid(j) < Grid(INFINITY) { GridAscends(j, INFINITY); }
  }

  lemma NarrowCorrect(sign: bool, n: nat, r: Rounded)
    requires RoundsMagnitude(sign, n, r)
    ensures RoundsOnce(sign, n, Narrow(RoundToOdd(r)))
  {
    hide MinNormal, TooLarge, NearestEven, Narrow, Or, CutTo;
    if n < MinNormal() {
      NarrowZero(sign, true);
    } else if n >= TooLarge() {
      PackedTop(r.value);
      NarrowBits((if sign then SIGN16 else 0) + INFINITY - 1, 0xFFFF, true);
      Overflowed(n);
    } else {
      NarrowNormalResult(n, r);
    }
  }

  /** Whether a value's operand, the product or the addend, carries a minus sign. */
  function SignProduct(a: nat, b: nat, subProd: bool): bool {
    (Unpack(Widen(a)).sign != Unpack(Widen(b)).sign) != subProd
  }

  function SignAddend(c: nat, subC: bool): bool { Unpack(Widen(c)).sign != subC }

  /** `bf16_mulAdd` on all finite operands. A nonzero exact value is rounded once; an exact zero is negative only if
      both the product and the addend are (IEEE 754-2019 section 6.3). */
  lemma FusedOnce(a: nat, b: nat, c: nat, subProd: bool, subC: bool)
    requires FiniteBf16(a) && FiniteBf16(b) && FiniteBf16(c)
    ensures var x, r := ExactBf16(a, b, c, subProd, subC), MulAddBf16(a, b, c, subProd, subC);
            if x == 0 then r == if SignProduct(a, b, subProd) && SignAddend(c, subC) then SIGN16 else 0
            else RoundsOnce(x < 0, Abs(x), r)
  {
    hide Narrow, RoundToOdd, RoundsMagnitude, RoundsOnce, Exact, MulAdd, Unpack, Widen, FiniteBf16;
    WidenFinite(a);
    WidenFinite(b);
    WidenFinite(c);
    var fa, fb, fc := Unpack(Widen(a)), Unpack(Widen(b)), Unpack(Widen(c));
    MulAddCorrect(fa, fb, fc, subProd, subC);
    var x, r := Exact(fa, fb, fc, subProd, subC), MulAdd(fa, fb, fc, subProd, subC);
    if x == 0 {
      ExactZero(fa, fb, fc, subProd, subC);
      NarrowZero(r.value.sign, false);
    } else {
      NarrowCorrect(x < 0, Abs(x), r);
    }
  }

  // ------------------------------------------------------------------------- where flushing comes first

  lemma SmallestNormals()
    ensures Grid(128) == MinNormal() && 2 * Pow2(453) == Pow2(454) && Grid(127) + Pow2(454) == MinNormal()
  {
    hide Bits.Pow2;
    Pow2Adds(1, 453);
    Pow2Adds(16, 439);
    SmallPowers();
    WordSizes();
    GridStep(127);
    assert 128 * (0x1_0000 * Pow2(439)) == HIDDEN * Pow2(439);
  }

  /** Rounding to eight bits before the test for the smallest normal would round up to it from half a last place
      below. The operation tests first, so the two orders differ on exactly that interval. */
  lemma FlushOrder(negative: bool, n: nat, r: nat, k: nat)
    requires RoundsOnce(negative, n, r) && NearestEven(n, k)
    ensures r % SIGN16 == (if k < 128 then 0 else k) <==> !(MinNormal() - Pow2(453) <= n < MinNormal())
  {
    hide Grid, MinNormal, Bits.Pow2, SIGN16;
    SmallestNormals();
    if k < 127 { GridAscends(k, 127); }
    if k > 128 { GridAscends(128, k); }
    assert Distance(n, k) <= Distance(n, 127) && Distance(n, k) <= Distance(n, 128);
    if n >= MinNormal() { NearestEvenUnique(n, k, r % SIGN16); }
  }

  /** Two operands on which they do differ: 181/256 times 181/128 of the smallest normal, plus zero. The exact product
      is nearest to the smallest normal, and the operation returns zero. */
  lemma FlushedProduct()
    ensures ExactBf16(0x3F35, 0x00B5, 0, false, false) == MinNormal() - 7 * Pow2(447)
    ensures NearestEven(MinNormal() - 7 * Pow2(447), 128)
    ensures MulAddBf16(0x3F35, 0x00B5, 0, false, false) == 0
  {
    hide Bits.Pow2, Narrow, MulAdd, RoundToOdd, Exact, NearestEven, MulAddBf16, ExactBf16;
    WidenFinite(0x3F35);
    WidenFinite(0x00B5);
    WidenFinite(0);
    ExactProduct();
    NearSmallestNormal();
    FusedOnce(0x3F35, 0x00B5, 0, false, false);
  }

  lemma ExactProduct()
    ensures ExactBf16(0x3F35, 0x00B5, 0, false, false) == MinNormal() - 7 * Pow2(447) > 0
  {
    hide Bits.Pow2;
    var a, b, c := Unpack(Widen(0x3F35)), Unpack(Widen(0x00B5)), Unpack(Widen(0));
    assert a == Float(false, 126, 0x35_0000) && b == Float(false, 1, 0x35_0000) && c == Float(false, 0, 0);
    Pow2Adds(32, 415);
    Pow2Adds(8, 439);
    WordSizes();
  }

  lemma NearSmallestNormal()
    ensures NearestEven(MinNormal() - 7 * Pow2(447), 128)
  {
    hide Bits.Pow2, NearestEven, Grid;
    SmallestNormals();
    Pow2Adds(6, 447);
    assert Pow2(6) == 64 by { SmallPowers(); }
    MidpointDecides(MinNormal() - 7 * Pow2(447), 127, 128);
  }

  lemma SmallPowers()
    ensures Pow2(1) == 2 && Pow2(6) == 64
  {
  }
}
