/**
 The bfloat16 fused multiply-add on all operands: the infinities and NaNs, which SoftFloat sorts out before it does any
 arithmetic, and the finite operands that `Bf16` is about.
 */
module Bf16Special {
  import opened Arith
  import opened Bits
  import opened F32MulAdd
  import opened Bf16

  const QUIET32: nat := 0x40_0000
  const DEFAULT_NAN32: nat := 0xFFC0_0000
  const INFINITY32: nat := 0x7F80_0000
  const QUIET: nat := 0x40
  const DEFAULT_NAN: nat := 0xFFC0

  // ------------------------------------------------------------------------- the source

  predicate IsNaN32(x: nat) { x / HIDDEN % 256 == 0xFF && x % HIDDEN != 0 }

  predicate IsSignaling32(x: nat) { IsNaN32(x) && x / QUIET32 % 2 == 0 }

  /** `softfloat_propagateNaNF32UI` */
  function PropagateNaN(a: nat, b: nat): nat {
    if IsSignaling32(a) then Or(a, QUIET32) else Or(if IsNaN32(a) then a else b, QUIET32)
  }

  function PackInfinity(sign: bool): nat { (if sign then SIGN32 else 0) + INFINITY32 }

  /** `f32_mulAdd` and the inexact flag it leaves, with denormal operands read as zeros. */
  function MulAdd32(a: nat, b: nat, c: nat, subProd: bool, subC: bool): (nat, bool) {
    var fa, fb, fc := Unpack(a), Unpack(b), Unpack(c);
    var signC := fc.sign != subC;
    var signProd := (fa.sign != fb.sign) != subProd;
    if IsNaN32(a) || IsNaN32(b) || IsNaN32(c) then
      (PropagateNaN(if IsNaN32(a) || IsNaN32(b) then PropagateNaN(a, b) else 0, c), false)
    else if fa.exp == 0xFF || fb.exp == 0xFF then
      var magBits := if fa.exp == 0xFF then fb.exp else fa.exp;
      if magBits != 0 && (signProd == signC || fc.exp != 0xFF) then (PackInfinity(signProd), false)
      else (PropagateNaN(DEFAULT_NAN32, c), false)
    else if fc.exp == 0xFF then (PackInfinity(signC), false)
    else
      var r := MulAdd(fa, fb, fc, subProd, subC);
      (PackFloat(r.value), r.inexact)
  }

  /** `bf16_mulAdd` */
  function FusedMulAdd(a: nat, b: nat, c: nat, subProd: bool, subC: bool): nat {
    var (r, inexact) := MulAdd32(Widen(a), Widen(b), Widen(c), subProd, subC);
    Narrow(if inexact then Or(r, 1) else r)
  }

  // ------------------------------------------------------------------------- what it means

  predicate IsInfinite(x: nat) { x / 128 % 256 == 0xFF && x % 128 == 0 }

  predicate IsNaN(x: nat) { x / 128 % 256 == 0xFF && x % 128 != 0 }

  /** A zero or a denormal. */
  predicate CountsAsZero(x: nat) { x / 128 % 256 == 0 }

  predicate InfiniteProduct(a: nat, b: nat) { IsInfinite(a) || IsInfinite(b) }

  /** Infinity times zero, or infinity minus infinity. */
  predicate Invalid(a: nat, b: nat, c: nat, subProd: bool, subC: bool) {
    || (IsInfinite(a) && CountsAsZero(b)) || (CountsAsZero(a) && IsInfinite(b))
    || (InfiniteProduct(a, b) && IsInfinite(c) && SignProduct(a, b, subProd) != SignAddend(c, subC))
  }

  function Infinity(sign: bool): nat { (if sign then SIGN16 else 0) + INFINITY }

  function FirstNaN(a: nat, b: nat, c: nat): nat { if IsNaN(a) then a else if IsNaN(b) then b else c }

  /** The result for every operand: the first NaN made quiet; the default NaN for an invalid operation; an infinity with
      the sign of the product or else of the addend; and otherwise the exact value rounded once. */
  lemma FusedOnAll(a: nat, b: nat, c: nat, subProd: bool, subC: bool)
    requires a < 0x1_0000 && b < 0x1_0000 && c < 0x1_0000
    ensures var x, r := ExactBf16(a, b, c, subProd, subC), FusedMulAdd(a, b, c, subProd, subC);
            if IsNaN(a) || IsNaN(b) || IsNaN(c) then r == Or(FirstNaN(a, b, c), QUIET)
            else if Invalid(a, b, c, subProd, subC) then r == DEFAULT_NAN
            else if InfiniteProduct(a, b) then r == Infinity(SignProduct(a, b, subProd))
            else if IsInfinite(c) then r == Infinity(SignAddend(c, subC))
            else if x == 0 then r == if SignProduct(a, b, subProd) && SignAddend(c, subC) then SIGN16 else 0
            else RoundsOnce(x < 0, Abs(x), r)
  {
    hide Narrow, ExactBf16, RoundsOnce, MulAdd, Or, PackFloat;
    WidenFields(a);
    WidenFields(b);
    WidenFields(c);
    if IsNaN(a) || IsNaN(b) || IsNaN(c) {
      NaNPropagates(a, b, c, subProd, subC);
    } else if InfiniteProduct(a, b) || IsInfinite(c) {
      InfinityNarrows(SignProduct(a, b, subProd));
      InfinityNarrows(SignAddend(c, subC));
      DefaultNarrows(c);
    } else {
      FusedOnce(a, b, c, subProd, subC);
    }
  }

  lemma WidenFields(x: nat)
    requires x < 0x1_0000
    ensures Unpack(Widen(x)) == Float(x / 0x8000 == 1, x / 128 % 256, x % 128 * 0x1_0000)
    ensures IsNaN32(Widen(x)) <==> IsNaN(x)
  {
    assert x * 0x1_0000 / SIGN32 == x / 0x8000;
    assert x * 0x1_0000 / HIDDEN == x / 128;
    assert x * 0x1_0000 % HIDDEN == x % 128 * 0x1_0000;
  }

  lemma {:induction false} OrPow2(x: nat, k: nat)
    ensures Or(x, Pow2(k)) == if Bit(x, k) then x else x + Pow2(k)
  {
    if x == 0 {
      ZeroHasNoBits(k);
    } else if k > 0 {
      OrPow2(x / 2, k - 1);
      assert Pow2(k) / 2 == Pow2(k - 1) && Pow2(k) % 2 == 0;
    }
  }

  lemma {:induction false} BitByDivision(x: nat, k: nat)
    ensures Bit(x, k) <==> x / Pow2(k) % 2 == 1
  {
    if k > 0 {
      BitByDivision(x / 2, k - 1);
      DivideTwice(x, Pow2(k - 1));
    }
  }

  lemma QuietBits()
    ensures Pow2(6) == QUIET && Pow2(22) == QUIET32 && Pow2(16) == 0x1_0000
  {
    WordSizes();
    Pow2Adds(16, 6);
    assert Pow2(3) == 8;
    Pow2Adds(3, 3);
  }

  lemma QuietMeans(x: nat)
    ensures Or(x, QUIET) == if x / 64 % 2 == 1 then x else x + QUIET
  {
    QuietBits();
    OrPow2(x, 6);
    BitByDivision(x, 6);
  }

  /** Making quiet commutes with widening. */
  lemma QuietWidens(x: nat)
    ensures Or(Widen(x), QUIET32) == Widen(Or(x, QUIET))
  {
    QuietBits();
    OrPow2(x, 6);
    OrPow2(Widen(x), 22);
    ShiftLeftBit(x, 16, 22);
  }

  lemma QuietNaN(x: nat)
    requires x < 0x1_0000 && IsNaN(x)
    ensures IsNaN(Or(x, QUIET)) && Or(Or(x, QUIET), QUIET) == Or(x, QUIET) < 0x1_0000
  {
    QuietMeans(x);
    QuietMeans(Or(x, QUIET));
    hide Or;
    if x / 64 % 2 == 0 {
      assert (x + QUIET) / 64 == x / 64 + 1;
      assert (x + QUIET) / 128 == x / 128 && (x + QUIET) % 128 == x % 128 + 64;
    }
  }

  lemma NaNNarrows(x: nat)
    requires x < 0x1_0000 && IsNaN(x)
    ensures Narrow(Widen(x)) == Or(x, QUIET)
  {
    WidenFields(x);
    assert Widen(x) / 0x1_0000 == x;
  }

  /** Two rounds of propagation find the first NaN, whether or not it signals. */
  lemma NaNPropagates(a: nat, b: nat, c: nat, subProd: bool, subC: bool)
    requires a < 0x1_0000 && b < 0x1_0000 && c < 0x1_0000 && (IsNaN(a) || IsNaN(b) || IsNaN(c))
    ensures FusedMulAdd(a, b, c, subProd, subC) == Or(FirstNaN(a, b, c), QUIET)
  {
    hide Or, Narrow, IsNaN32;
    WidenFields(a);
    WidenFields(b);
    WidenFields(c);
    var n := FirstNaN(a, b, c);
    QuietWidens(n);
    QuietNaN(n);
    var q := Or(n, QUIET);
    WidenFields(q);
    QuietWidens(q);
    ZeroIsNoNaN();
    NaNNarrows(q);
  }

  lemma ZeroIsNoNaN()
    ensures !IsNaN32(0) && !IsSignaling32(0)
  {
  }

  lemma InfinityNarrows(sign: bool)
    ensures Narrow(PackInfinity(sign)) == Infinity(sign)
  {
    hide And, Or;
    assert INFINITY32 / HIDDEN == 0xFF && INFINITY32 % HIDDEN == 0;
  }

  lemma DefaultNarrows(c: nat)
    requires c < 0x1_0000 && !IsNaN(c)
    ensures Narrow(PropagateNaN(DEFAULT_NAN32, Widen(c))) == DEFAULT_NAN
  {
    hide Or, Narrow;
    QuietWidens(DEFAULT_NAN);
    QuietMeans(DEFAULT_NAN);
    NaNNarrows(DEFAULT_NAN);
    assert Widen(DEFAULT_NAN) == DEFAULT_NAN32 && IsNaN32(DEFAULT_NAN32);
  }
}
