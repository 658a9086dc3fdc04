/**
 SoftFloat's fused multiply-add on 32-bit floats, as `bf16_mulAdd` runs it: rounding to zero, denormal operands
 read as zero and denormal results flushed to zero, every exception masked.

 A value is a natural number of units of 2^-588, so that all products and addends are whole. A 64-bit significand
 `z` at exponent `e` is worth `z * Weight(e)`; the result of a correct run is the exact sum cut to 24 bits.
 */
module F32MulAdd {
  import opened Arith
  import opened Bits
  import opened StickyShift

  /** A 32-bit float taken apart. */
  datatype Float = Float(sign: bool, exp: nat, frac: nat)

  datatype Rounded = Rounded(value: Float, inexact: bool)

  /** An unrounded result: `sig` has 31 bits, seven more than the significand. */
  datatype Parts = Cancelled | Parts(sign: bool, exp: int, sig: nat)

  const HIDDEN: nat := 0x80_0000
  const BIT29: nat := 0x2000_0000
  const BIT30: nat := 0x4000_0000
  const BIT61: nat := 0x2000_0000_0000_0000

  predicate Finite(f: Float) { f.exp < 0xFF && f.frac < HIDDEN }

  function Weight(e: int): (w: nat)
    requires e >= -400
    ensures w >= 1
  {
    Pow2(e + 400)
  }

  /** What a significand is worth at an exponent. */
  function Value(z: nat, e: int): nat
    requires e >= -400
  {
    z * Weight(e)
  }

  /** The significand with its hidden bit; a denormal counts as zero. */
  function Significand(f: Float): nat {
    if f.exp == 0 then 0 else f.frac + HIDDEN
  }

  // ------------------------------------------------------------------------- the source

  function ShiftRightJam64(a: nat, dist: nat): nat {
    if dist < 63 then Sticky(a, Pow2(dist)) else if a != 0 then 1 else 0
  }

  function BitLength(a: nat): nat {
    if a == 0 then 0 else 1 + BitLength(a / 2)
  }

  function CountLeadingZeros64(a: nat): int { 64 - BitLength(a) }

  /** Operands of the same sign. */
  function AddMags(sign: bool, expProd: int, sigProd: nat, expC: int, sigC: nat): Parts {
    var expDiff := expProd - expC;
    var expZ := if expDiff <= 0 then expC else expProd;
    var sigZ :=
      if expDiff <= 0 then sigC + ShiftRightJam64(sigProd, 32 - expDiff)
      else ShiftRightJam64(sigProd + ShiftRightJam64(sigC * 0x1_0000_0000, expDiff), 32);
    if sigZ < BIT30 then Parts(sign, expZ - 1, sigZ * 2) else Parts(sign, expZ, sigZ)
  }

  /** Operands of different signs, before normalisation: sign, exponent and 64-bit significand. */
  function Subtract(signProd: bool, expProd: int, sigProd: nat, signC: bool, expC: int, sigC: nat): (bool, int, int) {
    var expDiff := expProd - expC;
    var sig64C := sigC * 0x1_0000_0000;
    if expDiff < 0 then
      (signC, expC, sig64C - ShiftRightJam64(sigProd, -expDiff))
    else if expDiff == 0 then
      if sigProd < sig64C then (!signProd, expProd, sig64C - sigProd) else (signProd, expProd, sigProd - sig64C)
    else
      (signProd, expProd, sigProd - ShiftRightJam64(sig64C, expDiff))
  }

  function Normalize(sign: bool, exp: int, sig64Z: nat): Parts {
    var shiftDist := CountLeadingZeros64(sig64Z) - 1;
    var sigZ := if shiftDist < 32 then ShiftRightJam64(sig64Z, 32 - shiftDist) else sig64Z * Pow2(shiftDist - 32);
    Parts(sign, exp - shiftDist, sigZ)
  }

  /** The significand arithmetic, for operands other than zero. */
  function Core(signProd: bool, expProd: int, sigProd: nat, signC: bool, expC: int, sigC: nat): Parts {
    if signProd == signC then
      AddMags(signProd, expProd, sigProd, expC, sigC)
    else
      var (sign, exp, sig) := Subtract(signProd, expProd, sigProd, signC, expC, sigC);
      if sig <= 0 then Cancelled else Normalize(sign, exp, sig)
  }

  /** `roundPackToF32` rounding to zero, underflow flushed, all exceptions masked. */
  function RoundPack(sign: bool, exp: int, sig: nat): Rounded {
    if exp < 0 then Rounded(Float(sign, 0, 0), true)
    else if exp > 0xFD then Rounded(Float(sign, 0xFE, HIDDEN - 1), true)
    else Rounded(Pack(sign, exp, sig / 128), sig % 128 != 0)
  }

  /** The fields are added, so the hidden bit of `sig` carries into the exponent. */
  function Pack(sign: bool, exp: nat, sig: nat): Float {
    Float(sign, exp + sig / HIDDEN, sig % HIDDEN)
  }

  /** The product's 64-bit significand, shifted so that bit 61 is set, and its exponent. */
  function ProductSig(a: Float, b: Float): nat {
    var sigProd := (Significand(a) * 128) * (Significand(b) * 128);
    if sigProd < BIT61 then sigProd * 2 else sigProd
  }

  function ProductExp(a: Float, b: Float): int {
    var expProd := a.exp + b.exp - 0x7E;
    if (Significand(a) * 128) * (Significand(b) * 128) < BIT61 then expProd - 1 else expProd
  }

  function MulAdd(a: Float, b: Float, c: Float, subProd: bool, subC: bool): Rounded {
    var signC := c.sign != subC;
    var signProd := (a.sign != b.sign) != subProd;
    if a.exp == 0 || b.exp == 0 then
      if c.exp != 0 then Rounded(Float(signC, c.exp, c.frac), false)
      else Rounded(Float(if signProd != signC then false else signC, 0, 0), false)
    else
      var exp, sig := ProductExp(a, b), ProductSig(a, b);
      if c.exp == 0 then
        RoundPack(signProd, exp - 1, ShiftRightJam64(sig, 31))
      else
        match Core(signProd, exp, sig, signC, c.exp, Significand(c) * 64)
        case Cancelled => Rounded(Float(false, 0, 0), false)
        case Parts(sign, exp, sig) => RoundPack(sign, exp, sig)
  }

  // ------------------------------------------------------------------------- the exact value

  /** What a finite float is worth, without its sign. */
  function Magnitude(f: Float): nat { Significand(f) * Pow2(f.exp + 438) }

  function Signed(sign: bool, n: nat): int { if sign then 0 - n else n }

  function Product(a: Float, b: Float): nat { Significand(a) * Significand(b) * Pow2(a.exp + b.exp + 288) }

  /** The exact value of the operation. */
  function Exact(a: Float, b: Float, c: Float, subProd: bool, subC: bool): int {
    Signed((a.sign != b.sign) != subProd, Product(a, b)) + Signed(c.sign != subC, Magnitude(c))
  }

  /** The smallest normal magnitude, and the first that is too large for any exponent. */
  function MinNormal(): nat { HIDDEN * Pow2(439) }

  function TooLarge(): nat { 2 * HIDDEN * Pow2(692) }

  /** `n` cut to the 24 bits of a normal float `f`: it lies in the last-place interval that `f` begins. */
  predicate CutTo(n: nat, f: Float) {
    1 <= f.exp <= 254 && f.frac < HIDDEN
    && Magnitude(f) <= n < Magnitude(f) + Pow2(f.exp + 438)
  }

  /** Rounding the magnitude `n` of a nonzero value toward zero, with flush to zero. */
  predicate RoundsMagnitude(sign: bool, n: nat, r: Rounded) {
    r.value.sign == sign
    && if n < MinNormal() then r == Rounded(Float(sign, 0, 0), true)
       else if n >= TooLarge() then r == Rounded(Float(sign, 0xFE, HIDDEN - 1), true)
       else CutTo(n, r.value) && (r.inexact <==> n != Magnitude(r.value))
  }

  /** What a correct operation returns for the exact value `x`. */
  predicate RoundsToZero(x: int, r: Rounded) {
    if x == 0 then Significand(r.value) == 0 && !r.inexact
    else RoundsMagnitude(x < 0, Abs(x), r)
  }

  function Abs(x: int): nat { if x < 0 then -x else x }

  // ------------------------------------------------------------------------- alignment

  lemma WeightAdds(e: int, k: nat)
    requires e >= -400
    ensures Weight(e + k) == Weight(e) * Pow2(k)
  {
    Pow2Adds(e + 400, k);
  }

  lemma JamIsSticky(a: nat, dist: nat)
    requires a < 0x8000_0000_0000_0000
    ensures ShiftRightJam64(a, dist) == Sticky(a, Pow2(dist))
  {
    if dist >= 63 {
      Pow2Monotone(63, dist);
      assert Pow2(63) == 0x8000_0000_0000_0000 by { WordSizes(); }
      SmallQuotient(a, Pow2(dist));
    }
  }

  lemma SmallQuotient(a: nat, d: nat)
    requires a < d
    ensures a / d == 0 && a % d == a
  {
    RemainderUnique(a, d, 0, a);
  }

  lemma ScaleSticky(m: nat, d: nat, w: nat)
    requires d >= 1 && w >= 1
    ensures d * w >= 1 && Sticky(m * w, d * w) == Sticky(m, d)
  {
    var q, r := m / d, m % d;
    Euclid(m, d);
    assert m * w == q * (d * w) + r * w by { assert (q * d + r) * w == q * (d * w) + r * w; }
    AtLeastOnce(d, w);
    LessTimes(r, d, w);
    RemainderUnique(m * w, d * w, q, r * w);
    if r != 0 { AtLeastOnce(r, w); }
  }

  /** Shifting a significand to a larger exponent keeps it the sticky form of its value. */
  lemma JamAligns(z: nat, e: int, e': int)
    requires -400 <= e <= e' && z < 0x8000_0000_0000_0000
    ensures ShiftRightJam64(z, e' - e) == Sticky(Value(z, e), Weight(e'))
  {
    JamIsSticky(z, e' - e);
    var k := e' - e;
    WeightAdds(e, k);
    ScaleSticky(z, Pow2(k), Weight(e));
    assert Weight(e') == Pow2(k) * Weight(e);
  }

  /** The same for a significand that is itself a sticky form. */
  lemma JamAgain(n: nat, z: nat, e: int, k: nat)
    requires e >= -400 && k >= 1 && z < 0x8000_0000_0000_0000 && z == Sticky(n, Weight(e))
    ensures ShiftRightJam64(z, k) == Sticky(n, Weight(e + k))
  {
    JamIsSticky(z, k);
    WeightAdds(e, k);
    StickyTwice(n, Weight(e), Pow2(k - 1));
  }

  // ------------------------------------------------------------------------- the cut

  /** A finished 31-bit significand: cutting its last seven bits cuts the exact value. */
  predicate Finished(n: nat, p: Parts) {
    && p.Parts? && p.exp >= -400 && BIT30 <= p.sig < 2 * BIT30
    && Cuts(n, p.sig / 128, Weight(p.exp + 39), p.sig % 128 == 0)
  }

  predicate Cuts(n: nat, cut: nat, w: nat, exact: bool) {
    cut * w <= n < cut * w + w && (exact <==> n == cut * w)
  }

  lemma QuotientCuts(n: nat, w: nat)
    requires w >= 1
    ensures Cuts(n, n / w, w, n % w == 0)
  {
    Euclid(n, w);
  }

  lemma FinishSticky(n: nat, sign: bool, exp: int, sig: nat)
    requires exp >= -400 && BIT30 <= sig < 2 * BIT30 && sig == Sticky(n, Weight(exp + 32))
    ensures Finished(n, Parts(sign, exp, sig))
  {
    WeightAdds(exp + 32, 7);
    assert Pow2(7) == 128;
    StickyQuotient(n, Weight(exp + 32), 64);
    QuotientCuts(n, Weight(exp + 39));
  }

  /** One doubling after the sticky shift does no harm: the sticky bit is still far below the cut. */
  lemma FinishDoubled(n: nat, sign: bool, exp: int, sig: nat)
    requires exp >= -399 && BIT29 <= sig < BIT30 && sig == Sticky(n, Weight(exp + 32))
    ensures Finished(n, Parts(sign, exp - 1, sig * 2))
  {
    WeightAdds(exp + 32, 6);
    assert Pow2(6) == 64;
    StickyQuotient(n, Weight(exp + 32), 32);
    QuotientCuts(n, Weight(exp + 38));
    assert sig * 2 / 128 == sig / 64 && sig * 2 % 128 == 2 * (sig % 64);
  }

  lemma FinishExact(n: nat, sign: bool, exp: int, sig: nat)
    requires exp >= -400 && BIT30 <= sig < 2 * BIT30 && n == Value(sig, exp + 32)
    ensures Finished(n, Parts(sign, exp, sig))
  {
    hide Value, Finished;
    WholeValue(sig, exp + 32);
    FinishSticky(n, sign, exp, sig);
  }

  // ------------------------------------------------------------------------- the branches

  /** Moving a bound on a significand along with its exponent. */
  lemma ShiftBound(z: nat, b: nat, e: int, k: nat, e': int)
    requires -400 <= e && e + k <= e' && z < b * Pow2(k)
    ensures Value(z, e) < b * Weight(e')
  {
    WeightAdds(e, k);
    LessTimes(z, b * Pow2(k), Weight(e));
    Associate(b, Pow2(k), Weight(e));
    Pow2Monotone(e + k + 400, e' + 400);
    TimesMonotone(b, Weight(e + k), Weight(e'));
  }

  lemma ValueSum(a: nat, x: nat, e: int)
    requires e >= -400 && a % 2 == 0
    ensures Sticky(Value(a, e) + x, Weight(e)) == a + Sticky(x, Weight(e))
  {
    StickySum(a, x, Weight(e));
  }

  /** A significand shifted to a larger exponent stays below its bound. */
  lemma JamBound(z: nat, b: nat, e: int, k: nat, e': int)
    requires -400 <= e && e + k <= e' && z < b * Pow2(k) && b % 2 == 0 && z < 0x8000_0000_0000_0000
    ensures ShiftRightJam64(z, e' - e) < b
  {
    ShiftBound(z, b, e, k, e');
    JamAligns(z, e, e');
    StickyBound(Value(z, e), Weight(e'), b);
  }

  /** The addend has the larger exponent, or the same. */
  lemma AddToLargerC(sign: bool, expProd: int, sigProd: nat, expC: int, sigC: nat)
    requires -200 <= expProd <= expC && sigProd < 2 * BIT61 && BIT29 <= sigC < BIT30 && sigC % 2 == 0
    ensures var n, sig := Value(sigC, expC + 32) + Value(sigProd, expProd),
                          sigC + ShiftRightJam64(sigProd, 32 - (expProd - expC));
            BIT29 <= sig < 2 * BIT30 && sig == Sticky(n, Weight(expC + 32))
  {
    hide Value, ShiftRightJam64, StickyShift.Sticky;
    WordSizes();
    JamAligns(sigProd, expProd, expC + 32);
    ValueSum(sigC, Value(sigProd, expProd), expC + 32);
    JamBound(sigProd, BIT30, expProd, 32, expC + 32);
  }

  /** The product has the larger exponent. */
  lemma AddToLargerProduct(sign: bool, expProd: int, sigProd: nat, expC: int, sig64C: nat)
    requires 1 <= expC < expProd && BIT61 <= sigProd < 2 * BIT61 && sigProd % 2 == 0 && sig64C < 2 * BIT61
    ensures var n, sum := Value(sigProd, expProd) + Value(sig64C, expC),
                          sigProd + ShiftRightJam64(sig64C, expProd - expC);
            var sig := ShiftRightJam64(sum, 32);
            BIT29 <= sig < 2 * BIT30 && sig == Sticky(n, Weight(expProd + 32))
  {
    hide Value, ShiftRightJam64, StickyShift.Sticky;
    JamAligns(sig64C, expC, expProd);
    ValueSum(sigProd, Value(sig64C, expC), expProd);
    JamBound(sig64C, 2 * BIT61, expC, 0, expProd);
    var sum := sigProd + ShiftRightJam64(sig64C, expProd - expC);
    JamAgain(Value(sigProd, expProd) + Value(sig64C, expC), sum, expProd, 32);
    JamIsSticky(sum, 32);
    WordSizes();
    TopBits(sum);
  }

  lemma WideAddend(expC: int, sigC: nat)
    requires expC >= -400
    ensures Value(sigC * 0x1_0000_0000, expC) == Value(sigC, expC + 32)
  {
    WeightAdds(expC, 32);
    WordSizes();
    Associate(sigC, 0x1_0000_0000, Weight(expC));
  }

  lemma AddMagsCorrect(sign: bool, expProd: int, sigProd: nat, expC: int, sigC: nat)
    requires -200 <= expProd && 1 <= expC
    requires BIT61 <= sigProd < 2 * BIT61 && sigProd % 2 == 0
    requires BIT29 <= sigC < BIT30 && sigC % 2 == 0
    ensures Finished(Value(sigProd, expProd) + Value(sigC, expC + 32), AddMags(sign, expProd, sigProd, expC, sigC))
    ensures AddMags(sign, expProd, sigProd, expC, sigC).sign == sign
  {
    hide Value, ShiftRightJam64, StickyShift.Sticky, Finished;
    var n := Value(sigProd, expProd) + Value(sigC, expC + 32);
    if expProd <= expC {
      AddToLargerC(sign, expProd, sigProd, expC, sigC);
      FinishEither(n, sign, expC, sigC + ShiftRightJam64(sigProd, 32 - (expProd - expC)));
    } else {
      WideAddend(expC, sigC);
      AddToLargerProduct(sign, expProd, sigProd, expC, sigC * 0x1_0000_0000);
      FinishEither(n, sign, expProd,
        ShiftRightJam64(sigProd + ShiftRightJam64(sigC * 0x1_0000_0000, expProd - expC), 32));
    }
  }

  lemma TopBits(sum: nat)
    requires BIT61 <= sum < 4 * BIT61
    ensures BIT29 <= Sticky(sum, 0x1_0000_0000) < 2 * BIT30
  {
    OrOne(sum / 0x1_0000_0000);
  }

  lemma FinishEither(n: nat, sign: bool, exp: int, sig: nat)
    requires exp >= -399 && BIT29 <= sig < 2 * BIT30 && sig == Sticky(n, Weight(exp + 32))
    ensures Finished(n, if sig < BIT30 then Parts(sign, exp - 1, sig * 2) else Parts(sign, exp, sig))
  {
    if sig < BIT30 { FinishDoubled(n, sign, exp, sig); } else { FinishSticky(n, sign, exp, sig); }
  }

  /** A larger exponent wins; and if more than one bit cancels, nothing had been lost. */
  lemma BigMinusSmall(big: nat, eb: int, small: nat, es: int)
    requires -200 <= es < eb && big % 2 == 0 && small % 2 == 0
    requires BIT61 <= big < 2 * BIT61 && BIT61 <= small < 2 * BIT61
    ensures Value(small, es) < Value(big, eb)
    ensures var n, z := Value(big, eb) - Value(small, es), big - ShiftRightJam64(small, eb - es);
            0 < z < 2 * BIT61 && z == Sticky(n, Weight(eb)) && (z < BIT61 / 2 ==> n == Value(z, eb))
  {
    hide ShiftRightJam64, StickyShift.Sticky;
    var x, d := Value(small, es), Weight(eb);
    ShiftBound(small, BIT61, es, 1, eb);
    TimesMonotone(d, BIT61, big);
    JamAligns(small, es, eb);
    StickyDifference(big, x, d);
    StickyPositive(big * d - x, d);
    if eb == es + 1 {
      OneBitShift(big, small, es);
    } else {
      JamBound(small, BIT61 / 2, es, 2, eb);
    }
  }

  /** An even significand loses nothing in a shift by one. */
  lemma OneBitShift(big: nat, small: nat, es: int)
    requires es >= -400 && small % 2 == 0 && Value(small, es) <= Value(big, es + 1)
    ensures var n, d := Value(big, es + 1) - Value(small, es), Weight(es + 1);
            Sticky(n, d) * d == n
  {
    var x, d := small * Weight(es), Weight(es + 1);
    WeightAdds(es, 1);
    Associate(small / 2, 2, Weight(es));
    RemainderUnique(x, d, small / 2, 0);
    DivideDifference(big, x, d);
    StickyExact(big * d - x, d);
  }

  /** A correct difference of two magnitudes, before normalisation. */
  predicate Difference(signProd: bool, prod: nat, addend: nat, sign: bool, exp: int, sig: int) {
    var n := if prod < addend then addend - prod else prod - addend;
    && 0 <= sig < 2 * BIT61 && exp >= -200
    && (sig == 0 <==> prod == addend)
    && (sig > 0 ==> sign == if prod < addend then !signProd else signProd)
    && sig == Sticky(n, Weight(exp)) && (sig < BIT61 / 2 ==> n == Value(sig, exp))
  }

  lemma SubtractCorrect(signProd: bool, expProd: int, sigProd: nat, expC: int, sigC: nat)
    requires -200 <= expProd && 1 <= expC
    requires BIT61 <= sigProd < 2 * BIT61 && sigProd % 2 == 0
    requires BIT29 <= sigC < BIT30
    ensures var (sign, exp, sig) := Subtract(signProd, expProd, sigProd, !signProd, expC, sigC);
            Difference(signProd, Value(sigProd, expProd), Value(sigC, expC + 32), sign, exp, sig)
  {
    hide Value, Difference;
    WideAddend(expC, sigC);
    if expProd < expC {
      SubtractFromAddend(signProd, expProd, sigProd, expC, sigC * 0x1_0000_0000);
    } else if expProd == expC {
      SubtractAligned(signProd, expProd, sigProd, sigC * 0x1_0000_0000);
    } else {
      SubtractFromProduct(signProd, expProd, sigProd, expC, sigC * 0x1_0000_0000);
    }
  }

  lemma SubtractFromAddend(signProd: bool, expProd: int, sigProd: nat, expC: int, sig64C: nat)
    requires -200 <= expProd < expC && 1 <= expC
    requires BIT61 <= sigProd < 2 * BIT61 && sigProd % 2 == 0 && BIT61 <= sig64C < 2 * BIT61 && sig64C % 2 == 0
    ensures Difference(signProd, Value(sigProd, expProd), Value(sig64C, expC),
                       !signProd, expC, sig64C - ShiftRightJam64(sigProd, expC - expProd))
  {
    hide Value, ShiftRightJam64, StickyShift.Sticky;
    BigMinusSmall(sig64C, expC, sigProd, expProd);
  }

  lemma SubtractFromProduct(signProd: bool, expProd: int, sigProd: nat, expC: int, sig64C: nat)
    requires -200 <= expProd && 1 <= expC < expProd
    requires BIT61 <= sigProd < 2 * BIT61 && sigProd % 2 == 0 && BIT61 <= sig64C < 2 * BIT61 && sig64C % 2 == 0
    ensures Difference(signProd, Value(sigProd, expProd), Value(sig64C, expC),
                       signProd, expProd, sigProd - ShiftRightJam64(sig64C, expProd - expC))
  {
    hide Value, ShiftRightJam64, StickyShift.Sticky;
    BigMinusSmall(sigProd, expProd, sig64C, expC);
  }

  lemma SubtractAligned(signProd: bool, exp: int, sigProd: nat, sig64C: nat)
    requires exp >= -200 && BIT61 <= sigProd < 2 * BIT61 && BIT61 <= sig64C < 2 * BIT61
    ensures if sigProd < sig64C
            then Difference(signProd, Value(sigProd, exp), Value(sig64C, exp), !signProd, exp, sig64C - sigProd)
            else Difference(signProd, Value(sigProd, exp), Value(sig64C, exp), signProd, exp, sigProd - sig64C)
  {
    hide Value, StickyShift.Sticky;
    SameWeight(sigProd, sig64C, exp);
  }

  lemma SameWeight(a: nat, b: nat, e: int)
    requires e >= -400
    ensures a < b <==> Value(a, e) < Value(b, e)
    ensures a == b <==> Value(a, e) == Value(b, e)
    ensures a >= b ==> Value(a, e) - Value(b, e) == Value(a - b, e) && Sticky(Value(a - b, e), Weight(e)) == a - b
    ensures a <= b ==> Value(b, e) - Value(a, e) == Value(b - a, e) && Sticky(Value(b - a, e), Weight(e)) == b - a
  {
    var w := Weight(e);
    if a < b { LessTimes(a, b, w); }
    if b < a { LessTimes(b, a, w); }
    Distribute(a, b, w);
    Distribute(b, a, w);
    if a >= b { WholeValue(a - b, e); }
    if a <= b { WholeValue(b - a, e); }
  }

  lemma WholeValue(z: nat, e: int)
    requires e >= -400
    ensures Sticky(Value(z, e), Weight(e)) == z
  {
    ScaleSticky(z, 1, Weight(e));
    OrOne(z);
  }

  lemma {:induction false} BitLengthBounds(a: nat)
    requires a > 0
    ensures BitLength(a) >= 1 && Pow2(BitLength(a) - 1) <= a < Pow2(BitLength(a))
  {
    if a > 1 { BitLengthBounds(a / 2); }
  }

  lemma NormalizeCorrect(n: nat, sign: bool, exp: int, sig: nat)
    requires exp >= -200 && 0 < sig < 2 * BIT61 && sig == Sticky(n, Weight(exp))
    requires sig < BIT61 / 2 ==> n == Value(sig, exp)
    ensures Finished(n, Normalize(sign, exp, sig)) && Normalize(sign, exp, sig).sign == sign
  {
    var length := BitLength(sig);
    BitLengthBounds(sig);
    if length > 62 {
      WordSizes();
      Pow2Monotone(62, length - 1);
    }
    if length > 31 {
      NormalizeRight(n, sign, exp, sig, length - 31);
    } else {
      WordSizes();
      Pow2Monotone(length, 31);
      NormalizeLeft(n, sign, exp, sig, 31 - length);
    }
  }

  lemma PowBits()
    ensures Pow2(30) == BIT30 && Pow2(31) == 2 * BIT30 && Pow2(62) == 2 * BIT61
  {
    WordSizes();
  }

  lemma NormalizeRight(n: nat, sign: bool, exp: int, sig: nat, k: nat)
    requires exp >= -200 && 1 <= k <= 31 && Pow2(30 + k) <= sig < Pow2(31 + k) && sig == Sticky(n, Weight(exp))
    ensures Finished(n, Parts(sign, exp - (32 - k), ShiftRightJam64(sig, k)))
  {
    hide Bits.Pow2, Finished, StickyShift.Sticky, Value, Weight;
    PowBits();
    Pow2Monotone(31 + k, 62);
    JamAgain(n, sig, exp, k);
    JamIsSticky(sig, k);
    Pow2Adds(30, k);
    Pow2Adds(31, k);
    StickyAtLeast(sig, Pow2(k), BIT30);
    StickyBound(sig, Pow2(k), 2 * BIT30);
    FinishSticky(n, sign, exp - (32 - k), ShiftRightJam64(sig, k));
  }

  lemma NormalizeLeft(n: nat, sign: bool, exp: int, sig: nat, j: nat)
    requires exp >= -200 && j <= 30 && Pow2(30 - j) <= sig < Pow2(31 - j) && n == Value(sig, exp)
    ensures Finished(n, Parts(sign, exp - (32 + j), sig * Pow2(j)))
  {
    hide Finished;
    WordSizes();
    ShiftedLeft(sig, exp, j);
    FinishExact(n, sign, exp - (32 + j), sig * Pow2(j));
  }

  lemma ShiftedLeft(sig: nat, exp: int, j: nat)
    requires exp >= -200 && j <= 30 && Pow2(30 - j) <= sig < Pow2(31 - j)
    ensures Pow2(30) <= sig * Pow2(j) < Pow2(31) && Value(sig * Pow2(j), exp - j) == Value(sig, exp)
  {
    hide Value, Pow2;
    Pow2Adds(30 - j, j);
    Pow2Adds(31 - j, j);
    TimesMonotone(Pow2(j), Pow2(30 - j), sig);
    LessTimes(sig, Pow2(31 - j), Pow2(j));
    MovedLeft(sig, exp, j);
  }

  lemma MovedLeft(sig: nat, exp: int, j: nat)
    requires exp - j >= -400
    ensures Value(sig * Pow2(j), exp - j) == Value(sig, exp)
  {
    WeightAdds(exp - j, j);
    Associate(sig, Pow2(j), Weight(exp - j));
  }

  lemma StickyAtLeast(x: nat, d: nat, b: nat)
    requires d >= 1 && b * d <= x
    ensures b <= Sticky(x, d)
  {
    OrOne(x / d);
    Euclid(x, d);
    if x / d < b {
      LessTimes(x / d, b, d);
      AtLeastOnce(b - x / d, d);
      Distribute(b, x / d, d);
    }
  }

  lemma CoreCorrect(signProd: bool, expProd: int, sigProd: nat, signC: bool, expC: int, sigC: nat)
    requires -200 <= expProd && 1 <= expC
    requires BIT61 <= sigProd < 2 * BIT61 && sigProd % 2 == 0
    requires BIT29 <= sigC < BIT30 && sigC % 2 == 0
    ensures var x := Signed(signProd, Value(sigProd, expProd)) + Signed(signC, Value(sigC, expC + 32));
            var p := Core(signProd, expProd, sigProd, signC, expC, sigC);
            if x == 0 then p == Cancelled else Finished(Abs(x), p) && p.sign == (x < 0)
  {
    hide Value, Subtract, Normalize, AddMags, Finished, StickyShift.Sticky;
    if signProd == signC {
      AddMagsCorrect(signProd, expProd, sigProd, expC, sigC);
      ValuePositive(sigProd, expProd);
    } else {
      SubtractCorrect(signProd, expProd, sigProd, expC, sigC);
      var (sign, exp, sig) := Subtract(signProd, expProd, sigProd, signC, expC, sigC);
      var prod, addend := Value(sigProd, expProd), Value(sigC, expC + 32);
      if sig > 0 {
        NormalizeCorrect(if prod < addend then addend - prod else prod - addend, sign, exp, sig);
      }
    }
  }

  lemma ValuePositive(z: nat, e: int)
    requires z >= 1 && e >= -400
    ensures Value(z, e) >= 1
  {
    AtLeastOnce(z, Weight(e));
  }

  // ------------------------------------------------------------------------- rounding and the whole operation

  /** Whatever its exponent, a finished significand is packed as rounding toward zero demands. */
  lemma RoundPackCorrect(n: nat, p: Parts)
    requires Finished(n, p)
    ensures n >= 1 && RoundsMagnitude(p.sign, n, RoundPack(p.sign, p.exp, p.sig))
  {
    hide MinNormal, TooLarge, Cuts;
    var cut := p.sig / 128;
    assert HIDDEN <= cut < 2 * HIDDEN;
    CutRange(n, cut, p.exp + 39, p.sig % 128 == 0);
    if 0 <= p.exp <= 0xFD {
      PackedCut(n, p);
    }
  }

  lemma PackedCut(n: nat, p: Parts)
    requires Finished(n, p) && 0 <= p.exp <= 0xFD
    ensures var f := Pack(p.sign, p.exp, p.sig / 128);
            CutTo(n, f) && (p.sig % 128 == 0 <==> n == Magnitude(f))
  {
    var cut := p.sig / 128;
    var f := Pack(p.sign, p.exp, cut);
    assert f.exp == p.exp + 1 && Significand(f) == cut && Pow2(f.exp + 438) == Weight(p.exp + 39);
  }

  /** Where a 24-bit significand at a given weight lies between the smallest normal and the overflow bound. */
  lemma CutRange(n: nat, cut: nat, e: int, exact: bool)
    requires e >= -361 && Cuts(n, cut, Weight(e), exact) && HIDDEN <= cut < 2 * HIDDEN
    ensures n >= 1
    ensures n < MinNormal() <==> e < 39
    ensures n >= TooLarge() <==> e > 292
  {
    CutBounds(n, cut, Weight(e), exact);
    if e < 39 { WeightGrows(e, 38, 2 * HIDDEN); } else { WeightGrows(39, e, HIDDEN); }
    if e > 292 { WeightGrows(293, e, HIDDEN); } else { WeightGrows(e, 292, 2 * HIDDEN); }
    WeightAdds(38, 1);
    WeightAdds(292, 1);
    WeightGrows(39, 292, 2 * HIDDEN);
  }

  lemma CutBounds(n: nat, cut: nat, w: nat, exact: bool)
    requires Cuts(n, cut, w, exact) && HIDDEN <= cut < 2 * HIDDEN && w >= 1
    ensures HIDDEN * w <= n < 2 * HIDDEN * w && n >= 1
  {
    TimesMonotone(w, HIDDEN, cut);
    TimesMonotone(w, cut + 1, 2 * HIDDEN);
    Distribute(cut + 1, 1, w);
  }

  lemma WeightGrows(e: int, e': int, b: nat)
    requires -400 <= e <= e'
    ensures b * Weight(e) <= b * Weight(e')
  {
    Pow2Monotone(e + 400, e' + 400);
    TimesMonotone(b, Weight(e), Weight(e'));
  }

  /** A finite float with a nonzero exponent is its own cut. */
  lemma OwnCut(f: Float)
    requires Finite(f) && f.exp != 0
    ensures Magnitude(f) >= 1 && RoundsMagnitude(f.sign, Magnitude(f), Rounded(f, false))
  {
    CutRange(Magnitude(f), Significand(f), f.exp + 38, true);
  }

  /** The wide significands carry the exact product and addend. */
  lemma ProductValue(sA: nat, sB: nat, e: nat)
    requires e >= 2
    ensures Value(sA * 128 * (sB * 128), e - 0x7E) == sA * sB * Pow2(e + 288)
    ensures Value(sA * 128 * (sB * 128) * 2, e - 0x7F) == sA * sB * Pow2(e + 288)
  {
    var s := sA * sB;
    WideProduct(sA, sB);
    assert Pow2(14) == 0x4000 && Pow2(15) == 0x8000;
    MovedLeft(s, e - 0x7E + 14, 14);
    MovedLeft(s, e - 0x7E + 14, 15);
    assert Value(s, e - 0x7E + 14) == s * Pow2(e + 288);
  }

  lemma AddendValue(s: nat, e: nat)
    ensures Value(s * 64, e + 32) == s * Pow2(e + 438)
  {
    assert Pow2(6) == 64;
    MovedLeft(s, e + 38, 6);
  }

  lemma ProductRange(sA: nat, sB: nat)
    requires HIDDEN <= sA < 2 * HIDDEN && HIDDEN <= sB < 2 * HIDDEN
    ensures BIT61 / 2 <= sA * 128 * (sB * 128) < 2 * BIT61 && sA * 128 * (sB * 128) % 2 == 0
  {
    WideProduct(sA, sB);
    var s := sA * sB;
    TimesMonotone(sA, HIDDEN, sB);
    LessTimes(sA, 2 * HIDDEN, sB);
    assert HIDDEN * HIDDEN <= s < 2 * HIDDEN * (2 * HIDDEN);
  }

  lemma WideProduct(sA: nat, sB: nat)
    ensures sA * 128 * (sB * 128) == sA * sB * 0x4000
  {
    Associate(sA, 128, sB * 128);
    Associate(sA, sB, 128 * 128);
  }

  /** The whole operation on finite operands: the exact `a * b + c`, with the signs the operation asks for,
      rounded toward zero once, and the inexact flag raised exactly when that changed it. */
  lemma MulAddCorrect(a: Float, b: Float, c: Float, subProd: bool, subC: bool)
    requires Finite(a) && Finite(b) && Finite(c)
    ensures RoundsToZero(Exact(a, b, c, subProd, subC), MulAdd(a, b, c, subProd, subC))
  {
    hide RoundsMagnitude, Magnitude, RoundPack, Core, Product, Value;
    if a.exp == 0 || b.exp == 0 {
      ZeroProduct(a, b);
      if c.exp != 0 {
        SameMagnitude(c, c.sign != subC);
        OwnCut(Float(c.sign != subC, c.exp, c.frac));
      } else {
        ZeroMagnitude(c);
      }
    } else {
      NonzeroProduct(a, b, c, subProd, subC);
    }
  }

  lemma NonzeroProduct(a: Float, b: Float, c: Float, subProd: bool, subC: bool)
    requires Finite(a) && Finite(b) && Finite(c) && a.exp != 0 && b.exp != 0
    ensures RoundsToZero(Exact(a, b, c, subProd, subC), MulAdd(a, b, c, subProd, subC))
  {
    hide Finite, Weight, Value, Significand, ShiftRightJam64, Core, RoundPack, ProductSig, ProductExp, Magnitude,
         Product, RoundsMagnitude, Bits.Pow2, BIT29, BIT30, BIT61;
    WideOperands(a, b);
    var exp, sig := ProductExp(a, b), ProductSig(a, b);
    if c.exp == 0 {
      ZeroMagnitude(c);
      ProductAlone((a.sign != b.sign) != subProd, exp, sig);
    } else {
      WideAddendOf(c);
      SumRounds((a.sign != b.sign) != subProd, exp, sig, c.sign != subC, c.exp, Significand(c) * 64);
    }
  }

  lemma ZeroProduct(a: Float, b: Float)
    requires a.exp == 0 || b.exp == 0
    ensures Product(a, b) == 0
  {
    assert Significand(a) * Significand(b) == 0;
  }

  lemma ZeroMagnitude(c: Float)
    requires c.exp == 0
    ensures Magnitude(c) == 0
  {
  }

  lemma SameMagnitude(c: Float, sign: bool)
    ensures Magnitude(Float(sign, c.exp, c.frac)) == Magnitude(c)
  {
  }

  lemma WideOperands(a: Float, b: Float)
    requires Finite(a) && Finite(b) && a.exp != 0 && b.exp != 0
    ensures var exp, sig := ProductExp(a, b), ProductSig(a, b);
            exp >= -200 && BIT61 <= sig < 2 * BIT61 && sig % 2 == 0 && Value(sig, exp) == Product(a, b)
  {
    hide Value;
    ProductRange(Significand(a), Significand(b));
    ProductValue(Significand(a), Significand(b), a.exp + b.exp);
  }

  lemma WideAddendOf(c: Float)
    requires Finite(c) && c.exp != 0
    ensures BIT29 <= Significand(c) * 64 < BIT30 && Value(Significand(c) * 64, c.exp + 32) == Magnitude(c)
  {
    AddendValue(Significand(c), c.exp);
  }

  lemma ProductAlone(sign: bool, exp: int, sig: nat)
    requires -200 <= exp && BIT61 <= sig < 2 * BIT61
    ensures Value(sig, exp) >= 1
    ensures RoundsMagnitude(sign, Value(sig, exp), RoundPack(sign, exp - 1, ShiftRightJam64(sig, 31)))
  {
    hide Value, RoundPack, RoundsMagnitude;
    JamAligns(sig, exp, exp + 31);
    JamIsSticky(sig, 31);
    assert Pow2(31) == 2 * BIT30 by { WordSizes(); }
    StickyAtLeast(sig, 2 * BIT30, BIT30);
    StickyBound(sig, 2 * BIT30, 2 * BIT30);
    FinishSticky(Value(sig, exp), sign, exp - 1, ShiftRightJam64(sig, 31));
    RoundPackCorrect(Value(sig, exp), Parts(sign, exp - 1, ShiftRightJam64(sig, 31)));
  }

  lemma SumRounds(signProd: bool, exp: int, sig: nat, signC: bool, expC: int, sigC: nat)
    requires -200 <= exp && 1 <= expC
    requires BIT61 <= sig < 2 * BIT61 && sig % 2 == 0
    requires BIT29 <= sigC < BIT30 && sigC % 2 == 0
    ensures var x := Signed(signProd, Value(sig, exp)) + Signed(signC, Value(sigC, expC + 32));
            RoundsToZero(x, match Core(signProd, exp, sig, signC, expC, sigC)
                            case Cancelled => Rounded(Float(false, 0, 0), false)
                            case Parts(sign, exp, sig) => RoundPack(sign, exp, sig))
  {
    hide Value, Core, RoundPack, RoundsMagnitude, Cuts;
    CoreCorrect(signProd, exp, sig, signC, expC, sigC);
    var x := Signed(signProd, Value(sig, exp)) + Signed(signC, Value(sigC, expC + 32));
    if x != 0 {
      RoundPackCorrect(Abs(x), Core(signProd, exp, sig, signC, expC, sigC));
    }
  }

  /** The sign of an exact zero: negative only when product and addend both are. */
  lemma ExactZero(a: Float, b: Float, c: Float, subProd: bool, subC: bool)
    requires Finite(a) && Finite(b) && Finite(c) && Exact(a, b, c, subProd, subC) == 0
    ensures MulAdd(a, b, c, subProd, subC)
            == Rounded(Float((a.sign != b.sign) != subProd && c.sign != subC, 0, 0), false)
  {
    hide Finite, Weight, Value, Significand, ShiftRightJam64, Core, RoundPack, ProductSig, ProductExp, Magnitude,
         Product, RoundsMagnitude, Bits.Pow2, BIT29, BIT30, BIT61;
    var signProd, signC := (a.sign != b.sign) != subProd, c.sign != subC;
    if a.exp != 0 && b.exp != 0 {
      WideOperands(a, b);
      var exp, sig := ProductExp(a, b), ProductSig(a, b);
      ValuePositive(sig, exp);
      if c.exp != 0 {
        WideAddendOf(c);
        CoreCorrect(signProd, exp, sig, signC, c.exp, Significand(c) * 64);
      } else {
        ZeroMagnitude(c);
      }
    } else {
      ZeroProduct(a, b);
      if c.exp != 0 { OwnCut(c); }
    }
  }
}
