/**
 The XOP vector shifts with a signed count per element: positive to the left, negative to the right, filling with the
 sign or with zeros.
 */
module XopShift {
  import opened Arith
  import opened Bits
  import opened Bytes

  const REGISTER: nat := 16

  /** Element sizes in bytes. */
  predicate ElementSize(w: nat) { w == 1 || w == 2 || w == 4 || w == 8 }

  /** A word of `bits` bits as a signed number. */
  function Signed(x: nat, bits: nat): int { if 2 * x >= Pow2(bits) then x - Pow2(bits) else x }

  /** A number cut to `bits` bits. */
  function Cut(x: int, bits: nat): nat { x % Pow2(bits) }

  /** One element as the helpers compute it, `count` being the signed low byte of the other operand's element. */
  function ShiftElement(x: nat, count: int, bits: nat, arithmetic: bool): nat {
    var v := if arithmetic then Signed(x, bits) else x;
    if count > 0 then
      if count < bits then Cut(v * Pow2(count), bits) else 0
    else if count < 0 then
      if -count < bits then Cut(v / Pow2(-count), bits)
      else if arithmetic && v < 0 then Cut(-1, bits) else 0
    else x
  }

  /** The same without a limit on the count: multiplication or floor division by a power of two, cut to the width. */
  function Scaled(v: int, count: int, bits: nat): nat {
    if count >= 0 then Cut(v * Pow2(count), bits) else Cut(v / Pow2(-count), bits)
  }

  /** For every count, also past the width, a shift is arithmetic on the exact value. */
  lemma ShiftIsScaling(x: nat, count: int, bits: nat, arithmetic: bool)
    requires bits >= 1 && x < Pow2(bits)
    ensures ShiftElement(x, count, bits, arithmetic)
            == Scaled(if arithmetic then Signed(x, bits) else x, count, bits)
  {
    var v := if arithmetic then Signed(x, bits) else x;
    if count >= bits {
      WholeMultiple(v, count, bits);
    } else if count == 0 {
      CutSigned(x, bits);
      assert v * Pow2(0) == v;
    } else if -count >= bits {
      Drained(x, -count, bits, arithmetic);
    }
  }

  lemma WholeMultiple(v: int, count: nat, bits: nat)
    requires count >= bits
    ensures Cut(v * Pow2(count), bits) == 0
  {
    hide Bits.Pow2;
    Pow2Adds(count - bits, bits);
    Associate(v, Pow2(count - bits), Pow2(bits));
    MultipleCut(v * Pow2(count - bits), Pow2(bits));
  }

  lemma MultipleCut(q: int, p: nat)
    requires p >= 1
    ensures q * p % p == 0
  {
    var r := q * p % p;
    SmallMultipleIsZero(q * p / p - q, p, 0 - r);
  }

  lemma CutSigned(x: nat, bits: nat)
    requires x < Pow2(bits)
    ensures Cut(Signed(x, bits), bits) == x && Cut(x, bits) == x
  {
    var p := Pow2(bits);
    RemainderUnique(x, p, 0, x);
    if 2 * x >= p { NegativeCut(x, p); }
  }

  lemma NegativeCut(x: nat, p: nat)
    requires 0 < x < p
    ensures (x - p) % p == x && (x - p) / p == -1
  {
    var q, r := (x - p) / p, (x - p) % p;
    assert x - p == q * p + r;
    SmallMultipleIsZero(q + 1, p, x - r);
  }

  /** A right shift by the width or more leaves the sign fill. */
  lemma Drained(x: nat, k: nat, bits: nat, arithmetic: bool)
    requires bits >= 1 && x < Pow2(bits) && k >= bits
    ensures var v := if arithmetic then Signed(x, bits) else x;
            v / Pow2(k) == if arithmetic && v < 0 then -1 else 0
    ensures Cut(0, bits) == 0
  {
    Pow2Monotone(bits, k);
    RemainderUnique(0, Pow2(bits), 0, 0);
    var v, p := if arithmetic then Signed(x, bits) else x, Pow2(k);
    if v >= 0 { RemainderUnique(v, p, 0, v); } else { NegativeCut(v + p, p); }
  }

  // ------------------------------------------------------------------------- the register

  /** Element `n` of a register. */
  function Element(register: seq<Byte>, w: nat, n: nat): nat
    requires |register| == REGISTER && ElementSize(w) && n * w + w <= REGISTER
  {
    Word(register[n * w..n * w + w])
  }

  /** The count for element `n`: the low byte of the element, signed. */
  function Count(register: seq<Byte>, w: nat, n: nat): int
    requires |register| == REGISTER && n * w < REGISTER
  {
    var b: int := register[n * w];
    if b >= 128 then b - 256 else b
  }

  /** It is the low eight bits of the element as a signed number. */
  lemma CountIsLowByte(register: seq<Byte>, w: nat, n: nat)
    requires |register| == REGISTER && ElementSize(w) && n * w + w <= REGISTER
    ensures Count(register, w, n) == Signed(Element(register, w, n) % 0x100, 8)
  {
    assert Pow2(8) == 0x100;
    LowByte(register[n * w..n * w + w]);
  }

  lemma LowByte(bytes: seq<Byte>)
    requires bytes != []
    ensures Word(bytes) % 0x100 == bytes[0]
  {
  }

  /** Elements below `n` are scaled by their counts, the others are as they were. */
  ghost predicate ShiftedUpTo(start: seq<Byte>, m: seq<Byte>, counts: seq<Byte>, w: nat, arithmetic: bool, n: nat)
    requires |start| == REGISTER == |m| == |counts| && ElementSize(w)
  {
    forall k: nat :: k < REGISTER / w ==>
      var x := (Fits(k, w); Element(start, w, k));
      Element(m, w, k)
      == if k < n then Scaled(if arithmetic then Signed(x, 8 * w) else x, Count(counts, w, k), 8 * w) else x
  }

  lemma ShiftedOne(start: seq<Byte>, m: seq<Byte>, counts: seq<Byte>, w: nat, arithmetic: bool, n: nat)
    requires |start| == REGISTER == |m| == |counts| && ElementSize(w) && n < REGISTER / w
    requires ShiftedUpTo(start, m, counts, w, arithmetic, n)
    ensures n * w + w <= REGISTER
    ensures var y := ShiftElement(Element(m, w, n), Count(counts, w, n), 8 * w, arithmetic);
            ShiftedUpTo(start, Splice(m, n * w, Le(y, w)), counts, w, arithmetic, n + 1)
  {
    Fits(n, w);
    hide Scaled, Count, Bits.Pow2, Word, Le, Signed, Element, ShiftElement, Splice;
    var x := Element(m, w, n);
    ElementBound(m, w, n);
    ShiftIsScaling(x, Count(counts, w, n), 8 * w, arithmetic);
    var y := ShiftElement(x, Count(counts, w, n), 8 * w, arithmetic);
    ShiftBound(x, Count(counts, w, n), 8 * w, arithmetic);
    forall k: nat | k < REGISTER / w
      ensures k * w + w <= REGISTER
      ensures Element(Splice(m, n * w, Le(y, w)), w, k) == if k == n then y else Element(m, w, k)
    {
      Fits(k, w);
      ElementAfter(m, w, n, y, k);
    }
  }

  lemma ShiftBound(x: nat, count: int, bits: nat, arithmetic: bool)
    requires x < Pow2(bits)
    ensures ShiftElement(x, count, bits, arithmetic) < Pow2(bits)
  {
    hide Bits.Pow2;
  }

  /** `xmm_psha*` and `xmm_pshl*` at the four widths: every element is scaled by its own count. */
  method Shift(op1: array<Byte>, op2: seq<Byte>, w: nat, arithmetic: bool)
    requires op1.Length == REGISTER == |op2| && ElementSize(w)
    modifies op1
    ensures ShiftedUpTo(old(op1[..]), op1[..], op2, w, arithmetic, REGISTER / w)
    ensures forall n: nat :: n < REGISTER / w ==>
              (Fits(n, w);
               var x, count := Element(old(op1[..]), w, n), Signed(Element(op2, w, n) % 0x100, 8);
               Element(op1[..], w, n) == Scaled(if arithmetic then Signed(x, 8 * w) else x, count, 8 * w))
  {
    ghost var start := op1[..];
    forall n: nat | n < REGISTER / w
      ensures n * w + w <= REGISTER && Count(op2, w, n) == Signed(Element(op2, w, n) % 0x100, 8)
    {
      Fits(n, w);
      CountIsLowByte(op2, w, n);
    }
    assert ShiftedUpTo(start, op1[..], op2, w, arithmetic, 0);
    for n := 0 to REGISTER / w
      invariant ShiftedUpTo(start, op1[..], op2, w, arithmetic, n)
    {
      Fits(n, w);
      hide ShiftedUpTo, Bits.Pow2, Le, Element, ShiftElement, Count;
      ShiftedOne(start, op1[..], op2, w, arithmetic, n);
      var y := ShiftElement(Element(op1[..], w, n), Count(op2, w, n), 8 * w, arithmetic);
      CopyBytes(op1, n * w, Le(y, w));
    }
  }

  lemma Fits(n: nat, w: nat)
    requires ElementSize(w) && n < REGISTER / w
    ensures n * w + w <= REGISTER
  {
  }

  lemma ElementBound(register: seq<Byte>, w: nat, n: nat)
    requires |register| == REGISTER && ElementSize(w) && n * w + w <= REGISTER
    ensures Element(register, w, n) < Pow2(8 * w)
  {
    WordBound(register[n * w..n * w + w]);
  }

  lemma ElementAfter(register: seq<Byte>, w: nat, n: nat, y: nat, k: nat)
    requires |register| == REGISTER && ElementSize(w) && y < Pow2(8 * w)
    requires n * w + w <= REGISTER && k * w + w <= REGISTER
    ensures Element(Splice(register, n * w, Le(y, w)), w, k) == if k == n then y else Element(register, w, k)
  {
    hide Le, Word, Bits.Pow2;
    var from, at := n * w, k * w;
    var r := Splice(register, from, Le(y, w));
    if k == n {
      assert r[at..at + w] == Le(y, w);
      WordOfLe(y, w);
    } else {
      Disjoint(k, n, w);
      assert r[at..at + w] == register[at..at + w];
    }
  }

  lemma Disjoint(k: nat, n: nat, w: nat)
    requires k != n
    ensures k * w + w <= n * w || n * w + w <= k * w
  {
    if k < n { TimesMonotone(w, k + 1, n); } else { TimesMonotone(w, n + 1, k); }
  }
}
