/**
 The bitwise operators of the source on unbounded naturals, and their laws.

 A word of any width is a natural below `Pow2(width)`. The operators are defined bit by bit, from the
 least significant end, so that each of them is characterised by `Bit` alone.
 */
module Bits {
  import opened Arith

  function Pow2(n: nat): (p: nat)
    ensures p >= 1
  {
    if n == 0 then 1 else 2 * Pow2(n - 1)
  }

  /** Bit `k` of `a`. */
  predicate Bit(a: nat, k: nat) {
    if k == 0 then a % 2 == 1 else Bit(a / 2, k - 1)
  }

  function And(a: nat, b: nat): nat {
    if a == 0 || b == 0 then 0
    else 2 * And(a / 2, b / 2) + if a % 2 == 1 && b % 2 == 1 then 1 else 0
  }

  function Or(a: nat, b: nat): nat
    decreases a + b
  {
    if a == 0 then b else if b == 0 then a
    else 2 * Or(a / 2, b / 2) + if a % 2 == 1 || b % 2 == 1 then 1 else 0
  }

  function Xor(a: nat, b: nat): nat
    decreases a + b
  {
    if a == 0 then b else if b == 0 then a
    else 2 * Xor(a / 2, b / 2) + if a % 2 != b % 2 then 1 else 0
  }

  /** `a & ~b`. */
  function AndNot(a: nat, b: nat): nat {
    if a == 0 then 0 else 2 * AndNot(a / 2, b / 2) + if a % 2 == 1 && b % 2 == 0 then 1 else 0
  }

  // ---------------------------------------------------------------- the operators, bit by bit

  lemma {:induction false} AndNotBit(a: nat, b: nat, k: nat)
    ensures Bit(AndNot(a, b), k) <==> Bit(a, k) && !Bit(b, k)
    decreases k
  {
    ZeroHasNoBits(k);
    if a != 0 && k > 0 {
      AndNotBit(a / 2, b / 2, k - 1);
    }
  }

  lemma {:induction false} ZeroHasNoBits(k: nat)
    ensures !Bit(0, k)
  {
    if k > 0 { ZeroHasNoBits(k - 1); }
  }

  lemma {:induction false} AndBit(a: nat, b: nat, k: nat)
    ensures Bit(And(a, b), k) <==> Bit(a, k) && Bit(b, k)
    decreases k
  {
    ZeroHasNoBits(k);
    if a != 0 && b != 0 && k > 0 {
      AndBit(a / 2, b / 2, k - 1);
    }
  }

  lemma {:induction false} OrBit(a: nat, b: nat, k: nat)
    ensures Bit(Or(a, b), k) <==> Bit(a, k) || Bit(b, k)
    decreases k
  {
    ZeroHasNoBits(k);
    if a != 0 && b != 0 && k > 0 {
      OrBit(a / 2, b / 2, k - 1);
    }
  }

  lemma {:induction false} XorBit(a: nat, b: nat, k: nat)
    ensures Bit(Xor(a, b), k) <==> Bit(a, k) != Bit(b, k)
    decreases k
  {
    ZeroHasNoBits(k);
    if a != 0 && b != 0 && k > 0 {
      XorBit(a / 2, b / 2, k - 1);
    }
  }

  /** A natural is determined by its bits. */
  lemma {:induction false} BitExtensional(a: nat, b: nat)
    requires forall k: nat :: Bit(a, k) <==> Bit(b, k)
    ensures a == b
    decreases a + b
  {
    assert Bit(a, 0) <==> Bit(b, 0);
    if a != 0 || b != 0 {
      forall k: nat ensures Bit(a / 2, k) <==> Bit(b / 2, k) {
        assert Bit(a, k + 1) <==> Bit(b, k + 1);
      }
      BitExtensional(a / 2, b / 2);
    }
  }

  lemma {:induction false} Pow2Bit(n: nat, k: nat)
    ensures Bit(Pow2(n), k) <==> n == k
  {
    if k > 0 && n > 0 {
      Pow2Bit(n - 1, k - 1);
    } else if k > 0 {
      ZeroHasNoBits(k - 1);
    }
  }

  // ---------------------------------------------------------------- bits and magnitude

  /** A set bit is worth its power of two. */
  lemma {:induction false} BitLowerBound(a: nat, k: nat)
    requires Bit(a, k)
    ensures Pow2(k) <= a
  {
    if k > 0 { BitLowerBound(a / 2, k - 1); }
  }

  /** Below a power of two there is no bit at or above its exponent. */
  lemma {:induction false} NoHighBit(a: nat, n: nat, k: nat)
    requires a < Pow2(n) && n <= k
    ensures !Bit(a, k)
  {
    if n == 0 {
      ZeroHasNoBits(k);
    } else {
      NoHighBit(a / 2, n - 1, k - 1);
    }
  }

  /** A natural at or above a power of two has a bit at or above its exponent. */
  lemma {:induction false} HighBitExists(a: nat, n: nat) returns (k: nat)
    requires Pow2(n) <= a
    ensures n <= k && Bit(a, k)
    decreases a
  {
    if a == 1 {
      k := 0;
    } else {
      var m := HighBitExists(a / 2, if n == 0 then 0 else n - 1);
      k := m + 1;
    }
  }

  lemma {:induction false} Pow2Monotone(m: nat, n: nat)
    requires m <= n
    ensures Pow2(m) <= Pow2(n)
  {
    if m < n { Pow2Monotone(m, n - 1); }
  }

  lemma {:induction false} Pow2Adds(m: nat, n: nat)
    ensures Pow2(m + n) == Pow2(m) * Pow2(n)
  {
    if m > 0 {
      Pow2Adds(m - 1, n);
      assert Pow2(m + n) == 2 * Pow2(m - 1 + n);
    }
  }

  /** The word sizes the source uses. */
  lemma WordSizes()
    ensures Pow2(8) == 0x100 && Pow2(12) == 0x1000 && Pow2(16) == 0x1_0000
    ensures Pow2(32) == 0x1_0000_0000 && Pow2(40) == 0x100_0000_0000 && Pow2(48) == 0x1_0000_0000_0000
    ensures Pow2(56) == 0x100_0000_0000_0000 && Pow2(64) == 0x1_0000_0000_0000_0000
  {
    assert Pow2(4) == 0x10 && Pow2(8) == 0x100;
    hide Pow2;
    Pow2Adds(8, 4);
    Pow2Adds(8, 8);
    Pow2Adds(16, 16);
    Pow2Adds(32, 8);
    Pow2Adds(32, 16);
    Pow2Adds(40, 16);
    Pow2Adds(32, 32);
  }

  // ---------------------------------------------------------------- words and fields

  /** Shifting left by `n` moves every bit up by `n`. */
  lemma {:induction false} ShiftLeftBit(a: nat, n: nat, k: nat)
    ensures Bit(a * Pow2(n), k) <==> k >= n && Bit(a, k - n)
  {
    if n > 0 {
      var half := a * Pow2(n - 1);
      assert a * Pow2(n) == 2 * half;
      if k > 0 {
        ShiftLeftBit(a, n - 1, k - 1);
        assert (2 * half) / 2 == half;
      }
    }
  }

  /** A mask of `n` low ones is the remainder modulo `Pow2(n)`. */
  lemma {:induction false} AndLowMask(a: nat, n: nat)
    ensures And(a, Pow2(n) - 1) == a % Pow2(n)
  {
    if n == 0 {
      assert And(a, 0) == 0;
    } else if a != 0 {
      var p := Pow2(n - 1);
      assert Pow2(n) - 1 == 2 * (p - 1) + 1;
      assert (Pow2(n) - 1) / 2 == p - 1;
      AndLowMask(a / 2, n - 1);
      HalveRemainder(a, p);
    }
  }

  /** Joining a low field with a high field shifted clear of it is addition. */
  lemma {:induction false} OrFields(low: nat, high: nat, n: nat)
    requires low < Pow2(n)
    ensures Or(low, high * Pow2(n)) == low + high * Pow2(n)
  {
    if n == 0 {
    } else {
      var half := high * Pow2(n - 1);
      assert high * Pow2(n) == 2 * half;
      OrFields(low / 2, high, n - 1);
      assert (2 * half) / 2 == half;
    }
  }

  lemma {:induction false} OrCommutes(a: nat, b: nat)
    ensures Or(a, b) == Or(b, a)
    decreases a + b
  {
    if a != 0 && b != 0 { OrCommutes(a / 2, b / 2); }
  }

  lemma OrAssociates(a: nat, b: nat, c: nat)
    ensures Or(Or(a, b), c) == Or(a, Or(b, c))
  {
    forall k: nat ensures Bit(Or(Or(a, b), c), k) <==> Bit(Or(a, Or(b, c)), k) {
      OrBit(Or(a, b), c, k);
      OrBit(a, b, k);
      OrBit(a, Or(b, c), k);
      OrBit(b, c, k);
    }
    BitExtensional(Or(Or(a, b), c), Or(a, Or(b, c)));
  }

  /** Setting `n` low ones rounds up to the end of an aligned block. */
  lemma OrLowMask(a: nat, n: nat)
    ensures Or(a, Pow2(n) - 1) == a / Pow2(n) * Pow2(n) + (Pow2(n) - 1)
    ensures AndNot(a, Pow2(n) - 1) == a / Pow2(n) * Pow2(n)
  {
    var p := Pow2(n);
    Euclid(a, p);
    AndLowMask(a, n);
    OrAndNot(a, p - 1);
    AndNotSplits(a, p - 1);
    OrFlags(a / p, n, p - 1);
  }

  /** `a | b` is `(a & ~b) | b`. */
  lemma {:induction false} OrAndNot(a: nat, b: nat)
    ensures Or(a, b) == Or(AndNot(a, b), b)
  {
    forall k: nat ensures Bit(Or(a, b), k) <==> Bit(Or(AndNot(a, b), b), k) {
      OrBit(a, b, k);
      AndNotBit(a, b, k);
      OrBit(AndNot(a, b), b, k);
    }
    BitExtensional(Or(a, b), Or(AndNot(a, b), b));
  }

  lemma {:induction false} AndNotSplits(a: nat, b: nat)
    ensures AndNot(a, b) + And(a, b) == a
  {
    if a != 0 && b != 0 { AndNotSplits(a / 2, b / 2); }
    else { AndNotZero(a); }
  }

  lemma {:induction false} AndNotZero(a: nat)
    ensures AndNot(a, 0) == a
  {
    if a != 0 { AndNotZero(a / 2); }
  }

  lemma OrBound(a: nat, b: nat, n: nat)
    requires a < Pow2(n) && b < Pow2(n)
    ensures Or(a, b) < Pow2(n)
  {
    hide Or, Bit;
    if Or(a, b) >= Pow2(n) {
      var k := HighBitExists(Or(a, b), n);
      OrBit(a, b, k);
      NoHighBit(a, n, k);
      NoHighBit(b, n, k);
    }
  }

  /** Flags below an aligned address. */
  lemma OrFlags(high: nat, n: nat, flags: nat)
    requires flags < Pow2(n)
    ensures Or(high * Pow2(n), flags) == high * Pow2(n) + flags
  {
    OrCommutes(high * Pow2(n), flags);
    OrFields(flags, high, n);
  }

  /** An exclusive or with a value below `Pow2(n)` keeps every bit from `n` up. */
  lemma {:induction false} XorKeepsHigh(a: nat, b: nat, n: nat)
    requires b < Pow2(n)
    ensures Xor(a, b) / Pow2(n) == a / Pow2(n)
  {
    if n > 0 {
      XorKeepsHigh(a / 2, b / 2, n - 1);
      var p := Pow2(n - 1);
      DivideTwice(a, p);
      DivideTwice(Xor(a, b), p);
      assert Xor(a, b) / 2 == Xor(a / 2, b / 2);
    } else {
      assert b == 0;
    }
  }
}
