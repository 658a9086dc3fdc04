/**
 The bits of RFLAGS that belong to single-stepping rather than to the program under test, and are hidden from it.
 */
module Rflags {
  import opened Bits

  const FLAG_TF: nat := 0x100
  const FLAG_IF: nat := 0x200
  const FLAG_NT: nat := 0x4000
  const FLAG_RF: nat := 0x1_0000
  const FLAG_VM: nat := 0x2_0000

  /** RFLAGS as the interface reports it. */
  function Observed(rflags: nat): nat { AndNot(rflags, Or(FLAG_TF, FLAG_RF)) }

  lemma ObservedBits(rflags: nat, k: nat)
    ensures Bit(Observed(rflags), k) <==> Bit(rflags, k) && k != 8 && k != 16
  {
    AndNotBit(rflags, Or(FLAG_TF, FLAG_RF), k);
    OrBit(FLAG_TF, FLAG_RF, k);
    assert Pow2(8) == FLAG_TF && Pow2(16) == FLAG_RF by { WordSizes(); }
    Pow2Bit(8, k);
    Pow2Bit(16, k);
  }
}
