/**
 Choosing the widest XCR0 that a virtual processor accepts.
 */
module Xcr0 {
  import opened Bits
  import opened XsaveLayout
  import XsaveImage
  import opened HardwareState

  const X87_SSE: nat := 0x3
  const AVX: nat := 0x4
  const AVX512: nat := 0xE0
  const OPTIONAL: nat := 0x218

  /** The three AVX-512 components come together and with AVX, and the legacy state is on. */
  predicate Coherent(xcr0: nat) {
    && Bit(xcr0, 0) && Bit(xcr0, 1)
    && (Bit(xcr0, 5) <==> Bit(xcr0, 6)) && (Bit(xcr0, 6) <==> Bit(xcr0, 7))
    && (Bit(xcr0, 5) ==> Bit(xcr0, 2))
  }

  lemma MaskBits(k: nat)
    ensures Bit(X87_SSE, k) <==> k == 0 || k == 1
    ensures Bit(AVX, k) <==> k == 2
    ensures Bit(AVX512, k) <==> k == 5 || k == 6 || k == 7
  {
    assert Pow2(2) == 4 && Pow2(3) == 8 && Pow2(8) == 0x100;
    if k >= 2 { NoHighBit(X87_SSE, 2, k); }
    if k >= 3 { NoHighBit(AVX, 3, k); }
    if k >= 8 { NoHighBit(AVX512, 8, k); }
  }

  lemma Avx512Test(want: nat)
    ensures And(want, AVX512) == AVX512 <==> Bit(want, 5) && Bit(want, 6) && Bit(want, 7)
    ensures And(want, AVX) == 0 <==> !Bit(want, 2)
  {
    forall k: nat
      ensures Bit(And(want, AVX512), k) <==> Bit(want, k) && (k == 5 || k == 6 || k == 7)
      ensures Bit(And(want, AVX), k) <==> Bit(want, k) && k == 2
      ensures (Bit(AVX512, k) <==> k == 5 || k == 6 || k == 7) && !Bit(0, k)
    {
      AndBit(want, AVX512, k);
      AndBit(want, AVX, k);
      MaskBits(k);
      ZeroHasNoBits(k);
    }
    if Bit(want, 5) && Bit(want, 6) && Bit(want, 7) { BitExtensional(And(want, AVX512), AVX512); }
    if !Bit(want, 2) { BitExtensional(And(want, AVX), 0); }
  }

  /** The value asked for, from a candidate. */
  function Wanted(candidate: nat): nat {
    var want := Or(candidate, X87_SSE);
    if And(want, AVX512) != AVX512 || And(want, AVX) == 0 then AndNot(want, AVX512) else want
  }

  /** Whatever the candidate, what is asked for is coherent, and it is all of the candidate but AVX-512 components that
      are not whole. */
  lemma WantedCoherent(candidate: nat)
    ensures Coherent(Wanted(candidate))
    ensures forall k: nat :: Bit(Wanted(candidate), k) <==>
              k == 0 || k == 1
              || (Bit(candidate, k)
                  && (k == 5 || k == 6 || k == 7 ==>
                        Bit(candidate, 2) && Bit(candidate, 5) && Bit(candidate, 6) && Bit(candidate, 7)))
  {
    hide Bits.Or, Bits.And, Bits.AndNot, Bits.Bit;
    var want := Or(candidate, X87_SSE);
    Avx512Test(want);
    forall k: nat
      ensures Bit(want, k) <==> Bit(candidate, k) || k == 0 || k == 1
      ensures Bit(AndNot(want, AVX512), k) <==> Bit(want, k) && !(k == 5 || k == 6 || k == 7)
    {
      OrBit(candidate, X87_SSE, k);
      AndNotBit(want, AVX512, k);
      MaskBits(k);
    }
  }

  function Candidates(host: nat): seq<nat> {
    [host, AndNot(host, OPTIONAL), Or(Or(X87_SSE, AVX), And(host, AVX512)), Or(X87_SSE, And(host, AVX)), X87_SSE]
  }

  /** On a host with AVX each candidate asks for no component that an earlier one does not ask for. Only AVX itself,
      which the third adds, can make a difference: without it on the host the candidates do not descend. */
  lemma CandidatesDescend(host: nat)
    ensures (forall i, j, k: nat :: 0 <= i <= j < 5 && Bit(Wanted(Candidates(host)[j]), k)
                                    ==> Bit(Wanted(Candidates(host)[i]), k))
            <==> Bit(host, 2)
  {
    var cs := Candidates(host);
    forall i: nat, k: nat | i < 5
      ensures Bit(Wanted(cs[i]), k) <==>
                k == 0 || k == 1
                || (Bit(cs[i], k) && (5 <= k <= 7 ==> Bit(cs[i], 2) && Bit(cs[i], 5) && Bit(cs[i], 6) && Bit(cs[i], 7)))
    {
      WantedCoherent(cs[i]);
    }
    forall k: nat
      ensures Bit(cs[1], k) <==> Bit(host, k) && k != 3 && k != 4 && k != 9
      ensures Bit(cs[2], k) <==> k == 0 || k == 1 || k == 2 || (Bit(host, k) && 5 <= k <= 7)
      ensures Bit(cs[3], k) <==> k == 0 || k == 1 || (Bit(host, k) && k == 2)
      ensures Bit(cs[4], k) <==> k == 0 || k == 1
    {
      CandidateBits(host, k);
    }
    hide Wanted, Candidates, Bit;
    if Bit(host, 2) {
    } else {
      assert Bit(Wanted(cs[2]), 2) && !Bit(Wanted(cs[1]), 2);
    }
  }

  lemma CandidateBits(host: nat, k: nat)
    ensures var cs := Candidates(host);
            && (Bit(cs[1], k) <==> Bit(host, k) && k != 3 && k != 4 && k != 9)
            && (Bit(cs[2], k) <==> k == 0 || k == 1 || k == 2 || (Bit(host, k) && 5 <= k <= 7))
            && (Bit(cs[3], k) <==> k == 0 || k == 1 || (Bit(host, k) && k == 2))
            && (Bit(cs[4], k) <==> k == 0 || k == 1)
  {
    hide Bits.Or, Bits.And, Bits.AndNot, Bit;
    MaskBits(k);
    OptionalBits(k);
    AndNotBit(host, OPTIONAL, k);
    OrBit(X87_SSE, AVX, k);
    AndBit(host, AVX512, k);
    OrBit(Or(X87_SSE, AVX), And(host, AVX512), k);
    AndBit(host, AVX, k);
    OrBit(X87_SSE, And(host, AVX), k);
  }

  lemma OptionalBits(k: nat)
    ensures Bit(OPTIONAL, k) <==> k == 3 || k == 4 || k == 9
  {
    assert Pow2(10) == 0x400 by { Pow2Adds(5, 5); assert Pow2(5) == 32; }
    if k >= 10 { NoHighBit(OPTIONAL, 10, k); }
  }

  /** So on such a host, and if requests are read back as made, the first usable request has everything that any usable
      one has. */
  lemma Widest(host: nat, accepts: nat -> bool, readBack: nat -> nat)
    ensures Bit(host, 2) ==>
              forall i, j, k: nat :: 0 <= i <= j < 5 && Bit(Wanted(Candidates(host)[j]), k)
                                     ==> Bit(Wanted(Candidates(host)[i]), k)
    ensures forall c :: And(Wanted(c), X87_SSE) == X87_SSE
  {
    CandidatesDescend(host);
    forall c ensures And(Wanted(c), X87_SSE) == X87_SSE { LegacyOn(c); }
  }

  lemma LegacyOn(c: nat)
    ensures And(Wanted(c), X87_SSE) == X87_SSE
  {
    WantedCoherent(c);
    hide Wanted;
    forall k: nat ensures Bit(And(Wanted(c), X87_SSE), k) <==> Bit(X87_SSE, k) {
      AndBit(Wanted(c), X87_SSE, k);
      MaskBits(k);
    }
    BitExtensional(And(Wanted(c), X87_SSE), X87_SSE);
  }

  lemma LegacyCoherent()
    ensures Coherent(X87_SSE)
  {
    MaskBits(0);
    MaskBits(1);
    MaskBits(2);
    MaskBits(5);
    MaskBits(6);
    MaskBits(7);
  }

  /** `enable_widest_xcr0`. `accepts` and `readBack` are the hypervisor's answers. The result is the read-back of the
      first coherent request that is accepted and read back with the legacy state on; it is coherent itself if requests
      are read back as they were made. */
  method EnableWidestXcr0(host: nat, accepts: nat -> bool, readBack: nat -> nat) returns (xcr0: nat)
    ensures var usable := c => accepts(Wanted(c)) && And(readBack(Wanted(c)), X87_SSE) == X87_SSE;
            var cs := Candidates(host);
            (exists i :: 0 <= i < |cs| && usable(cs[i]) && (forall j :: 0 <= j < i ==> !usable(cs[j]))
                         && xcr0 == readBack(Wanted(cs[i])) && Coherent(Wanted(cs[i])))
            || (xcr0 == X87_SSE && forall i :: 0 <= i < |cs| ==> !usable(cs[i]))
    ensures (forall c :: c in Candidates(host) ==> readBack(Wanted(c)) == Wanted(c)) ==> Coherent(xcr0)
    ensures accepts(Wanted(host)) && And(readBack(Wanted(host)), X87_SSE) == X87_SSE ==> xcr0 == readBack(Wanted(host))
    ensures Bit(host, 2) && (forall c :: c in Candidates(host) ==> readBack(Wanted(c)) == Wanted(c)) ==>
              forall c, k: nat :: c in Candidates(host) && accepts(Wanted(c)) && Bit(Wanted(c), k) ==> Bit(xcr0, k)
  {
    LegacyCoherent();
    Widest(host, accepts, readBack);
    var candidates := Candidates(host);
    assert candidates[0] == host;
    for i := 0 to |candidates|
      invariant forall j :: 0 <= j < i ==>
                  !(accepts(Wanted(candidates[j])) && And(readBack(Wanted(candidates[j])), X87_SSE) == X87_SSE)
      invariant i > 0 ==> !(accepts(Wanted(host)) && And(readBack(Wanted(host)), X87_SSE) == X87_SSE)
    {
      var want := Or(candidates[i], X87_SSE);
      if And(want, AVX512) != AVX512 || And(want, AVX) == 0 { want := AndNot(want, AVX512); }
      if accepts(want) {
        var effective := readBack(want);
        if And(effective, X87_SSE) == X87_SSE {
          WantedCoherent(candidates[i]);
          return effective;
        }
      }
    }
    xcr0 := X87_SSE;
  }

  /** A component that is enabled is in the image's format and inside the image. */
  predicate Provided(cpuid: CpuidTable, xcr0: nat, xcompBv: nat, len: nat, i: nat) {
    Bit(xcr0, i) ==>
      var c := Where(cpuid, xcr0, xcompBv, i); c.Some? && c.value.offset + c.value.size <= len
  }

  /** A coherent XCR0 and an image with room for what it enables keep the promise about vector width. */
  lemma CoherentIsConsistent(cpuid: CpuidTable, xcr0: nat, xcompBv: nat, len: nat)
    requires Coherent(xcr0)
    requires Provided(cpuid, xcr0, xcompBv, len, YMM_HI) && Provided(cpuid, xcr0, xcompBv, len, ZMM_HI)
    requires Provided(cpuid, xcr0, xcompBv, len, ZMM_HI16)
    ensures Consistent(len, Probed(cpuid, xcr0, xcompBv))
    ensures forall s: CpuState, n: nat, i: nat :: WellFormed(s) && XsaveImage.Chunk(n, i) ==>
              var layout := Probed(cpuid, xcr0, xcompBv);
              Kept(len, layout, s, n, i) == Promised(layout, s, n, i)
  {
    hide Bits.Bit, CompactOffset, Kept, Promised;
    WidthPromise(len, Probed(cpuid, xcr0, xcompBv));
  }
}
