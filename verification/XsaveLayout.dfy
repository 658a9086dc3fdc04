/**
 Where the vector components lie in an XSAVE image, in either of the architecture's two formats (Intel SDM Vol. 1,
 section 13.4.3).
 */
module XsaveLayout {
  import opened Arith
  import opened Bits
  import opened Wrappers

  /** One subleaf of CPUID leaf 0Dh. */
  datatype Cpuid = Cpuid(eax: nat, ebx: nat, ecx: nat, edx: nat)

  /** The subleaves, as the guest sees them. */
  type CpuidTable = nat -> Cpuid

  datatype Component = Component(offset: nat, size: nat)

  const COMPACT_BASE: nat := 576
  const YMM_HI: nat := 2
  const ZMM_HI: nat := 6
  const ZMM_HI16: nat := 7

  // ------------------------------------------------------------------------- the architecture's layout

  /** Component `i` takes room in a compacted image. */
  predicate Holds(cpuid: CpuidTable, xcompBv: nat, i: nat) { Bit(xcompBv, i) && cpuid(i).eax != 0 }

  function AlignUp(a: nat, step: nat): nat
    requires step >= 1
  {
    (a + step - 1) / step * step
  }

  /** ECX[1] of a component asks for 64-byte alignment. */
  function Placed(cpuid: CpuidTable, i: nat, at: nat): nat {
    if Bit(cpuid(i).ecx, 1) then AlignUp(at, 64) else at
  }

  /** The first byte after the components below `i`. */
  function FreeAt(cpuid: CpuidTable, xcompBv: nat, i: nat): nat
    decreases i
  {
    if i <= 2 then COMPACT_BASE
    else if Holds(cpuid, xcompBv, i - 1) then
      Placed(cpuid, i - 1, FreeAt(cpuid, xcompBv, i - 1)) + cpuid(i - 1).eax
    else FreeAt(cpuid, xcompBv, i - 1)
  }

  function CompactOffset(cpuid: CpuidTable, xcompBv: nat, i: nat): nat {
    Placed(cpuid, i, FreeAt(cpuid, xcompBv, i))
  }

  /** Where the architecture puts component `i`, if the image has it. */
  function Where(cpuid: CpuidTable, xcr0: nat, xcompBv: nat, i: nat): Option<Component> {
    if !Bit(xcr0, i) || cpuid(i).eax == 0 then None
    else if !Bit(xcompBv, 63) then
      if cpuid(i).ebx != 0 then Some(Component(cpuid(i).ebx, cpuid(i).eax)) else None
    else if !Bit(xcompBv, i) then None
    else Some(Component(CompactOffset(cpuid, xcompBv, i), cpuid(i).eax))
  }

  lemma AlignedUp(a: nat, step: nat)
    requires step >= 1
    ensures a <= AlignUp(a, step) < a + step && AlignUp(a, step) % step == 0
  {
    var q := (a + step - 1) / step;
    Euclid(a + step - 1, step);
    RemainderUnique(q * step, step, q, 0);
  }

  lemma PlacedNoEarlier(cpuid: CpuidTable, i: nat, at: nat)
    ensures at <= Placed(cpuid, i, at) && (Bit(cpuid(i).ecx, 1) ==> Placed(cpuid, i, at) % 64 == 0)
  {
    AlignedUp(at, 64);
  }

  /** The free byte only moves up, and past each component on the way. */
  lemma {:induction false} FreeGrows(cpuid: CpuidTable, xcompBv: nat, i: nat, j: nat)
    requires 2 <= i < j
    ensures FreeAt(cpuid, xcompBv, i) <= FreeAt(cpuid, xcompBv, j)
    ensures Holds(cpuid, xcompBv, i) ==>
              CompactOffset(cpuid, xcompBv, i) + cpuid(i).eax <= FreeAt(cpuid, xcompBv, j)
    decreases j
  {
    hide Holds, Placed;
    PlacedNoEarlier(cpuid, j - 1, FreeAt(cpuid, xcompBv, j - 1));
    if i < j - 1 { FreeGrows(cpuid, xcompBv, i, j - 1); }
  }

  lemma FreeFromBase(cpuid: CpuidTable, xcompBv: nat, i: nat)
    requires 2 <= i
    ensures COMPACT_BASE <= FreeAt(cpuid, xcompBv, i)
  {
    if i > 2 { FreeGrows(cpuid, xcompBv, 2, i); }
  }

  /** Compacted components begin after the header, on a 64-byte boundary where that is asked for, and no two of them
      share a byte. */
  lemma CompactSound(cpuid: CpuidTable, xcompBv: nat, i: nat, j: nat)
    requires 2 <= i < j && Holds(cpuid, xcompBv, i) && Holds(cpuid, xcompBv, j)
    ensures COMPACT_BASE <= CompactOffset(cpuid, xcompBv, i)
    ensures CompactOffset(cpuid, xcompBv, i) + cpuid(i).eax <= CompactOffset(cpuid, xcompBv, j)
    ensures Bit(cpuid(i).ecx, 1) ==> CompactOffset(cpuid, xcompBv, i) % 64 == 0
    ensures Bit(cpuid(j).ecx, 1) ==> CompactOffset(cpuid, xcompBv, j) % 64 == 0
  {
    FreeFromBase(cpuid, xcompBv, i);
    FreeGrows(cpuid, xcompBv, i, j);
    PlacedNoEarlier(cpuid, i, FreeAt(cpuid, xcompBv, i));
    PlacedNoEarlier(cpuid, j, FreeAt(cpuid, xcompBv, j));
  }

  /** And they leave no room: each begins right behind the one before it, or at byte 576, rounded up to 64 if that is
      asked for. */
  lemma CompactTight(cpuid: CpuidTable, xcompBv: nat, i: nat, j: nat)
    requires 2 <= j && i < j && forall k :: i < k < j && 2 <= k ==> !Bit(xcompBv, k) || cpuid(k).eax == 0
    requires i < 2 || (Bit(xcompBv, i) && cpuid(i).eax != 0)
    ensures var end := if i < 2 then COMPACT_BASE else CompactOffset(cpuid, xcompBv, i) + cpuid(i).eax;
            var at := CompactOffset(cpuid, xcompBv, j);
            if Bit(cpuid(j).ecx, 1) then at % 64 == 0 && end <= at < end + 64 else at == end
  {
    hide Bits.Bit;
    var low := if i < 2 then 2 else i + 1;
    FreeSame(cpuid, xcompBv, low, j);
    AlignedUp(FreeAt(cpuid, xcompBv, j), 64);
  }

  lemma {:induction false} FreeSame(cpuid: CpuidTable, xcompBv: nat, i: nat, j: nat)
    requires 2 <= i <= j && forall k :: i <= k < j ==> !Holds(cpuid, xcompBv, k)
    ensures FreeAt(cpuid, xcompBv, j) == FreeAt(cpuid, xcompBv, i)
    decreases j
  {
    hide Holds;
    if i < j { FreeSame(cpuid, xcompBv, i, j - 1); }
  }

  // ------------------------------------------------------------------------- the search

  /** `(offset + 63) & !63` */
  lemma RoundUpMask(offset: nat)
    ensures AndNot(offset + 63, 63) == AlignUp(offset, 64)
  {
    hide Bits.AndNot, Bits.Bit, Bits.And;
    var a := offset + 63;
    assert Pow2(6) == 64;
    AndLowMask(a, 6);
    AndNotSplits(a, 63);
    Euclid(a, 64);
  }

  /** `XsaveLayout::locate`. The compacted offset is accumulated over the components present; the final `None` of the
      loop is never reached. */
  method Locate(cpuid: CpuidTable, xcr0: nat, xcompBv: nat, index: nat) returns (c: Option<Component>)
    requires 2 <= index < 63
    ensures c == Where(cpuid, xcr0, xcompBv, index)
    ensures c.Some? <==> Bit(xcr0, index) && cpuid(index).eax != 0
                         && if Bit(xcompBv, 63) then Bit(xcompBv, index) else cpuid(index).ebx != 0
    ensures c.Some? ==> c.value.size == cpuid(index).eax
    ensures c.Some? && !Bit(xcompBv, 63) ==> c.value.offset == cpuid(index).ebx
  {
    if !Bit(xcr0, index) { return None; }
    var leaf := cpuid(index);
    var size := leaf.eax;
    if size == 0 { return None; }
    if !Bit(xcompBv, 63) {
      var offset := leaf.ebx;
      return if offset != 0 then Some(Component(offset, size)) else None;
    }
    if !Bit(xcompBv, index) { return None; }
    var offset := COMPACT_BASE;
    var i := 2;
    while i <= index
      invariant 2 <= i <= index && offset == FreeAt(cpuid, xcompBv, i)
      decreases index - i
    {
      var l := cpuid(i);
      if Bit(xcompBv, i) && l.eax != 0 {
        if Bit(l.ecx, 1) {
          RoundUpMask(offset);
          offset := AndNot(offset + 63, 63);
        }
        if i == index { return Some(Component(offset, size)); }
        offset := offset + l.eax;
      }
      i := i + 1;
    }
    c := None;
  }

  // ------------------------------------------------------------------------- the three vector components

  datatype Layout = Layout(ymmHi: Option<Component>, zmmHi: Option<Component>, zmmHi16: Option<Component>)

  function Probed(cpuid: CpuidTable, xcr0: nat, xcompBv: nat): Layout {
    Layout(Where(cpuid, xcr0, xcompBv, YMM_HI), Where(cpuid, xcr0, xcompBv, ZMM_HI),
           Where(cpuid, xcr0, xcompBv, ZMM_HI16))
  }

  /** The sizes the architecture gives the vector components: sixteen times 16, 32 and 64 bytes. */
  predicate VectorSizes(cpuid: CpuidTable) {
    && (cpuid(YMM_HI).eax == 0 || cpuid(YMM_HI).eax >= 256)
    && (cpuid(ZMM_HI).eax == 0 || cpuid(ZMM_HI).eax >= 512)
    && (cpuid(ZMM_HI16).eax == 0 || cpuid(ZMM_HI16).eax >= 1024)
  }

  predicate Roomy(c: Option<Component>, size: nat) {
    c.Some? ==> c.value.offset >= COMPACT_BASE && c.value.size >= size
  }

  predicate Apart(c: Option<Component>, d: Option<Component>) {
    c.Some? && d.Some? ==>
      c.value.offset + c.value.size <= d.value.offset || d.value.offset + d.value.size <= c.value.offset
  }

  /** Components after the header, large enough for their registers, and pairwise disjoint. */
  predicate Sound(layout: Layout) {
    && Roomy(layout.ymmHi, 256) && Roomy(layout.zmmHi, 512) && Roomy(layout.zmmHi16, 1024)
    && Apart(layout.ymmHi, layout.zmmHi) && Apart(layout.ymmHi, layout.zmmHi16) && Apart(layout.zmmHi, layout.zmmHi16)
  }

  /** Whatever CPUID and XCOMP_BV say, a compacted layout is sound. */
  lemma CompactLayoutSound(cpuid: CpuidTable, xcr0: nat, xcompBv: nat)
    requires VectorSizes(cpuid) && Bit(xcompBv, 63)
    ensures Sound(Probed(cpuid, xcr0, xcompBv))
  {
    hide Bits.Bit, CompactOffset;
    CompactPair(cpuid, xcr0, xcompBv, YMM_HI, ZMM_HI);
    CompactPair(cpuid, xcr0, xcompBv, YMM_HI, ZMM_HI16);
    CompactPair(cpuid, xcr0, xcompBv, ZMM_HI, ZMM_HI16);
  }

  lemma CompactPair(cpuid: CpuidTable, xcr0: nat, xcompBv: nat, i: nat, j: nat)
    requires 2 <= i < j && Bit(xcompBv, 63)
    ensures Roomy(Where(cpuid, xcr0, xcompBv, i), cpuid(i).eax) && Roomy(Where(cpuid, xcr0, xcompBv, j), cpuid(j).eax)
    ensures Apart(Where(cpuid, xcr0, xcompBv, i), Where(cpuid, xcr0, xcompBv, j))
  {
    hide Bits.Bit;
    FreeFromBase(cpuid, xcompBv, i);
    FreeFromBase(cpuid, xcompBv, j);
    PlacedNoEarlier(cpuid, i, FreeAt(cpuid, xcompBv, i));
    PlacedNoEarlier(cpuid, j, FreeAt(cpuid, xcompBv, j));
    if Holds(cpuid, xcompBv, i) && Holds(cpuid, xcompBv, j) { CompactSound(cpuid, xcompBv, i, j); }
  }
}
