/**
 The register state of a hardware backend behind the portable interface: bulk load and snapshot, and how much of a
 snapshot survives.
 */
module HardwareState {
  import opened Bits
  import opened Bytes
  import opened Rflags
  import opened XsaveLayout
  import opened XsaveImage

  const GPRS: nat := 16
  const FLAG_FIXED: nat := 2

  /** `CpuState` */
  datatype CpuState = CpuState(gpr: seq<Word64>, rip: Word64, rflags: nat, zmm: seq<seq<Word64>>)

  predicate WellFormed(s: CpuState) {
    |s.gpr| == GPRS && |s.zmm| == ZMM_REGS && forall n :: 0 <= n < ZMM_REGS ==> |s.zmm[n]| == ZMM_CHUNKS
  }

  // ------------------------------------------------------------------------- the vector width contract

  /** `vector_width() / 64` */
  function VectorChunks(layout: Layout): nat {
    if layout.zmmHi.Some? then 8 else if layout.ymmHi.Some? then 4 else 2
  }

  function VectorRegs(layout: Layout): nat { if layout.zmmHi16.Some? then ZMM_REGS else 16 }

  /** RFLAGS as loaded: the trap and resume flags belong to single-stepping, bit 1 is always set. */
  function Loaded(rflags: nat): nat { Or(Observed(rflags), FLAG_FIXED) }

  function Kept(len: nat, layout: Layout, s: CpuState, n: nat, i: nat): Word64
    requires WellFormed(s) && Chunk(n, i)
  {
    if ChunkAt(len, layout, n, i).Some? then s.zmm[n][i] else 0
  }

  /** What a snapshot gives after `s` was loaded. */
  function Projected(len: nat, layout: Layout, s: CpuState): (p: CpuState)
    requires WellFormed(s)
    ensures WellFormed(p)
  {
    CpuState(s.gpr, s.rip, Observed(Loaded(s.rflags)),
             seq(ZMM_REGS, n requires 0 <= n < ZMM_REGS =>
                   seq(ZMM_CHUNKS, i requires 0 <= i < ZMM_CHUNKS => Kept(len, layout, s, n, i))))
  }

  lemma RflagsBits(rflags: nat, k: nat)
    ensures Bit(Observed(Loaded(rflags)), k) <==> (Bit(rflags, k) || k == 1) && k != 8 && k != 16
    ensures Bit(Observed(rflags), k) <==> Bit(rflags, k) && k != 8 && k != 16
  {
    ObservedBits(Loaded(rflags), k);
    ObservedBits(rflags, k);
    OrBit(Observed(rflags), FLAG_FIXED, k);
    assert Pow2(1) == FLAG_FIXED;
    Pow2Bit(1, k);
  }

  /** Loading a snapshot that was taken changes nothing more. */
  lemma ProjectedTwice(len: nat, layout: Layout, s: CpuState)
    requires WellFormed(s)
    ensures Projected(len, layout, Projected(len, layout, s)) == Projected(len, layout, s)
  {
    hide ChunkAt, Observed, Loaded;
    var p := Projected(len, layout, s);
    forall k: nat ensures Bit(Observed(Loaded(p.rflags)), k) <==> Bit(p.rflags, k) {
      RflagsBits(p.rflags, k);
      RflagsBits(s.rflags, k);
    }
    BitExtensional(Observed(Loaded(p.rflags)), p.rflags);
    var q := Projected(len, layout, p);
    forall n | 0 <= n < ZMM_REGS ensures q.zmm[n] == p.zmm[n] {}
    assert q.zmm == p.zmm;
  }

  /** The interface's promise about width: chunks beyond `vector_chunks` and registers beyond `vector_regs` read as
      zero, everything else is exact. */
  function Promised(layout: Layout, s: CpuState, n: nat, i: nat): Word64
    requires WellFormed(s) && Chunk(n, i)
  {
    if i < VectorChunks(layout) && n < VectorRegs(layout) then s.zmm[n][i] else 0
  }

  /** AVX-512 components come with the AVX one, registers 16 to 31 with the upper halves, and all of them fit. */
  predicate Consistent(len: nat, layout: Layout) {
    && (layout.ymmHi.Some? ==> Held(len, layout.ymmHi))
    && (layout.zmmHi.Some? ==> Held(len, layout.zmmHi) && layout.ymmHi.Some?)
    && (layout.zmmHi16.Some? ==> Held(len, layout.zmmHi16) && layout.zmmHi.Some?)
  }

  function AllOnes(): (s: CpuState)
    ensures WellFormed(s) && forall n: nat, i: nat :: Chunk(n, i) ==> s.zmm[n][i] == 1
  {
    CpuState(seq(GPRS, _ => 0), 0, 0, seq(ZMM_REGS, _ => seq(ZMM_CHUNKS, _ => 1)))
  }

  /** The promise is kept for every state exactly when the layout is consistent. */
  lemma WidthPromise(len: nat, layout: Layout)
    ensures Consistent(len, layout)
            <==> forall s: CpuState, n: nat, i: nat :: WellFormed(s) && Chunk(n, i) ==>
                   Kept(len, layout, s, n, i) == Promised(layout, s, n, i)
  {
    if Consistent(len, layout) {
      forall s: CpuState, n: nat, i: nat | WellFormed(s) && Chunk(n, i)
        ensures Kept(len, layout, s, n, i) == Promised(layout, s, n, i)
      {
      }
    } else {
      var s := AllOnes();
      var n, i := Offender(len, layout);
      assert WellFormed(s) && Chunk(n, i) && Kept(len, layout, s, n, i) != Promised(layout, s, n, i);
    }
  }

  lemma Offender(len: nat, layout: Layout) returns (n: nat, i: nat)
    requires !Consistent(len, layout)
    ensures Chunk(n, i) && ChunkAt(len, layout, n, i).Some? != (i < VectorChunks(layout) && n < VectorRegs(layout))
  {
    if (layout.ymmHi.Some? || layout.zmmHi.Some?) && !Held(len, layout.ymmHi) { n, i := 0, 2; }
    else if layout.zmmHi.Some? && !Held(len, layout.zmmHi) { n, i := 0, 4; }
    else if !Held(len, layout.zmmHi16) { n, i := 16, 0; }
    else { n, i := 16, 4; }
  }

  // ------------------------------------------------------------------------- the backend

  class HardwareOracle {
    const gpr: array<Word64>
    var rip: Word64
    var rflags: nat
    const image: array<Byte>
    const layout: Layout

    /** Nothing the image keeps for a component marked absent differs from that component's initial state. */
    ghost predicate Valid()
      reads gpr, image
    {
      gpr.Length == GPRS && Image(image[..]) && Sound(layout) && AbsentIsZero(image[..], layout)
    }

    /** What a snapshot shows. */
    ghost function State(): (s: CpuState)
      requires Valid()
      reads this, gpr, image
      ensures WellFormed(s)
    {
      CpuState(gpr[..], rip, Observed(rflags), Registers(image[..], layout))
    }

    /** Takes over an image the hypervisor produced, and resets its vectors. */
    constructor (image: array<Byte>, layout: Layout)
      requires Image(image[..]) && Sound(layout)
      modifies image
      ensures this.image == image && this.layout == layout && fresh(gpr) && Valid()
      ensures State() == CpuState(seq(GPRS, _ => 0), 0, FLAG_FIXED, seq(ZMM_REGS, _ => seq(ZMM_CHUNKS, _ => 0)))
    {
      this.image, this.layout := image, layout;
      gpr := new Word64[GPRS](_ => 0);
      rip, rflags := 0, FLAG_FIXED;
      new;
      ghost var m := image[..];
      ResetVectors(image, layout);
      ResetReadsZero(m, image[..], layout);
      ZeroRegisters(image[..], layout);
      assert Observed(FLAG_FIXED) == FLAG_FIXED by { FixedObserved(); }
      assert gpr[..] == seq(GPRS, _ => 0);
    }

    method SetGpr(n: nat, value: Word64)
      requires Valid() && n < GPRS
      modifies gpr
      ensures Valid() && gpr[..] == old(gpr[..])[n := value]
    {
      gpr[n] := value;
    }

    method SetRip(value: Word64)
      modifies `rip
      ensures rip == value
    {
      rip := value;
    }

    method SetRflags(value: nat)
      modifies `rflags
      ensures rflags == Loaded(value)
    {
      rflags := Or(AndNot(value, Or(FLAG_TF, FLAG_RF)), FLAG_FIXED);
    }

    /** Register `n` becomes `data` as far as the processor has it; the others stay. */
    method SetVector(n: nat, data: seq<Word64>)
      requires Valid() && n < ZMM_REGS
      modifies image
      ensures Valid() && Updated(old(image[..]), image[..], layout, n, data)
    {
      ghost var m := image[..];
      SetZmm(image, layout, n, data);
      UpdateKeepsAbsentZero(m, image[..], layout, n, data);
    }

    /** `snapshot`, which shows every register as the processor would load it, though it never looks at XSTATE_BV. */
    method Snapshot() returns (s: CpuState)
      requires Valid()
      ensures s == State() && WellFormed(s) && s.rip == rip && s.gpr == gpr[..] && s.rflags == Observed(rflags)
      ensures forall n: nat, i: nat :: Chunk(n, i) ==> s.zmm[n][i] == ArchitecturalValue(image[..], layout, n, i)
    {
      var zmm: seq<seq<Word64>> := [];
      for n := 0 to ZMM_REGS
        invariant |zmm| == n
        invariant forall k: nat :: k < n ==> zmm[k] == Register(image[..], layout, k)
      {
        var out := GetZmm(image, layout, n);
        assert out[..] == Register(image[..], layout, n);
        zmm := zmm + [out[..]];
      }
      assert zmm == Registers(image[..], layout);
      ReadsArchitectural(image[..], layout);
      s := CpuState(gpr[..], rip, AndNot(rflags, Or(FLAG_TF, FLAG_RF)), zmm);
    }

    /** `restore`: what a snapshot then shows is the projection of what was loaded. */
    method Restore(s: CpuState)
      requires Valid() && WellFormed(s)
      modifies this, gpr, image
      ensures Valid() && State() == Projected(image.Length, layout, s)
      ensures rip == s.rip && gpr[..] == s.gpr && rflags == Loaded(s.rflags)
    {
      for i := 0 to GPRS
        modifies gpr
        invariant Valid() && gpr[..i] == s.gpr[..i]
      {
        SetGpr(i, s.gpr[i]);
      }
      assert gpr[..] == s.gpr;
      SetRip(s.rip);
      SetRflags(s.rflags);
      for n := 0 to ZMM_REGS
        modifies image
        invariant Valid()
        invariant LoadedUpTo(image[..], layout, s, n)
      {
        ghost var m := image[..];
        SetVector(n, s.zmm[n]);
        LoadedOne(m, image[..], layout, s, n);
      }
      AllLoaded(image[..], layout, s);
    }
  }

  function Register(m: seq<Byte>, layout: Layout, n: nat): (r: seq<Word64>)
    requires Image(m) && Sound(layout) && n < ZMM_REGS
    ensures |r| == ZMM_CHUNKS
  {
    seq(ZMM_CHUNKS, i requires 0 <= i < ZMM_CHUNKS => ChunkValue(m, layout, n, i))
  }

  function Registers(m: seq<Byte>, layout: Layout): (r: seq<seq<Word64>>)
    requires Image(m) && Sound(layout)
    ensures |r| == ZMM_REGS && forall n :: 0 <= n < ZMM_REGS ==> r[n] == Register(m, layout, n)
  {
    seq(ZMM_REGS, n requires 0 <= n < ZMM_REGS => Register(m, layout, n))
  }

  lemma FixedObserved()
    ensures Observed(FLAG_FIXED) == FLAG_FIXED
  {
    forall k: nat ensures Bit(Observed(FLAG_FIXED), k) <==> Bit(FLAG_FIXED, k) {
      ObservedBits(FLAG_FIXED, k);
      assert Pow2(1) == FLAG_FIXED;
      Pow2Bit(1, k);
    }
    BitExtensional(Observed(FLAG_FIXED), FLAG_FIXED);
  }

  lemma ZeroRegisters(m: seq<Byte>, layout: Layout)
    requires Image(m) && Sound(layout)
    requires forall n: nat, i: nat :: Chunk(n, i) ==> ChunkValue(m, layout, n, i) == 0
    ensures Registers(m, layout) == seq(ZMM_REGS, _ => seq(ZMM_CHUNKS, _ => 0))
  {
    hide ChunkValue, Sound;
    forall n | 0 <= n < ZMM_REGS ensures Register(m, layout, n) == seq(ZMM_CHUNKS, _ => 0) {
      assert forall i: nat :: i < ZMM_CHUNKS ==> Chunk(n, i);
    }
  }

  /** Registers below `n` hold what was asked for. */
  ghost predicate LoadedUpTo(m: seq<Byte>, layout: Layout, s: CpuState, n: nat)
    requires Image(m) && Sound(layout) && WellFormed(s)
  {
    forall k: nat, i: nat :: k < n && Chunk(k, i) ==> ChunkValue(m, layout, k, i) == Kept(|m|, layout, s, k, i)
  }

  lemma LoadedOne(m: seq<Byte>, m': seq<Byte>, layout: Layout, s: CpuState, n: nat)
    requires WellFormed(s) && n < ZMM_REGS && Updated(m, m', layout, n, s.zmm[n]) && LoadedUpTo(m, layout, s, n)
    ensures LoadedUpTo(m', layout, s, n + 1)
  {
    hide ChunkAt, Sound, InChunks, Marked;
    forall k: nat, i: nat | k < n + 1 && Chunk(k, i)
      ensures ChunkValue(m', layout, k, i) == Kept(|m|, layout, s, k, i)
    {
    }
  }

  lemma AllLoaded(m: seq<Byte>, layout: Layout, s: CpuState)
    requires Image(m) && Sound(layout) && WellFormed(s) && LoadedUpTo(m, layout, s, ZMM_REGS)
    ensures Registers(m, layout) == Projected(|m|, layout, s).zmm
  {
    hide ChunkValue, ChunkAt, Sound;
    forall n: nat | n < ZMM_REGS ensures Registers(m, layout)[n] == Projected(|m|, layout, s).zmm[n] {
      forall i: nat | i < ZMM_CHUNKS ensures ChunkValue(m, layout, n, i) == Kept(|m|, layout, s, n, i) {
        assert Chunk(n, i);
      }
    }
  }

  /** Loading a state and taking a snapshot, on a processor whose layout is consistent: RIP and the sixteen registers
      come back; RFLAGS does but for bit 1, which is set, and the trap and resume flags, which are clear; and so does
      every chunk of a vector register as far as the interface says that the processor has it, the others being
      zero. */
  method RestoreThenSnapshot(o: HardwareOracle, s: CpuState) returns (t: CpuState)
    requires o.Valid() && WellFormed(s) && Consistent(o.image.Length, o.layout)
    modifies o, o.gpr, o.image
    ensures o.Valid() && WellFormed(t) && t.rip == s.rip && t.gpr == s.gpr
    ensures forall k: nat :: Bit(t.rflags, k) <==> (Bit(s.rflags, k) || k == 1) && k != 8 && k != 16
    ensures forall n: nat, i: nat :: n < ZMM_REGS && i < ZMM_CHUNKS ==>
              t.zmm[n][i] == if i < VectorChunks(o.layout) && n < VectorRegs(o.layout) then s.zmm[n][i] else 0
  {
    o.Restore(s);
    t := o.Snapshot();
    hide HardwareOracle.Valid, HardwareOracle.State, Loaded, Observed, Bits.Bit, ArchitecturalValue, ChunkAt;
    forall k: nat ensures Bit(t.rflags, k) <==> (Bit(s.rflags, k) || k == 1) && k != 8 && k != 16 {
      RflagsBits(s.rflags, k);
    }
    assert t == Projected(o.image.Length, o.layout, s);
    WidthPromise(o.image.Length, o.layout);
    forall n: nat, i: nat | n < ZMM_REGS && i < ZMM_CHUNKS
      ensures t.zmm[n][i] == if i < VectorChunks(o.layout) && n < VectorRegs(o.layout) then s.zmm[n][i] else 0
    {
      assert Chunk(n, i);
      assert Kept(o.image.Length, o.layout, s, n, i) == Promised(o.layout, s, n, i);
    }
  }
}
