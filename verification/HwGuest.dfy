/**
 The guest that both hardware backends run: page tables, descriptor tables and fault stubs at the top of a flat RAM,
 and the undoing of an exception that went through them.
 */
module HwGuest {
  import opened Arith
  import opened Bits
  import opened Bytes
  import opened GuestRam
  import opened LongMode
  import opened Wrappers

  const RAM_SIZE: nat := 0x1000_0000
  const CTRL_BASE: nat := 0xFC0_0000
  const PML4_ADDR: nat := CTRL_BASE
  const PDPT_ADDR: nat := CTRL_BASE + 0x1000
  const PD_ADDR: nat := CTRL_BASE + 0x2000
  const GDT_ADDR: nat := CTRL_BASE + 0x3000
  const IDT_ADDR: nat := CTRL_BASE + 0x4000
  const STUB_BASE: nat := CTRL_BASE + 0x5000
  const STUB_STRIDE: nat := 16
  const STUB_AREA: nat := 256 * STUB_STRIDE
  const TSS_ADDR: nat := CTRL_BASE + 0x6000
  const TSS_LIMIT: nat := 0x67
  const CTRL_END: nat := CTRL_BASE + 0x7000
  const IST_STACK_TOP: nat := CTRL_BASE + 0x8000
  const GDT_LIMIT: nat := 0x27
  const IDT_LIMIT: nat := 0xFFF
  const SEL_CODE64: nat := 8
  const SEL_TSS: nat := 0x18
  const HLT: Byte := 0xF4

  const PTE_P: nat := 1
  const PTE_W: nat := 2
  const PTE_PS: nat := 0x80

  /** The system registers both backends load. */
  const SYSTEM: System := System(PML4_ADDR, GDT_ADDR, GDT_LIMIT, IDT_ADDR, IDT_LIMIT, TSS_ADDR, TSS_LIMIT)

  // ------------------------------------------------------------------------- the words written

  function StubAddress(vector: nat): nat { STUB_BASE + vector * STUB_STRIDE }

  /** The low word of a gate: interrupt gate, level 0, interrupt stack 1. */
  function GateWord(target: nat): nat {
    Or(Or(Or(Or(And(target, 0xFFFF), SEL_CODE64 * 0x1_0000), 1 * 0x1_0000_0000), 0x8E * 0x100_0000_0000),
       And(target / 0x1_0000, 0xFFFF) * 0x1_0000_0000_0000)
  }

  /** The low word of a TSS descriptor: type 9, present. */
  function TssWord(base: nat, limit: nat): nat {
    Or(Or(Or(Or(And(limit, 0xFFFF), And(base, 0xFFFF) * 0x1_0000), And(base / 0x1_0000, 0xFF) * 0x1_0000_0000),
          0x89 * 0x100_0000_0000),
       And(base / 0x100_0000, 0xFF) * 0x100_0000_0000_0000)
  }

  lemma Mask(a: nat)
    ensures And(a, 0xFFFF) == a % 0x1_0000 && And(a, 0xFF) == a % 0x100
  {
    hide Bits.And;
    WordSizes();
    AndLowMask(a, 16);
    AndLowMask(a, 8);
  }

  /** Five fields joined by `|` lie side by side; the last starts at bit 48 or 56. */
  lemma Joined(f0: nat, f1: nat, f2: nat, f3: nat, f4: nat, last: nat)
    requires f0 < 0x1_0000 && f1 < 0x1_0000 && f2 < 0x100 && f3 < 0x100
    requires last == 0x1_0000_0000_0000 || last == 0x100_0000_0000_0000
    ensures Or(Or(Or(Or(f0, f1 * 0x1_0000), f2 * 0x1_0000_0000), f3 * 0x100_0000_0000), f4 * last)
            == f0 + f1 * 0x1_0000 + f2 * 0x1_0000_0000 + f3 * 0x100_0000_0000 + f4 * last
  {
    hide Bits.Pow2, Bits.Or;
    WordSizes();
    OrFields(f0, f1, 16);
    OrFields(f0 + f1 * 0x1_0000, f2, 32);
    OrFields(f0 + f1 * 0x1_0000 + f2 * 0x1_0000_0000, f3, 40);
    OrFields(f0 + f1 * 0x1_0000 + f2 * 0x1_0000_0000 + f3 * 0x100_0000_0000, f4,
             if last == 0x1_0000_0000_0000 then 48 else 56);
  }

  /** Every target survives the split across a gate's fields, and the other fields are as intended. */
  lemma GateRoundTrip(target: nat)
    requires target < ADDRESS_LIMIT
    ensures GateWord(target) < ADDRESS_LIMIT
    ensures DecodeGate(GateWord(target), target / 0x1_0000_0000) == Gate(target, SEL_CODE64, 1, GATE_INTERRUPT, 0, true)
  {
    hide Bits.Pow2, Bits.Or, Bits.And;
    Mask(target);
    Mask(target / 0x1_0000);
    var f0, f4 := target % 0x1_0000, target / 0x1_0000 % 0x1_0000;
    Joined(f0, SEL_CODE64, 1, 0x8E, f4, 0x1_0000_0000_0000);
    GateFields(f0, f4, GateWord(target));
    SplitTarget(target);
  }

  lemma GateFields(f0: nat, f4: nat, low: nat)
    requires f0 < 0x1_0000 && f4 < 0x1_0000
    requires low == f0 + 8 * 0x1_0000 + 1 * 0x1_0000_0000 + 0x8E * 0x100_0000_0000 + f4 * 0x1_0000_0000_0000
    ensures low < ADDRESS_LIMIT && low % 0x1_0000 == f0 && low / 0x1_0000_0000_0000 % 0x1_0000 == f4
    ensures low / 0x1_0000 % 0x1_0000 == 8 && low / 0x1_0000_0000 % 8 == 1 && low / 0x100_0000_0000 % 16 == 14
    ensures low / 0x2000_0000_0000 % 4 == 0 && low / 0x8000_0000_0000 % 2 == 1
  {
    var b16 := f0 + 8 * 0x1_0000;
    var b32 := b16 + 0x1_0000_0000;
    RemainderUnique(low, 0x1_0000, 8 + 0x1_0000 + 0x8E * 0x100_0000 + f4 * 0x1_0000_0000, f0);
    Field(f0, 8, 1 + 0x8E * 0x100 + f4 * 0x1_0000, 0x1_0000, 0x1_0000);
    Field(b16, 1, 0x8E * 0x20 + f4 * 0x2000, 0x1_0000_0000, 8);
    Field(b32, 14, 8 + f4 * 16, 0x100_0000_0000, 16);
    Field(b32 + 14 * 0x100_0000_0000, 0, 1 + f4 * 2, 0x2000_0000_0000, 4);
    Field(b32 + 14 * 0x100_0000_0000, 1, f4, 0x8000_0000_0000, 2);
    Field(b32 + 0x8E * 0x100_0000_0000, f4, 0, 0x1_0000_0000_0000, 0x1_0000);
  }

  lemma SplitTarget(t: nat)
    requires t < ADDRESS_LIMIT
    ensures t % 0x1_0000 + t / 0x1_0000 % 0x1_0000 * 0x1_0000 + t / 0x1_0000_0000 % 0x1_0000_0000 * 0x1_0000_0000 == t
  {
    assert t / 0x1_0000_0000 == t / 0x1_0000 / 0x1_0000;
  }

  /** Every base survives the split across a TSS descriptor's fields. */
  lemma TssRoundTrip(base: nat, limit: nat)
    requires base < ADDRESS_LIMIT && limit < 0x1_0000
    ensures TssWord(base, limit) < ADDRESS_LIMIT
    ensures DecodeSystem(TssWord(base, limit), base / 0x1_0000_0000) == SystemSegment(base, limit, 9, true)
  {
    hide Bits.Pow2, Bits.Or, Bits.And;
    Mask(limit);
    Mask(base);
    Mask(base / 0x1_0000);
    Mask(base / 0x100_0000);
    var f1, f2, f4 := base % 0x1_0000, base / 0x1_0000 % 0x100, base / 0x100_0000 % 0x100;
    Joined(limit, f1, f2, 0x89, f4, 0x100_0000_0000_0000);
    TssFields(limit, f1, f2, f4, TssWord(base, limit));
    SplitBase(base);
  }

  lemma TssFields(f0: nat, f1: nat, f2: nat, f4: nat, low: nat)
    requires f0 < 0x1_0000 && f1 < 0x1_0000 && f2 < 0x100 && f4 < 0x100
    requires low == f0 + f1 * 0x1_0000 + f2 * 0x1_0000_0000 + 0x89 * 0x100_0000_0000 + f4 * 0x100_0000_0000_0000
    ensures low < ADDRESS_LIMIT && low % 0x1_0000 == f0 && low / 0x1_0000_0000_0000 % 16 == 0
    ensures low / 0x1_0000 % 0x100_0000 == f1 + f2 * 0x1_0000 && low / 0x100_0000_0000_0000 % 0x100 == f4
    ensures low / 0x100_0000_0000 % 16 == 9 && low / 0x8000_0000_0000 % 2 == 1
  {
    var b32 := f0 + f1 * 0x1_0000 + f2 * 0x1_0000_0000;
    RemainderUnique(low, 0x1_0000, f1 + f2 * 0x1_0000 + 0x89 * 0x100_0000 + f4 * 0x100_0000_0000, f0);
    Field(f0, f1 + f2 * 0x1_0000, 0x89 + f4 * 0x1_0000, 0x1_0000, 0x100_0000);
    Field(b32, 9, 8 + f4 * 0x1000, 0x100_0000_0000, 16);
    Field(b32 + 9 * 0x100_0000_0000, 1, f4 * 0x100, 0x8000_0000_0000, 2);
    Field(b32 + 0x89 * 0x100_0000_0000, 0, f4 * 0x10, 0x1_0000_0000_0000, 16);
    Field(b32 + 0x89 * 0x100_0000_0000, f4, 0, 0x100_0000_0000_0000, 0x100);
  }

  lemma SplitBase(b: nat)
    requires b < ADDRESS_LIMIT
    ensures b % 0x1_0000 + b / 0x1_0000 % 0x100 * 0x1_0000 + b / 0x100_0000 % 0x100 * 0x100_0000
            + b / 0x1_0000_0000 % 0x1_0000_0000 * 0x1_0000_0000 == b
  {
    assert b / 0x100_0000 == b / 0x1_0000 / 0x100 && b / 0x1_0000_0000 == b / 0x100_0000 / 0x100;
  }

  // ------------------------------------------------------------------------- the structures as built

  predicate Sized(m: seq<Byte>) { |m| == RAM_SIZE }

  /** Entry `i` of a table of 64-bit entries. */
  function Slot(m: seq<Byte>, table: nat, i: nat): (w: nat)
    requires Sized(m) && table + 8 * i + 8 <= RAM_SIZE
    ensures w < ADDRESS_LIMIT
  {
    Word64At(m, table + 8 * i)
  }

  /** The two halves of a vector's gate. */
  function GateLow(m: seq<Byte>, vector: nat): nat
    requires Sized(m) && vector < 256
  {
    Word64At(m, IDT_ADDR + vector * 16)
  }

  function GateHigh(m: seq<Byte>, vector: nat): nat
    requires Sized(m) && vector < 256
  {
    Word64At(m, IDT_ADDR + vector * 16 + 8)
  }

  /** A leaf for the 2 MiB frame `i`: present, writable, supervisor, large. */
  function LeafWord(i: nat): nat { i * PAGE_2M + 0x83 }

  ghost predicate Tables(m: seq<Byte>) {
    && Sized(m)
    && Slot(m, PML4_ADDR, 0) == PDPT_ADDR + 3
    && Slot(m, PDPT_ADDR, 0) == PD_ADDR + 3
    && (forall i: nat :: i < 128 ==> Slot(m, PD_ADDR, i) == LeafWord(i))
  }

  /** Nothing else is present in the three tables. */
  ghost predicate NothingElse(m: seq<Byte>) {
    && Sized(m)
    && (forall i: nat :: 1 <= i < 512 ==> Slot(m, PML4_ADDR, i) == 0)
    && (forall i: nat :: 1 <= i < 512 ==> Slot(m, PDPT_ADDR, i) == 0)
    && (forall i: nat :: 128 <= i < 512 ==> Slot(m, PD_ADDR, i) == 0)
  }

  ghost predicate Gdt(m: seq<Byte>) {
    && Sized(m)
    && Slot(m, GDT_ADDR, 0) == 0
    && Slot(m, GDT_ADDR, 1) == 0x00AF_9B00_0000_FFFF
    && Slot(m, GDT_ADDR, 2) == 0x00CF_9300_0000_FFFF
    && Slot(m, GDT_ADDR, 3) == TssWord(TSS_ADDR, TSS_LIMIT)
    && Slot(m, GDT_ADDR, 4) == TSS_ADDR / 0x1_0000_0000
  }

  ghost predicate Tss(m: seq<Byte>) {
    && Sized(m)
    && Word64At(m, TSS_ADDR + 0x24) == IST_STACK_TOP
    && (forall a :: TSS_ADDR <= a <= TSS_ADDR + TSS_LIMIT && !(0x24 <= a - TSS_ADDR < 0x2C) ==> m[a] == 0)
  }

  ghost predicate Idt(m: seq<Byte>, n: nat)
    requires n <= 256
  {
    && Sized(m)
    && (forall v: nat :: v < n ==> GateLow(m, v) == GateWord(StubAddress(v)))
    && (forall v: nat :: v < n ==> GateHigh(m, v) == StubAddress(v) / 0x1_0000_0000)
  }

  ghost predicate Stubs(m: seq<Byte>) {
    && Sized(m)
    && (forall v: nat :: v < 256 ==> StubAddress(v) < RAM_SIZE && m[StubAddress(v)] == HLT)
  }

  /** The guest's control structures are in place. */
  ghost predicate Guest(m: seq<Byte>) {
    Tables(m) && NothingElse(m) && Gdt(m) && Tss(m) && Idt(m, 256) && Stubs(m)
  }

  ghost predicate AgreeOn(m: seq<Byte>, m': seq<Byte>, lo: nat, hi: nat) {
    |m| == |m'| && hi <= |m| && forall a :: lo <= a < hi ==> m[a] == m'[a]
  }

  ghost predicate AgreeOutside(m: seq<Byte>, m': seq<Byte>, lo: nat, hi: nat) {
    |m| == |m'| && forall a :: 0 <= a < |m| && !(lo <= a < hi) ==> m[a] == m'[a]
  }

  lemma SlotLocal(m: seq<Byte>, m': seq<Byte>, lo: nat, hi: nat)
    requires Sized(m) && AgreeOn(m, m', lo, hi)
    ensures forall t: nat, i: nat :: lo <= t && t + 8 * i + 8 <= hi ==> Slot(m', t, i) == Slot(m, t, i)
  {
    hide Word64At;
    WordLocal(m, m', lo, hi);
  }

  /** Each structure depends on its own bytes. */
  lemma TablesLocal(m: seq<Byte>, m': seq<Byte>)
    requires Tables(m) && AgreeOn(m, m', PML4_ADDR, GDT_ADDR)
    ensures Tables(m') && (NothingElse(m) ==> NothingElse(m'))
  {
    SlotLocal(m, m', PML4_ADDR, GDT_ADDR);
    hide Slot;
  }

  lemma GdtLocal(m: seq<Byte>, m': seq<Byte>)
    requires Gdt(m) && AgreeOn(m, m', GDT_ADDR, GDT_ADDR + 40)
    ensures Gdt(m')
  {
    SlotLocal(m, m', GDT_ADDR, GDT_ADDR + 40);
    hide Slot, TssWord;
  }

  lemma TssLocal(m: seq<Byte>, m': seq<Byte>)
    requires Tss(m) && AgreeOn(m, m', TSS_ADDR, TSS_ADDR + 0x68)
    ensures Tss(m')
  {
    hide Word64At;
    WordLocal(m, m', TSS_ADDR, TSS_ADDR + 0x68);
  }

  lemma IdtLocal(m: seq<Byte>, m': seq<Byte>, n: nat)
    requires n <= 256 && Idt(m, n) && AgreeOn(m, m', IDT_ADDR, IDT_ADDR + 16 * n)
    ensures Idt(m', n)
  {
    hide Word64At, GateWord;
    WordLocal(m, m', IDT_ADDR, IDT_ADDR + 16 * n);
    forall v: nat | v < n ensures GateLow(m', v) == GateLow(m, v) && GateHigh(m', v) == GateHigh(m, v) {}
  }

  /** No later write under the stack disturbs the structures. */
  lemma GuestLocal(m: seq<Byte>, m': seq<Byte>)
    requires Guest(m) && AgreeOn(m, m', CTRL_BASE, CTRL_END)
    ensures Guest(m')
  {
    TablesLocal(m, m');
    GdtLocal(m, m');
    TssLocal(m, m');
    IdtLocal(m, m', 256);
    hide Tables, NothingElse, Gdt, Tss, Idt;
  }

  lemma EntryFlags(k: nat)
    ensures Or(Or(k * PAGE_4K, PTE_P), PTE_W) == k * PAGE_4K + 3
    ensures Or(Or(Or(k * PAGE_4K, PTE_P), PTE_W), PTE_PS) == k * PAGE_4K + 0x83
  {
    var f := k * PAGE_4K;
    WordSizes();
    OrAssociates(f, PTE_P, PTE_W);
    OrAssociates(f, 3, PTE_PS);
    assert Or(PTE_P, PTE_W) == 3 && Or(3, PTE_PS) == 0x83;
    OrFlags(k, 12, 3);
    OrFlags(k, 12, 0x83);
  }

  // ------------------------------------------------------------------------- building them

  /** The first `i` leaves are written, and nothing else since `start`. */
  ghost predicate Leaves(start: seq<Byte>, m: seq<Byte>, i: nat)
    requires i <= 128
  {
    && Sized(start) && AgreeOutside(start, m, PD_ADDR, PD_ADDR + 8 * i)
    && (forall j: nat :: j < i ==> Slot(m, PD_ADDR, j) == LeafWord(j))
  }

  lemma LeafWritten(start: seq<Byte>, m: seq<Byte>, i: nat)
    requires i < 128 && Leaves(start, m, i)
    ensures Leaves(start, Poke(m, PD_ADDR + i * 8, Le(LeafWord(i), 8)), i + 1)
  {
    PokeWord(m, PD_ADDR + i * 8, LeafWord(i));
    hide Word64At, Poke, Le;
  }

  lemma RootsWritten(m: seq<Byte>) returns (m1: seq<Byte>, m2: seq<Byte>)
    requires Sized(m)
    ensures m1 == Poke(m, PML4_ADDR, Le(PDPT_ADDR + 3, 8)) && m2 == Poke(m1, PDPT_ADDR, Le(PD_ADDR + 3, 8))
    ensures Sized(m2) && Slot(m2, PML4_ADDR, 0) == PDPT_ADDR + 3 && Slot(m2, PDPT_ADDR, 0) == PD_ADDR + 3
    ensures AgreeOutside(m, m2, PML4_ADDR, PDPT_ADDR + 8) && AgreeOn(m, m2, PML4_ADDR + 8, PDPT_ADDR)
  {
    m1 := Poke(m, PML4_ADDR, Le(PDPT_ADDR + 3, 8));
    m2 := Poke(m1, PDPT_ADDR, Le(PD_ADDR + 3, 8));
    PokeWord(m, PML4_ADDR, PDPT_ADDR + 3);
    PokeWord(m1, PDPT_ADDR, PD_ADDR + 3);
    hide Word64At, Poke, Le;
  }

  lemma TablesWritten(start: seq<Byte>, m2: seq<Byte>, m: seq<Byte>)
    requires Sized(m2) && Slot(m2, PML4_ADDR, 0) == PDPT_ADDR + 3 && Slot(m2, PDPT_ADDR, 0) == PD_ADDR + 3
    requires AgreeOutside(start, m2, PML4_ADDR, PDPT_ADDR + 8) && AgreeOn(start, m2, PML4_ADDR + 8, PDPT_ADDR)
    requires Leaves(m2, m, 128)
    ensures Tables(m) && TableFrame(start, m)
  {
    SlotLocal(m2, m, PML4_ADDR, PD_ADDR);
    hide Word64At, Slot;
  }

  /** What building the tables leaves alone. */
  ghost predicate TableFrame(start: seq<Byte>, m: seq<Byte>) {
    && AgreeOutside(start, m, PML4_ADDR, PD_ADDR + 1024)
    && AgreeOn(start, m, PML4_ADDR + 8, PDPT_ADDR)
    && AgreeOn(start, m, PDPT_ADDR + 8, PD_ADDR)
  }

  /** Four-level paging with 2 MiB leaves over the whole RAM. */
  method BuildTables(ram: Ram)
    requires ram.bytes.Length == RAM_SIZE
    modifies ram.bytes
    ensures Tables(ram.bytes[..]) && TableFrame(old(ram.bytes[..]), ram.bytes[..])
  {
    hide Word64At, Bits.Or, Poke, Le, Slot, Tables, TableFrame, Leaves, LeafWord;
    EntryFlags(PDPT_ADDR / PAGE_4K);
    EntryFlags(PD_ADDR / PAGE_4K);
    ghost var start := ram.bytes[..];
    ghost var m1, m2 := RootsWritten(start);
    ram.WriteU64(PML4_ADDR, Or(Or(PDPT_ADDR, PTE_P), PTE_W));
    ram.WriteU64(PDPT_ADDR, Or(Or(PD_ADDR, PTE_P), PTE_W));
    NoLeaves(m2);
    for i := 0 to RAM_SIZE / PAGE_2M
      invariant Leaves(m2, ram.bytes[..], i)
    {
      var frame := i * PAGE_2M;
      LeafFlags(i);
      LeafWritten(m2, ram.bytes[..], i);
      ram.WriteU64(PD_ADDR + i * 8, Or(Or(Or(frame, PTE_P), PTE_W), PTE_PS));
    }
    TablesWritten(start, m2, ram.bytes[..]);
  }

  lemma NoLeaves(m: seq<Byte>)
    requires Sized(m)
    ensures Leaves(m, m, 0)
  {
  }

  lemma LeafFlags(i: nat)
    requires i < 128
    ensures Or(Or(Or(i * PAGE_2M, PTE_P), PTE_W), PTE_PS) == LeafWord(i) < ADDRESS_LIMIT
  {
    EntryFlags(i * 512);
  }

  /** Null, 64-bit code, flat data, and the 16-byte TSS descriptor. */
  method BuildGdt(ram: Ram)
    requires ram.bytes.Length == RAM_SIZE
    modifies ram.bytes
    ensures Gdt(ram.bytes[..]) && AgreeOutside(old(ram.bytes[..]), ram.bytes[..], GDT_ADDR, GDT_ADDR + 40)
  {
    hide Word64At, Bits.Or, Bits.And, Poke, Le, TssWord;
    var tssLow := TssWord(TSS_ADDR, TSS_LIMIT);
    TssRoundTrip(TSS_ADDR, TSS_LIMIT);
    PokeWord(ram.bytes[..], GDT_ADDR, 0);
    ram.WriteU64(GDT_ADDR, 0);
    PokeWord(ram.bytes[..], GDT_ADDR + 8, 0x00AF_9B00_0000_FFFF);
    ram.WriteU64(GDT_ADDR + 8, 0x00AF_9B00_0000_FFFF);
    PokeWord(ram.bytes[..], GDT_ADDR + 16, 0x00CF_9300_0000_FFFF);
    ram.WriteU64(GDT_ADDR + 16, 0x00CF_9300_0000_FFFF);
    PokeWord(ram.bytes[..], GDT_ADDR + SEL_TSS, tssLow);
    ram.WriteU64(GDT_ADDR + SEL_TSS, tssLow);
    PokeWord(ram.bytes[..], GDT_ADDR + SEL_TSS + 8, TSS_ADDR / 0x1_0000_0000);
    ram.WriteU64(GDT_ADDR + SEL_TSS + 8, TSS_ADDR / 0x1_0000_0000);
  }

  /** A TSS of zeros except for the first interrupt stack. */
  method BuildTss(ram: Ram)
    requires ram.bytes.Length == RAM_SIZE
    modifies ram.bytes
    ensures Tss(ram.bytes[..]) && AgreeOutside(old(ram.bytes[..]), ram.bytes[..], TSS_ADDR, TSS_ADDR + 0x68)
  {
    var tss := Splice(Zeros(0x68), 0x24, Le(IST_STACK_TOP, 8));
    TssImage(ram.bytes[..], tss);
    ram.Write(TSS_ADDR, tss);
  }

  lemma TssImage(m: seq<Byte>, tss: seq<Byte>)
    requires Sized(m) && tss == Splice(Zeros(0x68), 0x24, Le(IST_STACK_TOP, 8))
    ensures Tss(Poke(m, TSS_ADDR, tss)) && AgreeOutside(m, Poke(m, TSS_ADDR, tss), TSS_ADDR, TSS_ADDR + 0x68)
  {
    var m' := Poke(m, TSS_ADDR, tss);
    SpliceReadsBack(Zeros(0x68), 0x24, IST_STACK_TOP);
    assert m'[TSS_ADDR + 0x24..TSS_ADDR + 0x2C] == tss[0x24..0x2C];
    forall a | TSS_ADDR <= a <= TSS_ADDR + TSS_LIMIT && !(0x24 <= a - TSS_ADDR < 0x2C) ensures m'[a] == 0 {
      assert m'[a] == tss[a - TSS_ADDR];
    }
  }

  /** The first `n` gates are written, and nothing else since `start`. */
  ghost predicate Gates(start: seq<Byte>, m: seq<Byte>, n: nat)
    requires n <= 256
  {
    Idt(m, n) && AgreeOutside(start, m, IDT_ADDR, IDT_ADDR + 16 * n)
  }

  lemma GateWritten(start: seq<Byte>, m: seq<Byte>, v: nat)
    requires v < 256 && Gates(start, m, v)
    ensures var m1 := Poke(m, IDT_ADDR + v * 16, Le(GateWord(StubAddress(v)), 8));
            var m2 := Poke(m1, IDT_ADDR + v * 16 + 8, Le(StubAddress(v) / 0x1_0000_0000, 8));
            && GateWord(StubAddress(v)) < ADDRESS_LIMIT && StubAddress(v) / 0x1_0000_0000 < ADDRESS_LIMIT
            && Gates(start, m2, v + 1)
  {
    hide Word64At, Poke, Le, GateWord;
    GateRoundTrip(StubAddress(v));
    PokeWord(m, IDT_ADDR + v * 16, GateWord(StubAddress(v)));
    var m1 := Poke(m, IDT_ADDR + v * 16, Le(GateWord(StubAddress(v)), 8));
    PokeWord(m1, IDT_ADDR + v * 16 + 8, StubAddress(v) / 0x1_0000_0000);
    var m2 := Poke(m1, IDT_ADDR + v * 16 + 8, Le(StubAddress(v) / 0x1_0000_0000, 8));
    IdtLocal(m, m2, v);
  }

  lemma NoGates(m: seq<Byte>)
    requires Sized(m)
    ensures Gates(m, m, 0)
  {
  }

  /** One interrupt gate per vector, each to its own stub. */
  method BuildIdt(ram: Ram)
    requires ram.bytes.Length == RAM_SIZE
    modifies ram.bytes
    ensures Idt(ram.bytes[..], 256) && AgreeOutside(old(ram.bytes[..]), ram.bytes[..], IDT_ADDR, IDT_ADDR + 0x1000)
  {
    ghost var start := ram.bytes[..];
    NoGates(start);
    for vector := 0 to 256
      invariant Gates(start, ram.bytes[..], vector)
    {
      hide Word64At, Poke, Le, Gates, GateWord;
      GateWritten(start, ram.bytes[..], vector);
      var target := StubAddress(vector);
      ram.WriteU64(IDT_ADDR + vector * 16, GateWord(target));
      ram.WriteU64(IDT_ADDR + vector * 16 + 8, target / 0x1_0000_0000);
    }
  }

  /** A `HLT` at the start of each of the first `n` stubs, and zeros everywhere else. */
  ghost predicate Halts(image: seq<Byte>, n: nat) {
    && |image| == STUB_AREA
    && forall o :: 0 <= o < STUB_AREA ==> image[o] == if o % STUB_STRIDE == 0 && o < n * STUB_STRIDE then HLT else 0
  }

  lemma OneMoreHalt(image: seq<Byte>, n: nat)
    requires n < 256 && Halts(image, n)
    ensures Halts(image[n * STUB_STRIDE := HLT], n + 1)
  {
  }

  lemma StubsWritten(start: seq<Byte>, image: seq<Byte>)
    requires Sized(start) && Halts(image, 256)
    ensures var m := Poke(start, STUB_BASE, image);
            && |m| == RAM_SIZE && Stubs(m) && AgreeOutside(start, m, STUB_BASE, STUB_BASE + STUB_AREA)
            && forall o :: 0 <= o < STUB_AREA ==> m[STUB_BASE + o] == if o % STUB_STRIDE == 0 then HLT else 0
  {
    var m := Poke(start, STUB_BASE, image);
    forall o | 0 <= o < STUB_AREA ensures m[STUB_BASE + o] == if o % STUB_STRIDE == 0 then HLT else 0 {
      assert m[STUB_BASE + o] == image[o];
    }
    forall v: nat | v < 256 ensures StubAddress(v) < RAM_SIZE && m[StubAddress(v)] == HLT {
      assert m[STUB_BASE + v * STUB_STRIDE] == image[v * STUB_STRIDE];
    }
  }

  /** A one-byte `HLT` at the start of each stub, and zeros behind it. */
  method BuildStubs(ram: Ram)
    requires ram.bytes.Length == RAM_SIZE
    modifies ram.bytes
    ensures forall o :: 0 <= o < STUB_AREA ==> ram.bytes[STUB_BASE + o] == if o % STUB_STRIDE == 0 then HLT else 0
    ensures Stubs(ram.bytes[..])
    ensures AgreeOutside(old(ram.bytes[..]), ram.bytes[..], STUB_BASE, STUB_BASE + STUB_AREA)
  {
    var stubs := new Byte[STUB_AREA](_ => 0);
    assert Halts(stubs[..], 0);
    for vector := 0 to 256
      modifies stubs
      invariant Halts(stubs[..], vector)
    {
      ghost var before := stubs[..];
      OneMoreHalt(before, vector);
      hide Halts;
      stubs[vector * STUB_STRIDE] := HLT;
      assert stubs[..] == before[vector * STUB_STRIDE := HLT];
    }
    hide Poke, Halts, Stubs, AgreeOutside;
    StubsWritten(ram.bytes[..], stubs[..]);
    ram.Write(STUB_BASE, stubs[..]);
  }

  /** `build_control_structures`: every structure is in place at the end, none having been disturbed by a later one,
      and nothing but the structures is written. On fresh RAM the tables map nothing else. */
  method BuildControlStructures(ram: Ram)
    requires ram.bytes.Length == RAM_SIZE
    modifies ram.bytes
    ensures Tables(ram.bytes[..]) && Gdt(ram.bytes[..]) && Tss(ram.bytes[..]) && Idt(ram.bytes[..], 256)
    ensures Stubs(ram.bytes[..]) && AgreeOutside(old(ram.bytes[..]), ram.bytes[..], CTRL_BASE, CTRL_END)
    ensures forall a :: 0 <= a < RAM_SIZE && !InStructure(a) ==> ram.bytes[a] == old(ram.bytes[a])
    ensures (forall a :: CTRL_BASE <= a < GDT_ADDR ==> old(ram.bytes[a]) == 0) ==> Guest(ram.bytes[..])
  {
    hide Word64At, Tables, Gdt, Tss, Idt, Stubs, NothingElse;
    ghost var m0 := ram.bytes[..];
    BuildTables(ram);
    ghost var m1 := ram.bytes[..];
    BuildGdt(ram);
    ghost var m2 := ram.bytes[..];
    BuildTss(ram);
    ghost var m3 := ram.bytes[..];
    BuildIdt(ram);
    ghost var m4 := ram.bytes[..];
    BuildStubs(ram);
    ghost var m5 := ram.bytes[..];
    TablesLocal(m1, m5);
    GdtLocal(m2, m5);
    TssLocal(m3, m5);
    IdtLocal(m4, m5, 256);
    if forall a :: CTRL_BASE <= a < GDT_ADDR ==> m0[a] == 0 { ZeroTables(m0, m1); }
    OnlyStructures(m0, m1, m2, m3, m4, m5);
  }

  /** The bytes of the structures: less than the seven pages set aside for them. */
  predicate InStructure(a: int) {
    || PML4_ADDR <= a < PML4_ADDR + 8 || PDPT_ADDR <= a < PDPT_ADDR + 8 || PD_ADDR <= a < PD_ADDR + 1024
    || GDT_ADDR <= a < GDT_ADDR + 40 || IDT_ADDR <= a < IDT_ADDR + 0x1000
    || STUB_BASE <= a < STUB_BASE + STUB_AREA || TSS_ADDR <= a < TSS_ADDR + 0x68
  }

  lemma OnlyStructures(m0: seq<Byte>, m1: seq<Byte>, m2: seq<Byte>, m3: seq<Byte>, m4: seq<Byte>, m5: seq<Byte>)
    requires Sized(m0) && TableFrame(m0, m1) && AgreeOutside(m1, m2, GDT_ADDR, GDT_ADDR + 40)
    requires AgreeOutside(m2, m3, TSS_ADDR, TSS_ADDR + 0x68) && AgreeOutside(m3, m4, IDT_ADDR, IDT_ADDR + 0x1000)
    requires AgreeOutside(m4, m5, STUB_BASE, STUB_BASE + STUB_AREA)
    ensures |m5| == |m0| && forall a :: 0 <= a < |m0| && !InStructure(a) ==> m5[a] == m0[a]
  {
  }

  lemma ZeroTables(m0: seq<Byte>, m: seq<Byte>)
    requires Sized(m0) && Sized(m) && TableFrame(m0, m)
    requires forall a :: CTRL_BASE <= a < GDT_ADDR ==> m0[a] == 0
    ensures NothingElse(m)
  {
    hide Word64At;
    forall i: nat | 1 <= i < 512 ensures Slot(m, PML4_ADDR, i) == 0 && Slot(m, PDPT_ADDR, i) == 0 {
      ZeroWord(m, PML4_ADDR + 8 * i);
      ZeroWord(m, PDPT_ADDR + 8 * i);
    }
    forall i: nat | 128 <= i < 512 ensures Slot(m, PD_ADDR, i) == 0 { ZeroWord(m, PD_ADDR + 8 * i); }
  }

  // ------------------------------------------------------------------------- translation through the tables

  lemma PeekSlot(m: seq<Byte>, table: nat, i: nat)
    requires Sized(m) && table + 8 * i + 8 <= RAM_SIZE
    ensures Peek64(m, table + i * 8) == Slot(m, table, i)
  {
  }

  /** The indices that a canonical linear address takes through the tables. */
  lemma Indices(linear: nat)
    requires linear < ADDRESS_LIMIT
    ensures linear < RAM_SIZE <==> Canonical(linear) && linear / REACH_PML4 % 512 == 0 && linear / PAGE_1G % 512 == 0
                                   && linear / PAGE_2M % 512 < 128
    ensures linear < RAM_SIZE ==> linear / PAGE_2M % 512 * PAGE_2M + linear % PAGE_2M == linear
  {
    if linear >= 0xFFFF_8000_0000_0000 {
      HighHalf(linear);
    } else if linear < 0x8000_0000_0000 {
      LowHalf(linear);
    }
  }

  lemma HighHalf(linear: nat)
    requires 0xFFFF_8000_0000_0000 <= linear < ADDRESS_LIMIT
    ensures linear / REACH_PML4 % 512 >= 256
  {
    var q := linear / REACH_PML4;
    assert 0x1FF_FF00 <= q < 0x200_0000;
    RemainderUnique(q, 512, 0xFFFF, q - 0x1FF_FE00);
  }

  lemma LowHalf(linear: nat)
    requires linear < 0x8000_0000_0000
    ensures linear < RAM_SIZE <==> linear / REACH_PML4 % 512 == 0 && linear / PAGE_1G % 512 == 0
                                   && linear / PAGE_2M % 512 < 128
    ensures linear < RAM_SIZE ==> linear / PAGE_2M % 512 * PAGE_2M + linear % PAGE_2M == linear
  {
    assert linear / REACH_PML4 < 256;
    if linear / REACH_PML4 == 0 {
      assert linear / PAGE_1G < 512;
      if linear / PAGE_1G == 0 { assert linear / PAGE_2M < 512; }
    }
  }

  lemma DirectoryFields(k: nat)
    requires k < 0x1_0000
    ensures var e := k * PAGE_4K + 3;
            && Present(e) && !Large(e) && Flag(e, 2) && !Flag(e, 4) && !Flag(e, 0x8000_0000_0000_0000)
            && Frame(e) == k * PAGE_4K
  {
    var e := k * PAGE_4K + 3;
    RemainderUnique(e, PAGE_4K, k, 3);
    RemainderUnique(e, 2, k * 0x800 + 1, 1);
    Field(1, 1, k * 0x400, 2, 2);
    Field(3, 0, k * 0x200, 4, 2);
    Field(3, 0, k * 0x10, 0x80, 2);
  }

  lemma DirectoryEntry(k: nat, p: Mapping)
    requires k < 0x1_0000
    ensures var e := k * PAGE_4K + 3;
            && Present(e) && !Large(e) && Frame(e) == k * PAGE_4K
            && Narrowed(p, e) == Mapping(p.phys, p.writable, false, p.executable)
  {
    hide Present, Large, Flag, Frame;
    DirectoryFields(k);
  }

  lemma LeafFields(i: nat)
    requires i < 128
    ensures var e := LeafWord(i);
            && Present(e) && Large(e) && Flag(e, 2) && !Flag(e, 4) && !Flag(e, 0x8000_0000_0000_0000)
            && Frame(e) == i * PAGE_2M
  {
    var e := LeafWord(i);
    Field(1, 1, 0x20 + i * 0x8_0000, 2, 2);
    Field(3, 0, 0x10 + i * 0x4_0000, 4, 2);
    Field(3, 1, i * 0x2000, 0x80, 2);
    RemainderUnique(e, PAGE_4K, i * 512, 0x83);
    RemainderUnique(e, 2, 0x41 + i * 0x10_0000, 1);
  }

  lemma LeafEntry(i: nat, p: Mapping, linear: nat)
    requires i < 128
    ensures Present(LeafWord(i)) && Large(LeafWord(i))
    ensures Leaf(p, LeafWord(i), linear, PAGE_2M)
            == Mapping(i * PAGE_2M + linear % PAGE_2M, p.writable, false, p.executable)
  {
    hide Present, Large, Flag, Frame, LeafWord;
    LeafFields(i);
    RemainderUnique(i * PAGE_2M, PAGE_2M, i, 0);
  }

  /** The tables map exactly the addresses of the RAM, each to itself, writable and executable at level 0 only. */
  lemma WalkIdentity(m: seq<Byte>, linear: nat)
    requires Tables(m) && NothingElse(m) && linear < ADDRESS_LIMIT
    ensures Walk(FromRam(m), PML4_ADDR, linear)
            == if linear < RAM_SIZE then Some(Mapping(linear, true, false, true)) else None
  {
    hide Word64At, Peek64, Present, Large, Frame, Leaf, Narrowed, LeafWord, Canonical;
    var i4, i3, i2 := linear / REACH_PML4 % 512, linear / PAGE_1G % 512, linear / PAGE_2M % 512;
    Indices(linear);
    PeekSlot(m, PML4_ADDR, i4);
    PeekSlot(m, PDPT_ADDR, i3);
    PeekSlot(m, PD_ADDR, i2);
    var p := Mapping(0, true, true, true);
    DirectoryEntry(PDPT_ADDR / PAGE_4K, p);
    DirectoryEntry(PD_ADDR / PAGE_4K, p.(user := false));
    ZeroEntry();
    if i2 < 128 { LeafEntry(i2, p.(user := false), linear); }
  }

  lemma ZeroEntry()
    ensures !Present(0)
  {
  }

  /** So a word inside the RAM is reached at its own address. */
  lemma LoadIdentity(m: seq<Byte>, linear: nat)
    requires Tables(m) && NothingElse(m) && linear + 8 <= RAM_SIZE
    ensures Load64(m, SYSTEM, linear) == Some(Word64At(m, linear))
    ensures forall value: nat :: Store64(m, SYSTEM, linear, value) == Some(Splice(m, linear, Le(value, 8)))
    ensures Fetch(m, SYSTEM, linear) == Some(m[linear])
  {
    hide Walk, Tables, NothingElse, Word64At;
    WalkIdentity(m, linear);
    assert Sized(m) by { TablesSized(m); }
  }

  lemma TablesSized(m: seq<Byte>)
    requires Tables(m)
    ensures Sized(m)
  {
  }
}
