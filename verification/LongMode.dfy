/**
 What the processor does in 64-bit mode at privilege level 0, as far as a fault needs it: translation through
 four-level tables, descriptors and gates, and delivery of an exception (Intel SDM Vol. 3A, sections 4.5 and 6.14).
 The processor is not part of the repository; this is the contract that the guest is built against.
 */
module LongMode {
  import opened Bits
  import opened Bytes
  import opened GuestRam
  import opened Rflags
  import opened Wrappers

  /** The registers that delivery touches. */
  datatype Cpu = Cpu(rip: nat, rsp: nat, rflags: nat, cs: nat, ss: nat)

  /** The system registers. */
  datatype System = System(
    cr3: nat, gdtBase: nat, gdtLimit: nat, idtBase: nat, idtLimit: nat, trBase: nat, trLimit: nat)

  predicate Bit0(w: nat) { w % 2 == 1 }

  predicate Flag(w: nat, weight: nat)
    requires weight >= 1
  {
    w / weight % 2 == 1
  }

  function Aligned(a: nat, step: nat): (r: nat)
    requires step >= 1
    ensures r <= a
  {
    a - a % step
  }

  // ------------------------------------------------------------------------- translation

  const PAGE_4K: nat := 0x1000
  const PAGE_2M: nat := 0x20_0000
  const PAGE_1G: nat := 0x4000_0000
  const REACH_PML4: nat := 0x80_0000_0000

  datatype Mapping = Mapping(phys: nat, writable: bool, user: bool, executable: bool)

  predicate Canonical(linear: nat) { linear < 0x8000_0000_0000 || 0xFFFF_8000_0000_0000 <= linear < ADDRESS_LIMIT }

  predicate Present(e: nat) { Bit0(e) }

  predicate Large(e: nat) { Flag(e, 0x80) }

  /** Address bits 12 to 51 of an entry. */
  function Frame(e: nat): nat { e / PAGE_4K % 0x100_0000_0000 * PAGE_4K }

  /** How the processor reads a table entry from physical memory. */
  type Loader = nat -> nat

  function Entry(load: Loader, table: nat, linear: nat, reach: nat): nat
    requires reach >= 1
  {
    load(table + linear / reach % 512 * 8)
  }

  /** Access is allowed only where every level of the walk allows it. */
  function Narrowed(p: Mapping, e: nat): Mapping {
    Mapping(p.phys, p.writable && Flag(e, 2), p.user && Flag(e, 4), p.executable && !Flag(e, 0x8000_0000_0000_0000))
  }

  function Leaf(p: Mapping, e: nat, linear: nat, size: nat): Mapping
    requires size >= 1
  {
    Narrowed(p, e).(phys := Aligned(Frame(e), size) + linear % size)
  }

  function Walk(load: Loader, cr3: nat, linear: nat): Option<Mapping> {
    var e4 := Entry(load, cr3, linear, REACH_PML4);
    if !Canonical(linear) || !Present(e4) then None
    else
      var p4 := Narrowed(Mapping(0, true, true, true), e4);
      var e3 := Entry(load, Frame(e4), linear, PAGE_1G);
      if !Present(e3) then None
      else if Large(e3) then Some(Leaf(p4, e3, linear, PAGE_1G))
      else
        var p3 := Narrowed(p4, e3);
        var e2 := Entry(load, Frame(e3), linear, PAGE_2M);
        if !Present(e2) then None
        else if Large(e2) then Some(Leaf(p3, e2, linear, PAGE_2M))
        else
          var e1 := Entry(load, Frame(e2), linear, PAGE_4K);
          if !Present(e1) then None else Some(Leaf(Narrowed(p3, e2), e1, linear, PAGE_4K))
  }

  /** A walk that ends in a 2 MiB leaf. */
  lemma WalkToLeaf(load: Loader, cr3: nat, linear: nat, e4: nat, e3: nat, e2: nat)
    requires Canonical(linear) && Present(e4) && Present(e3) && !Large(e3) && Present(e2) && Large(e2)
    requires Entry(load, cr3, linear, REACH_PML4) == e4 && Entry(load, Frame(e4), linear, PAGE_1G) == e3
    requires Entry(load, Frame(e3), linear, PAGE_2M) == e2
    ensures Walk(load, cr3, linear)
            == Some(Leaf(Narrowed(Narrowed(Mapping(0, true, true, true), e4), e3), e2, linear, PAGE_2M))
  {
    hide Canonical, Present, Large, Frame, Entry, Leaf, Narrowed;
  }

  /** Entries in a flat RAM. */
  function FromRam(m: seq<Byte>): Loader { a => Peek64(m, a) }

  /** Accesses by linear address; the words below never cross a page. */
  function Load64(m: seq<Byte>, sys: System, linear: nat): Option<nat> {
    match Walk(FromRam(m), sys.cr3, linear)
    case None => None
    case Some(p) => if p.phys + 8 <= |m| then Some(Word64At(m, p.phys)) else None
  }

  function Store64(m: seq<Byte>, sys: System, linear: nat, value: nat): (r: Option<seq<Byte>>)
    ensures r.Some? ==> |r.value| == |m|
  {
    match Walk(FromRam(m), sys.cr3, linear)
    case None => None
    case Some(p) => if p.writable && p.phys + 8 <= |m| then Some(Splice(m, p.phys, Le(value, 8))) else None
  }

  function Fetch(m: seq<Byte>, sys: System, linear: nat): Option<Byte> {
    match Walk(FromRam(m), sys.cr3, linear)
    case None => None
    case Some(p) => if p.executable && p.phys < |m| then Some(m[p.phys]) else None
  }

  // ------------------------------------------------------------------------- descriptors and gates

  datatype Gate = Gate(offset: nat, selector: nat, ist: nat, kind: nat, dpl: nat, present: bool)

  function DecodeGate(low: nat, high: nat): Gate {
    Gate(low % 0x1_0000 + low / 0x1_0000_0000_0000 % 0x1_0000 * 0x1_0000 + high % 0x1_0000_0000 * 0x1_0000_0000,
         low / 0x1_0000 % 0x1_0000,
         low / 0x1_0000_0000 % 8,
         low / 0x100_0000_0000 % 16,
         low / 0x2000_0000_0000 % 4,
         Flag(low, 0x8000_0000_0000))
  }

  /** A code segment that 64-bit code at level 0 may run in: present, level 0, code, L set and D clear. */
  predicate Code64(d: nat) {
    && Flag(d, 0x8000_0000_0000) && d / 0x2000_0000_0000 % 4 == 0
    && Flag(d, 0x1000_0000_0000) && Flag(d, 0x800_0000_0000)
    && Flag(d, 0x20_0000_0000_0000) && !Flag(d, 0x40_0000_0000_0000)
  }

  datatype SystemSegment = SystemSegment(base: nat, limit: nat, kind: nat, present: bool)

  /** A 16-byte system descriptor. */
  function DecodeSystem(low: nat, high: nat): SystemSegment {
    SystemSegment(low / 0x1_0000 % 0x100_0000 + low / 0x100_0000_0000_0000 % 0x100 * 0x100_0000
                    + high % 0x1_0000_0000 * 0x1_0000_0000,
                  low % 0x1_0000 + low / 0x1_0000_0000_0000 % 16 * 0x1_0000,
                  low / 0x100_0000_0000 % 16,
                  Flag(low, 0x8000_0000_0000))
  }

  // ------------------------------------------------------------------------- delivery

  /** Exception vectors by their mnemonics. */
  const DE: nat := 0
  const UD: nat := 6
  const DF: nat := 8
  const TS: nat := 10
  const NP: nat := 11
  const SS: nat := 12
  const GP: nat := 13
  const PF: nat := 14
  const AC: nat := 17
  const CP: nat := 21

  /** Delivery of these exceptions pushes an error code (Intel SDM, Vol. 3A, Table 6-1). */
  predicate PushesErrorCode(vector: nat) { vector in {DF, TS, NP, SS, GP, PF, AC, CP} }

  const GATE_INTERRUPT: nat := 14
  const GATE_TRAP: nat := 15

  /** Words pushed in order, each below the one before. */
  function PushAll(m: seq<Byte>, sys: System, rsp: nat, words: seq<nat>): (r: Option<seq<Byte>>)
    ensures r.Some? ==> |r.value| == |m|
    decreases |words|
  {
    if words == [] then Some(m)
    else if rsp < 8 then None
    else
      match Store64(m, sys, rsp - 8, words[0])
      case None => None
      case Some(m') => PushAll(m', sys, rsp - 8, words[1..])
  }

  /** The stack pointer a gate asks for: an entry of the interrupt stack table, or the current one. */
  function StackFor(m: seq<Byte>, sys: System, cpu: Cpu, ist: nat): Option<nat> {
    if ist == 0 then Some(cpu.rsp)
    else if 0x1C + 8 * ist + 7 > sys.trLimit then None
    else Load64(m, sys, sys.trBase + 0x1C + 8 * ist)
  }

  /** SS, RSP, RFLAGS, CS, RIP and, for the vectors that have one, an error code. A fault's saved RFLAGS has RF set. */
  function FrameWords(cpu: Cpu, error: Option<nat>, resume: bool): seq<nat> {
    [cpu.ss, cpu.rsp, if resume then Or(cpu.rflags, FLAG_RF) else cpu.rflags, cpu.cs, cpu.rip]
    + if error.Some? then [error.value] else []
  }

  function HandlerFlags(rflags: nat, kind: nat): nat {
    var f := AndNot(rflags, Or(Or(FLAG_TF, FLAG_NT), Or(FLAG_RF, FLAG_VM)));
    if kind == GATE_INTERRUPT then AndNot(f, FLAG_IF) else f
  }

  /** TF, NT, RF and VM are clear in a handler, and IF too behind an interrupt gate. */
  lemma HandlerBits(rflags: nat, k: nat)
    ensures Bit(HandlerFlags(rflags, GATE_INTERRUPT), k)
            <==> Bit(rflags, k) && k != 8 && k != 9 && k != 14 && k != 16 && k != 17
  {
    hide Bits.Bit, AndNot, Or;
    var cleared := Or(Or(FLAG_TF, FLAG_NT), Or(FLAG_RF, FLAG_VM));
    AndNotBit(AndNot(rflags, cleared), FLAG_IF, k);
    AndNotBit(rflags, cleared, k);
    OrBit(Or(FLAG_TF, FLAG_NT), Or(FLAG_RF, FLAG_VM), k);
    OrBit(FLAG_TF, FLAG_NT, k);
    OrBit(FLAG_RF, FLAG_VM, k);
    FlagBits(k);
  }

  lemma FlagBits(k: nat)
    ensures (Bit(FLAG_TF, k) <==> k == 8) && (Bit(FLAG_IF, k) <==> k == 9) && (Bit(FLAG_NT, k) <==> k == 14)
    ensures (Bit(FLAG_RF, k) <==> k == 16) && (Bit(FLAG_VM, k) <==> k == 17)
  {
    assert Pow2(8) == FLAG_TF && Pow2(9) == FLAG_IF && Pow2(14) == FLAG_NT && Pow2(16) == FLAG_RF
        && Pow2(17) == FLAG_VM;
    hide Pow2, Bits.Bit;
    Pow2Bit(8, k);
    Pow2Bit(9, k);
    Pow2Bit(14, k);
    Pow2Bit(16, k);
    Pow2Bit(17, k);
  }

  /** The gate of a vector, if the processor will use it: within the limit, present, and of a 64-bit kind. */
  function UsableGate(m: seq<Byte>, sys: System, vector: nat): Option<Gate> {
    if 16 * vector + 15 > sys.idtLimit then None
    else
      match (Load64(m, sys, sys.idtBase + 16 * vector), Load64(m, sys, sys.idtBase + 16 * vector + 8))
      case (Some(low), Some(high)) =>
        var gate := DecodeGate(low, high);
        if gate.present && (gate.kind == GATE_INTERRUPT || gate.kind == GATE_TRAP) then Some(gate) else None
      case _ => None
  }

  /** Whether a selector names a code segment that the handler may run in. */
  predicate UsableCode(m: seq<Byte>, sys: System, selector: nat) {
    && !Flag(selector, 4) && Aligned(selector, 8) + 7 <= sys.gdtLimit
    && match Load64(m, sys, sys.gdtBase + Aligned(selector, 8))
       case None => false
       case Some(d) => Code64(d)
  }

  /** The frame and the handler's registers, once gate and stack are known. */
  function Enter(m: seq<Byte>, sys: System, cpu: Cpu, gate: Gate, top: nat, words: seq<nat>): Option<(seq<Byte>, Cpu)> {
    match PushAll(m, sys, top, words)
    case None => None
    case Some(m') =>
      if top < 8 * |words| then None
      else Some((m', Cpu(gate.offset, top - 8 * |words|, HandlerFlags(cpu.rflags, gate.kind), Aligned(gate.selector, 4),
                         cpu.ss)))
  }

  /** Delivery of one exception at privilege level 0; `None` where the processor would fault again. */
  function Deliver(m: seq<Byte>, sys: System, cpu: Cpu, vector: nat, error: Option<nat>, resume: bool)
    : Option<(seq<Byte>, Cpu)>
  {
    match UsableGate(m, sys, vector)
    case None => None
    case Some(gate) =>
      if !UsableCode(m, sys, gate.selector) then None
      else
        match StackFor(m, sys, cpu, gate.ist)
        case None => None
        case Some(stack) => Enter(m, sys, cpu, gate, Aligned(stack, 16), FrameWords(cpu, error, resume))
  }
}
