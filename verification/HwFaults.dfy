/**
 How a fault is observed on the hardware backends: delivered through the guest's own gates to a `HLT`, recognised by
 the address of that `HLT`, and undone from the frame the processor pushed.
 */
module HwFaults {
  import opened Bits
  import opened Bytes
  import opened GuestRam
  import opened LongMode
  import opened Wrappers
  import opened HwGuest
  import opened Rflags

  datatype FaultKind =
    | DivideError | UndefinedOpcode | GeneralProtection | PageFault | AlignmentCheck | ControlProtection
    | OtherException

  /** The vectors whose delivery pushes an error code (Intel SDM Vol. 3A, Table 6-1). */
  predicate HasErrorCode(vector: nat) {
    vector == 8 || vector == 10 || vector == 11 || vector == 12 || vector == 13 || vector == 14 || vector == 17
    || vector == 21
  }

  function Classify(vector: nat): FaultKind {
    match vector
    case 0 => DivideError
    case 6 => UndefinedOpcode
    case 13 => GeneralProtection
    case 14 => PageFault
    case 17 => AlignmentCheck
    case 21 => ControlProtection
    case _ => OtherException
  }

  /** Whose stub a `HLT` was, from the RIP after it. */
  function StubVector(haltRip: nat): Option<nat> {
    if STUB_BASE < haltRip <= STUB_BASE + STUB_AREA then Some((haltRip - 1 - STUB_BASE) / STUB_STRIDE) else None
  }

  datatype Unwound = Unwound(rip: nat, rsp: nat, rflags: nat, errorCode: nat)

  /** The state before the fault, from the frame at the stub's RSP. */
  function UnwindFrame(m: seq<Byte>, handlerRsp: nat, vector: nat): Unwound {
    var errorCode := if HasErrorCode(vector) then Peek64(m, handlerRsp) else 0;
    var base := if HasErrorCode(vector) then handlerRsp + 8 else handlerRsp;
    Unwound(Peek64(m, base), Peek64(m, base + 24), Peek64(m, base + 16), errorCode)
  }

  // ------------------------------------------------------------------------- stubs

  /** The sixteen addresses after a stub's first byte name its vector, and no other address names any. */
  lemma StubVectorExact(haltRip: nat, vector: nat)
    requires vector < 256
    ensures StubVector(haltRip) == Some(vector) <==> StubAddress(vector) < haltRip <= StubAddress(vector) + STUB_STRIDE
    ensures StubVector(haltRip).Some? ==> StubVector(haltRip).value < 256
  {
  }

  // ------------------------------------------------------------------------- delivery

  predicate Word64(w: nat) { w < ADDRESS_LIMIT }

  predicate ValidCpu(cpu: Cpu) {
    Word64(cpu.rip) && Word64(cpu.rsp) && Word64(cpu.rflags) && Word64(cpu.cs) && Word64(cpu.ss)
  }

  predicate ValidError(error: Option<nat>) { error.Some? ==> Word64(error.value) }

  lemma OrWord(a: nat, b: nat)
    requires Word64(a) && Word64(b)
    ensures Word64(Or(a, b))
  {
    hide Bits.Or;
    WordSizes();
    OrBound(a, b, 64);
  }

  lemma FrameWordsFit(cpu: Cpu, error: Option<nat>, resume: bool)
    requires ValidCpu(cpu) && ValidError(error)
    ensures forall w :: w in FrameWords(cpu, error, resume) ==> Word64(w)
  {
    OrWord(cpu.rflags, FLAG_RF);
  }

  lemma GateUsable(m: seq<Byte>, vector: nat)
    requires Guest(m) && vector < 256
    ensures UsableGate(m, SYSTEM, vector) == Some(Gate(StubAddress(vector), SEL_CODE64, 1, GATE_INTERRUPT, 0, true))
  {
    hide Tables, NothingElse, Gdt, Tss, Stubs, Load64, GateWord, DecodeGate, Word64At;
    LoadIdentity(m, IDT_ADDR + 16 * vector);
    LoadIdentity(m, IDT_ADDR + 16 * vector + 8);
    assert GateLow(m, vector) == GateWord(StubAddress(vector));
    assert GateHigh(m, vector) == StubAddress(vector) / 0x1_0000_0000;
    hide Guest;
    GateRoundTrip(StubAddress(vector));
  }

  lemma CodeSelector()
    ensures !Flag(SEL_CODE64, 4) && Aligned(SEL_CODE64, 8) == 8 && SYSTEM.gdtLimit >= 15 && SYSTEM.gdtBase == GDT_ADDR
  {
  }

  lemma CodeIsCode()
    ensures Code64(0x00AF_9B00_0000_FFFF)
  {
  }

  lemma CodeDescriptor(m: seq<Byte>)
    requires Gdt(m)
    ensures Sized(m) && Word64At(m, GDT_ADDR + 8) == 0x00AF_9B00_0000_FFFF
  {
    hide Word64At;
    assert Slot(m, GDT_ADDR, 1) == 0x00AF_9B00_0000_FFFF;
  }

  lemma CodeUsable(m: seq<Byte>)
    requires Guest(m)
    ensures UsableCode(m, SYSTEM, SEL_CODE64)
  {
    hide Tables, NothingElse, Gdt, Tss, Idt, Stubs, Word64At, Load64, Code64, Flag, Aligned;
    CodeSelector();
    CodeIsCode();
    CodeDescriptor(m);
    LoadIdentity(m, GDT_ADDR + 8);
  }

  lemma StackUsable(m: seq<Byte>, cpu: Cpu)
    requires Guest(m)
    ensures StackFor(m, SYSTEM, cpu, 1) == Some(IST_STACK_TOP)
  {
    hide Tables, NothingElse, Load64;
    LoadIdentity(m, TSS_ADDR + 0x24);
  }

  /** The words lie below `rsp`, each below the one before, and nothing else has changed. */
  ghost predicate Pushed(m: seq<Byte>, m': seq<Byte>, rsp: nat, words: seq<nat>) {
    && Sized(m) && 8 * |words| <= rsp <= RAM_SIZE
    && AgreeOutside(m, m', rsp - 8 * |words|, rsp)
    && forall i: nat :: i < |words| ==> Word64At(m', rsp - 8 * (i + 1)) == words[i]
  }

  lemma {:induction false} PushAllWorks(m: seq<Byte>, rsp: nat, words: seq<nat>)
    requires Guest(m) && CTRL_END + 8 * |words| <= rsp <= IST_STACK_TOP
    requires forall w :: w in words ==> Word64(w)
    ensures var p := PushAll(m, SYSTEM, rsp, words);
            p.Some? && Guest(p.value) && Pushed(m, p.value, rsp, words)
    decreases |words|
  {
    hide Guest, Pushed, AgreeOutside, PushAll;
    if words == [] {
      PushNone(m, rsp);
    } else {
      var m1, p := PushOne(m, rsp, words);
      PushAllWorks(m1, rsp - 8, words[1..]);
      PushedRest(m, m1, p.value, rsp, words);
    }
  }

  lemma PushNone(m: seq<Byte>, rsp: nat)
    requires Guest(m) && rsp <= IST_STACK_TOP
    ensures PushAll(m, SYSTEM, rsp, []) == Some(m) && Pushed(m, m, rsp, [])
  {
    hide Tables, NothingElse, Gdt, Tss, Idt, Stubs;
    SizedGuest(m);
  }

  lemma StoredWord(m: seq<Byte>, at: nat, value: nat)
    requires Guest(m) && CTRL_END <= at && at + 8 <= RAM_SIZE && Word64(value)
    ensures Sized(m) && Store64(m, SYSTEM, at, value) == Some(Splice(m, at, Le(value, 8)))
    ensures var m1 := Splice(m, at, Le(value, 8));
            Guest(m1) && AgreeOutside(m, m1, at, at + 8) && Word64At(m1, at) == value
  {
    assert Tables(m) && NothingElse(m);
    hide Guest, Tables, NothingElse, Store64, Word64At, Le, Splice, AgreeOutside;
    SizedGuest(m);
    LoadIdentity(m, at);
    SplicedWord(m, at, value);
  }

  /** A word above the structures. */
  lemma SplicedWord(m: seq<Byte>, at: nat, value: nat)
    requires Guest(m) && Sized(m) && CTRL_END <= at && at + 8 <= RAM_SIZE && Word64(value)
    ensures var m1 := Splice(m, at, Le(value, 8));
            Guest(m1) && AgreeOutside(m, m1, at, at + 8) && Word64At(m1, at) == value
  {
    hide Guest, Word64At, Le;
    SpliceReadsBack(m, at, value);
    GuestLocal(m, Splice(m, at, Le(value, 8)));
  }

  lemma PushOne(m: seq<Byte>, rsp: nat, words: seq<nat>) returns (m1: seq<Byte>, p: Option<seq<Byte>>)
    requires words != [] && Guest(m) && CTRL_END + 8 <= rsp <= IST_STACK_TOP && Word64(words[0])
    ensures Guest(m1) && Sized(m) && AgreeOutside(m, m1, rsp - 8, rsp) && Word64At(m1, rsp - 8) == words[0]
    ensures p == PushAll(m, SYSTEM, rsp, words) == PushAll(m1, SYSTEM, rsp - 8, words[1..])
  {
    hide Guest, Store64, Word64At, Le, Splice, AgreeOutside;
    StoredWord(m, rsp - 8, words[0]);
    m1 := Splice(m, rsp - 8, Le(words[0], 8));
    p := PushAll(m, SYSTEM, rsp, words);
  }

  lemma PushedRest(m: seq<Byte>, m1: seq<Byte>, m': seq<Byte>, rsp: nat, words: seq<nat>)
    requires words != [] && CTRL_END + 8 * |words| <= rsp <= IST_STACK_TOP && Sized(m)
    requires AgreeOutside(m, m1, rsp - 8, rsp) && Word64At(m1, rsp - 8) == words[0]
    requires Pushed(m1, m', rsp - 8, words[1..])
    ensures Pushed(m, m', rsp, words)
  {
    hide Word64At;
    WordLocal(m1, m', rsp - 8, rsp);
    forall i: nat | i < |words| ensures Word64At(m', rsp - 8 * (i + 1)) == words[i] {
      if i > 0 { assert Word64At(m', rsp - 8 - 8 * (i - 1 + 1)) == words[1..][i - 1]; }
    }
  }

  /** Delivery from any register state succeeds, enters the vector's stub on a `HLT`, writes the frame at the top of
      the exception stack and nothing else, and leaves the guest able to take the next fault. */
  lemma DeliverCorrect(m: seq<Byte>, cpu: Cpu, vector: nat, error: Option<nat>, resume: bool)
    requires Guest(m) && vector < 256 && ValidCpu(cpu) && ValidError(error)
    ensures var words := FrameWords(cpu, error, resume);
            var d := Deliver(m, SYSTEM, cpu, vector, error, resume);
            && d.Some?
            && var (m', cpu') := d.value;
               && Guest(m') && Pushed(m, m', IST_STACK_TOP, words)
               && cpu'.rip == StubAddress(vector) && Fetch(m', SYSTEM, cpu'.rip) == Some(HLT)
               && cpu'.rsp == IST_STACK_TOP - 8 * |words| && cpu'.cs == SEL_CODE64 && cpu'.ss == cpu.ss
               && forall k: nat :: Bit(cpu'.rflags, k)
                                   <==> Bit(cpu.rflags, k) && k != 8 && k != 9 && k != 14 && k != 16 && k != 17
  {
    hide Bits.Bit, Guest, UsableGate, UsableCode, StackFor, PushAll, Pushed, Fetch, HandlerFlags;
    GateUsable(m, vector);
    CodeUsable(m);
    StackUsable(m, cpu);
    FrameWordsFit(cpu, error, resume);
    var words := FrameWords(cpu, error, resume);
    PushAllWorks(m, IST_STACK_TOP, words);
    var m' := PushAll(m, SYSTEM, IST_STACK_TOP, words).value;
    StubFetched(m', vector);
    forall k: nat
      ensures Bit(HandlerFlags(cpu.rflags, GATE_INTERRUPT), k)
              <==> Bit(cpu.rflags, k) && k != 8 && k != 9 && k != 14 && k != 16 && k != 17
    {
      HandlerBits(cpu.rflags, k);
    }
  }

  lemma StubFetched(m: seq<Byte>, vector: nat)
    requires Guest(m) && vector < 256
    ensures Fetch(m, SYSTEM, StubAddress(vector)) == Some(HLT)
  {
    hide Tables, NothingElse, Fetch;
    LoadIdentity(m, StubAddress(vector));
    assert m[StubAddress(vector)] == HLT;
  }

  // ------------------------------------------------------------------------- undoing a delivery

  /** RFLAGS as a fault saves it. */
  function Saved(rflags: nat, resume: bool): nat { if resume then Or(rflags, FLAG_RF) else rflags }

  /** What the frame gives back. The reader assumes an error code exactly for the vectors of the table; an `INT n` to
      one of those pushes none, and then every field is read one slot too high. */
  lemma Undone(m: seq<Byte>, cpu: Cpu, vector: nat, error: Option<nat>, resume: bool)
    requires Guest(m) && vector < 256 && ValidCpu(cpu) && ValidError(error)
    ensures var d := Deliver(m, SYSTEM, cpu, vector, error, resume);
            && d.Some?
            && var (m', cpu') := d.value;
               var u, saved := UnwindFrame(m', cpu'.rsp, vector), Saved(cpu.rflags, resume);
               && StubVector(cpu'.rip + 1) == Some(vector)
               && if error.Some? && HasErrorCode(vector) then u == Unwound(cpu.rip, cpu.rsp, saved, error.value)
                  else if error.None? && !HasErrorCode(vector) then u == Unwound(cpu.rip, cpu.rsp, saved, 0)
                  else if error.None? then u == Unwound(cpu.cs, cpu.ss, cpu.rsp, cpu.rip)
                  else u == Unwound(error.value, saved, cpu.cs, 0)
  {
    hide Guest, Deliver, Word64At, Fetch, Peek64, HasErrorCode;
    DeliverCorrect(m, cpu, vector, error, resume);
    var (m', cpu') := Deliver(m, SYSTEM, cpu, vector, error, resume).value;
    StubVectorExact(cpu'.rip + 1, vector);
    var words := FrameWords(cpu, error, resume);
    assert Sized(m') by { SizedGuest(m'); }
    FrameRead(m', words);
    assert words[..5] == [cpu.ss, cpu.rsp, Saved(cpu.rflags, resume), cpu.cs, cpu.rip];
    assert error.Some? ==> words[5] == error.value;
  }

  lemma SizedGuest(m: seq<Byte>)
    requires Guest(m)
    ensures Sized(m)
  {
  }

  /** The words that the reader finds from the stub's RSP up. */
  lemma FrameRead(m: seq<Byte>, words: seq<nat>)
    requires Sized(m) && 5 <= |words| <= 6
    requires forall i: nat :: i < |words| ==> Word64At(m, IST_STACK_TOP - 8 * (i + 1)) == words[i]
    ensures var rsp := IST_STACK_TOP - 40;
            && Peek64(m, rsp) == words[4] && Peek64(m, rsp + 8) == words[3] && Peek64(m, rsp + 16) == words[2]
            && Peek64(m, rsp + 24) == words[1] && Peek64(m, rsp + 32) == words[0]
            && (|words| == 6 ==> Peek64(m, rsp - 8) == words[5])
  {
    hide Word64At;
    forall i: nat | i < |words| ensures Peek64(m, IST_STACK_TOP - 8 * (i + 1)) == words[i] {
      PeekWord(m, IST_STACK_TOP - 8 * (i + 1));
    }
    assert Peek64(m, IST_STACK_TOP - 8 * (0 + 1)) == words[0] && Peek64(m, IST_STACK_TOP - 8 * (1 + 1)) == words[1];
    assert Peek64(m, IST_STACK_TOP - 8 * (2 + 1)) == words[2] && Peek64(m, IST_STACK_TOP - 8 * (3 + 1)) == words[3];
    assert Peek64(m, IST_STACK_TOP - 8 * (4 + 1)) == words[4];
    assert |words| == 6 ==> Peek64(m, IST_STACK_TOP - 8 * (5 + 1)) == words[5];
  }

  lemma PeekWord(m: seq<Byte>, addr: nat)
    requires Sized(m) && addr + 8 <= RAM_SIZE
    ensures Peek64(m, addr) == Word64At(m, addr)
  {
  }

  /** The resume flag that delivery adds is not observed, and masking twice is masking once. */
  lemma SavedObserved(rflags: nat, resume: bool)
    ensures Observed(Saved(rflags, resume)) == Observed(rflags) == Observed(Observed(rflags))
  {
    forall k: nat
      ensures Bit(Observed(Saved(rflags, resume)), k) <==> Bit(Observed(rflags), k)
      ensures Bit(Observed(Observed(rflags)), k) <==> Bit(Observed(rflags), k)
    {
      ObservedBits(Saved(rflags, resume), k);
      ObservedBits(rflags, k);
      ObservedBits(Observed(rflags), k);
      OrBit(rflags, FLAG_RF, k);
      assert Pow2(16) == FLAG_RF by { WordSizes(); }
      Pow2Bit(16, k);
    }
    BitExtensional(Observed(Saved(rflags, resume)), Observed(rflags));
    BitExtensional(Observed(Observed(rflags)), Observed(rflags));
  }

  /** Code at privilege level 0: selectors with RPL 0, and the reserved bit of RFLAGS set, as it always is. */
  predicate Supervisor(cpu: Cpu) { !Bit(cpu.cs, 1) && !Bit(cpu.ss, 1) && Bit(cpu.rflags, 1) }

  predicate Recovers(u: Unwound, cpu: Cpu) {
    u.rip == cpu.rip && u.rsp == cpu.rsp && Observed(u.rflags) == Observed(cpu.rflags)
  }

  /** Unwinding gives back the faulting state exactly when an error code was pushed exactly for the vectors that the
      reader expects one for. */
  lemma RecoversIff(m: seq<Byte>, cpu: Cpu, vector: nat, error: Option<nat>, resume: bool)
    requires Guest(m) && vector < 256 && ValidCpu(cpu) && ValidError(error) && Supervisor(cpu)
    ensures var d := Deliver(m, SYSTEM, cpu, vector, error, resume);
            d.Some? && (Recovers(UnwindFrame(d.value.0, d.value.1.rsp, vector), cpu)
                        <==> error.Some? == HasErrorCode(vector))
  {
    hide Guest, Deliver, UnwindFrame, Observed, Bits.Bit, HasErrorCode;
    Undone(m, cpu, vector, error, resume);
    SavedObserved(cpu.rflags, resume);
    ObservedBits(cpu.rflags, 1);
    ObservedBits(cpu.cs, 1);
    ObservedBits(cpu.rsp, 1);
  }

  /** The table of vectors with an error code is the architecture's. */
  lemma TableMatches(vector: nat)
    ensures HasErrorCode(vector) <==> PushesErrorCode(vector)
  {
  }

  /** So every exception that the processor raises, as opposed to a software interrupt, is undone exactly. */
  lemma ExceptionsRecover(m: seq<Byte>, cpu: Cpu, vector: nat, error: Option<nat>, resume: bool)
    requires Guest(m) && vector < 256 && ValidCpu(cpu) && ValidError(error) && Supervisor(cpu)
    requires error.Some? <==> PushesErrorCode(vector)
    ensures var d := Deliver(m, SYSTEM, cpu, vector, error, resume);
            d.Some? && Recovers(UnwindFrame(d.value.0, d.value.1.rsp, vector), cpu)
  {
    hide Guest, Deliver, UnwindFrame, HasErrorCode, Recovers;
    TableMatches(vector);
    RecoversIff(m, cpu, vector, error, resume);
  }

  /** Each class but the last is one vector's: #DE, #UD, #GP, #PF, #AC and #CP. */
  lemma ClassesExact(vector: nat)
    ensures Classify(vector) == DivideError <==> vector == DE
    ensures Classify(vector) == UndefinedOpcode <==> vector == UD
    ensures Classify(vector) == GeneralProtection <==> vector == GP
    ensures Classify(vector) == PageFault <==> vector == PF
    ensures Classify(vector) == AlignmentCheck <==> vector == AC
    ensures Classify(vector) == ControlProtection <==> vector == CP
  {
  }

  // ------------------------------------------------------------------------- any number of faults

  /** What happens to the RAM between two observations: a fault is delivered, or something is stored. */
  datatype Event =
    | Fault(cpu: Cpu, vector: nat, error: Option<nat>, resume: bool)
    | Store(addr: nat, data: seq<Byte>)

  /** A store by the program or through the interface, anywhere but into the structures. */
  predicate Legal(e: Event) {
    match e
    case Fault(cpu, vector, error, _) => vector < 256 && ValidCpu(cpu) && ValidError(error)
    case Store(addr, data) => addr + |data| <= CTRL_BASE || CTRL_END <= addr
  }

  function After(m: seq<Byte>, e: Event): seq<Byte> {
    match e
    case Fault(cpu, vector, error, resume) =>
      (match Deliver(m, SYSTEM, cpu, vector, error, resume) case None => m case Some(d) => d.0)
    case Store(addr, data) => Poke(m, addr, data)
  }

  function Run(m: seq<Byte>, events: seq<Event>): seq<Byte>
    decreases |events|
  {
    if events == [] then m else Run(After(m, events[0]), events[1..])
  }

  lemma EventKeepsGuest(m: seq<Byte>, e: Event)
    requires Guest(m) && Legal(e)
    ensures Guest(After(m, e))
  {
    match e
    case Fault(cpu, vector, error, resume) =>
      hide Guest, Deliver;
      DeliverCorrect(m, cpu, vector, error, resume);
    case Store(addr, data) =>
      assert AgreeOn(m, Poke(m, addr, data), CTRL_BASE, CTRL_END);
      GuestLocal(m, Poke(m, addr, data));
  }

  /** After any run of faults and stores, any fault is still delivered to its own stub and undone exactly. */
  lemma {:induction false} FaultsForever(m: seq<Byte>, events: seq<Event>, cpu: Cpu, vector: nat, error: Option<nat>,
                                         resume: bool)
    requires Guest(m) && forall e :: e in events ==> Legal(e)
    requires vector < 256 && ValidCpu(cpu) && ValidError(error) && (error.Some? <==> HasErrorCode(vector))
    ensures Guest(Run(m, events))
    ensures var d := Deliver(Run(m, events), SYSTEM, cpu, vector, error, resume);
            && d.Some? && Fetch(d.value.0, SYSTEM, d.value.1.rip) == Some(HLT)
            && StubVector(d.value.1.rip + 1) == Some(vector)
            && UnwindFrame(d.value.0, d.value.1.rsp, vector)
               == Unwound(cpu.rip, cpu.rsp, Saved(cpu.rflags, resume), if error.Some? then error.value else 0)
    decreases |events|
  {
    hide Guest, Deliver, Fetch, UnwindFrame, StubVector, After;
    if events == [] {
      DeliverCorrect(m, cpu, vector, error, resume);
      Undone(m, cpu, vector, error, resume);
    } else {
      EventKeepsGuest(m, events[0]);
      FaultsForever(After(m, events[0]), events[1..], cpu, vector, error, resume);
    }
  }
}
