/**
 One step of the two hardware backends: the run loop around the virtual processor, and what each kind of exit is
 turned into. The hypervisor is a parameter: a function from the processor's state to how the next run ended.
 */
module HwBackends {
  import opened Bits
  import opened Bytes
  import opened GuestRam
  import opened LongMode
  import opened Wrappers
  import opened HwGuest
  import opened Rflags
  import opened HwFaults

  datatype Outcome = Retired | Stopped(kind: FaultKind)

  /** What a step reports and leaves in the registers. */
  datatype Observation = Observation(outcome: Outcome, cpu: Cpu, lastFault: Option<(nat, nat)>)

  /** Why a run of the virtual processor ended: `Again` for what is not the guest's doing, `Trapped` for the KVM
      single-step exit, `Intercepted` for an exception that WHP stopped before delivery. */
  datatype Exit =
    | Again
    | Trapped
    | Intercepted(vector: nat, code: Option<nat>)
    | Halted
    | NoDevice
    | TripleFault
    | Failure

  datatype RunEnd = RunEnd(exit: Exit, cpu: Cpu, mem: seq<Byte>)

  /** The processor's next run, given its registers, the RAM, and how many runs are left. */
  type Processor = (Cpu, seq<Byte>, nat) -> RunEnd

  const RUNS: nat := 64

  /** The first run that does not have to be repeated, or the last one that may be. */
  function Drive(vcpu: Processor, cpu: Cpu, mem: seq<Byte>, left: nat): RunEnd
    decreases left
  {
    if left == 0 then RunEnd(Again, cpu, mem)
    else
      var r := vcpu(cpu, mem, left);
      if r.exit == Again then Drive(vcpu, r.cpu, r.mem, left - 1) else r
  }

  /** Registers and RAM after `n` runs. */
  function After(vcpu: Processor, cpu: Cpu, mem: seq<Byte>, left: nat, n: nat): (Cpu, seq<Byte>)
    requires n <= left
    decreases n, 0
  {
    if n == 0 then (cpu, mem) else var r := NthRun(vcpu, cpu, mem, left, n - 1); (r.cpu, r.mem)
  }

  /** How run `n` of at most `left` ends, counted from zero. */
  function NthRun(vcpu: Processor, cpu: Cpu, mem: seq<Byte>, left: nat, n: nat): RunEnd
    requires n < left
    decreases n, 1
  {
    var (c, m) := After(vcpu, cpu, mem, left, n);
    vcpu(c, m, left - n)
  }

  /** Run `n` is the first that need not be repeated. */
  predicate First(vcpu: Processor, cpu: Cpu, mem: seq<Byte>, left: nat, n: nat) {
    n < left && NthRun(vcpu, cpu, mem, left, n).exit != Again
    && forall k: nat :: k < n ==> Repeats(vcpu, cpu, mem, left, k)
  }

  predicate Repeats(vcpu: Processor, cpu: Cpu, mem: seq<Byte>, left: nat, n: nat) {
    n < left && NthRun(vcpu, cpu, mem, left, n).exit == Again
  }

  /** The loop ends with the first run that need not be repeated, ... */
  lemma {:induction false} DriveFirst(vcpu: Processor, cpu: Cpu, mem: seq<Byte>, left: nat, n: nat)
    requires First(vcpu, cpu, mem, left, n)
    ensures Drive(vcpu, cpu, mem, left) == NthRun(vcpu, cpu, mem, left, n)
    decreases n
  {
    var r, rest := vcpu(cpu, mem, left), left - 1;
    assert NthRun(vcpu, cpu, mem, left, 0) == r;
    if n > 0 {
      assert Repeats(vcpu, cpu, mem, left, 0);
      LaterRun(vcpu, cpu, mem, left, n - 1);
      forall k: nat | k < n - 1 ensures Repeats(vcpu, r.cpu, r.mem, rest, k) {
        assert Repeats(vcpu, cpu, mem, left, k + 1);
        LaterRun(vcpu, cpu, mem, left, k);
      }
      DriveFirst(vcpu, r.cpu, r.mem, rest, n - 1);
    }
  }

  /** ... or with the last one, if all have to be. */
  lemma {:induction false} DriveNone(vcpu: Processor, cpu: Cpu, mem: seq<Byte>, left: nat)
    requires forall k: nat :: k < left ==> Repeats(vcpu, cpu, mem, left, k)
    ensures var (c, m) := After(vcpu, cpu, mem, left, left); Drive(vcpu, cpu, mem, left) == RunEnd(Again, c, m)
    decreases left
  {
    if left > 0 {
      var r, rest := vcpu(cpu, mem, left), left - 1;
      assert NthRun(vcpu, cpu, mem, left, 0) == r && Repeats(vcpu, cpu, mem, left, 0);
      forall k: nat | k < rest ensures Repeats(vcpu, r.cpu, r.mem, rest, k) {
        assert Repeats(vcpu, cpu, mem, left, k + 1);
        LaterRun(vcpu, cpu, mem, left, k);
      }
      DriveNone(vcpu, r.cpu, r.mem, rest);
      LaterState(vcpu, cpu, mem, left, rest);
    }
  }

  /** One of the two is the case. */
  lemma {:induction false} FirstOrNone(vcpu: Processor, cpu: Cpu, mem: seq<Byte>, left: nat, n: nat)
    requires n <= left && forall k: nat :: k < n ==> Repeats(vcpu, cpu, mem, left, k)
    ensures (exists m: nat :: First(vcpu, cpu, mem, left, m))
            || forall k: nat :: k < left ==> Repeats(vcpu, cpu, mem, left, k)
    decreases left - n
  {
    if n < left {
      if Repeats(vcpu, cpu, mem, left, n) {
        FirstOrNone(vcpu, cpu, mem, left, n + 1);
      } else {
        assert First(vcpu, cpu, mem, left, n);
      }
    }
  }

  lemma {:induction false} LaterState(vcpu: Processor, cpu: Cpu, mem: seq<Byte>, left: nat, n: nat)
    requires n < left
    ensures var r := vcpu(cpu, mem, left);
            After(vcpu, r.cpu, r.mem, left - 1, n) == After(vcpu, cpu, mem, left, n + 1)
    decreases n, 0
  {
    if n > 0 { LaterRun(vcpu, cpu, mem, left, n - 1); }
  }

  lemma {:induction false} LaterRun(vcpu: Processor, cpu: Cpu, mem: seq<Byte>, left: nat, n: nat)
    requires n + 1 < left
    ensures var r := vcpu(cpu, mem, left);
            NthRun(vcpu, r.cpu, r.mem, left - 1, n) == NthRun(vcpu, cpu, mem, left, n + 1)
    decreases n, 1
  {
    LaterState(vcpu, cpu, mem, left, n);
  }

  /** Inside the area of the fault stubs, seen from the RIP after a `HLT`. */
  predicate InStubs(rip: nat) { STUB_BASE < rip <= STUB_BASE + STUB_AREA }

  /** After the `HLT` of the stub of a vector. */
  predicate InStub(rip: nat, vector: nat) { StubAddress(vector) < rip <= StubAddress(vector) + STUB_STRIDE }

  ghost predicate KeepsSize(vcpu: Processor) { forall c, m, n :: |vcpu(c, m, n).mem| == |m| }

  /** The registers after the undoing of a delivery. */
  function Restored(cpu: Cpu, u: Unwound): Cpu { cpu.(rip := u.rip, rsp := u.rsp, rflags := u.rflags) }

  /** The virtual processor of an oracle, with the RAM it runs from. */
  class VirtualCpu {
    const ram: Ram
    var cpu: Cpu

    constructor (ram: Ram, cpu: Cpu)
      ensures this.ram == ram && this.cpu == cpu
    {
      this.ram, this.cpu := ram, cpu;
    }

    /** The hypervisor's run call: the processor changes its registers and the RAM. */
    method Run(processor: Processor, left: nat) returns (exit: Exit)
      requires |processor(cpu, ram.bytes[..], left).mem| == ram.bytes.Length
      modifies `cpu, ram.bytes
      ensures RunEnd(exit, cpu, ram.bytes[..]) == processor(old(cpu), old(ram.bytes[..]), left)
    {
      var r := processor(cpu, ram.bytes[..], left);
      forall a | 0 <= a < ram.bytes.Length { ram.bytes[a] := r.mem[a]; }
      cpu := r.cpu;
      exit := r.exit;
      assert ram.bytes[..] == r.mem;
    }
  }

  // ------------------------------------------------------------------------- KVM

  function KvmObserve(r: RunEnd): Observation {
    match r.exit
    case Trapped => Observation(Retired, r.cpu, None)
    case Halted =>
      (match StubVector(r.cpu.rip)
       case Some(vector) =>
         var u := UnwindFrame(r.mem, r.cpu.rsp, vector);
         Observation(Stopped(Classify(vector)), Restored(r.cpu, u), Some((vector, u.errorCode)))
       case None => Observation(Retired, r.cpu, None))
    case NoDevice => Observation(Stopped(PageFault), r.cpu, None)
    case _ => Observation(Stopped(OtherException), r.cpu, None)
  }

  /** What a step on KVM reports for each way its run can end. The instruction retired if and only if the run ended in
      the single-step exit or in a `HLT` of the guest's own; an access outside the RAM is a page fault; a stub's `HLT`
      is the fault of its vector; everything else is the other fault. Only a stub's frame is unwound and recorded. */
  ghost predicate KvmReports(r: RunEnd, outcome: Outcome, cpu: Cpu, lastFault: Option<(nat, nat)>) {
    && (outcome == Retired <==> r.exit == Trapped || (r.exit == Halted && !InStubs(r.cpu.rip)))
    && (r.exit == NoDevice ==> outcome == Stopped(PageFault))
    && (r.exit == Again || r.exit.Intercepted? || r.exit == TripleFault || r.exit == Failure ==>
          outcome == Stopped(OtherException))
    && (r.exit != Halted || !InStubs(r.cpu.rip) ==> cpu == r.cpu && lastFault == None)
    && forall vector: nat :: vector < 256 && r.exit == Halted && InStub(r.cpu.rip, vector) ==>
         outcome == Stopped(Classify(vector)) && lastFault.Some? && lastFault.value.0 == vector
  }

  lemma KvmReportsAll(r: RunEnd)
    ensures var o := KvmObserve(r); KvmReports(r, o.outcome, o.cpu, o.lastFault)
  {
    hide UnwindFrame, Classify;
    forall vector: nat | vector < 256 && InStub(r.cpu.rip, vector) ensures StubVector(r.cpu.rip) == Some(vector) {
      StubVectorExact(r.cpu.rip, vector);
    }
  }

  class KvmOracle {
    const vcpu: VirtualCpu
    var lastFault: Option<(nat, nat)>

    constructor (vcpu: VirtualCpu)
      ensures this.vcpu == vcpu && lastFault == None
    {
      this.vcpu, lastFault := vcpu, None;
    }

    method UnwindFault(vector: nat) returns (errorCode: nat)
      modifies vcpu`cpu
      ensures var u := UnwindFrame(vcpu.ram.bytes[..], old(vcpu.cpu.rsp), vector);
              vcpu.cpu == Restored(old(vcpu.cpu), u) && errorCode == u.errorCode
    {
      var frame := UnwindFrame(vcpu.ram.bytes[..], vcpu.cpu.rsp, vector);
      vcpu.cpu := vcpu.cpu.(rip := frame.rip, rsp := frame.rsp, rflags := frame.rflags);
      errorCode := frame.errorCode;
    }

    method Step(processor: Processor) returns (outcome: Outcome)
      requires KeepsSize(processor)
      modifies `lastFault, vcpu`cpu, vcpu.ram.bytes
      ensures var r := Drive(processor, old(vcpu.cpu), old(vcpu.ram.bytes[..]), 64);
              Observation(outcome, vcpu.cpu, lastFault) == KvmObserve(r) && vcpu.ram.bytes[..] == r.mem
      ensures var r := Drive(processor, old(vcpu.cpu), old(vcpu.ram.bytes[..]), 64);
              KvmReports(r, outcome, vcpu.cpu, lastFault)
    {
      lastFault := None;
      ghost var start := (vcpu.cpu, vcpu.ram.bytes[..]);
      KvmReportsAll(Drive(processor, start.0, start.1, RUNS));
      hide KvmReports;
      var left := RUNS;
      while left > 0
        invariant 0 <= left <= RUNS && lastFault == None
        invariant Drive(processor, start.0, start.1, RUNS) == Drive(processor, vcpu.cpu, vcpu.ram.bytes[..], left)
      {
        ghost var before := (vcpu.cpu, vcpu.ram.bytes[..]);
        var exit := vcpu.Run(processor, left);
        assert Drive(processor, before.0, before.1, left)
               == if exit == Again then Drive(processor, vcpu.cpu, vcpu.ram.bytes[..], left - 1)
                  else RunEnd(exit, vcpu.cpu, vcpu.ram.bytes[..]);
        if exit != Again {
          outcome := Conclude(exit);
          return;
        }
        left := left - 1;
      }
      outcome := Stopped(OtherException);
    }

    /** What an exit means. */
    method Conclude(exit: Exit) returns (outcome: Outcome)
      requires lastFault == None
      modifies `lastFault, vcpu`cpu
      ensures Observation(outcome, vcpu.cpu, lastFault)
              == KvmObserve(RunEnd(exit, old(vcpu.cpu), vcpu.ram.bytes[..]))
    {
      match exit {
        case Trapped => return Retired;
        case Halted =>
          var stub := StubVector(vcpu.cpu.rip);
          if stub.Some? {
            var errorCode := UnwindFault(stub.value);
            lastFault := Some((stub.value, errorCode));
            return Stopped(Classify(stub.value));
          }
          return Retired;
        case NoDevice => return Stopped(PageFault);
        case _ => return Stopped(OtherException);
      }
    }
  }

  // ------------------------------------------------------------------------- WHP

  function Armed(cpu: Cpu): Cpu { cpu.(rflags := AndNot(Or(cpu.rflags, FLAG_TF), FLAG_RF)) }

  function Disarmed(cpu: Cpu): Cpu { cpu.(rflags := Observed(cpu.rflags)) }

  function WhpObserve(r: RunEnd): Observation {
    match r.exit
    case Intercepted(vector, code) =>
      if vector == 1 then Observation(Retired, Disarmed(r.cpu), None)
      else Observation(Stopped(Classify(vector)), Disarmed(r.cpu),
                       Some((vector, match code case Some(c) => c case None => 0)))
    case Halted =>
      (match StubVector(r.cpu.rip)
       case Some(vector) =>
         var u := UnwindFrame(r.mem, r.cpu.rsp, vector);
         if vector == 1 then Observation(Retired, Disarmed(Restored(r.cpu, u)), None)
         else Observation(Stopped(Classify(vector)), Disarmed(Restored(r.cpu, u)), Some((vector, u.errorCode)))
       case None => Observation(Retired, Disarmed(r.cpu), None))
    case NoDevice => Observation(Stopped(PageFault), r.cpu, None)
    case _ => Observation(Stopped(OtherException), r.cpu, None)
  }

  /** The same on WHP, where the single-step trap is intercepted or found in its own stub, and another exception is
      intercepted or found in its own. */
  ghost predicate WhpReports(r: RunEnd, outcome: Outcome, cpu: Cpu, lastFault: Option<(nat, nat)>) {
    && (outcome == Retired <==> (r.exit.Intercepted? && r.exit.vector == 1)
                                || (r.exit == Halted && (!InStubs(r.cpu.rip) || InStub(r.cpu.rip, 1))))
    && (outcome == Retired ==> lastFault == None)
    && (r.exit == NoDevice ==> outcome == Stopped(PageFault))
    && (r.exit == Again || r.exit == Trapped || r.exit == TripleFault || r.exit == Failure ==>
          outcome == Stopped(OtherException))
    && (!r.exit.Intercepted? && r.exit != Halted ==> cpu == r.cpu && lastFault == None)
    && (r.exit.Intercepted? || (r.exit == Halted && !InStubs(r.cpu.rip)) ==>
          cpu == r.cpu.(rflags := Observed(r.cpu.rflags)))
    && (r.exit.Intercepted? && r.exit.vector != 1 ==>
          outcome == Stopped(Classify(r.exit.vector))
          && lastFault == Some((r.exit.vector, if r.exit.code.Some? then r.exit.code.value else 0)))
    && forall vector: nat :: vector < 256 && vector != 1 && r.exit == Halted && InStub(r.cpu.rip, vector) ==>
         outcome == Stopped(Classify(vector)) && lastFault.Some? && lastFault.value.0 == vector
  }

  lemma WhpReportsAll(r: RunEnd)
    ensures var o := WhpObserve(r); WhpReports(r, o.outcome, o.cpu, o.lastFault)
  {
    hide UnwindFrame, Classify, Observed;
    forall vector: nat | vector < 256 ensures StubVector(r.cpu.rip) == Some(vector) <==> InStub(r.cpu.rip, vector) {
      StubVectorExact(r.cpu.rip, vector);
    }
  }

  lemma WhpStuck(cpu: Cpu, m: seq<Byte>)
    ensures WhpObserve(RunEnd(Again, cpu, m)) == Observation(Stopped(OtherException), cpu, None)
  {
  }

  class WhpOracle {
    const vcpu: VirtualCpu
    var lastFault: Option<(nat, nat)>

    constructor (vcpu: VirtualCpu)
      ensures this.vcpu == vcpu && lastFault == None
    {
      this.vcpu, lastFault := vcpu, None;
    }

    method UnwindFault(vector: nat) returns (errorCode: nat)
      modifies vcpu`cpu
      ensures var u := UnwindFrame(vcpu.ram.bytes[..], old(vcpu.cpu.rsp), vector);
              vcpu.cpu == Disarmed(Restored(old(vcpu.cpu), u)) && errorCode == u.errorCode
    {
      var frame := UnwindFrame(vcpu.ram.bytes[..], vcpu.cpu.rsp, vector);
      vcpu.cpu := vcpu.cpu.(rip := frame.rip, rsp := frame.rsp,
                            rflags := AndNot(frame.rflags, Or(FLAG_TF, FLAG_RF)));
      errorCode := frame.errorCode;
    }

    method Report(vector: nat, errorCode: nat) returns (outcome: Outcome)
      modifies `lastFault
      ensures lastFault == Some((vector, errorCode)) && outcome == Stopped(Classify(vector))
    {
      lastFault := Some((vector, errorCode));
      outcome := Stopped(Classify(vector));
    }

    /** `claimed` and `armed` are whether mapping the RAM and setting the trap flag succeeded. */
    method Step(processor: Processor, claimed: bool, armed: bool) returns (outcome: Outcome)
      requires KeepsSize(processor)
      modifies `lastFault, vcpu`cpu, vcpu.ram.bytes
      ensures if !claimed || !armed
              then outcome == Stopped(OtherException) && vcpu.cpu == old(vcpu.cpu) && lastFault == None
                   && vcpu.ram.bytes[..] == old(vcpu.ram.bytes[..])
              else var r := Drive(processor, Armed(old(vcpu.cpu)), old(vcpu.ram.bytes[..]), 64);
                   Observation(outcome, vcpu.cpu, lastFault) == WhpObserve(r) && vcpu.ram.bytes[..] == r.mem
                   && WhpReports(r, outcome, vcpu.cpu, lastFault)
    {
      lastFault := None;
      if !claimed || !armed { return Stopped(OtherException); }
      vcpu.cpu := vcpu.cpu.(rflags := AndNot(Or(vcpu.cpu.rflags, FLAG_TF), FLAG_RF));
      WhpReportsAll(Drive(processor, vcpu.cpu, vcpu.ram.bytes[..], RUNS));
      hide WhpReports, WhpObserve, Drive;
      outcome := RunLoop(processor);
    }

    /** The runs, until one need not be repeated. */
    method RunLoop(processor: Processor) returns (outcome: Outcome)
      requires KeepsSize(processor) && lastFault == None
      modifies `lastFault, vcpu`cpu, vcpu.ram.bytes
      ensures var r := Drive(processor, old(vcpu.cpu), old(vcpu.ram.bytes[..]), RUNS);
              Observation(outcome, vcpu.cpu, lastFault) == WhpObserve(r) && vcpu.ram.bytes[..] == r.mem
    {
      ghost var start := (vcpu.cpu, vcpu.ram.bytes[..]);
      hide WhpObserve;
      var left := RUNS;
      while left > 0
        invariant 0 <= left <= RUNS && lastFault == None
        invariant Drive(processor, start.0, start.1, RUNS) == Drive(processor, vcpu.cpu, vcpu.ram.bytes[..], left)
      {
        ghost var before := (vcpu.cpu, vcpu.ram.bytes[..]);
        var exit := vcpu.Run(processor, left);
        assert Drive(processor, before.0, before.1, left)
               == if exit == Again then Drive(processor, vcpu.cpu, vcpu.ram.bytes[..], left - 1)
                  else RunEnd(exit, vcpu.cpu, vcpu.ram.bytes[..]);
        if exit != Again {
          outcome := Conclude(exit);
          return;
        }
        left := left - 1;
      }
      WhpStuck(vcpu.cpu, vcpu.ram.bytes[..]);
      outcome := Stopped(OtherException);
    }

    method Conclude(exit: Exit) returns (outcome: Outcome)
      requires lastFault == None
      modifies `lastFault, vcpu`cpu
      ensures Observation(outcome, vcpu.cpu, lastFault)
              == WhpObserve(RunEnd(exit, old(vcpu.cpu), vcpu.ram.bytes[..]))
    {
      match exit {
        case Intercepted(vector, code) =>
          vcpu.cpu := Disarmed(vcpu.cpu);
          if vector == 1 { return Retired; }
          var errorCode := match code case Some(c) => c case None => 0;
          outcome := Report(vector, errorCode);
          return;
        case Halted =>
          var stub := StubVector(vcpu.cpu.rip);
          if stub == Some(1) {
            var _ := UnwindFault(1);
            return Retired;
          } else if stub.Some? {
            var errorCode := UnwindFault(stub.value);
            outcome := Report(stub.value, errorCode);
            return;
          }
          vcpu.cpu := Disarmed(vcpu.cpu);
          return Retired;
        case NoDevice => return Stopped(PageFault);
        case _ => return Stopped(OtherException);
      }
    }
  }

  // ------------------------------------------------------------------------- what a fault looks like

  /** A run that ends in the `HLT` of a stub: the exception was delivered, and the one-byte instruction executed. */
  function DeliveredRun(m: seq<Byte>, cpu: Cpu, vector: nat, error: Option<nat>, resume: bool): RunEnd {
    match Deliver(m, SYSTEM, cpu, vector, error, resume)
    case None => RunEnd(TripleFault, cpu, m)
    case Some((m', cpu')) => RunEnd(Halted, cpu'.(rip := cpu'.rip + 1), m')
  }

  /** Registers as the interface shows them. */
  predicate SameState(a: Cpu, b: Cpu) { a.rip == b.rip && a.rsp == b.rsp && Observed(a.rflags) == Observed(b.rflags) }

  /** A delivered fault leaves KVM's registers as the faulting instruction had them, names its vector and error code,
      and changes no memory but the exception stack. CS is the handler's. */
  lemma KvmSeesFault(m: seq<Byte>, cpu: Cpu, vector: nat, error: Option<nat>, resume: bool)
    requires Guest(m) && vector < 256 && ValidCpu(cpu) && ValidError(error) && (error.Some? <==> HasErrorCode(vector))
    ensures var r := DeliveredRun(m, cpu, vector, error, resume);
            var o := KvmObserve(r);
            && o.outcome == Stopped(Classify(vector)) && SameState(o.cpu, cpu)
            && o.lastFault == Some((vector, if error.Some? then error.value else 0))
            && o.cpu.cs == SEL_CODE64 && o.cpu.ss == cpu.ss
            && Guest(r.mem) && AgreeOutside(m, r.mem, IST_STACK_TOP - 48, IST_STACK_TOP)
  {
    hide Guest, Deliver, Fetch, UnwindFrame, Observed, StubVector, Classify;
    DeliverCorrect(m, cpu, vector, error, resume);
    Undone(m, cpu, vector, error, resume);
    SavedObserved(cpu.rflags, resume);
  }

  /** WHP's two ways of seeing one exception report the same outcome, error code and registers exactly when the
      processor pushed an error code just for the vectors that have one. For the single-step trap both say that the
      instruction retired. Either way the memory is the same but for the exception stack. */
  lemma PathsAgree(m: seq<Byte>, cpu: Cpu, vector: nat, error: Option<nat>, resume: bool)
    requires Guest(m) && vector < 256 && ValidCpu(cpu) && ValidError(error) && Supervisor(cpu)
    ensures var d := WhpObserve(DeliveredRun(m, cpu, vector, error, resume));
            var i := WhpObserve(RunEnd(Intercepted(vector, error), cpu, m));
            && (d == i.(cpu := i.cpu.(cs := SEL_CODE64)) <==> (error.Some? <==> HasErrorCode(vector)))
            && (vector == 1 ==> d.outcome == i.outcome == Retired)
            && (vector != 1 ==> d.outcome == i.outcome == Stopped(Classify(vector)))
            && var m' := DeliveredRun(m, cpu, vector, error, resume).mem;
               Guest(m') && AgreeOutside(m, m', IST_STACK_TOP - 48, IST_STACK_TOP)
  {
    hide Guest, Deliver, Fetch, UnwindFrame, Observed, StubVector, Classify, HasErrorCode, Recovers;
    DeliverCorrect(m, cpu, vector, error, resume);
    Undone(m, cpu, vector, error, resume);
    RecoversIff(m, cpu, vector, error, resume);
    SavedObserved(cpu.rflags, resume);
    var d := Deliver(m, SYSTEM, cpu, vector, error, resume).value;
    RecoversMeans(UnwindFrame(d.0, d.1.rsp, vector), cpu);
  }

  lemma RecoversMeans(u: Unwound, cpu: Cpu)
    ensures Recovers(u, cpu) <==> u.rip == cpu.rip && u.rsp == cpu.rsp && Observed(u.rflags) == Observed(cpu.rflags)
  {
  }

  /** The two backends agree on a delivered exception unless it is the debug trap, which KVM reports by an exit of
      its own and WHP may find in its stub. */
  lemma BackendsAgree(m: seq<Byte>, cpu: Cpu, vector: nat, error: Option<nat>, resume: bool)
    requires Guest(m) && vector < 256 && ValidCpu(cpu) && ValidError(error) && (error.Some? <==> HasErrorCode(vector))
    ensures var r := DeliveredRun(m, cpu, vector, error, resume);
            var k, w := KvmObserve(r), WhpObserve(r);
            && SameState(k.cpu, w.cpu)
            && (k.outcome == w.outcome && k.lastFault == w.lastFault <==> vector != 1)
  {
    hide Guest, Deliver, Fetch, UnwindFrame, Observed, StubVector, Classify;
    DeliverCorrect(m, cpu, vector, error, resume);
    Undone(m, cpu, vector, error, resume);
    SavedObserved(Saved(cpu.rflags, resume), false);
  }

  /** An instruction that executes without a fault is seen alike in all three ways: by KVM's single-step exit, by WHP's
      interception of the trap, and by WHP finding the trap delivered to its stub. */
  lemma RetiredAlike(m: seq<Byte>, cpu: Cpu, resume: bool)
    requires Guest(m) && ValidCpu(cpu)
    ensures var k := KvmObserve(RunEnd(Trapped, cpu, m));
            var i := WhpObserve(RunEnd(Intercepted(1, None), cpu, m));
            var d := WhpObserve(DeliveredRun(m, cpu, 1, None, resume));
            && k.outcome == i.outcome == d.outcome == Retired && k.lastFault == i.lastFault == d.lastFault == None
            && SameState(k.cpu, cpu) && SameState(i.cpu, cpu) && SameState(d.cpu, cpu)
            && k.cpu.ss == i.cpu.ss == d.cpu.ss == cpu.ss && k.cpu.cs == i.cpu.cs == cpu.cs
  {
    hide Guest, Deliver, Fetch, UnwindFrame, Observed, StubVector, Classify;
    assert !HasErrorCode(1);
    DeliverCorrect(m, cpu, 1, None, resume);
    Undone(m, cpu, 1, None, resume);
    SavedObserved(cpu.rflags, resume);
    SavedObserved(Saved(cpu.rflags, resume), false);
  }

  /** Arming sets the trap flag, takes the resume flag away and touches nothing else. */
  lemma ArmedBits(cpu: Cpu, k: nat)
    ensures Bit(Armed(cpu).rflags, k) <==> k == 8 || (Bit(cpu.rflags, k) && k != 16)
    ensures Armed(cpu) == cpu.(rflags := Armed(cpu).rflags)
  {
    assert Pow2(8) == FLAG_TF && Pow2(16) == FLAG_RF by { WordSizes(); }
    AndNotBit(Or(cpu.rflags, FLAG_TF), FLAG_RF, k);
    OrBit(cpu.rflags, FLAG_TF, k);
    Pow2Bit(8, k);
    Pow2Bit(16, k);
  }
}
