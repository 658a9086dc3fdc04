/**
 The one Bochs CPU of a process: how threads that want it wait, claim, create, drop and hand it on, under any
 interleaving, with spurious wake-ups and timeouts, and with the start-up check failing at any creation.

 `occupied` is the slot that the interface side guards with a mutex and a condition variable; `alive` is the flag of
 the emulator side, guarded by the emulator's lock.
 */
module BochsSingleton {
  import opened Wrappers

  type Tid = nat

  /** Where a thread is. `waits` tells `new`, which blocks, from `try_new`. */
  datatype Phase =
    | Idle
    | Entering(waits: bool)
    | Looking(waits: bool)
    | Blocked
    | Woken(timedOut: bool)
    | Rechecking(timedOut: bool)
    | Claimed(waits: bool)
    | Initializing(waits: bool)
    | Made(waits: bool)
    | GotNull(waits: bool)
    | Dropping
    | Freeing
    | Freed
    | Releasing
    | Notifying

  /** What the threads share. `oracles` counts the finished oracles; `leaked` says that a creation died after the
      emulator side had begun. */
  datatype Shared = Shared(
    mutex: Option<Tid>,
    occupied: bool,
    emulator: Option<Tid>,
    alive: bool,
    oracles: nat,
    leaked: bool)

  datatype State = State(phase: map<Tid, Phase>, shared: Shared)

  datatype Action =
    | New
    | TryNew
    | Lock
    | Look
    | Wake
    | TimeOut
    | Make
    | CheckFails
    | Drop
    | Free
    | Clear
    | Notify(woken: Tid)

  const START := State(map[], Shared(None, false, None, false, 0, false))

  function At(s: State, t: Tid): Phase { if t in s.phase then s.phase[t] else Idle }

  /** One atomic action of a thread, on its own phase and what is shared; nothing if it cannot be taken. */
  function Act(c: Shared, t: Tid, p: Phase, a: Action): Option<(Phase, Shared)> {
    match (p, a)
    // claim_instance and try_claim_instance
    case (Idle, New) => Some((Entering(true), c))
    case (Idle, TryNew) => Some((Entering(false), c))
    case (Entering(waits), Lock) =>
      if c.mutex == None then Some((Looking(waits), c.(mutex := Some(t)))) else None
    case (Looking(waits), Look) =>
      if !c.occupied then Some((Claimed(waits), c.(mutex := None, occupied := true)))
      else Some((if waits then Blocked else Idle, c.(mutex := None)))
    case (Blocked, Wake) => Some((Woken(false), c))
    case (Blocked, TimeOut) => Some((Woken(true), c))
    case (Woken(timedOut), Lock) =>
      if c.mutex == None then Some((Rechecking(timedOut), c.(mutex := Some(t)))) else None
    case (Rechecking(timedOut), Look) =>
      if !c.occupied then Some((Claimed(true), c.(mutex := None, occupied := true)))
      else Some((if timedOut then Idle else Blocked, c.(mutex := None)))
    // init and x86oracle_bochs_new
    case (Claimed(waits), Lock) =>
      if c.emulator == None then Some((Initializing(waits), c.(emulator := Some(t)))) else None
    case (Initializing(waits), Make) =>
      if c.alive then Some((GotNull(waits), c.(emulator := None))) else Some((Made(waits), c.(alive := true)))
    case (Made(_), Make) => Some((Idle, c.(emulator := None, oracles := c.oracles + 1)))
    case (Made(_), CheckFails) => Some((Idle, c.(emulator := None, leaked := true)))
    // Drop, x86oracle_bochs_free and release_instance
    case (Idle, Drop) => if c.oracles > 0 then Some((Dropping, c.(oracles := c.oracles - 1))) else None
    case (Dropping, Lock) => if c.emulator == None then Some((Freeing, c.(emulator := Some(t)))) else None
    case (Freeing, Free) => Some((Freed, c.(alive := false, emulator := None)))
    case (Freed, Lock) => if c.mutex == None then Some((Releasing, c.(mutex := Some(t)))) else None
    case (GotNull(_), Lock) => if c.mutex == None then Some((Releasing, c.(mutex := Some(t)))) else None
    case (Releasing, Clear) => Some((Notifying, c.(occupied := false)))
    case (Notifying, Notify(_)) => Some((Idle, c.(mutex := None)))
    case _ => None
  }

  predicate AnyBlocked(s: State) { exists t :: t in s.phase && s.phase[t].Blocked? }

  /** A notification goes to some blocked thread, if there is one. */
  predicate Sends(s: State, a: Action) { a.Notify? ==> At(s, a.woken).Blocked? || !AnyBlocked(s) }

  function Next(s: State, t: Tid, a: Action): Option<State> {
    match Act(s.shared, t, At(s, t), a)
    case None => None
    case Some((p, c)) =>
      if !Sends(s, a) then None
      else
        var phase := if a.Notify? && At(s, a.woken).Blocked? then s.phase[a.woken := Woken(false)] else s.phase;
        Some(State(phase[t := p], c))
  }

  // ------------------------------------------------------------------------- the invariant

  predicate HoldsMutex(p: Phase) { p.Looking? || p.Rechecking? || p.Releasing? || p.Notifying? }

  predicate HoldsEmulator(p: Phase) { p.Initializing? || p.Made? || p.Freeing? }

  /** Phases of a thread that owns the slot. */
  predicate HoldsSlot(p: Phase) {
    p.Claimed? || p.Initializing? || p.Made? || p.GotNull? || p.Dropping? || p.Freeing? || p.Freed? || p.Releasing?
  }

  /** Those in which the emulator's instance exists. */
  predicate HoldsInstance(p: Phase) { p.Made? || p.Dropping? || p.Freeing? }

  ghost predicate Locks(s: State) {
    && (forall t: Tid :: HoldsMutex(At(s, t)) <==> s.shared.mutex == Some(t))
    && (forall t: Tid :: HoldsEmulator(At(s, t)) <==> s.shared.emulator == Some(t))
  }

  ghost predicate NoHolder(s: State) { forall t: Tid :: !HoldsSlot(At(s, t)) }

  ghost predicate OneHolder(s: State) {
    && (exists t: Tid :: HoldsSlot(At(s, t)))
    && (forall t: Tid, u: Tid :: HoldsSlot(At(s, t)) && HoldsSlot(At(s, u)) ==> t == u)
  }

  /** The slot is taken by a finished oracle, or by one thread, or by a creation that died; or it is free. The
      emulator's flag is set exactly while there is an instance, and nobody has been refused one. */
  ghost predicate Slot(s: State) {
    var c := s.shared;
    && (if !c.occupied then NoHolder(s) && c.oracles == 0 && !c.leaked
        else (NoHolder(s) && c.oracles + (if c.leaked then 1 else 0) == 1)
             || (OneHolder(s) && c.oracles == 0 && !c.leaked))
    && (c.alive <==> c.oracles == 1 || c.leaked || exists t: Tid :: HoldsInstance(At(s, t)))
    && (forall t: Tid :: !At(s, t).GotNull?)
  }

  ghost predicate SomeBlocked(s: State) { exists t: Tid :: At(s, t).Blocked? }

  ghost predicate WakeUpInFlight(s: State) { exists t: Tid :: At(s, t).Woken? || At(s, t).Rechecking? }

  ghost predicate SomeNotifying(s: State) { exists t: Tid :: At(s, t).Notifying? }

  /** A free slot that somebody is blocked on has a wake-up on its way, or about to be sent. */
  ghost predicate WakeUps(s: State) {
    !s.shared.occupied && SomeBlocked(s) ==> WakeUpInFlight(s) || SomeNotifying(s)
  }

  ghost predicate Inv(s: State) { Locks(s) && Slot(s) && WakeUps(s) }

  lemma StartInv()
    ensures Inv(START)
  {
  }

  // ------------------------------------------------------------------------- one action, seen by its own thread

  predicate Taken(before: Option<Tid>, after: Option<Tid>, t: Tid) {
    after == before || (before == None && after == Some(t)) || (before == Some(t) && after == None)
  }

  /** The thread holds each lock afterwards exactly if its new phase needs it. */
  lemma OwnLocks(c: Shared, t: Tid, p: Phase, a: Action)
    requires Act(c, t, p, a).Some?
    requires (HoldsMutex(p) <==> c.mutex == Some(t)) && (HoldsEmulator(p) <==> c.emulator == Some(t))
    ensures var (p', c') := Act(c, t, p, a).value;
            && Taken(c.mutex, c'.mutex, t) && (HoldsMutex(p') <==> c'.mutex == Some(t))
            && Taken(c.emulator, c'.emulator, t) && (HoldsEmulator(p') <==> c'.emulator == Some(t))
  {
  }

  /** How the thread's hold on the slot changes with what else the slot may belong to. */
  predicate SlotStep(c: Shared, c': Shared, p: Phase, p': Phase) {
    if HoldsSlot(p) then
      if HoldsSlot(p') then
        c'.occupied == c.occupied && c'.oracles == c.oracles && c'.leaked == c.leaked
        && (p.Initializing? || c'.alive == (c.alive && !p.Freeing?))
        && (p.Initializing? ==> if c.alive then p'.GotNull? && c'.alive else p'.Made? && c'.alive)
        && (!p.Initializing? ==> (HoldsInstance(p') <==> HoldsInstance(p) && !p.Freeing?))
      else if p.Made? then
        c'.occupied == c.occupied && c'.alive == c.alive
        && (if c'.leaked && !c.leaked then c'.oracles == c.oracles
            else c'.leaked == c.leaked && c'.oracles == c.oracles + 1)
      else p.Releasing? && !c'.occupied && c'.alive == c.alive && c'.oracles == c.oracles && c'.leaked == c.leaked
    else
      c'.leaked == c.leaked && c'.alive == c.alive
      && (if HoldsSlot(p') then
            if p'.Dropping? then c'.occupied == c.occupied && c.oracles > 0 && c'.oracles == c.oracles - 1
            else p'.Claimed? && !c.occupied && c'.occupied && c'.oracles == c.oracles
          else c'.occupied == c.occupied && c'.oracles == c.oracles)
  }

  lemma OwnSlot(c: Shared, t: Tid, p: Phase, a: Action)
    requires Act(c, t, p, a).Some? && (c.leaked ==> !HoldsSlot(p))
    ensures var (p', c') := Act(c, t, p, a).value;
            SlotStep(c, c', p, p') && (p'.GotNull? ==> p.Initializing?)
  {
  }

  /** Nobody blocks on a free slot, whoever frees it goes on to notify, and a woken thread stops being one only by
      finding the slot taken or taking it. */
  lemma OwnWait(c: Shared, t: Tid, p: Phase, a: Action)
    requires Act(c, t, p, a).Some?
    ensures var (p', c') := Act(c, t, p, a).value;
            && (p'.Blocked? ==> c'.occupied)
            && (c.occupied && !c'.occupied ==> p'.Notifying?)
            && (p.Notifying? <==> a.Notify?)
            && (p.Woken? || p.Rechecking? ==> p'.Woken? || p'.Rechecking? || c'.occupied)
            && (p.Blocked? ==> p'.Woken?)
  {
  }

  // ------------------------------------------------------------------------- the invariant is kept

  /** The thread that acts, and the one that a notification wakes, are all that change. */
  lemma Others(s: State, t: Tid, a: Action, u: Tid)
    requires Next(s, t, a).Some?
    ensures var s' := Next(s, t, a).value;
            && Act(s.shared, t, At(s, t), a) == Some((At(s', t), s'.shared))
            && (u != t ==>
                  At(s', u) == if a.Notify? && u == a.woken && At(s, u).Blocked? then Woken(false) else At(s, u))
  {
    hide Act;
  }

  lemma LocksKept(s: State, t: Tid, a: Action)
    requires Locks(s) && Next(s, t, a).Some?
    ensures Locks(Next(s, t, a).value)
  {
    var s' := Next(s, t, a).value;
    Others(s, t, a, t);
    assert HoldsMutex(At(s, t)) <==> s.shared.mutex == Some(t);
    assert HoldsEmulator(At(s, t)) <==> s.shared.emulator == Some(t);
    OwnLocks(s.shared, t, At(s, t), a);
    forall u: Tid
      ensures HoldsMutex(At(s', u)) <==> s'.shared.mutex == Some(u)
      ensures HoldsEmulator(At(s', u)) <==> s'.shared.emulator == Some(u)
    {
      hide Next, Act;
      Others(s, t, a, u);
      assert HoldsMutex(At(s, u)) <==> s.shared.mutex == Some(u);
      assert HoldsEmulator(At(s, u)) <==> s.shared.emulator == Some(u);
    }
  }

  /** The instance exists just when its owner says so. */
  lemma AliveWhen(s: State, t: Tid)
    requires Slot(s) && HoldsSlot(At(s, t))
    ensures var c := s.shared;
            c.occupied && OneHolder(s) && c.oracles == 0 && !c.leaked && (c.alive <==> HoldsInstance(At(s, t)))
  {
  }

  lemma SlotKept(s: State, t: Tid, a: Action)
    requires Slot(s) && Next(s, t, a).Some?
    ensures Slot(Next(s, t, a).value)
  {
    var s' := Next(s, t, a).value;
    hide Next, Act, At;
    if HoldsSlot(At(s, t)) { AliveWhen(s, t); }
    Others(s, t, a, t);
    OwnSlot(s.shared, t, At(s, t), a);
    forall u: Tid | u != t
      ensures HoldsSlot(At(s', u)) == HoldsSlot(At(s, u)) && HoldsInstance(At(s', u)) == HoldsInstance(At(s, u))
              && At(s', u).GotNull? == At(s, u).GotNull?
    {
      Others(s, t, a, u);
    }
    if HoldsSlot(At(s', t)) && !HoldsSlot(At(s, t)) {
      assert NoHolder(s);
    }
  }

  lemma BlockedIn(s: State)
    ensures AnyBlocked(s) == SomeBlocked(s)
  {
    if SomeBlocked(s) {
      var t: Tid :| At(s, t).Blocked?;
      assert t in s.phase && s.phase[t].Blocked?;
    }
    if AnyBlocked(s) {
      var t :| t in s.phase && s.phase[t].Blocked?;
      assert At(s, t).Blocked?;
    }
  }

  lemma Sent(s: State, t: Tid, a: Action)
    requires Next(s, t, a).Some?
    ensures Sends(s, a)
  {
  }

  lemma WakeUpsKept(s: State, t: Tid, a: Action)
    requires WakeUps(s) && Next(s, t, a).Some?
    ensures WakeUps(Next(s, t, a).value)
  {
    var s' := Next(s, t, a).value;
    Sent(s, t, a);
    hide Next, Act, At;
    Others(s, t, a, t);
    OwnWait(s.shared, t, At(s, t), a);
    BlockedIn(s);
    if !s'.shared.occupied && SomeBlocked(s') {
      var b: Tid :| At(s', b).Blocked?;
      Others(s, t, a, b);
      if a.Notify? {
        Others(s, t, a, a.woken);
        assert At(s', a.woken).Woken?;
      } else if s.shared.occupied {
        assert At(s', t).Notifying?;
      } else {
        var w: Tid :| At(s, w).Woken? || At(s, w).Rechecking? || At(s, w).Notifying?;
        Others(s, t, a, w);
      }
    }
  }

  lemma InvKept(s: State, t: Tid, a: Action)
    requires Inv(s) && Next(s, t, a).Some?
    ensures Inv(Next(s, t, a).value)
  {
    hide Next, Locks, Slot, WakeUps;
    LocksKept(s, t, a);
    SlotKept(s, t, a);
    WakeUpsKept(s, t, a);
  }

  // ------------------------------------------------------------------------- any run

  /** A schedule; an action that cannot be taken when its turn comes is passed over. */
  function Execute(s: State, schedule: seq<(Tid, Action)>): State
    decreases |schedule|
  {
    if schedule == [] then s
    else
      var (t, a) := schedule[0];
      Execute(match Next(s, t, a) case None => s case Some(s') => s', schedule[1..])
  }

  lemma {:induction false} ExecuteInv(s: State, schedule: seq<(Tid, Action)>)
    requires Inv(s)
    ensures Inv(Execute(s, schedule))
    decreases |schedule|
  {
    hide Inv, Next;
    if schedule != [] {
      var (t, a) := schedule[0];
      if Next(s, t, a).Some? { InvKept(s, t, a); }
      ExecuteInv(match Next(s, t, a) case None => s case Some(s') => s', schedule[1..]);
    }
  }

  /** Over every schedule: there is at most one oracle, counting those being made or dropped; a thread that has claimed
      the slot finds the emulator free and is never refused; and the emulator's flag is down whenever the slot is. */
  lemma SingletonSafe(schedule: seq<(Tid, Action)>, t: Tid, u: Tid)
    ensures var s := Execute(START, schedule);
            && s.shared.oracles <= 1
            && (s.shared.oracles == 1 || s.shared.leaked ==> !HoldsSlot(At(s, t)))
            && (HoldsSlot(At(s, t)) && HoldsSlot(At(s, u)) ==> t == u)
            && !At(s, t).GotNull?
            && (At(s, t).Initializing? ==> !s.shared.alive)
            && (!s.shared.occupied ==> !s.shared.alive)
  {
    StartInv();
    ExecuteInv(START, schedule);
    var s := Execute(START, schedule);
    hide Execute;
    if HoldsSlot(At(s, t)) { AliveWhen(s, t); }
  }

  /** Over every schedule: when the slot is free and threads are blocked on it, one of them is already awake or about
      to look again, or a notification is being sent. */
  lemma WakeUpPending(schedule: seq<(Tid, Action)>)
    ensures var s := Execute(START, schedule);
            !s.shared.occupied && SomeBlocked(s) ==> WakeUpInFlight(s) || SomeNotifying(s)
  {
    StartInv();
    ExecuteInv(START, schedule);
    hide Execute;
  }

  /** What follows whenever nobody holds the mutex: a thread is awake that claims the slot as soon as it takes the
      mutex and looks. */
  lemma NoLostWakeUp(schedule: seq<(Tid, Action)>)
    requires var s := Execute(START, schedule);
             !s.shared.occupied && SomeBlocked(s) && s.shared.mutex == None
    ensures var s := Execute(START, schedule);
            exists t: Tid :: At(s, t).Woken? && At(Execute(s, [(t, Lock), (t, Look)]), t) == Claimed(true)
  {
    StartInv();
    ExecuteInv(START, schedule);
    var s := Execute(START, schedule);
    hide Execute;
    assert forall t: Tid :: HoldsMutex(At(s, t)) <==> s.shared.mutex == Some(t);
    var t: Tid :| At(s, t).Woken? || At(s, t).Rechecking? || At(s, t).Notifying?;
    assert At(s, t).Woken?;
    LookAgain(s, t);
  }

  lemma LookAgain(s: State, t: Tid)
    requires At(s, t).Woken? && s.shared.mutex == None && !s.shared.occupied
    ensures At(Execute(s, [(t, Lock), (t, Look)]), t) == Claimed(true)
  {
    var s1 := Next(s, t, Lock).value;
    assert At(s1, t).Rechecking? && s1.shared.mutex == Some(t) && !s1.shared.occupied;
    var s2 := Next(s1, t, Look).value;
    assert At(s2, t) == Claimed(true);
    assert [(t, Lock), (t, Look)][1..] == [(t, Look)];
    assert Execute(s1, [(t, Look)]) == Execute(s2, []);
  }

  // ------------------------------------------------------------------------- what goes through

  /** Phases of a thread that wants the slot and does not have it. */
  predicate Wants(p: Phase) { p.Entering? || p.Looking? || p.Blocked? || p.Woken? || p.Rechecking? }

  /** A thread that holds the mutex to look can look, and it claims the slot if and only if it is free. Otherwise it
      changes nothing but the mutex, and `new` goes on waiting unless its wait has timed out. */
  lemma LookDecides(s: State, t: Tid)
    requires At(s, t).Looking? || At(s, t).Rechecking?
    ensures var r := Next(s, t, Look);
            && r.Some? && (At(r.value, t).Claimed? <==> !s.shared.occupied)
            && r.value.shared == s.shared.(mutex := None, occupied := true)
            && (s.shared.occupied ==>
                  At(r.value, t) ==
                  if At(s, t) == Looking(false) || At(s, t) == Rechecking(true) then Idle else Blocked)
            && (!s.shared.occupied ==> At(r.value, t).waits == (At(s, t) != Looking(false)))
  {
  }

  /** A thread gives up only because it looked and the slot was occupied: `try_new` at once, `new` on looking once more
      after a timeout. */
  lemma EmptyHanded(s: State, t: Tid, a: Action)
    requires Wants(At(s, t)) && Next(s, t, a).Some?
    ensures var s' := Next(s, t, a).value;
            if Wants(At(s', t)) then
              && s'.shared.occupied == s.shared.occupied
              && (At(s', t) == Woken(true) ==> a == TimeOut) && (At(s', t) == Woken(false) ==> a == Wake)
              && (At(s', t).Looking? ==> At(s, t) == Entering(At(s', t).waits))
              && (At(s', t).Rechecking? ==> At(s, t) == Woken(At(s', t).timedOut))
            else if At(s', t).Claimed? then !s.shared.occupied && s'.shared.occupied
            else At(s', t) == Idle && a == Look && s.shared.occupied
                 && (At(s, t) == Looking(false) || At(s, t) == Rechecking(true))
  {
  }

  /** Actions of one thread, every one of which it must be able to take. */
  function RunAlone(s: State, t: Tid, actions: seq<Action>): Option<State>
    decreases |actions|
  {
    if actions == [] then Some(s)
    else
      match Next(s, t, actions[0])
      case None => None
      case Some(s') => RunAlone(s', t, actions[1..])
  }

  lemma {:induction false} AloneBoth(s: State, t: Tid, first: seq<Action>, second: seq<Action>)
    requires RunAlone(s, t, first).Some?
    ensures RunAlone(s, t, first + second) == RunAlone(RunAlone(s, t, first).value, t, second)
    decreases |first|
  {
    hide Next;
    if first == [] {
      assert first + second == second;
    } else {
      AloneBoth(Next(s, t, first[0]).value, t, first[1..], second);
      assert (first + second)[1..] == first[1..] + second && (first + second)[0] == first[0];
    }
  }

  lemma AloneThree(s: State, t: Tid, a: Action, b: Action, c: Action)
    requires Next(s, t, a).Some? && Next(Next(s, t, a).value, t, b).Some?
    ensures RunAlone(s, t, [a, b, c]) == Next(Next(Next(s, t, a).value, t, b).value, t, c)
  {
    hide Next;
    var s1 := Next(s, t, a).value;
    var s2 := Next(s1, t, b).value;
    assert [a, b, c][1..] == [b, c] && [b, c][1..] == [c] && [c][1..] == [];
    assert RunAlone(s, t, [a, b, c]) == RunAlone(s1, t, [b, c]);
    assert RunAlone(s1, t, [b, c]) == RunAlone(s2, t, [c]);
    if Next(s2, t, c).Some? { assert RunAlone(Next(s2, t, c).value, t, []) == Next(s2, t, c); }
  }

  /** The slot claimed by a thread that comes in. */
  lemma ClaimsFree(s: State, t: Tid, waits: bool)
    requires At(s, t) == Idle && s.shared.mutex == None && !s.shared.occupied
    ensures var r := RunAlone(s, t, [if waits then New else TryNew, Lock, Look]);
            r.Some? && At(r.value, t) == Claimed(waits) && r.value.shared == s.shared.(occupied := true)
  {
    AloneThree(s, t, if waits then New else TryNew, Lock, Look);
  }

  /** The instance made by the claimant. */
  lemma MakesOracle(s: State, t: Tid)
    requires At(s, t).Claimed? && s.shared.emulator == None && !s.shared.alive
    ensures var r := RunAlone(s, t, [Lock, Make, Make]);
            && r.Some? && At(r.value, t) == Idle
            && r.value.shared == s.shared.(alive := true, oracles := s.shared.oracles + 1)
  {
    AloneThree(s, t, Lock, Make, Make);
  }

  /** Over every schedule: with the slot and both locks free, `new` and `try_new` end with the one oracle. */
  lemma CreationSucceeds(schedule: seq<(Tid, Action)>, t: Tid, waits: bool)
    requires var s := Execute(START, schedule);
             At(s, t) == Idle && !s.shared.occupied && s.shared.mutex == None && s.shared.emulator == None
    ensures var s := Execute(START, schedule);
            var r := RunAlone(s, t, [if waits then New else TryNew, Lock, Look] + [Lock, Make, Make]);
            && r.Some? && At(r.value, t) == Idle && r.value.shared.oracles == 1
            && r.value.shared == s.shared.(occupied := true, alive := true, oracles := 1)
  {
    SingletonSafe(schedule, t, t);
    StartInv();
    ExecuteInv(START, schedule);
    var s := Execute(START, schedule);
    NoneWhenFree(s);
    hide Execute, Next, RunAlone, Inv;
    ClaimsFree(s, t, waits);
    var claimed := RunAlone(s, t, [if waits then New else TryNew, Lock, Look]).value;
    MakesOracle(claimed, t);
    AloneBoth(s, t, [if waits then New else TryNew, Lock, Look], [Lock, Make, Make]);
  }

  lemma NoneWhenFree(s: State)
    requires Inv(s) && !s.shared.occupied
    ensures s.shared.oracles == 0 && !s.shared.alive && !s.shared.leaked
  {
  }

  /** Dropping the oracle, over every schedule and with the locks free: the slot and the emulator are free afterwards,
      and the thread that the notification went to is awake. */
  lemma ReleaseSucceeds(schedule: seq<(Tid, Action)>, t: Tid, w: Tid)
    requires var s := Execute(START, schedule);
             && At(s, t) == Idle && s.shared.oracles > 0 && s.shared.mutex == None && s.shared.emulator == None
             && (At(s, w).Blocked? || !AnyBlocked(s))
    ensures var s := Execute(START, schedule);
            var r := RunAlone(s, t, [Drop, Lock, Free] + [Lock, Clear, Notify(w)]);
            && r.Some? && At(r.value, t) == Idle
            && r.value.shared == s.shared.(occupied := false, alive := false, oracles := 0)
            && (At(s, w).Blocked? ==> At(r.value, w) == Woken(false))
  {
    SingletonSafe(schedule, t, t);
    var s := Execute(START, schedule);
    hide Execute;
    Frees(s, t, w);
    var freed := RunAlone(s, t, [Drop, Lock, Free]).value;
    Releases(freed, t, w);
    hide Next, RunAlone;
    AloneBoth(s, t, [Drop, Lock, Free], [Lock, Clear, Notify(w)]);
  }

  lemma Frees(s: State, t: Tid, w: Tid)
    requires At(s, t) == Idle && s.shared.oracles > 0 && s.shared.emulator == None
    requires At(s, w).Blocked? || !AnyBlocked(s)
    ensures var r := RunAlone(s, t, [Drop, Lock, Free]);
            && r.Some? && At(r.value, t) == Freed
            && r.value.shared == s.shared.(oracles := s.shared.oracles - 1, alive := false)
            && (At(s, w).Blocked? ==> At(r.value, w).Blocked?) && (!AnyBlocked(s) ==> !AnyBlocked(r.value))
  {
    AloneThree(s, t, Drop, Lock, Free);
  }

  lemma Releases(s: State, t: Tid, w: Tid)
    requires At(s, t) == Freed && s.shared.mutex == None && (At(s, w).Blocked? || !AnyBlocked(s))
    ensures var r := RunAlone(s, t, [Lock, Clear, Notify(w)]);
            && r.Some? && At(r.value, t) == Idle && r.value.shared == s.shared.(occupied := false)
            && (At(s, w).Blocked? ==> At(r.value, w) == Woken(false))
  {
    AloneThree(s, t, Lock, Clear, Notify(w));
  }
}
