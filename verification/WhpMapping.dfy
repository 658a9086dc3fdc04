/**
 The handover of the one guest-RAM mapping a process may have among WHP partitions, under any interleaving of
 creating, stepping and dropping oracles on any number of threads.

 Two locks are involved. Creating and stepping hold the backend's lock throughout; claiming the mapping, and dropping
 a partition, hold the lock on the record of its owner. Dropping does not take the backend's lock. Every hypervisor
 call may fail, in which case it changes nothing, and a new partition may get any handle not in use. Nobody looks at the
 results of unmapping and deleting a partition that is dropped; if both fail it stays behind, mapped.
 */
module WhpMapping {
  import opened Wrappers

  type Tid = nat
  type Handle = nat

  /** Where a thread is. `making` tells the claim made while creating from the claim made by a step; `locked` tells a
      drop inside a failed creation, which still holds the backend's lock, from a drop of a finished oracle. */
  datatype Phase =
    | Idle
    | Creating
    | Claim(h: Handle, making: bool)
    | Claiming(h: Handle, making: bool)
    | Unmapped(h: Handle, making: bool)
    | Vacant(h: Handle, making: bool)
    | JustMapped(h: Handle, making: bool)
    | Ready(h: Handle, making: bool)
    | Running(h: Handle)
    | Drop(h: Handle, locked: bool)
    | DropHeld(h: Handle, locked: bool)
    | DropUnmapped(h: Handle, locked: bool)
    | DropCleared(h: Handle, locked: bool)
    | DropDeleted(locked: bool)

  /** `oracles` are the finished oracles that no thread is using. `live` and `mapped` are the hypervisor's partitions
      and those with guest RAM mapped; `leaked` records those that were dropped and are mapped still. */
  datatype State = State(
    phase: map<Tid, Phase>,
    whpLock: Option<Tid>,
    ownerLock: Option<Tid>,
    owner: Option<Handle>,
    oracles: set<Handle>,
    live: set<Handle>,
    mapped: set<Handle>,
    leaked: set<Handle>)

  datatype Action =
    | BeginNew
    | Create(h: Handle)
    | Refuse
    | BeginStep(h: Handle)
    | BeginDrop(h: Handle)
    | LockOwner
    | Call(ok: bool)
    | Record
    | Run
    | Finish

  const START := State(map[], None, None, None, {}, {}, {}, {})

  function At(s: State, t: Tid): Phase { if t in s.phase then s.phase[t] else Idle }

  function Go(s: State, t: Tid, p: Phase): State { s.(phase := s.phase[t := p]) }

  /** A claim that fails: the step reports a fault, the creation drops what it made. */
  function ClaimFails(s: State, t: Tid, h: Handle, making: bool): State {
    if making then Go(s, t, Drop(h, true)).(ownerLock := None)
    else Go(s, t, Idle).(ownerLock := None, whpLock := None, oracles := s.oracles + {h})
  }

  /** One atomic action of thread `t`, or nothing if it cannot be taken. */
  function Next(s: State, t: Tid, a: Action): Option<State> {
    match (At(s, t), a)
    // try_new
    case (Idle, BeginNew) =>
      if s.whpLock == None then Some(Go(s, t, Creating).(whpLock := Some(t))) else None
    case (Creating, Refuse) => Some(Go(s, t, Idle).(whpLock := None))
    case (Creating, Create(h)) =>
      if h !in s.live then Some(Go(s, t, Claim(h, true)).(live := s.live + {h})) else None
    case (Claim(h, making), Refuse) => if making then Some(Go(s, t, Drop(h, true))) else None
    case (Ready(h, making), Refuse) => if making then Some(Go(s, t, Drop(h, true))) else None
    case (Ready(h, making), Finish) =>
      if making then Some(Go(s, t, Idle).(whpLock := None, oracles := s.oracles + {h})) else None
    // step
    case (Idle, BeginStep(h)) =>
      if s.whpLock == None && h in s.oracles then
        Some(Go(s, t, Claim(h, false)).(whpLock := Some(t), oracles := s.oracles - {h}))
      else None
    case (Ready(h, making), Run) => if !making then Some(Go(s, t, Running(h))) else None
    case (Running(h), Run) => Some(s)
    case (Running(h), Finish) => Some(Go(s, t, Idle).(whpLock := None, oracles := s.oracles + {h}))
    // claim_mapping
    case (Claim(h, making), LockOwner) =>
      if s.ownerLock == None then Some(Go(s, t, Claiming(h, making)).(ownerLock := Some(t))) else None
    case (Claiming(h, making), Record) =>
      if s.owner == Some(h) then Some(Go(s, t, Ready(h, making)).(ownerLock := None))
      else if s.owner == None then Some(Go(s, t, Vacant(h, making)))
      else None
    case (Claiming(h, making), Call(ok)) =>
      if s.owner == None || s.owner == Some(h) then None
      else if ok then Some(Go(s, t, Unmapped(h, making)).(mapped := s.mapped - {s.owner.value}))
      else Some(ClaimFails(s, t, h, making))
    case (Unmapped(h, making), Record) => Some(Go(s, t, Vacant(h, making)).(owner := None))
    case (Vacant(h, making), Call(ok)) =>
      if ok then Some(Go(s, t, JustMapped(h, making)).(mapped := s.mapped + {h})) else Some(ClaimFails(s, t, h, making))
    case (JustMapped(h, making), Record) => Some(Go(s, t, Ready(h, making)).(owner := Some(h), ownerLock := None))
    // Partition::drop
    case (Idle, BeginDrop(h)) =>
      if h in s.oracles then Some(Go(s, t, Drop(h, false)).(oracles := s.oracles - {h})) else None
    case (Drop(h, locked), LockOwner) =>
      if s.ownerLock == None then Some(Go(s, t, DropHeld(h, locked)).(ownerLock := Some(t))) else None
    case (DropHeld(h, locked), Call(ok)) =>
      if s.owner == Some(h) then
        Some(Go(s, t, DropUnmapped(h, locked)).(mapped := if ok then s.mapped - {h} else s.mapped))
      else None
    case (DropHeld(h, locked), Record) => if s.owner != Some(h) then Some(Go(s, t, DropCleared(h, locked))) else None
    case (DropUnmapped(h, locked), Record) => Some(Go(s, t, DropCleared(h, locked)).(owner := None))
    case (DropCleared(h, locked), Call(ok)) =>
      if ok then Some(Go(s, t, DropDeleted(locked)).(live := s.live - {h}, mapped := s.mapped - {h}))
      else Some(Go(s, t, DropDeleted(locked)).(leaked := s.leaked + s.mapped * {h}))
    case (DropDeleted(locked), Finish) =>
      Some(Go(s, t, Idle).(ownerLock := None, whpLock := if locked then None else s.whpLock))
    case _ => None
  }

  // ------------------------------------------------------------------------- the invariant

  /** The handle a thread is working on. */
  function Using(p: Phase): set<Handle> {
    match p
    case Idle => {}
    case Creating => {}
    case DropDeleted(_) => {}
    case _ => {p.h}
  }

  predicate NeedsWhpLock(p: Phase) {
    match p
    case Idle => false
    case Drop(_, locked) => locked
    case DropHeld(_, locked) => locked
    case DropUnmapped(_, locked) => locked
    case DropCleared(_, locked) => locked
    case DropDeleted(locked) => locked
    case _ => true
  }

  predicate NeedsOwnerLock(p: Phase) {
    p.Claiming? || p.Unmapped? || p.Vacant? || p.JustMapped?
    || p.DropHeld? || p.DropUnmapped? || p.DropCleared? || p.DropDeleted?
  }

  /** Each lock is held by the thread whose phase needs it, and by no other. */
  ghost predicate Locks(s: State) {
    && (forall t: Tid :: NeedsWhpLock(At(s, t)) <==> s.whpLock == Some(t))
    && (forall t: Tid :: NeedsOwnerLock(At(s, t)) <==> s.ownerLock == Some(t))
  }

  /** A partition in use is live, and used in one place. */
  ghost predicate Separate(s: State) {
    && s.oracles <= s.live
    && (forall t: Tid :: Using(At(s, t)) <= s.live && Using(At(s, t)) !! s.oracles)
    && (forall t: Tid, u: Tid :: t != u ==> Using(At(s, t)) !! Using(At(s, u)))
    && s.leaked <= s.live && s.leaked !! s.oracles && (forall t: Tid :: Using(At(s, t)) !! s.leaked)
  }

  function OwnerSet(s: State): set<Handle> { if s.owner == None then {} else {s.owner.value} }

  /** The partitions that are mapped and not left behind. */
  function Held(s: State): set<Handle> { s.mapped - s.leaked }

  /** What is mapped, as seen from the phase of the thread that holds the owner lock. */
  predicate MappedAs(s: State, p: Phase) {
    match p
    case Unmapped(h, _) => Held(s) == {} && s.owner != None && s.owner != Some(h)
    case Vacant(_, _) => Held(s) == {} && s.owner == None
    case JustMapped(h, _) => Held(s) == {h} && s.owner == None
    case DropUnmapped(h, _) => Held(s) <= {h} && s.owner == Some(h)
    case DropCleared(h, _) =>
      Held(s) - {h} == OwnerSet(s) && s.owner != Some(h) && (s.owner != None ==> h !in Held(s))
    case _ => Held(s) == OwnerSet(s)
  }

  ghost predicate Mapping(s: State) {
    && OwnerSet(s) <= s.live && OwnerSet(s) !! s.leaked && s.leaked <= s.mapped
    && (s.ownerLock == None ==> Held(s) == OwnerSet(s))
    && (forall t: Tid :: s.ownerLock == Some(t) ==> MappedAs(s, At(s, t)))
    && (forall t: Tid :: At(s, t).Running? || At(s, t).Ready? ==> s.owner == Some(At(s, t).h))
  }

  ghost predicate Inv(s: State) { Locks(s) && Separate(s) && Mapping(s) }

  lemma StartInv()
    ensures Inv(START)
  {
  }

  lemma OnlyThread(s: State, t: Tid, a: Action)
    requires Next(s, t, a).Some?
    ensures forall u: Tid :: u != t ==> At(Next(s, t, a).value, u) == At(s, u)
  {
  }

  predicate Taken(before: Option<Tid>, after: Option<Tid>, t: Tid) {
    after == before || (before == None && after == Some(t)) || (before == Some(t) && after == None)
  }

  lemma OwnWhpLock(s: State, t: Tid, a: Action)
    requires Next(s, t, a).Some? && (NeedsWhpLock(At(s, t)) <==> s.whpLock == Some(t))
    ensures var s' := Next(s, t, a).value;
            Taken(s.whpLock, s'.whpLock, t) && (NeedsWhpLock(At(s', t)) <==> s'.whpLock == Some(t))
  {
  }

  lemma OwnOwnerLock(s: State, t: Tid, a: Action)
    requires Next(s, t, a).Some? && (NeedsOwnerLock(At(s, t)) <==> s.ownerLock == Some(t))
    ensures var s' := Next(s, t, a).value;
            Taken(s.ownerLock, s'.ownerLock, t) && (NeedsOwnerLock(At(s', t)) <==> s'.ownerLock == Some(t))
  {
  }

  lemma LocksKept(s: State, t: Tid, a: Action)
    requires Locks(s) && Next(s, t, a).Some?
    ensures Locks(Next(s, t, a).value)
  {
    var s' := Next(s, t, a).value;
    assert NeedsWhpLock(At(s, t)) <==> s.whpLock == Some(t);
    assert NeedsOwnerLock(At(s, t)) <==> s.ownerLock == Some(t);
    OwnWhpLock(s, t, a);
    OwnOwnerLock(s, t, a);
    OnlyThread(s, t, a);
    hide Next, At;
    forall u: Tid
      ensures NeedsWhpLock(At(s', u)) <==> s'.whpLock == Some(u)
      ensures NeedsOwnerLock(At(s', u)) <==> s'.ownerLock == Some(u)
    {
      assert NeedsWhpLock(At(s, u)) <==> s.whpLock == Some(u);
      assert NeedsOwnerLock(At(s, u)) <==> s.ownerLock == Some(u);
    }
  }

  /** What the acting thread uses afterwards it used before, or it was an idle oracle's, or it is new; and it gives up
      no partition of another thread. */
  lemma OwnUse(s: State, t: Tid, a: Action)
    requires Next(s, t, a).Some? && s.oracles <= s.live
    requires Using(At(s, t)) <= s.live && Using(At(s, t)) !! s.oracles && s.leaked <= s.live && s.leaked !! s.oracles
    requires Using(At(s, t)) !! s.leaked
    ensures var s', u, u' := Next(s, t, a).value, Using(At(s, t)), Using(At(Next(s, t, a).value, t));
            && s.live - u <= s'.live && u' <= s'.live && s'.oracles <= s'.live && u' !! s'.oracles
            && u' + s'.oracles <= u + s.oracles + (s'.live - s.live)
            && s'.leaked <= s'.live && s'.leaked <= s.leaked + u && s'.leaked !! u' && s'.leaked !! s'.oracles
  {
  }

  lemma SeparateKept(s: State, t: Tid, a: Action)
    requires Separate(s) && Next(s, t, a).Some?
    ensures Separate(Next(s, t, a).value)
  {
    var s' := Next(s, t, a).value;
    OnlyThread(s, t, a);
    OwnUse(s, t, a);
    hide Next, At, Using;
    forall v: Tid | v != t
      ensures Using(At(s', v)) <= s'.live && Using(At(s', v)) !! s'.oracles && Using(At(s', v)) !! Using(At(s', t))
      ensures Using(At(s', v)) !! s'.leaked
    {
      assert Using(At(s, v)) !! Using(At(s, t)) && Using(At(s, v)) <= s.live && Using(At(s, v)) !! s.oracles;
      assert Using(At(s, v)) !! s.leaked;
    }
    forall v: Tid, w: Tid | v != w ensures Using(At(s', v)) !! Using(At(s', w)) {
      if v != t && w != t { assert Using(At(s, v)) !! Using(At(s, w)); }
    }
  }

  /** A thread without the owner lock changes neither the record nor the mapping, and may at most take the lock. */
  lemma WithoutOwnerLock(s: State, t: Tid, a: Action)
    requires Locks(s) && Next(s, t, a).Some? && s.ownerLock != Some(t)
    ensures var s' := Next(s, t, a).value;
            && s'.mapped == s.mapped && s'.leaked == s.leaked && s'.owner == s.owner && s.live <= s'.live
            && (s'.ownerLock == s.ownerLock
                || (s.ownerLock == None && s'.ownerLock == Some(t) && (At(s', t).Claiming? || At(s', t).DropHeld?)))
            && (At(s', t).Running? || At(s', t).Ready? ==>
                  (At(s, t).Running? || At(s, t).Ready?) && At(s', t).h == At(s, t).h)
  {
    assert NeedsOwnerLock(At(s, t)) <==> s.ownerLock == Some(t);
  }

  /** The thread with the owner lock keeps the record and the mapping in step, phase by phase, and leaves them equal
      when it gives the lock up. */
  lemma WithOwnerLock(s: State, t: Tid, a: Action)
    requires Locks(s) && Next(s, t, a).Some? && s.ownerLock == Some(t)
    requires MappedAs(s, At(s, t)) && OwnerSet(s) <= s.live && Using(At(s, t)) <= s.live
    requires OwnerSet(s) !! s.leaked && s.leaked <= s.mapped && Using(At(s, t)) !! s.leaked
    ensures var s' := Next(s, t, a).value;
            && OwnerSet(s') <= s'.live && OwnerSet(s') !! s'.leaked && s'.leaked <= s'.mapped
            && ((s'.ownerLock == None && Held(s') == OwnerSet(s'))
                || (s'.ownerLock == Some(t) && MappedAs(s', At(s', t))))
            && (At(s', t).Running? || At(s', t).Ready? ==> s'.owner == Some(At(s', t).h))
            && (s'.owner == s.owner || NeedsWhpLock(At(s, t)) || s.owner == Some(At(s, t).h))
  {
    assert NeedsOwnerLock(At(s, t)) <==> s.ownerLock == Some(t);
  }

  lemma MappingKept(s: State, t: Tid, a: Action)
    requires Inv(s) && Next(s, t, a).Some?
    ensures Mapping(Next(s, t, a).value)
  {
    var s' := Next(s, t, a).value;
    OnlyThread(s, t, a);
    assert Using(At(s, t)) <= s.live && Using(At(s, t)) !! s.leaked;
    hide Next, MappedAs;
    if s.ownerLock == Some(t) {
      WithOwnerLock(s, t, a);
      hide Locks, Separate;
      forall u: Tid | At(s', u).Running? || At(s', u).Ready? ensures s'.owner == Some(At(s', u).h) {
        if u != t { OwnerKeptForOthers(s, t, a, u); }
      }
    } else {
      WithoutOwnerLock(s, t, a);
      hide Locks, Separate;
      forall u: Tid | s'.ownerLock == Some(u) ensures MappedAs(s', At(s', u)) {
        if u == t { JustLocked(s', t); } else { SameMappedAs(s, s', At(s, u)); }
      }
    }
  }

  lemma JustLocked(s: State, t: Tid)
    requires At(s, t).Claiming? || At(s, t).DropHeld?
    ensures Held(s) == OwnerSet(s) ==> MappedAs(s, At(s, t))
  {
  }

  lemma SameMappedAs(s: State, s': State, p: Phase)
    requires s'.mapped == s.mapped && s'.leaked == s.leaked && s'.owner == s.owner
    ensures MappedAs(s', p) == MappedAs(s, p)
  {
  }

  /** A run, or the moment before it, cannot lose its mapping to another thread. */
  lemma OwnerKeptForOthers(s: State, t: Tid, a: Action, u: Tid)
    requires Inv(s) && Next(s, t, a).Some? && s.ownerLock == Some(t) && u != t && (At(s, u).Running? || At(s, u).Ready?)
    ensures Next(s, t, a).value.owner == s.owner == Some(At(s, u).h)
  {
    assert MappedAs(s, At(s, t)) && Using(At(s, t)) <= s.live && Using(At(s, t)) !! s.leaked;
    WithOwnerLock(s, t, a);
    hide Next, MappedAs;
    assert NeedsWhpLock(At(s, u)) <==> s.whpLock == Some(u);
    assert NeedsWhpLock(At(s, t)) <==> s.whpLock == Some(t);
    assert NeedsOwnerLock(At(s, t)) <==> s.ownerLock == Some(t);
    assert Using(At(s, t)) !! Using(At(s, u));
  }

  lemma InvKept(s: State, t: Tid, a: Action)
    requires Inv(s) && Next(s, t, a).Some?
    ensures Inv(Next(s, t, a).value)
  {
    hide Next, Locks, Separate, Mapping;
    LocksKept(s, t, a);
    SeparateKept(s, t, a);
    MappingKept(s, t, a);
  }

  // ------------------------------------------------------------------------- any run

  /** A schedule; an action that cannot be taken when its turn comes is passed over. */
  function Execute(s: State, schedule: seq<(Tid, Action)>): State
    decreases |schedule|
  {
    if schedule == [] then s
    else
      var (t, a) := schedule[0];
      Execute(match Next(s, t, a) case None => s case Some(s') => s', schedule[1..])
  }

  lemma {:induction false} ExecuteInv(s: State, schedule: seq<(Tid, Action)>)
    requires Inv(s)
    ensures Inv(Execute(s, schedule))
    decreases |schedule|
  {
    hide Inv, Next;
    if schedule != [] {
      var (t, a) := schedule[0];
      if Next(s, t, a).Some? { InvKept(s, t, a); }
      ExecuteInv(match Next(s, t, a) case None => s case Some(s') => s', schedule[1..]);
    }
  }

  /** Whether a thread is about to ask the hypervisor to map its RAM, to unmap the previous owner's, or its own. */
  predicate AboutToMap(s: State, t: Tid) { At(s, t).Vacant? }

  predicate AboutToUnmap(s: State, t: Tid, g: Handle) {
    (At(s, t).Claiming? || (At(s, t).DropHeld? && At(s, t).h == g)) && s.owner == Some(g)
    && (At(s, t).Claiming? ==> At(s, t).h != g)
  }

  /** Over every schedule, but for the partitions left behind by a drop: at most one is mapped; between critical
      sections it is the recorded owner, a live partition; every run of a processor has its own RAM mapped and no other;
      a request to map finds nothing mapped, so it is never denied on another's account; and a request to unmap names a
      live partition that is mapped, so never a later partition that was given the same handle. One left behind is live,
      which keeps its handle from being given out, and nobody's. */
  lemma MappingSafe(schedule: seq<(Tid, Action)>, t: Tid, g: Handle)
    ensures var s := Execute(START, schedule);
            && s.leaked <= s.mapped && |Held(s)| <= 1
            && s.leaked <= s.live && s.leaked !! s.oracles && s.leaked !! Using(At(s, t)) && s.leaked !! OwnerSet(s)
            && (s.ownerLock == None ==> s.mapped == OwnerSet(s) + s.leaked) && OwnerSet(s) <= s.live
            && (At(s, t).Running? ==> s.owner == Some(At(s, t).h) && s.mapped == {At(s, t).h} + s.leaked)
            && (AboutToMap(s, t) ==> s.mapped == s.leaked)
            && (AboutToUnmap(s, t, g) ==> s.mapped == {g} + s.leaked && g in s.live)
  {
    StartInv();
    ExecuteInv(START, schedule);
    var s := Execute(START, schedule);
    hide Execute;
    assert NeedsOwnerLock(At(s, t)) <==> s.ownerLock == Some(t);
    assert Using(At(s, t)) !! s.leaked;
    if s.ownerLock.Some? {
      var u := s.ownerLock.value;
      HolderMaps(s, u, t);
    }
    AtMostOne(Held(s));
    assert s.mapped == Held(s) + s.leaked;
  }

  lemma MappedOne(s: State, p: Phase)
    requires MappedAs(s, p)
    ensures forall g, h :: g in Held(s) && h in Held(s) ==> g == h
  {
    forall g, h | g in Held(s) && h in Held(s) ensures g == h {
      if p.DropCleared? {
        assert g != p.h ==> g in Held(s) - {p.h};
        assert h != p.h ==> h in Held(s) - {p.h};
      } else if p.DropUnmapped? {
        assert Held(s) <= {p.h};
      } else if p.JustMapped? {
        assert Held(s) == {p.h};
      } else {
        assert g in OwnerSet(s) && h in OwnerSet(s);
      }
    }
  }

  lemma HolderMaps(s: State, u: Tid, t: Tid)
    requires Inv(s) && s.ownerLock == Some(u)
    ensures forall g, h :: g in Held(s) && h in Held(s) ==> g == h
    ensures At(s, t).Running? ==> Held(s) == {At(s, t).h}
  {
    assert MappedAs(s, At(s, u));
    MappedOne(s, At(s, u));
    assert NeedsOwnerLock(At(s, u)) <==> s.ownerLock == Some(u);
    assert NeedsWhpLock(At(s, u)) <==> s.whpLock == Some(u);
    assert NeedsWhpLock(At(s, t)) <==> s.whpLock == Some(t);
    if At(s, t).Running? {
      assert u != t;
      assert Using(At(s, t)) !! Using(At(s, u));
    }
  }

  lemma AtMostOne(hs: set<Handle>)
    requires forall g, h :: g in hs && h in hs ==> g == h
    ensures |hs| <= 1
  {
    if hs != {} {
      var h :| h in hs;
      assert hs == {h};
    }
  }

  /** Whenever a thread is inside one of the three operations, it can go on itself or the thread that holds the owner
      lock, also inside an operation, can: the two locks never deadlock. */
  lemma NoDeadlock(schedule: seq<(Tid, Action)>, t: Tid)
    requires At(Execute(START, schedule), t) != Idle
    ensures var s := Execute(START, schedule);
            exists u: Tid, a: Action ::
              (u == t || s.ownerLock == Some(u)) && At(s, u) != Idle && Next(s, u, a).Some?
  {
    StartInv();
    ExecuteInv(START, schedule);
    var s := Execute(START, schedule);
    hide Execute;
    var u := match s.ownerLock case None => t case Some(holder) => holder;
    assert NeedsOwnerLock(At(s, u)) <==> s.ownerLock == Some(u);
    var a := Enabled(s, u);
  }

  lemma Enabled(s: State, u: Tid) returns (a: Action)
    requires At(s, u) != Idle && (NeedsOwnerLock(At(s, u)) || s.ownerLock == None)
    ensures Next(s, u, a).Some?
  {
    match At(s, u)
    case Creating => a := Refuse;
    case Claim(_, _) => a := LockOwner;
    case Claiming(h, _) => a := if s.owner == None || s.owner == Some(h) then Record else Call(true);
    case Unmapped(_, _) => a := Record;
    case Vacant(_, _) => a := Call(true);
    case JustMapped(_, _) => a := Record;
    case Ready(_, making) => a := if making then Finish else Run;
    case Running(_) => a := Finish;
    case Drop(_, _) => a := LockOwner;
    case DropHeld(h, _) => a := if s.owner == Some(h) then Call(true) else Record;
    case DropUnmapped(_, _) => a := Record;
    case DropCleared(_, _) => a := Call(true);
    case DropDeleted(_) => a := Finish;
  }

  // ------------------------------------------------------------------------- what goes through

  predicate TakingOver(p: Phase) { p.Claim? || p.Claiming? || p.Unmapped? || p.Vacant? || p.JustMapped? }

  /** A thread taking over the mapping goes on to the end, unless a hypervisor call fails. A creation may also be
      refused before or after; otherwise what has the mapping is run, or handed out. An oracle whose step fails can be
      stepped again. */
  lemma FailsOnlyByCall(s: State, t: Tid, a: Action)
    requires (TakingOver(At(s, t)) || At(s, t).Ready?) && Next(s, t, a).Some?
    ensures var p, s' := At(s, t), Next(s, t, a).value;
            var p' := At(s', t);
            if TakingOver(p') || p'.Ready? then TakingOver(p) && p'.h == p.h && p'.making == p.making
            else if p.Ready? && p.making && a == Finish then p' == Idle && p.h in s'.oracles
            else if p.Ready? && !p.making then p' == Running(p.h)
            else
              && p' == (if p.making then Drop(p.h, true) else Idle)
              && (if p.Ready? then a == Refuse else a == Call(false) || (a == Refuse && p.Claim? && p.making))
              && s'.live == s.live && s'.oracles == (if p.making then s.oracles else s.oracles + {p.h})
              && s'.whpLock == (if p.making then s.whpLock else None)
  {
  }

  /** Actions of one thread, every one of which it must be able to take. */
  function RunAlone(s: State, t: Tid, actions: seq<Action>): Option<State>
    decreases |actions|
  {
    if actions == [] then Some(s)
    else
      match Next(s, t, actions[0])
      case None => None
      case Some(s') => RunAlone(s', t, actions[1..])
  }

  function By(t: Tid, actions: seq<Action>): seq<(Tid, Action)> {
    seq(|actions|, i requires 0 <= i < |actions| => (t, actions[i]))
  }

  /** Such a run is one of the schedules. */
  lemma {:induction false} AloneExecutes(s: State, t: Tid, actions: seq<Action>)
    requires RunAlone(s, t, actions).Some?
    ensures RunAlone(s, t, actions) == Some(Execute(s, By(t, actions)))
    decreases |actions|
  {
    hide Next;
    if actions != [] {
      AloneExecutes(Next(s, t, actions[0]).value, t, actions[1..]);
      assert By(t, actions)[1..] == By(t, actions[1..]) && By(t, actions)[0] == (t, actions[0]);
    }
  }

  lemma {:induction false} AloneBoth(s: State, t: Tid, first: seq<Action>, second: seq<Action>)
    requires RunAlone(s, t, first).Some?
    ensures RunAlone(s, t, first + second) == RunAlone(RunAlone(s, t, first).value, t, second)
    decreases |first|
  {
    hide Next;
    if first == [] {
      assert first + second == second;
    } else {
      AloneBoth(Next(s, t, first[0]).value, t, first[1..], second);
      assert (first + second)[1..] == first[1..] + second && (first + second)[0] == first[0];
    }
  }

  lemma AloneOne(s: State, t: Tid, a: Action)
    ensures RunAlone(s, t, [a]) == Next(s, t, a)
  {
    hide Next;
    assert [a][1..] == [];
    if Next(s, t, a).Some? { assert RunAlone(Next(s, t, a).value, t, []) == Next(s, t, a); }
  }

  lemma AloneTwo(s: State, t: Tid, a: Action, b: Action)
    requires Next(s, t, a).Some?
    ensures RunAlone(s, t, [a, b]) == Next(Next(s, t, a).value, t, b)
  {
    hide Next;
    assert [a] + [b] == [a, b];
    AloneOne(s, t, a);
    AloneBoth(s, t, [a], [b]);
    AloneOne(Next(s, t, a).value, t, b);
  }

  /** What the state is but for where threads are. */
  function Rest(s: State): State { s.(phase := map[]) }

  /** `claim_mapping` with every call succeeding. */
  function TakeOver(owner: Option<Handle>, h: Handle): seq<Action> {
    [LockOwner]
    + match owner
      case None => [Record] + [Call(true), Record]
      case Some(g) => if g == h then [Record] else [Call(true), Record] + [Call(true), Record]
  }

  /** The mapping made. */
  lemma MapVacant(s: State, t: Tid, h: Handle, making: bool)
    requires At(s, t) == Vacant(h, making)
    ensures var r := RunAlone(s, t, [Call(true), Record]);
            && r.Some? && At(r.value, t) == Ready(h, making)
            && Rest(r.value) == Rest(s).(owner := Some(h), mapped := s.mapped + {h}, ownerLock := None)
  {
    AloneTwo(s, t, Call(true), Record);
  }

  /** The previous owner's mapping removed. */
  lemma UnmapOther(s: State, t: Tid, h: Handle, making: bool, g: Handle)
    requires At(s, t) == Claiming(h, making) && s.owner == Some(g) && g != h
    ensures var r := RunAlone(s, t, [Call(true), Record]);
            && r.Some? && At(r.value, t) == Vacant(h, making)
            && Rest(r.value) == Rest(s).(owner := None, mapped := s.mapped - {g})
  {
    AloneTwo(s, t, Call(true), Record);
  }

  lemma LockForClaim(s: State, t: Tid, h: Handle, making: bool)
    requires At(s, t) == Claim(h, making) && s.ownerLock == None
    ensures var r := RunAlone(s, t, [LockOwner]);
            && r.Some? && At(r.value, t) == Claiming(h, making)
            && Rest(r.value) == Rest(s).(ownerLock := Some(t))
  {
    AloneOne(s, t, LockOwner);
  }

  lemma FindOwn(s: State, t: Tid, h: Handle, making: bool)
    requires At(s, t) == Claiming(h, making) && (s.owner == None || s.owner == Some(h))
    ensures var r := RunAlone(s, t, [Record]);
            && r.Some? && At(r.value, t) == (if s.owner == None then Vacant(h, making) else Ready(h, making))
            && Rest(r.value) == (if s.owner == None then Rest(s) else Rest(s).(ownerLock := None))
  {
    AloneOne(s, t, Record);
  }

  /** Whoever owned the mapping before, a claim with every call succeeding ends with the claimant owning it, mapped,
      and nobody else. */
  lemma ClaimSucceeds(s: State, t: Tid, h: Handle, making: bool)
    requires Inv(s) && At(s, t) == Claim(h, making) && s.ownerLock == None
    ensures var r := RunAlone(s, t, TakeOver(s.owner, h));
            && r.Some? && At(r.value, t) == Ready(h, making)
            && Rest(r.value) == Rest(s).(owner := Some(h), mapped := {h} + s.leaked)
  {
    assert Held(s) == OwnerSet(s) && s.mapped == Held(s) + s.leaked && OwnerSet(s) !! s.leaked;
    hide Next, RunAlone, Inv, At;
    LockForClaim(s, t, h, making);
    var locked := RunAlone(s, t, [LockOwner]).value;
    if s.owner == Some(h) {
      FindOwn(locked, t, h, making);
      AloneBoth(s, t, [LockOwner], [Record]);
    } else if s.owner == None {
      FindOwn(locked, t, h, making);
      var vacant := RunAlone(locked, t, [Record]).value;
      MapVacant(vacant, t, h, making);
      AloneBoth(locked, t, [Record], [Call(true), Record]);
      AloneBoth(s, t, [LockOwner], [Record] + [Call(true), Record]);
    } else {
      UnmapOther(locked, t, h, making, s.owner.value);
      var vacant := RunAlone(locked, t, [Call(true), Record]).value;
      MapVacant(vacant, t, h, making);
      AloneBoth(locked, t, [Call(true), Record], [Call(true), Record]);
      AloneBoth(s, t, [LockOwner], [Call(true), Record] + [Call(true), Record]);
    }
  }

  /** `try_new` with every call succeeding. */
  function Creation(owner: Option<Handle>, h: Handle): seq<Action> {
    [BeginNew, Create(h)] + (TakeOver(owner, h) + [Finish])
  }

  /** From an idle thread with both locks free it ends with a new oracle that owns the mapping. */
  lemma NewReaches(s: State, t: Tid, h: Handle)
    requires Inv(s) && At(s, t) == Idle && s.whpLock == None && s.ownerLock == None && h !in s.live
    ensures var r := RunAlone(s, t, Creation(s.owner, h));
            && r.Some? && At(r.value, t) == Idle
            && Rest(r.value) == Rest(s).(owner := Some(h), oracles := s.oracles + {h}, live := s.live + {h},
                                         mapped := {h} + s.leaked)
  {
    BeginsNew(s, t, h);
    var claiming := RunAlone(s, t, [BeginNew, Create(h)]).value;
    KeptAlone(s, t, [BeginNew, Create(h)]);
    hide Next, RunAlone, Inv, At, TakeOver;
    ClaimSucceeds(claiming, t, h, true);
    Finishes(RunAlone(claiming, t, TakeOver(s.owner, h)).value, t, h);
    AloneBoth(claiming, t, TakeOver(s.owner, h), [Finish]);
    AloneBoth(s, t, [BeginNew, Create(h)], TakeOver(s.owner, h) + [Finish]);
  }

  /** The same over every schedule. */
  lemma NewSucceeds(schedule: seq<(Tid, Action)>, t: Tid, h: Handle)
    requires var s := Execute(START, schedule);
             At(s, t) == Idle && s.whpLock == None && s.ownerLock == None && h !in s.live
    ensures var s := Execute(START, schedule);
            var r := RunAlone(s, t, Creation(s.owner, h));
            && r.Some? && At(r.value, t) == Idle
            && Rest(r.value) == Rest(s).(owner := Some(h), oracles := s.oracles + {h}, live := s.live + {h},
                                         mapped := {h} + s.leaked)
  {
    StartInv();
    ExecuteInv(START, schedule);
    NewReaches(Execute(START, schedule), t, h);
  }

  lemma BeginsNew(s: State, t: Tid, h: Handle)
    requires At(s, t) == Idle && s.whpLock == None && h !in s.live
    ensures var r := RunAlone(s, t, [BeginNew, Create(h)]);
            && r.Some? && At(r.value, t) == Claim(h, true)
            && Rest(r.value) == Rest(s).(whpLock := Some(t), live := s.live + {h})
  {
    AloneTwo(s, t, BeginNew, Create(h));
  }

  lemma Finishes(s: State, t: Tid, h: Handle)
    requires At(s, t) == Ready(h, true)
    ensures var r := RunAlone(s, t, [Finish]);
            r.Some? && At(r.value, t) == Idle && Rest(r.value) == Rest(s).(whpLock := None, oracles := s.oracles + {h})
  {
    AloneOne(s, t, Finish);
  }

  lemma {:induction false} KeptAlone(s: State, t: Tid, actions: seq<Action>)
    requires Inv(s) && RunAlone(s, t, actions).Some?
    ensures Inv(RunAlone(s, t, actions).value)
    decreases |actions|
  {
    hide Inv, Next;
    if actions != [] {
      InvKept(s, t, actions[0]);
      KeptAlone(Next(s, t, actions[0]).value, t, actions[1..]);
    }
  }

  /** `step`, likewise: an oracle comes to run with its own RAM mapped, whoever ran before, and is given back. */
  lemma StepSucceeds(schedule: seq<(Tid, Action)>, t: Tid, h: Handle)
    requires var s := Execute(START, schedule);
             At(s, t) == Idle && s.whpLock == None && s.ownerLock == None && h in s.oracles
    ensures var s := Execute(START, schedule);
            var r := RunAlone(s, t, [BeginStep(h)] + (TakeOver(s.owner, h) + [Run]));
            && r.Some? && At(r.value, t) == Running(h)
            && Rest(r.value) == Rest(s).(owner := Some(h), oracles := s.oracles - {h}, mapped := {h} + s.leaked,
                                         whpLock := Some(t))
            && var done := RunAlone(r.value, t, [Finish]);
               done.Some? && At(done.value, t) == Idle
               && Rest(done.value) == Rest(s).(owner := Some(h), mapped := {h} + s.leaked)
  {
    StartInv();
    ExecuteInv(START, schedule);
    var s := Execute(START, schedule);
    BeginsStep(s, t, h);
    var claiming := RunAlone(s, t, [BeginStep(h)]).value;
    KeptAlone(s, t, [BeginStep(h)]);
    hide Next, RunAlone, Inv, At, Execute, TakeOver;
    ClaimSucceeds(claiming, t, h, false);
    var ready := RunAlone(claiming, t, TakeOver(s.owner, h)).value;
    RunsAndFinishes(ready, t, h);
    assert s.oracles - {h} + {h} == s.oracles;
    AloneBoth(claiming, t, TakeOver(s.owner, h), [Run]);
    AloneBoth(s, t, [BeginStep(h)], TakeOver(s.owner, h) + [Run]);
  }

  lemma BeginsStep(s: State, t: Tid, h: Handle)
    requires At(s, t) == Idle && s.whpLock == None && h in s.oracles
    ensures var r := RunAlone(s, t, [BeginStep(h)]);
            && r.Some? && At(r.value, t) == Claim(h, false)
            && Rest(r.value) == Rest(s).(whpLock := Some(t), oracles := s.oracles - {h})
  {
    AloneOne(s, t, BeginStep(h));
  }

  lemma RunsAndFinishes(s: State, t: Tid, h: Handle)
    requires At(s, t) == Ready(h, false)
    ensures var r := RunAlone(s, t, [Run]);
            && r.Some? && At(r.value, t) == Running(h) && Rest(r.value) == Rest(s)
            && var done := RunAlone(r.value, t, [Finish]);
               done.Some? && At(done.value, t) == Idle
               && Rest(done.value) == Rest(s).(whpLock := None, oracles := s.oracles + {h})
  {
    AloneOne(s, t, Run);
    AloneOne(Next(s, t, Run).value, t, Finish);
  }

  /** `Partition::drop` with every call succeeding. */
  function Release(owner: Option<Handle>, h: Handle): seq<Action> {
    (if owner == Some(h) then [Call(true), Record] else [Record]) + [Call(true), Finish]
  }

  /** Dropping, likewise: the partition and its mapping go, the record names it no longer, and nobody else loses
      theirs. */
  lemma DropSucceeds(schedule: seq<(Tid, Action)>, t: Tid, h: Handle)
    requires var s := Execute(START, schedule); At(s, t) == Idle && s.ownerLock == None && h in s.oracles
    ensures var s := Execute(START, schedule);
            var r := RunAlone(s, t, [BeginDrop(h), LockOwner] + Release(s.owner, h));
            && r.Some? && At(r.value, t) == Idle
            && Rest(r.value) == Rest(s).(owner := if s.owner == Some(h) then None else s.owner,
                                         oracles := s.oracles - {h}, live := s.live - {h}, mapped := s.mapped - {h})
  {
    var s := Execute(START, schedule);
    BeginsDrop(s, t, h);
    var held := RunAlone(s, t, [BeginDrop(h), LockOwner]).value;
    hide Next, RunAlone, At, Execute;
    var first := if s.owner == Some(h) then [Call(true), Record] else [Record];
    if s.owner == Some(h) { UnmapsOwn(held, t, h); } else { LeavesRecord(held, t, h); }
    Deletes(RunAlone(held, t, first).value, t, h);
    assert s.mapped - {h} - {h} == s.mapped - {h};
    AloneBoth(held, t, first, [Call(true), Finish]);
    AloneBoth(s, t, [BeginDrop(h), LockOwner], Release(s.owner, h));
  }

  lemma BeginsDrop(s: State, t: Tid, h: Handle)
    requires At(s, t) == Idle && s.ownerLock == None && h in s.oracles
    ensures var r := RunAlone(s, t, [BeginDrop(h), LockOwner]);
            && r.Some? && At(r.value, t) == DropHeld(h, false)
            && Rest(r.value) == Rest(s).(ownerLock := Some(t), oracles := s.oracles - {h})
  {
    AloneTwo(s, t, BeginDrop(h), LockOwner);
  }

  lemma UnmapsOwn(s: State, t: Tid, h: Handle)
    requires At(s, t) == DropHeld(h, false) && s.owner == Some(h)
    ensures var r := RunAlone(s, t, [Call(true), Record]);
            && r.Some? && At(r.value, t) == DropCleared(h, false)
            && Rest(r.value) == Rest(s).(owner := None, mapped := s.mapped - {h})
  {
    AloneTwo(s, t, Call(true), Record);
  }

  lemma LeavesRecord(s: State, t: Tid, h: Handle)
    requires At(s, t) == DropHeld(h, false) && s.owner != Some(h)
    ensures var r := RunAlone(s, t, [Record]);
            r.Some? && At(r.value, t) == DropCleared(h, false) && Rest(r.value) == Rest(s)
  {
    AloneOne(s, t, Record);
  }

  lemma Deletes(s: State, t: Tid, h: Handle)
    requires At(s, t) == DropCleared(h, false)
    ensures var r := RunAlone(s, t, [Call(true), Finish]);
            && r.Some? && At(r.value, t) == Idle
            && Rest(r.value) == Rest(s).(live := s.live - {h}, mapped := s.mapped - {h}, ownerLock := None)
  {
    AloneTwo(s, t, Call(true), Finish);
  }

  /** A drop of the owner, of whose hypervisor calls both fail. */
  function FailedDrop(h: Handle): seq<Action> {
    [BeginDrop(h), LockOwner] + ([Call(false), Record] + [Call(false), Finish])
  }

  lemma FailsToUnmap(s: State, t: Tid, h: Handle)
    requires At(s, t) == DropHeld(h, false) && s.owner == Some(h)
    ensures var r := RunAlone(s, t, [Call(false), Record]);
            r.Some? && At(r.value, t) == DropCleared(h, false) && Rest(r.value) == Rest(s).(owner := None)
  {
    AloneTwo(s, t, Call(false), Record);
  }

  lemma FailsToDelete(s: State, t: Tid, h: Handle)
    requires At(s, t) == DropCleared(h, false)
    ensures var r := RunAlone(s, t, [Call(false), Finish]);
            && r.Some? && At(r.value, t) == Idle
            && Rest(r.value) == Rest(s).(ownerLock := None, leaked := s.leaked + s.mapped * {h})
  {
    AloneTwo(s, t, Call(false), Finish);
  }

  lemma LeavesBehind(s: State, t: Tid, h: Handle)
    requires At(s, t) == Idle && s.ownerLock == None && h in s.oracles && s.owner == Some(h) && h in s.mapped
    ensures var r := RunAlone(s, t, FailedDrop(h));
            && r.Some? && At(r.value, t) == Idle
            && Rest(r.value) == Rest(s).(owner := None, oracles := s.oracles - {h}, leaked := s.leaked + {h})
  {
    hide Next, RunAlone, At;
    BeginsDrop(s, t, h);
    var held := RunAlone(s, t, [BeginDrop(h), LockOwner]).value;
    FailsToUnmap(held, t, h);
    FailsToDelete(RunAlone(held, t, [Call(false), Record]).value, t, h);
    assert s.mapped * {h} == {h};
    AloneBoth(held, t, [Call(false), Record], [Call(false), Finish]);
    AloneBoth(s, t, [BeginDrop(h), LockOwner], [Call(false), Record] + [Call(false), Finish]);
  }

  /** An oracle is made, dropped and left behind, and another is made. */
  function Leak(): seq<Action> { Creation(None, 1) + (FailedDrop(1) + Creation(None, 2)) }

  /** Two partitions can be mapped at once, and are only if one was left behind: its drop's unmapping and deletion both
      failed. */
  lemma TwoMapped(schedule: seq<(Tid, Action)>)
    ensures |Execute(START, schedule).mapped| >= 2 ==> Execute(START, schedule).leaked != {}
    ensures Execute(START, By(0, Leak())).mapped == {1, 2}
  {
    MappingSafe(schedule, 0, 0);
    var s := Execute(START, schedule);
    if s.leaked == {} { assert s.mapped == Held(s); }
    hide Next, RunAlone, Execute, Inv, Leak;
    LeakRun();
    AloneExecutes(START, 0, Leak());
  }

  lemma LeakRun()
    ensures var r := RunAlone(START, 0, Leak()); r.Some? && r.value.mapped == {1, 2}
  {
    StartInv();
    assert At(START, 0) == Idle && Rest(START) == START;
    hide Next, RunAlone, Inv, At, Creation, FailedDrop;
    NewReaches(START, 0, 1);
    var made := RunAlone(START, 0, Creation(None, 1)).value;
    KeptAlone(START, 0, Creation(None, 1));
    assert Rest(made) == State(map[], None, None, Some(1), {1}, {1}, {1}, {});
    LeavesBehind(made, 0, 1);
    var left := RunAlone(made, 0, FailedDrop(1)).value;
    KeptAlone(made, 0, FailedDrop(1));
    assert Rest(left) == State(map[], None, None, None, {}, {1}, {1}, {1});
    NewReaches(left, 0, 2);
    AloneBoth(made, 0, FailedDrop(1), Creation(None, 2));
    AloneBoth(START, 0, Creation(None, 1), FailedDrop(1) + Creation(None, 2));
  }
}
