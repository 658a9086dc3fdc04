/**
 Many Sail model instances over one runtime. The runtime keeps guest memory in a process-wide list of blocks; every call
 swaps the instance's own list in and the possibly longer one back out. Process-wide scratch state is started with the
 first instance and finished with the last.
 */
module Sail {
  import opened Bytes

  const BLOCK: nat := 0x100_0000

  function Base(a: nat): nat { a - a % BLOCK }

  function Offset(a: nat): nat { a % BLOCK }

  // ------------------------------------------------------------------------- a list of blocks, as values

  /** The block ids and contents of a list, front first. */
  type Snapshot = seq<(nat, seq<Byte>)>

  /** Blocks of the right size with ids of their own. */
  predicate Wf(s: Snapshot) {
    && (forall k :: 0 <= k < |s| ==> |s[k].1| == BLOCK)
    && (forall k, l :: 0 <= k < l < |s| ==> s[k].0 != s[l].0)
  }

  /** What `read_mem` finds. */
  function Look(s: Snapshot, a: nat): Byte
    requires Wf(s)
  {
    if s == [] then 0 else if s[0].0 == Base(a) then s[0].1[Offset(a)] else Look(s[1..], a)
  }

  predicate Mapped(s: Snapshot, a: nat) { exists k :: 0 <= k < |s| && s[k].0 == Base(a) }

  lemma {:induction false} LookAt(s: Snapshot, a: nat, k: nat)
    requires Wf(s) && k < |s| && s[k].0 == Base(a)
    ensures Look(s, a) == s[k].1[Offset(a)]
  {
    if k > 0 { LookAt(s[1..], a, k - 1); }
  }

  lemma {:induction false} LookNowhere(s: Snapshot, a: nat)
    requires Wf(s) && !Mapped(s, a)
    ensures Look(s, a) == 0
  {
    if s != [] {
      assert s[0].0 != Base(a);
      assert forall k :: 0 <= k < |s[1..]| ==> s[1..][k] == s[k + 1];
      LookNowhere(s[1..], a);
    }
  }

  /** `t` is `s` after one byte is written, and only that. */
  ghost predicate Written(s: Snapshot, t: Snapshot, addr: nat, byte: Byte) {
    && Wf(s) && Wf(t)
    && (forall a: nat :: Look(t, a) == if a == addr then byte else Look(s, a))
    && (forall a: nat :: Mapped(t, a) <==> Mapped(s, a) || Base(a) == Base(addr))
  }

  lemma Split(a: nat, b: nat)
    ensures a == b <==> Base(a) == Base(b) && Offset(a) == Offset(b)
  {
  }

  lemma WriteInPlace(s: Snapshot, addr: nat, byte: Byte, k: nat)
    requires Wf(s) && k < |s| && s[k].0 == Base(addr)
    ensures Written(s, s[k := (s[k].0, s[k].1[Offset(addr) := byte])], addr, byte)
  {
    var t := s[k := (s[k].0, s[k].1[Offset(addr) := byte])];
    forall a: nat
      ensures Look(t, a) == if a == addr then byte else Look(s, a)
      ensures Mapped(t, a) <==> Mapped(s, a) || Base(a) == Base(addr)
    {
      Split(a, addr);
      assert forall l :: 0 <= l < |s| ==> t[l].0 == s[l].0;
      if l :| 0 <= l < |s| && s[l].0 == Base(a) {
        LookAt(s, a, l);
        LookAt(t, a, l);
      } else {
        LookNowhere(s, a);
        LookNowhere(t, a);
      }
    }
  }

  lemma WriteInFront(s: Snapshot, addr: nat, byte: Byte, data: seq<Byte>)
    requires Wf(s) && !Mapped(s, addr) && |data| == BLOCK && data[Offset(addr)] == byte
    requires forall o :: 0 <= o < BLOCK && o != Offset(addr) ==> data[o] == 0
    ensures Written(s, [(Base(addr), data)] + s, addr, byte)
  {
    var t := [(Base(addr), data)] + s;
    forall k | 0 <= k < |s| ensures t[k + 1] == s[k] {}
    forall k, l | 0 <= k < l < |t| ensures t[k].0 != t[l].0 {
      if k == 0 { assert s[l - 1].0 != Base(addr); }
    }
    forall a: nat
      ensures Look(t, a) == if a == addr then byte else Look(s, a)
      ensures Mapped(t, a) <==> Mapped(s, a) || Base(a) == Base(addr)
    {
      Split(a, addr);
      FrontMapped(s, (Base(addr), data), a);
      assert t[1..] == s;
      if Base(a) == Base(addr) { SameBase(s, a, addr); }
    }
  }

  lemma SameBase(s: Snapshot, a: nat, b: nat)
    requires Wf(s) && Base(a) == Base(b) && !Mapped(s, b)
    ensures Look(s, a) == 0
  {
    LookNowhere(s, a);
  }

  lemma FrontMapped(s: Snapshot, front: (nat, seq<Byte>), a: nat)
    ensures Mapped([front] + s, a) <==> Mapped(s, a) || front.0 == Base(a)
  {
    var t := [front] + s;
    if front.0 == Base(a) { assert t[0].0 == Base(a); }
    if k :| 0 <= k < |s| && s[k].0 == Base(a) { assert t[k + 1].0 == Base(a); }
    if k :| 0 <= k < |t| && t[k].0 == Base(a) { assert k > 0 ==> s[k - 1] == t[k]; }
  }

  // ------------------------------------------------------------------------- the runtime and its instances

  class Block {
    const id: nat
    const mem: array<Byte>

    constructor (id: nat)
      ensures this.id == id && fresh(mem) && mem.Length == BLOCK && forall o :: 0 <= o < BLOCK ==> mem[o] == 0
    {
      this.id := id;
      mem := new Byte[BLOCK](_ => 0);
    }
  }

  /** `OracleInstance`: the list head of the instance. */
  class Instance {
    var memory: seq<Block>

    constructor ()
      ensures memory == []
    {
      memory := [];
    }
  }

  function Arrays(blocks: seq<Block>): set<object> { set b | b in blocks :: b.mem }

  predicate Owned(blocks: seq<Block>) {
    && (forall k :: 0 <= k < |blocks| ==> blocks[k].mem.Length == BLOCK)
    && (forall k, l :: 0 <= k < l < |blocks| ==> blocks[k].id != blocks[l].id && blocks[k].mem != blocks[l].mem)
  }

  function Snap(blocks: seq<Block>): (s: Snapshot)
    reads Arrays(blocks)
    ensures |s| == |blocks|
    ensures forall k :: 0 <= k < |s| ==> s[k] == (blocks[k].id, blocks[k].mem[..])
    ensures Owned(blocks) ==> Wf(s)
  {
    if blocks == [] then [] else [(blocks[0].id, blocks[0].mem[..])] + Snap(blocks[1..])
  }

  type Write = (nat, Byte)

  /** What a run of writes leaves at an address that held `byte`. */
  function Last(writes: seq<Write>, a: nat, byte: Byte): Byte {
    if writes == [] then byte
    else
      var (addr, value) := writes[|writes| - 1];
      if addr == a then value else Last(writes[..|writes| - 1], a, byte)
  }

  /** `t` is `s` after the writes, address by address. */
  ghost predicate WrittenAll(s: Snapshot, t: Snapshot, writes: seq<Write>) {
    && Wf(s) && Wf(t)
    && (forall a: nat :: Look(t, a) == Last(writes, a, Look(s, a)))
    && (forall a: nat :: Mapped(t, a) <==> Mapped(s, a) || Reached(writes, a))
  }

  /** Some write is to the block of an address. */
  predicate Reached(writes: seq<Write>, a: nat) { exists k :: 0 <= k < |writes| && Base(writes[k].0) == Base(a) }

  lemma ReachedBoth(first: seq<Write>, second: seq<Write>, a: nat)
    ensures Reached(first + second, a) <==> Reached(first, a) || Reached(second, a)
  {
    var all := first + second;
    if k :| 0 <= k < |first| && Base(first[k].0) == Base(a) { assert all[k] == first[k]; }
    if k :| 0 <= k < |second| && Base(second[k].0) == Base(a) { assert all[|first| + k] == second[k]; }
    if k :| 0 <= k < |all| && Base(all[k].0) == Base(a) {
      assert if k < |first| then all[k] == first[k] else all[k] == second[k - |first|];
    }
  }

  lemma OneMore(writes: seq<Write>, w: Write, a: nat, byte: Byte)
    ensures Last(writes + [w], a, byte) == if w.0 == a then w.1 else Last(writes, a, byte)
    ensures Reached(writes + [w], a) <==> Reached(writes, a) || Base(w.0) == Base(a)
  {
    var all := writes + [w];
    assert all[..|all| - 1] == writes;
    ReachedBoth(writes, [w], a);
    assert Reached([w], a) <==> Base([w][0].0) == Base(a);
  }

  lemma WrittenMore(s: Snapshot, t: Snapshot, u: Snapshot, writes: seq<Write>, w: Write)
    requires WrittenAll(s, t, writes) && Written(t, u, w.0, w.1)
    ensures WrittenAll(s, u, writes + [w])
  {
    var all := writes + [w];
    hide Look, Wf, Last, Reached, Mapped, Base;
    forall a: nat
      ensures Look(u, a) == Last(all, a, Look(s, a))
      ensures Mapped(u, a) <==> Mapped(s, a) || Reached(all, a)
    {
      OneMore(writes, w, a, Look(s, a));
    }
  }

  // ------------------------------------------------------------------------- one call of the interface

  datatype Event<I> = Create(i: I) | Do(i: I, writes: seq<Write>) | Destroy(i: I)

  /** `I` are the handles. The memories of the live instances, before and after one call of the interface. */
  ghost predicate Step<I>(w: map<I, Snapshot>, w': map<I, Snapshot>, e: Event<I>) {
    match e
    case Create(i) => i !in w && w' == w[i := []]
    case Do(i, writes) => i in w && w'.Keys == w.Keys && WrittenAll(w[i], w'[i], writes) && w' == w[i := w'[i]]
    case Destroy(i) => i in w && w' == w - {i}
  }

  /** Every instance has blocks of its own. */
  ghost predicate Separate(instances: set<Instance>)
    reads instances
  {
    && (forall i :: i in instances ==> Owned(i.memory))
    && (forall i, j :: i in instances && j in instances && i != j ==> Arrays(i.memory) !! Arrays(j.memory))
  }

  lemma SeparateMore(instances: set<Instance>, o: Instance)
    requires Separate(instances) && o.memory == []
    ensures Separate(instances + {o}) && (o !in instances ==> |instances + {o}| == |instances| + 1)
  {
  }

  lemma SeparateLess(instances: set<Instance>, o: Instance)
    requires Separate(instances) && o in instances
    ensures Separate(instances - {o}) && |instances - {o}| == |instances| - 1
  {
  }

  lemma NoneLeft(instances: set<Instance>, o: Instance)
    requires o in instances
    ensures |instances - {o}| == 0 <==> instances == {o}
    ensures instances - {o} == {} <==> instances == {o}
  {
    assert instances == instances - {o} + {o};
  }

  /** The process-wide state. `startups` and `finishes` count the runs of the scratch start-up and tear-down. */
  class Runtime {
    var sailMemory: seq<Block>
    var rtsRefs: int
    var scratchRefs: int
    var libraryUp: bool
    var scratchUp: bool
    var startups: nat
    var finishes: nat
    ghost var instances: set<Instance>

    /** Every live instance has blocks of its own, and the scratch state is up exactly while there is one. */
    ghost predicate Valid()
      reads this, instances
    {
      && Separate(instances)
      && rtsRefs == scratchRefs == |instances|
      && (libraryUp <==> instances != {}) && (scratchUp <==> instances != {})
      && startups == finishes + if instances == {} then 0 else 1
    }

    /** What every live instance's memory holds. */
    ghost function World(): map<Instance, Snapshot>
      reads `instances, instances, set o, b | o in instances && b in o.memory :: b.mem
    {
      map o | o in instances :: Snap(o.memory)
    }

    twostate lemma SameSnap(i: Instance)
      requires i.memory == old(i.memory) && forall b :: b in old(i.memory) ==> unchanged(b.mem)
      ensures Snap(i.memory) == old(Snap(i.memory))
    {
      forall k | 0 <= k < |i.memory| ensures Snap(i.memory)[k] == old(Snap(i.memory))[k] {
        var b := i.memory[k];
        assert b in old(i.memory) && b.mem[..] == old(b.mem[..]);
      }
    }

    /** A new instance, and no other list or block touched. */
    twostate lemma Created(new o: Instance)
      requires instances == old(instances) + {o} && o !in old(instances) && o.memory == []
      requires forall i :: i in old(instances) ==> i.memory == old(i.memory)
      requires forall i, b :: i in old(instances) && b in old(i.memory) ==> unchanged(b.mem)
      ensures Step(old(World()), World(), Create(o))
    {
      forall i | i in old(instances) ensures Snap(i.memory) == old(Snap(i.memory)) { SameSnap(i); }
      assert World() == old(World())[o := []];
    }

    /** One instance less, and no other list or block touched. */
    twostate lemma Destroyed(o: Instance)
      requires o in old(instances) && instances == old(instances) - {o}
      requires forall i :: i in instances ==> i.memory == old(i.memory)
      requires forall i, b :: i in instances && b in old(i.memory) ==> unchanged(b.mem)
      ensures Step(old(World()), World(), Destroy(o))
    {
      forall i | i in instances ensures Snap(i.memory) == old(Snap(i.memory)) { SameSnap(i); }
      assert World() == old(World()) - {o};
    }

    constructor ()
      ensures Valid() && instances == {} && startups == 0
    {
      sailMemory, rtsRefs, scratchRefs, libraryUp, scratchUp := [], 0, 0, false, false;
      startups, finishes, instances := 0, 0, {};
    }

    /** The walk that reads, writes and the mapped test share: the first block with an id, or the end of the list. */
    method FindBlock(base: nat) returns (k: nat)
      ensures k <= |sailMemory| && (k < |sailMemory| ==> sailMemory[k].id == base)
      ensures forall j :: 0 <= j < k ==> sailMemory[j].id != base
    {
      k := 0;
      while k < |sailMemory| && sailMemory[k].id != base
        invariant k <= |sailMemory|
        invariant forall j :: 0 <= j < k ==> sailMemory[j].id != base
      {
        k := k + 1;
      }
    }

    /** `write_mem`: into the block that has the address, or into a new one put in front. */
    method WriteMem(addr: nat, byte: Byte)
      requires Owned(sailMemory)
      modifies `sailMemory, Arrays(sailMemory)
      ensures Owned(sailMemory) && Written(old(Snap(sailMemory)), Snap(sailMemory), addr, byte)
      ensures forall b :: b in sailMemory && b !in old(sailMemory) ==> fresh(b.mem)
    {
      var current := FindBlock(Base(addr));
      if current < |sailMemory| {
        StoreInBlock(current, addr, byte);
      } else {
        PutInFront(addr, byte);
      }
    }

    method StoreInBlock(k: nat, addr: nat, byte: Byte)
      requires Owned(sailMemory) && k < |sailMemory| && sailMemory[k].id == Base(addr)
      modifies Arrays(sailMemory)
      ensures Written(old(Snap(sailMemory)), Snap(sailMemory), addr, byte)
    {
      ghost var before := Snap(sailMemory);
      WriteInPlace(before, addr, byte, k);
      hide Look, Written, Wf;
      var mem := sailMemory[k].mem;
      mem[Offset(addr)] := byte;
      assert Snap(sailMemory) == before[k := (before[k].0, before[k].1[Offset(addr) := byte])];
    }

    method PutInFront(addr: nat, byte: Byte)
      requires Owned(sailMemory) && forall j :: 0 <= j < |sailMemory| ==> sailMemory[j].id != Base(addr)
      modifies `sailMemory
      ensures Owned(sailMemory) && Written(old(Snap(sailMemory)), Snap(sailMemory), addr, byte)
      ensures forall b :: b in sailMemory && b !in old(sailMemory) ==> fresh(b.mem)
    {
      ghost var before, rest := Snap(sailMemory), sailMemory;
      assert !Mapped(before, addr);
      hide Look, Written, Wf;
      var block := new Block(Base(addr));
      block.mem[Offset(addr)] := byte;
      WriteInFront(before, addr, byte, block.mem[..]);
      sailMemory := [block] + sailMemory;
      assert sailMemory[1..] == rest && Snap(rest) == before;
    }

    /** `read_mem` */
    method ReadMem(addr: nat) returns (byte: Byte)
      requires Owned(sailMemory)
      ensures byte == Look(Snap(sailMemory), addr)
    {
      var current := FindBlock(Base(addr));
      if current < |sailMemory| {
        LookAt(Snap(sailMemory), addr, current);
        byte := sailMemory[current].mem[Offset(addr)];
      } else {
        LookNowhere(Snap(sailMemory), addr);
        byte := 0;
      }
    }

    /** `sail_addr_mapped` */
    method AddrMapped(addr: nat) returns (mapped: bool)
      ensures mapped == Mapped(Snap(sailMemory), addr)
    {
      var current := FindBlock(Base(addr));
      mapped := current < |sailMemory|;
      if mapped { assert Snap(sailMemory)[current].0 == Base(addr); }
    }

    /** One call on an instance, during which the model writes: its memory is the old one with those writes, and no
        other instance's changes. */
    method Call(o: Instance, writes: seq<Write>)
      requires Valid() && o in instances
      modifies `sailMemory, o, Arrays(o.memory)
      ensures Valid() && WrittenAll(old(Snap(o.memory)), Snap(o.memory), writes)
      ensures forall j :: j in instances && j != o ==>
                j.memory == old(j.memory) && Snap(j.memory) == old(Snap(j.memory))
      ensures Step(old(World()), World(), Do(o, writes))
    {
      hide Snap, WrittenAll, Look, Wf, Owned;
      assert Separate(instances);
      sailMemory := o.memory;
      assert Snap(sailMemory) == old(Snap(o.memory));
      WriteEach(writes);
      ghost var after := Snap(sailMemory);
      o.memory := sailMemory;
      assert Snap(o.memory) == after;
      forall j | j in instances && j != o
        ensures j.memory == old(j.memory) && Owned(j.memory) && Arrays(j.memory) !! Arrays(o.memory)
      {
        assert old(Arrays(j.memory) !! Arrays(o.memory));
      }
    }

    /** The writes of a call, in order, on the list that is swapped in. */
    method WriteEach(writes: seq<Write>)
      requires Owned(sailMemory)
      modifies `sailMemory, Arrays(sailMemory)
      ensures Owned(sailMemory) && WrittenAll(old(Snap(sailMemory)), Snap(sailMemory), writes)
      ensures forall b :: b in sailMemory && b !in old(sailMemory) ==> fresh(b.mem)
    {
      hide Look, Wf, Written, WrittenAll, Owned, Mapped, Last, Reached, Base;
      ghost var s := Snap(sailMemory);
      NoWrites(s);
      for i := 0 to |writes|
        invariant Owned(sailMemory) && WrittenAll(s, Snap(sailMemory), writes[..i])
        invariant forall b :: b in sailMemory && b !in old(sailMemory) ==> fresh(b.mem)
      {
        ghost var t := Snap(sailMemory);
        WriteMem(writes[i].0, writes[i].1);
        WrittenMore(s, t, Snap(sailMemory), writes[..i], writes[i]);
        assert writes[..i] + [writes[i]] == writes[..i + 1];
      }
      assert writes[..|writes|] == writes;
    }

    /** `model_init`: the scratch state is started by the first, the library likewise. */
    method ModelInit()
      modifies `scratchRefs, `scratchUp, `startups, `rtsRefs, `libraryUp
      ensures scratchRefs == old(scratchRefs) + 1 && rtsRefs == old(rtsRefs) + 1
      ensures if old(scratchRefs) == 0 then scratchUp && startups == old(startups) + 1
              else scratchUp == old(scratchUp) && startups == old(startups)
      ensures libraryUp == (old(rtsRefs) == 0 || old(libraryUp))
    {
      var first := scratchRefs == 0;
      scratchRefs := scratchRefs + 1;
      if first { scratchUp, startups := true, startups + 1; }
      var firstRts := rtsRefs == 0;
      rtsRefs := rtsRefs + 1;
      if firstRts { libraryUp := true; }
    }

    /** `x86oracle_new`: an instance with empty memory; the scratch state is started if it is the first. */
    method New() returns (o: Instance)
      requires Valid()
      modifies this
      ensures Valid() && fresh(o) && o.memory == [] && instances == old(instances) + {o}
      ensures startups == old(startups) + (if old(instances) == {} then 1 else 0) && finishes == old(finishes)
      ensures Step(old(World()), World(), Create(o))
    {
      hide Separate, Owned, Arrays, Snap, World, Step;
      o := new Instance();
      sailMemory := o.memory;
      ModelInit();
      o.memory := sailMemory;
      Enlist(o);
    }

    ghost method Enlist(o: Instance)
      requires Separate(instances) && o !in instances && o.memory == []
      modifies `instances
      ensures instances == old(instances) + {o} && |instances| == |old(instances)| + 1 && Separate(instances)
      ensures Step(old(World()), World(), Create(o))
    {
      hide Separate, Owned, Arrays, Snap, World, Step;
      SeparateMore(instances, o);
      instances := instances + {o};
      Created(o);
    }

    /** `kill_mem` */
    method KillMem()
      modifies `sailMemory
      ensures sailMemory == []
    {
      while sailMemory != []
        decreases |sailMemory|
      {
        sailMemory := sailMemory[1..];
      }
    }

    /** `model_fini`: the last one finishes the scratch state, and the library takes what memory is left. */
    method ModelFini()
      modifies `scratchRefs, `scratchUp, `finishes, `rtsRefs, `libraryUp, `sailMemory
      ensures scratchRefs == old(scratchRefs) - 1 && rtsRefs == old(rtsRefs) - 1
      ensures if scratchRefs == 0 then !scratchUp && finishes == old(finishes) + 1
              else scratchUp == old(scratchUp) && finishes == old(finishes)
      ensures libraryUp == (rtsRefs != 0 && old(libraryUp))
      ensures sailMemory == if rtsRefs == 0 then [] else old(sailMemory)
    {
      scratchRefs := scratchRefs - 1;
      var last := scratchRefs == 0;
      if last { scratchUp, finishes := false, finishes + 1; }
      rtsRefs := rtsRefs - 1;
      if rtsRefs == 0 {
        libraryUp := false;
        KillMem();
      }
    }

    /** `x86oracle_free`: the instance's blocks go, and with the last instance the scratch state, once. */
    method Free(o: Instance)
      requires Valid() && o in instances
      modifies this, o
      ensures Valid() && instances == old(instances) - {o} && o.memory == []
      ensures finishes == old(finishes) + (if old(instances) == {o} then 1 else 0) && startups == old(startups)
      ensures Step(old(World()), World(), Destroy(o))
    {
      hide Separate, Owned, Arrays, Snap, World, Step;
      ghost var was := instances;
      SeparateLess(was, o);
      NoneLeft(was, o);
      sailMemory := o.memory;
      KillMem();
      ModelFini();
      o.memory := sailMemory;
      instances := instances - {o};
      Destroyed(o);
    }
  }

  lemma {:induction false} LastOfBoth(first: seq<Write>, second: seq<Write>, a: nat, byte: Byte)
    ensures Last(first + second, a, byte) == Last(second, a, Last(first, a, byte))
  {
    if second == [] {
      assert first + second == first;
    } else {
      var n := |second| - 1;
      assert (first + second)[..|first + second| - 1] == first + second[..n];
      LastOfBoth(first, second[..n], a, byte);
    }
  }

  lemma NoWrites(s: Snapshot)
    requires Wf(s)
    ensures WrittenAll(s, s, [])
  {
  }

  // ------------------------------------------------------------------------- any interleaving

  /** The writes that instance `i` was asked for since it was created. */
  function OwnWrites<I(==)>(events: seq<Event<I>>, i: I): seq<Write> {
    if events == [] then []
    else
      var rest, e := OwnWrites(events[..|events| - 1], i), events[|events| - 1];
      if e.i != i then rest else if e.Do? then rest + e.writes else []
  }

  /** What an event adds to an instance's own writes. */
  lemma OwnStep<I>(events: seq<Event<I>>, i: I, a: nat)
    requires events != []
    ensures var e, rest, all := events[|events| - 1], OwnWrites(events[..|events| - 1], i), OwnWrites(events, i);
            if e.i != i then all == rest
            else if e.Do? then
              && Last(all, a, 0) == Last(e.writes, a, Last(rest, a, 0))
              && (Reached(all, a) <==> Reached(rest, a) || Reached(e.writes, a))
            else Last(all, a, 0) == 0 && !Reached(all, a)
  {
    var e, rest := events[|events| - 1], OwnWrites(events[..|events| - 1], i);
    if e.i == i && e.Do? {
      LastOfBoth(rest, e.writes, a, 0);
      ReachedBoth(rest, e.writes, a);
    }
  }

  /** One step, as one instance sees it. */
  lemma StepAt<I>(w: map<I, Snapshot>, w': map<I, Snapshot>, e: Event<I>, i: I, a: nat)
    requires Step(w, w', e) && i in w'
    ensures e.i != i ==> i in w && w'[i] == w[i]
    ensures e.i == i ==> Wf(w'[i])
    ensures e.i == i && e.Do? ==> i in w && Wf(w[i]) && Look(w'[i], a) == Last(e.writes, a, Look(w[i], a))
    ensures e.i == i && e.Do? ==> (Mapped(w'[i], a) <==> Mapped(w[i], a) || Reached(e.writes, a))
    ensures e.i == i && !e.Do? ==> Look(w'[i], a) == 0 && !Mapped(w'[i], a)
  {
  }

  /** Instances do not interfere: over any serialized run of creations, calls and releases, what an instance's memory
      holds is what its own calls put there since it was created, and an address is mapped exactly if one of those
      writes was to its block. */
  lemma {:induction false} OwnMemory<I>(worlds: seq<map<I, Snapshot>>, events: seq<Event<I>>, i: I, a: nat)
    requires |worlds| == |events| + 1 && worlds[0] == map[]
    requires forall n :: 0 <= n < |events| ==> Step(worlds[n], worlds[n + 1], events[n])
    requires i in worlds[|events|]
    ensures var s := worlds[|events|][i];
            && Wf(s) && Look(s, a) == Last(OwnWrites(events, i), a, 0)
            && (Mapped(s, a) <==> Reached(OwnWrites(events, i), a))
    decreases |events|
  {
    var n := |events| - 1;
    assert Step(worlds[n], worlds[n + 1], events[n]);
    var e := events[n];
    StepAt(worlds[n], worlds[n + 1], e, i, a);
    OwnStep(events, i, a);
    hide Step, Look, Wf, Mapped, OwnWrites, Last, Reached;
    if e.i != i || e.Do? { OwnMemory(worlds[..n + 1], events[..n], i, a); }
  }
}
