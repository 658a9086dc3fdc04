# A model of hybrid-x86-oracle in Dafny

The repository runs single x86-64 instructions on several reference CPUs behind one interface. This project models the
places where that is hard to get right, and proves what the code promises there:

- **The hardware guest** (`GuestRam`, `HwGuest`, `HwFaults`, `HwBackends`). The guest RAM and the methods that write page
  tables, GDT, TSS, IDT and fault stubs into it; translation through the tables; delivery of an exception through the
  gates to a `HLT`; recognising the vector and undoing the delivery; the step loops of the KVM and WHP backends. What the
  processor itself does is in `LongMode`, after sections 4.5 and 6.14 of the Intel SDM, Vol. 3A.
- **XSAVE images** (`XsaveLayout`, `XsaveImage`, `HardwareState`, `Xcr0`). Locating the vector components in either
  format, reading and writing ZMM registers in a byte image in place, XSTATE_BV, and loading and taking snapshots.
- **The Bochs address space** (`BochsMemory`, `BochsPaging`). The sparse page map as a flat memory, the identity map that
  lives inside the memory it maps, and the conversion of frames to shadow-stack pages.
- **The decoded-trace cache** (`TraceCache`). The cache, its page-write stamps, its page-split register and its trace
  links as one class whose invariant is that nothing in the cache disagrees with memory.
- **Ownership protocols** (`WhpMapping`, `BochsSingleton`, `Sail`). Any interleaving of threads handing over the one WHP
  mapping or the one Bochs CPU, and many Sail instances taking turns with the runtime's global memory list.
- **Arithmetic** (`F32MulAdd`, `Bf16`, `Bf16Special`, `StickyShift`, `XopShift`, `XopMac`, `TileDot`). SoftFloat's fused
  multiply-add bit for bit, the bfloat16 operation that rounds it to odd first, the XOP shifts with signed counts and
  multiply-adds of even words, and the AMX-INT8 matrix products.
- **Byte formats** (`AmxState`, `Archive`). The AMX tile images, and the classifier that tells a static library from a
  DLL import library.

`Arith`, `Bits`, `Bytes`, `Rflags` and `Wrappers` hold what the others share: facts about quotients, the bitwise
operators on unbounded naturals, little-endian words, the RFLAGS bits that are hidden from the program, and an option
type. Words of 64 bits are naturals with an explicit bound or remainder wherever the width matters. Hypervisor calls, the
decoder's instruction lengths, CPUID, page faults and the generated model are parameters.

## What the proofs show about the code

- *Unwinding depends on the error code.* `unwind_frame` expects an error code for the vectors of its table. A software
  `INT n` to one of those vectors pushes none, and then every field is read one slot too high: RIP comes back as CS. The
  other way round, an error code pushed by a vector outside the table is taken for RIP. `HwFaults.RecoversIff` says that
  these two are the only ways to fail; `HwFaults.Undone` gives what is read in each.
- *CS is not restored.* After an unwound fault CS holds the handler's selector. That is also the only register in which
  WHP's two ways of seeing an exception can differ (`HwBackends.PathsAgree`).
- *KVM and WHP differ on one vector.* A debug trap found in its own stub is "retired" to WHP and a fault to KVM, which
  expects an exit of its own (`HwBackends.BackendsAgree`).
- *The width contract needs a consistent layout.* `vector_chunks` and `vector_regs` look at which components were located,
  reading and writing also at whether they fit the image. `HardwareState.WidthPromise` gives the exact condition under
  which the two agree; `Xcr0.CoherentIsConsistent` derives it from an XCR0 such as `enable_widest_xcr0` asks for. What it
  returns is such a one if the hypervisor reads back what was asked for; of any other only the exact condition speaks.
- *The XCR0 candidates go from wide to narrow on hosts with AVX only.* The third candidate adds AVX whatever the host has
  (`Xcr0.CandidatesDescend`); with AVX on the host the result has every component of every acceptable candidate.
- *Flushing comes before rounding.* The bfloat16 multiply-add returns zero for exact values within half a last place
  below the smallest normal, where rounding to eight bits first would give the smallest normal (`Bf16.FlushOrder`, with
  two operands in `Bf16.FlushedProduct`).
- *A trace can go on running after it was overwritten.* The cache itself never holds a trace that memory
  disagrees with, but the trace being executed is protected only by the stop event, which is raised when a store finds
  the stamp of a line and is to the page that instructions are fetched from. `TraceCache.Cache.Store` has the exact
  conditions: a running trace that agreed with memory ends up disagreeing and not about to be stopped if and only if the
  store changes bytes of it, no stop was pending, and the store was not found in the fetch page. While all its lines are
  stamped the page alone decides, and they stay stamped, or the trace is stopped, if and only if the store is to that
  page or reaches none of the trace's lines. `TraceCache.Cache.RunStores` concludes for whole runs: a trace entered from
  the cache that fits its page is stopped or agrees with memory, as long as no store is to another page with the same
  stamp. Three runs from an empty cache show what goes wrong otherwise:
  1. Pages 4 GiB apart share a stamp. A store to the other one takes the stamp away without stopping the trace, whose
     next store into itself is not found (`TraceCache.UnheardStore`). This way needs no links.
  2. Following a link does not move the fetch page (vendor/bochs/cpu/cpu.cc:367-371). A trace reached by a link out of
     another page is found, but not stopped, when it overwrites itself (`TraceCache.StorePastLink`).
  3. A link is followed while the link stamp has not moved past its own. The flush that makes the stamp start over leaves
     old links good; what keeps them from being followed is that no entry points at the traces that hold them
     (`TraceCache.Cache.LinkedFromCacheIsFresh`). The full instruction pool flushes between traces only (`AllocTrace`,
     vendor/bochs/cpu/cpu.cc:287-305), so that nobody is left to follow one. When the stamp runs out under a running
     trace, that trace may follow an accepted link to bytes that have changed: after a store an accepted link of a
     current trace leads to changed bytes if and only if the store changed bytes of its target and `linkStamp + 1` was
     the limit (`TraceCache.Cache.Store`; `TraceCache.StaleLinkAhead` and `TraceCache.StaleLinkReached` are such a run).

  The oracle stops its core after every instruction (csrc/bochs_shim.cpp:155-160), so that none of this reaches its
  callers, and trace linking is compiled out of the vendored core (vendor/bochs/config.h:669); the model follows the
  code as written.
- *A drop can leave a partition mapped.* Nobody looks at the results of unmapping and deleting it. If both fail, the next
  oracle maps its RAM beside the one left behind (`WhpMapping.TwoMapped`, with the schedule); everything else that
  `WhpMapping.MappingSafe` says holds of the partitions not left behind, whatever fails.
- *The page-split scan in `handleSMC` finds nothing.* Breaking the links has already emptied the register it scans.
- *A restored tile state is in use.* XRSTOR marks all eight tiles used, whichever were when they were saved
  (`AmxState.SaveAndRestore`).

## Model

| member | source | states |
|---|---|---|
| GuestRam.Ram.Read | src/hw.rs:111-124 | a read that reaches past the RAM, or past 64 bits, gives zeros; any other gives the bytes |
| GuestRam.Ram.Write | src/hw.rs:126-137 | a write that reaches outside is dropped whole; any other changes exactly its bytes |
| GuestRam.PokeWord | src/hw.rs:139-147 | a word written inside the RAM is read back, and every other word and byte stays |
| HwGuest.GateRoundTrip | src/hw.rs:242-252 | any 64-bit target survives the split over a gate's fields: the processor decodes that target, selector 8, IST 1, interrupt gate, level 0, present |
| HwGuest.TssRoundTrip | src/hw.rs:228-234 | any base and limit survive the split over a TSS descriptor's fields |
| HwGuest.BuildTables | src/hw.rs:212-218 | the PML4, PDPT and 128 directory entries hold the intended words and no other byte of the RAM changes |
| HwGuest.BuildGdt | src/hw.rs:220-234 | the five descriptor words, and nothing else |
| HwGuest.BuildTss | src/hw.rs:236-239 | IST1 holds the exception stack top, every other TSS byte is zero |
| HwGuest.BuildIdt | src/hw.rs:241-253 | after the loop all 256 gates lead to their own stubs |
| HwGuest.BuildStubs | src/hw.rs:255-262 | each of the 256 stubs begins with a HLT, every other byte of the stub area is zero and no byte outside it changes |
| HwGuest.BuildControlStructures | src/hw.rs:211-263 | all structures are in place at the end, none disturbed by a later write; no byte outside them changes, those of the seven pages that belong to no structure included; on zeroed tables nothing else is mapped |
| HwGuest.WalkIdentity | src/hw.rs:212-218 | a four-level walk maps exactly the linear addresses below RAM_SIZE among all 2^64, each to itself, writable and supervisor |
| HwGuest.GuestLocal | src/hw.rs:36-67 | the structures depend on their own seven pages only |
| HwFaults.StubVectorExact | src/hw.rs:318-321 | an address decodes to a vector if and only if it lies in the sixteen bytes after that stub's start |
| HwFaults.DeliverCorrect | src/hw.rs:8-26 | delivery from any register state succeeds, enters the vector's stub on a HLT, pushes exactly the frame at the top of the exception stack, clears TF, IF, NT, RF and VM and no other flag, and keeps every structure |
| HwFaults.Undone | src/hw.rs:337-350 | what unwinding reads from the frame, in each of the four combinations of pushed and expected error code |
| HwFaults.RecoversIff | src/hw.rs:267-350 | unwinding gives back RIP, RSP and RFLAGS up to TF and RF if and only if an error code was pushed just for the vectors that are expected to have one |
| HwFaults.TableMatches | src/hw.rs:267-270 | the vectors expected to have an error code are exactly those for which the architecture pushes one |
| HwFaults.ExceptionsRecover | src/hw.rs:332-350 | so every exception that the processor raises itself, as opposed to a software interrupt, is undone exactly |
| HwFaults.ClassesExact | src/hw.rs:272-282 | each class but the last stands for one vector: #DE, #UD, #GP, #PF, #AC and #CP |
| HwFaults.SavedObserved | src/kvm.rs:457-469 | the resume flag that delivery adds, and masking twice, are not observable |
| HwFaults.FaultsForever | src/hw.rs:332-350 | after any run of faults and stores outside the structures, any fault still reaches its own stub and unwinds to exactly the faulting state |
| HwBackends.KvmOracle.Step | src/kvm.rs:602-672 | what is reported follows the first of at most 64 runs that need not be repeated: retired if and only if it ended in the single-step exit or in a HLT of the guest's own, a page fault with the registers as they are for an access outside the RAM, a stub's HLT as the fault of its vector, anything else as the other fault |
| HwBackends.WhpOracle.Step | src/whp.rs:1237-1355 | the same with TF armed, the intercepted exception beside the stub's HLT, and the debug trap retired in either form; nothing changes when mapping or arming fails |
| HwBackends.DriveFirst | src/kvm.rs:612-672 | the loop ends with the first run that need not be repeated, those before it having passed registers and memory on |
| HwBackends.ArmedBits | src/whp.rs:906-909 | arming sets the trap flag and clears the resume flag, and changes nothing else |
| HwBackends.RetiredAlike | src/kvm.rs:624 | an instruction that executes without a fault is retired with the same registers, CS apart, and no fault record, as KVM's exit, as WHP's interception and as the delivered trap |
| HwBackends.KvmSeesFault | src/kvm.rs:627-640 | a delivered fault is reported with its class and error code, the faulting registers (CS excepted), and memory changed on the exception stack only |
| HwBackends.PathsAgree | src/whp.rs:1282-1317 | intercepted and delivered exceptions give the same outcome, fault record and registers but CS, if and only if the error code matches the table; for the trap of single-stepping both say retired; memory differs on the exception stack only |
| HwBackends.BackendsAgree | src/whp.rs:1302-1317 | KVM and WHP report the same for a delivered exception if and only if its vector is not the debug trap |
| XsaveLayout.Locate | src/hw.rs:420-463 | found exactly if XCR0 and CPUID have the component and the image's format does; at CPUID's offset in a standard image, where the architecture's recursive definition puts it in a compacted one; the last line is never reached |
| XsaveLayout.CompactSound | src/hw.rs:444-461 | compacted components start at 576 or later, on 64-byte boundaries where asked, and share no byte |
| XsaveLayout.CompactTight | src/hw.rs:444-461 | and leave no room: each begins behind the one before it that the image has, or at 576, rounded up to 64 bytes if that is asked for |
| XsaveLayout.CompactLayoutSound | src/hw.rs:415-418 | whatever CPUID and XCOMP_BV say, the three vector components of a compacted image are sound |
| XsaveImage.ChunksApart | src/hw.rs:511-538 | no two of the 256 chunks of the 32 registers overlap in an image |
| XsaveImage.ComponentIsRegisters | src/hw.rs:511-538 | every component is the concatenation of its registers' chunks, in the order of the registers |
| XsaveImage.GetZmm | src/hw.rs:511-538 | every chunk read is the word at its place, or zero where the component is absent or does not fit |
| XsaveImage.SetZmm | src/hw.rs:542-576 | the chunks the processor has read back as asked, missing ones as zero; every other register, all other bytes and all other XSTATE_BV bits stay, and the components written are marked |
| XsaveImage.ResetVectors | src/hw.rs:498-508 | vector bytes zero, MXCSR 1F80h, every other byte as it was |
| XsaveImage.ResetReadsZero | src/hw.rs:498-508 | after a reset every register reads zero and absent components are zero |
| XsaveImage.UpdateKeepsAbsentZero | src/hw.rs:544-575 | a write keeps components that XSTATE_BV does not mark all zero |
| XsaveImage.FormatsAgree | src/hw.rs:405-414 | a standard and a compacted image with the same component bytes have the same registers |
| HardwareState.HardwareOracle.constructor | src/whp.rs:810-831 | a new oracle shows all zeros and RFLAGS 2 |
| HardwareState.HardwareOracle.SetVector | src/kvm.rs:471-482 | one register is written through the image and the XSTATE_BV invariant kept |
| HardwareState.HardwareOracle.Snapshot | src/lib.rs:552-562 | RIP and the general registers as they are, TF and RF hidden, and every vector chunk what the processor would load, XSTATE_BV considered |
| HardwareState.HardwareOracle.Restore | src/lib.rs:566-575 | RIP and all sixteen registers are those asked for; after 32 read-modify-writes of one image, a snapshot shows the projection of what was loaded |
| HardwareState.RestoreThenSnapshot | src/lib.rs:544-575 | on a consistent layout RIP and the sixteen registers come back, bit k of RFLAGS for all k but 1, 8 and 16, and every vector chunk within vector_chunks and vector_regs, zero beyond |
| HardwareState.ProjectedTwice | src/lib.rs:552-575 | loading what a snapshot gave changes nothing more |
| HardwareState.RflagsBits | src/kvm.rs:459-469 | RFLAGS comes back with bit 1 set and TF and RF clear, every other bit exact |
| HardwareState.WidthPromise | src/hw.rs:465-483 | chunks beyond vector_chunks and registers beyond vector_regs read zero and all others exact, for every state, if and only if the located components fit and imply one another |
| Xcr0.WantedCoherent | src/whp.rs:846-851 | every value asked for has the three AVX-512 components together and only with AVX, and is otherwise the candidate with the legacy state on |
| Xcr0.EnableWidestXcr0 | src/whp.rs:838-864 | the result is the read-back of the first acceptable candidate, that of the host's own XCR0 if acceptable, or the legacy state when there is none; if requests are read back as made it is coherent, and on a host with AVX has every component of every acceptable candidate |
| Xcr0.CandidatesDescend | src/whp.rs:838-851 | the candidates go from wide to narrow if and only if the host has AVX |
| Xcr0.CoherentIsConsistent | src/hw.rs:465-483 | a coherent XCR0 with room for what it enables keeps the width promise |
| BochsMemory.StoredBytes | csrc/bochs_shim.cpp:121-124 | a store changes the bytes it covers, modulo 2^52, and maps its page only |
| BochsMemory.TouchedBytes | csrc/bochs_shim.cpp:93-108 | making a page changes no byte |
| BochsMemory.GuestMemory.Page | csrc/bochs_shim.cpp:93-108 | the existing page, or a new zero page, or null; every existing page stays |
| BochsMemory.GuestMemory.IsMapped | csrc/bochs_shim.cpp:110 | true exactly when the 4 KiB page is present, and asking allocates nothing |
| BochsMemory.GuestMemory.Read | csrc/bochs_shim.cpp:112-119 | the bytes of the flat space; nothing is allocated |
| BochsMemory.GuestMemory.Write | csrc/bochs_shim.cpp:121-124 | the flat space with the bytes stored, all other pages untouched |
| BochsMemory.GuestMemory.GetHostMemAddr | csrc/bochs_shim.cpp:182-188 | the page itself, made without changing any byte |
| BochsMemory.GuestMemory.ReadSlice | csrc/bochs_shim.cpp:1045-1049 | byte by byte, with the address wrapping at 64 bits |
| BochsMemory.GuestMemory.WriteSlice | csrc/bochs_shim.cpp:1051-1056 | byte by byte in order |
| BochsMemory.SliceBytes | csrc/bochs_shim.cpp:1051-1056 | a slice of any length leaves at each address the last of its bytes that lands there, and changes no other |
| BochsMemory.RunIsFlat | csrc/bochs_shim.cpp:68-69 | over any run of stores, page requests and resets, every address reads what was last stored since the reset or zero, and is mapped exactly when its page was used |
| BochsPaging.BuildIdentityMap | csrc/bochs_shim.cpp:568-583 | after the nested loops all 262144 leaves and 513 directory entries are the identity, and no byte outside the tables changes |
| BochsPaging.IdentityWalk | csrc/bochs_shim.cpp:542-553 | every address below 512 GiB translates to itself, as a user-writable page unless its frame is a shadow-stack frame |
| BochsPaging.NothingAbove | csrc/bochs_shim.cpp:549-550 | no address from 512 GiB up translates |
| BochsPaging.ShadowMissesTables | csrc/bochs_shim.cpp:606-617 | no shadow-stack frame contains a byte of the tables |
| BochsPaging.MapShadowStack | csrc/bochs_shim.cpp:600-624 | accepted exactly for nonempty ranges inside the map none of whose frames holds a byte of the tables; a refused call changes nothing |
| BochsPaging.FramesTouched | csrc/bochs_shim.cpp:606-618 | the frames of a range are exactly those that hold a byte of it |
| BochsPaging.ConvertIs | csrc/bochs_shim.cpp:618-622 | an accepted range turns exactly the frames it touches into dirty, non-writable supervisor leaves, by changing exactly their words |
| BochsPaging.IdentityForever | csrc/bochs_shim.cpp:542-624 | after any run of conversions and data stores, translation is still the identity below 512 GiB and nothing above, and the shadow-stack frames are those of the accepted ranges |
| BochsPaging.StartInstance | csrc/bochs_shim.cpp:791-796 | a new instance clears the memory and builds the tables; from then on translation is the identity after any run whatever, and everything outside the tables reads zero |
| TraceCache.HashSeparatesModes | vendor/bochs/cpu/icache.h:147-151 | two fetch modes never share an index for one address |
| TraceCache.WalkReaches | patches/bochs/0007-icache-smc-walk-fetchmode-bit7.patch:49-67 | the walk up to mask, or mask shifted by one, visits every entry that a trace of a written line can occupy under any fetch mode below 100h, line 31 included |
| TraceCache.StoreMaskCovers | vendor/bochs/cpu/icache.h:29-93 | the store's mask has the line of every stored byte |
| TraceCache.Cache.HandleSMC | vendor/bochs/cpu/icache.h:230-276 | exactly the entries on the walk that overlap the mask, and the registered page-split ones, die; the link stamp moves on, or the whole cache is flushed when it runs out |
| TraceCache.Cache.BreakLinks | vendor/bochs/cpu/icache.h:198-208 | the stamp moves on and the page-split entries go, or everything is flushed and no entry points at an older trace |
| TraceCache.Cache.DecWriteStamp | vendor/bochs/cpu/icache.h:29-93 | after a stamped store no live trace, and no link that a trace since the last flush would follow, leads to a stored byte; the stamp moves, or runs out, exactly when a stamped line is hit; the running trace is stopped exactly if that line is in the fetch page |
| TraceCache.Cache.Store | vendor/bochs/cpu/icache.h:79-93 | a guest store keeps the cache coherent; exactly when it leaves the running trace disagreeing with memory and not about to be stopped, exactly when that trace stays guarded, and exactly when an accepted link ends up leading to changed bytes |
| TraceCache.Cache.RunStores | vendor/bochs/cpu/icache.cc:54-63 | over any run of stores by a running trace, it is stopped or agrees with memory as long as every store that reaches its lines is to the fetch page, which for a trace in that page means: as long as no store is to another page sharing its stamp |
| TraceCache.Cache.UnaliasedHeard | vendor/bochs/cpu/icache.h:41-44 | for a trace in the fetch page only a store to a page a multiple of 4 GiB away can go unheard |
| TraceCache.Cache.WriteMem | csrc/bochs_shim.cpp:1035-1043 | a host write with its stamp keeps the cache coherent |
| TraceCache.Cache.WriteMemSlice | csrc/bochs_shim.cpp:1051-1056 | so does a slice, and memory holds its bytes |
| TraceCache.Cache.FindEntry | vendor/bochs/cpu/icache.h:189-196 | a hit was decoded under the same fetch mode from bytes that memory still holds; a miss means no such trace exists |
| TraceCache.Cache.BuildTrace | vendor/bochs/cpu/icache.cc:98-223 | the trace runs what the plan says; its length counts those instructions and the end-of-trace opcode, its code is exactly their bytes and its mask has their lines, merged traces included |
| TraceCache.Cache.MergeTraces | vendor/bochs/cpu/icache.cc:225-255 | a trace is taken over if and only if one is cached there and the sum is not too long; then its instructions, their bytes, their lines and the links they hold all are |
| TraceCache.Cache.PlanTakesFirst | vendor/bochs/cpu/icache.cc:187-205 | the first cached trace that waits at the end of an instruction, fifteen bytes or more before the page end, is the one taken over, whole |
| TraceCache.Cache.RunsItsCode | vendor/bochs/cpu/icache.cc:249 | every byte of every instruction that a cached trace runs, those taken over included, is one that it was decoded from, in its mask and in a stamped line |
| TraceCache.Cache.ServeICacheMiss | vendor/bochs/cpu/icache.cc:98-223 | the filled entry is the next hit and runs the instructions planned, or those decoded alone if the pool was flushed or nothing was cached; all their bytes are in its code and their lines in its mask; the cache stays coherent |
| TraceCache.Cache.ServeBoundaryMiss | vendor/bochs/cpu/icache.cc:257-323 | the same for an instruction over a page end; after a page fault there is no hit |
| TraceCache.Cache.CommitPageSplitTrace | vendor/bochs/cpu/icache.h:165-177 | registering a page-split trace evicts the one in its slot |
| TraceCache.Cache.Reset | vendor/bochs/cpu/icache.cc:44-52 | a reset leaves no live trace, so the whole memory may be replaced |
| TraceCache.Cache.TlbFlush | vendor/bochs/cpu/paging.cc:412-413 | a TLB flush moves the link stamp, and loses what is known of the running trace exactly if the stamp runs out |
| TraceCache.Cache.AllocTrace | vendor/bochs/cpu/icache.h:153-161 | there is room for a trace, after a flush of the whole cache if need be, which happens between traces only |
| TraceCache.Cache.Enter | vendor/bochs/cpu/cpu.cc:287-323 | a cached trace that begins to run was decoded since the last flush, from bytes that memory still holds, out of stamped lines |
| TraceCache.Cache.GetNextTrace | vendor/bochs/cpu/decoder/instr.h:400-403 | the link that an instruction holds, forgotten when its stamp is old; from a trace since the last flush it leads to another whose bytes memory still holds, out of stamped lines |
| TraceCache.Cache.LinkTrace | vendor/bochs/cpu/cpu.cc:328-390 | an accepted link is followed unseen, the fetch page staying, otherwise a hit is linked and run; what runs then agrees with memory and lies in stamped lines, provided that the running trace was decoded since the last flush |
| TraceCache.Cache.LinkedFromCacheIsFresh | vendor/bochs/cpu/icache.h:198-208 | however many accepted links are followed from a cached trace, memory still holds the bytes of where they lead |
| TraceCache.UnheardStore | vendor/bochs/cpu/icache.h:41-44 | a trace that overwrites itself unstopped, no link existing and the trace lying in the fetch page: a store 4 GiB away has taken its stamps |
| TraceCache.StorePastLink | vendor/bochs/cpu/cpu.cc:367-371 | a trace reached by a link of an older stamp overwrites itself unstopped, none of it lying in the fetch page |
| TraceCache.StaleLinkAhead | vendor/bochs/cpu/icache.h:230-235 | the link stamp starts over under a running trace that agrees with memory and holds an accepted link, of a stamp above the present one, to a trace whose bytes have changed |
| TraceCache.StaleLinkReached | vendor/bochs/cpu/cpu.cc:367-371 | that link is followed |
| WhpMapping.InvKept | src/whp.rs:390-425 | every atomic action of every thread keeps locks, partitions, record and mapping consistent, whichever hypervisor calls fail |
| WhpMapping.MappingSafe | src/whp.rs:592-618 | over every schedule and but for partitions left behind by a failed drop: at most one is mapped, the record names it whenever the lock is free, every run has its own RAM mapped, mapping finds nothing mapped and unmapping names a live, mapped partition; one left behind is live and nobody's |
| WhpMapping.FailsOnlyByCall | src/whp.rs:592-618 | a thread that takes the mapping over, or has it, fails only because a hypervisor call failed or the creation was refused; an oracle whose step fails can be stepped again |
| WhpMapping.ClaimSucceeds | src/whp.rs:592-618 | with every call succeeding the claim ends with the claimant recorded and mapped and nobody else but what was left behind, whoever owned it before |
| WhpMapping.NewSucceeds | src/whp.rs:514-586 | after any schedule, with the locks free and every call succeeding, an oracle is made and owns the mapping |
| WhpMapping.StepSucceeds | src/whp.rs:1237-1247 | after any schedule, likewise, an oracle comes to run with its own RAM mapped and is given back |
| WhpMapping.DropSucceeds | src/whp.rs:405-424 | after any schedule, likewise, the partition and its mapping go, the record names it no longer, and nobody else loses theirs |
| WhpMapping.TwoMapped | src/whp.rs:405-424 | two partitions are mapped at once only if a drop's unmapping and deletion both failed, and then can be |
| WhpMapping.NoDeadlock | src/whp.rs:405-425 | a thread inside an operation can go on itself, or the thread that holds the owner lock is inside an operation too and can |
| BochsSingleton.InvKept | src/bochs.rs:77-111 | every atomic action keeps the locks, the slot and the wake-ups consistent |
| BochsSingleton.SingletonSafe | src/bochs.rs:139-194 | over every schedule there is at most one oracle, nobody who claimed the slot is refused an instance, and the emulator's flag is down whenever the slot is free |
| BochsSingleton.LookDecides | src/bochs.rs:77-106 | whoever looks claims the slot if and only if it is free, waits included; otherwise only `new` within its limit goes on waiting |
| BochsSingleton.EmptyHanded | src/bochs.rs:77-106 | nobody gives up but for having looked at an occupied slot: `try_new` at once, `new` after a timeout |
| BochsSingleton.CreationSucceeds | src/bochs.rs:139-194 | after any schedule, with the slot and both locks free, `try_new` and `new` end with the one oracle |
| BochsSingleton.ReleaseSucceeds | src/bochs.rs:258-266 | after any schedule, with both locks free, dropping the oracle frees the slot and the emulator and wakes the thread notified |
| BochsSingleton.WakeUpPending | src/bochs.rs:258-266 | over every schedule, whenever the slot is free and threads are blocked on it, one of them is awake or about to look again, or a notification is being sent |
| BochsSingleton.NoLostWakeUp | src/bochs.rs:258-266 | whenever moreover nobody holds the mutex, a thread is awake that claims the slot when it takes the mutex and looks |
| Sail.Runtime.WriteMem | vendor/sail/runtime/rts.c:136-162 | exactly one byte of the swapped-in memory changes, in its block or in a new one |
| Sail.Runtime.ReadMem | vendor/sail/runtime/rts.c:164-181 | the byte last written, or zero |
| Sail.Runtime.AddrMapped | vendor/sail/runtime/rts.c:182-201 | true exactly when a block has the address |
| Sail.Runtime.Call | csrc/shim.cpp:47-59 | an instance's memory is the old one with the writes of its call, and no other instance's memory changes: one step of the interleaving |
| Sail.Runtime.New | scripts/fix_cpp_model.py:227-280 | an empty instance beside the unchanged others; scratch state is started if and only if it is the first |
| Sail.Runtime.Free | scripts/fix_cpp_model.py:227-280 | the blocks go and the others stay; scratch state is finished if and only if it was the last instance |
| Sail.OwnMemory | csrc/shim.cpp:47-81 | over any run of creations, calls and releases, an instance's memory holds what its own calls put there since it was created, and an address is mapped exactly if one of those writes was to its block |
| F32MulAdd.MulAddCorrect | vendor/bochs/cpu/softfloat3e/f32_mulAdd.cc:42-237 | for all finite operands, the exact a*b+c is rounded toward zero once, with flush to zero, and inexact is raised exactly when that changed it |
| F32MulAdd.CoreCorrect | vendor/bochs/cpu/softfloat3e/f32_mulAdd.cc:150-237 | the significand arithmetic yields a 31-bit significand that determines the rounding of the exact sum |
| F32MulAdd.RoundPackCorrect | vendor/bochs/cpu/softfloat3e/s_roundPackToF32.cc:42-110 | such a significand is packed as rounding toward zero demands, at every exponent |
| F32MulAdd.JamAgain | vendor/bochs/cpu/softfloat3e/s_shiftRightJam64.cc:40-46 | jamming twice is jamming once |
| Bf16.FusedOnce | patches/bochs/0010-avx10-2-ibs-zero-extend-nan-minmax-sign-bf16-fma.patch:242-249 | for all finite operands and signs, the result is the exact a*b+c rounded once to eight bits with ties to even, overflow included; below the smallest normal it is a zero of the right sign, and an exact zero has the sign of section 6.3 of IEEE 754-2019 |
| Bf16.NarrowBits | vendor/bochs/cpu/avx/bf16.h:42-61 | rounding to odd first does not disturb the rounding to nearest that follows |
| Bf16.NearestEvenUnique | vendor/bochs/cpu/avx/bf16.h:59-60 | the reference names one result only |
| Bf16.FlushOrder | vendor/bochs/cpu/avx/avx_ne_convert.cc:37-51 | the result equals rounding first and flushing after if and only if the exact value is not within half a last place below the smallest normal |
| Bf16.FlushedProduct | vendor/bochs/cpu/avx/bf16_arith.cc:76-82 | two operands on which the orders differ |
| Bf16Special.FusedOnAll | vendor/bochs/cpu/softfloat3e/f32_mulAdd.cc:83-237 | for all operands: the first NaN made quiet, the default NaN for infinity times zero or infinity minus infinity, otherwise an infinity with the sign of the product or else of the addend, otherwise the exact value rounded once |
| Bf16Special.NaNPropagates | vendor/bochs/cpu/softfloat3e/8086-SSE/s_propagateNaNF32UI.cc:48-56 | two rounds of propagation and the narrowing give the first NaN operand, whether or not it signals |
| XopShift.Shift | patches/bochs/0013-xop-vpperm-vpermil2-select-vpmacswd-even-word-shift-saturate.patch:251-388 | at every width each element is scaled by its own signed count and the others' places are kept |
| XopShift.ShiftIsScaling | patches/bochs/0013-xop-vpperm-vpermil2-select-vpmacswd-even-word-shift-saturate.patch:257-264 | for every count, also past the width, a shift is multiplication or floor division by a power of two, cut to the width |
| XopMac.MultiplyAdd | vendor/bochs/cpu/avx/xop.cc:249-263 | all four results are those of the operands as they were, although the first operand is overwritten while it is read |
| XopMac.SaturatedIsNearest | vendor/bochs/cpu/xmm.h:631-636 | saturation gives the 32-bit number nearest to the sum |
| XopMac.AgreeExactlyInRange | patches/bochs/0013-xop-vpperm-vpermil2-select-vpmacswd-even-word-shift-saturate.patch:76-98 | the products of the even words fit 32 bits, and the wrapping and the saturating sum agree if and only if the sum fits too |
| TileDot.ProductExact | vendor/bochs/cpu/avx/amx.cc:290-327 | a product of a signed and an unsigned byte, computed in unsigned words and converted back, is the exact product |
| TileDot.LanesAre | vendor/bochs/cpu/avx/amx.cc:288-300 | the four factors are the bytes of the word, lowest first |
| TileDot.DotExact | patches/bochs/0006-amx-int8-byte-signedness.patch:24-50 | in each of the four mixtures no partial sum leaves 32 bits and the result is the exact dot product |
| TileDot.Accumulate | vendor/bochs/cpu/avx/amx.cc:327-358 | the three loops give, element by element, what was there plus the matrix product in whole numbers, cut once to 32 bits; everything outside the result is zero |
| AmxState.StoreThenLoad | patches/bochs/0005-amx-xsave-tilecfg-tiledata.patch:34-46 | every configuration survives storing and loading |
| AmxState.LoadThenStore | vendor/bochs/cpu/avx/amx.cc:33-77 | every image that is accepted is stored back unchanged, unless it has palette 0 and anything else set |
| AmxState.AcceptedIff | vendor/bochs/cpu/avx/amx.cc:33-77 | accepted are exactly the images of palette 0 and the images that a valid configuration of palette 1 is stored as |
| AmxState.Amx.ConfigureTiles | vendor/bochs/cpu/avx/amx.cc:33-77 | accepted exactly for the images of valid configurations and palette 0; a refused one changes nothing |
| AmxState.RowsApart | vendor/bochs/cpu/xsave.cc:1183-1192 | the 128 rows never overlap, for every segment base and address size, also where the component wraps |
| AmxState.RowsCover | vendor/bochs/cpu/xsave.cc:1183-1192 | the rows are the 8 KiB of the component, every byte in exactly one of them, in one piece unless an address wraps |
| AmxState.Amx.SaveTileData | vendor/bochs/cpu/xsave.cc:1183-1192 | all sixteen rows of all eight tiles are stored, and no other byte changes |
| AmxState.Amx.RestoreTileData | vendor/bochs/cpu/xsave.cc:1194-1204 | every row is loaded and every tile marked used |
| AmxState.SaveAndRestore | vendor/bochs/cpu/xsave.cc:1145-1204 | saving both components at their places in memory and restoring them gives back the configuration and every row, with all tiles in use; no byte outside the two components changes |
| Archive.ArchiveIsStatic | build.rs:74-111 | terminates on every byte string, with the verdict that the members deserve on every archive as printed |
| Archive.PrintedVerdict | build.rs:62-73 | on every printed archive: import library if and only if some member has a mark, static if and only if there is a real member and no mark, otherwise no verdict |
| Archive.MarkMeans | build.rs:80-104 | letter by letter what a real member and a mark are: ".dll" anywhere in the long-names table; a real member that begins 00 00 FF FF or is named "...dll" in any case, slashes behind it ignored |
| Archive.SizeReadsBack | build.rs:86 | a printed size is parsed back |

## Left out

- F32MulAdd.MulAddCorrect: infinite and NaN operands, which are sorted out before this arithmetic; `Bf16Special` has them,
  for bfloat16 operands.
- TraceCache.Cache.BuildTrace: what the decoded instructions do, and the prefetch queue; a trace is the lengths and bytes
  of its instructions, its mask, its length and its links. Of the end-of-trace opcode only its place in the length is
  modelled; that it also heads a killed trace only makes a trace run less.
- WhpMapping.Next: a deletion that succeeds is taken to remove the mapping too.
- TraceCache.Cache.LinkTrace: the limits on link depth, host stack and ticks, which only return to the main loop earlier.
- LongMode.PushAll: accessed and dirty bits that the processor sets on its own walks, TLB timing, and faults raised by
  the walk for reserved bits.
- HardwareState.HardwareOracle.Restore: the copy of the XSAVE image to the hypervisor and back is the identity.
- XsaveLayout.CompactLayoutSound: that a standard-format layout is sound is a promise of CPUID, not of the code.
- Sail.Runtime.Call: the tag list, which is swapped and freed just as the memory list is; the model's own registers are
  members of the instance.
- BochsSingleton.NoLostWakeUp: the thirty-second limit is a timeout that may come at any moment.
- The text rewriting in scripts/fix_cpp_model.py: the guards that it emits are modelled, the regular expressions are not.
- The XOP selects: one expression each.
- MSRs, control and segment registers, and the single-byte memory calls of the hardware backends.
- Snapshot comparison, fault text, backend listing, the parameter tree, build-time discovery and linking.
- Opcode tables and attribute bits changed by the other patches.
