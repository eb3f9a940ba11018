# A verified model of the cycle-level RISC-V simulator

The simulator is a cycle-accurate model of an RV64 processor. This project models the five parts of
it whose behaviour is hardest to be sure of, each next to a simple specification, and proves that
the complicated form agrees with the simple one.

1. **The back end** (Issue, EX and Commit of the six-stage core, with its scoreboard and store
   buffer). Instructions enter in order, complete out of order through several units, retire in
   order at up to two a cycle, and see older results and older stores by forwarding. The
   specification is the sequential machine of `Isa`. `Pipeline` is one clock cycle as a function of
   all fields, `Invariant` what ties it to the sequential machine, `CommitProof`, `ExProof`,
   `IssueProof`, `FlushProof` and `CycleProof` the proof that every stage keeps that tie. `Runs`
   holds the results about whole runs, `Structure` those about ownership, queues and defensive
   paths, `Replay` the termination of load replays, `Progress` that every entry in flight retires,
   `Scope` which programs all this applies to, `Witnesses` reachable states on the failing sides.
   `Sequential` says on registers and bytes what the sequential machine does, `IssueExact` exactly
   when Issue dispatches, `Timing` exactly when results arrive and retire, `FlushExact` what each
   flush leaves.
   `StoreQueue` and `Boards` give the meaning of the two data structures. The classes `StoreBuffer`,
   `Scoreboard` and `Backend` are the same things as mutable objects, proved method by method
   against those functions.
2. **The Sv39 MMU**: two fully associative TLBs with superpages and global entries in front of a
   walker that writes A and D bits. The specification is to walk every time (`Translation`), and for
   the walk itself the process of section 4.3.2 of the RISC-V Privileged Architecture v1.10 (`Sv39`).
   `Sv39Layout` fixes where every field lies in its number, `TranslationExact` restates the results on
   those numbers and gives hits, fills, victims and fences exactly. `Tlb` and `Mmu` are the objects.
3. **The set-associative cache**, compile-time and run-time version alike. The specification of LRU
   mode is the recency stack (`Recency`, `CacheModel`, `CacheTraces`); `CacheExact` covers the other
   policies, the counters and the LFSR; `CacheObject` is the object.
4. **The CSR file**: trap entry, return and writes field by field (`CsrEntry`) and over whole nested
   handler runs (`CsrNesting`), interrupt selection with delegation (`CsrTraps`), region decoding and checking of physical memory
   protection (`Pmp`); `CsrFile` is the object.
5. **The divider's early-exit latency** (`Divider`) and **the interrupt controller's claim loop**
   (`PlicModel` and `PlicExact`, with `PlicDevice` as the object).

`dafny verify dfyconfig.toml` checks everything.

## How to read the back-end results

`Sim(isa, a, s)` says that the pipeline state `s` agrees with the sequential machine whose state
after the retired instructions is `a`. It holds after reset (`ResetAgrees`) and is kept by every
cycle (`CycleRefines`). A run is a list of inputs, one per cycle: whether an interrupt arrives and
where its handler is, whether the data cache hits, what the front end offers and predicts, whether
Issue inserts an extra bubble, and the handler address of a trap. Nothing is assumed about them
except what is said under "Left out". The program is the function from pc to instruction held in
`Isa`, and what single instructions compute (ALU, multiplier, divider and its latency, branch
decision and target, read-modify-write) is a parameter too, so every result holds for every choice.

## Where the code does not do what it is meant to

The model follows the code. Where a wanted property is false of it, the exact condition is proved.

- Forwarding compares ends computed modulo 2^64, so an access reaching the last byte of the address
  space is invisible to the search: `ChosenIsNewest`, `WrapBlindExample`.
- A redirect raised by Decode or Fetch after Issue has dispatched in the same cycle orphans the new
  scoreboard entry: `FrontRedirectOrphans`, reachable by `OrphanReachable`.
- An AMO takes effect in EX. An interrupt between then and its retirement leaves memory ahead of the
  retired prefix by exactly the prefix through that AMO: `InterruptPrecise`, with `AmoAhead` and
  `SwapRunsTwice`.
- The walker accepts entries with R=0, W=1, X=1, descends through those with R=0, W=1, X=0, and
  ignores the upper address bits: `WalkConforms`, with `NonCanonicalTranslates`,
  `ReservedLeafAccepted` and `ReservedPointerFollowed`.
- Supervisor interrupts that are not delegated never trap to M-mode: `SelectionIsArchitectural`,
  `UndelegatedIgnored`.
- MPP accepts the reserved mode 2, from which a delegated trap lowers the privilege:
  `TrapLowersOnlyReserved`, `ReservedModeReachable`, `ReservedModeTrapsDown`.
- The memory-protection check looks at the first byte of the access only: `CheckIsReference`,
  `SplitReadAllowed`. The comment there speaks of any overlap. With every entry off, as at reset, it
  allows all modes everything: `AllOffAllowed`. A whole-space entry does not cover the last byte:
  `LastByteIsReference`, `LastByteDenied`.
- An invalidated store that commits becomes valid again: `CommitOverlayIff`, `CommitRevives`.
  Invalidation has the same blind last byte as forwarding: `InvalidateExact`, `InvalidateBlindExample`.
- Writes to the interrupt controller's enable, priority and threshold registers do not refresh its
  output: `WriteAgreesIff` and `LineAgreesIff`, with a failing write of each kind. A pulse raised
  during service is lost: `PulseDuringServiceLost`. Completing an id of 32 or more shifts too far and
  can lose an asserted level source: `LevelStepIff`, `StrayCompletionLosesLevel`.
- The comment on load forwarding speaks of a 12-bit page-offset comparison and of equal sizes; the
  code compares whole addresses and forwards to any load the store covers. The model does the latter.

## Model

| member | source | states |
|---|---|---|
| Runs.RunRefines | src/CPU_P64_6_Cycle.cpp:204-315 | Over every run (any program, predictions, cache and unit timing, interrupts and traps) the pipeline keeps agreeing with the sequential machine: registers, memory through the store queues, every entry in flight, every busy unit, the clobber table and the latches. |
| Runs.CycleRefines | src/CPU_P64_6_Cycle.cpp:204-315 | One cycle moves the agreeing sequential machine on by exactly the instructions the cycle retired, never more than two; an interrupt or trap moves its pc to the handler. |
| Runs.UndisturbedRun | src/CPU_P64_6_Cycle.cpp:204-315 | Without interrupts and traps the state the pipeline agrees with after n retirements is n plain sequential steps from where it started. |
| Runs.RetiredPrefix | src/CPU_P64_6_Cycle.cpp:3331-3424 | After any undisturbed run the register bank is that of sequential execution of exactly the retired instructions, and so is memory overlaid with the committed queue when no executed AMO is in flight. |
| Sequential.RetiredLoad | src/CPU_P64_6_Cycle.cpp:2265-2389 | The register a retired load wrote: after an undisturbed run that ends with it, rd holds the little-endian number of its 1, 2, 4 or 8 bytes in sequential memory, itself when unsigned, and as a 64-bit two's complement number equal to it as an n-byte one when signed. |
| Sequential.LoadWidens | src/CPU_P64_6_Cycle.cpp:2284-2296 | For every size and every bytes read: an unsigned load gives the number read, a signed load the register equal to it as two's complement and congruent to it modulo 256^n (LW of 00 00 00 80 gives 0xFFFFFFFF80000000). |
| Sequential.LoadStep | src/CPU_P64_6_Cycle.cpp:2107-2391 | The sequential machine's load, on bytes: base plus offset modulo 2^64, those bytes widened into rd, nothing else changed but the pc. |
| Sequential.StoreStep | src/CPU_P64_6_Cycle.cpp:2394-2507 | The sequential machine's store, on bytes: the low bytes of rs2, lowest first, at base plus offset, every other byte and every register as before. |
| Sequential.AmoStep | src/CPU_P64_6_Cycle.cpp:2580-2679 | The sequential machine's AMO, on bytes: rd gets the old bytes at rs1 widened, memory what the operation makes of them and rs2. |
| Sequential.ComputeStep | src/CPU_P64_6_Cycle.cpp:1763-1851 | The sequential machine's computation: rd gets the unit's value of the two sources, x0 stays zero, memory and all other registers stay. |
| Sequential.BranchStep | src/CPU_P64_6_Cycle.cpp:2683-2745 | The sequential machine's branch: the target if taken, the next address as link. |
| Runs.Visible | src/CPU_P64_6_Cycle.cpp:3331-3424 | In every agreeing state: registers are the retired prefix; memory plus both queues is the executed prefix; memory plus the committed queue is the retired prefix extended through the last executed AMO in flight; the head entry carries the pc of the oldest unretired instruction. |
| Runs.InterruptPrecise | src/CPU_P64_6_Cycle.cpp:3444-3487 | When an interrupt is taken the saved pc is that of the oldest unretired instruction, registers are the retired prefix, nothing else retires, and memory is exactly the prefix through the last executed AMO in flight. It is precise in memory too, and resuming at the saved pc is resuming the uninterrupted sequential run, if and only if that prefix left memory unchanged; with no such AMO it always is. |
| Witnesses.AmoAhead | src/CPU_P64_6_Cycle.cpp:2580-2679 | A state reachable from reset in two cycles, for every program starting with an AMO: an interrupt in it saves the pc of the AMO with memory already holding its result. |
| Witnesses.SwapRunsTwice | src/CPU_P64_6_Cycle.cpp:2580-2679 | A concrete failing input: an atomic swap of 1 into zeroed memory, two cycles, an interrupt; the swap will run again on memory that is 1. |
| Runs.TrapPrecise | src/CPU_P64_6_Cycle.cpp:3277-3325 | When EX takes a synchronous trap every older instruction has retired and none younger, the saved pc is the trapping instruction, all stores are in memory, both queues and the scoreboard are empty. |
| Scope.ProgramRefines | src/CPU_P64_6_Cycle.cpp:204-315 | From reset, for every program whose memory accesses stay in scope on the sequential machine through the handlers this run names, however timed, the pipeline ends in agreement with the sequential machine. |
| Scope.ProgramProgresses | src/CPU_P64_6_Cycle.cpp:204-315 | From reset, for such a program, with a front end that always offers an instruction and adds no bubbles: n instructions have retired within n times a computed number of cycles, for every n, or an interrupt or a trap has taken over. |
| Scope.ProgramRetiredPrefix | src/CPU_P64_6_Cycle.cpp:3331-3424 | From reset, for every program in scope on the sequential machine, without interrupts and traps: registers and committed memory are those of sequential execution of the retired instructions. |
| Scope.RunInScope | src/CPU_P64_6_Cycle.cpp:2107-2679 | The scope condition on the pipeline follows from one on the sequential machine alone, sent only to the handlers of this run and trapping only where its program traps. |
| Scope.ScopeExact | src/CPU_P64_6_Cycle.cpp:2107-2130 | The accesses in scope, on the registers: loads and stores at a multiple of their size, and no access whose last byte is the last of the address space. |
| Scope.CycleTurn | src/CPU_P64_6_Cycle.cpp:204-315 | What a cycle does to the sequential machine is one of its possible turns: at most two instructions, then a trap only at a trapping instruction; or an interrupt. |
| Scope.UndisturbedInScope | src/CPU_P64_6_Cycle.cpp:2107-2679 | The same without interrupts and traps, from the plain sequential run alone. |
| Progress.HeadRetires | src/CPU_P64_6_Cycle.cpp:3361-3419 | From every agreeing state the oldest entry in flight retires, or an interrupt or trap takes over, within a number of cycles computed from the drain pause, the committed queue and its own unit; nothing younger delays it. |
| Progress.EntriesRetire | src/CPU_P64_6_Cycle.cpp:1659-1719 | The oldest k entries in flight, for every k, all retire within k - 1 longest waits and the head's own, or an interrupt or trap takes over, given a bound on unit latencies. |
| Progress.HeadStep | src/CPU_P64_6_Cycle.cpp:204-315 | In every cycle the head retires, or a trap is taken, or the head's wait falls. |
| Progress.RetiresFrom | src/CPU_P64_6_Cycle.cpp:1199-1647 | From any agreeing state, with a front end that always offers and adds no bubbles, n instructions retire within n - 1 longest turns and the current one, dispatch from an empty back end included, or an interrupt or trap takes over. |
| Progress.EmptyCycle | src/CPU_P64_6_Cycle.cpp:1482-1559 | With nothing in flight an offered instruction is dispatched at once, unless it is an AMO and a committed store is left after the drain. |
| Progress.BoundedRun | src/CPU_P64_6_Cycle.cpp:1820-1851 | No unit is ever given more cycles than the divider and miss latencies allow, and the drain pause stays within the penalty, over every undisturbed run. |
| Runs.ResetAgrees | inc/Scoreboard.h:56-56 | The back end after reset agrees with any architectural state placed behind it, so the results above hold from reset on. |
| Structure.AlwaysWellOwned | src/CPU_P64_6_Cycle.cpp:1659-1719 | In every reachable state each live entry that is not ready has exactly one owner, the Issue/EX latch or one busy unit with remaining >= 1 and its trans_id; and every busy unit works for a live entry that is not ready, so no completion reaches a retired or reallocated one. |
| Structure.FrontRedirectOrphans | src/CPU_P64_6_Cycle.cpp:395-413 | A flush raised by Decode or Fetch clears the Issue/EX latch but not the scoreboard: ownership survives it if and only if Issue dispatched nothing in that cycle (a counterexample family to the ownership invariant, with its exact condition). |
| Witnesses.OrphanReachable | src/CPU_P64_6_Cycle.cpp:395-413 | The failing side is reachable: after reset the first cycle in which the front end offers an instruction, whatever it is, leaves a state in which such a redirect strands its entry. |
| Structure.SpecQueueAgrees | src/CPU_P64_6_Cycle.cpp:2502-2503 | The trans_ids in the speculative queue are always exactly the live, ready store entries of the scoreboard, in program order. |
| Structure.SelectiveFlushAgrees | inc/StoreBuffer.h:195-208 | After the selective flush of both structures at a live index, for full and wrapped rings too, the scoreboard keeps exactly the prefix through that index and the store buffer exactly the stores of that prefix, again in agreement. |
| Structure.ClobberExact | src/CPU_P64_6_Cycle.cpp:1640-1646 | For every register but x0: its clobber entry is busy if and only if some entry in flight writes it, and then names the youngest such entry, in every reachable state. |
| Structure.ExResourcesFree | inc/CPU_P64_6_Cycle.h:370-381 | Whatever EX runs finds what it needs: a store a free speculative slot (add_store never returns -1), a load or AMO an idle miss slot (the fallback to slot 0 is never taken) and an idle hit unit, an AMO both queues empty, MUL and DIV their unit idle. |
| Structure.CommitStoreSucceeds | src/CPU_P64_6_Cycle.cpp:3370-3379 | At both commit ports of every cycle, if a store retires then it is the oldest speculative one and the committed queue has room: commit_store never fails. |
| Replay.ReplayStep | src/CPU_P64_6_Cycle.cpp:2267-2276 | While EX replays (partial overlap, or a trap waiting for older instructions) Issue is frozen, the latch is unchanged, and the measure of unit countdowns, drain pause, committed stores and live entries falls every cycle. |
| Replay.ReplayEnds | src/CPU_P64_6_Cycle.cpp:1202-1206 | Every replay ends within the number of cycles the measure gives, whatever the caches, front end and program do. |
| CycleProof.PlainCycle | src/CPU_P64_6_Cycle.cpp:204-315 | One cycle without an interrupt keeps the whole invariant, with the retired state advanced by the retired count and at the handler if a trap fired. |
| CycleProof.IrqCycle | src/CPU_P64_6_Cycle.cpp:282-315 | The cycle of an interrupt ends in the invariant at the handler, nothing retired, the saved pc that of the oldest unretired instruction, although the load-hit unit is not cleared. |
| CommitProof.DrainKeeps | src/CPU_P64_6_Cycle.cpp:3332-3357 | Draining a committed store to memory changes nothing the sequential machine can see. |
| CommitProof.PortKeeps | src/CPU_P64_6_Cycle.cpp:3361-3419 | A commit port either does nothing or retires the oldest entry as one sequential step, keeping forwarding, ownership, the clobber table and both queues right. |
| ExProof.TickKeeps | src/CPU_P64_6_Cycle.cpp:1659-1719 | A unit tick completes, when its count reaches zero, exactly the entry it works for with the sequential result. |
| ExProof.LoadSees | src/CPU_P64_6_Cycle.cpp:2265-2389 | For an aligned load in EX, a forwarding hit and a miss that reads memory both give the value the sequential machine loads; only a partial overlap gives none. What that value is: `Sequential.LoadStep`. |
| ExProof.LoadKeeps | src/CPU_P64_6_Cycle.cpp:2262-2391 | A load leaving EX (hit, miss or replay) keeps the invariant. |
| ExProof.StoreKeeps | src/CPU_P64_6_Cycle.cpp:2502-2503 | A store in EX finds a speculative slot and keeps the invariant: memory through both queues becomes that of the sequential store. |
| ExProof.AmoKeeps | src/CPU_P64_6_Cycle.cpp:2580-2679 | An AMO in EX finds both queues empty and keeps the invariant: memory itself becomes that of the sequential AMO. |
| ExProof.BranchDropsNothing | src/CPU_P64_6_Cycle.cpp:2747-2785 | A branch resolving in EX is always the youngest entry: its selective flush removes no entry, no store and no running unit. |
| ExProof.BranchKeeps | src/CPU_P64_6_Cycle.cpp:2747-2785 | Whether predicted right or wrong, a branch leaves the front end at the sequential next pc and the invariant intact. |
| ExProof.ExecuteKeeps | src/CPU_P64_6_Cycle.cpp:1652-3275 | Whatever instruction is in the EX latch, EX either replays it unchanged or leaves the invariant holding. |
| IssueProof.ResolveIsOperand | src/CPU_P64_6_Cycle.cpp:1312-1364 | An operand Issue obtains, forwarded from the youngest producer or read from the register bank, is the one the sequential machine reads. When one is obtained: `IssueExact.ResolveExact`. |
| IssueExact.ResolveExact | src/CPU_P64_6_Cycle.cpp:1312-1364 | The other half, on the entries in flight: a source other than x0 is waited for if and only if its youngest writer in flight exists and is not ready; a ready one is forwarded, and with none the register bank is read. |
| IssueExact.ForwardingExact | src/CPU_P64_6_Cycle.cpp:1312-1364 | The same of every state between two cycles. |
| IssueExact.IssueExact | src/CPU_P64_6_Cycle.cpp:1199-1647 | Issue dispatches the offered instruction if and only if there is no replay, redirect or bubble, fewer than 32 entries are in flight, no source waits, and its unit or queue is free (said on the units and queues themselves); it then is the youngest entry, not ready, with its operands and prediction in the latch, and nothing else changed. |
| IssueExact.CycleIssues | src/CPU_P64_6_Cycle.cpp:204-315 | The same of every cycle that no interrupt takes over, on the state EX leaves in that cycle. |
| IssueExact.DependentPair | src/CPU_P64_6_Cycle.cpp:1306-1326 | A dependent pair goes back to back: while EX computes an ALU instruction, an ALU instruction reading its result is dispatched in the same cycle with the computed value. |
| Timing.CycleRetires | src/CPU_P64_6_Cycle.cpp:3359-3419 | Every cycle that no interrupt takes over retires exactly the ready heads, two at most, that the committed queue has room for after the cycle's drain. |
| Timing.CommitExact | src/CPU_P64_6_Cycle.cpp:3331-3424 | The same of Commit itself, count of entries included. |
| Timing.DrainSpacing | src/CPU_P64_6_Cycle.cpp:3332-3349 | A drain writes the oldest committed store and starts a pause: the next comes storePenalty cycles later, or in the next cycle when that is 0. |
| Timing.TicksExact | src/CPU_P64_6_Cycle.cpp:1659-1719 | In every state in which busy units work for different entries: each busy unit counts down by one, one that reaches zero stops with its result in its entry, and no other entry changes. |
| Timing.UnitCountsDown | src/CPU_P64_6_Cycle.cpp:1659-1719 | Over any undisturbed run a unit with more cycles to go than the run is long has exactly that many fewer at its end. |
| Timing.UnitCycle | src/CPU_P64_6_Cycle.cpp:1659-1719 | In any undisturbed cycle a unit with one cycle left has its result ready in the scoreboard before EX and Issue look. |
| Timing.LatencyExact | src/CPU_P64_6_Cycle.cpp:1763-2785 | When a result arrives: at once for ALU, store, AMO and branch; after one cycle for a multiplication and a load served by the queues or the cache; after the divider's count; and missPenalty - 1 cycles after a miss, through the first idle miss slot. |
| FlushExact.ExInCycle | src/CPU_P64_6_Cycle.cpp:1737-3326 | In every cycle that no interrupt takes over EX holds its instruction back if and only if it traps and is not alone in flight, or is a load the queues serve only in part; otherwise its result is due as above, and a branch redirects if and only if direction or target was mispredicted. |
| FlushExact.TrapExact | src/CPU_P64_6_Cycle.cpp:3277-3325 | A trap is taken in exactly the cycles in which EX holds an ECALL, EBREAK or branch to an odd address as the only instruction in flight. |
| FlushExact.RedirectExact | src/CPU_P64_6_Cycle.cpp:2683-2785 | EX redirects if and only if the direction, or the target of a taken branch, was predicted wrong; the front end then stands at the branch's own next pc. |
| FlushExact.InterruptFlush | src/CPU_P64_6_Cycle.cpp:3444-3487 | In any state an interrupt keeps the load-hit unit, the committed stores, memory and registers, and stops or empties every other unit, entry, clobber and speculative store. |
| FlushExact.BranchFlush | src/CPU_P64_6_Cycle.cpp:2747-2785 | In any state whose store queue agrees with its scoreboard, the flush of a mispredicted branch keeps exactly the entries and stores through the branch, and a unit goes on if and only if its entry stays. |
| FlushExact.TrapFlush | src/CPU_P64_6_Cycle.cpp:3297-3325 | In any state a trap leaves no unit running, no entry, clobber or store, memory holding every store committed by then, and the pcs of trap and handler. |
| FlushExact.DrainsThrough | src/CPU_P64_6_Cycle.cpp:3284-3296 | In any state the loop before a trap retires exactly the ready entries before the trapping one or the first that is not ready: each register gets the result of the last of them to write it. |
| FlushExact.AmoVisible | src/CPU_P64_6_Cycle.cpp:2660-2679 | In any state the bytes an AMO wrote are the ones seen through both queues afterwards, unless a store reaching the last byte of the address space overlaps them. |
| IssueProof.IssueKeeps | src/CPU_P64_6_Cycle.cpp:1199-1647 | Issue either inserts a bubble or appends the instruction at the front-end pc as the youngest entry, with sequential operands and the resources it will need in EX reserved. |
| FlushProof.IrqQuiets | src/CPU_P64_6_Cycle.cpp:3457-3473 | After the flushes of an interrupt only the load-hit unit can still be busy, and the state is the sequential machine at the retired prefix (through the last executed AMO). |
| FlushProof.IrqSavesOldest | src/CPU_P64_6_Cycle.cpp:3446-3458 | The pc chosen for resumption is that of the oldest unretired instruction in each of its cases. |
| FlushProof.TrapQuiets | src/CPU_P64_6_Cycle.cpp:3277-3325 | Taking a trap at the head leaves nothing in flight and memory equal to the overlay of all committed stores. |
| Backends.Backend.constructor | inc/Scoreboard.h:56-56 | A new back end is the reset state in front of the given registers and memory. |
| Backends.Backend.LatchTransfer | src/CPU_P64_6_Cycle.cpp:210-221 | The Issue/EX latch advances unless EX is replaying, and is emptied after a flush cycle. |
| Backends.Backend.ProcessIrq | src/CPU_P64_6_Cycle.cpp:3444-3487 | Saves the pc of the oldest work in program order, then flushes scoreboard, speculative stores, miss slots, MUL and DIV but not the load-hit unit. |
| Backends.Backend.DrainStage | src/CPU_P64_6_Cycle.cpp:3332-3357 | Drains at most one valid committed store per cycle, pausing for the write penalty after each. |
| Backends.Backend.CommitPort | src/CPU_P64_6_Cycle.cpp:3361-3419 | One commit port: stall when the committed queue is full, else move the store, write the register, clear the clobber it owns, retire; it reports whether the next port may run. |
| Backends.Backend.CommitStage | src/CPU_P64_6_Cycle.cpp:3331-3424 | Drain, then two ports, the second only if the first retired. |
| Backends.Backend.TickUnits | src/CPU_P64_6_Cycle.cpp:1659-1719 | Each busy unit counts down once, and completes its entry at zero. |
| Backends.Backend.FreeMissSlot | inc/CPU_P64_6_Cycle.h:378-381 | The first idle miss slot, or -1. |
| Backends.Backend.ExecLoad | src/CPU_P64_6_Cycle.cpp:2262-2391 | Forward, replay or read memory; then the hit unit or a free miss slot takes the result. |
| Backends.Backend.ExecStore | src/CPU_P64_6_Cycle.cpp:2498-2507 | The store enters the speculative queue and its entry completes. |
| Backends.Backend.ExecAmo | src/CPU_P64_6_Cycle.cpp:2580-2679 | The AMO reads and writes memory directly, invalidates overlapping buffered stores, and its entry completes at once with the old value. |
| Backends.Backend.ExecBranch | src/CPU_P64_6_Cycle.cpp:2683-2785 | On a mispredict: redirect, selective flush of both structures, cancellation of units whose entries died. |
| Backends.Backend.TrapDrain | src/CPU_P64_6_Cycle.cpp:3284-3296 | Retires ready entries from the head up to the trapping one. |
| Backends.Backend.TakeTrap | src/CPU_P64_6_Cycle.cpp:3277-3325 | Drains older entries and all committed stores, then flushes everything and redirects. |
| Backends.Backend.Execute | src/CPU_P64_6_Cycle.cpp:1737-3326 | EX after the ticks: nothing without an instruction or after an interrupt flush, else the branch for the opcode. |
| Backends.Backend.Resolve | src/CPU_P64_6_Cycle.cpp:1312-1326 | x0 is zero; a busy clobber forwards the producer if it is ready and stalls otherwise; else the register bank. |
| Backends.Backend.Blocked | src/CPU_P64_6_Cycle.cpp:1482-1522 | The structural hazards: MUL/DIV busy, miss slots full or hit unit busy for loads and AMOs, speculative queue full for stores, queues not empty for AMOs. |
| Backends.Backend.Dispatch | src/CPU_P64_6_Cycle.cpp:1619-1646 | Allocates the entry, fills the Issue/EX latch and records the new youngest writer. |
| Backends.Backend.Issue | src/CPU_P64_6_Cycle.cpp:1199-1647 | Freeze on replay, bubble on flush, no input, missing operand, hazard or full scoreboard; else dispatch. |
| Backends.Backend.Cycle | src/CPU_P64_6_Cycle.cpp:204-315 | The stages in the order of the clock loop. |
| Backends.Backend.Run | src/CPU_P64_6_Cycle.cpp:204-315 | Any number of cycles of the object: it ends in a state that agrees with the sequential machine. |
| StoreQueue.ForwardMeaning | inc/StoreBuffer.h:104-158 | MISS if and only if no buffered byte overlaps the load (memory is then right); HIT gives exactly the little-endian bytes of memory overlaid with committed then speculative stores; PARTIAL_OVERLAP exactly when the newest overlapping store does not cover the load. |
| StoreQueue.ScanMeaning | inc/StoreBuffer.h:106-130 | The same for the search of one queue, over any memory below it. |
| StoreQueue.ScanConcat | inc/StoreBuffer.h:105-157 | Searching the two queues in turn is searching committed followed by speculative. |
| StoreQueue.ChosenIsNewest | inc/StoreBuffer.h:113-116 | For naturally aligned accesses the search stops at the newest store sharing a byte with the load if and only if neither of the two reaches the last byte of the address space, where address + size wraps to 0. |
| StoreQueue.WrapBlindExample | inc/StoreBuffer.h:113-116 | A store of the last doubleword followed by a load of it: the load misses the buffered store. |
| StoreQueue.AddStoreMeaning | inc/StoreBuffer.h:43-50 | A new store changes exactly its own bytes of the overlay. |
| StoreQueue.CommitKeepsOverlay | inc/StoreBuffer.h:56-67 | Moving the oldest speculative store, if valid, behind the committed ones changes neither the order of stores nor any byte of the overlay. |
| StoreQueue.CommitOverlayIff | inc/StoreBuffer.h:56-67 | Moving it, valid or not, leaves every byte of the overlay if and only if it is valid, or each of its bytes is written by a younger speculative store or holds its value already. |
| StoreQueue.CommitRevives | inc/StoreBuffer.h:59-60 | A failing input: an invalidated store of 7 over zeroed memory comes back when it commits. |
| StoreQueue.DrainKeepsOverlay | inc/StoreBuffer.h:70-86 | Draining one store and writing it to memory leaves every byte of the overlay, younger stores included, as it was. |
| StoreQueue.DrainExact | inc/StoreBuffer.h:70-86 | A drain pops exactly through the first valid entry; with none it empties the queue. |
| StoreQueue.DrainAllIsOverlay | src/CPU_P64_6_Cycle.cpp:3298-3308 | Draining until nothing is left makes memory equal to the overlay. |
| StoreQueue.InvalidateUncovers | inc/StoreBuffer.h:165-179 | Then every byte of the invalidated range is the memory's. |
| StoreQueue.InvalidateExact | inc/StoreBuffer.h:165-179 | After invalidating a range no buffered store shares a byte with it if and only if, before, every store that did, and the range, stayed clear of the last byte of the address space. |
| StoreQueue.InvalidateKeeps | inc/StoreBuffer.h:165-179 | Invalidation clears the valid bit of exactly the entries that share a byte with the range, clear of the last byte, and changes no other entry or field. |
| StoreQueue.InvalidateBlindExample | inc/StoreBuffer.h:166-170 | A failing input: invalidating the last doubleword leaves the store of it valid. |
| StoreBuffers.StoreBuffer.constructor | inc/StoreBuffer.h:36-39 | A new buffer holds two empty queues. |
| StoreBuffers.StoreBuffer.AddStore | inc/StoreBuffer.h:43-50 | Appends to the speculative queue and returns the ring slot written, or returns -1 if and only if it is full and changes nothing. |
| StoreBuffers.StoreBuffer.CommitStore | inc/StoreBuffer.h:56-67 | Succeeds if and only if there is a speculative store and room, and then moves the oldest. |
| StoreBuffers.StoreBuffer.DrainOne | inc/StoreBuffer.h:70-86 | Pops committed entries through the first valid one and returns it. |
| StoreBuffers.StoreBuffer.ForwardLoad | inc/StoreBuffer.h:104-158 | The ring search over both FIFOs, newest first, gives what searching the queues gives. |
| StoreBuffers.StoreBuffer.InvalidateAddress | inc/StoreBuffer.h:165-179 | Every overlapping entry of both queues loses its valid bit, order and length kept. |
| StoreBuffers.StoreBuffer.FlushSpeculative | inc/StoreBuffer.h:190-193 | The speculative queue is emptied, the committed one untouched. |
| StoreBuffers.StoreBuffer.FlushDead | inc/StoreBuffer.h:195-208 | Drops the longest suffix of stores whose scoreboard entry is no longer valid. |
| FlushExact.DeadStoresDropped | inc/StoreBuffer.h:195-208 | The suffix dropped is the longest whose stores have no valid scoreboard entry. |
| Boards.AllocateAppends | inc/Scoreboard.h:60-69 | Fails if and only if 32 entries are in flight; else appends one clean entry at the next ring index, all others unchanged. |
| Boards.CompleteUpdates | inc/Scoreboard.h:72-77 | Completing an index changes the one entry at its place and keeps the ring discipline. |
| Boards.RetirePops | inc/Scoreboard.h:89-94 | Retiring removes the oldest entry; every other keeps its ring index and content. |
| Boards.FlushSpeculativeKeepsPrefix | inc/Scoreboard.h:116-143 | For a live index the entries through it are kept as they were, all younger ones gone, and the count is right, also for a full or wrapped ring. |
| Boards.FlushReleases | inc/Scoreboard.h:125-135 | Selective flush frees a register if and only if its producer is a dropped entry that completed with that destination. |
| Boards.FlushAfterYoungest | inc/Scoreboard.h:116-143 | Flushing after the youngest live entry changes nothing at all. |
| Scoreboards.Scoreboard.Allocate | inc/Scoreboard.h:60-69 | The object allocates as the ring value does: -1 and no change when full, else the tail entry reset. |
| Scoreboards.Scoreboard.Complete | inc/Scoreboard.h:72-77 | Result, rd and ready are recorded in the entry; an index out of range changes nothing. |
| Scoreboards.Scoreboard.HeadReady | inc/Scoreboard.h:81-83 | True if and only if there is a head entry, valid and ready. |
| Scoreboards.Scoreboard.Retire | inc/Scoreboard.h:89-94 | The head entry becomes invalid and the head advances; nothing when empty. |
| Scoreboards.Scoreboard.Flush | inc/Scoreboard.h:108-113 | All entries invalid, all clobbers idle, ring at 0. |
| Scoreboards.Scoreboard.FlushSpeculative | inc/Scoreboard.h:116-143 | The loop from the index after the branch to the tail drops each valid entry and the clobber it owns. |
| Translation.TlbTransparent | inc/MMU.h:47-127 | Starting with empty TLBs, after any sequence of translations at any privilege and mstatus, satp writes with flush, page-table edits with a full fence, single-entry edits with a fence for one address where that is enough, and fences of every kind, translate gives the same fault and cause, or the same physical address, as a walk with no TLB of the tables software last wrote. `TranslationExact.TranslatesInSv39` and `TranslatesBare` say it on the bits of satp. |
| Translation.TranslatesAsArchitecture | inc/MMU.h:47-218 | Composed with the walker: on canonical addresses and tables without reserved entries on the way, that result is the process of section 4.3.2 of the Privileged Architecture v1.10. |
| TranslationExact.TranslatesInSv39 | inc/MMU.h:47-99 | The same on the numbers: when satp is 8 * 2^60 + asid * 2^44 + root and the mode is below M, the result after any sequence is the architecture's process from page root, with SUM and MXR bits 18 and 19 of mstatus. |
| TranslationExact.TranslatesBare | inc/MMU.h:51-55 | In M-mode, and for every other value of bits 63:60 of satp, the result is the address itself without fault or wait, and nothing changes. |
| TranslationExact.MissExact | inc/MMU.h:76-98 | A TLB miss: the fill replaces the victim with the leaf, tagged with bits 59:44 of satp and the page of the address; the walk's time is the wait; in memory the leaf's A bit, and D for a store, are added and nothing else; a fault fills and writes nothing. |
| TranslationExact.HitExact | inc/MMU.h:63-75 | A TLB hit waits for nothing and writes nothing; the answering entry alone gets the new time. |
| TranslationExact.TranslatedHits | inc/MMU.h:63-98 | After a successful translation the next one in the same page through the same TLB waits for nothing, with any rights. |
| TranslationExact.FilledAnswers | inc/TLB.h:32-48 | An entry filled for an address answers exactly the addresses of its page, of 4 KiB, 2 MiB or 1 GiB, under its own address space, or under every one if global. |
| TranslationExact.VictimExact | inc/TLB.h:53-56 | The victim is the least recently used from the last invalid slot on, or of the whole table when none but the first is invalid; of equals the first. |
| TranslationExact.FenceExact | inc/MMU.h:105-121 | A fence drops an entry if and only if it is for the fenced address, where one is named, and is not global and belongs to the fenced space, where one is named. |
| TranslationExact.WalkCost | inc/MMU.h:164-167 | One memory read per level visited: 3 - l of them for a leaf of level l. |
| Sv39Layout.EntryLayout | inc/MMU.h:170-211 | The fields of a page table entry as a number: V, R, W, X, U, G, A, D in bits 0 to 7, the page number in bits 10 to 53, whatever the other bits. |
| Sv39Layout.AddressLayout | inc/MMU.h:155-165 | The fields of an address as a number, the entry addresses they index, and when the upper bits make it canonical. |
| Sv39Layout.PhysicalLayout | inc/MMU.h:221-228 | The physical address field by field at each level. |
| Sv39Layout.SatpLayout | inc/MMU.h:52-80 | Mode, address space and root page of satp as a number. |
| Sv39Layout.TouchedExact | inc/MMU.h:203-206 | The written-back entry is the entry plus 64 if A was clear, plus 128 if D was and the access is a store. |
| Sv39Layout.Causes | inc/MMU.h:256-262 | Page faults have causes 12, 13 and 15. |
| Translation.TranslateGood | inc/MMU.h:47-99 | One translation on a TLB faithful to the tables: the caller sees what a fresh walk gives and the TLBs stay faithful, through hits, fills, evictions and A/D write-backs. |
| Translation.ApplyAllGood | inc/MMU.h:47-127 | Faithfulness of both TLBs is kept by every sequence of operations. |
| Translation.FenceFaithful | inc/MMU.h:105-121 | No fence of any kind makes a faithful TLB unfaithful. |
| Translation.FenceVaUncovers | inc/MMU.h:114-116 | After a per-address fence no entry of any address space answers for that address, superpages and global entries included. |
| Translation.FenceVaAsidUncovers | inc/MMU.h:111-119 | After a fence for one address space (for one address or all) only a global entry can still answer for it. |
| Translation.EditThenFence | inc/MMU.h:114-116 | A per-address fence makes the TLB faithful to new tables that differ only at addresses no leaf served before, or in the page, of any size, that the fenced address lies in. |
| Sv39.WalkConforms | inc/MMU.h:149-253 | The walk with its permission check is the architecture's translation if and only if the address is canonical and no R=0,W=1 entry is on its way, or the entries on its way do not lead to an aligned leaf that permits the access. |
| Sv39.TranslatesIffGranted | inc/MMU.h:164-217 | The simulator translates if and only if the entries on the way lead to an aligned leaf that permits the access, whatever the upper address bits and reserved encodings. |
| Sv39.CheckPermIsPermits | inc/MMU.h:232-253 | The permission check is the rule of sections 4.3.1 and 4.1.3: the right the access needs, MXR, and the U bit against mode and SUM. |
| Sv39.NonCanonicalTranslates | inc/MMU.h:154-159 | A failing input: an address that is not canonical translates. |
| Sv39.ReservedLeafAccepted | inc/MMU.h:175-199 | A failing input: a fetch through a leaf with R=0, W=1, X=1 is accepted. |
| Sv39.ReservedPointerFollowed | inc/MMU.h:178-182 | A failing input: an entry with R=0, W=1, X=0 is followed as a pointer. |
| Sv39.WalkIsProcess | inc/MMU.h:164-217 | At every level the walk is steps 2 to 8 of the process unless a reserved entry is met, where the process faults. |
| Sv39.WalkIgnoresAD | inc/MMU.h:203-206 | No setting of A and D bits anywhere in the tables changes the result of a walk. |
| Sv39.TouchedSame | inc/MMU.h:203-206 | The written-back entry differs in nothing but A, and D for a store, which are set. |
| Sv39.LeafServesPage | inc/TLB.h:97-104 | Every address matching an entry's page at its level walks to the same leaf: the reason an entry may serve the whole superpage. |
| Sv39.PaddrMeaning | inc/MMU.h:221-228 | At every level the physical address is ppn*4096 plus the address modulo the page size. |
| Tlbs.Tlb.Lookup | inc/TLB.h:32-48 | Returns the first entry that answers and stamps it, or none; the clock advances either way. |
| Tlbs.Tlb.Insert | inc/TLB.h:51-58 | Replaces the entry the scan ends on: from slot 1 up, each invalid slot and each slot older than the current candidate becomes the candidate, so an invalid slot is not always the one taken. |
| Tlbs.Tlb.FlushAll | inc/TLB.h:63-65 | Every entry becomes invalid, global ones too. |
| Tlbs.Tlb.FlushVa | inc/TLB.h:68-72 | Exactly the entries covering the address become invalid. |
| Tlbs.Tlb.FlushAsid | inc/TLB.h:75-78 | Exactly the non-global entries of the address space become invalid. |
| Tlbs.Tlb.FlushVaAsid | inc/TLB.h:81-86 | Exactly the non-global entries of the address space covering the address become invalid. |
| Mmus.Mmu.Ptw | inc/MMU.h:149-218 | The level loop gives the walk, its fault, and the A/D write-back. |
| Mmus.Mmu.Translate | inc/MMU.h:47-99 | The object translates as the model does: bypass, hit, fault, or walk and fill of the TLB for the access type. |
| Mmus.Mmu.SfenceVma | inc/MMU.h:105-121 | Each of the four fence forms reaches both TLBs. |
| Mmus.Mmu.FlushAll | inc/MMU.h:124-127 | Both TLBs are emptied. |
| CacheTraces.LruHitIff | inc/Cache.h:54-90 | From empty, in LRU mode, an access hits if and only if its line was used before and fewer than WAYS distinct other lines of that set were used since. |
| CacheTraces.LruHolds | inc/Cache.h:54-90 | From empty, in LRU mode, each set holds exactly the WAYS most recently used distinct lines mapping to it. |
| CacheTraces.LruTracks | inc/Cache.h:54-90 | Every set tracks the recency stack of its own history, time stamps falling along the stack. |
| CacheTraces.MoreWaysHit | tools/cache_sweep/RuntimeCache.h:46-83 | With equal sets and line size every access that hits with fewer ways hits with more. |
| CacheTraces.MoreWaysFewerMisses | tools/cache_sweep/RuntimeCache.h:46-83 | With equal sets and line size more ways never give more misses, on any trace. |
| CacheModel.AccessTracks | inc/Cache.h:59-90 | One access hits if and only if its line is among the top WAYS of the stack, and the set then tracks the stack with that line on top, whichever way it took. |
| CacheExact.AccessExact | tools/cache_sweep/RuntimeCache.h:46-83 | One access under every policy: a hit stamps the first way holding the line; a miss fills the first free way, or the policy's victim only when all are valid, and only then does LFSR mode step its register; no other way changes and the line is held afterwards. |
| CacheExact.EvictExact | tools/cache_sweep/RuntimeCache.h:64-80 | LRU evicts the way with the least, MRU the one with the greatest time stamp, of equals the first; LFSR mode the register modulo WAYS. |
| CacheExact.RepeatHits | inc/Cache.h:54-90 | After any trace and under every policy, the line just accessed hits. |
| CacheExact.CountersExact | inc/Cache.h:54-90 | After any trace the access counter is its length and the hit counter the number of its accesses that hit. |
| CacheExact.LfsrBits | inc/Cache.h:83-85 | One LFSR step shifts up by one and brings in the exclusive or of bits 7, 5, 4 and 3. |
| CacheExact.LfsrNonzero | inc/Cache.h:116-118 | Only zero steps to zero, so a non-zero seed never gets stuck. |
| CacheExact.LfsrInjective | inc/Cache.h:83-85 | No two values step to the same one, so the register runs in a cycle. |
| CacheModel.OldestIsLast | inc/Cache.h:77-79 | In a full set the way LRU evicts is the one holding the last tracked line. |
| CacheModel.IndexAndTag | inc/Cache.h:55-56 | Set index and tag together are the line number: index = line mod SETS, tag = line / SETS. |
| CacheModel.Log2Exact | inc/Cache.h:120-124 | log2c is exact on powers of two. |
| Recency.AboveIsSince | inc/Cache.h:45-48 | Above an element of the stack stand exactly the elements used since its last use. |
| Recency.TopMeansRecent | inc/Cache.h:45-48 | An element is among the top n if and only if it was used and fewer than n distinct others were used since. |
| Caches.CacheObject.constructor | inc/Cache.h:107-128 | A new cache has no valid line, policy LFSR and the non-zero seed. |
| Caches.CacheObject.SetPolicy | inc/Cache.h:49-49 | Only the policy changes. |
| Caches.CacheObject.FindTag | inc/Cache.h:61-67 | The first valid way with the tag, or -1. |
| Caches.CacheObject.FindFree | inc/Cache.h:71-74 | The first invalid way, or -1. |
| Caches.CacheObject.ChooseVictim | tools/cache_sweep/RuntimeCache.h:64-80 | The way each policy evicts: least recent, most recent, or the LFSR modulo WAYS. |
| Caches.CacheObject.Access | tools/cache_sweep/RuntimeCache.h:46-83 | The object accesses as the model does: counters, time stamps, fill or eviction, and the LFSR stepping only on an eviction in LFSR mode. |
| Caches.CacheObject.Flush | inc/Cache.h:92-96 | Every line loses its valid bit and nothing else. |
| Divider.Clz64 | src/CPU_P64_6_Cycle.cpp:12-22 | For every 64-bit value the binary search returns 64 minus the bit length. |
| Divider.DivCycles | src/CPU_P64_6_Cycle.cpp:1820-1851 | The early-exit arithmetic gives 1, or six more than the difference of the operands' bit lengths. |
| Divider.LatencyRange | src/CPU_P64_6_Cycle.cpp:1820-1851 | The latency is 1, or between 6 and 69. |
| Divider.LatencyExact | src/CPU_P64_6_Cycle.cpp:1820-1851 | The latency from the operands as numbers: with m bits in the magnitude of the dividend and n in that of the divisor, less one when it is negative, it is m - n + 6, or 1 if n is 0 or m is less. |
| Divider.Magnitudes | src/CPU_P64_6_Cycle.cpp:1824-1832 | The two values counted are the magnitude of the signed or unsigned dividend, and that of the divisor, less one when it is negative. |
| Divider.WordOperand | src/CPU_P64_6_Cycle.cpp:1993-2029 | The operands of the 32-bit divisions are the low 32 bits as signed or unsigned numbers. |
| Divider.LatencyBoundsQuotient | src/CPU_P64_6_Cycle.cpp:1820-1851 | With s = latency - 6: 2^s times the divisor seen is below twice the dividend, which is below 2^(s+1) times the divisor seen, signed and unsigned (a negative divisor is seen as its complement). |
| Divider.QuotientBits | src/CPU_P64_6_Cycle.cpp:1820-1851 | The quotient of the magnitudes fits in s+1 bits, and for a non-negative divisor is at least 2^(s-1). |
| Divider.FastMeansZero | src/CPU_P64_6_Cycle.cpp:1845-1850 | The one-cycle path with a usable divisor is taken only when the quotient is 0. |
| Divider.WordLatency | src/CPU_P64_6_Cycle.cpp:1993-2029 | The 32-bit divisions take 1 cycle or 6 to 37. |
| CsrNesting.TrapsUnwind | inc/CSR_File.h:299-326 | Traps nested to any depth, each handler returning with its return information kept or put back, unwind: return address, mode and MIE are those at the trap, and SIE for a trap to S-mode, whatever else the handlers write. |
| CsrNesting.SupervisorTrapUnwinds | inc/CSR_File.h:457-476 | An S-mode trap from U or S, a handler that may take M-mode traps and returns but leaves xepc and the stacked bits alone, then the S-mode return: return address, mode, SIE and MIE are back. |
| CsrNesting.RunSameLevel | inc/CSR_File.h:299-326 | A handler's whole run ends in the mode it started in, and in S-mode it cannot have changed MIE. |
| CsrNesting.QuietKeeps | inc/CSR_File.h:457-476 | A run that leaves xepc and the stacked fields alone and traps only from S to M is disciplined, and keeps what the S-mode return reads. |
| CsrNesting.OnlyStackedBitsChange | inc/CSR_File.h:299-326 | Complete traps nested to any depth change no mstatus bit other than the xPIE and xPP fields. |
| CsrEntry.ExceptionEntry | inc/CSR_File.h:299-326 | Field by field: to S-mode if and only if the cause is below 64, delegated and the mode is not M. The target mode's cause, pc and value registers are the arguments, the other mode's and all control registers are as before, xPIE has xIE, xIE is clear, xPP is the old mode, and no other mstatus bit changes. |
| CsrEntry.InterruptEntry | inc/CSR_File.h:330-356 | The same for an interrupt: to S-mode if and only if its line is delegated and the mode is not M, cause 2^63 plus the line, value 0. |
| CsrEntry.VectorMeaning | inc/CSR_File.h:522-530 | The handler's address: the base for an exception or in direct mode, the base plus 4 times the line, modulo 2^64, for an interrupt in vectored mode. |
| CsrEntry.MachineReturnMeaning | inc/CSR_File.h:457-466 | MRET bit by bit: mode from bits 12:11, MIE from MPIE, MPIE set, MPP clear, everything else as before. |
| CsrEntry.SupervisorReturnMeaning | inc/CSR_File.h:469-476 | SRET bit by bit: mode from bit 8, SIE from SPIE, SPIE set, SPP clear, everything else as before. |
| CsrEntry.SelectionExact | inc/CSR_File.h:358-384 | On the registers: the first of 11, 3, 7 that is pending, enabled, not delegated and allowed by mode or MIE; with none, the first of 9, 1, 5 that is delegated and allowed by mode or SIE; else nothing. |
| CsrEntry.WriteMeaning | inc/CSR_File.h:211-260 | A write changes the registers of its address only, and nothing when the mode is below bits 9:8 of the address or bits 11:10 are both set. |
| CsrEntry.MachineWrites | inc/CSR_File.h:219-245 | Bit by bit, what a machine-mode write of mstatus, medeleg, mideleg, mie and mip takes from the value and what it keeps. |
| CsrEntry.SupervisorWrites | inc/CSR_File.h:246-254 | Bit by bit, what a write of sstatus, sie and sip takes from the value and what it keeps: only delegated interrupts. |
| CsrEntry.WriteWords | inc/CSR_File.h:224-253 | Trap vectors lose bit 1 and exception pcs bit 0; causes and values are kept whole. |
| CsrNesting.UnsavedNestingEndsInUser | inc/CSR_File.h:457-467 | A trap inside an M-mode handler that does not save its stack makes the outer machine return land in U-mode, whatever the mode was. |
| CsrTraps.NoReentry | inc/CSR_File.h:330-384 | From any state, once the selected interrupt is taken nothing is selected until mip, mie or mstatus differs from its value at entry, whatever else the handler writes. |
| CsrTraps.EnteredIsQuiet | inc/CSR_File.h:358-384 | Selection after entry is decided by mode, mstatus, mip, mie and, in S-mode, mideleg alone, and selects nothing. |
| CsrTraps.WritesKeep | inc/CSR_File.h:211-260 | No sequence of CSR writes changes the mode, and none made in S-mode changes mideleg. |
| CsrTraps.SelectionAgreesWithEntry | inc/CSR_File.h:330-384 | Selection and entry agree on delegation: the selected interrupt enters S-mode if and only if it is 9, 1 or 5, and M-mode if and only if it is 11, 3 or 7. |
| CsrTraps.SelectionIsArchitectural | inc/CSR_File.h:358-384 | With registers inside their write masks, selection is the architecture's (interrupts bound for M-mode first, and for one mode in the order MEI, MSI, MTI, SEI, SSI, STI of section 3.1.9 of v1.11, which v1.10 leaves open across modes) if and only if it is not the case that an undelegated supervisor interrupt and no machine interrupt is ready. |
| CsrTraps.UndelegatedIgnored | inc/CSR_File.h:370-383 | A failing state: a supervisor external interrupt pending and enabled in U-mode, nothing delegated; the architecture takes it in M-mode, selection returns nothing. |
| CsrTraps.WriteStaysMasked | inc/CSR_File.h:516-519 | Every write keeps medeleg, mideleg and mie inside their masks (mideleg within 0x222). |
| CsrTraps.TrapLowersOnlyReserved | inc/CSR_File.h:299-356 | A trap lowers the privilege if and only if it is delegated and taken from the reserved mode 2. |
| CsrTraps.ReservedModeReachable | inc/CSR_File.h:457-467 | Mode 2 is entered by a machine return exactly when software wrote MPP = 2, which mstatus accepts. |
| CsrTraps.ReservedModeTrapsDown | inc/CSR_File.h:299-315 | A failing run from reset: delegate U-mode environment calls, write MPP = 2, return, take such a call; it enters S-mode out of mode 2. |
| CsrFiles.CsrFile.constructor | inc/CSR_File.h:478-505 | Reset: M-mode, only UXL and SXL set, nothing delegated, enabled or pending. |
| CsrFiles.CsrFile.TakeException | inc/CSR_File.h:299-326 | Trap entry in place: to S-mode if the cause is delegated and the mode below M, else to M-mode, each register and each mstatus bit as `CsrEntry.ExceptionEntry` says; the vector is the base of the tvec of the mode entered. |
| CsrFiles.CsrFile.TakeInterrupt | inc/CSR_File.h:330-356 | Interrupt entry in place, each register and each mstatus bit as `CsrEntry.InterruptEntry` says, with 2^63 in the cause and tval cleared; the vector is the base, or in vectored mode the base plus 4 times the line. |
| CsrFiles.CsrFile.PendingInterrupt | inc/CSR_File.h:358-384 | The selected interrupt, or -1; the pending-and-enabled shortcut loses nothing. |
| CsrFiles.CsrFile.MachineReturn | inc/CSR_File.h:457-466 | Returns mepc; MIE from MPIE, MPIE set, mode from MPP, MPP cleared. |
| CsrFiles.CsrFile.SupervisorReturn | inc/CSR_File.h:469-476 | Returns sepc; SIE from SPIE, SPIE set, mode from SPP, SPP cleared. |
| CsrFiles.CsrFile.Write | inc/CSR_File.h:211-289 | The permission check, the masked write of each trap register, and false exactly for a register out of reach, read-only or absent. |
| Pmp.CheckIsReference | inc/CSR_File.h:388-454 | With pmpaddr below 2^61 - 1 or, in a power-of-two or unused entry, covering the whole space, and accesses of at most 8 bytes: the check equals the byte-set reference of section 3.6.1 (the lowest-numbered entry touching the access decides by its L, R, W and X bits and must hold all of it; with none, M-mode only) if and only if, with no entry active, the access is M-mode's, and with some active, none decides it by holding a part of it, or the entry holding its first byte (M-mode only, if there is none) denies it. |
| Pmp.AllOffAllowed | inc/CSR_File.h:399-401 | A failing input: at reset, every entry off, a U-mode access is allowed. |
| Pmp.ConfigBits | inc/CSR_File.h:403-449 | What the deciding entry grants, on the registers: entry i below 8 uses bits 8*i to 8*i+7 of pmpcfg0, the others pmpcfg2; machine mode passes when bit 7 is clear, else bit 2, 1 or 0 decides for a fetch, write or read, and bits 4:3 are the matching mode. `Reference` is written with these bits. |
| Pmp.LastByteIsReference | inc/CSR_File.h:414-433 | For the last byte of the address space the check, which never sees it in any entry, equals the reference if and only if, with no entry active, the access is M-mode's, and with some active, an entry that decides says what M-mode alone would. |
| Pmp.LastByteDenied | inc/CSR_File.h:414-433 | A failing input: a readable entry for the whole space denies the last byte. |
| Pmp.WholeRange | inc/CSR_File.h:412-421 | An address of ones from bit 0 to bit 60 or beyond decodes as the whole space, and encodes it. |
| Pmp.CheckIsFirstByte | inc/CSR_File.h:403-453 | The check is the verdict of the lowest-numbered entry whose region holds the first byte of the access; with no such entry, M-mode only. |
| Pmp.DeciderHoldsFirst | inc/CSR_File.h:403-453 | The deciding entry of an access it holds whole is the one that holds the first byte. |
| Pmp.SmallAlignedAccess | inc/CSR_File.h:388-454 | A naturally aligned access of 1, 2 or 4 bytes is never split: the check is the reference if and only if some entry is active or the access is M-mode's. |
| Pmp.SplitReadAllowed | inc/CSR_File.h:432-433 | An 8-byte read whose first half alone lies in a readable 4-byte entry is allowed although the reference denies it. |
| Pmp.NapotInverts | inc/CSR_File.h:412-430 | The trailing-ones loop inverts the NAPOT encoding for every size and every aligned block. |
| Pmp.EncodeUnique | inc/CSR_File.h:412-430 | Every pmpaddr value is the encoding of the block number and size its trailing ones give. |
| Pmp.BlockOfEncoding | inc/CSR_File.h:412-430 | No pmpaddr value encodes two blocks: a byte lies in some block it encodes if and only if it lies in that one. |
| Pmp.BlockIsRange | inc/CSR_File.h:412-430 | The decoded range holds exactly the bytes of the encoded block. |
| Pmp.HitIsFirstByte | inc/CSR_File.h:405-433 | An entry is hit if and only if its region, in any of the three modes, holds the first byte of the access. |
| Pmp.RegionOfGranules | inc/CSR_File.h:405-430 | Every region is made of whole 4-byte granules. |
| Pmp.DecodeNapot | inc/CSR_File.h:412-430 | The counting loop gives the range of the encoded block, or the whole space from 61 trailing ones on. |
| Pmp.PmpCheck | inc/CSR_File.h:388-454 | The two loops over 16 entries: all is allowed when none is active, else the first hit decides by its configuration bits (`ConfigBits`), else only M-mode passes. |
| PlicModel.ClaimsServeEachOnce | inc/PLIC.h:90-103 | Claims in a row return each claimable source exactly once, in falling priority with ties by rising id, then 0 for ever; nothing else stops being pending. |
| PlicModel.BestLeads | inc/PLIC.h:92-98 | The scan finds the claimable source that outranks every other, and 0 if and only if there is none. |
| PlicExact.RaisedIsServed | inc/PLIC.h:37-102 | A raised source that is enabled and above the threshold is answered by one of the claims that follow, before any claim answers 0. |
| PlicExact.RaisedIsNext | inc/PLIC.h:37-102 | If nothing of its priority or above is claimable, the very next claim answers it. |
| PlicExact.RaiseExact | inc/PLIC.h:37-42 | A raise makes its source pending and, if enabled and above the threshold, claimable, and touches no other. |
| PlicExact.LevelExact | inc/PLIC.h:47-57 | An asserted input is recorded and pending, a released one neither; no other source is touched. |
| PlicExact.ClaimExact | inc/PLIC.h:90-102 | A claim takes the leading claimable source out of pending and changes no other source or setting; it answers 0 if and only if none is claimable. |
| PlicExact.CompleteExact | inc/PLIC.h:103-111 | Completing a source below 32 leaves it pending if and only if its input is asserted, and touches no other. |
| PlicExact.SettingsExact | inc/PLIC.h:75-88 | Which sources are claimable after each register write, priorities and threshold cut to three bits, and that pending sources and the line stay. |
| PlicModel.LineAgreesIff | inc/PLIC.h:118-130 | Over every run, register writes included, that starts with the line agreeing: the line agrees at the end if and only if something is claimable exactly when something was at the last update of the line. |
| PlicModel.LineAlwaysAgrees | inc/PLIC.h:118-130 | After every run of raises, level changes, claims and completions the output line is up if and only if a further claim would return a source. |
| PlicModel.WriteAgreesIff | inc/PLIC.h:75-88 | An enable, priority or threshold write keeps the line right if and only if it left something claimable exactly when something was before. |
| PlicModel.RefreshAgrees | inc/PLIC.h:118-130 | From any state whatever a valid raise or level change, a claim or a completion makes the line right. |
| PlicModel.RefreshRestores | inc/PLIC.h:118-130 | So after any run, register writes included, the next such operation restores it. |
| PlicModel.EnableLeavesLineStale | inc/PLIC.h:83-85 | A failing write: enabling a pending source leaves the line down although a claim would be answered. |
| PlicModel.DisableLeavesLineUp | inc/PLIC.h:83-85 | A failing write: disabling all sources leaves the line up although a claim returns 0. |
| PlicModel.ThresholdLeavesLineUp | inc/PLIC.h:86-88 | A failing write: raising the threshold to 7 leaves the line up. |
| PlicModel.PriorityLeavesLineUp | inc/PLIC.h:75-80 | A failing write: clearing the priority of the only claimable source leaves the line up. |
| PlicModel.LevelNeverLost | inc/PLIC.h:46-57 | Over every run, register writes included, an asserted level source is pending or being served, unless a completion of an id of 32 or more hits it. |
| PlicModel.LevelStepIff | inc/PLIC.h:103-111 | One operation loses an asserted level source if and only if it is a completion of an id of 32 or more whose undefined mask hits a source not being served. |
| PlicModel.StrayCompletionLosesLevel | inc/PLIC.h:103-111 | A failing run from reset: source 1 asserted, then id 33 completed with the mask of a shift modulo 32. |
| PlicModel.PulseDuringServiceLost | inc/PLIC.h:103-111 | A completion leaves its source pending if and only if its level is asserted: a pulse raised between claim and completion is lost. |
| Plics.PlicDevice.constructor | inc/PLIC.h:22-36 | No source pending, enabled or asserted, and the line down. |
| Plics.PlicDevice.UpdateIrqOut | inc/PLIC.h:118-130 | The line is up if and only if some source is claimable. |
| Plics.PlicDevice.Raise | inc/PLIC.h:37-42 | A valid id becomes pending and the line follows; ids 0 and 32 or more change nothing. |
| Plics.PlicDevice.SetIrqLevel | inc/PLIC.h:47-57 | Level and pending follow the line of a valid source, and the output follows. |
| Plics.PlicDevice.ReadClaim | inc/PLIC.h:90-102 | Returns the source that outranks every other claimable one, clears its pending bit and updates the line. |
| Plics.PlicDevice.WriteComplete | inc/PLIC.h:103-111 | Clears the source's pending bit, or for an id of 32 or more whatever the undefined shift gives, raises it again if its level is asserted, and updates the line. |
| Plics.PlicDevice.WriteEnable | inc/PLIC.h:83-85 | The enable bits become the data; the line does not change. |
| Plics.PlicDevice.WriteThreshold | inc/PLIC.h:86-88 | The threshold becomes the low three bits; the line does not change. |
| Plics.PlicDevice.WritePriority | inc/PLIC.h:75-80 | The priority of a source below 32 becomes the low three bits; the line does not change. |

## Left out

- Runs.RunRefines: the runs hold integer ALU, multiply, divide, load, store, AMO, branch and trap instructions; CSR, fence, LR/SC, mret, sret, WFI and floating-point instructions, page and protection faults, and redirects raised by Decode or Fetch are not part of them.
- Runs.RetiredPrefix: memory operations are naturally aligned loads and stores, and none reaches the last byte of the address space, where forwarding is blind; misaligned accesses bypass the store buffer in the source. `Scope` says this of the program.
- Runs.InterruptPrecise: the pc pending after a privilege switch, which only mret and sret set, is left out with those instructions; for AMOs the exact memory and the exact condition are stated.
- FlushProof.IrqSavesOldest: leaves out the same pending privilege-switch pc.
- Backends.Backend.ProcessIrq: leaves out the same pending privilege-switch pc.
- ExProof.LoadKeeps: misaligned loads, the DTLB-miss path and faults are left out.
- ExProof.StoreKeeps: misaligned stores and faults are left out.
- ExProof.AmoKeeps: LR, SC and translation faults are left out.
- ExProof.ExecuteKeeps: CSR, floating-point, misaligned and faulting instructions are left out.
- IssueProof.IssueKeeps: the illegal-instruction path is left out; taint, shift and CSR bubbles are an arbitrary input.
- Backends.Backend.ExecLoad: misaligned loads, the DTLB-miss path and faults are left out.
- Backends.Backend.ExecAmo: LR, SC and translation faults are left out.
- Backends.Backend.Blocked: the floating-point hazards are left out.
- StoreQueue.ForwardMeaning: excludes accesses reaching the last byte of the address space; `ChosenIsNewest` gives the exact condition.
- StoreQueue.CommitKeepsOverlay: requires the moved entry to be valid; `CommitOverlayIff` covers every entry.
- Translation.TlbTransparent: compares fault, cause and the physical address without a fault; a faulting hit leaves the `ok` flag set in the source. Page tables change only together with a fence, full or (where that is enough) for one address, or by the walker's own A/D write-back.
- Pmp.CheckIsReference: other pmpaddr values from 2^61 - 1 up, far beyond 56-bit physical addresses, are shifted out of the 64-bit word or name blocks outside it, and are not compared with the reference.
- Plics.PlicDevice.WriteComplete: the mask of a shift by 32 or more, which C++ leaves undefined, is an arbitrary input.
- CsrFiles.CsrFile.Write: models the values of the registers that trap entry, return and interrupt selection depend on; of the others only whether the write succeeds.
- Backends.Backend.Execute: the DTLB-miss path, which can start a second unit for one load, and memory-protection faults are left out: translation in the back end is bare.
- Backends.Backend.Issue: the illegal-instruction path, and the extra bubbles for shifts, load-to-address dependencies and CSR reads, which are an arbitrary input instead of computed.
- The front end (pc generation, fetch queue, decode, branch predictor, instruction cache) is an input that offers instructions in program order from the last redirect, predicts as it likes, but corrects its own predictions on instructions that do not branch.
- Floating point: the units, fp_clobber, and FP loads and stores (which write memory in EX).
- Latencies: load_hit_penalty is 1 and dcache_miss_penalty at least 2, as in the header; other penalties are arbitrary.
- The scoreboard fields fu, is_branch and the exception fields, which no modelled stage reads.
- 64-bit event counters and time stamps (instret, lru clocks, access counts) do not wrap.
- Page table memory is a map from 8-byte aligned addresses to words; accesses of the walker to anything else, and memory-protection checks of the walker, are not modelled.
- Masks of powers of two are written as remainders and comparisons, registers used bit by bit as sets of bit numbers.
- MRU replacement exists in the run-time cache only; both caches share one model.
- CacheExact.LfsrInjective: that the LFSR has full period is not proved, only that it runs in cycles that avoid zero.
- A store that hits a TLB entry filled by a load never sets the D bit; only the walker does. The model does the same (`MissExact`, `HitExact`).
- AXI contention, SystemC ports and clocks, statistics, tracing, loaders, UART, the Python tools, the two-stage and RV32 cores, and the reorder buffer of `inc/ROB.h`.
