/** Which programs the back-end results apply to, said of the sequential machine alone: every load,
    store and AMO it reaches lies in the model's scope. */
module Scope {
  import opened StoreQueue
  import opened Boards
  import opened Pipeline
  import opened Invariant
  import opened ExProof
  import opened FlushProof
  import opened CycleProof
  import opened Runs
  import opened Progress
  import I = Isa

  /** The instruction at a, if it accesses memory: loads and stores are naturally aligned, and no access
      reaches the last byte of the address space. */
  predicate AccessInScope(isa: I.Isa, a: I.Arch)
    requires |a.regs| == NREGS
  {
    var i := I.At(isa, a);
    var address := I.Ea(i, I.X(isa, a));
    i.kind in {I.Load, I.Store, I.Amo} ==>
      Clear(address, i.size) && (i.kind != I.Amo ==> Natural(address, i.size))
  }

  /** Scope on the registers: which accesses it admits. */
  lemma ScopeExact(isa: I.Isa, a: I.Arch)
    requires |a.regs| == NREGS
    ensures var i := isa.fetch(a.pc); var base := if i.rs1 == 0 then 0 else a.regs[i.rs1];
      var address := (base + i.imm) % 0x1_0000_0000_0000_0000;
      AccessInScope(isa, a) <==>
        if i.kind == I.Load || i.kind == I.Store then
          address % i.size == 0 && address + i.size <= 0xFFFF_FFFF_FFFF_FFFF
        else i.kind == I.Amo ==> base + i.size <= 0xFFFF_FFFF_FFFF_FFFF
  {}

  /** Sequential execution from a stays in scope. */
  ghost predicate ProgramInScope(isa: I.Isa, a: I.Arch)
    requires |a.regs| == NREGS
  {
    forall n: nat :: AccessInScope(isa, I.Run(isa, a, n))
  }

  lemma ScopeKept(isa: I.Isa, a: I.Arch, n: nat)
    requires |a.regs| == NREGS && ProgramInScope(isa, a)
    ensures ProgramInScope(isa, I.Run(isa, a, n))
  {
    hide I.Run, AccessInScope;
    forall m: nat ensures AccessInScope(isa, I.Run(isa, I.Run(isa, a, n), m)) {
      I.RunRun(isa, a, n, m);
      assert AccessInScope(isa, I.Run(isa, a, n + m));
    }
  }

  /** The instruction EX is about to run is one the sequential machine reaches from the retired state. */
  lemma CycleInScope(isa: I.Isa, a: I.Arch, s: Core, inp: Input)
    requires Sim(isa, a, s) && |a.regs| == NREGS && ProgramInScope(isa, a)
    ensures ScopedCycle(s, inp)
  {
    hide Agrees, Inv, I.Run, LatchTransfer, AccessInScope;
    var tr := Witness(isa, a, s);
    LatchTransferKeeps(isa, tr, s);
    var l := LatchTransfer(s);
    if l.exReg.valid {
      var n := LatchReached(isa, tr, l, l.exReg);
      TraceIsRun(isa, tr, n);
      assert AccessInScope(isa, I.Run(isa, a, n));
      LatchInScope(isa, tr[n], l.exReg);
    }
  }

  lemma LatchReached(isa: I.Isa, tr: Trace, s: Core, p: Latch) returns (n: nat)
    requires Inv(isa, tr, s, p) && p.valid
    ensures Steps(isa, tr) && n < |tr| && |tr[n].regs| == NREGS
    ensures p.instr == I.At(isa, tr[n]) && p.x == I.X(isa, tr[n])
  {
    hide I.Step, I.Value, InFlight, Owners, Clobbers, Memories, Reserved, Linked;
    n := s.board.count - 1;
  }

  lemma LatchInScope(isa: I.Isa, a: I.Arch, p: Latch)
    requires |a.regs| == NREGS && p.instr == I.At(isa, a) && p.x == I.X(isa, a) && AccessInScope(isa, a)
    ensures InScope(p)
  {}

  /** Without interrupts and traps: a program in scope keeps every run in scope. */
  lemma {:induction false} UndisturbedInScope(cfg: Config, a: I.Arch, s: Core, ins: seq<Input>)
    requires Sim(cfg.isa, a, s) && ShapeOk(s) && |a.regs| == NREGS && Undisturbed(cfg, s, ins)
    requires ProgramInScope(cfg.isa, a)
    ensures ScopedRun(cfg, s, ins)
    decreases |ins|
  {
    hide Sim, Cycle, SpecCycle, I.Step, I.Run, ProgramInScope, TrapFires, ScopedCycle;
    if ins != [] {
      CycleInScope(cfg.isa, a, s, ins[0]);
      CycleRefines(cfg, a, s, ins[0]);
      UndisturbedCycle(cfg, a, s, ins[0]);
      ScopeKept(cfg.isa, a, Cycle(cfg, s, ins[0]).instret - s.instret);
      UndisturbedInScope(cfg, SpecCycle(cfg, a, s, ins[0]), Cycle(cfg, s, ins[0]), ins[1..]);
    }
  }

  // ---------------------------------------------------------------- through interrupts and traps

  /** The instruction at a is ECALL or EBREAK, or a taken branch to an odd address. */
  predicate TrapsAt(isa: I.Isa, a: I.Arch)
    requires |a.regs| == NREGS
  {
    var i, x, y := I.At(isa, a), I.X(isa, a), I.Y(isa, a);
    i.kind == I.Trap || (i.kind == I.Branch && isa.taken(i, x, y) && isa.target(i, a.pc, x, y) % 2 != 0)
  }

  /** What timing decides in one cycle: how many instructions retire and whether a trap is taken after
      them, or how far memory is ahead when an interrupt comes. */
  datatype Turn = Turn(retired: nat, trap: bool, ahead: nat)

  ghost predicate Possible(isa: I.Isa, a: I.Arch, inp: Input, t: Turn)
    requires |a.regs| == NREGS
  {
    t.retired <= 2 && t.ahead <= SIZE && (t.trap ==> TrapsAt(isa, I.Run(isa, a, t.retired)))
  }

  /** One cycle of the sequential machine: it goes to a handler the input names, if to any. */
  function Turned(isa: I.Isa, a: I.Arch, inp: Input, t: Turn): (r: I.Arch)
    requires |a.regs| == NREGS
    ensures |r.regs| == NREGS
  {
    match inp.irq
    case Some(vector) => I.Arch(vector, a.regs, I.Run(isa, a, t.ahead).mem)
    case None =>
      var b := I.Run(isa, a, t.retired);
      if t.trap then b.(pc := inp.trapVector) else b
  }

  /** Whatever the timing, the sequential machine stays in scope through this run's interrupts and traps. */
  ghost predicate StaysInScope(isa: I.Isa, a: I.Arch, ins: seq<Input>)
    requires |a.regs| == NREGS
    decreases |ins|
  {
    ProgramInScope(isa, a) &&
    (ins != [] ==> forall t: Turn :: Possible(isa, a, ins[0], t) ==> StaysInScope(isa, Turned(isa, a, ins[0], t), ins[1..]))
  }

  lemma FiresAt(isa: I.Isa, u: Trace, m: Core)
    requires Inv(isa, u, m, m.exReg) && Fires(isa, m)
    ensures |u| > 0 && |u[0].regs| == NREGS && TrapsAt(isa, u[0])
  {
    hide Inv, Traps, OlderInFlight, TakeTrap, I.Step;
    TrapQuiets(isa, u, m, 0);
    Youngest(isa, u, m);
    TraceShape(isa, u, m, m.exReg);
    SameTraps(isa, u[0], m.exReg);
  }

  lemma SameTraps(isa: I.Isa, a: I.Arch, l: Latch)
    requires |a.regs| == NREGS && Traps(isa, l)
    requires l.instr == I.At(isa, a) && l.pc == a.pc && l.x == I.X(isa, a) && l.y == I.Y(isa, a)
    ensures TrapsAt(isa, a)
  {}

  /** The cycle's sequential counterpart is a possible turn. */
  lemma CycleTurn(cfg: Config, a: I.Arch, s: Core, inp: Input) returns (t: Turn)
    requires Sim(cfg.isa, a, s) && ShapeOk(s) && |a.regs| == NREGS && ScopedCycle(s, inp)
    ensures Possible(cfg.isa, a, inp, t) && SpecCycle(cfg, a, s, inp) == Turned(cfg.isa, a, inp, t)
  {
    hide Sim, Cycle, I.Run, I.Step, TrapFires, AmoDepth, TrapsAt;
    CycleRefines(cfg, a, s, inp);
    match inp.irq
    case Some(_) => t := Turn(0, false, AmoDepth(cfg.isa, s.board, InFlightExecuted(s)));
    case None =>
      t := Turn(Cycle(cfg, s, inp).instret - s.instret, TrapFires(cfg, s, inp), 0);
      if TrapFires(cfg, s, inp) { TrapTurn(cfg, a, s, inp); }
  }

  lemma TrapTurn(cfg: Config, a: I.Arch, s: Core, inp: Input)
    requires Sim(cfg.isa, a, s) && ShapeOk(s) && |a.regs| == NREGS && ScopedCycle(s, inp)
    requires inp.irq.None? && TrapFires(cfg, s, inp)
    ensures Cycle(cfg, s, inp).instret >= s.instret
    ensures TrapsAt(cfg.isa, I.Run(cfg.isa, a, Cycle(cfg, s, inp).instret - s.instret))
  {
    hide Agrees, Inv, I.Run, I.Step, BeforeEx, FromIssue, LatchTransfer, Execute, Traps, OlderInFlight, InScope, TrapsAt, Fires;
    var tr := Witness(cfg.isa, a, s);
    var u := BeforeExKeeps(cfg, tr, s, inp);
    var m := BeforeEx(cfg, s, inp);
    var t := RestKeeps(cfg, u, m, inp);
    FiresAt(cfg.isa, u, m);
  }

  /** A program that stays in scope through the run's interrupts and traps keeps the pipeline in scope. */
  lemma {:induction false} RunInScope(cfg: Config, a: I.Arch, s: Core, ins: seq<Input>)
    requires Sim(cfg.isa, a, s) && ShapeOk(s) && |a.regs| == NREGS && StaysInScope(cfg.isa, a, ins)
    ensures ScopedRun(cfg, s, ins)
    decreases |ins|
  {
    hide Sim, Cycle, SpecCycle, ProgramInScope, ScopedCycle, Possible, Turned;
    if ins != [] {
      CycleInScope(cfg.isa, a, s, ins[0]);
      CycleRefines(cfg, a, s, ins[0]);
      var t := CycleTurn(cfg, a, s, ins[0]);
      RunInScope(cfg, SpecCycle(cfg, a, s, ins[0]), Cycle(cfg, s, ins[0]), ins[1..]);
    }
  }

  // ---------------------------------------------------------------- the main results, from reset

  /** From reset, for every program that stays in scope: whatever the inputs, the pipeline ends in
      agreement with the sequential machine. */
  lemma ProgramRefines(cfg: Config, a: I.Arch, slots: nat, ins: seq<Input>)
    requires |a.regs| == NREGS && slots >= 1 && StaysInScope(cfg.isa, a, ins)
    ensures ShapeOk(Reset(a, slots))
    ensures var s := Reset(a, slots); Sim(cfg.isa, SpecRun(cfg, a, s, ins), RunCycles(cfg, s, ins))
  {
    hide Sim, RunCycles, SpecRun, ScopedRun, StaysInScope;
    ResetAgrees(cfg.isa, a, slots);
    SimShape(cfg.isa, a, Reset(a, slots));
    RunInScope(cfg, a, Reset(a, slots), ins);
    RunRefines(cfg, a, Reset(a, slots), ins);
  }

  /** From reset, for every program in scope, without interrupts and traps: registers, and memory seen
      through the committed queue, are those of sequential execution of the retired instructions. */
  lemma ProgramRetiredPrefix(cfg: Config, a: I.Arch, slots: nat, ins: seq<Input>)
    requires |a.regs| == NREGS && slots >= 1 && ProgramInScope(cfg.isa, a)
    requires ShapeOk(Reset(a, slots)) && Undisturbed(cfg, Reset(a, slots), ins)
    ensures var f := RunCycles(cfg, Reset(a, slots), ins);
      var b := I.Run(cfg.isa, a, f.instret);
      f.regs == b.regs && (NoAmoInFlight(cfg.isa, f) ==> Overlay(f.mem, f.committed) == b.mem)
  {
    hide Sim, RunCycles, ScopedRun, ProgramInScope, Undisturbed, I.Run, Overlay, NoAmoInFlight;
    ResetAgrees(cfg.isa, a, slots);
    UndisturbedInScope(cfg, a, Reset(a, slots), ins);
    RetiredPrefix(cfg, a, Reset(a, slots), ins);
  }

  /** From reset, for every program that stays in scope, with a front end that always offers an instruction
      and adds no bubbles: n instructions have retired within n times the longest turn, or an interrupt or
      a trap has taken over in cycle k. limit bounds the miss penalty and the divider. */
  lemma ProgramProgresses(cfg: Config, limit: nat, a: I.Arch, slots: nat, ins: seq<Input>, n: nat) returns (k: nat)
    requires |a.regs| == NREGS && slots >= 1 && StaysInScope(cfg.isa, a, ins) && n >= 1
    requires cfg.missPenalty <= limit && forall i, x, y :: cfg.isa.divCycles(i, x, y) <= limit
    requires AlwaysOffers(ins) && |ins| >= n * MaxTurn(cfg, limit)
    ensures ShapeOk(Reset(a, slots)) && 0 < k <= n * MaxTurn(cfg, limit) && k <= |ins|
    ensures RunCycles(cfg, Reset(a, slots), ins[..k]).instret >= n ||
            Disturbed(cfg, RunCycles(cfg, Reset(a, slots), ins[..k - 1]), ins[k - 1])
  {
    hide Sim, RunCycles, ScopedRun, StaysInScope, Bounded, Disturbed, MaxTurn;
    ResetAgrees(cfg.isa, a, slots);
    SimShape(cfg.isa, a, Reset(a, slots));
    RunInScope(cfg, a, Reset(a, slots), ins);
    ResetBounded(cfg, limit, a, slots);
    k := Retires(cfg, limit, a, Reset(a, slots), ins, n);
  }
}
