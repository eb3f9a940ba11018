/** The main results about the back end, over every run: whatever program is fetched, whatever the
    front end predicts, however caches, units and interrupts are timed. */
module Runs {
  import opened StoreQueue
  import opened Boards
  import opened Pipeline
  import opened Invariant
  import opened FlushProof
  import opened CycleProof
  import I = Isa

  // ---------------------------------------------------------------- runs

  function RunCycles(cfg: Config, s: Core, ins: seq<Input>): (r: Core)
    requires ShapeOk(s)
    ensures SameShape(s, r)
    decreases |ins|
  {
    if ins == [] then s else RunCycles(cfg, Cycle(cfg, s, ins[0]), ins[1..])
  }

  ghost function SpecRun(cfg: Config, a: I.Arch, s: Core, ins: seq<Input>): (r: I.Arch)
    requires ShapeOk(s) && |a.regs| == NREGS
    ensures |r.regs| == NREGS
    decreases |ins|
  {
    if ins == [] then a
    else SpecRun(cfg, SpecCycle(cfg, a, s, ins[0]), Cycle(cfg, s, ins[0]), ins[1..])
  }

  ghost predicate ScopedRun(cfg: Config, s: Core, ins: seq<Input>)
    requires ShapeOk(s)
    decreases |ins|
  {
    ins != [] ==> ScopedCycle(s, ins[0]) && ScopedRun(cfg, Cycle(cfg, s, ins[0]), ins[1..])
  }

  /** Neither interrupts nor traps happen during the run. */
  ghost predicate Undisturbed(cfg: Config, s: Core, ins: seq<Input>)
    requires ShapeOk(s)
    decreases |ins|
  {
    ins != [] ==>
      ins[0].irq.None? && !TrapFires(cfg, s, ins[0]) && Undisturbed(cfg, Cycle(cfg, s, ins[0]), ins[1..])
  }

  /** The back end after reset, in front of an architectural state. */
  function Reset(a: I.Arch, slots: nat): Core {
    Core(a.regs, a.mem, Empty(), [], [], 0, seq(3 + slots, _ => IDLE_FU), NO_LATCH, NO_LATCH,
         false, false, false, a.pc, 0, 0)
  }

  lemma ResetAgrees(isa: I.Isa, a: I.Arch, slots: nat)
    requires |a.regs| == NREGS && slots >= 1
    ensures Sim(isa, a, Reset(a, slots))
  {
    var s := Reset(a, slots);
    EmptyOk();
    QuietInv(isa, s, a, NO_LATCH);
    hide Inv;
    assert Agrees(isa, [a], s) && [a][0] == a;
  }

  // ---------------------------------------------------------------- refinement

  lemma Witness(isa: I.Isa, a: I.Arch, s: Core) returns (tr: Trace)
    requires Sim(isa, a, s)
    ensures |tr| > 0 && Agrees(isa, tr, s) && tr[0] == a
  {
    tr :| Agrees(isa, tr, s) && tr[0] == a;
  }

  lemma SimShape(isa: I.Isa, a: I.Arch, s: Core)
    requires Sim(isa, a, s)
    ensures ShapeOk(s) && |a.regs| == NREGS && s.regs == a.regs
  {
    var tr := Witness(isa, a, s);
    TraceShape(isa, tr, s, Pending(s));
  }

  /** Refinement, one cycle: the new state agrees with the sequential machine moved on by what the
      cycle retired, at most two instructions. */
  lemma CycleRefines(cfg: Config, a: I.Arch, s: Core, inp: Input)
    requires Sim(cfg.isa, a, s) && ScopedCycle(s, inp)
    ensures ShapeOk(s) && |a.regs| == NREGS
    ensures Sim(cfg.isa, SpecCycle(cfg, a, s, inp), Cycle(cfg, s, inp))
    ensures s.instret <= Cycle(cfg, s, inp).instret <= s.instret + 2
  {
    hide Agrees, Cycle, SpecCycle;
    var tr := Witness(cfg.isa, a, s);
    if inp.irq.None? {
      var t := PlainCycle(cfg, tr, s, inp);
    } else {
      var t := IrqCycle(cfg, tr, s, inp);
    }
  }

  /** Refinement, every run: registers, memory and everything in flight keep agreeing with the
      sequential machine, through any number of interrupts and traps. */
  lemma {:induction false} RunRefines(cfg: Config, a: I.Arch, s: Core, ins: seq<Input>)
    requires Sim(cfg.isa, a, s) && ShapeOk(s) && ScopedRun(cfg, s, ins)
    ensures |a.regs| == NREGS
    ensures Sim(cfg.isa, SpecRun(cfg, a, s, ins), RunCycles(cfg, s, ins))
    decreases |ins|
  {
    hide Sim, Cycle, SpecCycle;
    SimShape(cfg.isa, a, s);
    if ins != [] {
      CycleRefines(cfg, a, s, ins[0]);
      RunRefines(cfg, SpecCycle(cfg, a, s, ins[0]), Cycle(cfg, s, ins[0]), ins[1..]);
    }
  }

  /** Without interrupts and traps the specification is the plain sequential run. */
  lemma {:induction false} UndisturbedRun(cfg: Config, a: I.Arch, s: Core, ins: seq<Input>)
    requires Sim(cfg.isa, a, s) && ShapeOk(s) && ScopedRun(cfg, s, ins) && Undisturbed(cfg, s, ins)
    ensures |a.regs| == NREGS && RunCycles(cfg, s, ins).instret >= s.instret
    ensures SpecRun(cfg, a, s, ins) == I.Run(cfg.isa, a, RunCycles(cfg, s, ins).instret - s.instret)
    decreases |ins|
  {
    hide Sim, Cycle, SpecCycle, I.Step, I.Run, TrapFires;
    SimShape(cfg.isa, a, s);
    if ins == [] {
      RunNone(cfg.isa, a);
    } else {
      var f, b := Cycle(cfg, s, ins[0]), SpecCycle(cfg, a, s, ins[0]);
      CycleRefines(cfg, a, s, ins[0]);
      UndisturbedCycle(cfg, a, s, ins[0]);
      UndisturbedRun(cfg, b, f, ins[1..]);
      I.RunRun(cfg.isa, a, f.instret - s.instret, RunCycles(cfg, f, ins[1..]).instret - f.instret);
    }
  }

  lemma RunNone(isa: I.Isa, a: I.Arch)
    requires |a.regs| == NREGS
    ensures I.Run(isa, a, 0) == a
  {}

  lemma UndisturbedCycle(cfg: Config, a: I.Arch, s: Core, inp: Input)
    requires Sim(cfg.isa, a, s) && ShapeOk(s) && ScopedCycle(s, inp) && inp.irq.None? && !TrapFires(cfg, s, inp)
    ensures |a.regs| == NREGS && Cycle(cfg, s, inp).instret >= s.instret
    ensures SpecCycle(cfg, a, s, inp) == I.Run(cfg.isa, a, Cycle(cfg, s, inp).instret - s.instret)
  {
    hide Sim, Cycle, TrapFires, I.Run;
    SimShape(cfg.isa, a, s);
    CycleRefines(cfg, a, s, inp);
  }

  /** No AMO has been executed without having retired. */
  predicate NoAmoInFlight(isa: I.Isa, s: Core)
    requires ShapeOk(s)
  {
    AmoDepth(isa, s.board, InFlightExecuted(s)) == 0
  }

  /** What the invariant says about visible state. */
  lemma Visible(isa: I.Isa, a: I.Arch, s: Core)
    requires Sim(isa, a, s)
    ensures ShapeOk(s) && s.regs == a.regs && |a.regs| == NREGS
    ensures Overlay(s.mem, s.committed) == I.Run(isa, a, AmoDepth(isa, s.board, InFlightExecuted(s))).mem
    ensures Overlay(s.mem, s.committed + s.spec) == I.Run(isa, a, InFlightExecuted(s)).mem
    ensures s.board.count > 0 ==> s.board.entries[s.board.head].pc == a.pc
  {
    hide Owners, Clobbers, LatchOk, I.Run, I.Step, I.Value;
    var tr := Witness(isa, a, s);
    var ex := Executed(s.board, Pending(s));
    AmoDepthIsBase(isa, tr, s.board, ex, ex);
    TraceIsRun(isa, tr, AmoBase(isa, tr, ex));
    TraceIsRun(isa, tr, ex);
    if s.board.count > 0 { assert EntryOk(isa, tr, s.board, ex, 0); }
  }

  /** The retired prefix: after any run without interrupts or traps from any agreeing state, the
      register bank is that of the sequential machine after exactly the retired instructions, and
      so is memory seen through the committed queue whenever no executed AMO is in flight. */
  lemma RetiredPrefix(cfg: Config, a: I.Arch, s: Core, ins: seq<Input>)
    requires Sim(cfg.isa, a, s) && ShapeOk(s) && ScopedRun(cfg, s, ins) && Undisturbed(cfg, s, ins)
    ensures var f := RunCycles(cfg, s, ins);
      f.instret >= s.instret && |a.regs| == NREGS &&
      var b := I.Run(cfg.isa, a, f.instret - s.instret);
      f.regs == b.regs && (NoAmoInFlight(cfg.isa, f) ==> Overlay(f.mem, f.committed) == b.mem)
  {
    hide Sim, I.Step, SpecRun, RunCycles, ScopedRun, Undisturbed, Overlay, AmoDepth;
    RunRefines(cfg, a, s, ins);
    UndisturbedRun(cfg, a, s, ins);
    Visible(cfg.isa, SpecRun(cfg, a, s, ins), RunCycles(cfg, s, ins));
  }

  // ---------------------------------------------------------------- precise interrupts and traps

  /** Interrupt precision: the saved pc is the oldest unretired instruction's and registers are the
      retired prefix's. Memory seen through the committed queue is that of the prefix through the last
      executed AMO in flight. The interrupt is precise in memory too, and resuming at the saved pc is
      resuming the uninterrupted sequential run, if and only if that prefix left memory as it was; with
      no such AMO it always did. */
  lemma InterruptPrecise(cfg: Config, a: I.Arch, s: Core, inp: Input)
    requires Sim(cfg.isa, a, s) && inp.irq.Some?
    ensures ShapeOk(s)
    ensures var f := Cycle(cfg, s, inp);
      f.epc == a.pc && f.regs == a.regs && f.instret == s.instret && f.frontPc == inp.irq.value &&
      (s.board.count > 0 ==> f.epc == s.board.entries[s.board.head].pc) &&
      Sim(cfg.isa, SpecCycle(cfg, a, s, inp), f) &&
      Overlay(f.mem, f.committed) == I.Run(cfg.isa, a, AmoDepth(cfg.isa, s.board, InFlightExecuted(s))).mem &&
      (Overlay(f.mem, f.committed) == a.mem && SpecCycle(cfg, a, s, inp).(pc := f.epc) == a <==>
        I.Run(cfg.isa, a, AmoDepth(cfg.isa, s.board, InFlightExecuted(s))).mem == a.mem) &&
      (NoAmoInFlight(cfg.isa, s) ==>
        Overlay(f.mem, f.committed) == a.mem && SpecCycle(cfg, a, s, inp).(pc := f.epc) == a)
  {
    hide Agrees, Cycle, I.Step, AmoDepth, Overlay;
    SimShape(cfg.isa, a, s);
    Visible(cfg.isa, a, s);
    var tr := Witness(cfg.isa, a, s);
    var t := IrqCycle(cfg, tr, s, inp);
    var f := Cycle(cfg, s, inp);
    assert Agrees(cfg.isa, t, f);
    IrqEmpties(cfg, tr, s, inp);
    Visible(cfg.isa, t[0], f);
    assert I.Run(cfg.isa, t[0], 0) == t[0];
  }

  /** The cycle of an interrupt leaves nothing in flight and the front end at the handler. */
  lemma IrqEmpties(cfg: Config, tr: Trace, s: Core, inp: Input)
    requires Agrees(cfg.isa, tr, s) && inp.irq.Some?
    ensures ShapeOk(s)
    ensures var f := Cycle(cfg, s, inp);
      f.board.count == 0 && f.frontPc == inp.irq.value && InFlightExecuted(f) == 0 &&
      AmoDepth(cfg.isa, f.board, 0) == 0
  {
    var l := LatchTransfer(s);
    LatchTransferKeeps(cfg.isa, tr, s);
    TraceShape(cfg.isa, tr, s, Pending(s));
    TraceShape(cfg.isa, tr, l, l.exReg);
    IrqQuiets(cfg.isa, tr, l, l.exReg, inp.irq.value);
    hide Inv, Agrees, Interrupted, Commit, TickFrom, LatchTransfer;
    var a := Interrupted(cfg.isa, tr, Executed(l.board, l.exReg), inp.irq.value);
    var k := TakeIrq(l, inp.irq.value);
    QuietCommit(cfg, k, a);
    QuietSame(Commit(cfg, k), a);
    QuietTicks(Commit(cfg, k).(stallEx := false), a);
    assert Execute(cfg, BeforeEx(cfg, s, inp), inp) == BeforeEx(cfg, s, inp);
    QuietFront(BeforeEx(cfg, s, inp), a);
  }

  lemma QuietFront(s: Core, a: I.Arch)
    requires Quiet(s, a)
    ensures s.board.count == 0 && s.frontPc == a.pc
  {}

  /** Trap precision: a trap is taken with the trapping instruction's pc saved, every older
      instruction retired and none younger, and memory itself up to date. */
  lemma TrapPrecise(cfg: Config, a: I.Arch, s: Core, inp: Input)
    requires Sim(cfg.isa, a, s) && inp.irq.None? && ScopedCycle(s, inp)
    ensures ShapeOk(s) && |a.regs| == NREGS
    ensures TrapFires(cfg, s, inp) ==>
      var f := Cycle(cfg, s, inp);
      f.instret >= s.instret &&
      var b := I.Run(cfg.isa, a, f.instret - s.instret);
      f.epc == b.pc && f.regs == b.regs && f.mem == b.mem && f.committed == [] && f.spec == [] &&
      f.frontPc == inp.trapVector && f.board.count == 0
  {
    hide Agrees, I.Step, I.Run, BeforeEx, SpecCycle, TakeTrap, Quiet, Traps;
    SimShape(cfg.isa, a, s);
    var tr := Witness(cfg.isa, a, s);
    var u := BeforeExKeeps(cfg, tr, s, inp);
    var m := BeforeEx(cfg, s, inp);
    if TrapFires(cfg, s, inp) {
      TrapQuiets(cfg.isa, u, m, inp.trapVector);
      TraceShape(cfg.isa, u, m, m.exReg);
      var e := TakeTrap(m, inp.trapVector);
      QuietFields(e, u[0].(pc := inp.trapVector));
      assert Cycle(cfg, s, inp) == EndOfCycle(Issue(cfg.isa, e.(prevFlush := e.flush), inp));
    }
  }

  lemma QuietFields(s: Core, a: I.Arch)
    requires Quiet(s, a)
    ensures s.board.count == 0 && s.frontPc == a.pc && s.spec == [] && s.regs == a.regs
  {}
}
