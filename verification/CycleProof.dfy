/** Whole cycles and whole runs: the pipeline refines the sequential machine. */
module CycleProof {
  import opened StoreQueue
  import opened Boards
  import opened Pipeline
  import opened Invariant
  import opened CommitProof
  import opened ExProof
  import opened IssueProof
  import opened FlushProof
  import I = Isa

  // ---------------------------------------------------------------- what a cycle should do

  /** How many executed entries from the head reach through the last executed AMO in flight. */
  function AmoDepth(isa: I.Isa, b: Board, n: nat): (r: nat)
    requires |b.entries| == SIZE && b.head < SIZE && n <= SIZE
    ensures r <= n
  {
    if n == 0 then 0
    else if isa.fetch(At(b, n - 1).pc).kind == I.Amo then n
    else AmoDepth(isa, b, n - 1)
  }

  /** Executed entries in flight at a cycle boundary. */
  function InFlightExecuted(s: Core): nat {
    if Pending(s).valid && s.board.count > 0 then s.board.count - 1 else s.board.count
  }

  /** EX takes a trap in this cycle. */
  predicate TrapFires(cfg: Config, s: Core, inp: Input)
    requires ShapeOk(s)
  {
    Fires(cfg.isa, BeforeEx(cfg, s, inp))
  }

  predicate Fires(isa: I.Isa, m: Core) {
    m.exReg.valid && !m.flush && Traps(isa, m.exReg) && !OlderInFlight(m)
  }

  /** The sequential counterpart of one cycle: the number of instructions retired is a matter of
      timing, the state they leave is not. A trap moves the pc to the handler; an interrupt does
      so from the retired state, except that an executed AMO has already written memory. */
  ghost function SpecCycle(cfg: Config, a: I.Arch, s: Core, inp: Input): (r: I.Arch)
    requires ShapeOk(s) && |a.regs| == NREGS
    ensures |r.regs| == NREGS
  {
    match inp.irq
    case Some(vector) =>
      I.Arch(vector, a.regs, I.Run(cfg.isa, a, AmoDepth(cfg.isa, s.board, InFlightExecuted(s))).mem)
    case None =>
      var retired := Cycle(cfg, s, inp).instret - s.instret;
      var b := I.Run(cfg.isa, a, if retired < 0 then 0 else retired);
      if TrapFires(cfg, s, inp) then b.(pc := inp.trapVector) else b
  }

  /** The pipeline state agrees with the sequential machine at a, its retired state. */
  ghost predicate Sim(isa: I.Isa, a: I.Arch, s: Core) {
    exists tr: Trace :: Agrees(isa, tr, s) && tr[0] == a
  }

  /** The memory operation EX is about to execute lies in this model's scope. */
  predicate ScopedCycle(s: Core, inp: Input) {
    inp.irq.None? ==> InScope(LatchTransfer(s).exReg)
  }

  // ---------------------------------------------------------------- the run as a trace

  lemma {:induction false} TraceIsRun(isa: I.Isa, tr: Trace, k: nat)
    requires Steps(isa, tr) && k < |tr|
    ensures tr[k] == I.Run(isa, tr[0], k)
    decreases k
  {
    hide I.Step;
    if k > 0 {
      StepsTail(isa, tr);
      TraceIsRun(isa, tr[1..], k - 1);
      assert Linked(isa, tr, 0);
    }
  }

  lemma {:induction false} AmoDepthIsBase(isa: I.Isa, tr: Trace, b: Board, ex: int, n: nat)
    requires InFlight(isa, tr, b, ex) && n <= b.count
    ensures AmoDepth(isa, b, n) == AmoBase(isa, tr, n)
  {
    hide I.Step, I.Value;
    if n > 0 {
      assert EntryOk(isa, tr, b, ex, n - 1);
      AmoDepthIsBase(isa, tr, b, ex, n - 1);
    }
  }

  // ---------------------------------------------------------------- frames

  /** The invariant looks at neither the latches nor the flags of the state. */
  lemma InvSame(isa: I.Isa, tr: Trace, s: Core, p: Latch, r: Core, q: Latch)
    requires Inv(isa, tr, s, p) && (p == q || (!p.valid && !q.valid))
    requires r.regs == s.regs && r.mem == s.mem && r.board == s.board && r.spec == s.spec &&
      r.committed == s.committed && r.fus == s.fus && r.frontPc == s.frontPc
    ensures Inv(isa, tr, r, q)
  {
    hide I.Step, I.Value, InFlight, Owners, Clobbers, Memories, Steps;
  }

  // ---------------------------------------------------------------- Commit

  function PortTrace(tr: Trace, s: Core): Trace
    requires ShapeOk(s)
  {
    if PortRetires(s) && |tr| > 1 then tr[1..] else tr
  }

  lemma PortFrame(s: Core)
    requires ShapeOk(s)
    ensures var r := CommitPort(s);
      r.exReg == s.exReg && r.exNext == s.exNext && r.stallEx == s.stallEx && r.flush == s.flush && r.epc == s.epc
  {
    hide HeadReady, CommitMove, Retire, I.SetReg;
  }

  lemma DrainFrame(cfg: Config, s: Core)
    ensures var d := DrainStage(cfg, s);
      d.instret == s.instret && d.exReg == s.exReg && d.flush == s.flush && d.stallEx == s.stallEx &&
      d.exNext == s.exNext && d.epc == s.epc && d.fus == s.fus && d.board == s.board && d.regs == s.regs
  {}

  /** Both commit ports: the sequential machine moves by the number of instructions retired. */
  lemma CommitKeeps(cfg: Config, tr: Trace, s: Core, p: Latch) returns (t: Trace)
    requires Inv(cfg.isa, tr, s, p)
    ensures var r := Commit(cfg, s);
      Inv(cfg.isa, t, r, p) && |t| > 0 && s.instret <= r.instret <= s.instret + 2 && |tr[0].regs| == NREGS &&
      t[0] == I.Run(cfg.isa, tr[0], r.instret - s.instret) &&
      r.exReg == s.exReg && r.exNext == s.exNext && r.stallEx == s.stallEx && r.flush == s.flush && r.epc == s.epc
  {
    hide Inv, DrainStage, CommitPort, PortRetires, I.Run, I.Step, ShapeOk;
    TraceShape(cfg.isa, tr, s, p);
    DrainKeeps(cfg, tr, s, p);
    DrainFrame(cfg, s);
    var d := DrainStage(cfg, s);
    var t1 := PortStep(cfg.isa, tr, d, p);
    PortFrame(d);
    PortFrame(CommitPort(d));
    t := PortStep(cfg.isa, t1, CommitPort(d), p);
    I.RunRun(cfg.isa, tr[0], CommitPort(d).instret - d.instret,
             CommitPort(CommitPort(d)).instret - CommitPort(d).instret);
  }

  lemma PortStep(isa: I.Isa, tr: Trace, s: Core, p: Latch) returns (t: Trace)
    requires Inv(isa, tr, s, p)
    ensures |tr| > 0 && |t| > 0 && |tr[0].regs| == NREGS && ShapeOk(s)
    ensures var r := CommitPort(s);
      Inv(isa, t, r, p) && s.instret <= r.instret <= s.instret + 1 && t[0] == I.Run(isa, tr[0], r.instret - s.instret)
  {
    PortKeeps(isa, tr, s, p);
    hide InFlight, Owners, Clobbers, Memories, LatchOk, CommitPort, PortRetires, I.Step;
    t := PortTrace(tr, s);
    if PortRetires(s) {
      TraceIsRun(isa, tr, 1);
    }
  }

  // ---------------------------------------------------------------- from Issue to the cycle's end

  lemma FromIssueKeeps(isa: I.Isa, tr: Trace, e: Core, inp: Input) returns (t: Trace)
    requires Inv(isa, tr, e, if e.stallEx then e.exReg else NO_LATCH)
    requires e.stallEx ==> e.exReg.valid && !e.flush
    ensures ShapeOk(e) && |tr| > 0 && |t| > 0
    ensures var f := FromIssue(isa, e, inp);
      Agrees(isa, t, f) && t[0] == tr[0] && f.instret == e.instret && f.epc == e.epc && f.regs == e.regs
  {
    hide InFlight, Owners, Clobbers, Memories, LatchOk, Resolve, Blocked, Dispatch, I.Step;
    var g := e.(prevFlush := e.flush);
    var f := FromIssue(isa, e, inp);
    if e.stallEx || e.flush {
      assert Issue(isa, g, inp) == Bubble(g);
      t := tr;
      InvSame(isa, tr, e, if e.stallEx then e.exReg else NO_LATCH, f, Pending(f));
    } else {
      InvSame(isa, tr, e, NO_LATCH, g, NO_LATCH);
      IssueKeeps(isa, tr, g, inp, NO_LATCH);
      if Dispatches(isa, g, inp) {
        t := Extended(isa, tr);
        DispatchRegs(isa, g, inp);
      } else {
        t := tr;
        InvSame(isa, tr, e, NO_LATCH, f, Pending(f));
      }
    }
  }

  lemma DispatchRegs(isa: I.Isa, s: Core, inp: Input)
    requires ShapeOk(s)
    ensures Issue(isa, s, inp).regs == s.regs
  {}

  // ---------------------------------------------------------------- a cycle without interrupt

  lemma LatchTransferKeeps(isa: I.Isa, tr: Trace, s: Core)
    requires Agrees(isa, tr, s)
    ensures var t := LatchTransfer(s); Inv(isa, tr, t, t.exReg) && !t.flush && t.instret == s.instret
  {
    hide Inv;
    var t := LatchTransfer(s);
    InvSame(isa, tr, s, Pending(s), t, t.exReg);
  }

  lemma BeforeExKeeps(cfg: Config, tr: Trace, s: Core, inp: Input) returns (t: Trace)
    requires Agrees(cfg.isa, tr, s) && inp.irq.None?
    ensures ShapeOk(s) && |tr| > 0 && |tr[0].regs| == NREGS && |t| > 0
    ensures var m := BeforeEx(cfg, s, inp);
      Inv(cfg.isa, t, m, m.exReg) && !m.flush && !m.stallEx && m.exReg == LatchTransfer(s).exReg &&
      s.instret <= m.instret <= s.instret + 2 && t[0] == I.Run(cfg.isa, tr[0], m.instret - s.instret)
  {
    hide Inv, I.Run, I.Step, LatchTransfer, Commit, TickFrom, Pending, LatchesOk;
    var l := LatchTransfer(s);
    TraceShape(cfg.isa, tr, s, Pending(s));
    LatchTransferKeeps(cfg.isa, tr, s);
    TraceShape(cfg.isa, tr, l, l.exReg);
    t := CommitKeeps(cfg, tr, l, l.exReg);
    var c := Commit(cfg, l);
    var d := c.(stallEx := false);
    TraceShape(cfg.isa, t, c, l.exReg);
    InvSame(cfg.isa, t, c, l.exReg, d, l.exReg);
    TickFromKeeps(cfg.isa, t, d, l.exReg, 0);
  }

  /** The trace's shape, for callers that keep the invariant folded. */
  lemma TraceShape(isa: I.Isa, tr: Trace, s: Core, p: Latch)
    requires Inv(isa, tr, s, p)
    ensures ShapeOk(s) && |tr| > 0 && |tr[0].regs| == NREGS && s.regs == tr[0].regs
  {
    hide InFlight, Owners, Clobbers, Memories, LatchOk;
  }

  /** EX and Issue on a state whose latch agrees with the sequential machine. */
  lemma RestKeeps(cfg: Config, u: Trace, m: Core, inp: Input) returns (t: Trace)
    requires Inv(cfg.isa, u, m, m.exReg) && !m.flush && !m.stallEx && InScope(m.exReg)
    ensures ShapeOk(m) && |u| > 0 && |t| > 0
    ensures var f := FromIssue(cfg.isa, Execute(cfg, m, inp), inp);
      Agrees(cfg.isa, t, f) && f.instret == m.instret &&
      t[0] == (if Fires(cfg.isa, m) then u[0].(pc := inp.trapVector) else u[0]) &&
      (Fires(cfg.isa, m) ==> f.epc == u[0].pc)
  {
    var e := Execute(cfg, m, inp);
    TraceShape(cfg.isa, u, m, m.exReg);
    hide Inv, I.Step, FromIssue, TakeTrap, Traps, OlderInFlight, InScope, Quiet,
      ExecLoad, ExecStore, ExecAmo, ExecBranch, StartUnit, Finish, Agrees;
    if !m.exReg.valid {
      InvSame(cfg.isa, u, m, m.exReg, e, NO_LATCH);
      t := FromIssueKeeps(cfg.isa, u, e, inp);
    } else if !Traps(cfg.isa, m.exReg) {
      ExecuteKeeps(cfg, u, m, inp, NO_LATCH);
      ExecuteFrame(cfg, m, inp);
      if e.stallEx { InvSame(cfg.isa, u, m, m.exReg, e, e.exReg); }
      t := FromIssueKeeps(cfg.isa, u, e, inp);
    } else if OlderInFlight(m) {
      InvSame(cfg.isa, u, m, m.exReg, e, e.exReg);
      t := FromIssueKeeps(cfg.isa, u, e, inp);
    } else {
      TrapQuiets(cfg.isa, u, m, inp.trapVector);
      var a := u[0].(pc := inp.trapVector);
      QuietInv(cfg.isa, e, a, NO_LATCH);
      t := FromIssueKeeps(cfg.isa, [a], e, inp);
    }
  }

  /** One cycle without an interrupt: at most two instructions retire, and the new state agrees
      with the sequential machine that many steps on, at the handler if a trap was taken. */
  lemma PlainCycle(cfg: Config, tr: Trace, s: Core, inp: Input) returns (t: Trace)
    requires Agrees(cfg.isa, tr, s) && inp.irq.None? && ScopedCycle(s, inp)
    ensures ShapeOk(s) && |tr| > 0 && |tr[0].regs| == NREGS && |t| > 0
    ensures var f := Cycle(cfg, s, inp);
      Agrees(cfg.isa, t, f) && t[0] == SpecCycle(cfg, tr[0], s, inp) && s.instret <= f.instret <= s.instret + 2 &&
      (TrapFires(cfg, s, inp) ==> f.epc == I.Run(cfg.isa, tr[0], f.instret - s.instret).pc)
  {
    hide Inv, I.Run, I.Step, BeforeEx, FromIssue, LatchTransfer, Execute, Traps, OlderInFlight, InScope, Agrees;
    var u := BeforeExKeeps(cfg, tr, s, inp);
    t := RestKeeps(cfg, u, BeforeEx(cfg, s, inp), inp);
  }

  // ---------------------------------------------------------------- a cycle with an interrupt

  lemma IrqCycle(cfg: Config, tr: Trace, s: Core, inp: Input) returns (t: Trace)
    requires Agrees(cfg.isa, tr, s) && inp.irq.Some?
    ensures ShapeOk(s) && |tr| > 0 && |tr[0].regs| == NREGS && |t| > 0
    ensures var f := Cycle(cfg, s, inp);
      Agrees(cfg.isa, t, f) && t[0] == SpecCycle(cfg, tr[0], s, inp) && f.instret == s.instret && f.epc == tr[0].pc &&
      f.regs == tr[0].regs
  {
    var l := LatchTransfer(s);
    LatchTransferKeeps(cfg.isa, tr, s);
    TraceShape(cfg.isa, tr, l, l.exReg);
    var ex := Executed(l.board, l.exReg);
    IrqQuiets(cfg.isa, tr, l, l.exReg, inp.irq.value);
    IrqSavesOldest(cfg.isa, tr, l, l.exReg);
    IrqSpec(cfg, tr, s, inp);
    hide Inv, I.Run, I.Step, FromIssue, LatchTransfer, Quiet, QuietButHit, Commit, TickFrom, SpecCycle, Interrupted;
    var a := Interrupted(cfg.isa, tr, ex, inp.irq.value);
    var k := TakeIrq(l, inp.irq.value);
    QuietCommit(cfg, k, a);
    var c := Commit(cfg, k);
    QuietSame(c, a);
    QuietTicks(c.(stallEx := false), a);
    var m := BeforeEx(cfg, s, inp);
    assert Execute(cfg, m, inp) == m;
    QuietInv(cfg.isa, m, a, NO_LATCH);
    QuietRegs(m, a);
    t := FromIssueKeeps(cfg.isa, [a], m, inp);
  }

  lemma QuietRegs(s: Core, a: I.Arch)
    requires Quiet(s, a)
    ensures s.regs == a.regs
  {}

  lemma QuietSame(s: Core, a: I.Arch)
    requires QuietButHit(s, a)
    ensures QuietButHit(s.(stallEx := false), a)
  {}

  lemma IrqSpec(cfg: Config, tr: Trace, s: Core, inp: Input)
    requires Agrees(cfg.isa, tr, s) && inp.irq.Some?
    ensures ShapeOk(s) && |tr| > 0 && |tr[0].regs| == NREGS
    ensures var l := LatchTransfer(s); var ex := Executed(l.board, l.exReg);
      0 <= ex < |tr| && SpecCycle(cfg, tr[0], s, inp) == Interrupted(cfg.isa, tr, ex, inp.irq.value) &&
      SpecCycle(cfg, tr[0], s, inp).regs == tr[0].regs
  {
    hide Owners, Clobbers, Memories, LatchOk, I.Run, I.Step, InFlight, Steps;
    InvFlight(cfg.isa, tr, s, Pending(s));
    var l := LatchTransfer(s);
    var ex := Executed(l.board, l.exReg);
    assert ex == InFlightExecuted(s);
    AmoDepthIsBase(cfg.isa, tr, s.board, ex, ex);
    TraceIsRun(cfg.isa, tr, AmoBase(cfg.isa, tr, ex));
  }

  lemma InvFlight(isa: I.Isa, tr: Trace, s: Core, p: Latch)
    requires Inv(isa, tr, s, p)
    ensures InFlight(isa, tr, s.board, Executed(s.board, p)) && 0 <= Executed(s.board, p) <= s.board.count <= SIZE
    ensures Steps(isa, tr) && |tr| == s.board.count + 1 && |tr[0].regs| == NREGS
  {
    hide Owners, Clobbers, Memories, LatchOk;
  }
}
