/** Reachable states that show the failing sides of the exact conditions of Structure and Runs: the
    first cycles after reset, computed. */
module Witnesses {
  import opened Words
  import opened StoreQueue
  import opened Boards
  import opened Pipeline
  import opened Invariant
  import opened CycleProof
  import opened Runs
  import opened Structure
  import opened Progress
  import I = Isa

  /** No interrupt; an instruction is offered with prediction pred. */
  function Offer(pred: Prediction): Input { Input(None, 0, false, Some(pred), false) }

  /** No interrupt, nothing offered. */
  const NOTHING := Input(None, 0, false, None, false)

  /** Commit does nothing with empty queues and nothing ready at the head. */
  lemma IdleCommit(cfg: Config, s: Core)
    requires ShapeOk(s) && s.committed == [] && s.drainWait == 0 && !HeadReady(s.board)
    ensures Commit(cfg, s) == s
  {}

  /** The first instruction after reset is dispatched in the first cycle. */
  lemma FirstDispatch(cfg: Config, a: I.Arch, slots: nat, pred: Prediction)
    requires |a.regs| == NREGS && slots >= 1
    ensures ShapeOk(Reset(a, slots))
    ensures var s := Reset(a, slots); var f := Cycle(cfg, s, Offer(pred)); var i := I.At(cfg.isa, a);
      f == Dispatch(cfg.isa, s.(exReg := s.exNext), I.Operand(a.regs, i.rs1), I.Operand(a.regs, i.rs2), pred)
  {
    var s := Reset(a, slots);
    assert ShapeOk(s);
    var l := LatchTransfer(s);
    IdleCommit(cfg, l);
    IdleTicks(l.(stallEx := false), 0);
    var m := BeforeEx(cfg, s, Offer(pred));
    assert m == l && Execute(cfg, m, Offer(pred)) == m;
    var i := I.At(cfg.isa, a);
    FreeAtReset(a, slots, i.kind);
    hide Dispatch;
    assert Resolve(m, i.rs1) == Some(I.Operand(a.regs, i.rs1)) && Resolve(m, i.rs2) == Some(I.Operand(a.regs, i.rs2));
  }

  lemma FreeAtReset(a: I.Arch, slots: nat, k: I.Kind)
    requires |a.regs| == NREGS && slots >= 1
    ensures !Blocked(LatchTransfer(Reset(a, slots)), k)
  {
    var s := LatchTransfer(Reset(a, slots));
    assert FreeSlotFrom(s, MISS) == MISS;
  }

  /** What is in flight after the first dispatch. */
  lemma FirstInFlight(cfg: Config, a: I.Arch, slots: nat, pred: Prediction)
    requires |a.regs| == NREGS && slots >= 1
    ensures ShapeOk(Reset(a, slots))
    ensures var f := Cycle(cfg, Reset(a, slots), Offer(pred)); var i := I.At(cfg.isa, a);
      && f.exNext.valid && !f.stallEx && !f.prevFlush && !f.flush && f.instret == 0
      && f.exNext.instr == i && f.exNext.rob == 0
      && f.exNext.x == I.Operand(a.regs, i.rs1) && f.exNext.y == I.Operand(a.regs, i.rs2)
      && f.board.count == 1 && f.board.head == 0 && f.board.entries[0].pc == a.pc && !f.board.entries[0].ready
      && f.mem == a.mem && f.spec == [] && f.committed == [] && f.drainWait == 0
      && (forall k :: 0 <= k < |f.fus| ==> !f.fus[k].busy)
  {
    FirstDispatch(cfg, a, slots, pred);
  }

  /** That state agrees with the sequential machine at a, nothing having retired. */
  lemma FirstAgrees(cfg: Config, a: I.Arch, slots: nat, pred: Prediction)
    requires |a.regs| == NREGS && slots >= 1
    ensures ShapeOk(Reset(a, slots)) && Sim(cfg.isa, a, Cycle(cfg, Reset(a, slots), Offer(pred)))
  {
    hide Cycle, Sim, TrapFires;
    var s := Reset(a, slots);
    ResetAgrees(cfg.isa, a, slots);
    CycleRefines(cfg, a, s, Offer(pred));
    FirstInFlight(cfg, a, slots, pred);
    NoTrapYet(cfg, a, slots, pred);
    RunNone(cfg.isa, a);
  }

  lemma NoTrapYet(cfg: Config, a: I.Arch, slots: nat, pred: Prediction)
    requires |a.regs| == NREGS && slots >= 1
    ensures ShapeOk(Reset(a, slots)) && !TrapFires(cfg, Reset(a, slots), Offer(pred))
  {
    var s := Reset(a, slots);
    assert ShapeOk(s);
    IdleCommit(cfg, LatchTransfer(s));
    IdleTicks(LatchTransfer(s).(stallEx := false), 0);
  }

  /** An orphan is reachable: after reset, the first cycle in which the front end offers an instruction,
      whatever it is, leaves a state in which a redirect of Decode or Fetch strands its entry. */
  lemma OrphanReachable(cfg: Config, a: I.Arch, slots: nat, pred: Prediction)
    requires |a.regs| == NREGS && slots >= 1
    ensures ShapeOk(Reset(a, slots))
    ensures var f := Cycle(cfg, Reset(a, slots), Offer(pred));
      Sim(cfg.isa, a, f) && ShapeOk(Bubble(f)) && !WellOwned(Bubble(f))
  {
    hide Cycle, Sim, WellOwned;
    FirstInFlight(cfg, a, slots, pred);
    FirstAgrees(cfg, a, slots, pred);
    FrontRedirectOrphans(cfg.isa, a, Cycle(cfg, Reset(a, slots), Offer(pred)));
  }

  // ---------------------------------------------------------------- an AMO caught by an interrupt

  /** The second cycle executes an AMO: memory is written, its entry is ready, nothing has retired. */
  lemma AmoExecutes(cfg: Config, s: Core)
    requires ShapeOk(s) && s.exNext.valid && !s.stallEx && !s.prevFlush && !s.flush
    requires s.exNext.instr.kind == I.Amo && s.exNext.rob == 0
    requires s.board.count == 1 && s.board.head == 0 && !s.board.entries[0].ready
    requires s.spec == [] && s.committed == [] && s.drainWait == 0 && forall k :: 0 <= k < |s.fus| ==> !s.fus[k].busy
    ensures var f := Cycle(cfg, s, NOTHING);
      && f.board.count == 1 && f.board.head == 0 && f.board.entries[0].pc == s.board.entries[0].pc
      && !Pending(f).valid && f.instret == s.instret
    ensures !TrapFires(cfg, s, NOTHING)
  {
    hide I.AmoStore, I.LoadValue, Write, InvalidateAll;
    var l := LatchTransfer(s);
    IdleCommit(cfg, l);
    IdleTicks(l.(stallEx := false), 0);
    assert BeforeEx(cfg, s, NOTHING) == l;
  }

  /** Two cycles after reset in front of an AMO: it has executed and not retired. */
  function AmoCaught(cfg: Config, a: I.Arch, pred: Prediction): (s: Core)
    requires |a.regs| == NREGS
    ensures ShapeOk(s)
  {
    var r := Reset(a, 1);
    assert ShapeOk(r);
    Cycle(cfg, Cycle(cfg, r, Offer(pred)), NOTHING)
  }

  lemma AmoCaughtAgrees(cfg: Config, a: I.Arch, pred: Prediction)
    requires |a.regs| == NREGS && I.At(cfg.isa, a).kind == I.Amo
    requires Clear(I.X(cfg.isa, a), I.At(cfg.isa, a).size)
    ensures var s := AmoCaught(cfg, a, pred);
      Sim(cfg.isa, a, s) && InFlightExecuted(s) == 1 && AmoDepth(cfg.isa, s.board, 1) == 1
  {
    hide Cycle, Sim, TrapFires, Pending;
    var f := Cycle(cfg, Reset(a, 1), Offer(pred));
    FirstInFlight(cfg, a, 1, pred);
    FirstAgrees(cfg, a, 1, pred);
    AmoExecutes(cfg, f);
    CycleRefines(cfg, a, f, NOTHING);
    RunNone(cfg.isa, a);
    assert AmoCaught(cfg, a, pred).board.entries[0].pc == a.pc;
  }

  /** An interrupt in that reachable state finds memory one AMO ahead of the retired prefix: it is
      imprecise if and only if the AMO changes memory. */
  lemma AmoAhead(cfg: Config, a: I.Arch, pred: Prediction, inp: Input)
    requires |a.regs| == NREGS && I.At(cfg.isa, a).kind == I.Amo && inp.irq.Some?
    requires Clear(I.X(cfg.isa, a), I.At(cfg.isa, a).size)
    ensures var s := AmoCaught(cfg, a, pred); var f := Cycle(cfg, s, inp);
      Sim(cfg.isa, a, s) && f.epc == a.pc && f.regs == a.regs &&
      Overlay(f.mem, f.committed) == I.Step(cfg.isa, a).mem
  {
    hide Cycle, Sim, AmoCaught, Overlay, I.Step, AmoDepth;
    AmoCaughtAgrees(cfg, a, pred);
    var s := AmoCaught(cfg, a, pred);
    InterruptPrecise(cfg, a, s, inp);
    RunOne(cfg.isa, a);
  }

  lemma RunOne(isa: I.Isa, a: I.Arch)
    requires |a.regs| == NREGS
    ensures I.Run(isa, a, 1) == I.Step(isa, a)
  {
    hide I.Step;
    RunNone(isa, I.Step(isa, a));
  }

  /** A program of nothing but atomic swaps of the value 1 into the doubleword at address 0. */
  const SWAP := I.Instr(I.Amo, 1, 0, 0, 0, 8, false, 4, 0)

  function SwapIsa(): I.Isa {
    I.Isa(pc => SWAP, (i, pc, x, y) => 0, (i, x, y) => false, (i, pc, x, y) => 0, (i, was, y) => 1, (i, x, y) => 1)
  }

  function Zeroed(): I.Arch { I.Arch(0, seq(NREGS, _ => 0), address => 0) }

  /** The failing input: reset with all memory zero, two cycles, an interrupt. The saved pc is that of
      the swap, so it will run again, but memory already holds its result. */
  lemma SwapRunsTwice(inp: Input)
    requires inp.irq.Some?
    ensures var cfg := Config(SwapIsa(), 2, 0); var a := Zeroed();
      |a.regs| == NREGS &&
      var f := Cycle(cfg, AmoCaught(cfg, a, Prediction(false, 0)), inp);
      f.epc == a.pc && Overlay(f.mem, f.committed)(0) == 1 && a.mem(0) == 0
  {
    hide Cycle, AmoCaught, Overlay;
    var cfg, a := Config(SwapIsa(), 2, 0), Zeroed();
    assert I.X(cfg.isa, a) == 0;
    AmoAhead(cfg, a, Prediction(false, 0), inp);
    SwapWrites();
  }

  lemma SwapWrites()
    ensures |Zeroed().regs| == NREGS && I.Step(SwapIsa(), Zeroed()).mem(0) == 1
  {
    var isa, a := SwapIsa(), Zeroed();
    var e := I.AmoStore(isa, SWAP, 0, 0, a.mem);
    assert I.Step(isa, a).mem == Write(a.mem, e) && e.data == 1 && e.address == 0 && e.size == 8;
    assert ByteOf(1, 0) == 1;
  }
}
