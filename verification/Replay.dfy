/** A replay in EX (a load overlapping a buffered store it cannot be served from, or a trap waiting
    for older instructions) always ends: while it lasts Issue is frozen and a measure of the work
    still ahead of it falls every cycle. */
module Replay {
  import opened Words
  import opened StoreQueue
  import opened Boards
  import opened Pipeline
  import opened Invariant
  import opened CommitProof
  import opened ExProof
  import opened CycleProof
  import opened Runs
  import I = Isa

  // ---------------------------------------------------------------- the measure

  function Left(f: Fu): nat { if f.busy && f.remaining > 0 then f.remaining else 0 }

  /** Cycles left on all units together. */
  function Work(fus: seq<Fu>): nat {
    if fus == [] then 0 else Work(fus[..|fus| - 1]) + Left(fus[|fus| - 1])
  }

  /** Unit countdowns, the drain pause, committed stores and live entries, weighted so that a
      drain pays for the pause it starts and a commit for the store it passes on. */
  function Ahead(cfg: Config, s: Core): int {
    Work(s.fus) + s.drainWait + (cfg.storePenalty + 1) * |s.committed| + (cfg.storePenalty + 2) * (s.board.count - 1)
  }

  lemma {:induction false} WorkUpdate(fus: seq<Fu>, j: int, f: Fu)
    requires 0 <= j < |fus|
    ensures Work(fus[j := f]) == Work(fus) - Left(fus[j]) + Left(f)
  {
    var u, last := fus[j := f], |fus| - 1;
    if j == last {
      assert u[..last] == fus[..last];
    } else {
      assert u[..last] == fus[..last][j := f];
      WorkUpdate(fus[..last], j, f);
    }
  }

  // ---------------------------------------------------------------- Commit

  lemma Weights(p: nat, c: int, l: int)
    ensures (p + 1) * (c - 1) == (p + 1) * c - (p + 1)
    ensures (p + 1) * (c + 1) == (p + 1) * c + (p + 1)
    ensures (p + 2) * (l - 1) == (p + 2) * l - (p + 2)
  {}

  lemma DrainLowers(cfg: Config, s: Core)
    requires QueueOk(s.committed)
    ensures var d := DrainStage(cfg, s);
      Ahead(cfg, d) <= Ahead(cfg, s) && (s.committed != [] ==> Ahead(cfg, d) < Ahead(cfg, s)) &&
      |d.committed| <= |s.committed| && d.board == s.board && d.fus == s.fus
  {
    DrainValid(s.committed);
    Weights(cfg.storePenalty, |s.committed|, s.board.count - 1);
    hide Work;
  }

  lemma PortLowers(cfg: Config, s: Core)
    requires ShapeOk(s)
    ensures var r := CommitPort(s);
      r.fus == s.fus && Ahead(cfg, r) <= Ahead(cfg, s) && (PortRetires(s) ==> Ahead(cfg, r) < Ahead(cfg, s))
  {
    Weights(cfg.storePenalty, |s.committed|, s.board.count - 1);
    hide Work, I.SetReg;
  }

  // ---------------------------------------------------------------- EX

  predicate AnyBusyFrom(fus: seq<Fu>, j: int)
    requires 0 <= j
  {
    exists k :: j <= k < |fus| && fus[k].busy
  }

  lemma TickLowers(isa: I.Isa, tr: Trace, s: Core, p: Latch, j: int)
    requires Inv(isa, tr, s, p) && 0 <= j < |s.fus|
    ensures var r := Tick(s, j);
      ShapeOk(s) && Work(r.fus) <= Work(s.fus) && (s.fus[j].busy ==> Work(r.fus) < Work(s.fus)) &&
      r.committed == s.committed && r.drainWait == s.drainWait && r.board.count == s.board.count && r.board.head == s.board.head &&
      |r.fus| == |s.fus| && forall k :: 0 <= k < |s.fus| && k != j ==> r.fus[k] == s.fus[k]
  {
    hide I.Value, I.Step, Clobbers, Memories, LatchOk, Work;
    assert UnitOk(isa, tr, s.board, Executed(s.board, p), s.fus, j);
    var f := s.fus[j];
    if f.busy {
      WorkUpdate(s.fus, j, f.(remaining := 0, busy := false));
      WorkUpdate(s.fus, j, f.(remaining := f.remaining - 1));
    }
  }

  lemma {:induction false} TicksLower(isa: I.Isa, tr: Trace, s: Core, p: Latch, j: int)
    requires Inv(isa, tr, s, p) && 0 <= j <= |s.fus|
    ensures var r := TickFrom(s, j);
      ShapeOk(s) && Work(r.fus) <= Work(s.fus) && (AnyBusyFrom(s.fus, j) ==> Work(r.fus) < Work(s.fus)) &&
      r.committed == s.committed && r.drainWait == s.drainWait && r.board.count == s.board.count
    decreases |s.fus| - j
  {
    TraceShape(isa, tr, s, p);
    if j < |s.fus| {
      TickLowers(isa, tr, s, p, j);
      TickKeeps(isa, tr, s, p, j);
      hide Inv, Work, Tick;
      TicksLower(isa, tr, Tick(s, j), p, j + 1);
    }
  }

  // ---------------------------------------------------------------- something always moves

  /** With every unit idle each executed entry is ready, so an older one at the head can retire. */
  lemma IdleHeadReady(isa: I.Isa, tr: Trace, s: Core, p: Latch)
    requires Inv(isa, tr, s, p) && p.valid && s.board.count > 1 && !AnyBusyFrom(s.fus, 0)
    ensures HeadReady(s.board)
  {
    UnreadyKeepsBusy(isa, tr, s, p);
  }

  lemma UnreadyKeepsBusy(isa: I.Isa, tr: Trace, s: Core, p: Latch)
    requires Inv(isa, tr, s, p) && p.valid && s.board.count > 1
    ensures ShapeOk(s) && At(s.board, 0).valid && (!At(s.board, 0).ready ==> AnyBusyFrom(s.fus, 0))
  {
    hide I.Value, I.Step, Clobbers, Memories, LatchOk;
    if !At(s.board, 0).ready { assert Owned(s.fus, Slot(s.board.head, 0)); }
  }

  /** A load alone in flight with nothing committed left cannot be held up. */
  lemma AloneLoadsGo(isa: I.Isa, tr: Trace, s: Core)
    requires Ready(isa, tr, s) && s.board.count == 1 && s.committed == []
    ensures Forward(s.spec, s.committed, I.Ea(s.exReg.instr, s.exReg.x), s.exReg.instr.size) == Miss
    ensures !OlderInFlight(s)
  {
    Youngest(isa, tr, s);
    Parts(isa, tr, s);
    hide Inv, Owners, InFlight, I.Step;
    assert s.spec == [];
  }

  /** The replaying state: the instruction stays in the EX latch and nothing is waiting behind it. */
  lemma StallKeepsLatch(cfg: Config, s: Core, inp: Input)
    requires ShapeOk(s) && LatchesOk(s) && s.stallEx && inp.irq.None?
    ensures Begin(s, inp) == s
  {}

  /** Commit on a replaying state with idle units and nothing committed retires the head. */
  lemma IdleCommitLowers(cfg: Config, tr: Trace, s: Core, p: Latch)
    requires Inv(cfg.isa, tr, s, p) && p.valid && s.board.count > 1 && !AnyBusyFrom(s.fus, 0) && s.committed == []
    ensures Ahead(cfg, Commit(cfg, s)) < Ahead(cfg, s)
  {
    IdleHeadReady(cfg.isa, tr, s, p);
    InvQueue(cfg.isa, tr, s, p);
    hide Inv, AnyBusyFrom, HeadReady, Ahead, CommitPort;
    DrainLowers(cfg, s);
    var d := DrainStage(cfg, s);
    assert PortRetires(d);
    PortLowers(cfg, d);
    PortLowers(cfg, CommitPort(d));
  }

  lemma CommitLowers(cfg: Config, tr: Trace, s: Core, p: Latch)
    requires Inv(cfg.isa, tr, s, p)
    ensures ShapeOk(s)
    ensures var c := Commit(cfg, s);
      c.fus == s.fus && Ahead(cfg, c) <= Ahead(cfg, s) && (s.committed != [] ==> Ahead(cfg, c) < Ahead(cfg, s))
  {
    InvQueue(cfg.isa, tr, s, p);
    hide Inv, Ahead, CommitPort, DrainStage;
    DrainLowers(cfg, s);
    PortLowers(cfg, DrainStage(cfg, s));
    PortLowers(cfg, CommitPort(DrainStage(cfg, s)));
  }

  lemma InvQueue(isa: I.Isa, tr: Trace, s: Core, p: Latch)
    requires Inv(isa, tr, s, p)
    ensures QueueOk(s.committed) && ShapeOk(s) && |s.committed| <= QDEPTH
  {
    hide InFlight, Owners, Clobbers, LatchOk, I.Step;
  }

  /** With one entry in flight and nothing committed, Commit changes no more than the pause counter. */
  lemma AloneCommit(cfg: Config, tr: Trace, s: Core, p: Latch)
    requires Inv(cfg.isa, tr, s, p) && p.valid && s.board.count == 1 && s.committed == []
    ensures ShapeOk(s) && Commit(cfg, s).board == s.board && Commit(cfg, s).committed == []
  {
    hide I.Value, I.Step, Owners, Clobbers, Memories, LatchOk;
    assert EntryOk(cfg.isa, tr, s.board, 0, 0);
    assert !HeadReady(s.board);
  }

  lemma EndStalls(isa: I.Isa, e: Core, inp: Input)
    requires ShapeOk(e) && e.stallEx
    ensures var f := FromIssue(isa, e, inp);
      f.stallEx && f.fus == e.fus && f.drainWait == e.drainWait && f.committed == e.committed && f.board == e.board &&
      f.exReg == e.exReg && f.frontPc == e.frontPc && !f.exNext.valid
  {}

  lemma OnlyStallIsStall(isa: I.Isa, e: Core, inp: Input)
    requires ShapeOk(e) && !e.stallEx
    ensures !FromIssue(isa, e, inp).stallEx
  {
    hide Resolve, Blocked, Allocate;
  }

  /** What still holds the instruction up when it replays again. */
  lemma StillHeld(cfg: Config, u: Trace, m: Core, inp: Input)
    requires Inv(cfg.isa, u, m, m.exReg) && m.exReg.valid && !m.flush && !m.stallEx && InScope(m.exReg)
    requires Execute(cfg, m, inp).stallEx
    ensures Execute(cfg, m, inp) == m.(stallEx := true)
    ensures m.board.count > 1 || m.committed != []
  {
    hide Inv, FlushSpeculative, DropDeadStores, Complete, Forward, FreeSlot, InvalidateAll, OlderInFlight, I.AmoStore,
      TakeTrap, InScope, I.LoadValue, ReadLE, Write, I.PcAfter;
    TraceShape(cfg.isa, u, m, m.exReg);
    InvCount(cfg.isa, u, m);
    if m.board.count == 1 && m.committed == [] { AloneLoadsGo(cfg.isa, u, m); }
    TakeTrapStall(m, inp.trapVector);
  }

  lemma InvCount(isa: I.Isa, u: Trace, m: Core)
    requires Inv(isa, u, m, m.exReg) && m.exReg.valid
    ensures m.board.count > 0
  {
    hide InFlight, Owners, Clobbers, Memories, LatchOk;
  }

  lemma {:induction false} TrapDrainStall(s: Core)
    requires ShapeOk(s)
    ensures TrapDrain(s).stallEx == s.stallEx
    decreases s.board.count
  {
    if HeadReady(s.board) && s.board.head != s.exReg.rob {
      var e := s.board.entries[s.board.head];
      var (spec, committed) :=
        if e.isStore && s.spec != [] && |s.committed| < QDEPTH then CommitMove(s.spec, s.committed)
        else (s.spec, s.committed);
      TrapDrainStall(s.(spec := spec, committed := committed, regs := I.SetReg(s.regs, e.rd, e.result),
                        board := Retire(s.board)));
    }
  }

  lemma TakeTrapStall(s: Core, vector: Word)
    requires ShapeOk(s)
    ensures TakeTrap(s, vector).stallEx == s.stallEx
  {
    TrapDrainStall(s.(board := Complete(s.board, s.exReg.rob, 0, 0)));
  }

  // ---------------------------------------------------------------- the measure falls

  /** One cycle of replay: the instruction leaves EX, or it stays, Issue is frozen and the measure falls. */
  lemma ReplayStep(cfg: Config, tr: Trace, s: Core, inp: Input)
    requires Agrees(cfg.isa, tr, s) && s.stallEx && inp.irq.None? && ScopedCycle(s, inp)
    ensures ShapeOk(s)
    ensures var f := Cycle(cfg, s, inp);
      f.stallEx ==>
        Ahead(cfg, f) < Ahead(cfg, s) && f.exReg == s.exReg && f.frontPc == s.frontPc && !f.exNext.valid
  {
    var p := s.exReg;
    TraceShape(cfg.isa, tr, s, p);
    StallKeepsLatch(cfg, s, inp);
    var t := CommitKeeps(cfg, tr, s, p);
    var c := Commit(cfg, s);
    CommitLowers(cfg, tr, s, p);
    var x := c.(stallEx := false);
    InvSame(cfg.isa, t, c, p, x, p);
    TicksLower(cfg.isa, t, x, p, 0);
    TickFromKeeps(cfg.isa, t, x, p, 0);
    var m := TickFrom(x, 0);
    assert m == BeforeEx(cfg, s, inp);
    var e := Execute(cfg, m, inp);
    TraceShape(cfg.isa, t, m, p);
    if s.board.count == 1 && s.committed == [] { AloneCommit(cfg, tr, s, p); }
    if s.board.count > 1 && s.committed == [] && !AnyBusyFrom(s.fus, 0) { IdleCommitLowers(cfg, tr, s, p); }
    InvCount(cfg.isa, tr, s);
    FrontFrame(cfg, s);
    ReplayFinal(cfg, t, s, c, m, inp);
  }

  lemma FrontFrame(cfg: Config, s: Core)
    requires ShapeOk(s)
    ensures TickFrom(Commit(cfg, s).(stallEx := false), 0).frontPc == s.frontPc
  {
    TickFront(Commit(cfg, s).(stallEx := false), 0);
    hide TickFrom, HeadReady, Drain, CommitMove;
  }

  lemma {:induction false} TickFront(s: Core, j: int)
    requires ShapeOk(s) && 0 <= j <= |s.fus|
    ensures TickFrom(s, j).frontPc == s.frontPc
    decreases |s.fus| - j
  {
    if j < |s.fus| { TickFront(Tick(s, j), j + 1); }
  }

  lemma ReplayFinal(cfg: Config, t: Trace, s: Core, c: Core, m: Core, inp: Input)
    requires ShapeOk(s) && ShapeOk(m) && m.exReg == s.exReg && m.exReg.valid && !m.flush && !m.stallEx && InScope(m.exReg)
    requires m == BeforeEx(cfg, s, inp) && m.frontPc == s.frontPc && s.board.count > 0
    requires Inv(cfg.isa, t, m, m.exReg)
    requires Ahead(cfg, c) <= Ahead(cfg, s) && c.fus == s.fus
    requires Work(m.fus) <= Work(c.fus) && m.committed == c.committed && m.drainWait == c.drainWait && m.board.count == c.board.count
    requires s.committed != [] ==> Ahead(cfg, c) < Ahead(cfg, s)
    requires AnyBusyFrom(s.fus, 0) ==> Work(m.fus) < Work(c.fus)
    requires s.board.count > 1 && s.committed == [] && !AnyBusyFrom(s.fus, 0) ==> Ahead(cfg, c) < Ahead(cfg, s)
    requires s.board.count == 1 && s.committed == [] ==> c.board.count == 1 && c.committed == []
    ensures var f := Cycle(cfg, s, inp);
      f.stallEx ==>
        Ahead(cfg, f) < Ahead(cfg, s) && f.exReg == s.exReg && f.frontPc == s.frontPc && !f.exNext.valid
  {
    hide Inv, Execute, BeforeEx, AnyBusyFrom, FromIssue, Work, InScope;
    var e := Execute(cfg, m, inp);
    if e.stallEx {
      StillHeld(cfg, t, m, inp);
      EndStalls(cfg.isa, e, inp);
    } else {
      OnlyStallIsStall(cfg.isa, e, inp);
    }
  }

  // ---------------------------------------------------------------- every replay ends

  ghost predicate NoInterrupt(ins: seq<Input>) { forall i :: 0 <= i < |ins| ==> ins[i].irq.None? }

  lemma AheadPositive(cfg: Config, s: Core)
    requires s.board.count > 0
    ensures Ahead(cfg, s) >= 0
  {}

  /** Every replay ends: given as many cycles as the measure says, the instruction leaves EX in one
      of them, whatever the front end, caches and program do meanwhile. */
  lemma {:induction false} ReplayEnds(cfg: Config, a: I.Arch, s: Core, ins: seq<Input>) returns (n: nat)
    requires Sim(cfg.isa, a, s) && ShapeOk(s) && s.stallEx
    requires NoInterrupt(ins) && ScopedRun(cfg, s, ins) && |ins| > Ahead(cfg, s)
    ensures 0 < n <= |ins| && n <= Ahead(cfg, s) + 1 && !RunCycles(cfg, s, ins[..n]).stallEx
    decreases |ins|
  {
    hide Agrees, Cycle, Ahead, I.Step, SpecCycle;
    var tr := Witness(cfg.isa, a, s);
    StalledCount(cfg.isa, tr, s);
    AheadPositive(cfg, s);
    var f := Cycle(cfg, s, ins[0]);
    CycleRefines(cfg, a, s, ins[0]);
    if f.stallEx {
      ReplayStep(cfg, tr, s, ins[0]);
      var k := ReplayEnds(cfg, SpecCycle(cfg, a, s, ins[0]), f, ins[1..]);
      n := k + 1;
      assert ins[..n][1..] == ins[1..][..k];
    } else {
      n := 1;
      assert ins[..1][1..] == [];
      assert RunCycles(cfg, f, []) == f;
    }
  }

  lemma StalledCount(isa: I.Isa, tr: Trace, s: Core)
    requires Agrees(isa, tr, s) && s.stallEx
    ensures s.board.count > 0
  {
    hide InFlight, Owners, Clobbers, Memories, LatchOk;
  }
}
