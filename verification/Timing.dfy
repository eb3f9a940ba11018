/** How long things take, exactly: what a cycle retires, how drains are spaced and when a unit's result
    arrives. */
module Timing {
  import opened Words
  import opened StoreQueue
  import opened Boards
  import opened Pipeline
  import opened Invariant
  import opened CommitProof
  import opened ExProof
  import opened FlushProof
  import opened CycleProof
  import opened Runs
  import opened Replay
  import opened Progress
  import I = Isa

  // ---------------------------------------------------------------- Commit

  /** The oldest entry can retire: it is ready and, if a store, finds one of the 4 committed places. */
  predicate First(s: Core)
    requires ShapeOk(s)
  {
    s.board.count >= 1 && At(s.board, 0).ready && (At(s.board, 0).isStore ==> |s.committed| < 4)
  }

  /** So can the next one in the same cycle; two stores need two places. */
  predicate Second(s: Core)
    requires ShapeOk(s)
  {
    First(s) && s.board.count >= 2 && At(s.board, 1).ready &&
    (At(s.board, 1).isStore ==> |s.committed| + (if At(s.board, 0).isStore then 1 else 0) < 4)
  }

  function Retirable(s: Core): nat
    requires ShapeOk(s)
  {
    if Second(s) then 2 else if First(s) then 1 else 0
  }

  lemma PortExact(isa: I.Isa, tr: Trace, s: Core, p: Latch)
    requires Inv(isa, tr, s, p)
    ensures ShapeOk(s)
    ensures var r := CommitPort(s);
      if First(s) then
        && r.instret == s.instret + 1 && r.board.count == s.board.count - 1
        && |r.committed| == |s.committed| + (if At(s.board, 0).isStore then 1 else 0)
        && forall k :: 0 <= k < r.board.count ==> At(r.board, k) == At(s.board, k + 1)
      else r == s
  {
    InvQueue(isa, tr, s, p);
    InvRing(isa, tr, s, p);
    PortKeeps(isa, tr, s, p);
    hide Inv;
    if s.board.count > 0 { HeadIs(s.board); }
    if First(s) {
      assert PortRetires(s);
      PortBoard(s);
    }
  }

  lemma HeadIs(b: Board)
    requires RingOk(b) && b.count > 0
    ensures At(b, 0) == b.entries[b.head] && At(b, 0).valid
  {}

  lemma PortBoard(s: Core)
    requires ShapeOk(s) && RingOk(s.board) && PortRetires(s)
    requires s.board.entries[s.board.head].isStore ==> s.spec != []
    ensures var r := CommitPort(s);
      && r.instret == s.instret + 1 && r.board.count == s.board.count - 1
      && |r.committed| == |s.committed| + (if At(s.board, 0).isStore then 1 else 0)
      && forall k :: 0 <= k < r.board.count ==> At(r.board, k) == At(s.board, k + 1)
  {
    var b, e := s.board, s.board.entries[s.board.head];
    var clobber := if e.rd != 0 && b.clobber[e.rd].transId == b.head then b.clobber[e.rd := IDLE] else b.clobber;
    PortFields(s, clobber);
    RetirePops(b.(clobber := clobber));
  }

  /** Commit retires exactly the ready entries at the head, two at most, that the committed queue has room
      for once this cycle's drain has been made. */
  lemma CommitExact(cfg: Config, tr: Trace, s: Core, p: Latch)
    requires Inv(cfg.isa, tr, s, p)
    ensures ShapeOk(s)
    ensures var d, c := DrainStage(cfg, s), Commit(cfg, s);
      c.instret == s.instret + Retirable(d) && c.board.count == s.board.count - Retirable(d)
  {
    TraceShape(cfg.isa, tr, s, p);
    DrainFrame(cfg, s);
    DrainKeeps(cfg, tr, s, p);
    var d := DrainStage(cfg, s);
    PortExact(cfg.isa, tr, d, p);
    var t := PortStep(cfg.isa, tr, d, p);
    PortExact(cfg.isa, t, CommitPort(d), p);
    hide Inv, CommitPort, DrainStage;
  }

  /** The same in the cycle: two ready heads retire together. */
  lemma CycleRetires(cfg: Config, a: I.Arch, s: Core, inp: Input)
    requires Sim(cfg.isa, a, s) && inp.irq.None? && ScopedCycle(s, inp)
    ensures ShapeOk(s) && ShapeOk(DrainStage(cfg, s))
    ensures Cycle(cfg, s, inp).instret == s.instret + Retirable(DrainStage(cfg, s))
  {
    hide Inv, Agrees, Commit, DrainStage, Execute, FromIssue, TickFrom, InScope, First, Second;
    var tr := Witness(cfg.isa, a, s);
    TraceShapeOf(cfg.isa, tr, s);
    LatchTransferKeeps(cfg.isa, tr, s);
    var l := LatchTransfer(s);
    CommitExact(cfg, tr, l, l.exReg);
    PortRest(cfg, tr, l, inp);
    DrainFrame(cfg, s);
    DrainFrame(cfg, l);
    DrainLatch(cfg, s, l);
    SameRetirable(DrainStage(cfg, s), DrainStage(cfg, l));
  }

  lemma SameRetirable(s: Core, l: Core)
    requires ShapeOk(s) && ShapeOk(l) && l.board == s.board && l.committed == s.committed
    ensures Retirable(s) == Retirable(l)
  {}

  // ---------------------------------------------------------------- drains

  function Drains(cfg: Config, s: Core, n: nat): Core {
    if n == 0 then s else DrainStage(cfg, Drains(cfg, s, n - 1))
  }

  /** The pause between two drains: storePenalty cycles, or none below two. */
  function Gap(cfg: Config): nat { if cfg.storePenalty == 0 then 1 else cfg.storePenalty }

  /** A drain writes the oldest committed store to memory, and the next one comes Gap cycles later. */
  lemma {:induction false} DrainSpacing(cfg: Config, s: Core, n: nat)
    requires QueueOk(s.committed) && s.committed != [] && s.drainWait <= 1 && 1 <= n <= Gap(cfg)
    ensures var d := Drains(cfg, s, n);
      d.committed == s.committed[1..] && d.mem == Write(s.mem, s.committed[0]) && d.drainWait + n == cfg.storePenalty + 1
  {
    if n == 1 {
      FirstDrain(cfg, s);
    } else {
      DrainSpacing(cfg, s, n - 1);
      hide Drain;
    }
  }

  lemma FirstDrain(cfg: Config, s: Core)
    requires QueueOk(s.committed) && s.committed != [] && s.drainWait <= 1
    ensures Drains(cfg, s, 0) == s
    ensures var d := Drains(cfg, s, 1);
      d.committed == s.committed[1..] && d.mem == Write(s.mem, s.committed[0]) && d.drainWait == cfg.storePenalty
  {
    assert Drains(cfg, s, 0) == s;
    DrainValid(s.committed);
  }

  // ---------------------------------------------------------------- units

  /** A unit one cycle on. */
  function Counted(f: Fu): Fu { if !f.busy then f else f.(remaining := f.remaining - 1, busy := f.remaining != 1) }

  predicate Finishing(f: Fu, t: int) { f.busy && f.remaining == 1 && f.transId == t }

  ghost predicate Apart(fus: seq<Fu>) {
    forall i, j :: 0 <= i < j < |fus| && fus[i].busy && fus[j].busy ==> fus[i].transId != fus[j].transId
  }

  /** r is s with the units from j on one cycle further: entry t has the result of the unit that finishes
      for it, and is as before if none does. */
  ghost predicate TickedFrom(s: Core, r: Core, j: int)
    requires ShapeOk(s)
  {
    && ShapeOk(r) && |r.fus| == |s.fus|
    && (forall k :: 0 <= k < |s.fus| ==> r.fus[k] == if k < j then s.fus[k] else Counted(s.fus[k]))
    && (forall t, k :: 0 <= t < SIZE && j <= k < |s.fus| && 0 <= k && Finishing(s.fus[k], t) ==>
          r.board.entries[t] == s.board.entries[t].(ready := true, result := s.fus[k].result, rd := s.fus[k].rd))
    && (forall t :: 0 <= t < SIZE && (forall k :: j <= k < |s.fus| && 0 <= k ==> !Finishing(s.fus[k], t)) ==>
          r.board.entries[t] == s.board.entries[t])
    && r == s.(fus := r.fus, board := s.board.(entries := r.board.entries))
  }

  lemma TickOne(s: Core, j: int)
    requires ShapeOk(s) && 0 <= j < |s.fus|
    ensures var r, f := Tick(s, j), s.fus[j];
      && ShapeOk(r) && r.fus == s.fus[j := Counted(f)] && r == s.(fus := r.fus, board := s.board.(entries := r.board.entries))
      && (forall t :: 0 <= t < SIZE ==>
            r.board.entries[t] ==
              if Finishing(f, t) then s.board.entries[t].(ready := true, result := f.result, rd := f.rd)
              else s.board.entries[t])
  {
    assert s.fus[j := s.fus[j]] == s.fus;
  }

  /** Every busy unit counts down by one each cycle, and delivers its result when it reaches zero. */
  lemma {:induction false} TicksExact(s: Core, j: int)
    requires ShapeOk(s) && 0 <= j <= |s.fus| && Apart(s.fus)
    ensures TickedFrom(s, TickFrom(s, j), j)
    decreases |s.fus| - j
  {
    if j < |s.fus| {
      var u := Tick(s, j);
      TickOne(s, j);
      hide Tick;
      TicksExact(u, j + 1);
      TickedBoth(s, u, TickFrom(u, j + 1), j);
    }
  }

  lemma TickedBoth(s: Core, u: Core, r: Core, j: int)
    requires ShapeOk(s) && ShapeOk(u) && 0 <= j < |s.fus| && Apart(s.fus) && u.fus == s.fus[j := Counted(s.fus[j])]
    requires u == s.(fus := u.fus, board := s.board.(entries := u.board.entries))
    requires forall t :: 0 <= t < SIZE ==>
      u.board.entries[t] ==
        if Finishing(s.fus[j], t) then s.board.entries[t].(ready := true, result := s.fus[j].result, rd := s.fus[j].rd)
        else s.board.entries[t]
    requires TickedFrom(u, r, j + 1)
    ensures TickedFrom(s, r, j)
  {
    forall t | 0 <= t < SIZE && forall k :: j <= k < |s.fus| ==> !Finishing(s.fus[k], t)
      ensures r.board.entries[t] == s.board.entries[t]
    {
      assert !Finishing(s.fus[j], t);
      assert forall k :: j + 1 <= k < |u.fus| && 0 <= k ==> u.fus[k] == s.fus[k] && !Finishing(u.fus[k], t);
    }
    forall t, k | 0 <= t < SIZE && j <= k < |s.fus| && Finishing(s.fus[k], t)
      ensures r.board.entries[t] == s.board.entries[t].(ready := true, result := s.fus[k].result, rd := s.fus[k].rd)
    {
      if k == j {
        assert forall i :: j + 1 <= i < |u.fus| && 0 <= i ==> u.fus[i] == s.fus[i] && !Finishing(u.fus[i], t);
      } else {
        assert Finishing(u.fus[k], t) && !Finishing(s.fus[j], t);
      }
    }
  }

  /** Unit j works for entry t and delivers in n cycles. */
  predicate DueIn(s: Core, j: int, t: int, n: int)
    requires 0 <= j < |s.fus|
  {
    s.fus[j].busy && s.fus[j].transId == t && s.fus[j].remaining == n
  }

  /** Slot j is the first idle miss slot. */
  predicate FirstIdle(s: Core, j: int) {
    2 <= j < |s.fus| - 1 && !s.fus[j].busy && forall i :: 2 <= i < j ==> s.fus[i].busy
  }

  /** When the result of the instruction EX has just taken arrives: at once for an ALU operation, store,
      AMO or branch; one cycle later for a multiplication and for a load that hits in a queue or in the
      cache; after the divider's count; and for a load that misses, one cycle less than the miss penalty
      later, through the first idle miss slot. */
  ghost predicate ResultDue(cfg: Config, m: Core, e: Core, cacheHit: bool)
    requires ShapeOk(m) && ShapeOk(e) && |e.fus| == |m.fus| && 0 <= m.exReg.rob < SIZE
  {
    var l := m.exReg;
    var last := |m.fus| - 1;
    match l.instr.kind
    case Alu | Store | Amo | Branch => e.board.entries[l.rob].ready
    case Mul => !m.fus[0].busy && DueIn(e, 0, l.rob, 1)
    case Div => !m.fus[1].busy && DueIn(e, 1, l.rob, cfg.isa.divCycles(l.instr, l.x, l.y))
    case Load =>
      if cacheHit || Forward(m.spec, m.committed, (l.x + l.instr.imm) % 0x1_0000_0000_0000_0000, l.instr.size).Hit? then
        !m.fus[last].busy && DueIn(e, last, l.rob, 1)
      else exists j :: FirstIdle(m, j) && DueIn(e, j, l.rob, cfg.missPenalty - 1)
    case Trap => false
  }

  /** An ECALL or EBREAK, or a branch that goes to an odd address. */
  predicate Trapping(isa: I.Isa, l: Latch) {
    l.instr.kind == I.Trap ||
    (l.instr.kind == I.Branch && isa.taken(l.instr, l.x, l.y) && isa.target(l.instr, l.pc, l.x, l.y) % 2 == 1)
  }

  lemma LatencyExact(cfg: Config, u: Trace, m: Core, inp: Input)
    requires CycleReady(cfg, u, m) && !Trapping(cfg.isa, m.exReg)
    ensures ShapeOk(m) && 0 <= m.exReg.rob < SIZE
    ensures var e := Execute(cfg, m, inp); !e.stallEx ==> ResultDue(cfg, m, e, inp.cacheHit)
  {
    hide I.Step, I.Value, InFlight, Owners, Clobbers, Memories, Steps, LatchOk;
    Youngest(cfg.isa, u, m);
    Parts(cfg.isa, u, m);
    hide Inv, InScope, I.LoadValue, Forward, ReadLE;
    var l := m.exReg;
    match l.instr.kind
    case Load =>
      LoadUnitsFree(cfg.isa, u, m);
      LoadStarts(cfg, m, inp.cacheHit);
    case Branch => BranchDropsNothing(cfg.isa, u, m);
    case Alu | Store | Amo | Mul | Div =>
    case Trap =>
  }

  ghost predicate CycleReady(cfg: Config, u: Trace, m: Core) {
    Ready(cfg.isa, u, m) && !m.stallEx && InScope(m.exReg)
  }

  lemma LoadStarts(cfg: Config, m: Core, cacheHit: bool)
    requires ShapeOk(m) && 0 <= m.exReg.rob < SIZE && m.exReg.instr.kind == I.Load && !m.stallEx
    requires !m.fus[HitUnit(m)].busy && FreeSlot(m) >= 0
    ensures var e := ExecLoad(cfg, m, cacheHit); !e.stallEx ==> ResultDue(cfg, m, e, cacheHit)
  {
    hide I.LoadValue, Forward, ReadLE, FreeSlot;
    FreeSlotFirst(m);
    assert FirstIdle(m, FreeSlot(m));
    var e := ExecLoad(cfg, m, cacheHit);
    assert I.Ea(m.exReg.instr, m.exReg.x) == (m.exReg.x + m.exReg.instr.imm) % 0x1_0000_0000_0000_0000;
    if !e.stallEx && !cacheHit && Forward(m.spec, m.committed, I.Ea(m.exReg.instr, m.exReg.x), m.exReg.instr.size).Miss? {
      assert DueIn(e, FreeSlot(m), m.exReg.rob, cfg.missPenalty - 1);
    }
  }

  lemma FreeSlotFirst(s: Core)
    requires |s.fus| >= 4
    ensures FreeSlot(s) >= 0 ==> FirstIdle(s, FreeSlot(s))
    ensures FreeSlot(s) < 0 ==> forall j :: !FirstIdle(s, j)
  {
    FirstFrom(s, MISS);
  }

  lemma {:induction false} FirstFrom(s: Core, j: int)
    requires MISS <= j <= |s.fus| - 1
    ensures FreeSlotFrom(s, j) >= 0 ==> forall i :: j <= i < FreeSlotFrom(s, j) ==> s.fus[i].busy
    decreases |s.fus| - j
  {
    if j < |s.fus| - 1 && s.fus[j].busy { FirstFrom(s, j + 1); }
  }

  /** A busy unit in one undisturbed cycle: one less to go, or its result in the scoreboard before EX. */
  lemma UnitCycle(cfg: Config, a: I.Arch, s: Core, inp: Input, j: int)
    requires Sim(cfg.isa, a, s) && ShapeOk(s) && ScopedCycle(s, inp) && !Disturbed(cfg, s, inp)
    requires 0 <= j < |s.fus| && s.fus[j].busy
    ensures var f, u := Cycle(cfg, s, inp), s.fus[j];
      if u.remaining > 1 then f.fus[j] == u.(remaining := u.remaining - 1)
      else 0 <= u.transId < SIZE && var e := BeforeEx(cfg, s, inp).board.entries[u.transId]; e.ready && e.result == u.result
  {
    hide Inv, Agrees, Commit, TickFrom, Execute, FromIssue, InScope, Finished, Progress.Started, TrapFires, Fires, TickedFrom;
    var tr := Witness(cfg.isa, a, s);
    var u := BeforeExKeeps(cfg, tr, s, inp);
    var l, m := LatchTransfer(s), BeforeEx(cfg, s, inp);
    var x := Commit(cfg, l).(stallEx := false);
    CommitFrame(cfg, l);
    UnitDistinct(cfg.isa, tr, s, j);
    TicksExact(x, 0);
    TickedUnit(x, m, j);
    var e := Execute(cfg, m, inp);
    IssueFrame(cfg, e, inp);
    if m.exReg.valid {
      assert !Fires(cfg.isa, m) by { FiresHere(cfg, s, inp); }
      ExEffect(cfg, u, m, inp);
      BusyKept(cfg, m, e, j);
    } else {
      IdleExecute(cfg, m, inp);
    }
  }

  lemma UnitDistinct(isa: I.Isa, tr: Trace, s: Core, j: int)
    requires Agrees(isa, tr, s) && 0 <= j < |s.fus| && s.fus[j].busy
    ensures Apart(s.fus) && 0 <= s.fus[j].transId < SIZE && s.fus[j].remaining >= 1
  {
    hide I.Step, I.Value, Clobbers, Memories, LatchOk;
    assert UnitOk(isa, tr, s.board, Executed(s.board, Pending(s)), s.fus, j);
  }

  lemma TickedUnit(x: Core, m: Core, j: int)
    requires ShapeOk(x) && TickedFrom(x, m, 0) && 0 <= j < |x.fus| && x.fus[j].busy && 0 <= x.fus[j].transId < SIZE
    ensures ShapeOk(m) && |m.fus| == |x.fus| && m.fus[j] == Counted(x.fus[j])
    ensures x.fus[j].remaining == 1 ==>
      m.board.entries[x.fus[j].transId].ready && m.board.entries[x.fus[j].transId].result == x.fus[j].result
  {
    assert x.fus[j].remaining == 1 ==> Finishing(x.fus[j], x.fus[j].transId);
  }

  lemma BusyKept(cfg: Config, m: Core, e: Core, j: int)
    requires ShapeOk(m) && 0 <= m.exReg.rob < SIZE && |e.fus| == |m.fus| && 0 <= j < |m.fus|
    requires if e.stallEx then e == m.(stallEx := true) else Finished(m, e) || Progress.Started(cfg, m, e)
    ensures m.fus[j].busy ==> e.fus[j] == m.fus[j]
  {
    if !e.stallEx && !Finished(m, e) {
      var k, f :| 0 <= k < |m.fus| && !m.fus[k].busy && StartedBy(cfg, m, e, k, f);
    }
  }

  /** Through an undisturbed run a unit counts down cycle by cycle, whatever else executes or retires. */
  lemma {:induction false} UnitCountsDown(cfg: Config, a: I.Arch, s: Core, ins: seq<Input>, j: int)
    requires Sim(cfg.isa, a, s) && ShapeOk(s) && ScopedRun(cfg, s, ins) && Undisturbed(cfg, s, ins)
    requires 0 <= j < |s.fus| && s.fus[j].busy && s.fus[j].remaining > |ins|
    ensures RunCycles(cfg, s, ins).fus[j] == s.fus[j].(remaining := s.fus[j].remaining - |ins|)
    decreases |ins|
  {
    hide Sim, Cycle, SpecCycle, ScopedCycle, TrapFires;
    if ins != [] {
      CycleRefines(cfg, a, s, ins[0]);
      UnitCycle(cfg, a, s, ins[0], j);
      UnitCountsDown(cfg, SpecCycle(cfg, a, s, ins[0]), Cycle(cfg, s, ins[0]), ins[1..], j);
    }
  }
}
