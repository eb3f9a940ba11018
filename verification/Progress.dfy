/** The back end always makes progress: the oldest entry in flight retires, or gives way to a trap or
    an interrupt, within a number of cycles read off the state. Younger instructions cannot delay
    it, whatever the front end offers and the caches do. */
module Progress {
  import opened Words
  import opened StoreQueue
  import opened Boards
  import opened Pipeline
  import opened Invariant
  import opened CommitProof
  import opened ExProof
  import opened CycleProof
  import opened Runs
  import opened Replay
  import I = Isa

  // ---------------------------------------------------------------- the head's wait

  /** Cycles until the committed stores have drained, one drain paying for the pause it starts. */
  function Pause(cfg: Config, s: Core): nat { s.drainWait + (cfg.storePenalty + 1) * |s.committed| }

  /** The most cycles a unit takes for the instruction in l. */
  function Latency(cfg: Config, l: Latch): nat {
    match l.instr.kind
    case Div => cfg.isa.divCycles(l.instr, l.x, l.y)
    case Load => cfg.missPenalty
    case _ => 1
  }

  function Own(f: Fu, t: int): nat { if f.transId == t then Left(f) else 0 }

  /** Cycles left on the units working for entry t. */
  function UnitLeft(fus: seq<Fu>, t: int): nat {
    if fus == [] then 0 else UnitLeft(fus[..|fus| - 1], t) + Own(fus[|fus| - 1], t)
  }

  function HeadReadyNow(s: Core): bool
    requires ShapeOk(s)
  {
    s.board.entries[s.board.head].ready
  }

  /** How long the head can take to retire when p is the instruction waiting for EX: a ready store may
      wait for room in the committed queue, an entry in a unit for the unit, one not executed yet for the
      stores it overlaps and then for its unit. */
  function WaitAt(cfg: Config, s: Core, p: Latch): nat
    requires ShapeOk(s)
  {
    if s.board.count == 0 then 0
    else if HeadReadyNow(s) then Pause(cfg, s) + 1
    else if p.valid && s.board.count == 1 then Pause(cfg, s) + Latency(cfg, p) + 2
    else Pause(cfg, s) + UnitLeft(s.fus, s.board.head) + 1
  }

  function Wait(cfg: Config, s: Core): nat
    requires ShapeOk(s)
  {
    WaitAt(cfg, s, Pending(s))
  }

  lemma {:induction false} UnitLeftUpdate(fus: seq<Fu>, j: int, f: Fu, t: int)
    requires 0 <= j < |fus|
    ensures UnitLeft(fus[j := f], t) == UnitLeft(fus, t) - Own(fus[j], t) + Own(f, t)
  {
    var u, last := fus[j := f], |fus| - 1;
    if j == last {
      assert u[..last] == fus[..last];
    } else {
      assert u[..last] == fus[..last][j := f];
      UnitLeftUpdate(fus[..last], j, f, t);
    }
  }

  lemma {:induction false} UnitLeftNone(fus: seq<Fu>, t: int)
    requires forall j :: 0 <= j < |fus| ==> !(fus[j].busy && fus[j].transId == t)
    ensures UnitLeft(fus, t) == 0
  {
    if fus != [] { UnitLeftNone(fus[..|fus| - 1], t); }
  }

  // ---------------------------------------------------------------- Commit

  lemma DrainPause(cfg: Config, s: Core)
    requires QueueOk(s.committed)
    ensures var d := DrainStage(cfg, s);
      Pause(cfg, d) <= Pause(cfg, s) && (s.committed != [] ==> Pause(cfg, d) < Pause(cfg, s)) &&
      |d.committed| <= |s.committed|
  {
    DrainValid(s.committed);
    Weights(cfg.storePenalty, |s.committed|, 0);
  }

  /** With the first port idle Commit is the drain alone; a ready head then waits for a drain. */
  lemma CommitIdle(cfg: Config, tr: Trace, s: Core, p: Latch)
    requires Inv(cfg.isa, tr, s, p) && s.board.count > 0
    ensures ShapeOk(s)
    ensures var d := DrainStage(cfg, s);
      && (!PortRetires(d) ==> Commit(cfg, s) == d)
      && (!PortRetires(d) && HeadReadyNow(s) ==> s.committed != [])
      && (PortRetires(d) ==> Commit(cfg, s).instret > s.instret)
  {
    InvQueue(cfg.isa, tr, s, p);
    DrainPause(cfg, s);
    DrainFrame(cfg, s);
    HeadValid(cfg.isa, tr, s, p);
    hide Inv, DrainStage, Retire, CommitMove, I.SetReg;
  }

  lemma HeadValid(isa: I.Isa, tr: Trace, s: Core, p: Latch)
    requires Inv(isa, tr, s, p) && s.board.count > 0
    ensures s.board.entries[s.board.head].valid && 0 <= s.board.head < SIZE
  {
    hide I.Value, I.Step, Owners, Clobbers, Memories, LatchOk;
    assert At(s.board, 0).valid;
  }

  // ---------------------------------------------------------------- the units

  ghost predicate WorkingFor(s: Core, t: int, j: int) {
    exists k :: j <= k < |s.fus| && 0 <= k && s.fus[k].busy && s.fus[k].transId == t
  }

  lemma TickHead(isa: I.Isa, tr: Trace, s: Core, p: Latch, j: int)
    requires Inv(isa, tr, s, p) && 0 <= j < |s.fus| && s.board.count > 0
    ensures ShapeOk(s)
    ensures var r, t := Tick(s, j), s.board.head;
      && r.board.head == t && r.board.count == s.board.count && |r.fus| == |s.fus|
      && (HeadReadyNow(s) ==> HeadReadyNow(r))
      && UnitLeft(r.fus, t) <= UnitLeft(s.fus, t)
      && (s.fus[j].busy && s.fus[j].transId == t ==> UnitLeft(r.fus, t) < UnitLeft(s.fus, t))
      && (forall k :: 0 <= k < |s.fus| && k != j ==> r.fus[k] == s.fus[k])
  {
    hide I.Value, I.Step, Clobbers, Memories, LatchOk, UnitLeft;
    assert UnitOk(isa, tr, s.board, Executed(s.board, p), s.fus, j);
    var f, t := s.fus[j], s.board.head;
    if f.busy {
      UnitLeftUpdate(s.fus, j, f.(remaining := 0, busy := false), t);
      UnitLeftUpdate(s.fus, j, f.(remaining := f.remaining - 1), t);
    }
  }

  lemma {:induction false} TicksHead(isa: I.Isa, tr: Trace, s: Core, p: Latch, j: int)
    requires Inv(isa, tr, s, p) && 0 <= j <= |s.fus| && s.board.count > 0
    ensures ShapeOk(s)
    ensures var r, t := TickFrom(s, j), s.board.head;
      && r.board.head == t && r.board.count == s.board.count
      && (HeadReadyNow(s) ==> HeadReadyNow(r))
      && UnitLeft(r.fus, t) <= UnitLeft(s.fus, t)
      && (WorkingFor(s, t, j) ==> UnitLeft(r.fus, t) < UnitLeft(s.fus, t))
    decreases |s.fus| - j
  {
    hide Inv, UnitLeft, Tick, WorkingFor;
    TraceShape(isa, tr, s, p);
    if j < |s.fus| {
      TickHead(isa, tr, s, p, j);
      TickKeeps(isa, tr, s, p, j);
      WorkingOn(s, Tick(s, j), s.board.head, j);
      TicksHead(isa, tr, Tick(s, j), p, j + 1);
    } else {
      NoneWorking(s, s.board.head);
    }
  }

  lemma WorkingOn(s: Core, r: Core, t: int, j: int)
    requires 0 <= j < |s.fus| == |r.fus| && forall k :: 0 <= k < |s.fus| && k != j ==> r.fus[k] == s.fus[k]
    ensures WorkingFor(s, t, j) ==> (s.fus[j].busy && s.fus[j].transId == t) || WorkingFor(r, t, j + 1)
  {}

  lemma NoneWorking(s: Core, t: int)
    ensures !WorkingFor(s, t, |s.fus|)
  {}

  /** The head's owner: a unit if it has executed and is not ready, the latch if it is the youngest and
      waiting for EX, and then it is not ready and no unit works for it. */
  lemma HeadOwner(isa: I.Isa, tr: Trace, s: Core, p: Latch)
    requires Inv(isa, tr, s, p) && s.board.count > 0
    ensures ShapeOk(s)
    ensures !HeadReadyNow(s) && !(p.valid && s.board.count == 1) ==> WorkingFor(s, s.board.head, 0)
    ensures p.valid && s.board.count == 1 ==> !HeadReadyNow(s) && UnitLeft(s.fus, s.board.head) == 0
  {
    hide I.Value, I.Step, Clobbers, Memories, LatchOk, UnitLeft;
    var b, ex := s.board, Executed(s.board, p);
    assert At(b, 0) == b.entries[b.head] && Slot(b.head, 0) == b.head;
    if ex == 0 {
      assert EntryOk(isa, tr, b, ex, 0);
      forall j | 0 <= j < |s.fus| ensures !(s.fus[j].busy && s.fus[j].transId == b.head) {
        assert UnitOk(isa, tr, b, ex, s.fus, j);
      }
      UnitLeftNone(s.fus, b.head);
    } else if !At(b, 0).ready {
      assert Owned(s.fus, Slot(b.head, 0));
    }
  }

  // ---------------------------------------------------------------- EX

  /** What executing the latch can have done to the units: nothing, or started an idle one for it. */
  ghost predicate Started(cfg: Config, m: Core, e: Core) {
    exists j, f :: 0 <= j < |m.fus| && !m.fus[j].busy && StartedBy(cfg, m, e, j, f)
  }

  ghost predicate StartedBy(cfg: Config, m: Core, e: Core, j: int, f: Fu)
    requires 0 <= j < |m.fus|
  {
    e.fus == m.fus[j := f] && f.transId == m.exReg.rob && f.remaining <= Latency(cfg, m.exReg) && e.board == m.board
  }

  ghost predicate Finished(m: Core, e: Core)
    requires ShapeOk(m) && 0 <= m.exReg.rob < SIZE
  {
    && e.fus == m.fus && |e.board.entries| == SIZE && e.board.head == m.board.head && e.board.count == m.board.count
    && e.board.entries[m.exReg.rob].ready
    && forall i :: 0 <= i < SIZE && i != m.exReg.rob ==> e.board.entries[i] == m.board.entries[i]
  }

  lemma StartsUnit(cfg: Config, m: Core, j: int, cycles: int, v: Word)
    requires ShapeOk(m) && 0 <= j < |m.fus| && !m.fus[j].busy && cycles <= Latency(cfg, m.exReg)
    ensures Started(cfg, m, StartUnit(m, j, cycles, v))
  {
    var f := Fu(true, cycles, v, m.exReg.rob, I.Dest(m.exReg.instr));
    assert StartedBy(cfg, m, StartUnit(m, j, cycles, v), j, f);
  }

  lemma LoadEffect(cfg: Config, u: Trace, m: Core, cacheHit: bool)
    requires Ready(cfg.isa, u, m) && m.exReg.instr.kind == I.Load
    ensures ShapeOk(m)
    ensures var e := ExecLoad(cfg, m, cacheHit);
      e == m.(stallEx := true) || (Started(cfg, m, e) && e.committed == m.committed && e.drainWait == m.drainWait)
  {
    hide Inv, InFlight, Owners, Memories, Steps, Reserved, Forward, FreeSlot, I.LoadValue, ReadLE, Started, StartUnit;
    Parts(cfg.isa, u, m);
    LoadUnitsFree(cfg.isa, u, m);
    FreeSlotIdle(m);
    var i := m.exReg.instr;
    var a := I.Ea(i, m.exReg.x);
    match Forward(m.spec, m.committed, a, i.size)
    case PartialOverlap =>
    case Hit(d) =>
      StartsUnit(cfg, m, HitUnit(m), 1, I.LoadValue(i, d));
      StartFrame(m, HitUnit(m), 1, I.LoadValue(i, d));
    case Miss =>
      var v := I.LoadValue(i, ReadLE(m.mem, a, i.size));
      if cacheHit {
        StartsUnit(cfg, m, HitUnit(m), 1, v);
        StartFrame(m, HitUnit(m), 1, v);
      } else {
        StartsUnit(cfg, m, FreeSlot(m), cfg.missPenalty - 1, v);
        StartFrame(m, FreeSlot(m), cfg.missPenalty - 1, v);
      }
  }

  lemma FreeSlotIdle(m: Core)
    requires |m.fus| >= 4
    ensures FreeSlot(m) >= 0 ==> FreeSlot(m) < |m.fus| && !m.fus[FreeSlot(m)].busy
  {}

  lemma StartFrame(m: Core, j: int, cycles: int, v: Word)
    requires ShapeOk(m) && 0 <= j < |m.fus|
    ensures var e := StartUnit(m, j, cycles, v); e.committed == m.committed && e.drainWait == m.drainWait
  {}

  lemma FinishEffect(m: Core, v: Word)
    requires ShapeOk(m) && 0 <= m.exReg.rob < SIZE
    ensures var e := Finish(m, v); Finished(m, e) && e.committed == m.committed && e.drainWait == m.drainWait
  {}

  lemma BranchEffect(cfg: Config, u: Trace, m: Core)
    requires Ready(cfg.isa, u, m) && m.exReg.instr.kind == I.Branch && 0 <= m.exReg.rob < SIZE
    ensures ShapeOk(m)
    ensures var e := ExecBranch(cfg.isa, m);
      Finished(m, e) && e.committed == m.committed && e.drainWait == m.drainWait
  {
    BranchDropsNothing(cfg.isa, u, m);
    hide Inv, FlushSpeculative, DropDeadStores, LiveId, Mispredicted, I.PcAfter;
  }

  /** An instruction in EX that does not trap waits, finishes, or starts a unit that was idle. */
  lemma ExEffect(cfg: Config, u: Trace, m: Core, inp: Input)
    requires Ready(cfg.isa, u, m) && !m.stallEx && InScope(m.exReg) && !Fires(cfg.isa, m)
    ensures ShapeOk(m) && 0 <= m.exReg.rob < SIZE
    ensures var e := Execute(cfg, m, inp);
      if e.stallEx then e == m.(stallEx := true) && (m.board.count > 1 || m.committed != [])
      else (Finished(m, e) || Started(cfg, m, e)) && |e.committed| == |m.committed| && e.drainWait == m.drainWait
  {
    Youngest(cfg.isa, u, m);
    Parts(cfg.isa, u, m);
    var e := Execute(cfg, m, inp);
    if e.stallEx { StillHeld(cfg, u, m, inp); } else { Executes(cfg, u, m, inp); }
  }

  lemma Executes(cfg: Config, u: Trace, m: Core, inp: Input)
    requires Ready(cfg.isa, u, m) && !m.stallEx && !Fires(cfg.isa, m) && 0 <= m.exReg.rob < SIZE
    ensures ShapeOk(m)
    ensures var e := Execute(cfg, m, inp);
      !e.stallEx ==>
        (Finished(m, e) || Started(cfg, m, e)) && |e.committed| == |m.committed| && e.drainWait == m.drainWait
  {
    hide Inv, InFlight, Owners, Memories, Steps, Started, Finished, Finish, StartUnit, ExecLoad, ExecBranch, I.AmoStore,
      TakeTrap, InvalidateAll;
    Parts(cfg.isa, u, m);
    var l := m.exReg;
    match l.instr.kind
    case Alu => FinishEffect(m, cfg.isa.compute(l.instr, l.pc, l.x, l.y));
    case Mul =>
      StartsUnit(cfg, m, MUL, 1, cfg.isa.compute(l.instr, l.pc, l.x, l.y));
      StartFrame(m, MUL, 1, cfg.isa.compute(l.instr, l.pc, l.x, l.y));
    case Div =>
      StartsUnit(cfg, m, DIV, cfg.isa.divCycles(l.instr, l.x, l.y), cfg.isa.compute(l.instr, l.pc, l.x, l.y));
      StartFrame(m, DIV, cfg.isa.divCycles(l.instr, l.x, l.y), cfg.isa.compute(l.instr, l.pc, l.x, l.y));
    case Load => LoadEffect(cfg, u, m, inp.cacheHit);
    case Store => StoreEffect(m);
    case Amo => AmoEffect(cfg.isa, m);
    case Branch => if !Traps(cfg.isa, l) { BranchEffect(cfg, u, m); }
    case Trap =>
  }

  lemma StoreEffect(m: Core)
    requires ShapeOk(m) && 0 <= m.exReg.rob < SIZE
    ensures var e := ExecStore(m); Finished(m, e) && e.committed == m.committed && e.drainWait == m.drainWait
  {}

  lemma AmoEffect(isa: I.Isa, m: Core)
    requires ShapeOk(m) && 0 <= m.exReg.rob < SIZE
    ensures var e := ExecAmo(isa, m); Finished(m, e) && |e.committed| == |m.committed| && e.drainWait == m.drainWait
  {
    hide I.AmoStore, I.LoadValue, ReadLE;
  }

  // ---------------------------------------------------------------- the wait falls

  /** The latch as Issue leaves it to the next cycle, before anything new is dispatched. */
  function After(e: Core): Latch { if e.stallEx then e.exReg else NO_LATCH }

  /** EX lowers the head's wait if it executes the head, and otherwise leaves it. */
  lemma ExWait(cfg: Config, u: Trace, m: Core, inp: Input)
    requires Inv(cfg.isa, u, m, m.exReg) && !m.flush && !m.stallEx && InScope(m.exReg) && !Fires(cfg.isa, m)
    requires m.board.count > 0
    ensures ShapeOk(m)
    ensures var e := Execute(cfg, m, inp);
      && e.board.count == m.board.count && (e.stallEx ==> e.exReg.valid && !e.flush)
      && WaitAt(cfg, e, After(e)) <= WaitAt(cfg, m, m.exReg)
      && (m.exReg.valid && m.board.count == 1 ==>
            if e.stallEx then m.committed != [] else WaitAt(cfg, e, After(e)) < WaitAt(cfg, m, m.exReg))
  {
    HeadOwner(cfg.isa, u, m, m.exReg);
    TraceShape(cfg.isa, u, m, m.exReg);
    if m.exReg.valid {
      ExEffect(cfg, u, m, inp);
      LatchPlace(cfg.isa, u, m);
      HeadValid(cfg.isa, u, m, m.exReg);
      EffectWait(cfg, m, Execute(cfg, m, inp));
    }
  }

  lemma LatchPlace(isa: I.Isa, u: Trace, m: Core)
    requires Ready(isa, u, m)
    ensures m.exReg.rob == m.board.head <==> m.board.count == 1
  {
    Youngest(isa, u, m);
  }

  lemma EffectWait(cfg: Config, m: Core, e: Core)
    requires ShapeOk(m) && ShapeOk(e) && m.exReg.valid && !m.flush && m.board.count > 0 && 0 <= m.exReg.rob < SIZE
    requires m.exReg.rob == m.board.head <==> m.board.count == 1
    requires m.board.count == 1 ==> !HeadReadyNow(m) && UnitLeft(m.fus, m.board.head) == 0
    requires if e.stallEx then e == m.(stallEx := true) && (m.board.count > 1 || m.committed != [])
             else (Finished(m, e) || Started(cfg, m, e)) && |e.committed| == |m.committed| && e.drainWait == m.drainWait
    ensures e.board.count == m.board.count && (e.stallEx ==> e.exReg.valid && !e.flush)
    ensures WaitAt(cfg, e, After(e)) <= WaitAt(cfg, m, m.exReg)
    ensures m.board.count == 1 ==>
              if e.stallEx then m.committed != [] else WaitAt(cfg, e, After(e)) < WaitAt(cfg, m, m.exReg)
  {
    hide UnitLeft;
    if !e.stallEx && !Finished(m, e) {
      var j, f :| 0 <= j < |m.fus| && !m.fus[j].busy && StartedBy(cfg, m, e, j, f);
      UnitLeftUpdate(m.fus, j, f, m.board.head);
    }
  }

  /** Issue and the end of the cycle leave the head's wait as it is. */
  lemma EndWait(cfg: Config, e: Core, inp: Input)
    requires ShapeOk(e) && e.board.count > 0 && (e.stallEx ==> e.exReg.valid && !e.flush) && RingOk(e.board)
    ensures var f := FromIssue(cfg.isa, e, inp);
      Wait(cfg, f) == WaitAt(cfg, e, After(e)) && f.board.count >= e.board.count
  {
    hide Resolve, Blocked, UnitLeft, I.Dest;
    var g := e.(prevFlush := e.flush);
    if Issue(cfg.isa, g, inp) != Bubble(g) {
      AllocateAppends(e.board);
      assert e.board.tail != e.board.head || e.board.count == SIZE;
    }
  }

  lemma InvRing(isa: I.Isa, tr: Trace, s: Core, p: Latch)
    requires Inv(isa, tr, s, p)
    ensures RingOk(s.board)
  {
    hide I.Value, I.Step, Owners, Clobbers, Memories, LatchOk, Steps, RingOk;
  }

  lemma ExRing(cfg: Config, u: Trace, m: Core, inp: Input)
    requires Inv(cfg.isa, u, m, m.exReg) && !m.flush && !m.stallEx && InScope(m.exReg) && !Fires(cfg.isa, m)
    ensures ShapeOk(m) && RingOk(Execute(cfg, m, inp).board)
  {
    TraceShape(cfg.isa, u, m, m.exReg);
    InvRing(cfg.isa, u, m, m.exReg);
    hide Inv, RingOk, Traps, OlderInFlight, InScope, TakeTrap, ExecLoad, ExecStore, ExecAmo, ExecBranch, StartUnit, Finish;
    if m.exReg.valid && !Traps(cfg.isa, m.exReg) {
      var e := Execute(cfg, m, inp);
      ExecuteKeeps(cfg, u, m, inp, NO_LATCH);
      if !e.stallEx { InvRing(cfg.isa, u, e, NO_LATCH); }
    }
  }

  /** An interrupt or a trap takes over in this cycle. */
  predicate Disturbed(cfg: Config, s: Core, inp: Input)
    requires ShapeOk(s)
  {
    inp.irq.Some? || TrapFires(cfg, s, inp)
  }

  /** When the first port retires, the cycle has retired something. */
  lemma PortCycle(cfg: Config, tr: Trace, s: Core, inp: Input)
    requires Agrees(cfg.isa, tr, s) && inp.irq.None? && ScopedCycle(s, inp) && s.board.count > 0
    ensures ShapeOk(s)
    ensures PortRetires(DrainStage(cfg, LatchTransfer(s))) ==> Cycle(cfg, s, inp).instret > s.instret
  {
    hide Inv, Commit, PortRetires, DrainStage, Execute, FromIssue, TickFrom, Agrees, InScope;
    TraceShapeOf(cfg.isa, tr, s);
    var l := LatchTransfer(s);
    LatchTransferKeeps(cfg.isa, tr, s);
    CommitIdle(cfg, tr, l, l.exReg);
    PortRest(cfg, tr, l, inp);
  }

  lemma TraceShapeOf(isa: I.Isa, tr: Trace, s: Core)
    requires Agrees(isa, tr, s)
    ensures ShapeOk(s)
  {
    hide Inv;
    TraceShape(isa, tr, s, Pending(s));
  }

  /** What follows Commit in a cycle retires nothing more. */
  lemma PortRest(cfg: Config, tr: Trace, l: Core, inp: Input)
    requires Inv(cfg.isa, tr, l, l.exReg) && !l.flush && InScope(l.exReg)
    ensures ShapeOk(l)
    ensures var m := TickFrom(Commit(cfg, l).(stallEx := false), 0);
      FromIssue(cfg.isa, Execute(cfg, m, inp), inp).instret == Commit(cfg, l).instret
  {
    hide Inv, Commit, Execute, FromIssue, TickFrom, InScope, Fires;
    TraceShape(cfg.isa, tr, l, l.exReg);
    var t := CommitKeeps(cfg, tr, l, l.exReg);
    var c := Commit(cfg, l);
    var x := c.(stallEx := false);
    TraceShape(cfg.isa, t, c, l.exReg);
    InvSame(cfg.isa, t, c, l.exReg, x, l.exReg);
    TickFromKeeps(cfg.isa, t, x, l.exReg, 0);
    var v := RestKeeps(cfg, t, TickFrom(x, 0), inp);
  }

  lemma LatchWait(cfg: Config, tr: Trace, s: Core)
    requires Agrees(cfg.isa, tr, s)
    ensures ShapeOk(s) && WaitAt(cfg, LatchTransfer(s), LatchTransfer(s).exReg) == Wait(cfg, s)
  {
    TraceShape(cfg.isa, tr, s, Pending(s));
    hide Inv, UnitLeft;
  }

  /** Drain and ticks: the wait of a head that no port retires falls, unless the head is still to be
      executed and nothing was committed. */
  lemma TickWait(cfg: Config, tr: Trace, l: Core, p: Latch)
    requires Inv(cfg.isa, tr, l, p) && l.board.count > 0
    requires ShapeOk(l) && !PortRetires(DrainStage(cfg, l))
    ensures var m := TickFrom(Commit(cfg, l).(stallEx := false), 0);
      && Inv(cfg.isa, tr, m, p) && m.board.count == l.board.count
      && WaitAt(cfg, m, p) <= WaitAt(cfg, l, p)
      && (m.committed != [] ==> l.committed != [])
      && (l.committed != [] || !(p.valid && l.board.count == 1) ==> WaitAt(cfg, m, p) < WaitAt(cfg, l, p))
  {
    InvQueue(cfg.isa, tr, l, p);
    DrainPause(cfg, l);
    DrainFrame(cfg, l);
    DrainKeeps(cfg, tr, l, p);
    CommitIdle(cfg, tr, l, p);
    HeadOwner(cfg.isa, tr, l, p);
    var d := DrainStage(cfg, l);
    var x := d.(stallEx := false);
    InvSame(cfg.isa, tr, d, p, x, p);
    TicksHead(cfg.isa, tr, x, p, 0);
    TicksLower(cfg.isa, tr, x, p, 0);
    TickFromKeeps(cfg.isa, tr, x, p, 0);
    HeadOwner(cfg.isa, tr, TickFrom(x, 0), p);
    WaitFalls(cfg, l, d, TickFrom(x, 0), p);
  }

  lemma WaitFalls(cfg: Config, l: Core, d: Core, m: Core, p: Latch)
    requires ShapeOk(l) && ShapeOk(m) && l.board.count > 0 && m.board.count == l.board.count && m.board.head == l.board.head
    requires m.committed == d.committed && m.drainWait == d.drainWait
    requires Pause(cfg, d) <= Pause(cfg, l) && (l.committed != [] ==> Pause(cfg, d) < Pause(cfg, l))
    requires |d.committed| <= |l.committed| && (HeadReadyNow(l) ==> l.committed != [] && HeadReadyNow(m))
    requires p.valid && l.board.count == 1 ==> !HeadReadyNow(l) && !HeadReadyNow(m)
    requires UnitLeft(m.fus, l.board.head) <= UnitLeft(l.fus, l.board.head)
    requires !HeadReadyNow(l) && !(p.valid && l.board.count == 1) ==>
               UnitLeft(m.fus, l.board.head) < UnitLeft(l.fus, l.board.head)
    ensures WaitAt(cfg, m, p) <= WaitAt(cfg, l, p) && (m.committed != [] ==> l.committed != [])
    ensures l.committed != [] || !(p.valid && l.board.count == 1) ==> WaitAt(cfg, m, p) < WaitAt(cfg, l, p)
  {
    hide UnitLeft, Pause;
    assert Pause(cfg, m) == Pause(cfg, d) by { SamePause(cfg, m, d); }
  }

  lemma SamePause(cfg: Config, m: Core, d: Core)
    requires m.committed == d.committed && m.drainWait == d.drainWait
    ensures Pause(cfg, m) == Pause(cfg, d)
  {}

  /** One cycle: the head retires, or a trap is taken, or the head's wait falls. */
  lemma HeadStep(cfg: Config, tr: Trace, s: Core, inp: Input)
    requires Agrees(cfg.isa, tr, s) && s.board.count > 0 && inp.irq.None? && ScopedCycle(s, inp)
    ensures ShapeOk(s)
    ensures var f := Cycle(cfg, s, inp);
      f.instret > s.instret || TrapFires(cfg, s, inp) || (Wait(cfg, f) < Wait(cfg, s) && f.board.count > 0)
  {
    hide Inv, WaitAt, Wait, Agrees, PortRetires, DrainStage, Commit, TickFrom, Execute, FromIssue, InScope, RingOk, Fires;
    PortCycle(cfg, tr, s, inp);
    LatchWait(cfg, tr, s);
    LatchTransferKeeps(cfg.isa, tr, s);
    var l := LatchTransfer(s);
    var p := l.exReg;
    DrainFrame(cfg, l);
    if !PortRetires(DrainStage(cfg, l)) {
      TickWait(cfg, tr, l, p);
      var m := BeforeEx(cfg, s, inp);
      assert m == TickFrom(Commit(cfg, l).(stallEx := false), 0);
      BeforeExLatch(cfg, tr, s, inp);
      if !TrapFires(cfg, s, inp) {
        ExWait(cfg, tr, m, inp);
        ExRing(cfg, tr, m, inp);
        EndWait(cfg, Execute(cfg, m, inp), inp);
      }
    }
  }

  lemma BeforeExLatch(cfg: Config, tr: Trace, s: Core, inp: Input)
    requires Agrees(cfg.isa, tr, s) && inp.irq.None?
    ensures ShapeOk(s)
    ensures var m := BeforeEx(cfg, s, inp); !m.flush && !m.stallEx && m.exReg == LatchTransfer(s).exReg
  {
    var u := BeforeExKeeps(cfg, tr, s, inp);
  }

  // ---------------------------------------------------------------- every entry in flight

  /** No unit has, or is ever given, more than limit cycles, and the drain pause is within the penalty. */
  ghost predicate Bounded(cfg: Config, limit: nat, s: Core) {
    && cfg.missPenalty <= limit && s.drainWait <= cfg.storePenalty
    && (forall i, x, y :: cfg.isa.divCycles(i, x, y) <= limit)
    && forall j :: 0 <= j < |s.fus| && s.fus[j].busy ==> s.fus[j].remaining <= limit
  }

  /** The longest any head can wait. */
  function MaxWait(cfg: Config, limit: nat): nat {
    cfg.storePenalty + (cfg.storePenalty + 1) * QDEPTH + limit + 2
  }

  lemma {:induction false} UnitLeftOne(fus: seq<Fu>, t: int, limit: nat)
    requires forall i, j :: 0 <= i < j < |fus| && fus[i].busy && fus[j].busy ==> fus[i].transId != fus[j].transId
    requires forall j :: 0 <= j < |fus| && fus[j].busy ==> fus[j].remaining <= limit
    ensures UnitLeft(fus, t) <= limit
  {
    if fus != [] {
      var n := |fus| - 1;
      if fus[n].busy && fus[n].transId == t { UnitLeftNone(fus[..n], t); } else { UnitLeftOne(fus[..n], t, limit); }
    }
  }

  lemma WaitBounded(cfg: Config, limit: nat, a: I.Arch, s: Core)
    requires Sim(cfg.isa, a, s) && Bounded(cfg, limit, s)
    ensures ShapeOk(s) && Wait(cfg, s) <= MaxWait(cfg, limit)
  {
    var tr := Witness(cfg.isa, a, s);
    InvQueue(cfg.isa, tr, s, Pending(s));
    PauseBounded(cfg, s);
    DistinctOwners(cfg.isa, tr, s, Pending(s));
    UnitLeftOne(s.fus, s.board.head, limit);
    hide Inv, UnitLeft, Pending, Pause;
  }

  lemma PauseBounded(cfg: Config, s: Core)
    requires s.drainWait <= cfg.storePenalty && |s.committed| <= QDEPTH
    ensures Pause(cfg, s) <= cfg.storePenalty + (cfg.storePenalty + 1) * QDEPTH
  {
    MulMono(|s.committed|, QDEPTH, cfg.storePenalty + 1);
  }

  lemma DistinctOwners(isa: I.Isa, tr: Trace, s: Core, p: Latch)
    requires Inv(isa, tr, s, p)
    ensures forall i, j :: 0 <= i < j < |s.fus| && s.fus[i].busy && s.fus[j].busy ==> s.fus[i].transId != s.fus[j].transId
  {
    hide I.Value, I.Step, Clobbers, Memories, LatchOk, UnitOk;
  }

  lemma {:induction false} TicksBounded(s: Core, j: int, limit: nat)
    requires ShapeOk(s) && 0 <= j <= |s.fus|
    requires forall k :: 0 <= k < |s.fus| && s.fus[k].busy ==> s.fus[k].remaining <= limit
    ensures var r := TickFrom(s, j);
      r.drainWait == s.drainWait && forall k :: 0 <= k < |r.fus| && r.fus[k].busy ==> r.fus[k].remaining <= limit
    decreases |s.fus| - j
  {
    if j < |s.fus| { TicksBounded(Tick(s, j), j + 1, limit); }
  }

  lemma CommitFrame(cfg: Config, s: Core)
    requires ShapeOk(s)
    ensures var c := Commit(cfg, s);
      c.fus == s.fus && (s.drainWait <= cfg.storePenalty ==> c.drainWait <= cfg.storePenalty) &&
      c.board.count + c.instret == s.board.count + s.instret
  {
    hide CommitMove, I.SetReg, Drain;
  }

  lemma IssueFrame(cfg: Config, e: Core, inp: Input)
    requires ShapeOk(e)
    ensures var f := FromIssue(cfg.isa, e, inp);
      f.fus == e.fus && f.drainWait == e.drainWait && f.instret == e.instret && f.board.count >= e.board.count
  {
    hide Resolve, Blocked, I.Dest;
  }

  /** An undisturbed cycle keeps the bounds, and no entry leaves but by retiring. */
  lemma BoundedCycle(cfg: Config, limit: nat, a: I.Arch, s: Core, inp: Input)
    requires Sim(cfg.isa, a, s) && ScopedCycle(s, inp) && ShapeOk(s) && !Disturbed(cfg, s, inp)
    ensures var f := Cycle(cfg, s, inp);
      && (Bounded(cfg, limit, s) ==> Bounded(cfg, limit, f))
      && f.board.count + f.instret >= s.board.count + s.instret
  {
    hide Inv, Agrees, Commit, TickFrom, Execute, FromIssue, InScope, Started, Finished, TrapFires, Fires;
    var tr := Witness(cfg.isa, a, s);
    var u := BeforeExKeeps(cfg, tr, s, inp);
    var l, m := LatchTransfer(s), BeforeEx(cfg, s, inp);
    CommitFrame(cfg, l);
    TickCount(Commit(cfg, l).(stallEx := false), 0);
    if Bounded(cfg, limit, s) { TicksBounded(Commit(cfg, l).(stallEx := false), 0, limit); }
    var e := Execute(cfg, m, inp);
    IssueFrame(cfg, e, inp);
    ExecuteInstret(cfg, u, m, inp);
    if m.exReg.valid {
      assert !Fires(cfg.isa, m) by { FiresHere(cfg, s, inp); }
      ExEffect(cfg, u, m, inp);
      EffectBounded(cfg, limit, m, e);
    } else {
      IdleExecute(cfg, m, inp);
    }
  }

  lemma FiresHere(cfg: Config, s: Core, inp: Input)
    requires ShapeOk(s)
    ensures TrapFires(cfg, s, inp) == Fires(cfg.isa, BeforeEx(cfg, s, inp))
  {}

  lemma IdleExecute(cfg: Config, m: Core, inp: Input)
    requires ShapeOk(m) && !m.exReg.valid
    ensures Execute(cfg, m, inp) == m
  {}

  lemma ExecuteInstret(cfg: Config, u: Trace, m: Core, inp: Input)
    requires Inv(cfg.isa, u, m, m.exReg) && !m.flush && !m.stallEx && InScope(m.exReg)
    ensures ShapeOk(m) && Execute(cfg, m, inp).instret == m.instret
  {
    TraceShape(cfg.isa, u, m, m.exReg);
    var t := RestKeeps(cfg, u, m, inp);
    IssueFrame(cfg, Execute(cfg, m, inp), inp);
  }

  lemma {:induction false} TickCount(s: Core, j: int)
    requires ShapeOk(s) && 0 <= j <= |s.fus|
    ensures var r := TickFrom(s, j); r.board.count == s.board.count && r.instret == s.instret
    decreases |s.fus| - j
  {
    if j < |s.fus| { TickCount(Tick(s, j), j + 1); }
  }

  lemma EffectBounded(cfg: Config, limit: nat, m: Core, e: Core)
    requires ShapeOk(m) && 0 <= m.exReg.rob < SIZE && |e.fus| == |m.fus|
    requires if e.stallEx then e == m.(stallEx := true)
             else (Finished(m, e) || Started(cfg, m, e)) && |e.committed| == |m.committed| && e.drainWait == m.drainWait
    ensures e.board.count == m.board.count && (Bounded(cfg, limit, m) ==> Bounded(cfg, limit, e))
  {
    if !e.stallEx && !Finished(m, e) {
      var j, f :| 0 <= j < |m.fus| && !m.fus[j].busy && StartedBy(cfg, m, e, j, f);
    }
  }

  lemma DisturbedOr(cfg: Config, a: I.Arch, s: Core, inp: Input)
    requires Sim(cfg.isa, a, s) && ShapeOk(s) && ScopedCycle(s, inp) && s.board.count > 0 && !Disturbed(cfg, s, inp)
    ensures var f := Cycle(cfg, s, inp);
      f.instret > s.instret || (Wait(cfg, f) < Wait(cfg, s) && f.board.count > 0)
  {
    hide Agrees, Cycle, Wait, TrapFires;
    var tr := Witness(cfg.isa, a, s);
    HeadStep(cfg, tr, s, inp);
  }

  /** The oldest k entries in flight all retire within k - 1 longest waits and the head's own, or an
      interrupt or a trap takes over before that, in cycle n. Nothing is assumed of the front end, the
      caches or the younger instructions; the bound on units is needed beyond the head only. */
  lemma {:induction false} EntriesRetire(cfg: Config, limit: nat, a: I.Arch, s: Core, ins: seq<Input>, k: nat)
    returns (n: nat)
    requires Sim(cfg.isa, a, s) && ShapeOk(s) && ScopedRun(cfg, s, ins) && 1 <= k <= s.board.count
    requires k > 1 ==> Bounded(cfg, limit, s)
    requires |ins| >= (k - 1) * MaxWait(cfg, limit) + Wait(cfg, s)
    ensures 0 < n <= (k - 1) * MaxWait(cfg, limit) + Wait(cfg, s) && n <= |ins|
    ensures RunCycles(cfg, s, ins[..n]).instret >= s.instret + k || Disturbed(cfg, RunCycles(cfg, s, ins[..n - 1]), ins[n - 1])
    decreases |ins|
  {
    hide Sim, Cycle, SpecCycle, Wait, Disturbed, ScopedCycle, Bounded, MaxWait;
    WaitPositive(cfg, s);
    TimesNonneg(k - 1, MaxWait(cfg, limit));
    var f := Cycle(cfg, s, ins[0]);
    assert ins[..1][1..] == [] && RunCycles(cfg, s, ins[..1]) == f && RunCycles(cfg, s, ins[..0]) == s;
    if Disturbed(cfg, s, ins[0]) || f.instret >= s.instret + k {
      n := 1;
    } else {
      CycleRefines(cfg, a, s, ins[0]);
      DisturbedOr(cfg, a, s, ins[0]);
      BoundedCycle(cfg, limit, a, s, ins[0]);
      var b, left: nat := SpecCycle(cfg, a, s, ins[0]), k - (f.instret - s.instret);
      if left < k {
        WaitBounded(cfg, limit, b, f);
        FewerWaits(left, k, MaxWait(cfg, limit));
      }
      var rest := EntriesRetire(cfg, limit, b, f, ins[1..], left);
      n := rest + 1;
      assert ins[..n][1..] == ins[1..][..rest] && ins[..n - 1][1..] == ins[1..][..rest - 1];
    }
  }

  lemma WaitPositive(cfg: Config, s: Core)
    requires ShapeOk(s) && s.board.count > 0
    ensures Wait(cfg, s) >= 1
  {
    hide Pause, UnitLeft;
  }

  lemma TimesNonneg(k: nat, w: nat)
    ensures k * w >= 0
  {}

  lemma FewerWaits(left: nat, k: nat, w: nat)
    requires 1 <= left < k
    ensures (left - 1) * w + w <= (k - 1) * w
  {
    MulAdd(left - 1, 1, w);
    MulMono(left, k - 1, w);
  }

  /** The head of the scoreboard retires within its wait, or an interrupt or a trap takes over. */
  lemma HeadRetires(cfg: Config, a: I.Arch, s: Core, ins: seq<Input>) returns (n: nat)
    requires Sim(cfg.isa, a, s) && ShapeOk(s) && ScopedRun(cfg, s, ins) && s.board.count > 0 && |ins| >= Wait(cfg, s)
    ensures 0 < n <= Wait(cfg, s) && n <= |ins|
    ensures RunCycles(cfg, s, ins[..n]).instret > s.instret || Disturbed(cfg, RunCycles(cfg, s, ins[..n - 1]), ins[n - 1])
  {
    hide Sim, RunCycles, Wait, Disturbed, ScopedRun, Bounded;
    n := EntriesRetire(cfg, 0, a, s, ins, 1);
  }

  lemma ResetBounded(cfg: Config, limit: nat, a: I.Arch, slots: nat)
    requires |a.regs| == NREGS && slots >= 1
    requires cfg.missPenalty <= limit && forall i, x, y :: cfg.isa.divCycles(i, x, y) <= limit
    ensures Bounded(cfg, limit, Reset(a, slots))
  {}

  /** The bounds hold in every state of an undisturbed run, from reset on. */
  lemma {:induction false} BoundedRun(cfg: Config, limit: nat, a: I.Arch, s: Core, ins: seq<Input>)
    requires Sim(cfg.isa, a, s) && ShapeOk(s) && ScopedRun(cfg, s, ins) && Undisturbed(cfg, s, ins)
    requires Bounded(cfg, limit, s)
    ensures Bounded(cfg, limit, RunCycles(cfg, s, ins))
    decreases |ins|
  {
    hide Sim, Cycle, SpecCycle, ScopedCycle, Bounded, TrapFires;
    if ins != [] {
      CycleRefines(cfg, a, s, ins[0]);
      BoundedCycle(cfg, limit, a, s, ins[0]);
      BoundedRun(cfg, limit, SpecCycle(cfg, a, s, ins[0]), Cycle(cfg, s, ins[0]), ins[1..]);
    }
  }

  // ---------------------------------------------------------------- throughput

  lemma {:induction false} IdleTicks(s: Core, j: int)
    requires ShapeOk(s) && 0 <= j <= |s.fus| && forall k :: 0 <= k < |s.fus| ==> !s.fus[k].busy
    ensures TickFrom(s, j) == s
    decreases |s.fus| - j
  {
    if j < |s.fus| { IdleTicks(s, j + 1); }
  }

  /** With nothing in flight no unit is busy, every register is in the bank and no store is speculative. */
  lemma EmptyIdle(isa: I.Isa, tr: Trace, s: Core, p: Latch)
    requires Inv(isa, tr, s, p) && s.board.count == 0
    ensures ShapeOk(s) && !p.valid && s.spec == [] && RingOk(s.board)
    ensures forall k :: 0 <= k < |s.fus| ==> !s.fus[k].busy
    ensures forall r :: 1 <= r < NREGS ==> !s.board.clobber[r].busy
  {
    hide I.Value, I.Step, LatchOk;
    forall k | 0 <= k < |s.fus| ensures !s.fus[k].busy { assert UnitOk(isa, tr, s.board, 0, s.fus, k); }
    forall r | 1 <= r < NREGS ensures !s.board.clobber[r].busy { assert ClobberOk(isa, tr, s.board, r); }
  }

  /** With nothing in flight a cycle drains and, unless the program waits at an AMO for the committed
      queue, dispatches what is offered. */
  lemma EmptyCycle(cfg: Config, tr: Trace, s: Core, inp: Input)
    requires Agrees(cfg.isa, tr, s) && s.board.count == 0 && inp.irq.None? && inp.offer.Some? && !inp.bubble
    ensures ShapeOk(s)
    ensures var f, d := Cycle(cfg, s, inp), DrainStage(cfg, s);
      && Pause(cfg, f) == Pause(cfg, d) && f.instret == s.instret
      && if f.board.count == 0 then d.committed != []
         else f.board.count == 1 && !HeadReadyNow(f) && Pending(f).valid
  {
    var l := LatchTransfer(s);
    LatchTransferKeeps(cfg.isa, tr, s);
    EmptyIdle(cfg.isa, tr, l, l.exReg);
    DrainFrame(cfg, l);
    DrainKeeps(cfg, tr, l, l.exReg);
    var d := DrainStage(cfg, l);
    var x := d.(stallEx := false);
    IdleTicks(x, 0);
    EmptyIssue(cfg, x, inp);
    hide Inv, DrainStage, Issue, TickFrom;
    assert Commit(cfg, l) == d;
    assert BeforeEx(cfg, s, inp) == x && Execute(cfg, x, inp) == x;
    DrainLatch(cfg, s, l);
  }

  lemma DrainLatch(cfg: Config, s: Core, l: Core)
    requires l.committed == s.committed && l.mem == s.mem && l.drainWait == s.drainWait
    ensures DrainStage(cfg, l).committed == DrainStage(cfg, s).committed
    ensures DrainStage(cfg, l).drainWait == DrainStage(cfg, s).drainWait
  {}

  lemma EmptyIssue(cfg: Config, x: Core, inp: Input)
    requires ShapeOk(x) && RingOk(x.board) && x.board.count == 0 && x.spec == [] && !x.stallEx && !x.flush && !x.exReg.valid
    requires inp.offer.Some? && !inp.bubble
    requires forall k :: 0 <= k < |x.fus| ==> !x.fus[k].busy
    requires forall r :: 1 <= r < NREGS ==> !x.board.clobber[r].busy
    ensures var f := FromIssue(cfg.isa, x, inp);
      && f.committed == x.committed && f.drainWait == x.drainWait && f.instret == x.instret
      && if f.board.count == 0 then x.committed != []
         else f.board.count == 1 && !HeadReadyNow(f) && Pending(f).valid
  {
    hide I.Dest;
    var g := x.(prevFlush := x.flush);
    assert FreeSlotFrom(g, MISS) == MISS;
    AllocateAppends(x.board);
    assert x.board.tail == x.board.head;
  }

  /** The longest an instruction can take from an empty back end: the wait for an AMO's turn, and the wait
      of the head once dispatched. */
  function MaxTurn(cfg: Config, limit: nat): nat { MaxWait(cfg, limit) + 2 }

  /** The wait for the next retirement, also with nothing in flight. */
  function Turnaround(cfg: Config, limit: nat, s: Core): nat
    requires ShapeOk(s)
  {
    if s.board.count == 0 then Pause(cfg, s) + limit + 4 else Wait(cfg, s)
  }

  lemma TurnaroundBounded(cfg: Config, limit: nat, a: I.Arch, s: Core)
    requires Sim(cfg.isa, a, s) && Bounded(cfg, limit, s)
    ensures ShapeOk(s) && 1 <= Turnaround(cfg, limit, s) <= MaxTurn(cfg, limit)
  {
    WaitBounded(cfg, limit, a, s);
    var tr := Witness(cfg.isa, a, s);
    InvQueue(cfg.isa, tr, s, Pending(s));
    PauseBounded(cfg, s);
    hide Inv, Wait, Pause, Bounded;
    if s.board.count > 0 { WaitPositive(cfg, s); }
  }

  lemma LatencyBounded(cfg: Config, limit: nat, s: Core, l: Latch)
    requires Bounded(cfg, limit, s)
    ensures Latency(cfg, l) <= limit
  {}

  /** From an empty back end the turnaround falls. */
  lemma EmptyFalls(cfg: Config, limit: nat, a: I.Arch, s: Core, inp: Input)
    requires Sim(cfg.isa, a, s) && ShapeOk(s) && Bounded(cfg, limit, s) && s.board.count == 0
    requires inp.irq.None? && inp.offer.Some? && !inp.bubble
    ensures Turnaround(cfg, limit, Cycle(cfg, s, inp)) < Turnaround(cfg, limit, s)
  {
    hide Agrees, Inv, Cycle, Bounded, Latency, DrainStage, Pending;
    var tr := Witness(cfg.isa, a, s);
    QueueOf(cfg.isa, tr, s);
    DrainPause(cfg, s);
    EmptyCycle(cfg, tr, s, inp);
    LatencyBounded(cfg, limit, s, Pending(Cycle(cfg, s, inp)));
  }

  lemma QueueOf(isa: I.Isa, tr: Trace, s: Core)
    requires Agrees(isa, tr, s)
    ensures QueueOk(s.committed)
  {
    InvQueue(isa, tr, s, Pending(s));
  }

  ghost predicate AlwaysOffers(ins: seq<Input>) { forall i :: 0 <= i < |ins| ==> ins[i].offer.Some? && !ins[i].bubble }

  /** One undisturbed cycle: something retires, or the turnaround falls. */
  lemma TurnStep(cfg: Config, limit: nat, a: I.Arch, s: Core, inp: Input)
    requires Sim(cfg.isa, a, s) && ShapeOk(s) && Bounded(cfg, limit, s) && ScopedCycle(s, inp) && !Disturbed(cfg, s, inp)
    requires inp.offer.Some? && !inp.bubble
    ensures var f := Cycle(cfg, s, inp);
      f.instret > s.instret || Turnaround(cfg, limit, f) < Turnaround(cfg, limit, s)
  {
    hide Sim, Cycle, Wait, TrapFires, Pause, Bounded;
    if s.board.count == 0 { EmptyFalls(cfg, limit, a, s, inp); } else { DisturbedOr(cfg, a, s, inp); }
  }

  /** With a front end that always offers an instruction and adds no bubbles, n instructions retire within
      n longest turns, or an interrupt or a trap takes over in cycle k. */
  lemma {:induction false} RetiresFrom(cfg: Config, limit: nat, a: I.Arch, s: Core, ins: seq<Input>, n: nat)
    returns (k: nat)
    requires Sim(cfg.isa, a, s) && ShapeOk(s) && Bounded(cfg, limit, s) && ScopedRun(cfg, s, ins) && AlwaysOffers(ins)
    requires n >= 1 && |ins| >= (n - 1) * MaxTurn(cfg, limit) + Turnaround(cfg, limit, s)
    ensures 0 < k <= (n - 1) * MaxTurn(cfg, limit) + Turnaround(cfg, limit, s) && k <= |ins|
    ensures RunCycles(cfg, s, ins[..k]).instret >= s.instret + n || Disturbed(cfg, RunCycles(cfg, s, ins[..k - 1]), ins[k - 1])
    decreases |ins|
  {
    hide Sim, Cycle, SpecCycle, Turnaround, Disturbed, ScopedCycle, Bounded, MaxTurn;
    TurnaroundBounded(cfg, limit, a, s);
    TimesNonneg(n - 1, MaxTurn(cfg, limit));
    var f := Cycle(cfg, s, ins[0]);
    assert ins[..1][1..] == [] && RunCycles(cfg, s, ins[..1]) == f && RunCycles(cfg, s, ins[..0]) == s;
    if Disturbed(cfg, s, ins[0]) || f.instret >= s.instret + n {
      k := 1;
    } else {
      CycleRefines(cfg, a, s, ins[0]);
      TurnStep(cfg, limit, a, s, ins[0]);
      BoundedCycle(cfg, limit, a, s, ins[0]);
      var b, left: nat := SpecCycle(cfg, a, s, ins[0]), n - (f.instret - s.instret);
      TurnaroundBounded(cfg, limit, b, f);
      if left < n { FewerWaits(left, n, MaxTurn(cfg, limit)); }
      var rest := RetiresFrom(cfg, limit, b, f, ins[1..], left);
      k := rest + 1;
      assert ins[..k][1..] == ins[1..][..rest] && ins[..k - 1][1..] == ins[1..][..rest - 1];
    }
  }

  lemma Retires(cfg: Config, limit: nat, a: I.Arch, s: Core, ins: seq<Input>, n: nat) returns (k: nat)
    requires Sim(cfg.isa, a, s) && ShapeOk(s) && Bounded(cfg, limit, s) && ScopedRun(cfg, s, ins) && AlwaysOffers(ins)
    requires n >= 1 && |ins| >= n * MaxTurn(cfg, limit)
    ensures 0 < k <= n * MaxTurn(cfg, limit) && k <= |ins|
    ensures RunCycles(cfg, s, ins[..k]).instret >= s.instret + n || Disturbed(cfg, RunCycles(cfg, s, ins[..k - 1]), ins[k - 1])
  {
    hide Sim, RunCycles, Turnaround, Disturbed, ScopedRun, Bounded, MaxTurn;
    TurnaroundBounded(cfg, limit, a, s);
    MulAdd(n - 1, 1, MaxTurn(cfg, limit));
    k := RetiresFrom(cfg, limit, a, s, ins, n);
  }
}
