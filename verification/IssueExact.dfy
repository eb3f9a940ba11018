/** When Issue waits and when it does not, said on the entries in flight, the units and the queues. */
module IssueExact {
  import opened Words
  import opened StoreQueue
  import opened Boards
  import opened Pipeline
  import opened Invariant
  import opened ExProof
  import opened IssueProof
  import opened FlushProof
  import opened CycleProof
  import opened Runs
  import opened Structure
  import I = Isa

  // ---------------------------------------------------------------- operands

  ghost predicate BoardShape(b: Board) {
    |b.entries| == SIZE && b.head < SIZE && b.count <= SIZE
  }

  /** Some entry in flight writes r. */
  ghost predicate HasWriter(isa: I.Isa, b: Board, r: Reg)
    requires BoardShape(b)
  {
    exists k :: 0 <= k < b.count && WritesAt(isa, b, k) == r
  }

  /** The youngest entry in flight that writes r has no result yet. */
  ghost predicate WriterUnready(isa: I.Isa, b: Board, r: Reg)
    requires BoardShape(b)
  {
    exists k :: YoungestWriter(isa, b, r, k) && !At(b, k).ready
  }

  /** v is what an instruction issued now reads in r: zero, the result of the youngest writer in flight,
      or the register bank's value when there is none. */
  ghost predicate Reads(isa: I.Isa, s: Core, r: Reg, v: Word)
    requires ShapeOk(s)
  {
    if r == 0 then v == 0
    else if HasWriter(isa, s.board, r) then
      exists k :: YoungestWriter(isa, s.board, r, k) && At(s.board, k).ready && v == At(s.board, k).result
    else v == s.regs[r]
  }

  lemma WriterAt(isa: I.Isa, tr: Trace, s: Core, p: Latch, r: Reg)
    requires Inv(isa, tr, s, p) && r != 0
    ensures ShapeOk(s)
    ensures var c := s.board.clobber[r];
      && (c.busy <==> HasWriter(isa, s.board, r))
      && (c.busy ==> 0 <= c.transId < SIZE && YoungestWriter(isa, s.board, r, Place(s.board.head, c.transId)))
  {
    hide I.Value, I.Step, Memories, Owners, LatchOk, I.Dest;
    var b, ex := s.board, Executed(s.board, p);
    assert ClobberOk(isa, tr, b, r);
    forall k | 0 <= k < b.count ensures WritesAt(isa, b, k) == DestAt(isa, tr[k]) {
      assert EntryOk(isa, tr, b, ex, k);
    }
  }

  lemma YoungestUnique(isa: I.Isa, b: Board, r: Reg, i: int, j: int)
    requires BoardShape(b) && YoungestWriter(isa, b, r, i) && YoungestWriter(isa, b, r, j)
    ensures i == j
  {
    hide WritesAt;
  }

  /** A source register other than x0 is waited for iff it has a writer in flight whose youngest is not
      ready; otherwise Issue gets what that writer, or the register bank, holds. */
  lemma ResolveExact(isa: I.Isa, tr: Trace, s: Core, p: Latch, r: Reg)
    requires Inv(isa, tr, s, p)
    ensures ShapeOk(s)
    ensures Resolve(s, r).None? <==> r != 0 && WriterUnready(isa, s.board, r)
    ensures Resolve(s, r).Some? ==> Reads(isa, s, r, Resolve(s, r).value)
  {
    TraceShape(isa, tr, s, p);
    hide Inv, YoungestWriter, HasWriter;
    if r != 0 {
      WriterAt(isa, tr, s, p, r);
      var c := s.board.clobber[r];
      if c.busy {
        ResolveBusy(isa, s, r);
      } else {
        NoWriter(isa, s.board, r);
      }
    }
  }

  lemma NoWriter(isa: I.Isa, b: Board, r: Reg)
    requires BoardShape(b) && !HasWriter(isa, b, r)
    ensures !WriterUnready(isa, b, r)
  {}

  lemma ResolveBusy(isa: I.Isa, s: Core, r: Reg)
    requires ShapeOk(s) && r != 0 && s.board.clobber[r].busy && 0 <= s.board.clobber[r].transId < SIZE
    requires YoungestWriter(isa, s.board, r, Place(s.board.head, s.board.clobber[r].transId))
    ensures Resolve(s, r).None? <==> WriterUnready(isa, s.board, r)
    ensures Resolve(s, r).Some? ==> Reads(isa, s, r, Resolve(s, r).value)
  {
    var b := s.board;
    var k := Place(b.head, b.clobber[r].transId);
    assert At(b, k) == b.entries[b.clobber[r].transId];
    assert HasWriter(isa, b, r);
    hide WritesAt;
    if WriterUnready(isa, b, r) {
      var j :| YoungestWriter(isa, b, r, j) && !At(b, j).ready;
      YoungestUnique(isa, b, r, j, k);
    }
  }

  /** The same of every state between two cycles. */
  lemma ForwardingExact(isa: I.Isa, a: I.Arch, s: Core, r: Reg)
    requires Sim(isa, a, s) && r != 0
    ensures ShapeOk(s) && (Resolve(s, r).None? <==> WriterUnready(isa, s.board, r))
    ensures Resolve(s, r).Some? ==> Reads(isa, s, r, Resolve(s, r).value)
  {
    var tr := Witness(isa, a, s);
    ResolveExact(isa, tr, s, Pending(s), r);
  }

  // ---------------------------------------------------------------- dispatch

  /** The unit or queue the instruction needs is free: the multiplier, the divider, a miss slot and the
      load-hit unit, a place in the speculative queue, both queues for an AMO, every unit for a trap. */
  predicate ResourceFree(s: Core, k: I.Kind)
    requires |s.fus| >= 4
  {
    match k
    case Alu | Branch => true
    case Mul => !s.fus[0].busy
    case Div => !s.fus[1].busy
    case Load => (exists j :: 2 <= j < |s.fus| - 1 && !s.fus[j].busy) && !s.fus[|s.fus| - 1].busy
    case Amo =>
      (exists j :: 2 <= j < |s.fus| - 1 && !s.fus[j].busy) && !s.fus[|s.fus| - 1].busy
      && |s.spec| == 0 && |s.committed| == 0
    case Store => |s.spec| < 4
    case Trap => forall j :: 0 <= j < |s.fus| ==> !s.fus[j].busy
  }

  /** Nothing holds the offered instruction back. */
  ghost predicate Goes(isa: I.Isa, s: Core, inp: Input)
    requires ShapeOk(s)
  {
    var i := isa.fetch(s.frontPc);
    && !s.stallEx && !s.flush && inp.offer.Some? && !inp.bubble && s.board.count < 32
    && (i.rs1 == 0 || !WriterUnready(isa, s.board, i.rs1)) && (i.rs2 == 0 || !WriterUnready(isa, s.board, i.rs2))
    && ResourceFree(s, i.kind)
  }

  /** r is s with the instruction at frontPc dispatched: one more youngest entry, not ready, a latch with
      its operands and prediction, and the front end moved on; nothing else differs. */
  ghost predicate Joined(isa: I.Isa, s: Core, r: Core, pred: Prediction)
    requires ShapeOk(s)
  {
    var i := isa.fetch(s.frontPc);
    var next := (s.frontPc + i.length) % 0x1_0000_0000_0000_0000;
    && ShapeOk(r) && s.board.count < 32 && r.board.count == s.board.count + 1 && r.board.head == s.board.head
    && (forall k :: 0 <= k < s.board.count ==> At(r.board, k) == At(s.board, k))
    && (var e := At(r.board, s.board.count);
        e.valid && !e.ready && e.pc == s.frontPc && (e.isStore <==> i.kind == I.Store))
    && r.exNext.valid && r.exNext.instr == i && r.exNext.pc == s.frontPc
    && r.exNext.rob == Slot(s.board.head, s.board.count)
    && Reads(isa, s, i.rs1, r.exNext.x) && Reads(isa, s, i.rs2, r.exNext.y)
    && (if i.kind == I.Branch && pred.taken then
          r.exNext.predTaken && r.exNext.predTarget == pred.target && r.frontPc == pred.target
        else !r.exNext.predTaken && r.frontPc == next)
    && r == s.(board := r.board, exNext := r.exNext, frontPc := r.frontPc)
  }

  lemma BlockedExact(s: Core, k: I.Kind)
    requires |s.fus| >= 4 && |s.spec| <= 4
    ensures Blocked(s, k) <==> !ResourceFree(s, k)
  {
    if FreeSlot(s) >= 0 { assert !s.fus[FreeSlot(s)].busy; }
  }

  /** Issue dispatches the offered instruction exactly when nothing holds it back: no replay, redirect or
      bubble, room in the ring, every source ready and its unit or queue free. */
  lemma IssueExact(isa: I.Isa, tr: Trace, s: Core, inp: Input)
    requires Inv(isa, tr, s, NO_LATCH)
    ensures ShapeOk(s)
    ensures var r := Issue(isa, s, inp);
      if Goes(isa, s, inp) then Joined(isa, s, r, inp.offer.value) else r == s.(exNext := s.exNext.(valid := false))
  {
    var i := isa.fetch(s.frontPc);
    InvFront(isa, tr, s, NO_LATCH);
    TraceShape(isa, tr, s, NO_LATCH);
    ResolveExact(isa, tr, s, NO_LATCH, i.rs1);
    ResolveExact(isa, tr, s, NO_LATCH, i.rs2);
    BlockedExact(s, i.kind);
    hide Inv, Resolve, Blocked, ResourceFree, WriterUnready, Reads, Issue;
    assert Goes(isa, s, inp) <==> Dispatches(isa, s, inp);
    if Dispatches(isa, s, inp) {
      JoinedBy(isa, s, inp);
    } else {
      Bubbles(isa, s, inp);
    }
  }

  lemma Bubbles(isa: I.Isa, s: Core, inp: Input)
    requires ShapeOk(s) && !Dispatches(isa, s, inp)
    ensures Issue(isa, s, inp) == s.(exNext := s.exNext.(valid := false))
  {
    hide Resolve, Blocked, I.Dest;
  }

  lemma JoinedBy(isa: I.Isa, s: Core, inp: Input)
    requires ShapeOk(s) && RingOk(s.board) && Dispatches(isa, s, inp)
    requires var i := isa.fetch(s.frontPc);
      Reads(isa, s, i.rs1, Resolve(s, i.rs1).value) && Reads(isa, s, i.rs2, Resolve(s, i.rs2).value)
    ensures Joined(isa, s, Issue(isa, s, inp), inp.offer.value)
  {
    var i := isa.fetch(s.frontPc);
    BoardAfter(isa, s, inp);
    DispatchedRing(s.board, s.frontPc, i.kind == I.Store, I.Dest(i));
    LatchIs(isa, s, inp);
    hide Issue, Dispatched, Reads, Resolve, Blocked, RingOk;
  }

  lemma LatchIs(isa: I.Isa, s: Core, inp: Input)
    requires ShapeOk(s) && RingOk(s.board) && Dispatches(isa, s, inp)
    ensures var i, r, pred := isa.fetch(s.frontPc), Issue(isa, s, inp), inp.offer.value;
      && r.exNext.valid && r.exNext.instr == i && r.exNext.pc == s.frontPc
      && r.exNext.rob == Slot(s.board.head, s.board.count)
      && r.exNext.x == Resolve(s, i.rs1).value && r.exNext.y == Resolve(s, i.rs2).value
      && (if i.kind == I.Branch && pred.taken then
            r.exNext.predTaken && r.exNext.predTarget == pred.target && r.frontPc == pred.target
          else !r.exNext.predTaken && r.frontPc == (s.frontPc + i.length) % 0x1_0000_0000_0000_0000)
  {
    hide Resolve, Blocked, I.Dest;
  }

  // ---------------------------------------------------------------- in the cycle

  /** After EX either the instruction in its latch waits, or the invariant holds with nothing in the latch. */
  lemma AfterEx(cfg: Config, u: Trace, m: Core, inp: Input) returns (t: Trace)
    requires Inv(cfg.isa, u, m, m.exReg) && !m.flush && !m.stallEx && InScope(m.exReg)
    ensures ShapeOk(m)
    ensures var e := Execute(cfg, m, inp); !e.stallEx ==> Inv(cfg.isa, t, e, NO_LATCH)
  {
    TraceShape(cfg.isa, u, m, m.exReg);
    hide Inv, I.Step, TakeTrap, Traps, OlderInFlight, InScope, Quiet, ExecLoad, ExecStore, ExecAmo, ExecBranch, StartUnit, Finish;
    var e := Execute(cfg, m, inp);
    t := u;
    if !m.exReg.valid {
      InvSame(cfg.isa, u, m, m.exReg, e, NO_LATCH);
    } else if !Traps(cfg.isa, m.exReg) {
      ExecuteKeeps(cfg, u, m, inp, NO_LATCH);
    } else if !OlderInFlight(m) {
      TrapQuiets(cfg.isa, u, m, inp.trapVector);
      t := [u[0].(pc := inp.trapVector)];
      QuietInv(cfg.isa, e, t[0], NO_LATCH);
    }
  }

  /** In every cycle that no interrupt takes over: with e the state EX leaves, the offered instruction is
      dispatched exactly when nothing in e holds it back. */
  lemma CycleIssues(cfg: Config, a: I.Arch, s: Core, inp: Input)
    requires Sim(cfg.isa, a, s) && inp.irq.None? && ScopedCycle(s, inp)
    ensures ShapeOk(s)
    ensures var e, f := Execute(cfg, BeforeEx(cfg, s, inp), inp), Cycle(cfg, s, inp);
      && (f.exNext.valid <==> Goes(cfg.isa, e, inp))
      && (f.exNext.valid ==> Joined(cfg.isa, e.(prevFlush := false), f, inp.offer.value))
  {
    hide Agrees, Inv, I.Step, BeforeEx, Execute, LatchTransfer, InScope, Joined, Goes, Issue;
    var tr := Witness(cfg.isa, a, s);
    var u := BeforeExKeeps(cfg, tr, s, inp);
    var m := BeforeEx(cfg, s, inp);
    var t := AfterEx(cfg, u, m, inp);
    FromIssueExact(cfg.isa, t, Execute(cfg, m, inp), inp);
  }

  lemma FromIssueExact(isa: I.Isa, t: Trace, e: Core, inp: Input)
    requires ShapeOk(e) && (!e.stallEx ==> Inv(isa, t, e, NO_LATCH))
    ensures var f := FromIssue(isa, e, inp);
      && (f.exNext.valid <==> Goes(isa, e, inp))
      && (f.exNext.valid ==> Joined(isa, e.(prevFlush := false), f, inp.offer.value))
  {
    var g := e.(prevFlush := e.flush);
    hide Inv, WriterUnready, Reads, ResourceFree;
    if e.stallEx || e.flush {
      assert Issue(isa, g, inp) == Bubble(g);
    } else {
      hide Issue;
      InvSame(isa, t, e, NO_LATCH, g, NO_LATCH);
      IssueExact(isa, t, g, inp);
      assert Goes(isa, g, inp) <==> Goes(isa, e, inp) by { SameHazards(g, e); }
    }
  }

  lemma SameHazards(g: Core, e: Core)
    requires ShapeOk(e) && g == e.(prevFlush := e.flush)
    ensures forall k :: ResourceFree(g, k) <==> ResourceFree(e, k)
  {}

  /** A dependent pair goes back to back: while EX computes an ALU instruction, an ALU instruction that
      reads its result is dispatched in the same cycle, with the computed value as both operands. */
  lemma DependentPair(cfg: Config, a: I.Arch, s: Core, inp: Input)
    requires Sim(cfg.isa, a, s) && ShapeOk(s) && inp.irq.None? && inp.offer.Some? && !inp.bubble
    requires var m := BeforeEx(cfg, s, inp);
      m.exReg.valid && m.exReg.instr.kind == I.Alu && m.exReg.instr.rd != 0 && m.board.count < 32 &&
      var i := cfg.isa.fetch(m.frontPc);
      i.kind == I.Alu && i.rs1 == m.exReg.instr.rd && i.rs2 == m.exReg.instr.rd
    ensures var f, l := Cycle(cfg, s, inp), BeforeEx(cfg, s, inp).exReg;
      f.exNext.valid && f.exNext.x == f.exNext.y == cfg.isa.compute(l.instr, l.pc, l.x, l.y)
  {
    hide Agrees, Inv, I.Step, BeforeEx, LatchTransfer, Joined, Issue, YoungestWriter, FromIssue, InScope;
    var tr := Witness(cfg.isa, a, s);
    var u := BeforeExKeeps(cfg, tr, s, inp);
    var m := BeforeEx(cfg, s, inp);
    var l, e := m.exReg, Execute(cfg, m, inp);
    var v := cfg.isa.compute(l.instr, l.pc, l.x, l.y);
    AluFinishes(cfg.isa, u, m, v);
    var k := m.board.count - 1;
    assert e == Finish(m, v);
    OnlyYoungest(cfg.isa, e.board, l.instr.rd, k);
    AluScope(l);
    var t := AfterEx(cfg, u, m, inp);
    FromIssueExact(cfg.isa, t, e, inp);
    assert Goes(cfg.isa, e, inp);
    JoinedReads(cfg.isa, e, Cycle(cfg, s, inp), inp.offer.value, l.instr.rd, k);
  }

  lemma AluScope(l: Latch)
    requires l.instr.kind == I.Alu
    ensures InScope(l)
  {}

  lemma AluFinishes(isa: I.Isa, u: Trace, m: Core, v: Word)
    requires Ready(isa, u, m) && m.exReg.instr.kind == I.Alu && m.exReg.instr.rd != 0
    ensures var e, k := Finish(m, v), m.board.count - 1;
      && k >= 0 && e.board.count == m.board.count && At(e.board, k).ready && At(e.board, k).result == v
      && YoungestWriter(isa, e.board, m.exReg.instr.rd, k)
  {
    hide I.Step, I.Value, Owners, Memories, Clobbers;
    var n := m.board.count - 1;
    Youngest(isa, u, m);
    assert EntryOk(isa, u, m.board, n, n);
    CompleteUpdates(m.board, m.exReg.rob, v, I.Dest(m.exReg.instr));
  }

  lemma OnlyYoungest(isa: I.Isa, b: Board, r: Reg, k: int)
    requires BoardShape(b) && YoungestWriter(isa, b, r, k) && At(b, k).ready
    ensures !WriterUnready(isa, b, r)
  {
    hide WritesAt;
  }

  lemma JoinedReads(isa: I.Isa, e: Core, f: Core, pred: Prediction, r: Reg, k: int)
    requires ShapeOk(e) && Joined(isa, e.(prevFlush := false), f, pred) && r != 0
    requires YoungestWriter(isa, e.board, r, k) && At(e.board, k).ready
    requires isa.fetch(e.frontPc).rs1 == r && isa.fetch(e.frontPc).rs2 == r
    ensures f.exNext.x == f.exNext.y == At(e.board, k).result
  {
    hide WritesAt;
    assert HasWriter(isa, e.board, r);
  }
}
