/** The back end as the object of inc/CPU_P64_6_Cycle.h: latches, units and flags are fields, the
    scoreboard and the store buffer are objects, and the stage methods of src/CPU_P64_6_Cycle.cpp
    update them in place. Every method is proved against the function of the same stage in
    Pipeline, so the results of Runs, Structure and Replay are results about this object. */
module Backends {
  import opened Words
  import opened StoreQueue
  import opened StoreBuffers
  import opened Boards
  import opened Scoreboards
  import opened Pipeline
  import I = Isa
  import P = Pipeline
  import CycleProof
  import Invariant
  import Runs

  lemma {:induction false} DropDeadSame(q: seq<StoreEntry>, b: Board, isLive: int -> bool)
    requires Shape(b) && forall t :: isLive(t) == LiveId(b, t)
    ensures DropDead(q, isLive) == DropDeadStores(q, b)
  {
    if q != [] { DropDeadSame(q[..|q| - 1], b, isLive); }
  }

  class Backend {
    const scoreboard: Scoreboard
    const storeBuffer: StoreBuffer
    const registers: array<Word>
    const units: array<Fu>
    var mem: Memory
    var drainWait: nat
    var exReg: Latch
    var exNext: Latch
    var stallEx: bool
    var flush: bool
    var prevFlush: bool
    var frontPc: Word
    var epc: Word
    var instret: nat

    ghost function Repr(): set<object> {
      {this, scoreboard, scoreboard.entries, scoreboard.rdClobber,
       storeBuffer, storeBuffer.spec, storeBuffer.committed, registers, units}
    }

    ghost predicate Valid()
      reads Repr()
    {
      scoreboard.Valid() && storeBuffer.Valid() && registers.Length == NREGS && units.Length >= 4
    }

    ghost function View(): (s: Core)
      requires Valid()
      reads Repr()
      ensures ShapeOk(s)
    {
      Core(registers[..], mem, scoreboard.View(), storeBuffer.Spec, storeBuffer.Committed, drainWait, units[..],
           exReg, exNext, stallEx, flush, prevFlush, frontPc, epc, instret)
    }

    constructor (a: I.Arch, slots: nat)
      requires |a.regs| == NREGS && slots >= 1
      ensures Valid() && fresh(Repr())
      ensures View() == Runs.Reset(a, slots)
    {
      scoreboard := new Scoreboard();
      storeBuffer := new StoreBuffer();
      registers := new Word[NREGS](i requires 0 <= i < NREGS => a.regs[i]);
      units := new Fu[3 + slots](_ => IDLE_FU);
      mem, drainWait := a.mem, 0;
      exReg, exNext := Invariant.NO_LATCH, Invariant.NO_LATCH;
      stallEx, flush, prevFlush := false, false, false;
      frontPc, epc, instret := a.pc, 0, 0;
      new;
      assert registers[..] == a.regs;
      assert units[..] == Runs.Reset(a, slots).fus;
    }

    method LatchTransfer()
      requires Valid()
      modifies this`exReg
      ensures Valid() && View() == P.LatchTransfer(old(View()))
    {
      if prevFlush {
        exReg := exReg.(valid := false);
      } else if !stallEx {
        exReg := exNext;
      }
    }

    method StopUnits(hi: nat)
      requires Valid() && hi <= units.Length
      modifies units
      ensures Valid() && View() == old(View()).(fus := StopTo(old(View()).fus, hi))
    {
      for i := 0 to hi
        modifies units
        invariant forall j :: 0 <= j < units.Length ==>
          units[j] == if j < i then old(units[j]).(busy := false) else old(units[j])
      {
        units[i] := units[i].(busy := false);
      }
      assert units[..] == StopTo(old(View()).fus, hi);
    }

    /** Drop everything in flight and stop the units before hi. */
    method FlushAll(hi: nat)
      requires Valid() && hi <= units.Length
      modifies scoreboard, scoreboard.entries, scoreboard.rdClobber, storeBuffer, storeBuffer.spec, units
      ensures Valid()
      ensures View() == var s := old(View()); s.(board := Boards.Flush(s.board), spec := [], fus := StopTo(s.fus, hi))
    {
      hide Boards.Flush, StopTo, Shape;
      scoreboard.Flush();
      storeBuffer.FlushSpeculative();
      StopUnits(hi);
    }

    /** The pc of the oldest work in program order. */
    method ResumePc() returns (pc: Word)
      requires Valid()
      ensures pc == P.IrqEpc(View())
    {
      if scoreboard.count != 0 {
        pc := scoreboard.entries[scoreboard.head].pc;
      } else if exReg.valid {
        pc := exReg.pc;
      } else {
        pc := frontPc;
      }
    }

    method ProcessIrq(vector: Word)
      requires Valid()
      modifies Repr()
      ensures Valid() && View() == P.TakeIrq(old(View()), vector)
    {
      hide Boards.Flush, StopTo, Shape;
      epc := ResumePc();
      FlushAll(units.Length - 1);
      stallEx, flush, frontPc := false, true, vector;
    }

    // -------------------------------------------------------------- Commit

    method DrainStage(cfg: Config)
      requires Valid()
      modifies Repr()
      ensures Valid() && View() == P.DrainStage(cfg, old(View()))
    {
      if drainWait > 0 { drainWait := drainWait - 1; }
      if drainWait == 0 {
        var r := storeBuffer.DrainOne();
        if r.Some? {
          mem := Write(mem, r.value);
          drainWait := cfg.storePenalty;
        }
      }
    }

    /** The register write of a retiring entry, and its clobber if it is still the youngest writer. */
    method WriteBack(rd: Reg, result: Word, head: int)
      requires Valid()
      modifies registers, scoreboard.rdClobber
      ensures Valid()
      ensures View() == var s := old(View());
        s.(regs := I.SetReg(s.regs, rd, result),
           board := s.board.(clobber :=
             if rd != 0 && s.board.clobber[rd].transId == head then s.board.clobber[rd := IDLE] else s.board.clobber))
    {
      if rd != 0 {
        registers[rd] := result;
        if scoreboard.rdClobber[rd].transId == head { scoreboard.SetClobber(rd, IDLE); }
      }
    }

    method RetireHead(rd: Reg, result: Word, head: int)
      requires Valid()
      modifies registers, scoreboard, scoreboard.entries, scoreboard.rdClobber, this`instret
      ensures Valid()
      ensures View() == var s := old(View());
        s.(regs := I.SetReg(s.regs, rd, result),
           board := Boards.Retire(s.board.(clobber :=
             if rd != 0 && s.board.clobber[rd].transId == head then s.board.clobber[rd := IDLE] else s.board.clobber)),
           instret := s.instret + 1)
    {
      hide Boards.Retire, I.SetReg;
      WriteBack(rd, result, head);
      instret := instret + 1;
      scoreboard.Retire();
    }

    /** One commit port; go is false when the loop stops here. */
    method CommitPort() returns (go: bool)
      requires Valid()
      modifies Repr()
      ensures Valid() && View() == P.CommitPort(old(View()))
      ensures !go ==> View() == old(View())
    {
      hide Boards.Retire, I.SetReg;
      var ready := scoreboard.HeadReady();
      if !ready { return false; }
      var e, head := scoreboard.entries[scoreboard.head], scoreboard.head;
      if e.isStore {
        if storeBuffer.commitCount == DEPTH { return false; }
        var ok := storeBuffer.CommitStore();
      }
      RetireHead(e.rd, e.result, head);
      return true;
    }

    method CommitStage(cfg: Config)
      requires Valid()
      modifies Repr()
      ensures Valid() && View() == P.Commit(cfg, old(View()))
    {
      DrainStage(cfg);
      var go := CommitPort();
      if go { go := CommitPort(); }
    }

    // -------------------------------------------------------------- EX

    method TickUnit(j: nat)
      requires Valid() && j < units.Length
      modifies units, scoreboard.entries
      ensures Valid() && View() == P.Tick(old(View()), j)
    {
      var f := units[j];
      if !f.busy { return; }
      if f.remaining - 1 == 0 {
        scoreboard.Complete(f.transId, f.result, f.rd);
        units[j] := f.(remaining := 0, busy := false);
      } else {
        units[j] := f.(remaining := f.remaining - 1);
      }
    }

    method TickUnits()
      requires Valid()
      modifies units, scoreboard.entries
      ensures Valid() && View() == P.TickFrom(old(View()), 0)
    {
      ghost var goal := P.TickFrom(View(), 0);
      var j := 0;
      while j < units.Length
        modifies units, scoreboard.entries
        invariant 0 <= j <= units.Length && Valid() && P.TickFrom(View(), j) == goal
      {
        TickUnit(j);
        j := j + 1;
      }
    }

    method FreeMissSlot() returns (r: int)
      requires Valid()
      ensures r == FreeSlot(View())
    {
      var j := MISS;
      while j < units.Length - 1
        invariant MISS <= j <= units.Length - 1 && FreeSlot(View()) == FreeSlotFrom(View(), j)
      {
        if !units[j].busy { return j; }
        j := j + 1;
      }
      return -1;
    }

    method AnyUnitBusy() returns (b: bool)
      requires Valid()
      ensures b == exists j :: 0 <= j < |View().fus| && View().fus[j].busy
    {
      var i := 0;
      while i < units.Length
        invariant 0 <= i <= units.Length && forall j :: 0 <= j < i ==> !View().fus[j].busy
      {
        assert units[i] == View().fus[i];
        if units[i].busy { return true; }
        i := i + 1;
      }
      return false;
    }

    method StartUnit(j: nat, cycles: int, v: Word)
      requires Valid() && j < units.Length
      modifies units
      ensures Valid() && View() == P.StartUnit(old(View()), j, cycles, v)
    {
      units[j] := Fu(true, cycles, v, exReg.rob, I.Dest(exReg.instr));
    }

    method Finish(v: Word)
      requires Valid()
      modifies scoreboard.entries
      ensures Valid() && View() == P.Finish(old(View()), v)
    {
      scoreboard.Complete(exReg.rob, v, I.Dest(exReg.instr));
    }

    method StartHit(v: Word)
      requires Valid()
      modifies units
      ensures Valid() && View() == P.StartHit(old(View()), v)
    {
      if !units[units.Length - 1].busy { StartUnit(units.Length - 1, 1, v); }
    }

    method StartMiss(cfg: Config, v: Word)
      requires Valid()
      modifies units
      ensures Valid() && View() == P.StartMiss(cfg, old(View()), v)
    {
      var slot := FreeMissSlot();
      if slot < 0 { slot := MISS; }
      StartUnit(slot, cfg.missPenalty - 1, v);
    }

    method ExecLoad(cfg: Config, cacheHit: bool)
      requires Valid()
      modifies this`stallEx, units
      ensures Valid() && View() == P.ExecLoad(cfg, old(View()), cacheHit)
    {
      var i := exReg.instr;
      var a := I.Ea(i, exReg.x);
      var fwd := storeBuffer.ForwardLoad(a, i.size);
      match fwd
      case PartialOverlap => stallEx := true;
      case Hit(d) => StartHit(I.LoadValue(i, d));
      case Miss =>
        var v := I.LoadValue(i, ReadLE(mem, a, i.size));
        if cacheHit { StartHit(v); } else { StartMiss(cfg, v); }
    }

    method ExecStore()
      requires Valid()
      modifies scoreboard.entries, storeBuffer, storeBuffer.spec
      ensures Valid() && View() == P.ExecStore(old(View()))
    {
      var l := exReg;
      var slot := storeBuffer.AddStore(I.Ea(l.instr, l.x), l.y, l.instr.size, l.rob);
      Finish(0);
    }

    method ExecAmo(isa: I.Isa)
      requires Valid()
      modifies this`mem, scoreboard.entries, storeBuffer, storeBuffer.spec, storeBuffer.committed
      ensures Valid() && View() == P.ExecAmo(isa, old(View()))
    {
      var l := exReg;
      var before := ReadLE(mem, l.x, l.instr.size);
      var e := I.AmoStore(isa, l.instr, l.x, l.y, mem);
      mem := Write(mem, e);
      storeBuffer.InvalidateAddress(e.address, e.size);
      Finish(I.LoadValue(l.instr, before));
    }

    /** Stop every unit whose scoreboard entry has gone. */
    method CancelDead()
      requires Valid()
      modifies units
      ensures Valid()
      ensures forall j :: 0 <= j < units.Length ==>
        units[j] == if old(units[j]).busy && old(units[j]).transId >= 0 && !LiveId(scoreboard.View(), old(units[j]).transId)
                    then old(units[j]).(busy := false) else old(units[j])
    {
      for i := 0 to units.Length
        modifies units
        invariant forall j :: i <= j < units.Length ==> units[j] == old(units[j])
        invariant forall j :: 0 <= j < i ==>
          units[j] == if old(units[j]).busy && old(units[j]).transId >= 0 && !LiveId(scoreboard.View(), old(units[j]).transId)
                      then old(units[j]).(busy := false) else old(units[j])
      {
        var f := units[i];
        if f.busy && f.transId >= 0 && !(f.transId < SIZE && scoreboard.entries[f.transId].valid) {
          units[i] := f.(busy := false);
        }
      }
    }

    method Redirect(isa: I.Isa)
      requires Valid() && Mispredicted(isa, exReg)
      modifies Repr()
      ensures Valid()
      ensures var s := old(View()); var b := FlushSpeculative(s.board, s.exReg.rob); var l := s.exReg;
        Shape(b) && View() == s.(flush := true, frontPc := I.PcAfter(isa, l.instr, l.pc, l.x, l.y), board := b,
          spec := DropDeadStores(s.spec, b), fus := View().fus) && |View().fus| == |s.fus| &&
        forall j :: 0 <= j < |s.fus| ==>
          View().fus[j] == if s.fus[j].busy && s.fus[j].transId >= 0 && !LiveId(b, s.fus[j].transId)
                           then s.fus[j].(busy := false) else s.fus[j]
    {
      ghost var s := View();
      frontPc := I.PcAfter(isa, exReg.instr, exReg.pc, exReg.x, exReg.y);
      flush := true;
      FlushShape(scoreboard.View(), exReg.rob);
      scoreboard.FlushSpeculative(exReg.rob);
      var es := scoreboard.entries[..];
      var isLive := (t: int) => 0 <= t < |es| && es[t].valid;
      DropDeadSame(storeBuffer.Spec, scoreboard.View(), isLive);
      storeBuffer.FlushDead(isLive);
      CancelDead();
    }

    method ExecBranch(isa: I.Isa)
      requires Valid()
      modifies Repr()
      ensures Valid() && View() == P.ExecBranch(isa, old(View()))
    {
      ghost var s := View();
      if Mispredicted(isa, exReg) {
        Redirect(isa);
        FlushShape(s.board, exReg.rob);
        var link := I.FallThrough(exReg.instr, exReg.pc);
        Finish(link);
        assert View().fus == P.ExecBranch(isa, s).fus;
      } else {
        Finish(I.FallThrough(exReg.instr, exReg.pc));
      }
    }

    /** Commit the ready entries older than the trapping one. */
    method TrapDrain()
      requires Valid()
      modifies Repr()
      ensures Valid() && View() == P.TrapDrain(old(View()))
    {
      ghost var goal := P.TrapDrain(View());
      var ready := scoreboard.HeadReady();
      while ready && scoreboard.head != exReg.rob
        modifies Repr()
        invariant Valid() && P.TrapDrain(View()) == goal && ready == HeadReady(View().board)
        decreases scoreboard.count
      {
        TrapCommit();
        ready := scoreboard.HeadReady();
      }
    }

    method TrapCommit()
      requires Valid() && HeadReady(View().board) && scoreboard.head != exReg.rob
      modifies Repr()
      ensures Valid() && P.TrapDrain(View()) == P.TrapDrain(old(View()))
      ensures scoreboard.count < old(scoreboard.count)
    {
      var e := scoreboard.entries[scoreboard.head];
      if e.rd != 0 { registers[e.rd] := e.result; }
      if e.isStore { var ok := storeBuffer.CommitStore(); }
      scoreboard.Retire();
    }

    method DrainAllStores()
      requires Valid()
      modifies this`mem, storeBuffer, storeBuffer.committed
      ensures Valid() && View() == old(View()).(mem := DrainAll(old(mem), old(storeBuffer.Committed)), committed := [])
    {
      ghost var goal := DrainAll(mem, storeBuffer.Committed);
      var more := true;
      while more
        modifies this`mem, storeBuffer, storeBuffer.committed
        invariant Valid() && DrainAll(mem, storeBuffer.Committed) == goal
        invariant storeBuffer.Spec == old(storeBuffer.Spec)
        invariant !more ==> storeBuffer.Committed == []
        decreases more, |storeBuffer.Committed|
      {
        ghost var q := storeBuffer.Committed;
        var r := storeBuffer.DrainOne();
        if q != [] { DrainShorter(q); }
        match r
        case None => more := false; DrainNone(q);
        case Some(e) => mem := Write(mem, e);
      }
    }

    static lemma {:induction false} DrainNone(q: seq<StoreEntry>)
      ensures Drain(q).0.None? ==> Drain(q).1 == []
      ensures q == [] ==> Drain(q).0.None?
    {
      if q != [] && !q[0].valid { DrainNone(q[1..]); }
    }

    method TakeTrap(vector: Word)
      requires Valid()
      modifies Repr()
      ensures Valid() && View() == P.TakeTrap(old(View()), vector)
    {
      hide P.TrapDrain, DrainAll, Boards.Flush, Boards.Complete;
      hide StopTo, Shape;
      var pc := exReg.pc;
      scoreboard.Complete(exReg.rob, 0, 0);
      TrapDrain();
      DrainAllStores();
      FlushAll(units.Length);
      flush, frontPc, epc := true, vector, pc;
    }

    method Execute(cfg: Config, inp: Input)
      requires Valid()
      modifies Repr()
      ensures Valid() && View() == P.Execute(cfg, old(View()), inp)
    {
      var l := exReg;
      if !l.valid || flush { return; }
      if Traps(cfg.isa, l) {
        if scoreboard.count != 0 && scoreboard.head != l.rob {
          stallEx := true;
        } else {
          TakeTrap(inp.trapVector);
        }
        return;
      }
      match l.instr.kind
      case Alu => Finish(cfg.isa.compute(l.instr, l.pc, l.x, l.y));
      case Mul => StartUnit(MUL, 1, cfg.isa.compute(l.instr, l.pc, l.x, l.y));
      case Div =>
        StartUnit(DIV, cfg.isa.divCycles(l.instr, l.x, l.y), cfg.isa.compute(l.instr, l.pc, l.x, l.y));
      case Load => ExecLoad(cfg, inp.cacheHit);
      case Store => ExecStore();
      case Amo => ExecAmo(cfg.isa);
      case Branch => ExecBranch(cfg.isa);
      case Trap =>
    }

    // -------------------------------------------------------------- Issue

    method Resolve(r: Reg) returns (v: Option<Word>)
      requires Valid()
      ensures v == P.Resolve(View(), r)
    {
      if r == 0 { return Some(0); }
      var c := scoreboard.rdClobber[r];
      if !c.busy { return Some(registers[r]); }
      var producer := scoreboard.entries[c.transId];
      return if producer.ready then Some(producer.result) else None;
    }

    method Blocked(k: I.Kind) returns (b: bool)
      requires Valid()
      ensures b == P.Blocked(View(), k)
    {
      var slot := FreeMissSlot();
      var anyBusy := AnyUnitBusy();
      b := (k == I.Mul && units[MUL].busy) ||
           (k == I.Div && units[DIV].busy) ||
           ((k == I.Load || k == I.Amo) && (slot < 0 || units[units.Length - 1].busy)) ||
           (k == I.Store && storeBuffer.specCount == DEPTH) ||
           (k == I.Amo && !(storeBuffer.specCount == 0 && storeBuffer.commitCount == 0)) ||
           (k == I.Trap && anyBusy);
    }

    method Dispatch(isa: I.Isa, x: Word, y: Word, pred: Prediction)
      requires Valid()
      modifies Repr()
      ensures Valid() && View() == P.Dispatch(isa, old(View()), x, y, pred)
    {
      var i := isa.fetch(frontPc);
      var idx := scoreboard.Allocate();
      if idx < 0 {
        exNext := exNext.(valid := false);
        return;
      }
      var p := if i.kind == I.Branch then pred else Prediction(false, 0);
      scoreboard.entries[idx] := scoreboard.entries[idx].(pc := frontPc, isStore := i.kind == I.Store);
      exNext := Latch(true, i, frontPc, x, y, idx, p.taken, p.target);
      if I.Dest(i) != 0 { scoreboard.SetClobber(I.Dest(i), Clobber(true, idx)); }
      frontPc := if p.taken then p.target else I.FallThrough(i, frontPc);
    }

    method Issue(isa: I.Isa, inp: Input)
      requires Valid()
      modifies Repr()
      ensures Valid() && View() == P.Issue(isa, old(View()), inp)
    {
      if stallEx || flush || inp.offer.None? || inp.bubble {
        exNext := exNext.(valid := false);
        return;
      }
      var i := isa.fetch(frontPc);
      var x := Resolve(i.rs1);
      var y := Resolve(i.rs2);
      var blocked := Blocked(i.kind);
      if x.None? || y.None? || blocked {
        exNext := exNext.(valid := false);
      } else {
        Dispatch(isa, x.value, y.value, inp.offer.value);
      }
    }

    // -------------------------------------------------------------- the clock cycle

    method ExStage(cfg: Config, inp: Input)
      requires Valid()
      modifies Repr()
      ensures Valid() && View() == P.Execute(cfg, P.TickFrom(old(View()).(stallEx := false), 0), inp)
    {
      hide P.TickFrom, P.Execute;
      stallEx := false;
      TickUnits();
      Execute(cfg, inp);
    }

    /** EX's flush flag is recorded, Issue runs, and PCGen consumes a redirect. */
    method IssueStage(isa: I.Isa, inp: Input)
      requires Valid()
      modifies Repr()
      ensures Valid() && View() == P.FromIssue(isa, old(View()), inp)
    {
      hide P.Issue;
      prevFlush := flush;
      Issue(isa, inp);
      if flush {
        flush := false;
        exNext := exNext.(valid := false);
      }
    }

    method Cycle(cfg: Config, inp: Input)
      requires Valid()
      modifies Repr()
      ensures Valid() && View() == P.Cycle(cfg, old(View()), inp)
    {
      hide P.LatchTransfer, P.TakeIrq, P.Commit, P.TickFrom, P.Execute, P.FromIssue, ShapeOk, Valid, View;
      LatchTransfer();
      if inp.irq.Some? { ProcessIrq(inp.irq.value); }
      CommitStage(cfg);
      ExStage(cfg, inp);
      IssueStage(cfg.isa, inp);
    }

    /** Any number of cycles: the object goes on agreeing with the sequential machine. */
    method Run(cfg: Config, ins: seq<Input>, ghost a: I.Arch)
      requires Valid() && CycleProof.Sim(cfg.isa, a, View()) && Runs.ScopedRun(cfg, View(), ins)
      modifies Repr()
      ensures Valid() && View() == Runs.RunCycles(cfg, old(View()), ins)
      ensures |a.regs| == NREGS && CycleProof.Sim(cfg.isa, Runs.SpecRun(cfg, a, old(View()), ins), View())
    {
      hide P.Cycle, P.ShapeOk, CycleProof.Sim, Runs.SpecRun, Runs.ScopedRun;
      ghost var s := View();
      Runs.RunRefines(cfg, a, s, ins);
      var n := 0;
      assert ins[0..] == ins;
      while n < |ins|
        modifies Repr()
        invariant 0 <= n <= |ins| && Valid() && Runs.RunCycles(cfg, View(), ins[n..]) == Runs.RunCycles(cfg, s, ins)
      {
        assert ins[n..][1..] == ins[n + 1..];
        Cycle(cfg, ins[n]);
        n := n + 1;
      }
    }
  }
}
