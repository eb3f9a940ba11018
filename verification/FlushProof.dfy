/** Interrupts and traps: what is left after the flush is the sequential machine at the oldest
    instruction that has not retired, with its pc moved to the handler. */
module FlushProof {
  import opened Words
  import opened StoreQueue
  import opened Boards
  import opened Pipeline
  import opened Invariant
  import opened ExProof
  import opened CommitProof
  import I = Isa

  /** A back end with nothing in flight agrees with the sequential machine at a. */
  ghost predicate Quiet(s: Core, a: I.Arch) {
    ShapeOk(s) && RingOk(s.board) && s.board.count == 0 &&
    (forall r :: 1 <= r < NREGS ==> s.board.clobber[r] == IDLE) &&
    (forall j :: 0 <= j < |s.fus| ==> !s.fus[j].busy) &&
    s.spec == [] && QueueOk(s.committed) &&
    |a.regs| == NREGS && s.regs == a.regs && s.frontPc == a.pc && Overlay(s.mem, s.committed) == a.mem
  }

  lemma QuietInv(isa: I.Isa, s: Core, a: I.Arch, p: Latch)
    requires Quiet(s, a) && !p.valid
    ensures Inv(isa, [a], s, p)
  {
    hide I.Value, I.Step;
    var tr := [a];
    assert Steps(isa, tr);
    assert InFlight(isa, tr, s.board, 0);
    forall j | 0 <= j < |s.fus| ensures UnitOk(isa, tr, s.board, 0, s.fus, j) {}
    assert Owners(isa, tr, s.board, s.fus, 0);
    forall r | 1 <= r < NREGS ensures ClobberOk(isa, tr, s.board, r) {}
    assert StoreLog(isa, tr, s.board.head, 0) == [];
    assert s.committed + [] == s.committed;
    assert AmoBase(isa, tr, 0) == 0;
  }

  // ---------------------------------------------------------------- interrupts

  /** After an interrupt flush: nothing in flight, but the load-hit unit may still count its last cycle. */
  ghost predicate QuietButHit(s: Core, a: I.Arch) {
    ShapeOk(s) && RingOk(s.board) && s.board.count == 0 &&
    (forall r :: 1 <= r < NREGS ==> s.board.clobber[r] == IDLE) &&
    (forall j :: 0 <= j < HitUnit(s) ==> !s.fus[j].busy) &&
    (var f := s.fus[HitUnit(s)]; f.busy ==> f.remaining == 1 && 0 <= f.transId < SIZE) &&
    s.spec == [] && QueueOk(s.committed) &&
    |a.regs| == NREGS && s.regs == a.regs && s.frontPc == a.pc && Overlay(s.mem, s.committed) == a.mem
  }

  /** The state an interrupt leaves to its handler. An executed AMO still in flight has already
      written memory; everything else that had not retired is undone. */
  ghost function Interrupted(isa: I.Isa, tr: Trace, ex: int, vector: Word): I.Arch
    requires |tr| > 0 && 0 <= ex < |tr|
  {
    I.Arch(vector, tr[0].regs, tr[AmoBase(isa, tr, ex)].mem)
  }

  lemma IrqQuiets(isa: I.Isa, tr: Trace, s: Core, p: Latch, vector: Word)
    requires Inv(isa, tr, s, p)
    ensures var ex := Executed(s.board, p);
      0 <= ex < |tr| && QuietButHit(TakeIrq(s, vector), Interrupted(isa, tr, ex, vector))
  {
    hide I.Value, I.Step;
    var j := HitUnit(s);
    assert UnitOk(isa, tr, s.board, Executed(s.board, p), s.fus, j);
  }

  /** The saved pc is that of the oldest instruction not yet retired. */
  lemma IrqSavesOldest(isa: I.Isa, tr: Trace, s: Core, p: Latch)
    requires Inv(isa, tr, s, p) && p == s.exReg
    ensures IrqEpc(s) == tr[0].pc
  {
    hide I.Value, I.Step, Owners, Clobbers, Memories;
    if s.board.count != 0 { assert EntryOk(isa, tr, s.board, Executed(s.board, p), 0); }
  }

  lemma QuietDrain(cfg: Config, s: Core, a: I.Arch)
    requires QueueOk(s.committed) && Overlay(s.mem, s.committed) == a.mem
    ensures var d := DrainStage(cfg, s); QueueOk(d.committed) && Overlay(d.mem, d.committed) == a.mem
  {
    var q := s.committed;
    DrainValid(q);
    DrainKeepsOverlay(s.mem, q, []);
    assert q + [] == q && Drain(q).1 + [] == Drain(q).1;
  }

  lemma QuietCommit(cfg: Config, s: Core, a: I.Arch)
    requires QuietButHit(s, a)
    ensures var r := Commit(cfg, s);
      QuietButHit(r, a) && r.flush == s.flush && r.stallEx == s.stallEx && r.instret == s.instret && r.epc == s.epc
  {
    hide QueueOk, Overlay, Drain, DrainWrite, RingOk;
    QuietDrain(cfg, s, a);
    assert !HeadReady(DrainStage(cfg, s).board);
  }

  /** With every other unit idle, ticking all units ticks the load-hit unit. */
  lemma {:induction false} TickOnlyHit(s: Core, j: int)
    requires ShapeOk(s) && 0 <= j <= HitUnit(s)
    requires forall k :: j <= k < HitUnit(s) ==> !s.fus[k].busy
    ensures TickFrom(s, j) == Tick(s, HitUnit(s))
    decreases |s.fus| - j
  {
    if j < HitUnit(s) {
      TickOnlyHit(s, j + 1);
    } else {
      assert TickFrom(s, j) == TickFrom(Tick(s, j), j + 1);
    }
  }

  lemma QuietTicks(s: Core, a: I.Arch)
    requires QuietButHit(s, a)
    ensures Quiet(TickFrom(s, 0), a)
    ensures var r := TickFrom(s, 0);
      r.flush == s.flush && r.stallEx == s.stallEx && r.instret == s.instret && r.epc == s.epc
  {
    TickOnlyHit(s, 0);
    var f := s.fus[HitUnit(s)];
    if f.busy { CompleteUpdates(s.board, f.transId, f.result, f.rd); }
  }

  // ---------------------------------------------------------------- traps

  /** A trap is taken only by the single instruction in flight, so the loop that commits older
      entries finds none, and every committed store reaches memory before the handler runs. */
  lemma TrapQuiets(isa: I.Isa, tr: Trace, s: Core, vector: Word)
    requires Ready(isa, tr, s) && Traps(isa, s.exReg) && !OlderInFlight(s)
    ensures s.board.count == 1 && |tr| == 2
    ensures var r := TakeTrap(s, vector);
      Quiet(r, tr[0].(pc := vector)) && r.committed == [] && r.mem == tr[0].mem &&
      r.epc == tr[0].pc && r.instret == s.instret && r.flush && r.stallEx == s.stallEx
  {
    Youngest(isa, tr, s);
    Parts(isa, tr, s);
    hide Inv, InFlight, Owners, Clobbers, LatchOk, Steps, I.Value, I.Step, Traps;
    InvRegs(isa, tr, s);
    var c := s.(board := Complete(s.board, s.exReg.rob, 0, 0));
    assert TrapDrain(c) == c;
    DrainAllIsOverlay(s.mem, s.committed);
    assert AmoBase(isa, tr, 0) == 0;
    var none: seq<StoreEntry> := [];
    assert Overlay(tr[0].mem, none) == tr[0].mem;
  }

  lemma InvRegs(isa: I.Isa, tr: Trace, s: Core)
    requires Ready(isa, tr, s)
    ensures s.regs == tr[0].regs && |tr[0].regs| == NREGS
  {
    hide I.Value, I.Step;
  }
}
