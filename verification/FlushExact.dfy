/** When EX holds back, traps and redirects, and what each flush leaves behind: on any state, not only on
    the reachable ones, where some of what a flush would drop is never there. */
module FlushExact {
  import opened Words
  import opened StoreQueue
  import opened Boards
  import opened Pipeline
  import opened Invariant
  import opened ExProof
  import opened CycleProof
  import opened Runs
  import opened Structure
  import opened Replay
  import opened Progress
  import opened Timing
  import I = Isa

  // ---------------------------------------------------------------- traps, redirects, interrupts

  /** A trap is taken in exactly the cycles in which EX holds a trapping instruction as the only one in
      flight. */
  lemma TrapExact(cfg: Config, a: I.Arch, s: Core, inp: Input)
    requires Sim(cfg.isa, a, s) && inp.irq.None?
    ensures ShapeOk(s)
    ensures var m := BeforeEx(cfg, s, inp); var l := m.exReg;
      TrapFires(cfg, s, inp) <==> l.valid && m.board.count == 1 && Trapping(cfg.isa, l)
  {
    hide Agrees, Inv, BeforeEx, LatchTransfer, I.Step, I.Run;
    var tr := Witness(cfg.isa, a, s);
    var u := BeforeExKeeps(cfg, tr, s, inp);
    var m := BeforeEx(cfg, s, inp);
    if m.exReg.valid {
      LatchPlace(cfg.isa, u, m);
      Youngest(cfg.isa, u, m);
    }
  }

  /** EX holds an instruction back exactly when it is one that traps and is not alone in flight, or a load
      that the queues can serve only in part. */
  lemma StallExact(cfg: Config, u: Trace, m: Core, inp: Input)
    requires CycleReady(cfg, u, m)
    ensures ShapeOk(m)
    ensures var l := m.exReg;
      Execute(cfg, m, inp).stallEx <==>
        if Trapping(cfg.isa, l) then m.board.count > 1
        else l.instr.kind == I.Load &&
             Forward(m.spec, m.committed, (l.x + l.instr.imm) % 0x1_0000_0000_0000_0000, l.instr.size).PartialOverlap?
  {
    TraceShape(cfg.isa, u, m, m.exReg);
    LatchPlace(cfg.isa, u, m);
    CountPositive(cfg.isa, u, m);
    hide Inv, InScope, Forward, ReadLE, I.LoadValue, TakeTrap, ExecBranch, I.AmoStore, Complete, FreeSlot;
    if Traps(cfg.isa, m.exReg) {
      TakeTrapStall(m, inp.trapVector);
    } else if m.exReg.instr.kind == I.Branch {
      BranchDropsNothing(cfg.isa, u, m);
    }
  }

  lemma CountPositive(isa: I.Isa, u: Trace, m: Core)
    requires Ready(isa, u, m)
    ensures m.board.count > 0
  {
    Youngest(isa, u, m);
  }

  /** EX redirects the front end exactly when the direction or the target was predicted wrong, and to the
      address the branch goes to. */
  lemma RedirectExact(cfg: Config, u: Trace, m: Core, inp: Input)
    requires Ready(cfg.isa, u, m) && m.exReg.instr.kind == I.Branch && !Trapping(cfg.isa, m.exReg)
    ensures ShapeOk(m)
    ensures var e, l := Execute(cfg, m, inp), m.exReg;
      var taken, target := cfg.isa.taken(l.instr, l.x, l.y), cfg.isa.target(l.instr, l.pc, l.x, l.y);
      && (e.flush <==> taken != l.predTaken || (taken && target != l.predTarget))
      && e.frontPc == (if taken then target else (l.pc + l.instr.length) % 0x1_0000_0000_0000_0000)
      && e.spec == m.spec && e.fus == m.fus && e.board.count == m.board.count
  {
    BranchDropsNothing(cfg.isa, u, m);
    LatchFront(cfg.isa, u, m);
    hide Inv, FlushSpeculative, DropDeadStores, LiveId, ExecBranch;
  }

  /** What EX decides. */
  ghost predicate Decided(cfg: Config, m: Core, e: Core, cacheHit: bool)
    requires ShapeOk(m) && ShapeOk(e) && |e.fus| == |m.fus| && 0 <= m.exReg.rob < SIZE
  {
    var l := m.exReg;
    && (e.stallEx <==>
          if Trapping(cfg.isa, l) then m.board.count > 1
          else l.instr.kind == I.Load &&
               Forward(m.spec, m.committed, (l.x + l.instr.imm) % 0x1_0000_0000_0000_0000, l.instr.size).PartialOverlap?)
    && (!e.stallEx && !Trapping(cfg.isa, l) ==> ResultDue(cfg, m, e, cacheHit))
    && (l.instr.kind == I.Branch && !Trapping(cfg.isa, l) ==>
          var taken, target := cfg.isa.taken(l.instr, l.x, l.y), cfg.isa.target(l.instr, l.pc, l.x, l.y);
          e.flush <==> taken != l.predTaken || (taken && target != l.predTarget))
  }

  /** In every cycle that no interrupt takes over, with an instruction for EX: whether it is held back, when
      its result arrives, and whether a branch redirects. */
  lemma ExInCycle(cfg: Config, a: I.Arch, s: Core, inp: Input)
    requires Sim(cfg.isa, a, s) && ShapeOk(s) && inp.irq.None? && ScopedCycle(s, inp) && BeforeEx(cfg, s, inp).exReg.valid
    ensures 0 <= BeforeEx(cfg, s, inp).exReg.rob < SIZE
    ensures Decided(cfg, BeforeEx(cfg, s, inp), Execute(cfg, BeforeEx(cfg, s, inp), inp), inp.cacheHit)
  {
    hide Agrees, Inv, BeforeEx, Execute, LatchTransfer, InScope, ResultDue, Trapping, I.Step, I.Run;
    var tr := Witness(cfg.isa, a, s);
    var u := BeforeExKeeps(cfg, tr, s, inp);
    var m := BeforeEx(cfg, s, inp);
    Youngest(cfg.isa, u, m);
    StallExact(cfg, u, m, inp);
    if !Trapping(cfg.isa, m.exReg) {
      LatencyExact(cfg, u, m, inp);
      if m.exReg.instr.kind == I.Branch { RedirectExact(cfg, u, m, inp); }
    }
  }

  /** At an interrupt the load-hit unit runs on and every other unit stops; nothing else in flight is kept,
      and committed stores, memory and registers stay. */
  lemma InterruptFlush(s: Core, vector: Word)
    requires ShapeOk(s)
    ensures var r, last := TakeIrq(s, vector), |s.fus| - 1;
      && r.fus[last] == s.fus[last] && (forall j :: 0 <= j < last ==> !r.fus[j].busy)
      && r.board.count == 0 && (forall t :: 0 <= t < SIZE ==> !r.board.entries[t].valid)
      && (forall x :: 0 <= x < NREGS ==> !r.board.clobber[x].busy)
      && r.spec == [] && r.committed == s.committed && r.mem == s.mem && r.regs == s.regs && r.instret == s.instret
      && r.flush && !r.stallEx && r.frontPc == vector
  {
    assert forall t :: 0 <= t < SIZE ==> At(TakeIrq(s, vector).board, t).valid == TakeIrq(s, vector).board.entries[t].valid;
  }

  // ---------------------------------------------------------------- the loop that commits before a trap

  /** The last of the first n entries that writes r is entry k. */
  ghost predicate LastWrite(b: Board, n: nat, r: Reg, k: int)
    requires Shape(b) && n <= b.count
  {
    0 <= k < n && At(b, k).rd == r && forall i :: k < i < n ==> At(b, i).rd != r
  }

  /** The entries through n - 1 are ready and precede the trapping one, entry n is not or does not exist. */
  ghost predicate StopsAt(s: Core, n: nat)
    requires ShapeOk(s)
  {
    && RingOk(s.board) && n <= s.board.count
    && (forall k :: 0 <= k < n ==> At(s.board, k).ready && Slot(s.board.head, k) != s.exReg.rob)
    && (n < s.board.count ==> !At(s.board, n).ready || Slot(s.board.head, n) == s.exReg.rob)
  }

  /** r is s with its first n entries retired in order: the last of them to write a register decides it. */
  ghost predicate Written(s: Core, r: Core, n: nat)
    requires ShapeOk(s) && n <= s.board.count
  {
    && ShapeOk(r)
    && (forall x: Reg, k :: x != 0 && LastWrite(s.board, n, x, k) ==> r.regs[x] == At(s.board, k).result)
    && (forall x: Reg :: (x == 0 || forall k :: 0 <= k < n ==> At(s.board, k).rd != x) ==> r.regs[x] == s.regs[x])
  }

  ghost predicate Shifted(s: Core, r: Core, n: nat) {
    && ShapeOk(s) && ShapeOk(r) && r.board.count == s.board.count - n
    && (forall k :: 0 <= k < r.board.count ==> At(r.board, k) == At(s.board, n + k))
    && r.mem == s.mem && r.fus == s.fus && r.instret == s.instret
  }

  /** The loop retires exactly the ready entries before the trapping one or the first that is not ready. */
  lemma {:induction false} DrainsThrough(s: Core, n: nat)
    requires ShapeOk(s) && StopsAt(s, n)
    ensures Shifted(s, TrapDrain(s), n) && Written(s, TrapDrain(s), n)
    decreases n
  {
    hide Shifted, Written, StopsAt, Drained;
    DrainRound(s, n);
    if n > 0 {
      var t := Drained(s);
      DrainsThrough(t, n - 1);
      ShiftOn(s, t, TrapDrain(t), n);
      WrittenOn(s, t, TrapDrain(t), n);
    } else {
      Undrained(s);
    }
  }

  lemma Undrained(s: Core)
    requires ShapeOk(s)
    ensures Shifted(s, s, 0) && Written(s, s, 0)
  {}

  lemma DrainRound(s: Core, n: nat)
    requires ShapeOk(s) && StopsAt(s, n)
    ensures n <= s.board.count
    ensures if n == 0 then TrapDrain(s) == s
            else s.board.count > 0 && StopsAt(Drained(s), n - 1) && TrapDrain(s) == TrapDrain(Drained(s))
    ensures n > 0 ==> Shifted(s, Drained(s), 1) && Written(s, Drained(s), 1) && n - 1 <= Drained(s).board.count
  {
    if s.board.count > 0 { HeadIs(s.board); }
    if n > 0 {
      RoundBoard(s);
      RoundWrites(s);
      RoundStops(s, n);
      hide StopsAt, Shifted, Written, I.SetReg, CommitMove, Retire, RingOk;
      assert At(s.board, 0).ready;
    }
  }

  lemma ShiftOn(s: Core, t: Core, r: Core, n: nat)
    requires n > 0 && Shifted(s, t, 1) && Shifted(t, r, n - 1)
    ensures Shifted(s, r, n)
  {}

  lemma WrittenOn(s: Core, t: Core, r: Core, n: nat)
    requires 0 < n && ShapeOk(s) && n <= s.board.count && Shifted(s, t, 1) && Written(s, t, 1) && n - 1 <= t.board.count
    requires Written(t, r, n - 1)
    ensures Written(s, r, n)
  {
    forall x: Reg, k | x != 0 && LastWrite(s.board, n, x, k) ensures r.regs[x] == At(s.board, k).result {
      if k == 0 {
        assert LastWrite(s.board, 1, x, 0);
        assert forall i :: 0 <= i < n - 1 ==> At(t.board, i) == At(s.board, i + 1);
      } else {
        assert LastWrite(t.board, n - 1, x, k - 1);
      }
    }
    forall x: Reg | x == 0 || forall k :: 0 <= k < n ==> At(s.board, k).rd != x ensures r.regs[x] == s.regs[x] {
      assert forall i :: 0 <= i < n - 1 ==> At(t.board, i) == At(s.board, i + 1);
    }
  }

  lemma RoundBoard(s: Core)
    requires ShapeOk(s) && RingOk(s.board) && s.board.count > 0
    ensures Shifted(s, Drained(s), 1)
  {
    hide CommitMove, I.SetReg;
    RetirePops(s.board);
  }

  lemma RoundWrites(s: Core)
    requires ShapeOk(s) && RingOk(s.board) && s.board.count > 0
    ensures Written(s, Drained(s), 1)
  {
    hide CommitMove, Retire;
    HeadIs(s.board);
  }

  lemma RoundStops(s: Core, n: nat)
    requires ShapeOk(s) && StopsAt(s, n) && n > 0
    ensures StopsAt(Drained(s), n - 1)
  {
    hide CommitMove, I.SetReg;
    RetirePops(s.board);
    assert Drained(s).board == Retire(s.board);
  }

  /** One round of the loop. */
  function Drained(s: Core): (r: Core)
    requires ShapeOk(s) && s.board.count > 0
    ensures ShapeOk(r)
  {
    var e := s.board.entries[s.board.head];
    var (spec, committed) :=
      if e.isStore && s.spec != [] && |s.committed| < QDEPTH then CommitMove(s.spec, s.committed) else (s.spec, s.committed);
    s.(spec := spec, committed := committed, regs := I.SetReg(s.regs, e.rd, e.result), board := Retire(s.board))
  }

  // ---------------------------------------------------------------- flushes on any state

  /** The flush of a mispredicted branch in a state whose store queue agrees with its scoreboard: entries
      and stores through the branch stay, younger ones go, and a unit goes on iff its entry stays. */
  lemma BranchFlush(isa: I.Isa, s: Core)
    requires ShapeOk(s) && RingOk(s.board) && 0 <= s.exReg.rob < SIZE && Place(s.board.head, s.exReg.rob) < s.board.count
    requires Ids(s.spec) == StoreIds(s.board, s.board.count) && Mispredicted(isa, s.exReg)
    ensures var r, keep := ExecBranch(isa, s), Place(s.board.head, s.exReg.rob) + 1;
      && r.flush && RingOk(r.board) && r.board.head == s.board.head && r.board.count == keep
      && (forall k :: 0 <= k < keep - 1 ==> At(r.board, k) == At(s.board, k))
      && At(r.board, keep - 1).ready && At(r.board, keep - 1).pc == At(s.board, keep - 1).pc
      && r.spec <= s.spec && Ids(r.spec) == StoreIds(s.board, keep)
      && |r.fus| == |s.fus|
      && (forall j :: 0 <= j < |s.fus| && s.fus[j].busy && 0 <= s.fus[j].transId < SIZE ==>
            (r.fus[j].busy <==> Place(s.board.head, s.fus[j].transId) < keep))
      && r.committed == s.committed && r.mem == s.mem && r.regs == s.regs
  {
    var b := FlushSpeculative(s.board, s.exReg.rob);
    var keep: nat := Place(s.board.head, s.exReg.rob) + 1;
    FlushShape(s.board, s.exReg.rob);
    FlushSpeculativeKeepsPrefix(s.board, s.exReg.rob);
    SelectiveFlushAgrees(s.board, s.spec, s.exReg.rob);
    CompleteUpdates(b, s.exReg.rob, I.FallThrough(s.exReg.instr, s.exReg.pc), I.Dest(s.exReg.instr));
    forall t | 0 <= t < SIZE ensures LiveId(b, t) <==> Place(s.board.head, t) < keep { LiveAt(b, t); }
    hide FlushSpeculative, DropDeadStores, LiveId, Complete, Mispredicted, RingOk, StoreIds, I.PcAfter, I.FallThrough, I.Dest;
  }

  lemma LiveAt(b: Board, t: int)
    requires RingOk(b) && 0 <= t < SIZE
    ensures LiveId(b, t) <==> Place(b.head, t) < b.count
  {
    assert At(b, Place(b.head, t)) == b.entries[t];
  }

  predicate Dead(b: Board, e: StoreEntry)
    requires Shape(b)
  {
    e.transId >= 0 && !(e.transId < SIZE && b.entries[e.transId].valid)
  }

  /** The store buffer's part: the longest suffix of stores without a valid entry goes. */
  lemma {:induction false} DeadStoresDropped(q: seq<StoreEntry>, b: Board)
    requires Shape(b)
    ensures var r := DropDeadStores(q, b);
      && r <= q && (forall i :: |r| <= i < |q| ==> Dead(b, q[i])) && (r != [] ==> !Dead(b, r[|r| - 1]))
  {
    if q != [] && Dead(b, q[|q| - 1]) { DeadStoresDropped(q[..|q| - 1], b); }
  }

  /** The flush of a trap: no unit runs, no entry, clobber or store is left, and memory has every store that
      was committed when the loop stopped. */
  lemma TrapFlush(s: Core, vector: Word)
    requires ShapeOk(s)
    ensures var r, d := TakeTrap(s, vector), TrapDrain(s.(board := Complete(s.board, s.exReg.rob, 0, 0)));
      && r.mem == Overlay(d.mem, d.committed) && r.committed == [] && r.spec == [] && r.regs == d.regs
      && (forall j :: 0 <= j < |r.fus| ==> !r.fus[j].busy)
      && r.board.count == 0 && (forall t :: 0 <= t < SIZE ==> !r.board.entries[t].valid)
      && (forall x :: 0 <= x < NREGS ==> !r.board.clobber[x].busy)
      && r.flush && r.frontPc == vector && r.epc == s.exReg.pc
  {
    hide TrapDrain;
    var d := TrapDrain(s.(board := Complete(s.board, s.exReg.rob, 0, 0)));
    DrainAllIsOverlay(d.mem, d.committed);
    assert forall t :: 0 <= t < SIZE ==> At(Flush(d.board), t).valid == Flush(d.board).entries[t].valid;
  }

  /** After an AMO the bytes it wrote are what any later load sees, through whatever was buffered. */
  lemma AmoVisible(isa: I.Isa, s: Core, x: int)
    requires ShapeOk(s) && s.exReg.instr.kind == I.Amo
    requires EndsFit(s.committed + s.spec, s.exReg.x, s.exReg.instr.size)
    requires NoneMissed(s.committed + s.spec, s.exReg.x, s.exReg.instr.size)
    requires s.exReg.x <= x < s.exReg.x + s.exReg.instr.size
    ensures var r := ExecAmo(isa, s); Overlay(r.mem, r.committed + r.spec)(x) == r.mem(x)
  {
    hide Complete, I.LoadValue, Write, ReadLE, Overlay, EndsFit, NoneMissed;
    var l := s.exReg;
    var q := s.committed + s.spec;
    var e := I.AmoStore(isa, l.instr, l.x, l.y, s.mem);
    assert InvalidateAll(s.committed, l.x, l.instr.size) + InvalidateAll(s.spec, l.x, l.instr.size)
      == InvalidateAll(q, l.x, l.instr.size);
    InvalidateUncovers(Write(s.mem, e), q, l.x, l.instr.size, x);
  }
}
