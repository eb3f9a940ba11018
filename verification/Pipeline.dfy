/** One clock cycle of the back end of src/CPU_P64_6_Cycle.cpp as functions on the value of its
    fields: latch transfer, interrupt, Commit, EX, Issue and the end-of-cycle flush, in the order
    cycle_thread runs them. The front end is an input: it offers the instruction at frontPc with
    any prediction, or nothing. Cache hits, interrupts and extra Issue bubbles are inputs too. */
module Pipeline {
  import opened Words
  import opened StoreQueue
  import opened Boards
  import I = Isa

  /** Functional units, in the order EX ticks them: multiplier, divider, the D$-miss slots and
      last the load-hit unit. */
  datatype Fu = Fu(busy: bool, remaining: int, result: Word, transId: int, rd: Reg)

  const MUL := 0
  const DIV := 1
  const MISS := 2

  const IDLE_FU := Fu(false, 0, 0, -1, 0)

  datatype Latch = Latch(valid: bool, instr: I.Instr, pc: Word, x: Word, y: Word, rob: int,
                         predTaken: bool, predTarget: Word)

  datatype Prediction = Prediction(taken: bool, target: Word)

  /** A D$ miss takes at least two cycles, so a miss slot counts down at least once. */
  type Penalty = n: int | n >= 2 witness 2

  datatype Config = Config(isa: I.Isa, missPenalty: Penalty, storePenalty: nat)

  datatype Input = Input(irq: Option<Word>, trapVector: Word, cacheHit: bool,
                         offer: Option<Prediction>, bubble: bool)

  datatype Core = Core(
    regs: seq<Word>, mem: Memory,
    board: Board,
    spec: seq<StoreEntry>, committed: seq<StoreEntry>, drainWait: nat,
    fus: seq<Fu>,
    exReg: Latch, exNext: Latch,
    stallEx: bool, flush: bool, prevFlush: bool,
    frontPc: Word, epc: Word,
    instret: nat)

  const QDEPTH := 4

  ghost predicate ShapeOk(s: Core) {
    |s.regs| == NREGS && Shape(s.board) && |s.fus| >= 4
  }

  /** Array lengths and unit count stay as they are. */
  ghost predicate SameShape(s: Core, r: Core) { ShapeOk(r) && |r.fus| == |s.fus| }

  function HitUnit(s: Core): int { |s.fus| - 1 }

  // ---------------------------------------------------------------- latch transfer

  function LatchTransfer(s: Core): Core {
    if s.prevFlush then s.(exReg := s.exReg.(valid := false))
    else if !s.stallEx then s.(exReg := s.exNext)
    else s
  }

  // ---------------------------------------------------------------- interrupt

  /** The PC an interrupt saves: the oldest instruction not yet retired. */
  function IrqEpc(s: Core): Word
    requires ShapeOk(s)
  {
    if s.board.count != 0 then s.board.entries[s.board.head].pc
    else if s.exReg.valid then s.exReg.pc
    else s.frontPc
  }

  /** The units before hi are stopped. */
  function StopTo(fus: seq<Fu>, hi: int): (r: seq<Fu>)
    ensures |r| == |fus| && forall j :: 0 <= j < |fus| ==> r[j] == if j < hi then fus[j].(busy := false) else fus[j]
  {
    seq(|fus|, j requires 0 <= j < |fus| => if j < hi then fus[j].(busy := false) else fus[j])
  }

  /** cpu_process_IRQ: scoreboard, speculative stores and every unit but the load-hit unit go. */
  function TakeIrq(s: Core, vector: Word): (r: Core)
    requires ShapeOk(s)
    ensures SameShape(s, r)
  {
    s.(board := Flush(s.board), spec := [],
       fus := StopTo(s.fus, HitUnit(s)), stallEx := false, flush := true, frontPc := vector, epc := IrqEpc(s))
  }

  // ---------------------------------------------------------------- Commit

  function DrainStage(cfg: Config, s: Core): Core {
    var wait := if s.drainWait > 0 then s.drainWait - 1 else 0;
    if wait != 0 then s.(drainWait := wait)
    else
      var (r, rest) := Drain(s.committed);
      s.(committed := rest, mem := DrainWrite(s.mem, r),
         drainWait := if r.Some? then cfg.storePenalty else 0)
  }

  /** One commit port; it leaves the state alone when nothing can retire. */
  function CommitPort(s: Core): (r: Core)
    requires ShapeOk(s)
    ensures SameShape(s, r)
  {
    if !HeadReady(s.board) then s
    else
      var b := s.board;
      var e := b.entries[b.head];
      if e.isStore && |s.committed| == QDEPTH then s
      else
        var (spec, committed) :=
          if e.isStore && s.spec != [] then CommitMove(s.spec, s.committed) else (s.spec, s.committed);
        var clobber :=
          if e.rd != 0 && b.clobber[e.rd].transId == b.head then b.clobber[e.rd := IDLE] else b.clobber;
        s.(spec := spec, committed := committed,
           regs := I.SetReg(s.regs, e.rd, e.result),
           board := Retire(b.(clobber := clobber)),
           instret := s.instret + 1)
  }

  // ---------------------------------------------------------------- EX

  /** Count one unit down; at zero its result goes to the scoreboard. */
  function Tick(s: Core, j: int): Core
    requires ShapeOk(s) && 0 <= j < |s.fus|
  {
    var f := s.fus[j];
    if !f.busy then s
    else if f.remaining - 1 == 0 then
      s.(board := Complete(s.board, f.transId, f.result, f.rd),
         fus := s.fus[j := f.(remaining := 0, busy := false)])
    else s.(fus := s.fus[j := f.(remaining := f.remaining - 1)])
  }

  function TickFrom(s: Core, j: int): (r: Core)
    requires ShapeOk(s) && 0 <= j <= |s.fus|
    ensures ShapeOk(r) && |r.fus| == |s.fus|
    decreases |s.fus| - j
  {
    if j == |s.fus| then s else TickFrom(Tick(s, j), j + 1)
  }

  function FreeSlotFrom(s: Core, j: int): (r: int)
    requires MISS <= j <= |s.fus| - 1
    ensures r == -1 || (j <= r < |s.fus| - 1 && !s.fus[r].busy)
    ensures r == -1 ==> forall k :: j <= k < |s.fus| - 1 ==> s.fus[k].busy
    decreases |s.fus| - j
  {
    if j == |s.fus| - 1 then -1 else if !s.fus[j].busy then j else FreeSlotFrom(s, j + 1)
  }

  /** dcache_miss_free_slot: the first idle miss slot, -1 when all are busy. */
  function FreeSlot(s: Core): int
    requires |s.fus| >= 4
  {
    FreeSlotFrom(s, MISS)
  }

  function StartUnit(s: Core, j: int, cycles: int, v: Word): (r: Core)
    requires ShapeOk(s) && 0 <= j < |s.fus|
    ensures SameShape(s, r)
  {
    s.(fus := s.fus[j := Fu(true, cycles, v, s.exReg.rob, I.Dest(s.exReg.instr))])
  }

  function Finish(s: Core, v: Word): (r: Core)
    requires ShapeOk(s)
    ensures SameShape(s, r)
  {
    s.(board := Complete(s.board, s.exReg.rob, v, I.Dest(s.exReg.instr)))
  }

  predicate OlderInFlight(s: Core) { s.board.count != 0 && s.board.head != s.exReg.rob }

  /** ECALL/EBREAK, or a taken branch to an odd address. */
  predicate Traps(isa: I.Isa, l: Latch) {
    l.instr.kind == I.Trap ||
    (l.instr.kind == I.Branch && isa.taken(l.instr, l.x, l.y) && isa.target(l.instr, l.pc, l.x, l.y) % 2 != 0)
  }

  /** The loop that commits ready older entries before a trap; it leaves rd_clobber alone. */
  function TrapDrain(s: Core): (r: Core)
    requires ShapeOk(s)
    ensures ShapeOk(r) && |r.fus| == |s.fus|
    decreases s.board.count
  {
    if HeadReady(s.board) && s.board.head != s.exReg.rob then
      var e := s.board.entries[s.board.head];
      var (spec, committed) :=
        if e.isStore && s.spec != [] && |s.committed| < QDEPTH then CommitMove(s.spec, s.committed)
        else (s.spec, s.committed);
      TrapDrain(s.(spec := spec, committed := committed, regs := I.SetReg(s.regs, e.rd, e.result),
                   board := Retire(s.board)))
    else s
  }

  function TakeTrap(s: Core, vector: Word): (r: Core)
    requires ShapeOk(s)
    ensures SameShape(s, r)
  {
    var d := TrapDrain(s.(board := Complete(s.board, s.exReg.rob, 0, 0)));
    d.(mem := DrainAll(d.mem, d.committed), committed := [], spec := [],
       board := Flush(d.board),
       fus := StopTo(d.fus, |d.fus|), flush := true, frontPc := vector, epc := s.exReg.pc)
  }

  function StartHit(s: Core, v: Word): (r: Core)
    requires ShapeOk(s)
    ensures SameShape(s, r)
  {
    if s.fus[HitUnit(s)].busy then s else StartUnit(s, HitUnit(s), 1, v)
  }

  function StartMiss(cfg: Config, s: Core, v: Word): (r: Core)
    requires ShapeOk(s)
    ensures SameShape(s, r)
  {
    var j := FreeSlot(s);
    StartUnit(s, if j < 0 then MISS else j, cfg.missPenalty - 1, v)
  }

  function ExecLoad(cfg: Config, s: Core, cacheHit: bool): (r: Core)
    requires ShapeOk(s)
    ensures SameShape(s, r)
  {
    var i := s.exReg.instr;
    var a := I.Ea(i, s.exReg.x);
    match Forward(s.spec, s.committed, a, i.size)
    case PartialOverlap => s.(stallEx := true)
    case Hit(d) => StartHit(s, I.LoadValue(i, d))
    case Miss =>
      var v := I.LoadValue(i, ReadLE(s.mem, a, i.size));
      if cacheHit then StartHit(s, v) else StartMiss(cfg, s, v)
  }

  function ExecStore(s: Core): (r: Core)
    requires ShapeOk(s)
    ensures SameShape(s, r)
  {
    var l := s.exReg;
    var spec := if |s.spec| == QDEPTH then s.spec else s.spec + [I.StoreOf(l.instr, l.x, l.y, l.rob)];
    Finish(s.(spec := spec), 0)
  }

  function ExecAmo(isa: I.Isa, s: Core): (r: Core)
    requires ShapeOk(s)
    ensures SameShape(s, r)
  {
    var l := s.exReg;
    var e := I.AmoStore(isa, l.instr, l.x, l.y, s.mem);
    Finish(s.(mem := Write(s.mem, e),
              spec := InvalidateAll(s.spec, e.address, e.size),
              committed := InvalidateAll(s.committed, e.address, e.size)),
           I.LoadValue(l.instr, ReadLE(s.mem, l.x, l.instr.size)))
  }

  predicate Mispredicted(isa: I.Isa, l: Latch) {
    var taken := isa.taken(l.instr, l.x, l.y);
    taken != l.predTaken || (taken && isa.target(l.instr, l.pc, l.x, l.y) != l.predTarget)
  }

  /** Is trans_id t still valid in the scoreboard? */
  predicate LiveId(b: Board, t: int)
    requires Shape(b)
  {
    0 <= t < SIZE && b.entries[t].valid
  }

  function ExecBranch(isa: I.Isa, s: Core): (r: Core)
    requires ShapeOk(s)
    ensures SameShape(s, r)
  {
    var l := s.exReg;
    if Mispredicted(isa, l) then
      var b := FlushSpeculative(s.board, l.rob);
      FlushShape(s.board, l.rob);
      Finish(s.(flush := true,
                frontPc := I.PcAfter(isa, l.instr, l.pc, l.x, l.y),
                board := b,
                spec := DropDeadStores(s.spec, b),
                fus := seq(|s.fus|, j requires 0 <= j < |s.fus| =>
                  if s.fus[j].busy && s.fus[j].transId >= 0 && !LiveId(b, s.fus[j].transId)
                  then s.fus[j].(busy := false) else s.fus[j])),
             I.FallThrough(l.instr, l.pc))
    else Finish(s, I.FallThrough(l.instr, l.pc))
  }

  /** StoreBuffer::flush_speculative(branch, scoreboard): drop dead stores, youngest first. */
  function DropDeadStores(q: seq<StoreEntry>, b: Board): seq<StoreEntry>
    requires Shape(b)
  {
    if q == [] then []
    else if q[|q| - 1].transId >= 0 && !LiveId(b, q[|q| - 1].transId) then DropDeadStores(q[..|q| - 1], b)
    else q
  }

  lemma {:induction false} SquashShape(b: Board, i: int, end: int)
    requires Shape(b) && 0 <= i < SIZE && 0 <= end < SIZE
    ensures Shape(SquashTo(b, i, end)) && SquashTo(b, i, end).head == b.head
    decreases Place(i, end)
  {
    if i != end { SquashShape(Squash(b, i), Slot(i, 1), end); }
  }

  lemma FlushShape(b: Board, idx: int)
    requires Shape(b)
    ensures Shape(FlushSpeculative(b, idx))
  {
    if 0 <= idx < SIZE { SquashShape(b, Slot(idx, 1), b.tail); }
  }

  /** The instruction in the EX latch; nothing is executed in a cycle an interrupt took over. */
  function Execute(cfg: Config, s: Core, inp: Input): (r: Core)
    requires ShapeOk(s)
    ensures SameShape(s, r)
  {
    var l := s.exReg;
    if !l.valid || s.flush then s
    else if Traps(cfg.isa, l) then
      if OlderInFlight(s) then s.(stallEx := true) else TakeTrap(s, inp.trapVector)
    else
      match l.instr.kind
      case Alu => Finish(s, cfg.isa.compute(l.instr, l.pc, l.x, l.y))
      case Mul => StartUnit(s, MUL, 1, cfg.isa.compute(l.instr, l.pc, l.x, l.y))
      case Div => StartUnit(s, DIV, cfg.isa.divCycles(l.instr, l.x, l.y), cfg.isa.compute(l.instr, l.pc, l.x, l.y))
      case Load => ExecLoad(cfg, s, inp.cacheHit)
      case Store => ExecStore(s)
      case Amo => ExecAmo(cfg.isa, s)
      case Branch => ExecBranch(cfg.isa, s)
      case Trap => s
  }

  // ---------------------------------------------------------------- Issue

  /** An operand through the clobber table: the producer's result when it is ready, None when it
      is not, the register bank when no entry in flight writes the register. */
  function Resolve(s: Core, r: Reg): Option<Word>
    requires ShapeOk(s)
  {
    if r == 0 then Some(0)
    else
      var c := s.board.clobber[r];
      if !c.busy then Some(s.regs[r])
      else if s.board.entries[c.transId].ready then Some(s.board.entries[c.transId].result)
      else None
  }

  predicate QueuesEmpty(s: Core) { s.spec == [] && s.committed == [] }

  /** Structural hazards: a unit or queue the instruction needs is taken. */
  predicate Blocked(s: Core, k: I.Kind)
    requires |s.fus| >= 4
  {
    (k == I.Mul && s.fus[MUL].busy) ||
    (k == I.Div && s.fus[DIV].busy) ||
    ((k == I.Load || k == I.Amo) && (FreeSlot(s) < 0 || s.fus[HitUnit(s)].busy)) ||
    (k == I.Store && |s.spec| == QDEPTH) ||
    (k == I.Amo && !QueuesEmpty(s)) ||
    (k == I.Trap && exists j :: 0 <= j < |s.fus| && s.fus[j].busy)
  }

  function Bubble(s: Core): Core { s.(exNext := s.exNext.(valid := false)) }

  function Dispatch(isa: I.Isa, s: Core, x: Word, y: Word, pred: Prediction): (r: Core)
    requires ShapeOk(s)
    ensures SameShape(s, r)
  {
    var i := isa.fetch(s.frontPc);
    var (b, idx) := Allocate(s.board);
    if idx < 0 then Bubble(s)
    else
      var p := if i.kind == I.Branch then pred else Prediction(false, 0);
      var entries := b.entries[idx := b.entries[idx].(pc := s.frontPc, isStore := i.kind == I.Store)];
      var clobber := if I.Dest(i) != 0 then b.clobber[I.Dest(i) := Clobber(true, idx)] else b.clobber;
      s.(board := b.(entries := entries, clobber := clobber),
         exNext := Latch(true, i, s.frontPc, x, y, idx, p.taken, p.target),
         frontPc := if p.taken then p.target else I.FallThrough(i, s.frontPc))
  }

  function Issue(isa: I.Isa, s: Core, inp: Input): (r: Core)
    requires ShapeOk(s)
    ensures SameShape(s, r)
  {
    if s.stallEx || s.flush || inp.offer.None? || inp.bubble then Bubble(s)
    else
      var i := isa.fetch(s.frontPc);
      var x, y := Resolve(s, i.rs1), Resolve(s, i.rs2);
      if x.None? || y.None? || Blocked(s, i.kind) then Bubble(s)
      else Dispatch(isa, s, x.value, y.value, inp.offer.value)
  }

  /** PCGen consumes a redirect: everything younger in the latches is dropped. */
  function EndOfCycle(s: Core): Core {
    if s.flush then Bubble(s).(flush := false) else s
  }

  // ---------------------------------------------------------------- the cycle

  function Commit(cfg: Config, s: Core): (r: Core)
    requires ShapeOk(s)
    ensures SameShape(s, r)
  {
    CommitPort(CommitPort(DrainStage(cfg, s)))
  }

  /** State after latch transfer and interrupt check. */
  function Begin(s: Core, inp: Input): (r: Core)
    requires ShapeOk(s)
    ensures SameShape(s, r)
  {
    var t := LatchTransfer(s);
    if inp.irq.Some? then TakeIrq(t, inp.irq.value) else t
  }

  /** State in which EX looks at its latch: committed, stall cleared, units ticked. */
  function BeforeEx(cfg: Config, s: Core, inp: Input): (r: Core)
    requires ShapeOk(s)
    ensures SameShape(s, r)
  {
    TickFrom(Commit(cfg, Begin(s, inp)).(stallEx := false), 0)
  }

  function FromIssue(isa: I.Isa, e: Core, inp: Input): (r: Core)
    requires ShapeOk(e)
    ensures SameShape(e, r)
  {
    EndOfCycle(Issue(isa, e.(prevFlush := e.flush), inp))
  }

  function Cycle(cfg: Config, s: Core, inp: Input): (r: Core)
    requires ShapeOk(s)
    ensures SameShape(s, r)
  {
    FromIssue(cfg.isa, Execute(cfg, BeforeEx(cfg, s, inp), inp), inp)
  }
}
