/** What ties the pipeline to the sequential machine. tr is the run of the sequential machine from
    the retired state tr[0]: tr[k] is the state in which the k-th entry in flight executes. p is
    the instruction between Issue and EX (it is then the youngest entry), and the first
    Executed(..) entries have been through EX. */
module Invariant {
  import opened Words
  import opened StoreQueue
  import opened Boards
  import opened Pipeline
  import I = Isa

  type Trace = seq<I.Arch>

  ghost predicate Linked(isa: I.Isa, tr: Trace, k: int)
    requires 0 <= k < |tr| - 1 && |tr[k].regs| == NREGS
  {
    tr[k + 1] == I.Step(isa, tr[k])
  }

  ghost predicate Steps(isa: I.Isa, tr: Trace) {
    |tr| > 0 && (forall k :: 0 <= k < |tr| ==> |tr[k].regs| == NREGS) &&
    forall k :: 0 <= k < |tr| - 1 ==> Linked(isa, tr, k)
  }

  function Executed(b: Board, p: Latch): int { if p.valid then b.count - 1 else b.count }

  function DestAt(isa: I.Isa, a: I.Arch): Reg { I.Dest(I.At(isa, a)) }

  predicate IsStoreAt(isa: I.Isa, a: I.Arch) { I.At(isa, a).kind == I.Store }

  // ---------------------------------------------------------------- scoreboard entries

  /** Entry k is for the instruction at tr[k]; once ready it holds the sequential result. */
  ghost predicate EntryOk(isa: I.Isa, tr: Trace, b: Board, ex: int, k: int)
    requires Shape(b) && 0 <= k < SIZE && k < |tr| && |tr[k].regs| == NREGS
  {
    var e, a := At(b, k), tr[k];
    e.pc == a.pc && e.isStore == IsStoreAt(isa, a) &&
    (e.ready ==> k < ex && e.result == I.Value(isa, a) && e.rd == DestAt(isa, a))
  }

  ghost predicate InFlight(isa: I.Isa, tr: Trace, b: Board, ex: int) {
    RingOk(b) && Steps(isa, tr) && |tr| == b.count + 1 && 0 <= ex <= b.count &&
    forall k :: 0 <= k < b.count ==> EntryOk(isa, tr, b, ex, k)
  }

  // ---------------------------------------------------------------- ownership

  /** A busy unit works for a live entry that is not ready, and carries its sequential result. */
  ghost predicate UnitOk(isa: I.Isa, tr: Trace, b: Board, ex: int, fus: seq<Fu>, j: int)
    requires InFlight(isa, tr, b, ex) && 0 <= j < |fus|
  {
    var f := fus[j];
    f.busy ==>
      0 <= f.transId < SIZE && Place(b.head, f.transId) < ex && !b.entries[f.transId].ready && f.remaining >= 1 &&
      var a := tr[Place(b.head, f.transId)];
      f.result == I.Value(isa, a) && f.rd == DestAt(isa, a) && !IsStoreAt(isa, a)
  }

  ghost predicate Owned(fus: seq<Fu>, t: int) {
    exists j :: 0 <= j < |fus| && fus[j].busy && fus[j].transId == t
  }

  /** Every executed entry that is not ready is owned by one busy unit, and by one only. */
  ghost predicate Owners(isa: I.Isa, tr: Trace, b: Board, fus: seq<Fu>, ex: int)
    requires InFlight(isa, tr, b, ex)
  {
    (forall j :: 0 <= j < |fus| ==> UnitOk(isa, tr, b, ex, fus, j)) &&
    (forall i, j :: 0 <= i < j < |fus| && fus[i].busy && fus[j].busy ==> fus[i].transId != fus[j].transId) &&
    (forall k :: 0 <= k < ex && !At(b, k).ready ==> Owned(fus, Slot(b.head, k))) &&
    |fus| >= 4 && (fus[|fus| - 1].busy ==> fus[|fus| - 1].remaining == 1)
  }

  // ---------------------------------------------------------------- clobber table

  /** busy iff some entry in flight writes r, and then trans_id names the youngest such entry. */
  ghost predicate ClobberOk(isa: I.Isa, tr: Trace, b: Board, r: Reg)
    requires Shape(b) && |tr| == b.count + 1
  {
    var c := b.clobber[r];
    if c.busy then
      var y := Place(b.head, c.transId);
      0 <= c.transId < SIZE && y < b.count && DestAt(isa, tr[y]) == r &&
      forall k :: y < k < b.count ==> DestAt(isa, tr[k]) != r
    else
      c.transId == -1 && forall k :: 0 <= k < b.count ==> DestAt(isa, tr[k]) != r
  }

  ghost predicate Clobbers(isa: I.Isa, tr: Trace, b: Board)
    requires Shape(b) && |tr| == b.count + 1
  {
    forall r :: 1 <= r < NREGS ==> ClobberOk(isa, tr, b, r)
  }

  // ---------------------------------------------------------------- memory

  /** The stores among the first n entries in flight, in program order, as buffer entries. */
  ghost function StoreLog(isa: I.Isa, tr: Trace, head: int, n: nat): seq<StoreEntry>
    requires n <= |tr| && forall k :: 0 <= k < |tr| ==> |tr[k].regs| == NREGS
  {
    if n == 0 then []
    else
      var a := tr[n - 1];
      StoreLog(isa, tr, head, n - 1) +
      if IsStoreAt(isa, a) then [I.StoreOf(I.At(isa, a), I.X(isa, a), I.Y(isa, a), Slot(head, n - 1))] else []
  }

  /** One past the last AMO among the first n entries; 0 when there is none. */
  ghost function AmoBase(isa: I.Isa, tr: Trace, n: nat): (r: nat)
    requires n <= |tr|
    ensures r <= n
  {
    if n == 0 then 0
    else if I.At(isa, tr[n - 1]).kind == I.Amo then n
    else AmoBase(isa, tr, n - 1)
  }

  ghost predicate QueueOk(q: seq<StoreEntry>) {
    |q| <= QDEPTH && AllClear(q) && forall i :: 0 <= i < |q| ==> q[i].valid
  }

  /** The speculative queue is the log of executed stores in flight; memory seen through both
      queues is that of the executed prefix, seen through the committed queue alone that of the
      retired prefix (or, with an executed AMO in flight, of the prefix through that AMO). */
  ghost predicate Memories(isa: I.Isa, tr: Trace, head: int, mem: Memory,
                           spec: seq<StoreEntry>, committed: seq<StoreEntry>, ex: int)
    requires Steps(isa, tr) && 0 <= ex < |tr|
  {
    QueueOk(spec) && QueueOk(committed) &&
    spec == StoreLog(isa, tr, head, ex) &&
    Overlay(mem, committed + spec) == tr[ex].mem &&
    Overlay(mem, committed) == tr[AmoBase(isa, tr, ex)].mem &&
    (AmoBase(isa, tr, ex) > 0 ==> committed == []) &&
    forall k :: 0 <= k < AmoBase(isa, tr, ex) ==> !IsStoreAt(isa, tr[k])
  }

  // ---------------------------------------------------------------- the latch and the front end

  /** The instruction waiting for EX is the youngest entry, its operands are the sequential ones
      and what Issue reserved for it is still free. */
  ghost predicate LatchOk(isa: I.Isa, tr: Trace, s: Core, p: Latch)
    requires ShapeOk(s) && Steps(isa, tr) && |tr| == s.board.count + 1
  {
    if p.valid then
      s.board.count > 0 &&
      var n := s.board.count - 1; var a := tr[n];
      p.rob == Slot(s.board.head, n) && p.pc == a.pc && p.instr == I.At(isa, a) &&
      p.x == I.X(isa, a) && p.y == I.Y(isa, a) &&
      (p.instr.kind != I.Branch ==> !p.predTaken) &&
      s.frontPc == (if p.predTaken then p.predTarget else I.FallThrough(p.instr, p.pc)) &&
      Reserved(s, p.instr.kind)
    else s.frontPc == tr[s.board.count].pc
  }

  ghost predicate Reserved(s: Core, k: I.Kind)
    requires |s.fus| >= 4
  {
    (k == I.Mul ==> !s.fus[MUL].busy) && (k == I.Div ==> !s.fus[DIV].busy) &&
    (k == I.Load || k == I.Amo ==>
      !s.fus[HitUnit(s)].busy && exists j :: MISS <= j < HitUnit(s) && !s.fus[j].busy) &&
    (k == I.Store ==> |s.spec| < QDEPTH) &&
    (k == I.Amo ==> QueuesEmpty(s))
  }

  // ---------------------------------------------------------------- all together

  ghost predicate Inv(isa: I.Isa, tr: Trace, s: Core, p: Latch) {
    ShapeOk(s) && Steps(isa, tr) && |tr| == s.board.count + 1 && (p.valid ==> s.board.count > 0) &&
    InFlight(isa, tr, s.board, Executed(s.board, p)) &&
    s.regs == tr[0].regs &&
    Owners(isa, tr, s.board, s.fus, Executed(s.board, p)) &&
    Clobbers(isa, tr, s.board) &&
    Memories(isa, tr, s.board.head, s.mem, s.spec, s.committed, Executed(s.board, p)) &&
    LatchOk(isa, tr, s, p)
  }

  const NO_LATCH := Latch(false, I.Instr(I.Alu, 0, 0, 0, 0, 1, false, 4, 0), 0, 0, 0, -1, false, 0)

  /** The latch that EX will see next. */
  function Pending(s: Core): Latch {
    if s.prevFlush then NO_LATCH else if s.stallEx then s.exReg else s.exNext
  }

  /** The latches between two cycles. */
  ghost predicate LatchesOk(s: Core) {
    !s.flush && (s.prevFlush ==> !s.stallEx && !s.exNext.valid) && (s.stallEx ==> s.exReg.valid && !s.exNext.valid)
  }

  /** The state between two cycles agrees with the sequential machine whose retired state is tr[0]. */
  ghost predicate Agrees(isa: I.Isa, tr: Trace, s: Core) {
    LatchesOk(s) && Inv(isa, tr, s, Pending(s))
  }

  /** What the memory operation about to execute must satisfy for this model to apply: natural
      alignment (loads and stores), and staying clear of the last byte of the address space. */
  predicate InScope(l: Latch) {
    var a := I.Ea(l.instr, l.x);
    l.valid && l.instr.kind in {I.Load, I.Store, I.Amo} ==>
      Clear(a, l.instr.size) && (l.instr.kind != I.Amo ==> Natural(a, l.instr.size))
  }
}
