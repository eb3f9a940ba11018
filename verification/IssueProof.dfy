/** Issue keeps the invariant: operands found through the clobber table are the sequential ones,
    and a dispatched instruction becomes the youngest entry in flight. */
module IssueProof {
  import opened Words
  import opened StoreQueue
  import opened Boards
  import opened Pipeline
  import opened Invariant
  import I = Isa

  // ---------------------------------------------------------------- operands

  /** A register nobody writes between two states of the run keeps its value. */
  lemma {:induction false} RegKept(isa: I.Isa, tr: Trace, r: Reg, i: int, j: int)
    requires Steps(isa, tr) && 0 <= i <= j < |tr|
    requires forall k :: i <= k < j ==> DestAt(isa, tr[k]) != r
    ensures tr[j].regs[r] == tr[i].regs[r]
    decreases j - i
  {
    hide I.Value;
    if i < j {
      assert Linked(isa, tr, i);
      RegKept(isa, tr, r, i + 1, j);
    }
  }

  /** Forwarding and the register bank together give the sequential operand. */
  lemma ResolveIsOperand(isa: I.Isa, tr: Trace, s: Core, p: Latch, r: Reg)
    requires Inv(isa, tr, s, p) && !p.valid && Resolve(s, r).Some?
    ensures s.board.count < |tr| && |tr[s.board.count].regs| == NREGS
    ensures Resolve(s, r).value == I.Operand(tr[s.board.count].regs, r)
  {
    hide I.Value, DestAt, Memories, Owners, LatchOk;
    var b, n := s.board, s.board.count;
    if r != 0 {
      assert ClobberOk(isa, tr, b, r);
      var c := b.clobber[r];
      if c.busy {
        var y := Place(b.head, c.transId);
        assert EntryOk(isa, tr, b, n, y);
        WrittenHere(isa, tr, r, y);
        RegKept(isa, tr, r, y + 1, n);
      } else {
        RegKept(isa, tr, r, 0, n);
      }
    }
  }

  lemma WrittenHere(isa: I.Isa, tr: Trace, r: Reg, y: int)
    requires Steps(isa, tr) && 0 <= y < |tr| - 1 && DestAt(isa, tr[y]) == r && r != 0
    ensures tr[y + 1].regs[r] == I.Value(isa, tr[y])
  {
    hide I.Value;
    assert Linked(isa, tr, y);
  }

  // ---------------------------------------------------------------- one more step of the run

  function Extended(isa: I.Isa, tr: Trace): Trace
    requires |tr| > 0 && |tr[|tr| - 1].regs| == NREGS
  {
    tr + [I.Step(isa, tr[|tr| - 1])]
  }

  lemma StepsExtend(isa: I.Isa, tr: Trace)
    requires Steps(isa, tr)
    ensures Steps(isa, Extended(isa, tr))
  {
    hide I.Step;
    var t := Extended(isa, tr);
    forall k | 0 <= k < |t| - 1 ensures Linked(isa, t, k) {
      if k < |tr| - 1 { assert Linked(isa, tr, k); }
    }
  }

  lemma {:induction false} StoreLogPrefix(isa: I.Isa, tr: Trace, t: Trace, head: int, n: nat)
    requires n <= |tr| <= |t| && t[..|tr|] == tr && forall k :: 0 <= k < |t| ==> |t[k].regs| == NREGS
    ensures (forall k :: 0 <= k < |tr| ==> |tr[k].regs| == NREGS)
    ensures StoreLog(isa, t, head, n) == StoreLog(isa, tr, head, n)
    ensures AmoBase(isa, t, n) == AmoBase(isa, tr, n)
  {
    assert forall k :: 0 <= k < |tr| ==> tr[k] == t[k];
    if n > 0 { StoreLogPrefix(isa, tr, t, head, n - 1); }
  }

  lemma MemoriesExtend(isa: I.Isa, tr: Trace, head: int, mem: Memory, spec: seq<StoreEntry>, committed: seq<StoreEntry>, ex: int)
    requires Steps(isa, tr) && 0 <= ex < |tr| && Memories(isa, tr, head, mem, spec, committed, ex)
    ensures Steps(isa, Extended(isa, tr)) && Memories(isa, Extended(isa, tr), head, mem, spec, committed, ex)
  {
    hide I.Step, I.Value;
    StepsExtend(isa, tr);
    var t := Extended(isa, tr);
    assert t[..|tr|] == tr;
    StoreLogPrefix(isa, tr, t, head, ex);
  }

  // ---------------------------------------------------------------- dispatch

  /** The scoreboard after Dispatch: a fresh youngest entry and the destination's clobber. */
  function Dispatched(b: Board, pc: Word, isStore: bool, rd: Reg): (r: Board)
    requires RingOk(b) && b.count < SIZE
  {
    var idx := b.tail;
    b.(entries := b.entries[idx := NO_ENTRY.(valid := true, transId := idx, pc := pc, isStore := isStore)],
       tail := Slot(idx, 1), count := b.count + 1,
       clobber := if rd != 0 then b.clobber[rd := Clobber(true, idx)] else b.clobber)
  }

  lemma DispatchedRing(b: Board, pc: Word, isStore: bool, rd: Reg)
    requires RingOk(b) && b.count < SIZE
    ensures var r := Dispatched(b, pc, isStore, rd);
      RingOk(r) && r.head == b.head && r.count == b.count + 1 &&
      At(r, b.count) == NO_ENTRY.(valid := true, transId := b.tail, pc := pc, isStore := isStore) &&
      forall k :: 0 <= k < b.count ==> At(r, k) == At(b, k)
  {}

  lemma InFlightDispatch(isa: I.Isa, tr: Trace, b: Board, fus: seq<Fu>)
    requires InFlight(isa, tr, b, b.count) && Owners(isa, tr, b, fus, b.count) && b.count < SIZE
    ensures var a := tr[b.count];
      var r := Dispatched(b, a.pc, IsStoreAt(isa, a), DestAt(isa, a)); var t := Extended(isa, tr);
      InFlight(isa, t, r, b.count) && Owners(isa, t, r, fus, b.count)
  {
    hide I.Value, I.Step, DestAt, IsStoreAt;
    var a := tr[b.count];
    var r, t, n := Dispatched(b, a.pc, IsStoreAt(isa, a), DestAt(isa, a)), Extended(isa, tr), b.count;
    DispatchedRing(b, a.pc, IsStoreAt(isa, a), DestAt(isa, a));
    StepsExtend(isa, tr);
    forall k | 0 <= k < r.count ensures EntryOk(isa, t, r, n, k) {
      if k < n { assert EntryOk(isa, tr, b, n, k); }
    }
    forall j | 0 <= j < |fus| ensures UnitOk(isa, t, r, n, fus, j) {
      assert UnitOk(isa, tr, b, n, fus, j);
      if fus[j].busy { assert At(r, Place(b.head, fus[j].transId)) == At(b, Place(b.head, fus[j].transId)); }
    }
    forall k | 0 <= k < n && !At(r, k).ready ensures Owned(fus, Slot(r.head, k)) {
      assert Owned(fus, Slot(b.head, k));
    }
  }

  lemma ClobbersDispatch(isa: I.Isa, tr: Trace, b: Board)
    requires RingOk(b) && b.count < SIZE && |tr| == b.count + 1 && Clobbers(isa, tr, b) && |tr[b.count].regs| == NREGS
    ensures var a := tr[b.count];
      Clobbers(isa, Extended(isa, tr), Dispatched(b, a.pc, IsStoreAt(isa, a), DestAt(isa, a)))
  {
    hide I.Step, DestAt, IsStoreAt;
    var a := tr[b.count];
    var r, t := Dispatched(b, a.pc, IsStoreAt(isa, a), DestAt(isa, a)), Extended(isa, tr);
    assert forall k :: 0 <= k < |tr| ==> t[k] == tr[k];
    forall x | 1 <= x < NREGS ensures ClobberOk(isa, t, r, x) {
      assert ClobberOk(isa, tr, b, x);
      assert Place(b.head, b.tail) == b.count;
    }
  }

  predicate Dispatches(isa: I.Isa, s: Core, inp: Input)
    requires ShapeOk(s)
  {
    !s.stallEx && !s.flush && inp.offer.Some? && !inp.bubble && s.board.count != SIZE &&
    var i := isa.fetch(s.frontPc);
    Resolve(s, i.rs1).Some? && Resolve(s, i.rs2).Some? && !Blocked(s, i.kind)
  }

  lemma BoardAfter(isa: I.Isa, s: Core, inp: Input)
    requires ShapeOk(s) && RingOk(s.board) && Dispatches(isa, s, inp)
    ensures var i := isa.fetch(s.frontPc); var r := Issue(isa, s, inp);
      r.board == Dispatched(s.board, s.frontPc, i.kind == I.Store, I.Dest(i)) &&
      r == s.(board := r.board, exNext := r.exNext, frontPc := r.frontPc)
  {
    hide I.Dest;
    var b1 := Allocate(s.board).0;
    var i := isa.fetch(s.frontPc);
    assert b1.entries[s.board.tail := b1.entries[s.board.tail].(pc := s.frontPc, isStore := i.kind == I.Store)]
      == Dispatched(s.board, s.frontPc, i.kind == I.Store, I.Dest(i)).entries;
  }

  lemma ReservedAfter(s: Core, r: Core, k: I.Kind)
    requires |s.fus| >= 4 && !Blocked(s, k) && r.fus == s.fus && r.spec == s.spec && r.committed == s.committed
    requires |s.spec| <= QDEPTH
    ensures Reserved(r, k)
  {
    if k == I.Load || k == I.Amo { assert !r.fus[FreeSlot(s)].busy; }
  }

  lemma LatchAfter(isa: I.Isa, tr: Trace, s: Core, inp: Input, p: Latch)
    requires Inv(isa, tr, s, p) && !p.valid && Dispatches(isa, s, inp)
    ensures Steps(isa, Extended(isa, tr)) && |Extended(isa, tr)| == s.board.count + 2
    ensures var r := Issue(isa, s, inp);
      ShapeOk(r) && r.board.count == s.board.count + 1 && r.exNext.valid && LatchOk(isa, Extended(isa, tr), r, r.exNext)
  {
    hide I.Value, I.Step, Owners, Clobbers, Memories, Resolve, Dispatched;
    var i := isa.fetch(s.frontPc);
    StepsExtend(isa, tr);
    BoardAfter(isa, s, inp);
    DispatchedRing(s.board, s.frontPc, i.kind == I.Store, I.Dest(i));
    ResolveIsOperand(isa, tr, s, p, i.rs1);
    ResolveIsOperand(isa, tr, s, p, i.rs2);
    var t, r := Extended(isa, tr), Issue(isa, s, inp);
    assert t[s.board.count] == tr[s.board.count];
    InvFront(isa, tr, s, p);
    ReservedAfter(s, r, i.kind);
  }

  /** A cycle's Issue: nothing in flight changes, or one instruction joins as the youngest. */
  lemma IssueKeeps(isa: I.Isa, tr: Trace, s: Core, inp: Input, p: Latch)
    requires Inv(isa, tr, s, p) && !p.valid
    ensures !Dispatches(isa, s, inp) ==> Issue(isa, s, inp) == Bubble(s)
    ensures Dispatches(isa, s, inp) ==> var r := Issue(isa, s, inp);
      r.exNext.valid && Inv(isa, Extended(isa, tr), r, r.exNext) && Extended(isa, tr)[0] == tr[0] &&
      r.instret == s.instret && r.stallEx == s.stallEx && r.flush == s.flush && r.prevFlush == s.prevFlush && r.epc == s.epc
  {
    if Dispatches(isa, s, inp) {
      hide I.Value, I.Step, Resolve, Blocked, Dispatched, LatchOk, InFlight, Owners, Clobbers, Memories, Steps;
      InvFront(isa, tr, s, p);
      BoardAfter(isa, s, inp);
      LatchAfter(isa, tr, s, inp, p);
      var i := isa.fetch(s.frontPc);
      DispatchedRing(s.board, s.frontPc, i.kind == I.Store, I.Dest(i));
      InFlightDispatch(isa, tr, s.board, s.fus);
      ClobbersDispatch(isa, tr, s.board);
      MemoriesExtend(isa, tr, s.board.head, s.mem, s.spec, s.committed, s.board.count);
    }
  }

  lemma InvFront(isa: I.Isa, tr: Trace, s: Core, p: Latch)
    requires Inv(isa, tr, s, p) && !p.valid
    ensures RingOk(s.board) && |tr| == s.board.count + 1 && |tr[s.board.count].regs| == NREGS
    ensures s.frontPc == tr[s.board.count].pc && |s.spec| <= QDEPTH
  {
    hide I.Value, I.Step;
  }
}
