/** EX keeps the invariant: every unit tick, and every instruction leaving the EX latch, records
    exactly the sequential result against the right entry. */
module ExProof {
  import opened Words
  import opened StoreQueue
  import opened Boards
  import opened Pipeline
  import opened Invariant
  import I = Isa

  // ---------------------------------------------------------------- recording a result

  /** Completing a live entry with its sequential result, rd and no owner left. */
  lemma CompleteInFlight(isa: I.Isa, tr: Trace, b: Board, ex: int, ex': int, t: int, v: Word, rd: Reg)
    requires InFlight(isa, tr, b, ex) && ex <= ex' <= b.count
    requires 0 <= t < SIZE && Place(b.head, t) < ex'
    requires var a := tr[Place(b.head, t)]; v == I.Value(isa, a) && rd == DestAt(isa, a)
    ensures InFlight(isa, tr, Complete(b, t, v, rd), ex')
  {
    hide I.Value, I.Step, DestAt;
    CompleteUpdates(b, t, v, rd);
    var r := Complete(b, t, v, rd);
    forall k | 0 <= k < b.count ensures EntryOk(isa, tr, r, ex', k) {
      assert EntryOk(isa, tr, b, ex, k);
    }
  }

  /** A unit that reaches zero hands its result to the entry it works for. */
  lemma OwnersComplete(isa: I.Isa, tr: Trace, b: Board, fus: seq<Fu>, ex: int, j: int, f: Fu)
    requires InFlight(isa, tr, b, ex) && Owners(isa, tr, b, fus, ex)
    requires 0 <= j < |fus| && fus[j].busy && !f.busy
    ensures var r := Complete(b, fus[j].transId, fus[j].result, fus[j].rd);
      InFlight(isa, tr, r, ex) && Owners(isa, tr, r, fus[j := f], ex)
  {
    hide I.Value, I.Step, DestAt;
    var u := fus[j];
    assert UnitOk(isa, tr, b, ex, fus, j);
    CompleteInFlight(isa, tr, b, ex, ex, u.transId, u.result, u.rd);
    CompleteUpdates(b, u.transId, u.result, u.rd);
    var r, fs := Complete(b, u.transId, u.result, u.rd), fus[j := f];
    forall i | 0 <= i < |fs| ensures UnitOk(isa, tr, r, ex, fs, i) {
      assert UnitOk(isa, tr, b, ex, fus, i);
      assert i != j && fus[i].busy ==> fus[i].transId != u.transId;
    }
    forall k | 0 <= k < ex && !At(r, k).ready ensures Owned(fs, Slot(r.head, k)) {
      assert Owned(fus, Slot(b.head, k));
      var i :| 0 <= i < |fus| && fus[i].busy && fus[i].transId == Slot(b.head, k);
      assert fs[i].busy && fs[i].transId == Slot(b.head, k);
    }
  }

  lemma OwnersCountDown(isa: I.Isa, tr: Trace, b: Board, fus: seq<Fu>, ex: int, j: int)
    requires InFlight(isa, tr, b, ex) && Owners(isa, tr, b, fus, ex)
    requires 0 <= j < |fus| && fus[j].busy && fus[j].remaining - 1 != 0
    ensures Owners(isa, tr, b, fus[j := fus[j].(remaining := fus[j].remaining - 1)], ex)
  {
    hide I.Value, I.Step, DestAt;
    var fs := fus[j := fus[j].(remaining := fus[j].remaining - 1)];
    assert UnitOk(isa, tr, b, ex, fus, j);
    forall i | 0 <= i < |fs| ensures UnitOk(isa, tr, b, ex, fs, i) {
      assert UnitOk(isa, tr, b, ex, fus, i);
    }
    forall k | 0 <= k < ex && !At(b, k).ready ensures Owned(fs, Slot(b.head, k)) {
      assert Owned(fus, Slot(b.head, k));
      var i :| 0 <= i < |fus| && fus[i].busy && fus[i].transId == Slot(b.head, k);
      assert fs[i].busy && fs[i].transId == Slot(b.head, k);
    }
  }

  /** The clobber table and the latch look at the scoreboard's head, count and clobbers only. */
  lemma SameTable(isa: I.Isa, tr: Trace, b: Board, r: Board)
    requires Shape(b) && Shape(r) && |tr| == b.count + 1 && Clobbers(isa, tr, b)
    requires r.head == b.head && r.count == b.count && r.clobber == b.clobber
    ensures Clobbers(isa, tr, r)
  {
    forall x | 1 <= x < NREGS ensures ClobberOk(isa, tr, r, x) { assert ClobberOk(isa, tr, b, x); }
  }

  /** The latch stays good while its entry stays the youngest and what it needs stays free. */
  lemma LatchFrame(isa: I.Isa, tr: Trace, s: Core, r: Core, p: Latch)
    requires ShapeOk(s) && SameShape(s, r) && Steps(isa, tr) && |tr| == s.board.count + 1 && LatchOk(isa, tr, s, p)
    requires r.board.count == s.board.count && r.board.head == s.board.head
    requires r.frontPc == s.frontPc && |r.spec| <= |s.spec| && (QueuesEmpty(s) ==> QueuesEmpty(r))
    requires forall j :: 0 <= j < |s.fus| && !s.fus[j].busy ==> !r.fus[j].busy
    ensures LatchOk(isa, tr, r, p)
  {
    hide I.Value, I.Step, Steps;
  }

  lemma TickKeeps(isa: I.Isa, tr: Trace, s: Core, p: Latch, j: int)
    requires Inv(isa, tr, s, p) && 0 <= j < |s.fus|
    ensures Inv(isa, tr, Tick(s, j), p)
    ensures var r := Tick(s, j);
      r.exReg == s.exReg && r.flush == s.flush && r.stallEx == s.stallEx && r.instret == s.instret && |r.fus| == |s.fus|
  {
    hide I.Value, I.Step, DestAt, InFlight, Owners, Clobbers, Memories, Steps;
    var u, ex := s.fus[j], Executed(s.board, p);
    if u.busy {
      UnitLive(isa, tr, s.board, s.fus, ex, j);
      if u.remaining - 1 == 0 {
        OwnersComplete(isa, tr, s.board, s.fus, ex, j, u.(remaining := 0, busy := false));
        SameTable(isa, tr, s.board, Complete(s.board, u.transId, u.result, u.rd));
      } else {
        OwnersCountDown(isa, tr, s.board, s.fus, ex, j);
      }
      LatchFrame(isa, tr, s, Tick(s, j), p);
    }
  }

  lemma UnitLive(isa: I.Isa, tr: Trace, b: Board, fus: seq<Fu>, ex: int, j: int)
    requires InFlight(isa, tr, b, ex) && Owners(isa, tr, b, fus, ex) && 0 <= j < |fus| && fus[j].busy
    ensures 0 <= fus[j].transId < SIZE && RingOk(b) && |tr| == b.count + 1
  {
    assert UnitOk(isa, tr, b, ex, fus, j);
  }

  lemma {:induction false} TickFromKeeps(isa: I.Isa, tr: Trace, s: Core, p: Latch, j: int)
    requires Inv(isa, tr, s, p) && 0 <= j <= |s.fus|
    ensures Inv(isa, tr, TickFrom(s, j), p)
    ensures var r := TickFrom(s, j);
      r.exReg == s.exReg && r.flush == s.flush && r.stallEx == s.stallEx && r.instret == s.instret
    decreases |s.fus| - j
  {
    hide InFlight, Owners, Clobbers, Memories, LatchOk, Steps;
    if j < |s.fus| {
      TickKeeps(isa, tr, s, p, j);
      TickFromKeeps(isa, tr, Tick(s, j), p, j + 1);
    }
  }

  // ---------------------------------------------------------------- the instruction in the latch

  /** EX is about to run the youngest entry: its latch is s.exReg. */
  ghost predicate Ready(isa: I.Isa, tr: Trace, s: Core) {
    Inv(isa, tr, s, s.exReg) && s.exReg.valid && !s.flush
  }

  /** The youngest entry, the state it executes in and what its latch holds. */
  lemma Youngest(isa: I.Isa, tr: Trace, s: Core)
    requires Ready(isa, tr, s)
    ensures RingOk(s.board) && Steps(isa, tr) && s.board.count > 0 && |tr| == s.board.count + 1
    ensures var n := s.board.count - 1; var a, l := tr[n], s.exReg;
      l.rob == Slot(s.board.head, n) && 0 <= l.rob < SIZE && Place(s.board.head, l.rob) == n &&
      l.instr == I.At(isa, a) && l.pc == a.pc && l.x == I.X(isa, a) && l.y == I.Y(isa, a) &&
      tr[n + 1] == I.Step(isa, a)
  {
    hide I.Value, I.Step;
    assert Linked(isa, tr, s.board.count - 1);
  }

  /** Executing the youngest entry at once: it becomes ready with the sequential result. */
  lemma OwnersFinish(isa: I.Isa, tr: Trace, b: Board, fus: seq<Fu>, t: int, v: Word, rd: Reg)
    requires b.count > 0 && InFlight(isa, tr, b, b.count - 1) && Owners(isa, tr, b, fus, b.count - 1)
    requires t == Slot(b.head, b.count - 1)
    requires var a := tr[b.count - 1]; v == I.Value(isa, a) && rd == DestAt(isa, a)
    ensures var r := Complete(b, t, v, rd);
      InFlight(isa, tr, r, r.count) && Owners(isa, tr, r, fus, r.count)
  {
    hide I.Value, I.Step, DestAt;
    CompleteInFlight(isa, tr, b, b.count - 1, b.count, t, v, rd);
    CompleteUpdates(b, t, v, rd);
    var r := Complete(b, t, v, rd);
    forall i | 0 <= i < |fus| ensures UnitOk(isa, tr, r, b.count, fus, i) {
      assert UnitOk(isa, tr, b, b.count - 1, fus, i);
    }
    forall k | 0 <= k < r.count && !At(r, k).ready ensures Owned(fus, Slot(r.head, k)) {
      assert Owned(fus, Slot(b.head, k));
    }
  }

  lemma InFlightMore(isa: I.Isa, tr: Trace, b: Board)
    requires b.count > 0 && InFlight(isa, tr, b, b.count - 1)
    ensures InFlight(isa, tr, b, b.count) && !At(b, b.count - 1).ready
  {
    hide I.Value, I.Step, DestAt;
    forall k | 0 <= k < b.count ensures EntryOk(isa, tr, b, b.count, k) {
      assert EntryOk(isa, tr, b, b.count - 1, k);
    }
    assert EntryOk(isa, tr, b, b.count - 1, b.count - 1);
  }

  /** Handing the youngest entry to an idle unit: that unit becomes its one owner. */
  lemma OwnersStart(isa: I.Isa, tr: Trace, b: Board, fus: seq<Fu>, j: int, f: Fu)
    requires b.count > 0 && InFlight(isa, tr, b, b.count - 1) && Owners(isa, tr, b, fus, b.count - 1)
    requires 0 <= j < |fus| && !fus[j].busy && f.busy && f.remaining >= 1 && f.transId == Slot(b.head, b.count - 1)
    requires j == |fus| - 1 ==> f.remaining == 1
    requires var a := tr[b.count - 1]; f.result == I.Value(isa, a) && f.rd == DestAt(isa, a) && !IsStoreAt(isa, a)
    ensures InFlight(isa, tr, b, b.count) && Owners(isa, tr, b, fus[j := f], b.count)
  {
    hide I.Value, I.Step, DestAt;
    InFlightMore(isa, tr, b);
    var fs := fus[j := f];
    assert Place(b.head, f.transId) == b.count - 1;
    forall i | 0 <= i < |fs| ensures UnitOk(isa, tr, b, b.count, fs, i) {
      assert UnitOk(isa, tr, b, b.count - 1, fus, i);
    }
    forall i, k | 0 <= i < k < |fs| && fs[i].busy && fs[k].busy ensures fs[i].transId != fs[k].transId {
      assert UnitOk(isa, tr, b, b.count - 1, fus, i) && UnitOk(isa, tr, b, b.count - 1, fus, k);
    }
    forall k | 0 <= k < b.count && !At(b, k).ready ensures Owned(fs, Slot(b.head, k)) {
      if k == b.count - 1 {
        assert fs[j].busy && fs[j].transId == Slot(b.head, k);
      } else {
        assert Owned(fus, Slot(b.head, k));
        var i :| 0 <= i < |fus| && fus[i].busy && fus[i].transId == Slot(b.head, k);
        assert fs[i].busy && fs[i].transId == Slot(b.head, k);
      }
    }
  }

  // ---------------------------------------------------------------- memory

  /** Executing an instruction that does not write memory. */
  lemma MemoriesOther(isa: I.Isa, tr: Trace, head: int, mem: Memory, spec: seq<StoreEntry>, committed: seq<StoreEntry>, n: int)
    requires Steps(isa, tr) && 0 <= n < |tr| - 1 && Memories(isa, tr, head, mem, spec, committed, n)
    requires I.At(isa, tr[n]).kind != I.Store && I.At(isa, tr[n]).kind != I.Amo
    ensures Memories(isa, tr, head, mem, spec, committed, n + 1)
  {
    assert Linked(isa, tr, n);
    assert StoreLog(isa, tr, head, n + 1) == StoreLog(isa, tr, head, n);
    assert AmoBase(isa, tr, n + 1) == AmoBase(isa, tr, n);
    assert tr[n + 1].mem == tr[n].mem;
  }

  /** Executing a store appends it to the speculative queue; there is always a free slot. */
  lemma MemoriesStore(isa: I.Isa, tr: Trace, head: int, mem: Memory, spec: seq<StoreEntry>, committed: seq<StoreEntry>, n: int)
    requires Steps(isa, tr) && 0 <= n < |tr| - 1 && Memories(isa, tr, head, mem, spec, committed, n)
    requires IsStoreAt(isa, tr[n]) && |spec| < QDEPTH
    requires Clear(I.Ea(I.At(isa, tr[n]), I.X(isa, tr[n])), I.At(isa, tr[n]).size)
    ensures var e := I.StoreOf(I.At(isa, tr[n]), I.X(isa, tr[n]), I.Y(isa, tr[n]), Slot(head, n));
      Memories(isa, tr, head, mem, spec + [e], committed, n + 1)
  {
    var e := I.StoreOf(I.At(isa, tr[n]), I.X(isa, tr[n]), I.Y(isa, tr[n]), Slot(head, n));
    assert StoreLog(isa, tr, head, n + 1) == StoreLog(isa, tr, head, n) + [e];
    assert AmoBase(isa, tr, n + 1) == AmoBase(isa, tr, n);
    assert Overlay(mem, committed + (spec + [e])) == tr[n + 1].mem by {
      assert (committed + (spec + [e]))[..|committed + spec|] == committed + spec;
      assert Linked(isa, tr, n);
    }
  }

  /** Executing an AMO: both queues are empty, so memory itself is current and is written. */
  lemma MemoriesAmo(isa: I.Isa, tr: Trace, head: int, mem: Memory, n: int)
    requires Steps(isa, tr) && 0 <= n < |tr| - 1 && Memories(isa, tr, head, mem, [], [], n)
    requires I.At(isa, tr[n]).kind == I.Amo
    ensures mem == tr[n].mem
    ensures Memories(isa, tr, head, Write(mem, I.AmoStore(isa, I.At(isa, tr[n]), I.X(isa, tr[n]), I.Y(isa, tr[n]), mem)), [], [], n + 1)
  {
    var m := Write(mem, I.AmoStore(isa, I.At(isa, tr[n]), I.X(isa, tr[n]), I.Y(isa, tr[n]), mem));
    var none: seq<StoreEntry> := [];
    assert none + none == none;
    assert Linked(isa, tr, n);
    assert m == tr[n + 1].mem;
    assert StoreLog(isa, tr, head, n) == [];
    assert AmoBase(isa, tr, n + 1) == n + 1;
    forall k | 0 <= k < n + 1 ensures !IsStoreAt(isa, tr[k]) {
      if k < n { NoStoreInEmptyLog(isa, tr, head, n, k); }
    }
  }

  lemma {:induction false} NoStoreInEmptyLog(isa: I.Isa, tr: Trace, head: int, n: nat, k: int)
    requires n <= |tr| && (forall i :: 0 <= i < |tr| ==> |tr[i].regs| == NREGS)
    requires StoreLog(isa, tr, head, n) == [] && 0 <= k < n
    ensures !IsStoreAt(isa, tr[k])
  {
    if k < n - 1 { NoStoreInEmptyLog(isa, tr, head, n - 1, k); }
  }

  // ---------------------------------------------------------------- putting EX together

  /** The invariant after the youngest entry has been through EX. */
  lemma Assemble(isa: I.Isa, tr: Trace, s: Core, r: Core, p: Latch)
    requires Ready(isa, tr, s) && SameShape(s, r) && !p.valid
    requires r.board.head == s.board.head && r.board.count == s.board.count && r.board.clobber == s.board.clobber
    requires InFlight(isa, tr, r.board, r.board.count) && Owners(isa, tr, r.board, r.fus, r.board.count)
    requires Memories(isa, tr, r.board.head, r.mem, r.spec, r.committed, r.board.count)
    requires r.regs == s.regs && r.frontPc == tr[r.board.count].pc
    ensures Inv(isa, tr, r, p)
  {
    hide I.Value, I.Step, InFlight, Owners, Clobbers, Memories, Steps;
    SameTable(isa, tr, s.board, r.board);
  }

  /** Without a branch the front end went on to the next instruction. */
  lemma FrontFollows(isa: I.Isa, tr: Trace, s: Core)
    requires Ready(isa, tr, s) && s.exReg.instr.kind != I.Branch
    ensures s.board.count < |tr| && s.frontPc == tr[s.board.count].pc
  {
    Youngest(isa, tr, s);
  }

  /** The invariant's parts, for callers that keep it folded. */
  lemma Parts(isa: I.Isa, tr: Trace, s: Core)
    requires Ready(isa, tr, s)
    ensures ShapeOk(s) && Steps(isa, tr) && s.board.count > 0 && |tr| == s.board.count + 1
    ensures var n := s.board.count - 1;
      InFlight(isa, tr, s.board, n) && Owners(isa, tr, s.board, s.fus, n) &&
      Memories(isa, tr, s.board.head, s.mem, s.spec, s.committed, n) && Reserved(s, s.exReg.instr.kind)
  {
    hide I.Value, I.Step, InFlight, Owners, Clobbers, Memories, Steps;
  }

  lemma FinishKeeps(isa: I.Isa, tr: Trace, s: Core, mem: Memory, spec: seq<StoreEntry>, committed: seq<StoreEntry>,
                    v: Word, p: Latch)
    requires Ready(isa, tr, s) && s.exReg.instr.kind != I.Branch && !p.valid
    requires v == I.Value(isa, tr[s.board.count - 1])
    requires Memories(isa, tr, s.board.head, mem, spec, committed, s.board.count)
    ensures ShapeOk(s.(mem := mem, spec := spec, committed := committed))
    ensures Inv(isa, tr, Finish(s.(mem := mem, spec := spec, committed := committed), v), p)
  {
    hide I.Value, I.Step, InFlight, Owners, Clobbers, Memories, Steps, LatchOk, Reserved;
    Youngest(isa, tr, s);
    Parts(isa, tr, s);
    FrontFollows(isa, tr, s);
    OwnersFinish(isa, tr, s.board, s.fus, s.exReg.rob, v, I.Dest(s.exReg.instr));
    Assemble(isa, tr, s, Finish(s.(mem := mem, spec := spec, committed := committed), v), p);
  }

  lemma StartKeeps(isa: I.Isa, tr: Trace, s: Core, j: int, cycles: int, v: Word, p: Latch)
    requires Ready(isa, tr, s) && s.exReg.instr.kind !in {I.Branch, I.Store, I.Amo} && !p.valid
    requires v == I.Value(isa, tr[s.board.count - 1])
    requires 0 <= j < |s.fus| && !s.fus[j].busy && cycles >= 1 && (j == HitUnit(s) ==> cycles == 1)
    ensures Inv(isa, tr, StartUnit(s, j, cycles, v), p)
  {
    hide I.Value, I.Step, InFlight, Owners, Clobbers, Memories, Steps, LatchOk, Reserved;
    Youngest(isa, tr, s);
    Parts(isa, tr, s);
    FrontFollows(isa, tr, s);
    var r := StartUnit(s, j, cycles, v);
    OwnersStart(isa, tr, s.board, s.fus, j, r.fus[j]);
    MemoriesOther(isa, tr, s.board.head, s.mem, s.spec, s.committed, s.board.count - 1);
    Assemble(isa, tr, s, r, p);
  }

  /** Issue left a miss slot and the load-hit unit free, so neither fallback of the load path is taken. */
  lemma LoadUnitsFree(isa: I.Isa, tr: Trace, s: Core)
    requires Ready(isa, tr, s) && (s.exReg.instr.kind == I.Load || s.exReg.instr.kind == I.Amo)
    ensures !s.fus[HitUnit(s)].busy && FreeSlot(s) >= 0
  {
    Parts(isa, tr, s);
    hide Inv;
  }

  /** A load sees the memory of the sequential machine, or waits. */
  lemma LoadSees(isa: I.Isa, tr: Trace, s: Core)
    requires Ready(isa, tr, s) && s.exReg.instr.kind == I.Load && InScope(s.exReg)
    ensures var i := s.exReg.instr; var a := I.Ea(i, s.exReg.x); var want := I.Value(isa, tr[s.board.count - 1]);
      match Forward(s.spec, s.committed, a, i.size)
      case PartialOverlap => true
      case Hit(d) => I.LoadValue(i, d) == want
      case Miss => I.LoadValue(i, ReadLE(s.mem, a, i.size)) == want
  {
    Youngest(isa, tr, s);
    Parts(isa, tr, s);
    hide Inv, Owners, InFlight, Steps, I.Step, I.LoadValue;
    ForwardMeaning(s.mem, s.spec, s.committed, I.Ea(s.exReg.instr, s.exReg.x), s.exReg.instr.size);
  }

  lemma LoadKeeps(cfg: Config, tr: Trace, s: Core, cacheHit: bool, p: Latch)
    requires Ready(cfg.isa, tr, s) && s.exReg.instr.kind == I.Load && InScope(s.exReg) && !p.valid && !s.stallEx
    ensures var r := ExecLoad(cfg, s, cacheHit);
      (r.stallEx ==> r == s.(stallEx := true)) && (!r.stallEx ==> Inv(cfg.isa, tr, r, p))
  {
    hide I.Value, I.Step, Inv, I.LoadValue, Forward, Clear, Natural;
    InvShape(cfg.isa, tr, s);
    LoadUnitsFree(cfg.isa, tr, s);
    LoadSees(cfg.isa, tr, s);
    var i := s.exReg.instr;
    var a := I.Ea(i, s.exReg.x);
    match Forward(s.spec, s.committed, a, i.size)
    case PartialOverlap =>
    case Hit(d) => StartKeeps(cfg.isa, tr, s, HitUnit(s), 1, I.LoadValue(i, d), p);
    case Miss =>
      var v := I.LoadValue(i, ReadLE(s.mem, a, i.size));
      StartKeeps(cfg.isa, tr, s, HitUnit(s), 1, v, p);
      StartKeeps(cfg.isa, tr, s, FreeSlot(s), cfg.missPenalty - 1, v, p);
  }

  lemma InvShape(isa: I.Isa, tr: Trace, s: Core)
    requires Ready(isa, tr, s)
    ensures ShapeOk(s) && Steps(isa, tr) && s.board.count > 0 && |tr| == s.board.count + 1
  {
    Parts(isa, tr, s);
  }

  lemma StoreKeeps(isa: I.Isa, tr: Trace, s: Core, p: Latch)
    requires Ready(isa, tr, s) && s.exReg.instr.kind == I.Store && InScope(s.exReg) && !p.valid
    ensures Inv(isa, tr, ExecStore(s), p)
    ensures |s.spec| < QDEPTH
  {
    Youngest(isa, tr, s);
    Parts(isa, tr, s);
    hide InFlight, Owners, Clobbers, Memories, Steps, I.Step, LatchOk;
    var l, n := s.exReg, s.board.count - 1;
    MemoriesStore(isa, tr, s.board.head, s.mem, s.spec, s.committed, n);
    FinishKeeps(isa, tr, s, s.mem, s.spec + [I.StoreOf(l.instr, l.x, l.y, l.rob)], s.committed, 0, p);
  }

  lemma AmoKeeps(isa: I.Isa, tr: Trace, s: Core, p: Latch)
    requires Ready(isa, tr, s) && s.exReg.instr.kind == I.Amo && !p.valid
    ensures Inv(isa, tr, ExecAmo(isa, s), p)
    ensures QueuesEmpty(s)
  {
    Youngest(isa, tr, s);
    Parts(isa, tr, s);
    hide InFlight, Owners, Clobbers, Memories, Steps, I.Step, LatchOk;
    var l, n := s.exReg, s.board.count - 1;
    MemoriesAmo(isa, tr, s.board.head, s.mem, n);
    var e := I.AmoStore(isa, l.instr, l.x, l.y, s.mem);
    assert InvalidateAll(s.spec, e.address, e.size) == [] && InvalidateAll(s.committed, e.address, e.size) == [];
    FinishKeeps(isa, tr, s, Write(s.mem, e), [], [], I.LoadValue(l.instr, ReadLE(s.mem, l.x, l.instr.size)), p);
  }

  // ---------------------------------------------------------------- branches

  lemma {:induction false} StoreLogIds(isa: I.Isa, tr: Trace, head: int, n: nat, i: int)
    requires n <= |tr| && (forall k :: 0 <= k < |tr| ==> |tr[k].regs| == NREGS)
    requires 0 <= i < |StoreLog(isa, tr, head, n)|
    ensures exists k :: 0 <= k < n && StoreLog(isa, tr, head, n)[i].transId == Slot(head, k)
  {
    if i < |StoreLog(isa, tr, head, n - 1)| {
      StoreLogIds(isa, tr, head, n - 1, i);
    } else {
      assert StoreLog(isa, tr, head, n)[i].transId == Slot(head, n - 1);
    }
  }

  lemma StoresLive(isa: I.Isa, tr: Trace, s: Core)
    requires Ready(isa, tr, s)
    ensures ShapeOk(s) && DropDeadStores(s.spec, s.board) == s.spec
  {
    Parts(isa, tr, s);
    hide Inv, Owners, Clobbers, Steps, I.Step, LatchOk, I.Value, I.StoreOf;
    var b, n := s.board, s.board.count - 1;
    if s.spec != [] {
      StoreLogIds(isa, tr, b.head, n, |s.spec| - 1);
      var k :| 0 <= k < n && s.spec[|s.spec| - 1].transId == Slot(b.head, k);
      assert At(b, k).valid;
    }
  }

  lemma UnitsLive(isa: I.Isa, tr: Trace, s: Core)
    requires Ready(isa, tr, s)
    ensures ShapeOk(s) && forall j :: 0 <= j < |s.fus| && s.fus[j].busy ==> LiveId(s.board, s.fus[j].transId)
  {
    Parts(isa, tr, s);
    hide Inv, Memories, Clobbers, Steps, I.Step, LatchOk, I.Value;
    var b, n := s.board, s.board.count - 1;
    forall j | 0 <= j < |s.fus| && s.fus[j].busy ensures LiveId(b, s.fus[j].transId) {
      assert UnitOk(isa, tr, b, n, s.fus, j);
      assert At(b, Place(b.head, s.fus[j].transId)).valid;
    }
  }

  /** A branch resolving in EX is always the youngest entry, so its flush drops no scoreboard
      entry, no buffered store and no busy unit: it only redirects the front end. */
  lemma BranchDropsNothing(isa: I.Isa, tr: Trace, s: Core)
    requires Ready(isa, tr, s)
    ensures ShapeOk(s) && FlushSpeculative(s.board, s.exReg.rob) == s.board
    ensures var l := s.exReg;
      ExecBranch(isa, s) ==
        Finish(if Mispredicted(isa, l) then s.(flush := true, frontPc := I.PcAfter(isa, l.instr, l.pc, l.x, l.y)) else s,
               I.FallThrough(l.instr, l.pc))
  {
    Youngest(isa, tr, s);
    StoresLive(isa, tr, s);
    UnitsLive(isa, tr, s);
    FlushAfterYoungest(s.board, s.exReg.rob);
    hide Inv, RingOk, FlushSpeculative, Complete, DropDeadStores, Mispredicted, I.PcAfter, Steps, I.Step;
    var fus := seq(|s.fus|, j requires 0 <= j < |s.fus| =>
      if s.fus[j].busy && s.fus[j].transId >= 0 && !LiveId(s.board, s.fus[j].transId)
      then s.fus[j].(busy := false) else s.fus[j]);
    assert fus == s.fus;
  }

  lemma BranchKeeps(isa: I.Isa, tr: Trace, s: Core, p: Latch)
    requires Ready(isa, tr, s) && s.exReg.instr.kind == I.Branch && !p.valid
    ensures var r := ExecBranch(isa, s);
      Inv(isa, tr, r, p) && r.stallEx == s.stallEx && r.instret == s.instret
  {
    hide InFlight, Owners, Clobbers, Memories, LatchOk, Inv, Mispredicted, I.PcAfter, Reserved, I.Step, Linked;
    Youngest(isa, tr, s);
    Parts(isa, tr, s);
    BranchDropsNothing(isa, tr, s);
    FrontAtBranch(isa, tr, s);
    var l, n, r := s.exReg, s.board.count - 1, ExecBranch(isa, s);
    assert I.FallThrough(l.instr, l.pc) == I.Value(isa, tr[n]);
    OwnersFinish(isa, tr, s.board, s.fus, l.rob, I.FallThrough(l.instr, l.pc), I.Dest(l.instr));
    MemoriesOther(isa, tr, s.board.head, s.mem, s.spec, s.committed, n);
    Assemble(isa, tr, s, r, p);
  }

  /** After a branch the front end stands at the sequential next pc, redirected or not. */
  lemma FrontAtBranch(isa: I.Isa, tr: Trace, s: Core)
    requires Ready(isa, tr, s) && s.exReg.instr.kind == I.Branch
    ensures ExecBranch.requires(isa, s) && s.board.count < |tr|
    ensures ExecBranch(isa, s).frontPc == tr[s.board.count].pc
  {
    Youngest(isa, tr, s);
    hide Inv, InFlight, Owners, Clobbers, Memories, Steps, FlushSpeculative, DropDeadStores, I.Value, I.MemAfter;
    LatchFront(isa, tr, s);
  }

  lemma LatchFront(isa: I.Isa, tr: Trace, s: Core)
    requires Ready(isa, tr, s)
    ensures ShapeOk(s)
    ensures s.frontPc == (if s.exReg.predTaken then s.exReg.predTarget else I.FallThrough(s.exReg.instr, s.exReg.pc))
  {
    hide InFlight, Owners, Clobbers, Memories, Steps, I.Step, I.Value;
  }

  // ---------------------------------------------------------------- EX as a whole

  /** An instruction in EX waits unchanged, or leaves the invariant holding with nothing in the latch. */
  lemma ExecuteKeeps(cfg: Config, tr: Trace, s: Core, inp: Input, p: Latch)
    requires Ready(cfg.isa, tr, s) && InScope(s.exReg) && !Traps(cfg.isa, s.exReg) && !p.valid && !s.stallEx
    ensures ShapeOk(s)
    ensures var r := Execute(cfg, s, inp);
      (r.stallEx ==> r == s.(stallEx := true)) && (!r.stallEx ==> Inv(cfg.isa, tr, r, p))
  {
    Youngest(cfg.isa, tr, s);
    Parts(cfg.isa, tr, s);
    hide Inv, InFlight, Owners, Clobbers, Memories, Steps, LatchOk, ExecLoad, ExecStore, ExecAmo, ExecBranch, Forward, I.Step, Reserved;
    var l, n := s.exReg, s.board.count - 1;
    match l.instr.kind
    case Alu =>
      MemoriesOther(cfg.isa, tr, s.board.head, s.mem, s.spec, s.committed, n);
      FinishKeeps(cfg.isa, tr, s, s.mem, s.spec, s.committed, cfg.isa.compute(l.instr, l.pc, l.x, l.y), p);
    case Mul => StartKeeps(cfg.isa, tr, s, MUL, 1, cfg.isa.compute(l.instr, l.pc, l.x, l.y), p);
    case Div =>
      StartKeeps(cfg.isa, tr, s, DIV, cfg.isa.divCycles(l.instr, l.x, l.y), cfg.isa.compute(l.instr, l.pc, l.x, l.y), p);
    case Load => LoadKeeps(cfg, tr, s, inp.cacheHit, p);
    case Store => StoreKeeps(cfg.isa, tr, s, p);
    case Amo => AmoKeeps(cfg.isa, tr, s, p);
    case Branch => BranchKeeps(cfg.isa, tr, s, p);
    case Trap =>
  }

  /** What EX never touches unless it takes a trap. */
  lemma ExecuteFrame(cfg: Config, s: Core, inp: Input)
    requires ShapeOk(s) && !Traps(cfg.isa, s.exReg)
    ensures var r := Execute(cfg, s, inp);
      r.instret == s.instret && r.epc == s.epc && r.exReg == s.exReg && r.exNext == s.exNext && r.prevFlush == s.prevFlush
  {
    hide FlushSpeculative, DropDeadStores, Forward, I.LoadValue, Complete, I.AmoStore, InvalidateAll, FreeSlot;
  }
}
