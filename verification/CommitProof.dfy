/** Commit keeps the invariant: draining a store to memory changes nothing the sequential machine
    can see, and each retirement is one step of it. */
module CommitProof {
  import opened Words
  import opened StoreQueue
  import opened Boards
  import opened Pipeline
  import opened Invariant
  import I = Isa

  // ---------------------------------------------------------------- draining

  lemma DrainValid(q: seq<StoreEntry>)
    requires QueueOk(q)
    ensures q == [] ==> Drain(q) == (None, [])
    ensures q != [] ==> Drain(q) == (Some(q[0]), q[1..])
    ensures QueueOk(Drain(q).1)
  {}

  lemma MemoriesDrain(cfg: Config, tr: Trace, s: Core, ex: int)
    requires Steps(cfg.isa, tr) && 0 <= ex < |tr|
    requires Memories(cfg.isa, tr, s.board.head, s.mem, s.spec, s.committed, ex)
    ensures var r := DrainStage(cfg, s);
      Memories(cfg.isa, tr, r.board.head, r.mem, r.spec, r.committed, ex)
  {
    hide Overlay, StoreLog, I.Step;
    DrainValid(s.committed);
    DrainKeepsOverlay(s.mem, s.committed, s.spec);
    DrainKeepsOverlay(s.mem, s.committed, []);
    assert s.committed + [] == s.committed && Drain(s.committed).1 + [] == Drain(s.committed).1;
  }

  lemma DrainKeeps(cfg: Config, tr: Trace, s: Core, p: Latch)
    requires Inv(cfg.isa, tr, s, p)
    ensures Inv(cfg.isa, tr, DrainStage(cfg, s), p)
  {
    hide Owners, Clobbers, Memories, InFlight, Steps;
    MemoriesDrain(cfg, tr, s, Executed(s.board, p));
  }

  // ---------------------------------------------------------------- retiring

  lemma SlotShift(head: int, k: int)
    requires 0 <= head < SIZE && 1 <= k < SIZE
    ensures Slot(head, k) == Slot(Slot(head, 1), k - 1)
  {}

  lemma {:induction false} StoreLogShift(isa: I.Isa, tr: Trace, head: int, n: nat)
    requires Steps(isa, tr) && 1 <= n <= SIZE && n <= |tr| && 0 <= head < SIZE
    ensures var a := tr[0];
      StoreLog(isa, tr, head, n) ==
        (if IsStoreAt(isa, a) then [I.StoreOf(I.At(isa, a), I.X(isa, a), I.Y(isa, a), head)] else [])
        + StoreLog(isa, tr[1..], Slot(head, 1), n - 1)
  {
    hide I.StoreOf, I.X, I.Y, I.At, I.Step;
    if n == 1 {
      assert StoreLog(isa, tr, head, 0) == [];
      assert Slot(head, 0) == head;
    } else {
      StoreLogShift(isa, tr, head, n - 1);
      var tl, a, b := tr[1..], tr[0], tr[n - 1];
      assert tl[n - 2] == b;
      SlotShift(head, n - 1);
      Assoc(if IsStoreAt(isa, a) then [I.StoreOf(I.At(isa, a), I.X(isa, a), I.Y(isa, a), head)] else [],
            StoreLog(isa, tl, Slot(head, 1), n - 2),
            if IsStoreAt(isa, b) then [I.StoreOf(I.At(isa, b), I.X(isa, b), I.Y(isa, b), Slot(head, n - 1))] else []);
    }
  }

  lemma {:induction false} AmoBaseShift(isa: I.Isa, tr: Trace, n: nat)
    requires 1 <= n <= |tr|
    ensures AmoBase(isa, tr[1..], n - 1) == if AmoBase(isa, tr, n) == 0 then 0 else AmoBase(isa, tr, n) - 1
  {
    if n > 1 {
      assert tr[1..][n - 2] == tr[n - 1];
      AmoBaseShift(isa, tr, n - 1);
    } else {
      assert AmoBase(isa, tr, 0) == 0;
    }
  }

  lemma StepsTail(isa: I.Isa, tr: Trace)
    requires Steps(isa, tr) && |tr| > 1
    ensures Steps(isa, tr[1..])
  {
    forall k | 0 <= k < |tr| - 2 ensures Linked(isa, tr[1..], k) {
      assert Linked(isa, tr, k + 1);
    }
  }

  lemma InFlightRetire(isa: I.Isa, tr: Trace, b: Board, clobber: seq<Clobber>, ex: int)
    requires InFlight(isa, tr, b, ex) && b.count > 0 && At(b, 0).ready && Shape(b.(clobber := clobber))
    ensures InFlight(isa, tr[1..], Retire(b.(clobber := clobber)), ex - 1)
  {
    hide I.Value, I.Step, DestAt;
    assert EntryOk(isa, tr, b, ex, 0);
    var b1 := b.(clobber := clobber);
    assert RingOk(b1) by { assert forall k :: 0 <= k < SIZE ==> At(b1, k) == At(b, k); }
    RetirePops(b1);
    StepsTail(isa, tr);
    var r := Retire(b1);
    var tl, n := tr[1..], ex - 1;
    forall k | 0 <= k < r.count ensures EntryOk(isa, tl, r, n, k) {
      assert At(r, k) == At(b1, k + 1) == At(b, k + 1);
      assert EntryOk(isa, tr, b, ex, k + 1);
    }
  }

  lemma OwnersRetire(isa: I.Isa, tr: Trace, b: Board, clobber: seq<Clobber>, fus: seq<Fu>, ex: int)
    requires InFlight(isa, tr, b, ex) && b.count > 0 && At(b, 0).ready && Shape(b.(clobber := clobber))
    requires Owners(isa, tr, b, fus, ex)
    ensures InFlight(isa, tr[1..], Retire(b.(clobber := clobber)), ex - 1)
    ensures Owners(isa, tr[1..], Retire(b.(clobber := clobber)), fus, ex - 1)
  {
    hide I.Value, I.Step, DestAt;
    InFlightRetire(isa, tr, b, clobber, ex);
    var r := Retire(b.(clobber := clobber));
    var tl, n := tr[1..], ex - 1;
    forall j | 0 <= j < |fus| ensures UnitOk(isa, tl, r, n, fus, j) {
      assert UnitOk(isa, tr, b, ex, fus, j);
      if fus[j].busy {
        var t := fus[j].transId;
        assert t != b.head;
        assert Place(r.head, t) == Place(b.head, t) - 1;
        assert tr[1..][Place(r.head, t)] == tr[Place(b.head, t)];
      }
    }
    forall k | 0 <= k < ex - 1 && !At(r, k).ready ensures Owned(fus, Slot(r.head, k)) {
      SlotShift(b.head, k + 1);
      assert At(r, k) == At(b, k + 1);
      assert Owned(fus, Slot(b.head, k + 1));
    }
  }

  lemma ClobbersRetire(isa: I.Isa, tr: Trace, b: Board, clobber: seq<Clobber>)
    requires RingOk(b) && |tr| == b.count + 1 && b.count > 0 && Clobbers(isa, tr, b)
    requires var rd := DestAt(isa, tr[0]);
      clobber == if rd != 0 && b.clobber[rd].transId == b.head then b.clobber[rd := IDLE] else b.clobber
    ensures Shape(b.(clobber := clobber))
    ensures Clobbers(isa, tr[1..], Retire(b.(clobber := clobber)))
  {
    hide DestAt;
    var r := Retire(b.(clobber := clobber));
    forall x | 1 <= x < NREGS ensures ClobberOk(isa, tr[1..], r, x) {
      assert ClobberOk(isa, tr, b, x);
      var c := b.clobber[x];
      assert forall k :: 0 <= k < r.count ==> tr[1..][k] == tr[k + 1];
      if c.busy {
        var y := Place(b.head, c.transId);
        if y != 0 { assert Place(r.head, c.transId) == y - 1; }
      }
    }
  }

  /** Retiring a store moves it behind the committed ones. */
  lemma MemoriesRetireStore(isa: I.Isa, tr: Trace, head: int, mem: Memory,
                            spec: seq<StoreEntry>, committed: seq<StoreEntry>, ex: int)
    requires Steps(isa, tr) && 1 <= ex < |tr| && ex <= SIZE && 0 <= head < SIZE
    requires Memories(isa, tr, head, mem, spec, committed, ex)
    requires IsStoreAt(isa, tr[0]) && |committed| < QDEPTH
    ensures spec != [] && spec[0].transId == head
    ensures var (s, c) := CommitMove(spec, committed);
      Steps(isa, tr[1..]) && Memories(isa, tr[1..], Slot(head, 1), mem, s, c, ex - 1)
  {
    hide I.Value;
    StepsTail(isa, tr);
    StoreLogShift(isa, tr, head, ex);
    AmoBaseShift(isa, tr, ex);
    assert AmoBase(isa, tr, ex) == 0;
    var tl, e := tr[1..], spec[0];
    var (s, c) := CommitMove(spec, committed);
    CommitKeepsOverlay(mem, spec, committed);
    assert s == StoreLog(isa, tl, Slot(head, 1), ex - 1);
    assert c == committed + [e];
    assert Overlay(mem, c) == tl[0].mem by {
      assert c[..|committed|] == committed;
      assert Linked(isa, tr, 0);
    }
    assert QueueOk(c) && QueueOk(s);
    assert tl[ex - 1] == tr[ex];
  }

  lemma MemoriesRetireOther(isa: I.Isa, tr: Trace, head: int, mem: Memory,
                            spec: seq<StoreEntry>, committed: seq<StoreEntry>, ex: int)
    requires Steps(isa, tr) && 1 <= ex < |tr| && ex <= SIZE && 0 <= head < SIZE
    requires Memories(isa, tr, head, mem, spec, committed, ex)
    requires !IsStoreAt(isa, tr[0])
    ensures Steps(isa, tr[1..]) && Memories(isa, tr[1..], Slot(head, 1), mem, spec, committed, ex - 1)
  {
    StepsTail(isa, tr);
    StoreLogShift(isa, tr, head, ex);
    AmoBaseShift(isa, tr, ex);
    var base: int := AmoBase(isa, tr, ex);
    var tl := tr[1..];
    assert tl[ex - 1] == tr[ex];
    assert spec == StoreLog(isa, tl, Slot(head, 1), ex - 1);
    if base == 0 {
      NotAmoHead(isa, tr, ex);
      assert Linked(isa, tr, 0);
      assert tl[0].mem == tr[0].mem;
    } else {
      assert tl[base - 1] == tr[base];
      forall k: int | 0 <= k < base - 1 ensures !IsStoreAt(isa, tl[k]) { assert tl[k] == tr[k + 1]; }
    }
  }

  lemma {:induction false} NotAmoHead(isa: I.Isa, tr: Trace, n: nat)
    requires 1 <= n <= |tr| && AmoBase(isa, tr, n) == 0
    ensures I.At(isa, tr[0]).kind != I.Amo
  {
    if n > 1 { NotAmoHead(isa, tr, n - 1); }
  }

  /** Does this commit port retire the head? */
  predicate PortRetires(s: Core)
    requires ShapeOk(s)
  {
    HeadReady(s.board) && !(s.board.entries[s.board.head].isStore && |s.committed| == QDEPTH)
  }

  lemma LatchRetire(isa: I.Isa, tr: Trace, s: Core, r: Core, p: Latch)
    requires ShapeOk(s) && ShapeOk(r) && Steps(isa, tr) && |tr| == s.board.count + 1 && LatchOk(isa, tr, s, p)
    requires s.board.count > 0 && (p.valid ==> s.board.count > 1) && s.board.count <= SIZE
    requires r.board.count == s.board.count - 1 && r.board.head == Slot(s.board.head, 1)
    requires r.frontPc == s.frontPc && r.fus == s.fus && |r.spec| <= |s.spec|
    requires QueuesEmpty(s) ==> QueuesEmpty(r)
    ensures Steps(isa, tr[1..]) && LatchOk(isa, tr[1..], r, p)
  {
    StepsTail(isa, tr);
    var n := s.board.count;
    assert tr[1..][n - 1] == tr[n];
    if p.valid {
      assert tr[1..][n - 2] == tr[n - 1];
      SlotShift(s.board.head, n - 1);
    }
  }

  /** One commit port either leaves the state alone or is one step of the sequential machine. The
      oldest speculative store is then the head's own, so commit_store cannot fail. */
  lemma PortKeeps(isa: I.Isa, tr: Trace, s: Core, p: Latch)
    requires Inv(isa, tr, s, p)
    ensures !PortRetires(s) ==> CommitPort(s) == s
    ensures PortRetires(s) ==> |tr| > 1 && Inv(isa, tr[1..], CommitPort(s), p) && CommitPort(s).instret == s.instret + 1
    ensures PortRetires(s) && s.board.entries[s.board.head].isStore ==>
      s.spec != [] && |s.committed| < QDEPTH && s.spec[0].transId == s.board.head
  {
    hide Owners, Clobbers, Memories, InFlight, Steps, LatchOk, I.Step, I.Value, Retire, I.SetReg;
    if PortRetires(s) {
      PortHead(isa, tr, s, p);
      hide CommitPort;
      var b, ex := s.board, Executed(s.board, p);
      var e := b.entries[b.head];
      var clobber := if e.rd != 0 && b.clobber[e.rd].transId == b.head then b.clobber[e.rd := IDLE] else b.clobber;
      ClobbersRetire(isa, tr, b, clobber);
      OwnersRetire(isa, tr, b, clobber, s.fus, ex);
      if e.isStore {
        MemoriesRetireStore(isa, tr, b.head, s.mem, s.spec, s.committed, ex);
      } else {
        MemoriesRetireOther(isa, tr, b.head, s.mem, s.spec, s.committed, ex);
      }
      PortFields(s, clobber);
      var r := CommitPort(s);
      assert r.regs == tr[1..][0].regs;
      LatchRetire(isa, tr, s, r, p);
    }
  }

  lemma PortFields(s: Core, clobber: seq<Clobber>)
    requires ShapeOk(s) && PortRetires(s)
    requires var b, e := s.board, s.board.entries[s.board.head];
      clobber == if e.rd != 0 && b.clobber[e.rd].transId == b.head then b.clobber[e.rd := IDLE] else b.clobber
    requires s.board.entries[s.board.head].isStore ==> s.spec != []
    ensures Shape(s.board.(clobber := clobber))
    ensures var r, e := CommitPort(s), s.board.entries[s.board.head];
      r.board == Retire(s.board.(clobber := clobber)) && r.board.count == s.board.count - 1 &&
      r.board.head == Slot(s.board.head, 1) && r.fus == s.fus && r.frontPc == s.frontPc && r.mem == s.mem &&
      r.instret == s.instret + 1 && r.regs == I.SetReg(s.regs, e.rd, e.result) &&
      (r.spec, r.committed) == (if e.isStore then CommitMove(s.spec, s.committed) else (s.spec, s.committed))
  {}

  /** The entry at the head is an executed one and holds the next sequential step. */
  lemma PortHead(isa: I.Isa, tr: Trace, s: Core, p: Latch)
    requires Inv(isa, tr, s, p) && PortRetires(s)
    ensures s.board.count > 0 && At(s.board, 0).ready && Executed(s.board, p) >= 1 && RingOk(s.board)
    ensures s.board.count <= SIZE && |tr| > 1
    ensures var e := s.board.entries[s.board.head];
      e == At(s.board, 0) && e.rd == DestAt(isa, tr[0]) && e.isStore == IsStoreAt(isa, tr[0]) &&
      I.SetReg(s.regs, e.rd, e.result) == tr[1].regs
    ensures |s.committed| <= QDEPTH
  {
    assert EntryOk(isa, tr, s.board, Executed(s.board, p), 0);
    assert Linked(isa, tr, 0);
  }
}
