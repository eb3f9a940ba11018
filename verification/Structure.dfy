/** Structural facts about every reachable state of the back end, stated on the state alone:
    who owns an entry, which stores are buffered, what the clobber table says, and that the
    code's defensive paths are never taken. */
module Structure {
  import opened StoreQueue
  import opened Boards
  import opened Pipeline
  import opened Invariant
  import opened CommitProof
  import opened ExProof
  import opened CycleProof
  import opened Runs
  import I = Isa

  // ---------------------------------------------------------------- ownership

  /** The latch between Issue and EX holds trans_id t. */
  predicate InLatch(s: Core, t: int) { Pending(s).valid && Pending(s).rob == t }

  predicate UnitHas(s: Core, j: int, t: int)
    requires 0 <= j < |s.fus|
  {
    s.fus[j].busy && s.fus[j].transId == t && s.fus[j].remaining >= 1
  }

  ghost predicate OnlyUnit(s: Core, j: int, t: int)
    requires 0 <= j < |s.fus|
  {
    UnitHas(s, j, t) && forall i :: 0 <= i < |s.fus| && i != j ==> !UnitHas(s, i, t)
  }

  /** Exactly one owner: the latch and no unit, or one unit and not the latch. */
  ghost predicate OneOwner(s: Core, t: int) {
    (InLatch(s, t) && forall j :: 0 <= j < |s.fus| ==> !UnitHas(s, j, t)) ||
    (!InLatch(s, t) && exists j :: 0 <= j < |s.fus| && OnlyUnit(s, j, t))
  }

  /** Every live entry that is not ready has exactly one owner, and a busy unit always works for
      such an entry (so no completion reaches a retired or reallocated one). */
  ghost predicate WellOwned(s: Core)
    requires ShapeOk(s)
  {
    (forall k :: 0 <= k < s.board.count && !At(s.board, k).ready ==> OneOwner(s, Slot(s.board.head, k))) &&
    forall j :: 0 <= j < |s.fus| && s.fus[j].busy ==> WorksForLive(s, j)
  }

  ghost predicate WorksForLive(s: Core, j: int)
    requires ShapeOk(s) && 0 <= j < |s.fus|
  {
    var t := s.fus[j].transId;
    s.fus[j].remaining >= 1 && 0 <= t < SIZE && s.board.entries[t].valid && !s.board.entries[t].ready
  }

  lemma UnitOwns(isa: I.Isa, tr: Trace, s: Core, k: int)
    requires Inv(isa, tr, s, Pending(s)) && 0 <= k < Executed(s.board, Pending(s)) && !At(s.board, k).ready
    ensures OneOwner(s, Slot(s.board.head, k))
  {
    hide I.Value, I.Step, Clobbers, Memories;
    var b, p := s.board, Pending(s);
    var ex, t := Executed(b, p), Slot(b.head, k);
    assert Owned(s.fus, t);
    var j :| 0 <= j < |s.fus| && s.fus[j].busy && s.fus[j].transId == t;
    assert UnitOk(isa, tr, b, ex, s.fus, j);
    assert OnlyUnit(s, j, t);
    assert p.valid ==> p.rob != t;
  }

  lemma LatchOwns(isa: I.Isa, tr: Trace, s: Core)
    requires Inv(isa, tr, s, Pending(s)) && Pending(s).valid
    ensures OneOwner(s, Slot(s.board.head, s.board.count - 1))
  {
    hide I.Value, I.Step, Clobbers, Memories;
    var b, p := s.board, Pending(s);
    var n := b.count - 1;
    assert InLatch(s, Slot(b.head, n));
    forall j | 0 <= j < |s.fus| ensures !UnitHas(s, j, Slot(b.head, n)) {
      assert UnitOk(isa, tr, b, n, s.fus, j);
    }
  }

  /** No orphan and no double owner, in every reachable state. */
  lemma AlwaysWellOwned(isa: I.Isa, a: I.Arch, s: Core)
    requires Sim(isa, a, s)
    ensures ShapeOk(s) && WellOwned(s)
  {
    hide I.Value, I.Step, Clobbers, Memories, LatchOk, Pending, OneOwner;
    var tr := Witness(isa, a, s);
    var ex := Executed(s.board, Pending(s));
    forall k | 0 <= k < s.board.count && !At(s.board, k).ready ensures OneOwner(s, Slot(s.board.head, k)) {
      if k < ex { UnitOwns(isa, tr, s, k); } else { LatchOwns(isa, tr, s); }
    }
    forall j | 0 <= j < |s.fus| && s.fus[j].busy ensures WorksForLive(s, j) {
      assert UnitOk(isa, tr, s.board, ex, s.fus, j);
      assert At(s.board, Place(s.board.head, s.fus[j].transId)).valid;
    }
  }

  /** A redirect raised by Decode or Fetch after Issue has dispatched in the same cycle clears the
      Issue/EX latch but not the scoreboard entry. Ownership survives such a redirect exactly when
      Issue dispatched nothing in that cycle. */
  lemma FrontRedirectOrphans(isa: I.Isa, a: I.Arch, s: Core)
    requires Sim(isa, a, s)
    ensures ShapeOk(s) && ShapeOk(Bubble(s)) && (WellOwned(Bubble(s)) <==> !s.exNext.valid)
  {
    AlwaysWellOwned(isa, a, s);
    var r := Bubble(s);
    if s.exNext.valid {
      var tr := Witness(isa, a, s);
      Stranded(isa, tr, s);
    } else {
      assert r == s;
    }
  }

  lemma Stranded(isa: I.Isa, tr: Trace, s: Core)
    requires Agrees(isa, tr, s) && s.exNext.valid
    ensures ShapeOk(s) && !WellOwned(Bubble(s))
  {
    hide I.Value, I.Step, Clobbers, Memories;
    var b, n := s.board, s.board.count - 1;
    assert EntryOk(isa, tr, b, n, n);
    var t := Slot(b.head, n);
    forall j | 0 <= j < |s.fus| ensures !UnitHas(Bubble(s), j, t) {
      assert UnitOk(isa, tr, b, n, s.fus, j);
    }
    assert !OneOwner(Bubble(s), t);
    assert !At(Bubble(s).board, n).ready;
  }

  // ---------------------------------------------------------------- store queue and scoreboard

  function Ids(q: seq<StoreEntry>): (r: seq<int>)
    ensures |r| == |q|
  {
    seq(|q|, i requires 0 <= i < |q| => q[i].transId)
  }

  /** The trans_ids of the live, ready store entries among the first n, oldest first. */
  function StoreIds(b: Board, n: nat): seq<int>
    requires |b.entries| == SIZE && b.head < SIZE && n <= SIZE
  {
    if n == 0 then []
    else StoreIds(b, n - 1) + if At(b, n - 1).isStore && At(b, n - 1).ready then [Slot(b.head, n - 1)] else []
  }

  lemma {:induction false} LogIds(isa: I.Isa, tr: Trace, b: Board, fus: seq<Fu>, ex: int, n: nat)
    requires InFlight(isa, tr, b, ex) && Owners(isa, tr, b, fus, ex) && n <= ex
    ensures Ids(StoreLog(isa, tr, b.head, n)) == StoreIds(b, n)
  {
    hide I.Value, I.Step, I.X, I.Y;
    if n > 0 {
      LogIds(isa, tr, b, fus, ex, n - 1);
      assert EntryOk(isa, tr, b, ex, n - 1);
      if IsStoreAt(isa, tr[n - 1]) { StoreReady(isa, tr, b, fus, ex, n - 1); }
    }
  }

  lemma UnitNotStore(isa: I.Isa, tr: Trace, b: Board, fus: seq<Fu>, ex: int, j: int)
    requires InFlight(isa, tr, b, ex) && Owners(isa, tr, b, fus, ex) && 0 <= j < |fus| && fus[j].busy
    ensures var k := Place(b.head, fus[j].transId); 0 <= k < |tr| && !IsStoreAt(isa, tr[k])
  {
    hide I.Value, I.Step;
    assert UnitOk(isa, tr, b, ex, fus, j);
  }

  /** No unit ever works for a store, so an executed store is ready. */
  lemma StoreReady(isa: I.Isa, tr: Trace, b: Board, fus: seq<Fu>, ex: int, k: int)
    requires InFlight(isa, tr, b, ex) && Owners(isa, tr, b, fus, ex) && 0 <= k < ex && IsStoreAt(isa, tr[k])
    ensures At(b, k).ready
  {
    hide I.Value, I.Step;
    if !At(b, k).ready {
      assert Owned(fus, Slot(b.head, k));
      var j :| 0 <= j < |fus| && fus[j].busy && fus[j].transId == Slot(b.head, k);
      UnitNotStore(isa, tr, b, fus, ex, j);
    }
  }

  /** The speculative queue holds exactly the live, ready store entries, in program order. */
  lemma SpecQueueAgrees(isa: I.Isa, a: I.Arch, s: Core)
    requires Sim(isa, a, s)
    ensures ShapeOk(s) && s.board.count <= SIZE && Ids(s.spec) == StoreIds(s.board, s.board.count)
  {
    var tr := Witness(isa, a, s);
    hide I.Value, I.Step, Clobbers, LatchOk, Pending;
    var ex := Executed(s.board, Pending(s));
    LogIds(isa, tr, s.board, s.fus, ex, ex);
    if ex < s.board.count { assert EntryOk(isa, tr, s.board, ex, ex); }
  }

  lemma {:induction false} StoreIdsLast(b: Board, n: nat)
    requires |b.entries| == SIZE && b.head < SIZE && n <= SIZE && StoreIds(b, n) != []
    ensures exists k :: 0 <= k < n && StoreIds(b, n)[|StoreIds(b, n)| - 1] == Slot(b.head, k)
  {
    if At(b, n - 1).isStore && At(b, n - 1).ready {
      assert StoreIds(b, n)[|StoreIds(b, n)| - 1] == Slot(b.head, n - 1);
    } else {
      StoreIdsLast(b, n - 1);
    }
  }

  /** r kept the first keep entries of b as they were, and no others. */
  ghost predicate KeptPrefix(b: Board, r: Board, keep: nat) {
    RingOk(b) && RingOk(r) && r.head == b.head && r.count == keep <= b.count &&
    forall k :: 0 <= k < keep ==> At(r, k) == At(b, k)
  }

  lemma LiveInPrefix(b: Board, r: Board, keep: nat, k: nat)
    requires KeptPrefix(b, r, keep) && k < SIZE
    ensures LiveId(r, Slot(b.head, k)) <==> k < keep
  {
    assert At(r, k) == r.entries[Slot(b.head, k)];
  }

  lemma LastId(b: Board, q: seq<StoreEntry>, n: nat)
    requires |b.entries| == SIZE && b.head < SIZE && 0 < n <= SIZE && Ids(q) == StoreIds(b, n)
    requires At(b, n - 1).isStore && At(b, n - 1).ready
    ensures q != [] && q[|q| - 1].transId == Slot(b.head, n - 1) && Ids(q[..|q| - 1]) == StoreIds(b, n - 1)
  {
    assert StoreIds(b, n) == StoreIds(b, n - 1) + [Slot(b.head, n - 1)];
    assert q[|q| - 1].transId == Ids(q)[|q| - 1] == Slot(b.head, n - 1);
    assert Ids(q[..|q| - 1]) == Ids(q)[..|q| - 1];
  }

  lemma {:induction false} DropToPrefix(b: Board, r: Board, q: seq<StoreEntry>, keep: nat, n: nat)
    requires Shape(b) && Shape(r) && KeptPrefix(b, r, keep) && keep <= n <= b.count && Ids(q) == StoreIds(b, n)
    ensures DropDeadStores(q, r) <= q && Ids(DropDeadStores(q, r)) == StoreIds(b, keep)
    decreases n
  {
    hide RingOk, LiveId, KeptPrefix;
    if n == keep {
      if q != [] {
        StoreIdsLast(b, n);
        var k :| 0 <= k < n && StoreIds(b, n)[|StoreIds(b, n)| - 1] == Slot(b.head, k);
        LiveInPrefix(b, r, keep, k);
        assert q[|q| - 1].transId == Ids(q)[|q| - 1];
      }
    } else if At(b, n - 1).isStore && At(b, n - 1).ready {
      LiveInPrefix(b, r, keep, n - 1);
      LastId(b, q, n);
      DropToPrefix(b, r, q[..|q| - 1], keep, n - 1);
    } else {
      DropToPrefix(b, r, q, keep, n - 1);
    }
  }

  lemma {:induction false} SameStoreIds(b: Board, r: Board, keep: nat, n: nat)
    requires KeptPrefix(b, r, keep) && n <= keep
    ensures StoreIds(r, n) == StoreIds(b, n)
  {
    if n > 0 { SameStoreIds(b, r, keep, n - 1); }
  }

  /** Selective flush of both structures: after the scoreboard keeps the entries through index idx,
      the store buffer keeps exactly the stores of that prefix, and the two agree again. */
  lemma SelectiveFlushAgrees(b: Board, q: seq<StoreEntry>, idx: int)
    requires RingOk(b) && 0 <= idx < SIZE && Place(b.head, idx) < b.count && Ids(q) == StoreIds(b, b.count)
    ensures var keep := Place(b.head, idx) + 1;
      var r := FlushSpeculative(b, idx);
      && RingOk(r) && r.count == keep
      && DropDeadStores(q, r) <= q
      && Ids(DropDeadStores(q, r)) == StoreIds(b, keep) == StoreIds(r, r.count)
  {
    hide FlushSpeculative, DropDeadStores;
    FlushSpeculativeKeepsPrefix(b, idx);
    var keep: nat := Place(b.head, idx) + 1;
    var r := FlushSpeculative(b, idx);
    DropToPrefix(b, r, q, keep, b.count);
    SameStoreIds(b, r, keep, keep);
  }

  // ---------------------------------------------------------------- clobber table

  /** The register an entry in flight will write, as its instruction says. */
  function WritesAt(isa: I.Isa, b: Board, k: int): Reg
    requires |b.entries| == SIZE && b.head < SIZE && 0 <= k < SIZE
  {
    I.Dest(isa.fetch(At(b, k).pc))
  }

  /** k is the youngest entry in flight that writes r. */
  ghost predicate YoungestWriter(isa: I.Isa, b: Board, r: Reg, k: int)
    requires |b.entries| == SIZE && b.head < SIZE && b.count <= SIZE
  {
    0 <= k < b.count && WritesAt(isa, b, k) == r && forall i :: k < i < b.count ==> WritesAt(isa, b, i) != r
  }

  /** rd_clobber[r] is busy iff some entry in flight writes r, and names the youngest such entry. */
  lemma ClobberExact(isa: I.Isa, a: I.Arch, s: Core, r: Reg)
    requires Sim(isa, a, s) && r != 0
    ensures ShapeOk(s) && s.board.count <= SIZE
    ensures s.board.clobber[r].busy <==> exists k :: 0 <= k < s.board.count && WritesAt(isa, s.board, k) == r
    ensures s.board.clobber[r].busy ==>
      YoungestWriter(isa, s.board, r, Place(s.board.head, s.board.clobber[r].transId))
  {
    hide I.Value, I.Step, Memories, Owners, LatchOk, Pending, I.Dest;
    var tr := Witness(isa, a, s);
    var b, ex := s.board, Executed(s.board, Pending(s));
    assert ClobberOk(isa, tr, b, r);
    forall k | 0 <= k < b.count ensures WritesAt(isa, b, k) == DestAt(isa, tr[k]) {
      assert EntryOk(isa, tr, b, ex, k);
    }
  }

  // ---------------------------------------------------------------- defensive paths

  /** When EX runs the instruction in its latch: a store finds a free speculative slot, a load or
      AMO an idle miss slot and load-hit unit, an AMO both queues empty, and a multiplication or
      division its unit idle. */
  lemma ExResourcesFree(cfg: Config, a: I.Arch, s: Core, inp: Input)
    requires Sim(cfg.isa, a, s) && inp.irq.None?
    ensures ShapeOk(s)
    ensures var m := BeforeEx(cfg, s, inp); var k := m.exReg.instr.kind;
      m.exReg.valid ==>
        (k == I.Store ==> |m.spec| < QDEPTH) &&
        (k == I.Load || k == I.Amo ==> FreeSlot(m) >= 0 && !m.fus[HitUnit(m)].busy) &&
        (k == I.Amo ==> QueuesEmpty(m)) &&
        (k == I.Mul ==> !m.fus[MUL].busy) && (k == I.Div ==> !m.fus[DIV].busy)
  {
    hide Agrees, BeforeEx, I.Step, I.Value, I.Run;
    var tr := Witness(cfg.isa, a, s);
    var u := BeforeExKeeps(cfg, tr, s, inp);
    var m := BeforeEx(cfg, s, inp);
    hide Inv, FreeSlot;
    if m.exReg.valid {
      Parts(cfg.isa, u, m);
      if m.exReg.instr.kind == I.Load || m.exReg.instr.kind == I.Amo { LoadUnitsFree(cfg.isa, u, m); }
    }
  }

  /** If this port retires a store, the store is the oldest speculative one and there is room for it. */
  ghost predicate StoreCommits(s: Core)
    requires ShapeOk(s)
  {
    PortRetires(s) && s.board.entries[s.board.head].isStore ==>
      s.spec != [] && |s.committed| < QDEPTH && s.spec[0].transId == s.board.head
  }

  /** At both commit ports of every cycle commit_store succeeds, and moves the retiring store. */
  lemma CommitStoreSucceeds(cfg: Config, a: I.Arch, s: Core, inp: Input)
    requires Sim(cfg.isa, a, s) && inp.irq.None?
    ensures ShapeOk(s)
    ensures var d := DrainStage(cfg, Begin(s, inp)); StoreCommits(d) && StoreCommits(CommitPort(d))
  {
    var tr := Witness(cfg.isa, a, s);
    TraceShape(cfg.isa, tr, s, Pending(s));
    var l := LatchTransfer(s);
    LatchTransferKeeps(cfg.isa, tr, s);
    DrainKeeps(cfg, tr, l, l.exReg);
    hide Inv, CommitPort, PortRetires, LatchTransfer, DrainStage, Agrees;
    var d := DrainStage(cfg, l);
    PortKeeps(cfg.isa, tr, d, l.exReg);
    var t := PortStep(cfg.isa, tr, d, l.exReg);
    PortKeeps(cfg.isa, t, CommitPort(d), l.exReg);
  }
}
