/** Address translation of inc/MMU.h: two TLBs in front of the page table walker. The functions
    give the value of every field after each operation; the lemmas show that the TLBs are
    transparent, over every sequence of operations. */
module Translation {
  import opened Words
  import opened Sv39
  import opened Tlbs

  datatype Result = Result(ok: bool, fault: bool, cause: int, paddr: int, stallCycles: int)

  datatype State = State(itlb: Table, dtlb: Table, iclock: nat, dclock: nat, mem: PageMem)

  // ---------------------------------------------------------------- satp and mstatus

  predicate Sv39Mode(satp: Word) { satp / 0x1000_0000_0000_0000 == 8 }
  function Asid(satp: Word): int { (satp / PPNS) % 0x1_0000 }
  function Root(satp: Word): int { satp % PPNS }
  predicate Sum(mstatus: Word) { Bit(mstatus, 0x4_0000) }
  predicate Mxr(mstatus: Word) { Bit(mstatus, 0x8_0000) }

  // ---------------------------------------------------------------- the walker

  /** ptw: walk, permission check, and the A/D write-back of a leaf that passes. */
  datatype Fill = Missed(cycles: int) | Filled(leaf: Walk, cycles: int, mem: PageMem)

  /** Memory is written only when the entry changes. */
  function WriteBack(mem: PageMem, address: int, access: Access): PageMem {
    var pte := mem(address);
    if Touched(pte, access) != pte then StorePte(mem, address, Touched(pte, access)) else mem
  }

  lemma WriteBackSame(mem: PageMem, address: int, access: Access)
    ensures SameTables(mem, WriteBack(mem, address, access))
  {
    TouchKeepsTables(mem, address, access);
  }

  function Cycles(per: int, mem: PageMem, table: int, va: Word, l: Level): int
    decreases l
  {
    var pte := mem(PteAddress(table, va, l));
    if PteV(pte) && !PteR(pte) && !PteX(pte) && l > 0 then per + Cycles(per, mem, PtePpn(pte), va, l - 1) else per
  }

  function Ptw(per: int, mem: PageMem, root: int, va: Word, access: Access, priv: Priv, mstatus: Word): Fill {
    var w := WalkRoot(mem, root, va);
    var c := Cycles(per, mem, root, va, 2);
    if w.Leaf? && CheckPerm(w.perm, access, priv, Sum(mstatus), Mxr(mstatus)) then
      Filled(w, c, WriteBack(mem, w.address, access))
    else Missed(c)
  }

  // ---------------------------------------------------------------- translate

  function TableOf(s: State, access: Access): Table { if access == Fetch then s.itlb else s.dtlb }
  function ClockOf(s: State, access: Access): nat { if access == Fetch then s.iclock else s.dclock }

  function WithTable(s: State, access: Access, t: Table, clock: nat): State {
    if access == Fetch then s.(itlb := t, iclock := clock) else s.(dtlb := t, dclock := clock)
  }

  function Translate(per: int, s: State, satp: Word, va: Word, access: Access, priv: Priv, mstatus: Word): (State, Result)
    requires |s.itlb| > 0 && |s.dtlb| > 0
  {
    if !Sv39Mode(satp) || priv == M then (s, Result(true, false, 0, va, 0))
    else
      var t, clock := TableOf(s, access), ClockOf(s, access) + 1;
      var hit := Find(t, Vpn(va), Asid(satp));
      if hit >= 0 then
        var e := t[hit];
        var fault := !CheckPerm(e.perm, access, priv, Sum(mstatus), Mxr(mstatus));
        (WithTable(s, access, t[hit := e.(lruTime := clock)], clock),
         Result(true, fault, if fault then FaultCause(access) else 0, MakePaddr(e.ppn, va, e.level), 0))
      else
        match Ptw(per, s.mem, Root(satp), va, access, priv, mstatus)
        case Missed(c) => (WithTable(s, access, t, clock), Result(false, true, FaultCause(access), 0, c))
        case Filled(w, c, mem) =>
          var e := TlbEntry(true, w.global, w.perm, w.level, Asid(satp), Vpn(va), w.ppn, clock);
          (WithTable(s.(mem := mem), access, Inserted(t, e), clock),
           Result(true, false, 0, MakePaddr(w.ppn, va, w.level), c))
  }

  /** What a caller uses of a result: the fault and its cause, or the physical address. */
  function Seen(r: Result): Outcome { if r.fault then PageFault(r.cause) else Translated(r.paddr) }

  /** Translation without any TLB, on tables whose A and D bits nobody has set. */
  function Reference(mem: PageMem, satp: Word, va: Word, access: Access, priv: Priv, mstatus: Word): Outcome {
    if !Sv39Mode(satp) || priv == M then Translated(va)
    else WalkOutcome(WalkRoot(mem, Root(satp), va), va, access, priv, Sum(mstatus), Mxr(mstatus))
  }

  // ---------------------------------------------------------------- faithful tables

  /** The entry says of every address it covers what the walk says. */
  ghost predicate EntryFaithful(mem: PageMem, root: int, e: TlbEntry) {
    e.valid ==> forall va: Word :: VpnMatch(Vpn(va), e.vpn, e.level) ==> Agrees(e, WalkRoot(mem, root, va))
  }

  predicate Agrees(e: TlbEntry, w: Walk) {
    w.Leaf? && w.ppn == e.ppn && w.perm == e.perm && w.level == e.level && w.global == e.global
  }

  ghost predicate Faithful(mem: PageMem, root: int, t: Table) {
    |t| > 0 && forall i :: 0 <= i < |t| ==> EntryFaithful(mem, root, t[i])
  }

  /** Both TLBs are faithful to the tables as the software last left them; memory differs from
      those in A and D bits only. */
  ghost predicate Good(s: State, tables: PageMem, satp: Word) {
    SameTables(tables, s.mem) && Faithful(tables, Root(satp), s.itlb) && Faithful(tables, Root(satp), s.dtlb)
  }

  lemma SameTablesTrans(a: PageMem, b: PageMem, c: PageMem)
    requires SameTables(a, b) && SameTables(b, c)
    ensures SameTables(a, c)
  {
    forall x: int ensures SameFields(a(x), c(x)) { assert SameFields(a(x), b(x)) && SameFields(b(x), c(x)); }
  }

  /** A walk's leaf, put in the TLB, is faithful for its whole page. */
  lemma FilledFaithful(mem: PageMem, root: int, va: Word, asid: int, clock: nat)
    requires WalkRoot(mem, root, va).Leaf?
    ensures var w := WalkRoot(mem, root, va);
      EntryFaithful(mem, root, TlbEntry(true, w.global, w.perm, w.level, asid, Vpn(va), w.ppn, clock))
  {
    var w := WalkRoot(mem, root, va);
    forall v: Word | VpnMatch(Vpn(v), Vpn(va), w.level) ensures WalkRoot(mem, root, v) == w {
      LeafServesPage(mem, root, va, v, 2);
    }
  }

  /** One translation on a good state: the caller sees what a fresh walk gives, and the state stays good. */
  lemma TranslateGood(per: int, s: State, tables: PageMem, satp: Word, va: Word, access: Access, priv: Priv, mstatus: Word)
    requires Good(s, tables, satp)
    ensures var (s', r) := Translate(per, s, satp, va, access, priv, mstatus);
      Good(s', tables, satp) && Seen(r) == Reference(tables, satp, va, access, priv, mstatus)
  {
    hide CheckPerm, MakePaddr, FaultCause, SameFields, WalkFrom, VpnMatch, Touched;
    if Sv39Mode(satp) && priv != M {
      var t, root := TableOf(s, access), Root(satp);
      WalkIgnoresAD(tables, s.mem, root, va, 2);
      var hit := Find(t, Vpn(va), Asid(satp));
      if hit >= 0 {
        assert EntryFaithful(tables, root, t[hit]);
        HitKeeps(tables, root, t, hit, ClockOf(s, access) + 1);
      } else {
        var w := WalkRoot(tables, root, va);
        if w.Leaf? {
          WriteBackSame(s.mem, w.address, access);
          SameTablesTrans(tables, s.mem, WriteBack(s.mem, w.address, access));
          FilledFaithful(tables, root, va, Asid(satp), ClockOf(s, access) + 1);
        }
      }
    }
  }

  lemma HitKeeps(tables: PageMem, root: int, t: Table, hit: nat, clock: nat)
    requires Faithful(tables, root, t) && hit < |t|
    ensures Faithful(tables, root, t[hit := t[hit].(lruTime := clock)])
  {
    assert EntryFaithful(tables, root, t[hit]);
    assert EntryFaithful(tables, root, t[hit].(lruTime := clock));
  }

  // ---------------------------------------------------------------- fences

  /** sfence.vma with rs1, rs2 zero or not. */
  function Fence(t: Table, va: Word, asid: int, vaZero: bool, asidZero: bool): Table {
    if vaZero && asidZero then FlushWhere(t, (e: TlbEntry) => true)
    else if vaZero then FlushWhere(t, (e: TlbEntry) => DropAsid(e, asid))
    else if asidZero then FlushWhere(t, (e: TlbEntry) => DropVa(e, va))
    else FlushWhere(t, (e: TlbEntry) => DropVaAsid(e, va, asid))
  }

  lemma FenceFaithful(mem: PageMem, root: int, t: Table, va: Word, asid: int, vaZero: bool, asidZero: bool)
    requires Faithful(mem, root, t)
    ensures Faithful(mem, root, Fence(t, va, asid, vaZero, asidZero))
  {
    var u := Fence(t, va, asid, vaZero, asidZero);
    forall i | 0 <= i < |u| ensures EntryFaithful(mem, root, u[i]) { assert EntryFaithful(mem, root, t[i]); }
  }

  /** After a per-address fence no entry of any address space covers the address. */
  lemma FenceVaUncovers(t: Table, va: Word, asid: int, other: int)
    ensures Find(Fence(t, va, asid, false, true), Vpn(va), other) == -1
  {}

  /** After a per-address, per-space fence only a global entry can still answer for the address. */
  lemma FenceVaAsidUncovers(t: Table, va: Word, asid: int)
    ensures var u := Fence(t, va, asid, false, false); var hit := Find(u, Vpn(va), asid);
      hit >= 0 ==> u[hit].global
    ensures var u := Fence(t, va, asid, true, false); var hit := Find(u, Vpn(va), asid);
      hit >= 0 ==> u[hit].global
  {}

  lemma EmptyFaithful(mem: PageMem, root: int, t: Table)
    requires |t| > 0 && forall i :: 0 <= i < |t| ==> !t[i].valid
    ensures Faithful(mem, root, t)
  {}

  /** The change of the tables affects only addresses that no leaf served before, or that the leaf of va
      served: mapping a page, or changing or removing the mapping of the page, of any size, va lies in. */
  ghost predicate PageEdit(old_: PageMem, new_: PageMem, root: int, va: Word) {
    forall v: Word ::
      var w := WalkRoot(old_, root, v);
      w.Leaf? ==> WalkRoot(new_, root, v) == w || SamePage(Vpn(v), Vpn(va), w.level)
  }

  /** After such a change a fence for that address alone is enough. */
  lemma EditThenFence(old_: PageMem, new_: PageMem, root: int, t: Table, va: Word, asid: int)
    requires Faithful(old_, root, t) && PageEdit(old_, new_, root, va)
    ensures Faithful(new_, root, Fence(t, va, asid, false, true))
  {
    hide WalkRoot, Pages;
    var u := Fence(t, va, asid, false, true);
    forall i | 0 <= i < |u| ensures EntryFaithful(new_, root, u[i]) {
      assert EntryFaithful(old_, root, t[i]);
      if u[i].valid {
        var e := u[i];
        forall v: Word | VpnMatch(Vpn(v), e.vpn, e.level) ensures Agrees(e, WalkRoot(new_, root, v)) {
          assert Agrees(e, WalkRoot(old_, root, v));
          assert !VpnMatch(Vpn(va), e.vpn, e.level);
        }
      }
    }
  }

  // ---------------------------------------------------------------- every sequence of operations

  datatype Op =
    | Use(va: Word, access: Access, priv: Priv, mstatus: Word)
    | SetSatp(satp: Word)                       // CSR write; the pipeline then flushes both TLBs
    | Edit(tables: PageMem)                     // page table edit followed by a full fence
    | EditPage(address: int, pte: Word, pva: Word) // one entry stored, then a fence for one address
    | FenceOp(fva: Word, fasid: int, vaZero: bool, asidZero: bool)

  datatype Machine = Machine(state: State, satp: Word)

  function FlushBoth(s: State): State {
    s.(itlb := FlushWhere(s.itlb, (e: TlbEntry) => true), dtlb := FlushWhere(s.dtlb, (e: TlbEntry) => true))
  }

  function Apply(per: int, m: Machine, op: Op): (r: Machine)
    requires |m.state.itlb| > 0 && |m.state.dtlb| > 0
    ensures |r.state.itlb| > 0 && |r.state.dtlb| > 0
  {
    match op
    case Use(va, access, priv, mstatus) => m.(state := Translate(per, m.state, m.satp, va, access, priv, mstatus).0)
    case SetSatp(satp) => Machine(FlushBoth(m.state), satp)
    case Edit(tables) => m.(state := FlushBoth(m.state.(mem := tables)))
    case EditPage(address, pte, va) =>
      m.(state := m.state.(mem := StorePte(m.state.mem, address, pte), itlb := Fence(m.state.itlb, va, 0, false, true),
                           dtlb := Fence(m.state.dtlb, va, 0, false, true)))
    case FenceOp(va, asid, vaZero, asidZero) =>
      m.(state := m.state.(itlb := Fence(m.state.itlb, va, asid, vaZero, asidZero),
                           dtlb := Fence(m.state.dtlb, va, asid, vaZero, asidZero)))
  }

  function ApplyAll(per: int, m: Machine, ops: seq<Op>): (r: Machine)
    requires |m.state.itlb| > 0 && |m.state.dtlb| > 0
    ensures |r.state.itlb| > 0 && |r.state.dtlb| > 0
    decreases |ops|
  {
    if ops == [] then m else ApplyAll(per, Apply(per, m, ops[0]), ops[1..])
  }

  /** What one operation does to the page tables and satp as software leaves them. */
  function Next(tables: PageMem, satp: Word, op: Op): (PageMem, Word) {
    match op
    case Edit(t) => (t, satp)
    case EditPage(address, pte, _) => (StorePte(tables, address, pte), satp)
    case SetSatp(p) => (tables, p)
    case _ => (tables, satp)
  }

  /** The page tables and satp as software last left them. */
  function Latest(tables: PageMem, satp: Word, ops: seq<Op>): (PageMem, Word)
    decreases |ops|
  {
    if ops == [] then (tables, satp)
    else
      var (t, p) := Next(tables, satp, ops[0]);
      Latest(t, p, ops[1..])
  }

  /** An edit that relies on a fence for one address is of the kind for which that is enough. */
  ghost predicate EditFenced(tables: PageMem, satp: Word, op: Op) {
    op.EditPage? ==> PageEdit(tables, StorePte(tables, op.address, op.pte), satp % 0x1000_0000_0000, op.pva)
  }

  ghost predicate EditsFenced(tables: PageMem, satp: Word, ops: seq<Op>)
    decreases |ops|
  {
    ops != [] ==>
      var (t, p) := Next(tables, satp, ops[0]);
      EditFenced(tables, satp, ops[0]) && EditsFenced(t, p, ops[1..])
  }

  lemma StoreBoth(m: PageMem, n: PageMem, address: int, pte: Word)
    requires SameTables(m, n)
    ensures SameTables(StorePte(m, address, pte), StorePte(n, address, pte))
  {
    hide SameFields;
    var a, b := StorePte(m, address, pte), StorePte(n, address, pte);
    forall x: int ensures SameFields(a(x), b(x)) {
      assert SameFields(m(x), n(x));
      if x == address { SameFieldsRefl(pte); }
    }
  }

  lemma SameFieldsRefl(p: Word)
    ensures SameFields(p, p)
  {}

  lemma ApplyGood(per: int, m: Machine, tables: PageMem, op: Op)
    requires Good(m.state, tables, m.satp) && EditFenced(tables, m.satp, op)
    ensures var (t, p) := Next(tables, m.satp, op); var r := Apply(per, m, op);
      r.satp == p && Good(r.state, t, p)
  {
    hide Translate, EntryFaithful, SameFields, PageEdit, Fence, StorePte;
    var s := m.state;
    match op
    case Use(va, access, priv, mstatus) => TranslateGood(per, s, tables, m.satp, va, access, priv, mstatus);
    case SetSatp(satp) =>
      EmptyFaithful(tables, Root(satp), FlushBoth(s).itlb);
      EmptyFaithful(tables, Root(satp), FlushBoth(s).dtlb);
    case Edit(t) =>
      SameTablesRefl(t);
      EmptyFaithful(t, Root(m.satp), FlushBoth(s).itlb);
      EmptyFaithful(t, Root(m.satp), FlushBoth(s).dtlb);
    case EditPage(address, pte, va) =>
      StoreBoth(tables, s.mem, address, pte);
      EditThenFence(tables, StorePte(tables, address, pte), Root(m.satp), s.itlb, va, 0);
      EditThenFence(tables, StorePte(tables, address, pte), Root(m.satp), s.dtlb, va, 0);
    case FenceOp(va, asid, vaZero, asidZero) =>
      FenceFaithful(tables, Root(m.satp), s.itlb, va, asid, vaZero, asidZero);
      FenceFaithful(tables, Root(m.satp), s.dtlb, va, asid, vaZero, asidZero);
  }

  lemma SameTablesRefl(t: PageMem)
    ensures SameTables(t, t)
  {}

  lemma {:induction false} ApplyAllGood(per: int, m: Machine, tables: PageMem, ops: seq<Op>)
    requires Good(m.state, tables, m.satp) && EditsFenced(tables, m.satp, ops)
    ensures var (t, p) := Latest(tables, m.satp, ops); var r := ApplyAll(per, m, ops);
      r.satp == p && Good(r.state, t, p)
    decreases |ops|
  {
    hide Good, Apply, EditFenced, Next;
    if ops != [] {
      ApplyGood(per, m, tables, ops[0]);
      var (t, p) := Next(tables, m.satp, ops[0]);
      GoodSizes(m.state, tables, m.satp);
      ApplyAllGood(per, Apply(per, m, ops[0]), t, ops[1..]);
    }
  }

  lemma GoodSizes(s: State, tables: PageMem, satp: Word)
    requires Good(s, tables, satp)
    ensures |s.itlb| > 0 && |s.dtlb| > 0
  {}

  /** TLB transparency: starting with empty TLBs, after any sequence of translations at any
      privilege and mstatus, satp writes, page table edits with a full fence, edits of one page with
      a fence for one of its addresses, and fences of every kind, the next translation gives the same
      fault and cause, or the same physical address, as a walk of the tables software last wrote with no
      TLB at all. */
  lemma TlbTransparent(per: int, s: State, satp: Word, ops: seq<Op>, va: Word, access: Access, priv: Priv, mstatus: Word)
    requires |s.itlb| > 0 && |s.dtlb| > 0
    requires forall i :: 0 <= i < |s.itlb| ==> !s.itlb[i].valid
    requires forall i :: 0 <= i < |s.dtlb| ==> !s.dtlb[i].valid
    requires EditsFenced(s.mem, satp, ops)
    ensures var m := ApplyAll(per, Machine(s, satp), ops); var (tables, p) := Latest(s.mem, satp, ops);
      m.satp == p && Seen(Translate(per, m.state, m.satp, va, access, priv, mstatus).1)
        == Reference(tables, p, va, access, priv, mstatus)
  {
    EmptyFaithful(s.mem, Root(satp), s.itlb);
    EmptyFaithful(s.mem, Root(satp), s.dtlb);
    SameTablesRefl(s.mem);
    hide EntryFaithful, Translate, Reference, SameFields, Apply, EditsFenced;
    ApplyAllGood(per, Machine(s, satp), s.mem, ops);
    var m := ApplyAll(per, Machine(s, satp), ops);
    var (tables, p) := Latest(s.mem, satp, ops);
    TranslateGood(per, m.state, tables, p, va, access, priv, mstatus);
  }

  /** Composed with the walker's conformance: on canonical addresses and tables without reserved
      entries on the way, translation through the TLBs is the architecture's process. */
  lemma TranslatesAsArchitecture(per: int, s: State, satp: Word, ops: seq<Op>, va: Word, access: Access, priv: Priv, mstatus: Word)
    requires |s.itlb| > 0 && |s.dtlb| > 0
    requires forall i :: 0 <= i < |s.itlb| ==> !s.itlb[i].valid
    requires forall i :: 0 <= i < |s.dtlb| ==> !s.dtlb[i].valid
    requires EditsFenced(s.mem, satp, ops)
    requires var (tables, p) := Latest(s.mem, satp, ops);
      Sv39Mode(p) && priv != M && Canonical(va) && !MeetsReserved(tables, Root(p), va, 2)
    ensures var m := ApplyAll(per, Machine(s, satp), ops); var (tables, p) := Latest(s.mem, satp, ops);
      Seen(Translate(per, m.state, m.satp, va, access, priv, mstatus).1)
        == Architecture(tables, Root(p), va, access, priv, Sum(mstatus), Mxr(mstatus))
  {
    hide Translate, ApplyAll, Architecture, WalkOutcome, WalkRoot, MeetsReserved, EditsFenced;
    TlbTransparent(per, s, satp, ops, va, access, priv, mstatus);
    var (tables, p) := Latest(s.mem, satp, ops);
    WalkConforms(tables, Root(p), va, access, priv, Sum(mstatus), Mxr(mstatus));
  }
}
