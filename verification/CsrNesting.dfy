/** Nested traps unwind: whole handler runs, with traps inside traps, end where they started. */
module CsrNesting {
  import opened CsrModel
  import opened Words

  datatype Trap = Sync(cause: Word, tval: Word) | Async(line: Line)

  /** What happens while a handler runs: register writes, interrupt lines moving, and complete
      nested traps, each with its handler's own run up to the matching return. */
  datatype Item = Write(address: nat, value: Word) | Lines(mip: Bits) | Nested(trap: Trap, epc: Word, body: seq<Item>)

  predicate ToS(c: Csr, t: Trap) {
    match t
    case Sync(cause, _) => ExceptionToS(c, cause)
    case Async(line) => InterruptToS(c, line)
  }

  function Enter(c: Csr, t: Trap, epc: Word): Csr {
    match t
    case Sync(cause, tval) => Exception(c, cause, epc, tval)
    case Async(line) => Interrupt(c, line, epc)
  }

  /** The handler's own return instruction, and the address it returns to. */
  function Leave(c: Csr, toS: bool): Csr { if toS then SRet(c) else MRet(c) }

  function ReturnPc(c: Csr, toS: bool): Word { if toS then c.sepc else c.mepc }

  function One(c: Csr, item: Item): Csr
    decreases item
  {
    match item
    case Write(address, value) => WriteCsr(c, address, value)
    case Lines(mip) => c.(mip := mip)
    case Nested(t, epc, body) => Leave(Exec(Enter(c, t, epc), body), ToS(c, t))
  }

  function Exec(c: Csr, items: seq<Item>): Csr
    decreases items
  {
    if items == [] then c else Exec(One(c, items[0]), items[1..])
  }

  /** The fields a return from S-mode, or from M-mode, reads back. */
  const S_STACK: Bits := {5, 8}
  const M_STACK: Bits := {7, 11, 12}

  ghost predicate KeptS(e: Csr, x: Csr) { x.sepc == e.sepc && x.mstatus * S_STACK == e.mstatus * S_STACK }

  ghost predicate KeptM(e: Csr, x: Csr) { x.mepc == e.mepc && x.mstatus * M_STACK == e.mstatus * M_STACK }

  /** The handler's return information is what entry made it: never written, or put back. */
  ghost predicate Kept(e: Csr, x: Csr, toS: bool) { if toS then KeptS(e, x) else KeptM(e, x) }

  ghost predicate DisciplinedOne(c: Csr, item: Item)
    decreases item
  {
    match item
    case Nested(t, epc, body) =>
      var e := Enter(c, t, epc);
      Disciplined(e, body) && Kept(e, Exec(e, body), ToS(c, t))
    case _ => true
  }

  /** Every handler in the run returns with its return information kept. */
  ghost predicate Disciplined(c: Csr, items: seq<Item>)
    decreases items
  {
    items != [] ==> DisciplinedOne(c, items[0]) && Disciplined(One(c, items[0]), items[1..])
  }

  lemma InStack(a: Bits, b: Bits, mask: Bits, i: nat)
    requires a * mask == b * mask && i in mask
    ensures i in a <==> i in b
  {
    assert i in a * mask <==> i in a;
    assert i in b * mask <==> i in b;
  }

  /** Entry to S-mode, then a run that keeps the stack, then the return. */
  lemma SFrame(c: Csr, cause: Word, epc: Word, tval: Word, x: Csr)
    requires (c.priv == U || c.priv == S) && KeptS(TrapS(c, cause, epc, tval), x)
    ensures x.sepc == epc && SRet(x).priv == c.priv && (SIE in SRet(x).mstatus <==> SIE in c.mstatus)
    ensures MIE in SRet(x).mstatus <==> MIE in x.mstatus
    ensures MIE in TrapS(c, cause, epc, tval).mstatus <==> MIE in c.mstatus
  {
    var e := TrapS(c, cause, epc, tval);
    InStack(x.mstatus, e.mstatus, S_STACK, SPIE);
    InStack(x.mstatus, e.mstatus, S_STACK, SPP);
  }

  lemma MFrame(c: Csr, cause: Word, epc: Word, tval: Word, x: Csr)
    requires KeptM(TrapM(c, cause, epc, tval), x)
    ensures x.mepc == epc && MRet(x).priv == c.priv && (MIE in MRet(x).mstatus <==> MIE in c.mstatus)
  {
    var e := TrapM(c, cause, epc, tval);
    InStack(x.mstatus, e.mstatus, M_STACK, MPIE);
    InStack(x.mstatus, e.mstatus, M_STACK, 11);
    InStack(x.mstatus, e.mstatus, M_STACK, 12);
  }

  /** One complete trap: where it ends, given that its handler's run kept the mode, and MIE when in S. */
  lemma FrameEnds(c: Csr, t: Trap, epc: Word, x: Csr)
    requires c.priv != 2
    requires Kept(Enter(c, t, epc), x, ToS(c, t))
    requires ToS(c, t) ==> (MIE in x.mstatus <==> MIE in Enter(c, t, epc).mstatus)
    ensures var d := Leave(x, ToS(c, t));
      && ReturnPc(x, ToS(c, t)) == epc && d.priv == c.priv
      && (MIE in d.mstatus <==> MIE in c.mstatus)
      && (ToS(c, t) ==> (SIE in d.mstatus <==> SIE in c.mstatus))
  {
    hide KeptS, KeptM, StackS, StackM, SRet, MRet;
    match t
    case Sync(cause, tval) =>
      if ToS(c, t) { SFrame(c, cause, epc, tval, x); } else { MFrame(c, cause, epc, tval, x); }
    case Async(line) =>
      if ToS(c, t) { SFrame(c, INTERRUPT + line, epc, 0, x); } else { MFrame(c, INTERRUPT + line, epc, 0, x); }
  }

  /** A handler's run keeps its mode, and in S-mode it keeps MIE. */
  ghost predicate SameLevel(c: Csr, d: Csr) {
    d.priv == c.priv && (c.priv == S ==> (MIE in d.mstatus <==> MIE in c.mstatus))
  }

  lemma WriteSameLevel(c: Csr, address: nat, value: Word)
    ensures SameLevel(c, WriteCsr(c, address, value))
  {
    hide BitsOf, Merge;
    MergeOutside(c.mstatus, BitsOf(value), SSTATUS_MASK, MIE);
  }

  lemma MergeOutside(was: Bits, value: Bits, mask: Bits, i: nat)
    requires i !in mask
    ensures i in Merge(was, value, mask) <==> i in was
  {}

  lemma {:induction false} OneSameLevel(c: Csr, item: Item)
    requires (c.priv == S || c.priv == M) && DisciplinedOne(c, item)
    ensures SameLevel(c, One(c, item))
    decreases item, 0
  {
    hide StackS, StackM, SRet, MRet, Kept;
    match item
    case Write(address, value) => WriteSameLevel(c, address, value);
    case Lines(_) =>
    case Nested(t, epc, body) =>
      var e := Enter(c, t, epc);
      RunSameLevel(e, body);
      FrameEnds(c, t, epc, Exec(e, body));
  }

  lemma {:induction false} RunSameLevel(c: Csr, items: seq<Item>)
    requires (c.priv == S || c.priv == M) && Disciplined(c, items)
    ensures SameLevel(c, Exec(c, items))
    decreases items
  {
    if items != [] {
      OneSameLevel(c, items[0]);
      RunSameLevel(One(c, items[0]), items[1..]);
    }
  }

  /** Traps nested to any depth unwind: the return address, the mode and MIE are those at the trap, and
      for a trap to S-mode so is SIE. */
  lemma TrapsUnwind(c: Csr, t: Trap, epc: Word, body: seq<Item>)
    requires c.priv != 2 && DisciplinedOne(c, Nested(t, epc, body))
    ensures var d := One(c, Nested(t, epc, body)); var x := Exec(Enter(c, t, epc), body);
      && ReturnPc(x, ToS(c, t)) == epc && d.priv == c.priv
      && (MIE in d.mstatus <==> MIE in c.mstatus)
      && (ToS(c, t) ==> (SIE in d.mstatus <==> SIE in c.mstatus))
  {
    var e := Enter(c, t, epc);
    RunSameLevel(e, body);
    FrameEnds(c, t, epc, Exec(e, body));
  }

  // ---------------------------------------------------------------- handlers that leave the stacks alone

  /** A run whose writes leave xepc and the stacked fields alone, and whose traps all go from S-mode to
      M-mode handlers of the same kind. */
  ghost predicate QuietOne(c: Csr, item: Item)
    decreases item
  {
    match item
    case Write(address, value) => var d := WriteCsr(c, address, value); KeptS(c, d) && KeptM(c, d)
    case Lines(_) => true
    case Nested(t, epc, body) => c.priv == S && !ToS(c, t) && Quiet(Enter(c, t, epc), body)
  }

  ghost predicate Quiet(c: Csr, items: seq<Item>)
    decreases items
  {
    items != [] ==> QuietOne(c, items[0]) && Quiet(One(c, items[0]), items[1..])
  }

  /** An M-mode trap and return disturb nothing an S-mode return reads. */
  lemma MFrameKeepsS(c: Csr, t: Trap, epc: Word, x: Csr)
    requires !ToS(c, t) && KeptS(Enter(c, t, epc), x)
    ensures KeptS(c, MRet(x))
  {
    var e := Enter(c, t, epc);
    assert e.mstatus * S_STACK == c.mstatus * S_STACK;
    assert MRet(x).mstatus * S_STACK == x.mstatus * S_STACK;
  }

  lemma {:induction false} QuietOneKeeps(c: Csr, item: Item)
    requires (c.priv == S || c.priv == M) && QuietOne(c, item)
    ensures DisciplinedOne(c, item) && KeptS(c, One(c, item)) && (c.priv == M ==> KeptM(c, One(c, item)))
    ensures One(c, item).priv == c.priv
    decreases item, 0
  {
    hide StackS, StackM, SRet, MRet, KeptS, KeptM;
    match item
    case Write(address, value) => WriteSameLevel(c, address, value);
    case Lines(_) => SameStacks(c, One(c, item));
    case Nested(t, epc, body) =>
      var e := Enter(c, t, epc);
      QuietKeeps(e, body);
      RunSameLevel(e, body);
      MFrameKeepsS(c, t, epc, Exec(e, body));
      FrameEnds(c, t, epc, Exec(e, body));
  }

  lemma SameStacks(c: Csr, d: Csr)
    requires c.sepc == d.sepc && c.mepc == d.mepc && c.mstatus == d.mstatus
    ensures KeptS(c, d) && KeptM(c, d)
  {}

  lemma {:induction false} QuietKeeps(c: Csr, items: seq<Item>)
    requires (c.priv == S || c.priv == M) && Quiet(c, items)
    ensures Disciplined(c, items) && KeptS(c, Exec(c, items)) && (c.priv == M ==> KeptM(c, Exec(c, items)))
    decreases items
  {
    if items != [] {
      QuietOneKeeps(c, items[0]);
      QuietKeeps(One(c, items[0]), items[1..]);
    }
  }

  /** A trap to S-mode from U or S, a handler that may itself be interrupted by M-mode handlers, and
      the S-mode return: the return address, the mode, SIE and MIE are all back. */
  lemma SupervisorTrapUnwinds(c: Csr, t: Trap, epc: Word, body: seq<Item>)
    requires (c.priv == U || c.priv == S) && ToS(c, t) && Quiet(Enter(c, t, epc), body)
    ensures var x := Exec(Enter(c, t, epc), body); var d := SRet(x);
      && x.sepc == epc && d.priv == c.priv
      && (SIE in d.mstatus <==> SIE in c.mstatus) && (MIE in d.mstatus <==> MIE in c.mstatus)
  {
    hide KeptS, KeptM, StackS, SRet;
    QuietKeeps(Enter(c, t, epc), body);
    TrapsUnwind(c, t, epc, body);
  }

  // ---------------------------------------------------------------- every other bit

  ghost predicate WriteFree(items: seq<Item>)
    decreases items
  {
    forall i :: 0 <= i < |items| ==> !items[i].Write? && (items[i].Nested? ==> WriteFree(items[i].body))
  }

  const STACKED: Bits := {5, 7, 8, 11, 12}

  /** Complete traps, nested to any depth, change no mstatus bit but the xPIE and xPP fields. */
  lemma {:induction false} OnlyStackedBitsChange(c: Csr, items: seq<Item>)
    requires (c.priv == S || c.priv == M) && Disciplined(c, items) && WriteFree(items)
    ensures Exec(c, items).mstatus - STACKED == c.mstatus - STACKED
    decreases items, 1
  {
    if items != [] {
      assert items[0] in items;
      OnlyStackedOne(c, items[0]);
      OneSameLevel(c, items[0]);
      OnlyStackedBitsChange(One(c, items[0]), items[1..]);
    }
  }

  lemma {:induction false} OnlyStackedOne(c: Csr, item: Item)
    requires c.priv != 2 && DisciplinedOne(c, item)
    requires !item.Write? && (item.Nested? ==> WriteFree(item.body))
    ensures One(c, item).mstatus - STACKED == c.mstatus - STACKED
    decreases item, 0
  {
    match item
    case Lines(_) =>
    case Nested(t, epc, body) =>
      var e := Enter(c, t, epc);
      OnlyStackedBitsChange(e, body);
      RunSameLevel(e, body);
      FrameOther(c, t, epc, Exec(e, body));
  }

  /** The fields a trap and its return write, the enables apart, are stacked ones. */
  lemma FrameOther(c: Csr, t: Trap, epc: Word, x: Csr)
    requires c.priv != 2 && Kept(Enter(c, t, epc), x, ToS(c, t))
    requires x.mstatus - STACKED == Enter(c, t, epc).mstatus - STACKED
    ensures Leave(x, ToS(c, t)).mstatus - STACKED == c.mstatus - STACKED
  {
    var e, d := Enter(c, t, epc), Leave(x, ToS(c, t));
    SameOutside(x.mstatus, e.mstatus, MIE);
    FrameEnds(c, t, epc, x);
    forall i: nat | i !in STACKED ensures i in d.mstatus <==> i in c.mstatus {
      SameOutside(x.mstatus, e.mstatus, i);
    }
  }

  lemma SameOutside(a: Bits, b: Bits, i: nat)
    requires a - STACKED == b - STACKED && i !in STACKED
    ensures i in a <==> i in b
  {
    assert i in a - STACKED <==> i in a;
    assert i in b - STACKED <==> i in b;
  }

  // ---------------------------------------------------------------- what goes wrong otherwise

  /** A trap inside an M-mode handler that does not save its stack loses the outer return: whatever the
      mode was, the second machine return lands in U-mode, at the inner trap's address. */
  lemma UnsavedNestingEndsInUser(c: Csr, t1: Trap, epc1: Word, t2: Trap, epc2: Word)
    requires !ToS(c, t1)
    ensures var d := MRet(Enter(Enter(c, t1, epc1), t2, epc2)); d.priv == M && MRet(d).priv == U && d.mepc == epc2
  {}
}
