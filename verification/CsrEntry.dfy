/** Trap entry, return, selection and register writes field by field, from the arguments and the bits of
    the old registers. Modes are their encodings: 0, 1 and 3, and the reserved 2. */
module CsrEntry {
  import opened CsrModel
  import opened Words

  predicate Bit(value: Word, b: nat) { b < 64 && (value / Pow2(b)) % 2 == 1 }

  /** The registers no trap touches. */
  predicate SameControls(c: Csr, d: Csr) {
    d.medeleg == c.medeleg && d.mideleg == c.mideleg && d.mie == c.mie && d.mip == c.mip &&
    d.mtvec == c.mtvec && d.stvec == c.stvec
  }

  predicate SameM(c: Csr, d: Csr) { d.mepc == c.mepc && d.mcause == c.mcause && d.mtval == c.mtval }

  predicate SameS(c: Csr, d: Csr) { d.sepc == c.sepc && d.scause == c.scause && d.stval == c.stval }

  /** Of mstatus only the bits in changed may differ. */
  ghost predicate OnlyBits(c: Csr, d: Csr, changed: Bits) {
    forall b :: b !in changed ==> (b in d.mstatus <==> b in c.mstatus)
  }

  /** d is c having trapped to S-mode: SPIE (bit 5) has SIE (bit 1), SIE is clear, SPP (bit 8) says
      whether the trap came from mode 1. */
  ghost predicate InS(c: Csr, d: Csr, cause: Word, epc: Word, tval: Word) {
    && d.scause == cause && d.sepc == epc && d.stval == tval && SameM(c, d) && SameControls(c, d) && d.priv == 1
    && (5 in d.mstatus <==> 1 in c.mstatus) && 1 !in d.mstatus && (8 in d.mstatus <==> c.priv == 1)
    && OnlyBits(c, d, {1, 5, 8})
  }

  /** d is c having trapped to M-mode: MPIE (bit 7) has MIE (bit 3), MIE is clear, MPP (bits 12:11) is
      the mode the trap came from. */
  ghost predicate InM(c: Csr, d: Csr, cause: Word, epc: Word, tval: Word) {
    && d.mcause == cause && d.mepc == epc && d.mtval == tval && SameS(c, d) && SameControls(c, d) && d.priv == 3
    && (7 in d.mstatus <==> 3 in c.mstatus) && 3 !in d.mstatus
    && (11 in d.mstatus <==> c.priv == 1 || c.priv == 3) && (12 in d.mstatus <==> c.priv == 2 || c.priv == 3)
    && OnlyBits(c, d, {3, 7, 11, 12})
  }

  /** An exception goes to S-mode iff its cause is below 64, its bit in medeleg is set and the mode is
      not M; cause, pc and value are written to that mode's registers. */
  lemma ExceptionEntry(c: Csr, cause: Word, epc: Word, tval: Word)
    ensures var d := Exception(c, cause, epc, tval);
      if cause < 64 && cause in c.medeleg && c.priv != 3 then InS(c, d, cause, epc, tval) else InM(c, d, cause, epc, tval)
  {}

  /** An interrupt's cause has bit 63 set, and its value register is zero. */
  lemma InterruptEntry(c: Csr, line: Line, epc: Word)
    ensures var d, cause := Interrupt(c, line, epc), 0x8000_0000_0000_0000 + line;
      if line in c.mideleg && c.priv != 3 then InS(c, d, cause, epc, 0) else InM(c, d, cause, epc, 0)
  {}

  /** The handler's address: the base for an exception and in direct mode, four bytes further per
      interrupt number for an interrupt in vectored mode. */
  lemma VectorMeaning(base: Word, mode: nat, cause: Word, line: Line)
    requires base % 4 == 0 && mode < 4
    ensures cause < 0x8000_0000_0000_0000 ==> TrapVector(base + mode, cause) == base
    ensures TrapVector(base + mode, 0x8000_0000_0000_0000 + line) ==
      if mode == 1 then (base + 4 * line) % 0x1_0000_0000_0000_0000 else base
  {}

  /** The same of any value of the vector register. */
  lemma VectorOf(tvec: Word, cause: Word, line: Line)
    ensures cause < 0x8000_0000_0000_0000 ==> TrapVector(tvec, cause) == tvec - tvec % 4
    ensures TrapVector(tvec, 0x8000_0000_0000_0000 + line) == Vectored(tvec, line)
  {
    VectorMeaning(tvec - tvec % 4, tvec % 4, cause, line);
  }

  function Vectored(tvec: Word, line: Line): Word {
    if tvec % 4 == 1 then (tvec - 1 + 4 * line) % 0x1_0000_0000_0000_0000 else tvec - tvec % 4
  }

  // ---------------------------------------------------------------- returns

  /** MRET goes to the mode in MPP; MIE gets MPIE, MPIE is set and MPP cleared. */
  lemma MachineReturnMeaning(c: Csr)
    ensures var d := MRet(c);
      && d.priv == (if 12 in c.mstatus then 2 else 0) + (if 11 in c.mstatus then 1 else 0)
      && (3 in d.mstatus <==> 7 in c.mstatus) && 7 in d.mstatus && 11 !in d.mstatus && 12 !in d.mstatus
      && OnlyBits(c, d, {3, 7, 11, 12}) && SameControls(c, d) && SameM(c, d) && SameS(c, d)
  {}

  /** SRET goes to mode 1 or 0 as SPP says; SIE gets SPIE, SPIE is set and SPP cleared. */
  lemma SupervisorReturnMeaning(c: Csr)
    ensures var d := SRet(c);
      && d.priv == (if 8 in c.mstatus then 1 else 0)
      && (1 in d.mstatus <==> 5 in c.mstatus) && 5 in d.mstatus && 8 !in d.mstatus
      && OnlyBits(c, d, {1, 5, 8}) && SameControls(c, d) && SameM(c, d) && SameS(c, d)
  {}

  // ---------------------------------------------------------------- register writes

  /** now is was with the bits in mask replaced by those of value. */
  ghost predicate Replaced(was: Bits, now: Bits, value: Word, mask: Bits) {
    forall b :: b in now <==> if b in mask then Bit(value, b) else b in was
  }

  /** A write reaches its register iff the mode is at least bits 9:8 of the address and bits 11:10 are not
      both set; each register keeps the bits its mask leaves out. */
  lemma WriteMeaning(c: Csr, address: nat, value: Word)
    requires address < 0x1000
    ensures var d := WriteCsr(c, address, value);
      var allowed := c.priv >= (address / 0x100) % 4 && address / 0x400 != 3;
      && (address != 0x300 && address != 0x100 ==> d.mstatus == c.mstatus)
      && (address != 0x304 && address != 0x104 ==> d.mie == c.mie)
      && (address != 0x344 && address != 0x144 ==> d.mip == c.mip)
      && (address != 0x302 ==> d.medeleg == c.medeleg) && (address != 0x303 ==> d.mideleg == c.mideleg)
      && (address != 0x305 ==> d.mtvec == c.mtvec) && (address != 0x105 ==> d.stvec == c.stvec)
      && (address < 0x341 || address > 0x343 ==> SameM(c, d)) && (address < 0x141 || address > 0x143 ==> SameS(c, d))
      && d.priv == c.priv && (!allowed ==> d == c)
  {}

  lemma MergeBits(was: Bits, value: Word, mask: Bits)
    ensures Replaced(was, Merge(was, BitsOf(value), mask), value, mask)
    ensures Replaced({}, BitsOf(value) * mask, value, mask)
  {
    hide Pow2;
  }

  /** The bits of mstatus, medeleg, mideleg, mie and mip that a machine-mode write reaches. */
  lemma MachineWrites(c: Csr, value: Word)
    requires c.priv == 3
    ensures Replaced(c.mstatus, WriteCsr(c, 0x300, value).mstatus, value, {1, 3, 5, 7, 8, 11, 12, 13, 14, 17, 18, 19, 20, 21, 22})
    ensures Replaced({}, WriteCsr(c, 0x302, value).medeleg, value, {0, 1, 2, 3, 4, 5, 6, 7, 8, 9, 12, 13, 15})
    ensures Replaced({}, WriteCsr(c, 0x303, value).mideleg, value, {1, 5, 9})
    ensures Replaced({}, WriteCsr(c, 0x304, value).mie, value, {1, 3, 5, 7, 9, 11})
    ensures Replaced(c.mip, WriteCsr(c, 0x344, value).mip, value, {1, 5, 9})
  {
    hide Replaced, Merge, BitsOf;
    MergeBits(c.mstatus, value, {1, 3, 5, 7, 8, 11, 12, 13, 14, 17, 18, 19, 20, 21, 22});
    MergeBits({}, value, {0, 1, 2, 3, 4, 5, 6, 7, 8, 9, 12, 13, 15});
    MergeBits(c.mip, value, {1, 5, 9});
    MergeBits({}, value, {1, 3, 5, 7, 9, 11});
  }

  /** The bits of mstatus, mie and mip that a supervisor write reaches: the fields of sstatus, and
      elsewhere what is delegated. */
  lemma SupervisorWrites(c: Csr, value: Word)
    requires c.priv >= 1
    ensures Replaced(c.mstatus, WriteCsr(c, 0x100, value).mstatus, value, {0, 1, 4, 5, 8, 13, 14, 15, 16, 18, 19, 32, 33, 63})
    ensures Replaced(c.mie, WriteCsr(c, 0x104, value).mie, value, c.mideleg)
    ensures Replaced(c.mip, WriteCsr(c, 0x144, value).mip, value, c.mideleg * {1, 5, 9})
  {
    hide Replaced, Merge, BitsOf;
    MergeBits(c.mstatus, value, {0, 1, 4, 5, 8, 13, 14, 15, 16, 18, 19, 32, 33, 63});
    MergeBits(c.mie, value, c.mideleg);
    MergeBits(c.mip, value, c.mideleg * {1, 5, 9});
  }

  /** mepc and sepc lose bit 0, the trap vectors bit 1; causes and values are kept whole. */
  lemma WriteWords(c: Csr, value: Word)
    ensures c.priv == 3 ==>
      && WriteCsr(c, 0x305, value) == c.(mtvec := (value / 4) * 4 + value % 2)
      && WriteCsr(c, 0x341, value) == c.(mepc := (value / 2) * 2)
      && WriteCsr(c, 0x342, value) == c.(mcause := value) && WriteCsr(c, 0x343, value) == c.(mtval := value)
    ensures c.priv >= 1 ==>
      && WriteCsr(c, 0x105, value) == c.(stvec := (value / 4) * 4 + value % 2)
      && WriteCsr(c, 0x141, value) == c.(sepc := (value / 2) * 2)
      && WriteCsr(c, 0x142, value) == c.(scause := value) && WriteCsr(c, 0x143, value) == c.(stval := value)
  {}

  // ---------------------------------------------------------------- selection

  /** Interrupt i is pending, enabled and goes to M-mode: it is not delegated, and the mode is below M or
      MIE (bit 3) is set. */
  predicate ForM(c: Csr, i: nat) { i in c.mip && i in c.mie && i !in c.mideleg && (c.priv < 3 || 3 in c.mstatus) }

  /** Interrupt i is pending, enabled and goes to S-mode: it is delegated, and the mode is U, or S with
      SIE (bit 1) set. */
  predicate ForS(c: Csr, i: nat) {
    i in c.mip && i in c.mie && i in c.mideleg && (c.priv == 0 || (c.priv == 1 && 1 in c.mstatus))
  }

  /** When each interrupt is selected: 11 before 3 before 7 of those bound for M-mode, and with none of them
      9 before 1 before 5 of those bound for S-mode. */
  lemma SelectionExact(c: Csr)
    ensures var m := ForM(c, 11) || ForM(c, 3) || ForM(c, 7);
      && (Pending(c) == Take(11) <==> ForM(c, 11))
      && (Pending(c) == Take(3) <==> ForM(c, 3) && !ForM(c, 11))
      && (Pending(c) == Take(7) <==> ForM(c, 7) && !ForM(c, 11) && !ForM(c, 3))
      && (Pending(c) == Take(9) <==> ForS(c, 9) && !m)
      && (Pending(c) == Take(1) <==> ForS(c, 1) && !m && !ForS(c, 9))
      && (Pending(c) == Take(5) <==> ForS(c, 5) && !m && !ForS(c, 9) && !ForS(c, 1))
      && (Pending(c) == None <==> !m && !ForS(c, 9) && !ForS(c, 1) && !ForS(c, 5))
  {
    forall i: Line ensures ForM(c, i) == TakesM(c, i) && ForS(c, i) == TakesS(c, i) {}
    forall i: Line | ForM(c, i) || ForS(c, i) ensures i in c.mip * c.mie {}
    hide ForM, ForS, TakesM, TakesS;
  }
}
