/** Interrupt selection and privilege: selection agrees with entry and with the architecture, an
    entered handler is not re-entered, and no trap lowers the privilege. */
module CsrTraps {
  import opened CsrModel
  import opened CsrEntry
  import opened Words

  /** An interrupt is selected for S-mode exactly when taking it enters S-mode; it is one of the six
      implemented ones. */
  lemma SelectionAgreesWithEntry(c: Csr, epc: Word)
    requires Pending(c).Take?
    ensures var i := Pending(c).line;
      && (i == 11 || i == 3 || i == 7 || i == 9 || i == 1 || i == 5)
      && (InterruptToS(c, i) <==> i == 9 || i == 1 || i == 5)
      && Interrupt(c, i, epc).priv == (if i == 9 || i == 1 || i == 5 then S else M)
  {}

  /** What decides selection once a handler has been entered. */
  lemma EnteredIsQuiet(c: Csr, i: Line, epc: Word, d: Csr)
    requires Pending(c) == Take(i)
    requires var e := Interrupt(c, i, epc);
      d.priv == e.priv && d.mstatus == e.mstatus && d.mip == e.mip && d.mie == e.mie &&
      (e.priv == S ==> d.mideleg == e.mideleg)
    ensures Pending(d) == None
  {}

  datatype RegWrite = RegWrite(address: nat, value: Word)

  function Writes(c: Csr, ws: seq<RegWrite>): Csr
    decreases |ws|
  {
    if ws == [] then c else Writes(WriteCsr(c, ws[0].address, ws[0].value), ws[1..])
  }

  lemma {:induction false} WritesKeep(c: Csr, ws: seq<RegWrite>)
    ensures var d := Writes(c, ws); d.priv == c.priv && (c.priv == S ==> d.mideleg == c.mideleg)
    decreases |ws|
  {
    if ws != [] { WritesKeep(WriteCsr(c, ws[0].address, ws[0].value), ws[1..]); }
  }

  /** No re-entry: once the selected interrupt is taken nothing is selected, whatever the handler
      writes, as long as mip, mie and mstatus are as they were at entry. */
  lemma NoReentry(c: Csr, epc: Word, ws: seq<RegWrite>)
    requires Pending(c).Take?
    requires var e := Interrupt(c, Pending(c).line, epc); var d := Writes(e, ws);
      d.mip == e.mip && d.mie == e.mie && d.mstatus == e.mstatus
    ensures Pending(Writes(Interrupt(c, Pending(c).line, epc), ws)) == None
  {
    var i := Pending(c).line;
    var e := Interrupt(c, i, epc);
    WritesKeep(e, ws);
    EnteredIsQuiet(c, i, epc, Writes(e, ws));
  }

  // ---------------------------------------------------------------- the architecture's choice

  /** The registers stay inside their write masks. */
  ghost predicate Masked(c: Csr) {
    c.medeleg <= MEDELEG_MASK && c.mideleg <= MIDELEG_MASK && c.mie <= MIE_MASK
  }

  lemma WriteStaysMasked(c: Csr, address: nat, value: Word)
    requires Masked(c)
    ensures Masked(WriteCsr(c, address, value))
  {}

  /** MEI, MSI, MTI, SEI, SSI, STI: the order section 3.1.9 of the Privileged Architecture v1.11 gives to
      interrupts bound for one mode. Section 3.1.14 of v1.10 orders external before software before timer
      and does not rank machine against supervisor ones. */
  function Rank(i: Line): nat {
    if i == 11 then 0 else if i == 3 then 1 else if i == 7 then 2
    else if i == 9 then 3 else if i == 1 then 4 else if i == 5 then 5 else 6
  }

  /** The architecture's choice: an interrupt bound for M-mode before any bound for S-mode, and among
      those for one mode the first in rank. */
  ghost predicate Architectural(c: Csr, r: Choice) {
    match r
    case None => forall i: Line :: !ForM(c, i) && !ForS(c, i)
    case Take(i) =>
      if ForM(c, i) then forall j: Line :: ForM(c, j) ==> Rank(i) <= Rank(j)
      else ForS(c, i) && (forall j: Line :: !ForM(c, j)) && forall j: Line :: ForS(c, j) ==> Rank(i) <= Rank(j)
  }

  /** Some supervisor interrupt that is not delegated is enabled and pending. */
  predicate UndelegatedSupervisor(c: Csr) { ForM(c, 9) || ForM(c, 1) || ForM(c, 5) }

  predicate MachineReady(c: Csr) { ForM(c, 11) || ForM(c, 3) || ForM(c, 7) }

  /** Selection is the architecture's unless a supervisor interrupt that was not delegated, and
      no machine interrupt, is ready: those the simulator never traps to M-mode. */
  lemma SelectionIsArchitectural(c: Csr)
    requires Masked(c)
    ensures Architectural(c, Pending(c)) <==> !(UndelegatedSupervisor(c) && !MachineReady(c))
  {
    forall i: Line | ForM(c, i) || ForS(c, i)
      ensures i in c.mip * c.mie && i in MIE_MASK && (ForM(c, i) <==> !ForS(c, i))
    {}
  }

  /** A failing state: U-mode, a supervisor external interrupt pending and enabled, nothing delegated.
      The architecture takes it in M-mode; the simulator takes nothing. */
  lemma UndelegatedIgnored()
    ensures var c := Csr(U, {}, {}, {}, {9}, {9}, 0, 0, 0, 0, 0, 0, 0, 0);
      Masked(c) && Pending(c) == None && Architectural(c, Take(9)) && !Architectural(c, None)
  {
    var c := Csr(U, {}, {}, {}, {9}, {9}, 0, 0, 0, 0, 0, 0, 0, 0);
    assert ForM(c, 9);
  }

  // ---------------------------------------------------------------- privilege

  /** A trap lowers the privilege only out of the reserved mode 2. */
  lemma TrapLowersOnlyReserved(c: Csr, cause: Word, epc: Word, tval: Word)
    ensures Exception(c, cause, epc, tval).priv < c.priv <==> c.priv == 2 && ExceptionToS(c, cause)
    ensures cause < 64 ==> (Interrupt(c, cause, epc).priv < c.priv <==> c.priv == 2 && InterruptToS(c, cause))
  {}

  lemma PowersUsed()
    ensures Pow2(8) == 0x100 && Pow2(11) == 0x800 && Pow2(12) == 0x1000
  {
    Pow2Values();
    Pow2Sum(8, 2);
    assert Pow2(11) == 2 * Pow2(10) && Pow2(12) == 2 * Pow2(11);
  }

  /** A failing run from reset: delegate environment calls from U-mode, write MPP = 2, return, and take
      such a call. It enters S-mode out of mode 2. */
  lemma ReservedModeTrapsDown(epc: Word)
    ensures var reset := Csr(M, {33, 35}, {}, {}, {}, {}, 0, 0, 0, 0, 0, 0, 0, 0);
      var c := MRet(WriteCsr(WriteCsr(reset, 0x302, 0x100), 0x300, 0x1000));
      c.priv == 2 && Exception(c, 8, epc, 0).priv == S
  {
    var reset := Csr(M, {33, 35}, {}, {}, {}, {}, 0, 0, 0, 0, 0, 0, 0, 0);
    PowersUsed();
    hide Pow2;
    assert 8 in BitsOf(0x100) && 11 !in BitsOf(0x1000) && 12 in BitsOf(0x1000);
    hide BitsOf;
    var c := WriteCsr(reset, 0x302, 0x100);
    assert c.priv == M && 8 in c.medeleg;
    ReservedModeReachable(c, 0x1000);
  }

  /** The reserved mode is reachable: mstatus accepts MPP = 2 and the machine return enters it. */
  lemma ReservedModeReachable(c: Csr, value: Word)
    requires c.priv == M
    ensures MRet(WriteCsr(c, 0x300, value)).priv == 2 <==> 11 !in BitsOf(value) && 12 in BitsOf(value)
  {
    assert Permitted(c, 0x300);
  }
}
