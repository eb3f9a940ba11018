/** The trap side of the control and status registers (inc/CSR_File.h) on values: trap entry and
    return, interrupt selection, and the masked register writes they depend on. A register used
    bit by bit is the set of its bit numbers; one used as a whole is a word. */
module CsrModel {
  import opened Words

  type Bits = set<nat>

  /** Bit numbers of the mstatus fields; the two-bit MPP field is bits 11 and 12. */
  const SIE := 1
  const MIE := 3
  const SPIE := 5
  const MPIE := 7
  const SPP := 8
  const MPP: Bits := {11, 12}

  const MSTATUS_WRITE_MASK: Bits := {1, 3, 5, 7, 8, 11, 12, 13, 14, 17, 18, 19, 20, 21, 22}
  const SSTATUS_MASK: Bits := {0, 1, 4, 5, 8, 13, 14, 15, 16, 18, 19, 32, 33, 63}
  const MEDELEG_MASK: Bits := {0, 1, 2, 3, 4, 5, 6, 7, 8, 9, 12, 13, 15}
  const MIDELEG_MASK: Bits := {1, 5, 9}
  const MIE_MASK: Bits := {1, 3, 5, 7, 9, 11}
  const MIP_SW_MASK: Bits := {1, 5, 9}

  /** Privilege modes, by their encoding in xPP; 2 is reserved, but an MPP field can hold it. */
  type Mode = m: int | 0 <= m < 4
  const U: Mode := 0
  const S: Mode := 1
  const M: Mode := 3

  const INTERRUPT := 0x8000_0000_0000_0000

  datatype Csr = Csr(
    priv: Mode, mstatus: Bits, medeleg: Bits, mideleg: Bits, mie: Bits, mip: Bits,
    mtvec: Word, mepc: Word, mcause: Word, mtval: Word,
    stvec: Word, sepc: Word, scause: Word, stval: Word)

  /** The bit numbers set in a word. */
  function BitsOf(w: Word): Bits { set i: nat | i < 64 && (w / Pow2(i)) % 2 == 1 }

  function PutBit(w: Bits, b: nat, on: bool): Bits { if on then w + {b} else w - {b} }

  /** The two-bit MPP field. */
  function MppOf(w: Bits): Mode { (if 11 in w then 1 else 0) + (if 12 in w then 2 else 0) }

  function MppBits(m: Mode): Bits { (if m % 2 == 1 then {11} else {}) + (if m >= 2 then {12} else {}) }

  // ---------------------------------------------------------------- traps

  /** xIE moves to xPIE and is cleared; the previous mode goes to xPP. */
  function StackS(mstatus: Bits, priv: Mode): Bits {
    PutBit(PutBit(mstatus, SPIE, SIE in mstatus) - {SIE}, SPP, priv == S)
  }

  function StackM(mstatus: Bits, priv: Mode): Bits {
    ((PutBit(mstatus, MPIE, MIE in mstatus) - {MIE}) - MPP) + MppBits(priv)
  }

  function TrapS(c: Csr, cause: Word, epc: Word, tval: Word): Csr {
    c.(scause := cause, sepc := epc, stval := tval, mstatus := StackS(c.mstatus, c.priv), priv := S)
  }

  function TrapM(c: Csr, cause: Word, epc: Word, tval: Word): Csr {
    c.(mcause := cause, mepc := epc, mtval := tval, mstatus := StackM(c.mstatus, c.priv), priv := M)
  }

  /** An exception below M-mode whose cause is delegated goes to S-mode, any other to M-mode. */
  predicate ExceptionToS(c: Csr, cause: Word) { cause < 64 && cause in c.medeleg && c.priv != M }

  function Exception(c: Csr, cause: Word, epc: Word, tval: Word): Csr {
    if ExceptionToS(c, cause) then TrapS(c, cause, epc, tval) else TrapM(c, cause, epc, tval)
  }

  /** An interrupt number. */
  type Line = i: int | 0 <= i < 64

  predicate InterruptToS(c: Csr, i: Line) { i in c.mideleg && c.priv != M }

  function Interrupt(c: Csr, i: Line, epc: Word): Csr {
    if InterruptToS(c, i) then TrapS(c, INTERRUPT + i, epc, 0) else TrapM(c, INTERRUPT + i, epc, 0)
  }

  /** Where the trap handler starts: vectored mode spreads interrupts only. */
  function TrapVector(tvec: Word, cause: Word): Word {
    var base := tvec - tvec % 4;
    if tvec % 4 == 1 && cause >= INTERRUPT then Wrap(base + 4 * (cause % 0x800)) else base
  }

  function MRet(c: Csr): Csr {
    c.(priv := MppOf(c.mstatus), mstatus := (PutBit(c.mstatus, MIE, MPIE in c.mstatus) + {MPIE}) - MPP)
  }

  function SRet(c: Csr): Csr {
    c.(priv := if SPP in c.mstatus then S else U,
       mstatus := (PutBit(c.mstatus, SIE, SPIE in c.mstatus) + {SPIE}) - {SPP})
  }

  // ---------------------------------------------------------------- interrupt selection

  predicate MEnabled(c: Csr) { c.priv != M || MIE in c.mstatus }

  predicate SEnabled(c: Csr) { c.priv == U || (c.priv == S && SIE in c.mstatus) }

  predicate TakesM(c: Csr, i: Line) { MEnabled(c) && i in c.mip && i in c.mie && i !in c.mideleg }

  predicate TakesS(c: Csr, i: Line) { SEnabled(c) && i in c.mip && i in c.mie && i in c.mideleg }

  /** The interrupt to take now, if any. */
  datatype Choice = None | Take(line: Line)

  function Pending(c: Csr): Choice {
    if c.mip * c.mie == {} then None
    else if TakesM(c, 11) then Take(11)
    else if TakesM(c, 3) then Take(3)
    else if TakesM(c, 7) then Take(7)
    else if TakesS(c, 9) then Take(9)
    else if TakesS(c, 1) then Take(1)
    else if TakesS(c, 5) then Take(5)
    else None
  }

  // ---------------------------------------------------------------- register writes

  /** Bits 9:8 of the address are the least privilege, bits 11:10 all ones mean read-only. */
  predicate Permitted(c: Csr, address: nat) { (address / 256) % 4 <= c.priv && address / 1024 != 3 }

  function Merge(was: Bits, value: Bits, mask: Bits): Bits { (was - mask) + (value * mask) }

  /** The registers that trap entry, return and interrupt selection read or write. */
  predicate TrapRegister(address: nat) {
    address in {0x100, 0x104, 0x105} || 0x141 <= address <= 0x144 ||
    address in {0x300, 0x302, 0x303, 0x304, 0x305} || 0x341 <= address <= 0x344
  }

  /** The others a write reaches: floating point, scratch, satp, counter enables, event selectors and
      counters, memory protection, and those that ignore it. */
  predicate OtherRegister(address: nat) {
    1 <= address <= 3 || address in {0x106, 0x140, 0x180, 0x301, 0x306, 0x30A, 0x320, 0x340, 0x747, 0xB00, 0xB02} ||
    0x323 <= address <= 0x33F || 0xB03 <= address <= 0xB1F || 0x3A0 <= address <= 0x3A3 || 0x3B0 <= address <= 0x3BF
  }

  predicate Writable(address: nat) { TrapRegister(address) || OtherRegister(address) }

  /** A CSR write as far as the trap registers go; a write that is not permitted changes nothing. */
  function WriteCsr(c: Csr, address: nat, value: Word): Csr {
    if !Permitted(c, address) then c
    else if address == 0x300 then c.(mstatus := Merge(c.mstatus, BitsOf(value), MSTATUS_WRITE_MASK))
    else if address == 0x302 then c.(medeleg := BitsOf(value) * MEDELEG_MASK)
    else if address == 0x303 then c.(mideleg := BitsOf(value) * MIDELEG_MASK)
    else if address == 0x304 then c.(mie := BitsOf(value) * MIE_MASK)
    else if address == 0x305 then c.(mtvec := ClearMode(value))
    else if address == 0x341 then c.(mepc := value - value % 2)
    else if address == 0x342 then c.(mcause := value)
    else if address == 0x343 then c.(mtval := value)
    else if address == 0x344 then c.(mip := Merge(c.mip, BitsOf(value), MIP_SW_MASK))
    else if address == 0x100 then c.(mstatus := Merge(c.mstatus, BitsOf(value), SSTATUS_MASK))
    else if address == 0x104 then c.(mie := Merge(c.mie, BitsOf(value), c.mideleg))
    else if address == 0x105 then c.(stvec := ClearMode(value))
    else if address == 0x141 then c.(sepc := value - value % 2)
    else if address == 0x142 then c.(scause := value)
    else if address == 0x143 then c.(stval := value)
    else if address == 0x144 then c.(mip := Merge(c.mip, BitsOf(value), c.mideleg * MIP_SW_MASK))
    else c
  }

  /** Bit 1 of a trap-vector register reads as zero. */
  function ClearMode(value: Word): Word { value - (if value % 4 >= 2 then 2 else 0) }
}
