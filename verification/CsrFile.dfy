/** The control and status register file as an object (inc/CSR_File.h): the trap registers updated in
    place by trap entry, return and register writes. */
module CsrFiles {
  import opened CsrModel
  import opened CsrEntry
  import opened Words

  class CsrFile {
    var priv: Mode
    var mstatus: Bits
    var medeleg: Bits
    var mideleg: Bits
    var mie: Bits
    var mip: Bits
    var mtvec: Word
    var mepc: Word
    var mcause: Word
    var mtval: Word
    var stvec: Word
    var sepc: Word
    var scause: Word
    var stval: Word

    function View(): Csr
      reads this
    {
      Csr(priv, mstatus, medeleg, mideleg, mie, mip, mtvec, mepc, mcause, mtval, stvec, sepc, scause, stval)
    }

    /** Reset: M-mode, UXL and SXL hard-wired to 2. */
    constructor ()
      ensures View() == Csr(M, {33, 35}, {}, {}, {}, {}, 0, 0, 0, 0, 0, 0, 0, 0)
    {
      priv, mstatus, medeleg, mideleg, mie, mip := M, {33, 35}, {}, {}, {}, {};
      mtvec, mepc, mcause, mtval := 0, 0, 0, 0;
      stvec, sepc, scause, stval := 0, 0, 0, 0;
    }

    /** Entry to S-mode: previous enable and mode are stacked in mstatus. */
    method EnterS(cause: Word, epc: Word, tval: Word) returns (vector: Word)
      modifies this
      ensures View() == TrapS(old(View()), cause, epc, tval) && vector == TrapVector(stvec, cause)
    {
      hide TrapVector;
      scause, sepc, stval := cause, epc, tval;
      if SIE in mstatus { mstatus := mstatus + {SPIE}; } else { mstatus := mstatus - {SPIE}; }
      mstatus := mstatus - {SIE};
      if priv == S { mstatus := mstatus + {SPP}; } else { mstatus := mstatus - {SPP}; }
      assert mstatus == StackS(old(mstatus), old(priv));
      priv := S;
      vector := TrapVector(stvec, cause);
    }

    /** Entry to M-mode. */
    method EnterM(cause: Word, epc: Word, tval: Word) returns (vector: Word)
      modifies this
      ensures View() == TrapM(old(View()), cause, epc, tval) && vector == TrapVector(mtvec, cause)
    {
      hide TrapVector;
      mcause, mepc, mtval := cause, epc, tval;
      var mpp := MppBits(priv);
      if MIE in mstatus { mstatus := mstatus + {MPIE}; } else { mstatus := mstatus - {MPIE}; }
      mstatus := mstatus - {MIE};
      mstatus := (mstatus - MPP) + mpp;
      assert mstatus == StackM(old(mstatus), old(priv));
      priv := M;
      vector := TrapVector(mtvec, cause);
    }

    method TakeException(cause: Word, epc: Word, tval: Word) returns (vector: Word)
      modifies this
      ensures View() == Exception(old(View()), cause, epc, tval)
      ensures if old(cause < 64 && cause in medeleg && priv != 3) then InS(old(View()), View(), cause, epc, tval)
              else InM(old(View()), View(), cause, epc, tval)
      ensures vector == TrapVector(if priv == S then stvec else mtvec, cause)
      ensures cause < 0x8000_0000_0000_0000 ==> vector == if priv == 1 then stvec - stvec % 4 else mtvec - mtvec % 4
    {
      hide StackS, StackM, TrapVector, InS, InM, Vectored;
      ExceptionEntry(View(), cause, epc, tval);
      VectorOf(stvec, cause, 0);
      VectorOf(mtvec, cause, 0);
      var delegated := cause < 64 && cause in medeleg;
      if delegated && priv != M { vector := EnterS(cause, epc, tval); } else { vector := EnterM(cause, epc, tval); }
    }

    method TakeInterrupt(line: Line, epc: Word) returns (vector: Word)
      modifies this
      ensures View() == Interrupt(old(View()), line, epc)
      ensures var cause := 0x8000_0000_0000_0000 + line;
        if old(line in mideleg && priv != 3) then InS(old(View()), View(), cause, epc, 0)
        else InM(old(View()), View(), cause, epc, 0)
      ensures vector == TrapVector(if priv == S then stvec else mtvec, INTERRUPT + line)
      ensures vector == Vectored(if priv == 1 then stvec else mtvec, line)
    {
      hide StackS, StackM, TrapVector, InS, InM, Vectored;
      InterruptEntry(View(), line, epc);
      VectorOf(stvec, 0, line);
      VectorOf(mtvec, 0, line);
      var delegated := line in mideleg && priv != M;
      if delegated { vector := EnterS(INTERRUPT + line, epc, 0); } else { vector := EnterM(INTERRUPT + line, epc, 0); }
    }

    /** -1 when no interrupt is to be taken. */
    method PendingInterrupt() returns (cause: int)
      ensures cause == if Pending(View()).Take? then Pending(View()).line else -1
    {
      var pending := mip * mie;
      if pending == {} { return -1; }
      var mEnabled := priv != M || MIE in mstatus;
      var sEnabled := priv == U || (priv == S && SIE in mstatus);
      var toM := if mEnabled then pending - mideleg else {};
      var toS := if sEnabled then pending * mideleg else {};
      if 11 in toM { return 11; }
      if 3 in toM { return 3; }
      if 7 in toM { return 7; }
      if 9 in toS { return 9; }
      if 1 in toS { return 1; }
      if 5 in toS { return 5; }
      return -1;
    }

    method MachineReturn() returns (pc: Word)
      modifies this
      ensures View() == MRet(old(View())) && pc == old(mepc)
    {
      pc := mepc;
      if MPIE in mstatus { mstatus := mstatus + {MIE}; } else { mstatus := mstatus - {MIE}; }
      mstatus := mstatus + {MPIE};
      var newPriv := MppOf(mstatus);
      mstatus := mstatus - MPP;
      priv := newPriv;
    }

    method SupervisorReturn() returns (pc: Word)
      modifies this
      ensures View() == SRet(old(View())) && pc == old(sepc)
    {
      pc := sepc;
      if SPIE in mstatus { mstatus := mstatus + {SIE}; } else { mstatus := mstatus - {SIE}; }
      mstatus := mstatus + {SPIE};
      priv := if SPP in mstatus then S else U;
      mstatus := mstatus - {SPP};
    }

    /** A write to one of the trap registers; writes to the others leave them as they are. False for a
        register that is out of reach, read-only or absent. */
    method Write(address: nat, value: Word) returns (ok: bool)
      modifies this
      ensures View() == WriteCsr(old(View()), address, value)
      ensures ok <==> Permitted(old(View()), address) && Writable(address)
    {
      if priv < (address / 256) % 4 || address / 1024 == 3 { return false; }
      ok := true;
      match address
      case 0x300 => mstatus := (mstatus - MSTATUS_WRITE_MASK) + (BitsOf(value) * MSTATUS_WRITE_MASK);
      case 0x302 => medeleg := BitsOf(value) * MEDELEG_MASK;
      case 0x303 => mideleg := BitsOf(value) * MIDELEG_MASK;
      case 0x304 => mie := BitsOf(value) * MIE_MASK;
      case 0x305 => mtvec := ClearMode(value);
      case 0x341 => mepc := value - value % 2;
      case 0x342 => mcause := value;
      case 0x343 => mtval := value;
      case 0x344 => mip := (mip - MIP_SW_MASK) + (BitsOf(value) * MIP_SW_MASK);
      case 0x100 => mstatus := (mstatus - SSTATUS_MASK) + (BitsOf(value) * SSTATUS_MASK);
      case 0x104 => mie := (mie - mideleg) + (BitsOf(value) * mideleg);
      case 0x105 => stvec := ClearMode(value);
      case 0x141 => sepc := value - value % 2;
      case 0x142 => scause := value;
      case 0x143 => stval := value;
      case 0x144 =>
        var mask := mideleg * MIP_SW_MASK;
        mip := (mip - mask) + (BitsOf(value) * mask);
      case _ => ok := OtherRegister(address);
    }
  }
}
