/** The MMU object: two TLB objects and the page table memory, updated in place. */
module Mmus {
  import opened Words
  import opened Sv39
  import opened Tlbs
  import opened Translation

  class Mmu {
    const itlb: Tlb
    const dtlb: Tlb
    const perLevel: int
    var mem: PageMem

    ghost function Repr(): set<object> { {this, itlb, itlb.entries, dtlb, dtlb.entries} }

    ghost predicate Valid()
      reads Repr()
    {
      itlb != dtlb && itlb.entries != dtlb.entries && itlb.Valid() && dtlb.Valid()
    }

    ghost function View(): State
      requires Valid()
      reads Repr()
    {
      State(itlb.entries[..], dtlb.entries[..], itlb.lruClock, dtlb.lruClock, mem)
    }

    constructor (m: PageMem, cyclesPerLevel: int)
      ensures Valid() && fresh(Repr()) && mem == m && perLevel == cyclesPerLevel
      ensures forall i :: 0 <= i < ENTRIES ==> !View().itlb[i].valid && !View().dtlb[i].valid
    {
      itlb := new Tlb();
      dtlb := new Tlb();
      mem, perLevel := m, cyclesPerLevel;
    }

    /** The three-level walk; a leaf that passes has its A (and D) bit written back. */
    method Ptw(root: int, va: Word, access: Access, priv: Priv, mstatus: Word) returns (r: Fill)
      requires Valid()
      modifies this`mem
      ensures Valid() && r == Translation.Ptw(perLevel, old(mem), root, va, access, priv, mstatus)
      ensures mem == if r.Filled? then r.mem else old(mem)
    {
      var table, level, cycles := root, 2, 0;
      while level >= 0
        invariant -1 <= level <= 2 && mem == old(mem)
        invariant level >= 0 ==> WalkRoot(mem, root, va) == WalkFrom(mem, table, va, level)
        invariant level >= 0 ==> Cycles(perLevel, mem, root, va, 2) == cycles + Cycles(perLevel, mem, table, va, level)
        invariant level < 0 ==> WalkRoot(mem, root, va) == NoLeaf && Cycles(perLevel, mem, root, va, 2) == cycles
        decreases level
      {
        var address := PteAddress(table, va, level);
        var pte := mem(address);
        cycles := cycles + perLevel;
        if !PteV(pte) { return Missed(cycles); }
        if !PteR(pte) && !PteX(pte) {
          table := PtePpn(pte);
          level := level - 1;
        } else {
          if level > 0 && PtePpn(pte) % Pages(level) != 0 { return Missed(cycles); }
          var perm := PtePerm(pte);
          if !CheckPerm(perm, access, priv, Sum(mstatus), Mxr(mstatus)) { return Missed(cycles); }
          var updated := Touched(pte, access);
          if updated != pte { mem := StorePte(mem, address, updated); }
          return Filled(Leaf(PtePpn(pte), perm, level, PteG(pte), address), cycles, mem);
        }
      }
      return Missed(cycles);
    }

    method Translate(satp: Word, va: Word, access: Access, priv: Priv, mstatus: Word) returns (r: Result)
      requires Valid()
      modifies Repr()
      ensures Valid() && (View(), r) == Translation.Translate(perLevel, old(View()), satp, va, access, priv, mstatus)
    {
      if !Sv39Mode(satp) || priv == M { return Result(true, false, 0, va, 0); }
      var tlb := if access == Fetch then itlb else dtlb;
      var hit := tlb.Lookup(va, Asid(satp));
      if hit >= 0 {
        var e := tlb.entries[hit];
        var fault := !CheckPerm(e.perm, access, priv, Sum(mstatus), Mxr(mstatus));
        return Result(true, fault, if fault then FaultCause(access) else 0, MakePaddr(e.ppn, va, e.level), 0);
      }
      var fill := Ptw(Root(satp), va, access, priv, mstatus);
      match fill
      case Missed(c) => return Result(false, true, FaultCause(access), 0, c);
      case Filled(w, c, _) =>
        tlb.Insert(va, w.ppn, Asid(satp), w.perm, w.level, w.global);
        return Result(true, false, 0, MakePaddr(w.ppn, va, w.level), c);
    }

    method SfenceVma(va: Word, rs2: Word, vaZero: bool, asidZero: bool)
      requires Valid()
      modifies itlb.entries, dtlb.entries
      ensures Valid()
      ensures View() == var s := old(View()); var asid := rs2 % 0x1_0000;
        s.(itlb := Fence(s.itlb, va, asid, vaZero, asidZero), dtlb := Fence(s.dtlb, va, asid, vaZero, asidZero))
    {
      var asid := rs2 % 0x1_0000;
      if vaZero && asidZero {
        itlb.FlushAll();
        dtlb.FlushAll();
      } else if vaZero {
        itlb.FlushAsid(asid);
        dtlb.FlushAsid(asid);
      } else if asidZero {
        itlb.FlushVa(va);
        dtlb.FlushVa(va);
      } else {
        itlb.FlushVaAsid(va, asid);
        dtlb.FlushVaAsid(va, asid);
      }
    }

    method FlushAll()
      requires Valid()
      modifies itlb.entries, dtlb.entries
      ensures Valid() && View() == FlushBoth(old(View()))
    {
      itlb.FlushAll();
      dtlb.FlushAll();
    }
  }
}
