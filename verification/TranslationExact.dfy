/** Translation on the numbers in satp and mstatus, and what single operations of the MMU do to the TLBs:
    who answers, what is filled, who is evicted, what a fence drops, what a walk costs. */
module TranslationExact {
  import opened Words
  import opened Sv39
  import opened Tlbs
  import opened Translation
  import opened Sv39Layout

  // ---------------------------------------------------------------- every sequence, on the numbers

  /** satp with a mode, an address space and the page number of the root table. */
  function Satp(mode: nat, asid: nat, root: nat): Word
    requires mode < 16 && asid < 0x1_0000 && root < 0x1000_0000_0000
  {
    0x1000_0000_0000_0000 * mode + 0x1000_0000_0000 * asid + root
  }

  ghost predicate NoEntries(s: State) {
    && |s.itlb| > 0 && |s.dtlb| > 0
    && (forall i :: 0 <= i < |s.itlb| ==> !s.itlb[i].valid) && forall i :: 0 <= i < |s.dtlb| ==> !s.dtlb[i].valid
  }

  /** After any sequence of operations that leaves mode 8 in satp, an address translates below M-mode as
      the architecture's process says from the root page in satp, with SUM and MXR from bits 18 and 19 of
      mstatus: wherever the address is canonical and meets no reserved entry. */
  lemma TranslatesInSv39(per: int, s: State, satp: Word, ops: seq<Op>, asid: nat, root: nat,
                         va: Word, access: Access, priv: Priv, mstatus: Word)
    requires NoEntries(s) && EditsFenced(s.mem, satp, ops) && asid < 0x1_0000 && root < 0x1000_0000_0000 && priv != M
    requires Latest(s.mem, satp, ops).1 == Satp(8, asid, root)
    requires Canonical(va) && !MeetsReserved(Latest(s.mem, satp, ops).0, root, va, 2)
    ensures var m := ApplyAll(per, Machine(s, satp), ops);
      Seen(Translate(per, m.state, m.satp, va, access, priv, mstatus).1)
        == Architecture(Latest(s.mem, satp, ops).0, root, va, access, priv,
                        (mstatus / 0x4_0000) % 2 == 1, (mstatus / 0x8_0000) % 2 == 1)
  {
    hide Translate, ApplyAll, Architecture, MeetsReserved, EditsFenced, Latest, Canonical;
    SatpLayout(8, asid, root);
    TranslatesAsArchitecture(per, s, satp, ops, va, access, priv, mstatus);
  }

  /** In M-mode, and in every mode of satp but 8, the physical address is the address itself: no fault, no
      wait, and nothing changes. */
  lemma TranslatesBare(per: int, s: State, mode: nat, asid: nat, root: nat, va: Word, access: Access, priv: Priv, mstatus: Word)
    requires |s.itlb| > 0 && |s.dtlb| > 0 && mode < 16 && asid < 0x1_0000 && root < 0x1000_0000_0000
    requires mode != 8 || priv == M
    ensures Translate(per, s, Satp(mode, asid, root), va, access, priv, mstatus) == (s, Result(true, false, 0, va, 0))
  {
    SatpLayout(mode, asid, root);
  }

  // ---------------------------------------------------------------- who answers

  /** Bytes mapped by an entry of level l. */
  function Size(l: Level): nat { if l == 0 then 0x1000 else if l == 1 then 0x20_0000 else 0x4000_0000 }

  lemma SamePageBySize(va: Word, v: Word, l: Level)
    ensures VpnMatch(Vpn(v), Vpn(va), l) <==> v / Size(l) == va / Size(l)
  {
    PageOf(va);
    PageOf(v);
  }

  lemma PageOf(va: Word)
    ensures va / 4096 / 512 == va / 0x20_0000 && va / 4096 / 262144 == va / 0x4000_0000
  {}

  /** An entry filled for va under one address space answers exactly the addresses of its own page, of its
      own size, under that address space, or under every one if it is global. */
  lemma FilledAnswers(va: Word, v: Word, asid: int, other: int, perm: Perm, l: Level, ppn: int, global: bool, clock: nat)
    ensures Answers(TlbEntry(true, global, perm, l, asid, Vpn(va), ppn, clock), Vpn(v), other) <==>
      v / Size(l) == va / Size(l) && (global || other == asid)
  {
    hide Vpn, VpnMatch;
    SamePageBySize(va, v, l);
  }

  /** A lookup finds the first entry that answers. */
  lemma {:induction false} FindFirst(t: Table, vpn: int, asid: int, i: nat)
    requires i <= |t|
    ensures var r := FindFrom(t, vpn, asid, i);
      r >= 0 ==> forall j :: i <= j < r ==> !Answers(t[j], vpn, asid)
    decreases |t| - i
  {
    if i < |t| && !Answers(t[i], vpn, asid) { FindFirst(t, vpn, asid, i + 1); }
  }

  // ---------------------------------------------------------------- who is evicted

  /** From slot j on the table is full, and slot j is the last invalid one, if it is not slot 0. */
  predicate FullFrom(t: Table, j: nat) {
    j < |t| && (j == 0 || !t[j].valid) && forall k :: j < k < |t| ==> t[k].valid
  }

  /** The victim is the least recently used from the last invalid slot on, or of the whole table when no
      slot but the first is invalid; of equals the first. */
  lemma VictimExact(t: Table, j: nat)
    requires FullFrom(t, j)
    ensures var r := VictimFrom(t, 0, 1);
      && j <= r && (forall k :: j <= k < |t| ==> t[r].lruTime <= t[k].lruTime)
      && forall k :: j <= k < r ==> t[r].lruTime < t[k].lruTime
  {
    if j == 0 {
      OldestFrom(t, 0, 0, 1);
    } else {
      ReachesLast(t, j, 0, 1);
      OldestFrom(t, j, j, j + 1);
    }
  }

  lemma {:induction false} ReachesLast(t: Table, j: nat, victim: nat, i: nat)
    requires FullFrom(t, j) && 0 < i <= j && victim < |t|
    ensures VictimFrom(t, victim, i) == VictimFrom(t, j, j + 1)
    decreases j - i
  {
    if i < j { ReachesLast(t, j, if !t[i].valid || t[i].lruTime < t[victim].lruTime then i else victim, i + 1); }
  }

  lemma {:induction false} OldestFrom(t: Table, j: nat, victim: nat, i: nat)
    requires FullFrom(t, j) && j <= victim < i <= |t|
    requires (forall k :: j <= k < i ==> t[victim].lruTime <= t[k].lruTime) &&
      forall k :: j <= k < victim ==> t[victim].lruTime < t[k].lruTime
    ensures var r := VictimFrom(t, victim, i);
      && j <= r && (forall k :: j <= k < |t| ==> t[r].lruTime <= t[k].lruTime)
      && forall k :: j <= k < r ==> t[r].lruTime < t[k].lruTime
    decreases |t| - i
  {
    if i < |t| { OldestFrom(t, j, if !t[i].valid || t[i].lruTime < t[victim].lruTime then i else victim, i + 1); }
  }

  // ---------------------------------------------------------------- what a fence drops

  /** A fence drops an entry iff the entry is for its address, where it names one, and belongs to its
      address space and is not global, where it names one. */
  lemma FenceExact(t: Table, va: Word, asid: int, vaZero: bool, asidZero: bool, i: nat)
    requires i < |t|
    ensures var e, r := t[i], Fence(t, va, asid, vaZero, asidZero)[i];
      var here := (e.level == 0 && va / 0x1000 == e.vpn) || (e.level == 1 && va / 0x20_0000 == e.vpn / 512) ||
                  (e.level == 2 && va / 0x4000_0000 == e.vpn / 262144);
      r == e.(valid := e.valid && !((vaZero || here) && (asidZero || (!e.global && e.asid == asid))))
  {
    PageOf(va);
  }

  // ---------------------------------------------------------------- one translation

  /** What a TLB miss below M-mode in mode 8 does: the fill is tagged with the address space in satp and
      stamped with the clock, the walk's time is the wait, and in memory the leaf's A bit, and for a store
      its D bit, are set and nothing else. */
  lemma MissExact(per: int, s: State, asid: nat, root: nat, va: Word, access: Access, priv: Priv, mstatus: Word)
    requires |s.itlb| > 0 && |s.dtlb| > 0 && asid < 0x1_0000 && root < 0x1000_0000_0000 && priv != M
    requires Find(TableOf(s, access), va / 0x1000, asid) < 0
    ensures var (s', r) := Translate(per, s, Satp(8, asid, root), va, access, priv, mstatus);
      var w := WalkRoot(s.mem, root, va);
      && r.stallCycles == Cycles(per, s.mem, root, va, 2) && (r.ok <==> !r.fault)
      && ClockOf(s', access) == ClockOf(s, access) + 1
      && (r.fault ==> s'.mem == s.mem && TableOf(s', access) == TableOf(s, access))
      && (!r.fault ==>
            && w.Leaf? && r.cause == 0
            && TableOf(s', access) == TableOf(s, access)[VictimFrom(TableOf(s, access), 0, 1) :=
                 TlbEntry(true, w.global, w.perm, w.level, asid, va / 0x1000, w.ppn, ClockOf(s', access))]
            && forall x: int :: s'.mem(x) ==
                 if x != w.address then s.mem(x)
                 else s.mem(x) + (if (s.mem(x) / 64) % 2 == 0 then 64 else 0)
                               + (if access == Store && (s.mem(x) / 128) % 2 == 0 then 128 else 0))
  {
    hide WalkFrom, CheckPerm, MakePaddr, FindFrom, VictimFrom, Cycles, Touched;
    SatpLayout(8, asid, root);
    var w := WalkRoot(s.mem, root, va);
    if w.Leaf? { TouchedExact(s.mem(w.address), access); }
  }

  /** A hit waits for nothing and writes nothing: the answering entry gets the new time. */
  lemma HitExact(per: int, s: State, asid: nat, root: nat, va: Word, access: Access, priv: Priv, mstatus: Word)
    requires |s.itlb| > 0 && |s.dtlb| > 0 && asid < 0x1_0000 && root < 0x1000_0000_0000 && priv != M
    requires Find(TableOf(s, access), va / 0x1000, asid) >= 0
    ensures var (s', r) := Translate(per, s, Satp(8, asid, root), va, access, priv, mstatus);
      var t, hit := TableOf(s, access), Find(TableOf(s, access), va / 0x1000, asid);
      && hit < |t| && r.ok && r.stallCycles == 0 && s'.mem == s.mem
      && ClockOf(s', access) == ClockOf(s, access) + 1
      && TableOf(s', access) == t[hit := t[hit].(lruTime := ClockOf(s', access))]
  {
    hide CheckPerm, MakePaddr, FindFrom;
    SatpLayout(8, asid, root);
  }

  /** Data accesses leave the instruction TLB alone, and fetches the data TLB. */
  lemma OtherTlbKept(per: int, s: State, satp: Word, va: Word, access: Access, priv: Priv, mstatus: Word)
    requires |s.itlb| > 0 && |s.dtlb| > 0
    ensures var s' := Translate(per, s, satp, va, access, priv, mstatus).0;
      if access == Fetch then s'.dtlb == s.dtlb && s'.dclock == s.dclock else s'.itlb == s.itlb && s'.iclock == s.iclock
  {
    hide WalkFrom, CheckPerm, MakePaddr, FindFrom, VictimFrom, Cycles, Touched;
  }

  /** Once a translation has succeeded the next one in the same page, by any access through the same TLB and
      with any rights, waits for nothing. */
  lemma TranslatedHits(per: int, s: State, asid: nat, root: nat, va: Word, v: Word, access: Access, again: Access,
                       priv: Priv, later: Priv, mstatus: Word, after: Word)
    requires |s.itlb| > 0 && |s.dtlb| > 0 && asid < 0x1_0000 && root < 0x1000_0000_0000 && priv != M
    requires v / 0x1000 == va / 0x1000 && (access == Fetch <==> again == Fetch)
    requires !Translate(per, s, Satp(8, asid, root), va, access, priv, mstatus).1.fault
    ensures var s' := Translate(per, s, Satp(8, asid, root), va, access, priv, mstatus).0;
      |s'.itlb| > 0 && |s'.dtlb| > 0 &&
      Translate(per, s', Satp(8, asid, root), v, again, later, after).1.stallCycles == 0
  {
    hide Translate, FindFrom, VictimFrom, WalkFrom, Cycles, VpnMatch;
    var satp := Satp(8, asid, root);
    var s' := Translate(per, s, satp, va, access, priv, mstatus).0;
    var t, t' := TableOf(s, access), TableOf(s', access);
    OtherTlbKept(per, s, satp, va, access, priv, mstatus);
    if Find(t, va / 0x1000, asid) >= 0 {
      var hit := Find(t, va / 0x1000, asid);
      HitExact(per, s, asid, root, va, access, priv, mstatus);
      StillAnswers(t', va / 0x1000, asid, hit);
    } else {
      MissExact(per, s, asid, root, va, access, priv, mstatus);
      SelfMatch(va / 0x1000, WalkRoot(s.mem, root, va).level);
      StillAnswers(t', va / 0x1000, asid, VictimFrom(t, 0, 1));
    }
    if later == M {
      TranslatesBare(per, s', 8, asid, root, v, again, later, after);
    } else {
      HitExact(per, s', asid, root, v, again, later, after);
    }
  }

  lemma SelfMatch(vpn: int, l: Level)
    ensures VpnMatch(vpn, vpn, l)
  {}

  lemma StillAnswers(t: Table, vpn: int, asid: int, i: nat)
    requires i < |t| && Answers(t[i], vpn, asid)
    ensures Find(t, vpn, asid) >= 0
  {}

  // ---------------------------------------------------------------- what a walk costs

  /** One read per level visited: a leaf of level l costs 3 - l of them, a walk that ends nowhere one to
      three. */
  lemma WalkCost(per: nat, mem: PageMem, root: int, va: Word)
    ensures var w := WalkRoot(mem, root, va);
      if w.Leaf? then Cycles(per, mem, root, va, 2) == (3 - w.level) * per
      else Cycles(per, mem, root, va, 2) in [per, 2 * per, 3 * per]
  {
    CostFrom(per, mem, root, va, 2);
  }

  lemma {:induction false} CostFrom(per: nat, mem: PageMem, table: int, va: Word, l: Level)
    ensures var w, c := WalkFrom(mem, table, va, l), Cycles(per, mem, table, va, l);
      if w.Leaf? then w.level <= l && c == (l + 1 - w.level) * per
      else c == per || (l >= 1 && c == 2 * per) || (l == 2 && c == 3 * per)
    decreases l
  {
    hide PteV, PteR, PteX, PteAddress, PtePerm, PteG;
    var pte := mem(PteAddress(table, va, l));
    if l > 0 {
      CostFrom(per, mem, PtePpn(pte), va, l - 1);
      var w := WalkFrom(mem, PtePpn(pte), va, l - 1);
      if w.Leaf? { MulAdd(l - w.level, 1, per); }
    }
  }
}
