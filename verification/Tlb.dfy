/** The fully associative TLB of inc/TLB.h: functions on the entry table, and the class that
    updates the table in place. */
module Tlbs {
  import opened Words
  import opened Sv39

  const ENTRIES := 16

  datatype TlbEntry = TlbEntry(valid: bool, global: bool, perm: Perm, level: Level, asid: int,
                               vpn: int, ppn: int, lruTime: nat)

  const INVALID := TlbEntry(false, false, Perm(false, false, false, false), 0, 0, 0, 0, 0)

  type Table = seq<TlbEntry>

  function Vpn(va: Word): int { va / 4096 }

  predicate VpnMatch(vpn: int, stored: int, l: Level) { vpn / Pages(l) == stored / Pages(l) }

  /** Entry e answers a lookup of vpn under asid. */
  predicate Answers(e: TlbEntry, vpn: int, asid: int) {
    e.valid && (e.global || e.asid == asid) && VpnMatch(vpn, e.vpn, e.level)
  }

  /** The first entry from i on that answers; -1 when none does. */
  function FindFrom(t: Table, vpn: int, asid: int, i: nat): (r: int)
    requires i <= |t|
    ensures r == -1 || (i <= r < |t| && Answers(t[r], vpn, asid))
    ensures r == -1 ==> forall j :: i <= j < |t| ==> !Answers(t[j], vpn, asid)
    decreases |t| - i
  {
    if i == |t| then -1
    else if Answers(t[i], vpn, asid) then i
    else FindFrom(t, vpn, asid, i + 1)
  }

  function Find(t: Table, vpn: int, asid: int): int { FindFrom(t, vpn, asid, 0) }

  /** The slot insert evicts: each invalid slot, and each slot older than the current candidate,
      becomes the candidate in turn. */
  function VictimFrom(t: Table, victim: nat, i: nat): (r: nat)
    requires victim < |t| && i <= |t|
    ensures r < |t|
    decreases |t| - i
  {
    if i == |t| then victim
    else VictimFrom(t, if !t[i].valid || t[i].lruTime < t[victim].lruTime then i else victim, i + 1)
  }

  function Inserted(t: Table, e: TlbEntry): Table
    requires |t| > 0
  {
    t[VictimFrom(t, 0, 1) := e]
  }

  function Dropped(e: TlbEntry, drop: bool): TlbEntry { if drop then e.(valid := false) else e }

  predicate DropVa(e: TlbEntry, va: Word) { e.valid && VpnMatch(Vpn(va), e.vpn, e.level) }
  predicate DropAsid(e: TlbEntry, asid: int) { e.valid && !e.global && e.asid == asid }
  predicate DropVaAsid(e: TlbEntry, va: Word, asid: int) { DropAsid(e, asid) && VpnMatch(Vpn(va), e.vpn, e.level) }

  /** A table after a flush: every entry is as before, or no longer valid where drop says so. */
  function FlushWhere(t: Table, drop: TlbEntry -> bool): (u: Table)
    ensures |u| == |t| && forall i :: 0 <= i < |t| ==> u[i] == Dropped(t[i], drop(t[i]))
  {
    seq(|t|, i requires 0 <= i < |t| => Dropped(t[i], drop(t[i])))
  }

  class Tlb {
    const entries: array<TlbEntry>
    var lruClock: nat

    ghost predicate Valid()
      reads this
    {
      entries.Length == ENTRIES
    }

    constructor ()
      ensures Valid() && fresh(entries) && lruClock == 0
      ensures forall i :: 0 <= i < ENTRIES ==> !entries[i].valid
    {
      entries := new TlbEntry[ENTRIES](_ => INVALID);
      lruClock := 0;
    }

    /** A hit refreshes the entry's time stamp and nothing else. */
    method Lookup(va: Word, asid: int) returns (hit: int)
      requires Valid()
      modifies this`lruClock, entries
      ensures Valid() && lruClock == old(lruClock) + 1
      ensures hit == Find(old(entries[..]), Vpn(va), asid)
      ensures hit < 0 ==> entries[..] == old(entries[..])
      ensures hit >= 0 ==> entries[..] == old(entries[..])[hit := old(entries[hit]).(lruTime := lruClock)]
    {
      lruClock := lruClock + 1;
      hit := 0;
      while hit < entries.Length
        invariant 0 <= hit <= entries.Length
        invariant Find(entries[..], Vpn(va), asid) == FindFrom(entries[..], Vpn(va), asid, hit)
      {
        if Answers(entries[hit], Vpn(va), asid) {
          entries[hit] := entries[hit].(lruTime := lruClock);
          return;
        }
        hit := hit + 1;
      }
      hit := -1;
    }

    method Insert(va: Word, ppn: int, asid: int, perm: Perm, level: Level, global: bool)
      requires Valid()
      modifies entries
      ensures Valid()
      ensures entries[..] == Inserted(old(entries[..]), TlbEntry(true, global, perm, level, asid, Vpn(va), ppn, lruClock))
    {
      var victim, i := 0, 1;
      while i < entries.Length
        invariant 1 <= i <= entries.Length && 0 <= victim < entries.Length
        invariant VictimFrom(entries[..], 0, 1) == VictimFrom(entries[..], victim, i)
      {
        if !entries[i].valid || entries[i].lruTime < entries[victim].lruTime { victim := i; }
        i := i + 1;
      }
      entries[victim] := TlbEntry(true, global, perm, level, asid, Vpn(va), ppn, lruClock);
    }

    /** The loop all four flushes share. */
    method Flush(drop: TlbEntry -> bool)
      requires Valid()
      modifies entries
      ensures Valid() && entries[..] == FlushWhere(old(entries[..]), drop)
    {
      for i := 0 to entries.Length
        invariant forall j :: 0 <= j < i ==> entries[j] == Dropped(old(entries[j]), drop(old(entries[j])))
        invariant forall j :: i <= j < entries.Length ==> entries[j] == old(entries[j])
      {
        entries[i] := Dropped(entries[i], drop(entries[i]));
      }
      assert entries[..] == FlushWhere(old(entries[..]), drop);
    }

    method FlushAll()
      requires Valid()
      modifies entries
      ensures Valid() && entries[..] == FlushWhere(old(entries[..]), (e: TlbEntry) => true)
    {
      Flush((e: TlbEntry) => true);
    }

    method FlushVa(va: Word)
      requires Valid()
      modifies entries
      ensures Valid() && entries[..] == FlushWhere(old(entries[..]), (e: TlbEntry) => DropVa(e, va))
    {
      Flush((e: TlbEntry) => DropVa(e, va));
    }

    method FlushAsid(asid: int)
      requires Valid()
      modifies entries
      ensures Valid() && entries[..] == FlushWhere(old(entries[..]), (e: TlbEntry) => DropAsid(e, asid))
    {
      Flush((e: TlbEntry) => DropAsid(e, asid));
    }

    method FlushVaAsid(va: Word, asid: int)
      requires Valid()
      modifies entries
      ensures Valid() && entries[..] == FlushWhere(old(entries[..]), (e: TlbEntry) => DropVaAsid(e, va, asid))
    {
      Flush((e: TlbEntry) => DropVaAsid(e, va, asid));
    }
  }
}
