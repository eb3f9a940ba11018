/** The split store buffer of inc/StoreBuffer.h: two ring FIFOs of four slots each, with their
    head, tail and count fields updated in place. The ghost fields Spec and Committed are the
    queues the rings hold, oldest entry first; every method is proved against StoreQueue on them. */
module StoreBuffers {
  import opened Words
  import opened StoreQueue

  const DEPTH := 4

  const EMPTY_SLOT := StoreEntry(false, 0, 0, 0, -1)

  /** The ring slot k places after i. */
  function FifoSlot(i: nat, k: nat): nat
    requires i < DEPTH && k <= DEPTH
    ensures FifoSlot(i, k) < DEPTH
  {
    if i + k < DEPTH then i + k else i + k - DEPTH
  }

  /** The slots from head on hold the queue q. */
  ghost predicate Holds(a: array<StoreEntry>, head: nat, tail: nat, q: seq<StoreEntry>)
    reads a
  {
    a.Length == DEPTH && head < DEPTH && |q| <= DEPTH && tail == FifoSlot(head, |q|) &&
    forall k :: 0 <= k < |q| ==> q[k] == a[FifoSlot(head, k)]
  }

  /** flush_speculative(branch, scoreboard) on the queue. */
  function DropDead(q: seq<StoreEntry>, isLive: int -> bool): seq<StoreEntry> {
    if q == [] then []
    else if q[|q| - 1].transId >= 0 && !isLive(q[|q| - 1].transId) then DropDead(q[..|q| - 1], isLive)
    else q
  }

  class StoreBuffer {
    const spec: array<StoreEntry>
    const committed: array<StoreEntry>
    var specHead: nat
    var specTail: nat
    var specCount: nat
    var commitHead: nat
    var commitTail: nat
    var commitCount: nat
    ghost var Spec: seq<StoreEntry>
    ghost var Committed: seq<StoreEntry>

    ghost predicate Valid()
      reads this, spec, committed
    {
      spec != committed &&
      specCount == |Spec| && Holds(spec, specHead, specTail, Spec) &&
      commitCount == |Committed| && Holds(committed, commitHead, commitTail, Committed)
    }

    constructor ()
      ensures Valid() && fresh(spec) && fresh(committed)
      ensures Spec == [] && Committed == []
    {
      spec := new StoreEntry[DEPTH](_ => EMPTY_SLOT);
      committed := new StoreEntry[DEPTH](_ => EMPTY_SLOT);
      specHead, specTail, specCount := 0, 0, 0;
      commitHead, commitTail, commitCount := 0, 0, 0;
      Spec, Committed := [], [];
    }

    method AddStore(address: Word, data: Word, size: nat, transId: int) returns (slot: int)
      requires Valid()
      modifies this`specTail, this`specCount, this`Spec, spec
      ensures Valid()
      ensures slot == -1 <==> |old(Spec)| == DEPTH
      ensures slot == -1 ==> Spec == old(Spec)
      ensures slot != -1 ==> Spec == old(Spec) + [StoreEntry(true, address, data, size, transId)]
      ensures slot != -1 ==> slot == old(specTail) < DEPTH && spec[slot] == StoreEntry(true, address, data, size, transId)
    {
      if specCount == DEPTH { return -1; }
      spec[specTail] := StoreEntry(true, address, data, size, transId);
      Spec := Spec + [spec[specTail]];
      slot := specTail;
      specTail := (specTail + 1) % DEPTH;
      specCount := specCount + 1;
    }

    /** The oldest speculative entry leaves its slot. */
    method PopSpec() returns (e: StoreEntry)
      requires Valid() && Spec != []
      modifies this`specHead, this`specCount, this`Spec, spec
      ensures Valid()
      ensures e == old(Spec[0]) && Spec == old(Spec[1..])
    {
      e := spec[specHead];
      spec[specHead] := e.(valid := false);
      specHead := (specHead + 1) % DEPTH;
      specCount := specCount - 1;
      Spec := Spec[1..];
    }

    method PushCommitted(e: StoreEntry)
      requires Valid() && |Committed| < DEPTH
      modifies this`commitTail, this`commitCount, this`Committed, committed
      ensures Valid()
      ensures Committed == old(Committed) + [e]
    {
      committed[commitTail] := e;
      commitTail := (commitTail + 1) % DEPTH;
      commitCount := commitCount + 1;
      Committed := Committed + [e];
    }

    method CommitStore() returns (ok: bool)
      requires Valid()
      modifies this, spec, committed
      ensures Valid()
      ensures ok <==> old(Spec) != [] && |old(Committed)| < DEPTH
      ensures ok ==> (Spec, Committed) == CommitMove(old(Spec), old(Committed))
      ensures !ok ==> Spec == old(Spec) && Committed == old(Committed)
    {
      if specCount == 0 { return false; }
      if commitCount == DEPTH { return false; }
      var e := PopSpec();
      PushCommitted(e.(valid := true));
      return true;
    }

    /** The oldest committed entry leaves its slot; its valid flag says whether it still counts. */
    method PopCommitted() returns (e: StoreEntry)
      requires Valid() && Committed != []
      modifies this`commitHead, this`commitCount, this`Committed, committed
      ensures Valid()
      ensures e == old(Committed[0]) && Committed == old(Committed[1..])
    {
      e := committed[commitHead];
      committed[commitHead] := e.(valid := false);
      commitHead := (commitHead + 1) % DEPTH;
      commitCount := commitCount - 1;
      Committed := Committed[1..];
    }

    method DrainOne() returns (r: Option<StoreEntry>)
      requires Valid()
      modifies this`commitHead, this`commitCount, this`Committed, committed
      ensures Valid()
      ensures r == Drain(old(Committed)).0 && Committed == Drain(old(Committed)).1
    {
      ghost var drained := Drain(Committed);
      while commitCount > 0
        invariant Valid() && Drain(Committed) == drained
        decreases commitCount
      {
        var e := PopCommitted();
        if e.valid { return Some(e); }
      }
      return None;
    }

    /** Newest-first search of both queues; nothing is changed. */
    method ForwardLoad(a: Word, n: nat) returns (r: Forwarded)
      requires Valid()
      ensures r == Forward(Spec, Committed, a, n)
    {
      r := ScanRing(spec, specHead, specTail, specCount, Spec, a, n);
      if r == Miss { r := ScanRing(committed, commitHead, commitTail, commitCount, Committed, a, n); }
    }

    static method ScanRing(ring: array<StoreEntry>, head: nat, tail: nat, count: nat,
                           ghost q: seq<StoreEntry>, a: Word, n: nat) returns (r: Forwarded)
      requires count == |q| && Holds(ring, head, tail, q)
      ensures r == Scan(q, a, n)
    {
      hide Overlaps, Verdict;
      var k := 0;
      assert q[..count] == q;
      while k < count
        invariant 0 <= k <= count
        invariant Scan(q, a, n) == Scan(q[..count - k], a, n)
      {
        var i := (tail + DEPTH - 1 - k) % DEPTH;
        ghost var rest := q[..count - k];
        assert i == FifoSlot(head, count - k - 1);
        assert rest[|rest| - 1] == ring[i];
        assert rest[..|rest| - 1] == q[..count - (k + 1)];
        if Overlaps(ring[i], a, n) { return Verdict(ring[i], a, n); }
        k := k + 1;
      }
      return Miss;
    }

    method InvalidateAddress(a: Word, n: nat)
      requires Valid()
      modifies this`Spec, this`Committed, spec, committed
      ensures Valid()
      ensures Spec == InvalidateAll(old(Spec), a, n)
      ensures Committed == InvalidateAll(old(Committed), a, n)
    {
      InvalidateSlots(spec, a, n);
      InvalidateSlots(committed, a, n);
      Spec, Committed := InvalidateAll(Spec, a, n), InvalidateAll(Committed, a, n);
    }

    static method InvalidateSlots(slots: array<StoreEntry>, a: Word, n: nat)
      modifies slots
      ensures forall i :: 0 <= i < slots.Length ==> slots[i] == Invalidated(old(slots[i]), a, n)
    {
      for i := 0 to slots.Length
        invariant forall j :: 0 <= j < i ==> slots[j] == Invalidated(old(slots[j]), a, n)
        invariant forall j :: i <= j < slots.Length ==> slots[j] == old(slots[j])
      {
        slots[i] := Invalidated(slots[i], a, n);
      }
    }

    method FlushSpeculative()
      requires Valid()
      modifies this`specHead, this`specTail, this`specCount, this`Spec, spec
      ensures Valid() && Spec == []
    {
      for i := 0 to spec.Length
        modifies spec
      {
        spec[i] := spec[i].(valid := false);
      }
      specHead, specTail, specCount := 0, 0, 0;
      Spec := [];
    }

    /** The youngest speculative entry is taken back. */
    method DropNewest()
      requires Valid() && Spec != []
      modifies this`specTail, this`specCount, this`Spec, spec
      ensures Valid()
      ensures Spec == old(Spec[..|Spec| - 1])
    {
      var prev := (specTail + DEPTH - 1) % DEPTH;
      spec[prev] := spec[prev].(valid := false);
      specTail := prev;
      specCount := specCount - 1;
      Spec := Spec[..|Spec| - 1];
    }

    /** Drop, youngest first, the speculative stores whose scoreboard entry is no longer valid. */
    method FlushDead(isLive: int -> bool)
      requires Valid()
      modifies this`specTail, this`specCount, this`Spec, spec
      ensures Valid()
      ensures Spec == DropDead(old(Spec), isLive)
    {
      hide Holds;
      ghost var kept := DropDead(Spec, isLive);
      while specCount > 0
        invariant Valid() && DropDead(Spec, isLive) == kept
        decreases specCount
      {
        var tid := NewestId();
        if tid >= 0 && !isLive(tid) { DropNewest(); } else { break; }
      }
    }

    method NewestId() returns (tid: int)
      requires Valid() && Spec != []
      ensures tid == Spec[|Spec| - 1].transId
    {
      tid := spec[(specTail + DEPTH - 1) % DEPTH].transId;
    }
  }
}
