/** The class of inc/Scoreboard.h, its arrays and counters updated in place; every method is
    proved against the function of the same name in Boards. */
module Scoreboards {
  import opened Words
  import opened Boards

  class Scoreboard {
    const entries: array<Entry>
    const rdClobber: array<Clobber>
    var head: nat
    var tail: nat
    var count: nat

    ghost predicate Valid()
      reads this, entries, rdClobber
    {
      entries.Length == SIZE && rdClobber.Length == NREGS && Shape(View())
    }

    ghost function View(): Board
      reads this, entries, rdClobber
    {
      Board(entries[..], head, tail, count, rdClobber[..])
    }

    constructor ()
      ensures Valid() && fresh(entries) && fresh(rdClobber)
      ensures View() == Empty()
    {
      entries := new Entry[SIZE](_ => NO_ENTRY);
      rdClobber := new Clobber[NREGS](_ => IDLE);
      head, tail, count := 0, 0, 0;
    }

    method Allocate() returns (idx: int)
      requires Valid()
      modifies this`tail, this`count, entries
      ensures Valid() && (View(), idx) == Boards.Allocate(old(View()))
    {
      if count == SIZE { return -1; }
      idx := tail;
      entries[idx] := NO_ENTRY.(valid := true, transId := idx);
      tail := (tail + 1) % SIZE;
      count := count + 1;
    }

    method Complete(idx: int, result: Word, rd: Reg)
      requires Valid()
      modifies entries
      ensures Valid() && View() == Boards.Complete(old(View()), idx, result, rd)
    {
      if idx < 0 || idx >= SIZE { return; }
      entries[idx] := entries[idx].(ready := true, result := result, rd := rd);
    }

    method HeadReady() returns (b: bool)
      requires Valid()
      ensures b == Boards.HeadReady(View())
    {
      return count > 0 && entries[head].valid && entries[head].ready;
    }

    method Retire()
      requires Valid()
      modifies this`head, this`count, entries
      ensures Valid() && View() == Boards.Retire(old(View()))
    {
      if count == 0 { return; }
      entries[head] := entries[head].(valid := false);
      head := (head + 1) % SIZE;
      count := count - 1;
    }

    method SetClobber(r: Reg, c: Clobber)
      requires Valid() && -1 <= c.transId < SIZE && (c.busy ==> c.transId >= 0)
      modifies rdClobber
      ensures Valid() && View() == old(View()).(clobber := old(View()).clobber[r := c])
    {
      rdClobber[r] := c;
    }

    method Flush()
      requires Valid()
      modifies this`head, this`tail, this`count, entries, rdClobber
      ensures Valid() && View() == Boards.Flush(old(View()))
    {
      for i := 0 to SIZE
        modifies entries
        invariant forall j :: 0 <= j < i ==> entries[j] == old(entries[j]).(valid := false, ready := false)
        invariant forall j :: i <= j < SIZE ==> entries[j] == old(entries[j])
      {
        entries[i] := entries[i].(valid := false, ready := false);
      }
      for i := 0 to NREGS
        modifies rdClobber
        invariant forall j :: 0 <= j < i ==> rdClobber[j] == IDLE
      {
        rdClobber[i] := IDLE;
      }
      head, tail, count := 0, 0, 0;
      assert entries[..] == Boards.Flush(old(View())).entries;
      assert rdClobber[..] == Boards.Flush(old(View())).clobber;
    }

    method SquashOne(i: int)
      requires Valid() && 0 <= i < SIZE
      modifies this`count, entries, rdClobber
      ensures Valid() && View() == Squash(old(View()), i)
    {
      if entries[i].valid {
        var rd := entries[i].rd;
        if rdClobber[rd].busy && rdClobber[rd].transId == i { rdClobber[rd] := IDLE; }
        entries[i] := entries[i].(valid := false, ready := false);
        if count > 0 { count := count - 1; }
      }
    }

    method FlushSpeculative(idx: int)
      requires Valid()
      modifies this`tail, this`count, entries, rdClobber
      ensures Valid() && View() == Boards.FlushSpeculative(old(View()), idx)
    {
      if idx < 0 || idx >= SIZE { return; }
      var curr := (idx + 1) % SIZE;
      var end := tail;
      ghost var goal := SquashTo(View(), curr, end);
      while curr != end
        modifies this`count, entries, rdClobber
        invariant 0 <= curr < SIZE && Valid() && SquashTo(View(), curr, end) == goal
        decreases Place(curr, end)
      {
        SquashOne(curr);
        curr := (curr + 1) % SIZE;
      }
      tail := (idx + 1) % SIZE;
    }
  }
}
