/** The scoreboard of inc/Scoreboard.h: a 32-entry ring that is both issue FIFO and reorder
    buffer, with the rd_clobber table. Board is the value of all its fields; the functions say
    what each operation does to it, the lemmas what that means for the entries in flight. */
module Boards {
  import opened Words

  const SIZE := 32
  const NREGS := 32

  type Reg = r: int | 0 <= r < 32

  datatype Entry = Entry(valid: bool, ready: bool, rd: Reg, result: Word, pc: Word, isStore: bool, transId: int)

  const NO_ENTRY := Entry(false, false, 0, 0, 0, false, -1)

  datatype Clobber = Clobber(busy: bool, transId: int)

  const IDLE := Clobber(false, -1)

  datatype Board = Board(entries: seq<Entry>, head: nat, tail: nat, count: nat, clobber: seq<Clobber>)

  /** The ring index k places after i: the trans_id of the k-th entry when i is the head. */
  function Slot(i: int, k: int): int {
    if i + k < SIZE then i + k else i + k - SIZE
  }

  /** The inverse of Slot: how many places index t lies after the head. */
  function Place(head: int, t: int): int {
    if t >= head then t - head else t - head + SIZE
  }

  ghost predicate Shape(b: Board) {
    |b.entries| == SIZE && |b.clobber| == NREGS && b.head < SIZE && b.tail < SIZE && b.count <= SIZE &&
    forall r :: 0 <= r < NREGS ==> -1 <= b.clobber[r].transId < SIZE && (b.clobber[r].busy ==> b.clobber[r].transId >= 0)
  }

  /** The ring discipline: exactly the count slots from head on are valid, tail is the next free
      one, and each live entry carries its own index. */
  ghost predicate RingOk(b: Board) {
    Shape(b) && b.tail == Slot(b.head, b.count) &&
    forall k :: 0 <= k < SIZE ==> (At(b, k).valid <==> k < b.count) && (k < b.count ==> At(b, k).transId == Slot(b.head, k))
  }

  /** The k-th oldest entry. */
  function At(b: Board, k: int): Entry
    requires |b.entries| == SIZE && b.head < SIZE && 0 <= k < SIZE
  {
    b.entries[Slot(b.head, k)]
  }

  // ---------------------------------------------------------------- operations

  function Empty(): Board {
    Board(seq(SIZE, _ => NO_ENTRY), 0, 0, 0, seq(NREGS, _ => IDLE))
  }

  function Allocate(b: Board): (Board, int)
    requires Shape(b)
  {
    var idx: int := if b.count == SIZE then -1 else b.tail;
    if idx < 0 then (b, idx)
    else
      (b.(entries := b.entries[idx := NO_ENTRY.(valid := true, transId := idx)],
          tail := Slot(idx, 1), count := b.count + 1), idx)
  }

  function Complete(b: Board, idx: int, result: Word, rd: Reg): Board
    requires Shape(b)
  {
    if idx < 0 || idx >= SIZE then b
    else b.(entries := b.entries[idx := b.entries[idx].(ready := true, result := result, rd := rd)])
  }

  predicate HeadReady(b: Board)
    requires Shape(b)
  {
    b.count > 0 && b.entries[b.head].valid && b.entries[b.head].ready
  }

  function Retire(b: Board): Board
    requires Shape(b)
  {
    if b.count == 0 then b
    else b.(entries := b.entries[b.head := b.entries[b.head].(valid := false)],
            head := Slot(b.head, 1), count := b.count - 1)
  }

  function Flush(b: Board): (r: Board)
    requires Shape(b)
    ensures RingOk(r) && r.count == 0 && r.head == 0
    ensures forall i :: 0 <= i < NREGS ==> r.clobber[i] == IDLE
  {
    b.(entries := seq(SIZE, i requires 0 <= i < SIZE => b.entries[i].(valid := false, ready := false)),
       clobber := seq(NREGS, _ => IDLE), head := 0, tail := 0, count := 0)
  }

  /** One step of the flush loop: drop entry i if it is valid, with its clobber. */
  function Squash(b: Board, i: int): Board
    requires Shape(b) && 0 <= i < SIZE
  {
    if !b.entries[i].valid then b
    else
      var rd := b.entries[i].rd;
      b.(clobber := if b.clobber[rd].busy && b.clobber[rd].transId == i then b.clobber[rd := IDLE] else b.clobber,
         entries := b.entries[i := b.entries[i].(valid := false, ready := false)],
         count := if b.count > 0 then b.count - 1 else 0)
  }

  function SquashTo(b: Board, i: int, end: int): Board
    requires Shape(b) && 0 <= i < SIZE && 0 <= end < SIZE
    decreases Place(i, end)
  {
    if i == end then b else SquashTo(Squash(b, i), Slot(i, 1), end)
  }

  /** Drop every entry after index idx up to the tail. */
  function FlushSpeculative(b: Board, idx: int): Board
    requires Shape(b)
  {
    if idx < 0 || idx >= SIZE then b
    else SquashTo(b, Slot(idx, 1), b.tail).(tail := Slot(idx, 1))
  }

  // ---------------------------------------------------------------- what they mean in flight

  lemma EmptyOk()
    ensures RingOk(Empty()) && Empty().count == 0
  {}

  /** Allocation appends one fresh entry; it fails exactly when 32 are in flight. */
  lemma AllocateAppends(b: Board)
    requires RingOk(b)
    ensures Allocate(b).1 == -1 <==> b.count == SIZE
    ensures b.count < SIZE ==> var r := Allocate(b).0;
      RingOk(r) && r.head == b.head && r.count == b.count + 1 && r.clobber == b.clobber &&
      Allocate(b).1 == Slot(b.head, b.count) &&
      At(r, b.count) == NO_ENTRY.(valid := true, transId := Slot(b.head, b.count)) &&
      forall k :: 0 <= k < b.count ==> At(r, k) == At(b, k)
  {}

  /** Completing index t touches the entry at its place and no other. */
  lemma CompleteUpdates(b: Board, t: int, v: Word, rd: Reg)
    requires RingOk(b) && 0 <= t < SIZE
    ensures var r := Complete(b, t, v, rd);
      RingOk(r) && r.head == b.head && r.count == b.count && r.clobber == b.clobber &&
      At(r, Place(b.head, t)) == At(b, Place(b.head, t)).(ready := true, result := v, rd := rd) &&
      forall k :: 0 <= k < SIZE && k != Place(b.head, t) ==> At(r, k) == At(b, k)
  {}

  /** Retiring removes the oldest entry; every other keeps its ring index. */
  lemma RetirePops(b: Board)
    requires RingOk(b) && b.count > 0
    ensures var r := Retire(b);
      RingOk(r) && r.head == Slot(b.head, 1) && r.count == b.count - 1 && r.clobber == b.clobber &&
      forall k :: 0 <= k < r.count ==> At(r, k) == At(b, k + 1) && Slot(r.head, k) == Slot(b.head, k + 1)
  {
    var r := Retire(b);
    assert forall k :: 0 <= k < SIZE - 1 ==> Slot(r.head, k) == Slot(b.head, k + 1);
    assert Slot(r.head, SIZE - 1) == b.head;
    forall k | 0 <= k < SIZE - 1 ensures At(r, k) == At(b, k + 1) {}
  }

  /** Entries at places keep..from are already gone, those at from..count0 still live. */
  ghost predicate Squashing(b: Board, b0: Board, keep: int, from: int) {
    Shape(b) && RingOk(b0) && 0 < keep <= from <= b0.count &&
    b.head == b0.head && b.tail == b0.tail && b.count == keep + (b0.count - from) &&
    forall k :: 0 <= k < SIZE ==>
      (At(b, k).valid <==> k < keep || from <= k < b0.count) && At(b, k).transId == At(b0, k).transId &&
      (k < keep || k >= from ==> At(b, k) == At(b0, k))
  }

  lemma SquashStep(b: Board, b0: Board, keep: int, from: int)
    requires Squashing(b, b0, keep, from) && from < b0.count
    ensures Slot(b.head, from) != b0.tail && Slot(Slot(b.head, from), 1) == Slot(b.head, from + 1)
    ensures Squashing(Squash(b, Slot(b.head, from)), b0, keep, from + 1)
  {
    var b' := Squash(b, Slot(b.head, from));
    assert At(b, from).valid;
    assert forall k :: 0 <= k < SIZE && k != from ==> At(b', k) == At(b, k);
  }

  lemma {:induction false} SquashToKeeps(b: Board, b0: Board, keep: int, from: int)
    requires Squashing(b, b0, keep, from)
    ensures Squashing(SquashTo(b, Slot(b.head, from), b0.tail), b0, keep, b0.count)
    decreases b0.count - from
  {
    if from < b0.count {
      SquashStep(b, b0, keep, from);
      SquashToKeeps(Squash(b, Slot(b.head, from)), b0, keep, from + 1);
    }
  }

  /** Selective flush: for a live index the entries through it are kept as they were, all younger
      ones are gone and the count is right, also when the ring is full or wraps. */
  lemma FlushSpeculativeKeepsPrefix(b: Board, idx: int)
    requires RingOk(b) && 0 <= idx < SIZE && Place(b.head, idx) < b.count
    ensures var r := FlushSpeculative(b, idx); var keep := Place(b.head, idx) + 1;
      RingOk(r) && r.head == b.head && r.count == keep &&
      forall k :: 0 <= k < keep ==> At(r, k) == At(b, k)
  {
    var keep := Place(b.head, idx) + 1;
    assert Slot(idx, 1) == if keep < SIZE then Slot(b.head, keep) else b.head;
    if keep == SIZE {
      assert b.tail == Slot(idx, 1);
    } else {
      SquashToKeeps(b, b, keep, keep);
    }
  }

  /** Flushing after the youngest live entry removes nothing at all. */
  lemma FlushAfterYoungest(b: Board, idx: int)
    requires RingOk(b) && b.count > 0 && idx == Slot(b.head, b.count - 1)
    ensures FlushSpeculative(b, idx) == b
  {}

  /** Register r's producer is among the entries at places from .. count, and wrote r down as its own. */
  predicate ProducerIn(b: Board, c: Clobber, r: Reg, from: int)
    requires |b.entries| == SIZE && b.head < SIZE && 0 <= from
  {
    c.busy && 0 <= c.transId < SIZE && from <= Place(b.head, c.transId) < b.count &&
    b.entries[c.transId].rd == r
  }

  lemma SquashingShape(b: Board, b0: Board, keep: int, from: int, r: Reg)
    requires Squashing(b, b0, keep, from)
    ensures Shape(b) && RingOk(b0) && b.head == b0.head && 0 <= from <= b0.count <= SIZE && !ProducerIn(b0, IDLE, r, from)
    ensures from == b0.count ==> Slot(b.head, from) == b0.tail && !ProducerIn(b0, b.clobber[r], r, from)
  {}

  lemma SquashOne(b: Board, b0: Board, keep: int, from: int, r: Reg)
    requires Squashing(b, b0, keep, from) && from < b0.count
    ensures Shape(Squash(b, Slot(b.head, from)))
    ensures var c := Squash(b, Slot(b.head, from)).clobber[r];
      && (ProducerIn(b0, b.clobber[r], r, from) ==> c == IDLE || (c == b.clobber[r] && ProducerIn(b0, c, r, from + 1)))
      && (!ProducerIn(b0, b.clobber[r], r, from) ==> c == b.clobber[r] && !ProducerIn(b0, c, r, from + 1))
  {
    var i := Slot(b.head, from);
    assert At(b, from) == At(b0, from) && Place(b.head, i) == from && At(b, from).valid;
    assert b0.entries[i] == b.entries[i];
  }

  lemma {:induction false} SquashReleases(b: Board, b0: Board, keep: int, from: int, r: Reg)
    requires Squashing(b, b0, keep, from)
    ensures Shape(SquashTo(b, Slot(b.head, from), b0.tail))
    ensures SquashTo(b, Slot(b.head, from), b0.tail).clobber[r] ==
      if ProducerIn(b0, b.clobber[r], r, from) then IDLE else b.clobber[r]
    decreases b0.count - from
  {
    hide Squashing, Squash, ProducerIn;
    SquashingShape(b, b0, keep, from, r);
    if from < b0.count {
      var i := Slot(b.head, from);
      SquashStep(b, b0, keep, from);
      SquashReleases(Squash(b, i), b0, keep, from + 1, r);
      SquashOne(b, b0, keep, from, r);
    }
  }

  /** Selective flush releases exactly the registers whose producer is a dropped entry that had already
      completed with that destination; every other clobber stays. */
  lemma FlushReleases(b: Board, idx: int, r: Reg)
    requires RingOk(b) && 0 <= idx < SIZE && Place(b.head, idx) < b.count
    ensures Shape(FlushSpeculative(b, idx))
    ensures FlushSpeculative(b, idx).clobber[r] ==
      if ProducerIn(b, b.clobber[r], r, Place(b.head, idx) + 1) then IDLE else b.clobber[r]
  {
    var keep := Place(b.head, idx) + 1;
    if keep == SIZE {
      assert b.tail == Slot(idx, 1);
    } else {
      assert Slot(idx, 1) == Slot(b.head, keep);
      SquashReleases(b, b, keep, keep, r);
    }
  }
}
