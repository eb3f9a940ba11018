/** The meaning of a queue of buffered stores (inc/StoreBuffer.h): newest-first forwarding,
    the byte-addressed overlay it stands for, and draining it oldest-first. */
module StoreQueue {
  import opened Words

  datatype StoreEntry = StoreEntry(valid: bool, address: Word, data: Word, size: nat, transId: int)

  datatype Forwarded = Hit(data: nat) | PartialOverlap | Miss

  datatype Option<T> = None | Some(value: T)

  // ---------------------------------------------------------------- the code's tests

  /** The end of a byte range as uint64_t arithmetic computes it. */
  function End(a: Word, n: nat): Word { Wrap(a + n) }

  predicate Overlaps(e: StoreEntry, a: Word, n: nat) {
    e.valid && Max(a, e.address) < Min(End(a, n), End(e.address, e.size))
  }

  predicate Contains(e: StoreEntry, a: Word, n: nat) {
    a >= e.address && End(a, n) <= End(e.address, e.size)
  }

  /** Shift the store's data down to the load's first byte and mask to the load's size. */
  function Extract(e: StoreEntry, a: Word, n: nat): nat
    requires a >= e.address
  {
    (e.data / Pow256(a - e.address)) % Pow256(n)
  }

  function Verdict(e: StoreEntry, a: Word, n: nat): Forwarded {
    if Contains(e, a, n) then Hit(Extract(e, a, n)) else PartialOverlap
  }

  /** Newest-first search of one queue (oldest entry at index 0). */
  function Scan(q: seq<StoreEntry>, a: Word, n: nat): Forwarded {
    if q == [] then Miss
    else if Overlaps(q[|q| - 1], a, n) then Verdict(q[|q| - 1], a, n)
    else Scan(q[..|q| - 1], a, n)
  }

  /** Speculative stores are younger than committed ones, so they are searched first. */
  function Forward(spec: seq<StoreEntry>, committed: seq<StoreEntry>, a: Word, n: nat): Forwarded {
    var r := Scan(spec, a, n);
    if r == Miss then Scan(committed, a, n) else r
  }

  /** Which entry the search stops at; -1 when it falls through. */
  function Chosen(q: seq<StoreEntry>, a: Word, n: nat): (i: int)
    ensures -1 <= i < |q|
  {
    if q == [] then -1
    else if Overlaps(q[|q| - 1], a, n) then |q| - 1
    else Chosen(q[..|q| - 1], a, n)
  }

  // ---------------------------------------------------------------- the reference

  /** The entry stores to byte x. */
  predicate Covers(e: StoreEntry, x: int) { e.valid && e.address <= x < e.address + e.size }

  ghost predicate Touches(e: StoreEntry, a: int, n: nat) {
    exists x :: a <= x < a + n && Covers(e, x)
  }

  ghost predicate CoversAll(e: StoreEntry, a: int, n: nat) {
    forall x :: a <= x < a + n ==> Covers(e, x)
  }

  /** The newest entry that shares a byte with the load; -1 when there is none. */
  ghost function Newest(q: seq<StoreEntry>, a: int, n: nat): (i: int)
    ensures -1 <= i < |q|
    ensures i >= 0 ==> Touches(q[i], a, n)
    ensures forall j :: i < j < |q| ==> !Touches(q[j], a, n)
  {
    if q == [] then -1
    else if Touches(q[|q| - 1], a, n) then |q| - 1
    else Newest(q[..|q| - 1], a, n)
  }

  function WriteBytes(m: Memory, address: Word, data: Word, size: nat): Memory {
    (x: int) => if address <= x < address + size then ByteOf(data, x - address) else m(x)
  }

  function Write(m: Memory, e: StoreEntry): Memory {
    if e.valid then WriteBytes(m, e.address, e.data, e.size) else m
  }

  /** Memory as seen through a queue: the stores applied oldest first. */
  function Overlay(m: Memory, q: seq<StoreEntry>): Memory {
    if q == [] then m else Write(Overlay(m, q[..|q| - 1]), q[|q| - 1])
  }

  /** A naturally aligned access of a size the ISA has. */
  predicate Natural(a: int, n: nat) { n in {1, 2, 4, 8} && a % n == 0 }

  /** The access stays clear of the last byte of the address space, so its end does not wrap to 0. */
  predicate Clear(a: Word, n: nat) { a + n < TWO64 }

  predicate Sized(e: StoreEntry) { 1 <= e.size <= 8 }

  predicate AllClear(q: seq<StoreEntry>) {
    forall i :: 0 <= i < |q| ==> Sized(q[i]) && Clear(q[i].address, q[i].size)
  }

  // ---------------------------------------------------------------- forwarding is right

  lemma OverlapIsTouch(e: StoreEntry, a: Word, n: nat)
    requires Clear(a, n) && Sized(e) && Clear(e.address, e.size) && n > 0
    ensures Overlaps(e, a, n) <==> Touches(e, a, n)
    ensures Touches(e, a, n) ==> (Contains(e, a, n) <==> CoversAll(e, a, n))
  {
    assert End(a, n) == a + n && End(e.address, e.size) == e.address + e.size;
    if Overlaps(e, a, n) { assert Covers(e, Max(a, e.address)); }
    if CoversAll(e, a, n) { assert Covers(e, a) && Covers(e, a + n - 1); }
  }

  lemma ExtractReads(m: Memory, e: StoreEntry, a: Word, n: nat)
    requires CoversAll(e, a, n) && n > 0
    ensures a >= e.address && Extract(e, a, n) == ReadLE(Write(m, e), a, n)
  {
    assert Covers(e, a);
    forall x | a <= x < a + n ensures Write(m, e)(x) == ByteOf(e.data, a - e.address + x - a) {
      assert Covers(e, x);
    }
    ReadSlice(Write(m, e), a, n, e.data, a - e.address);
  }

  /** The search of one queue stops at the newest store that shares a byte with the load, and
      answers with the bytes memory would hold once the whole queue has drained. */
  lemma {:induction false} ScanMeaning(m: Memory, q: seq<StoreEntry>, a: Word, n: nat)
    requires Clear(a, n) && 0 < n && AllClear(q)
    ensures var i := Newest(q, a, n);
      if i < 0 then Scan(q, a, n) == Miss && ReadLE(Overlay(m, q), a, n) == ReadLE(m, a, n)
      else if CoversAll(q[i], a, n) then Scan(q, a, n) == Hit(ReadLE(Overlay(m, q), a, n))
      else Scan(q, a, n) == PartialOverlap
  {
    if q != [] {
      var e, rest := q[|q| - 1], q[..|q| - 1];
      OverlapIsTouch(e, a, n);
      if Touches(e, a, n) {
        if CoversAll(e, a, n) { ExtractReads(Overlay(m, rest), e, a, n); }
      } else {
        ScanMeaning(m, rest, a, n);
        forall x | a <= x < a + n ensures Overlay(m, q)(x) == Overlay(m, rest)(x) {
          assert !Covers(e, x);
        }
        ReadSame(Overlay(m, q), Overlay(m, rest), a, n);
      }
    }
  }

  lemma {:induction false} OverlayConcat(m: Memory, p: seq<StoreEntry>, q: seq<StoreEntry>)
    ensures Overlay(m, p + q) == Overlay(Overlay(m, p), q)
  {
    if q == [] {
      assert p + q == p;
    } else {
      assert (p + q)[..|p + q| - 1] == p + q[..|q| - 1];
      OverlayConcat(m, p, q[..|q| - 1]);
    }
  }

  /** Searching the two queues in turn is searching committed followed by speculative. */
  lemma {:induction false} ScanConcat(spec: seq<StoreEntry>, committed: seq<StoreEntry>, a: Word, n: nat)
    ensures Scan(committed + spec, a, n) == Forward(spec, committed, a, n)
  {
    if spec == [] {
      assert committed + spec == committed;
    } else {
      assert (committed + spec)[..|committed + spec| - 1] == committed + spec[..|spec| - 1];
      ScanConcat(spec[..|spec| - 1], committed, a, n);
    }
  }

  /** Store buffer and memory together are one byte-addressed memory. Forwarding decides by the
      newest buffered store that shares a byte with the load: none gives MISS and memory already
      holds the right bytes, one covering the load gives HIT with exactly the bytes of memory
      overlaid with committed then speculative stores, any other gives PARTIAL_OVERLAP. */
  lemma ForwardMeaning(m: Memory, spec: seq<StoreEntry>, committed: seq<StoreEntry>, a: Word, n: nat)
    requires Clear(a, n) && 0 < n && AllClear(spec) && AllClear(committed)
    ensures var q := committed + spec; var i := Newest(q, a, n);
      var bytes := ReadLE(Overlay(m, q), a, n);
      if i < 0 then Forward(spec, committed, a, n) == Miss && bytes == ReadLE(m, a, n)
      else if CoversAll(q[i], a, n) then Forward(spec, committed, a, n) == Hit(bytes)
      else Forward(spec, committed, a, n) == PartialOverlap
  {
    ScanConcat(spec, committed, a, n);
    ScanMeaning(m, committed + spec, a, n);
  }

  /** The end of an access that reaches the last byte of the address space wraps to 0, and the
      overlap test then never fires. For naturally aligned accesses the search stops at the
      newest store sharing a byte with the load exactly when neither of the two reaches it. */
  lemma {:induction false} ChosenIsNewest(q: seq<StoreEntry>, a: Word, n: nat)
    requires Natural(a, n)
    requires forall i :: 0 <= i < |q| ==> Natural(q[i].address, q[i].size)
    ensures Chosen(q, a, n) == Newest(q, a, n) <==>
      var i := Newest(q, a, n); i < 0 || (Clear(a, n) && Clear(q[i].address, q[i].size))
  {
    if q != [] {
      var e := q[|q| - 1];
      NaturalEnd(a, n);
      NaturalEnd(e.address, e.size);
      if Clear(a, n) && Clear(e.address, e.size) {
        OverlapIsTouch(e, a, n);
      } else {
        assert !Overlaps(e, a, n);
      }
      if !Touches(e, a, n) {
        assert !Overlaps(e, a, n);
        ChosenIsNewest(q[..|q| - 1], a, n);
      }
    }
  }

  lemma NaturalEnd(a: Word, n: nat)
    requires Natural(a, n)
    ensures a + n <= TWO64
    ensures End(a, n) == if Clear(a, n) then a + n else 0
  {}

  /** A store of the last doubleword followed by a load of it: the load misses the buffered store. */
  lemma WrapBlindExample()
    ensures var e := StoreEntry(true, 0xFFFF_FFFF_FFFF_FFF8, 7, 8, 0);
      Forward([e], [], 0xFFFF_FFFF_FFFF_FFF8, 8) == Miss && Newest([e], 0xFFFF_FFFF_FFFF_FFF8, 8) == 0
  {
    var e := StoreEntry(true, 0xFFFF_FFFF_FFFF_FFF8, 7, 8, 0);
    assert Covers(e, 0xFFFF_FFFF_FFFF_FFF8);
    assert Touches(e, 0xFFFF_FFFF_FFFF_FFF8, 8);
    assert [e][..0] == [];
    assert Scan([e], 0xFFFF_FFFF_FFFF_FFF8, 8) == Scan([], 0xFFFF_FFFF_FFFF_FFF8, 8);
  }

  // ---------------------------------------------------------------- adding, committing, draining

  /** A new store changes exactly its own bytes of the overlay. */
  lemma AddStoreMeaning(m: Memory, q: seq<StoreEntry>, e: StoreEntry, x: int)
    requires e.valid
    ensures Overlay(m, q + [e])(x) ==
      if e.address <= x < e.address + e.size then ByteOf(e.data, x - e.address) else Overlay(m, q)(x)
  {
    assert (q + [e])[..|q|] == q;
  }

  /** Moving the oldest speculative store behind the committed ones. The move sets the valid bit. */
  function CommitMove(spec: seq<StoreEntry>, committed: seq<StoreEntry>): (seq<StoreEntry>, seq<StoreEntry>)
    requires spec != []
  {
    (spec[1..], committed + [spec[0].(valid := true)])
  }

  lemma CommitKeepsOverlay(m: Memory, spec: seq<StoreEntry>, committed: seq<StoreEntry>)
    requires spec != [] && spec[0].valid
    ensures var (s, c) := CommitMove(spec, committed);
      c + s == committed + spec && Overlay(m, c + s) == Overlay(m, committed + spec)
  {
    var e := spec[0];
    assert e.(valid := true) == e;
    Assoc(committed, [e], spec[1..]);
    assert [e] + spec[1..] == spec;
  }

  /** Some valid store of q writes byte x. */
  ghost predicate CoveredBy(q: seq<StoreEntry>, x: int) { exists i :: 0 <= i < |q| && Covers(q[i], x) }

  /** A covered byte does not depend on the memory below, any other is the memory's. */
  lemma {:induction false} OverlayAt(m: Memory, n: Memory, q: seq<StoreEntry>, x: int)
    ensures if CoveredBy(q, x) then Overlay(m, q)(x) == Overlay(n, q)(x) else Overlay(m, q)(x) == m(x)
  {
    if q != [] {
      var e, rest := q[|q| - 1], q[..|q| - 1];
      OverlayAt(m, n, rest, x);
      if Covers(e, x) {
        assert CoveredBy(q, x);
      } else if CoveredBy(rest, x) {
        var i :| 0 <= i < |rest| && Covers(rest[i], x);
        assert Covers(q[i], x);
      }
    }
  }

  /** The move of the oldest speculative store, valid or not, leaves every byte of the overlay as it was if
      and only if the store is valid, or each of its bytes is written by a younger speculative store or
      holds the store's value already. */
  lemma CommitOverlayIff(m: Memory, spec: seq<StoreEntry>, committed: seq<StoreEntry>)
    requires spec != []
    ensures var (s, c) := CommitMove(spec, committed); var e := spec[0];
      (forall x: int :: Overlay(m, c + s)(x) == Overlay(m, committed + spec)(x)) <==>
        e.valid || forall x: int :: e.address <= x < e.address + e.size ==>
                     CoveredBy(spec[1..], x) || Overlay(m, committed)(x) == ByteOf(e.data, x - e.address)
  {
    hide Overlay, CoveredBy, ByteOf;
    var (s, c) := CommitMove(spec, committed);
    var e, base := spec[0], Overlay(m, committed);
    if e.valid {
      CommitKeepsOverlay(m, spec, committed);
    } else {
      MoveOverlays(m, spec, committed);
      forall x: int
        ensures Overlay(m, c + s)(x) == Overlay(m, committed + spec)(x) <==>
          (e.address <= x < e.address + e.size ==> CoveredBy(s, x) || base(x) == ByteOf(e.data, x - e.address))
      {
        RevivedAt(base, e, s, x);
      }
    }
  }

  lemma RevivedAt(base: Memory, e: StoreEntry, q: seq<StoreEntry>, x: int)
    requires !e.valid
    ensures Overlay(Write(base, e.(valid := true)), q)(x) == Overlay(base, q)(x) <==>
      (e.address <= x < e.address + e.size ==> CoveredBy(q, x) || base(x) == ByteOf(e.data, x - e.address))
  {
    hide Overlay, CoveredBy, ByteOf;
    OverlayAt(Write(base, e.(valid := true)), base, q, x);
    OverlayAt(base, base, q, x);
  }

  lemma MoveOverlays(m: Memory, spec: seq<StoreEntry>, committed: seq<StoreEntry>)
    requires spec != [] && !spec[0].valid
    ensures var (s, c) := CommitMove(spec, committed); var base := Overlay(m, committed);
      Overlay(m, c + s) == Overlay(Write(base, spec[0].(valid := true)), s) && Overlay(m, committed + spec) == Overlay(base, s)
  {
    var (s, c) := CommitMove(spec, committed);
    var e := spec[0];
    OverlayConcat(m, c, s);
    assert c[..|committed|] == committed;
    Assoc(committed, [e], s);
    assert [e] + s == spec;
    OverlayConcat(m, committed + [e], s);
    assert (committed + [e])[..|committed|] == committed;
  }

  /** A failing input: an invalidated store of 7 over zeroed memory comes back to life when it commits. */
  lemma CommitRevives()
    ensures var e := StoreEntry(false, 0, 7, 8, 0); var m: Memory := x => 0;
      var (s, c) := CommitMove([e], []);
      Overlay(m, [] + [e])(0) == 0 && Overlay(m, c + s)(0) == 7
  {
    var e := StoreEntry(false, 0, 7, 8, 0);
    var m: Memory := x => 0;
    assert [e][1..] == [] && [e][..0] == [] && [e.(valid := true)][..0] == [];
    assert [] + [e] == [e] && [] + [e.(valid := true)] + [] == [e.(valid := true)];
    assert ByteOf(7, 0) == 7;
  }

  /** drain_one: pop until a valid entry is found. */
  function Drain(q: seq<StoreEntry>): (r: (Option<StoreEntry>, seq<StoreEntry>)) {
    if q == [] then (None, [])
    else if q[0].valid then (Some(q[0]), q[1..])
    else Drain(q[1..])
  }

  /** A drain pops through the first valid entry, at place k, and leaves the ones behind it; with none it
      empties the queue. */
  lemma {:induction false} DrainExact(q: seq<StoreEntry>, k: nat)
    requires k <= |q| && (forall i :: 0 <= i < k ==> !q[i].valid) && (k < |q| ==> q[k].valid)
    ensures Drain(q) == if k < |q| then (Some(q[k]), q[k + 1..]) else (None, [])
    decreases k
  {
    if k > 0 {
      assert q[1..][k - 1..] == q[k..];
      DrainExact(q[1..], k - 1);
    }
  }

  function DrainWrite(m: Memory, r: Option<StoreEntry>): Memory {
    match r case None => m case Some(e) => Write(m, e)
  }

  /** Draining one store and writing it to memory leaves every byte of the overlay as it was. */
  lemma {:induction false} DrainKeepsOverlay(m: Memory, q: seq<StoreEntry>, younger: seq<StoreEntry>)
    ensures var (r, rest) := Drain(q);
      Overlay(DrainWrite(m, r), rest + younger) == Overlay(m, q + younger)
  {
    if q == [] {
    } else {
      assert q + younger == [q[0]] + (q[1..] + younger);
      OverlayConcat(m, [q[0]], q[1..] + younger);
      assert [q[0]][..0] == [];
      assert Overlay(m, [q[0]]) == Write(m, q[0]);
      if !q[0].valid { DrainKeepsOverlay(m, q[1..], younger); }
    }
  }

  /** Draining until nothing is left leaves memory equal to the overlay. */
  function DrainAll(m: Memory, q: seq<StoreEntry>): Memory
    decreases |q|
  {
    if q == [] then m
    else
      var (r, rest) := Drain(q);
      DrainShorter(q);
      DrainAll(DrainWrite(m, r), rest)
  }

  lemma {:induction false} DrainShorter(q: seq<StoreEntry>)
    requires q != []
    ensures |Drain(q).1| < |q|
  {
    if !q[0].valid && |q| > 1 { DrainShorter(q[1..]); }
  }

  lemma {:induction false} DrainAllIsOverlay(m: Memory, q: seq<StoreEntry>)
    ensures DrainAll(m, q) == Overlay(m, q)
    decreases |q|
  {
    if q != [] {
      var (r, rest) := Drain(q);
      DrainShorter(q);
      DrainKeepsOverlay(m, q, []);
      assert q + [] == q && rest + [] == rest;
      DrainAllIsOverlay(DrainWrite(m, r), rest);
    }
  }

  /** Invalidation of every entry that overlaps a byte range, end computed with wrap-around. */
  function Invalidated(e: StoreEntry, a: Word, n: nat): StoreEntry {
    if e.valid && a < End(e.address, e.size) && End(a, n) > e.address then e.(valid := false) else e
  }

  function InvalidateAll(q: seq<StoreEntry>, a: Word, n: nat): (r: seq<StoreEntry>)
    ensures |r| == |q| && forall i :: 0 <= i < |q| ==> r[i] == Invalidated(q[i], a, n)
  {
    seq(|q|, i requires 0 <= i < |q| => Invalidated(q[i], a, n))
  }

  /** The range and each store end inside the address space or exactly at its end. */
  predicate EndsFit(q: seq<StoreEntry>, a: Word, n: nat) {
    0 < n && a + n <= TWO64 && forall i :: 0 <= i < |q| ==> q[i].size > 0 && q[i].address + q[i].size <= TWO64
  }

  /** Invalidation misses nothing: a store sharing a byte with the range reaches the last byte of the
      address space no more than the range does. */
  ghost predicate NoneMissed(q: seq<StoreEntry>, a: Word, n: nat) {
    forall i :: 0 <= i < |q| && Touches(q[i], a, n) ==> Clear(a, n) && Clear(q[i].address, q[i].size)
  }

  lemma InvalidatedIff(e: StoreEntry, a: Word, n: nat)
    requires 0 < n && a + n <= TWO64 && e.size > 0 && e.address + e.size <= TWO64
    ensures Touches(Invalidated(e, a, n), a, n) <==> Touches(e, a, n) && !(Clear(a, n) && Clear(e.address, e.size))
  {
    assert End(a, n) == if Clear(a, n) then a + n else 0;
    assert End(e.address, e.size) == if Clear(e.address, e.size) then e.address + e.size else 0;
    if e.valid && a < e.address + e.size && e.address < a + n { assert Covers(e, Max(a, e.address)); }
    if Touches(e, a, n) && Invalidated(e, a, n) == e { assert Touches(Invalidated(e, a, n), a, n); }
  }

  /** After invalidating a range no buffered store can serve a byte of it, if and only if neither the
      range nor a store sharing a byte with it reaches the last byte of the address space. */
  lemma InvalidateExact(q: seq<StoreEntry>, a: Word, n: nat)
    requires EndsFit(q, a, n)
    ensures (forall i :: 0 <= i < |q| ==> !Touches(InvalidateAll(q, a, n)[i], a, n)) <==> NoneMissed(q, a, n)
  {
    forall i | 0 <= i < |q|
      ensures Touches(InvalidateAll(q, a, n)[i], a, n) <==> Touches(q[i], a, n) && !(Clear(a, n) && Clear(q[i].address, q[i].size))
    {
      InvalidatedIff(q[i], a, n);
    }
  }

  /** No other entry is touched, and of those no field but the valid bit. */
  lemma InvalidateKeeps(q: seq<StoreEntry>, a: Word, n: nat, i: nat)
    requires EndsFit(q, a, n) && i < |q|
    ensures InvalidateAll(q, a, n)[i] ==
      if Touches(q[i], a, n) && Clear(a, n) && Clear(q[i].address, q[i].size) then q[i].(valid := false) else q[i]
  {
    var e := q[i];
    InvalidatedIff(e, a, n);
    assert End(a, n) == if Clear(a, n) then a + n else 0;
    assert End(e.address, e.size) == if Clear(e.address, e.size) then e.address + e.size else 0;
    if e.valid && a < e.address + e.size && e.address < a + n { assert Covers(e, Max(a, e.address)); }
  }

  /** Then every byte of the range is the memory's. */
  lemma InvalidateUncovers(m: Memory, q: seq<StoreEntry>, a: Word, n: nat, x: int)
    requires EndsFit(q, a, n) && NoneMissed(q, a, n) && a <= x < a + n
    ensures Overlay(m, InvalidateAll(q, a, n))(x) == m(x)
  {
    InvalidateExact(q, a, n);
    var r := InvalidateAll(q, a, n);
    forall i | 0 <= i < |r| ensures !Covers(r[i], x) { assert !Touches(r[i], a, n); }
    OverlayAt(m, m, r, x);
  }

  /** A failing input: invalidating the last doubleword leaves the store of it valid. */
  lemma InvalidateBlindExample()
    ensures var e := StoreEntry(true, 0xFFFF_FFFF_FFFF_FFF8, 7, 8, 0);
      EndsFit([e], e.address, 8) && InvalidateAll([e], e.address, 8) == [e] && !NoneMissed([e], e.address, 8)
  {
    var e := StoreEntry(true, 0xFFFF_FFFF_FFFF_FFF8, 7, 8, 0);
    assert Covers(e, e.address) && Touches([e][0], e.address, 8);
  }
}
