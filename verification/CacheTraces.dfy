/** Whole caches over whole address traces: hits characterised by recency, and the inclusion
    property of LRU. */
module CacheTraces {
  import opened Words
  import opened Recency
  import opened CacheModel

  datatype Cache = Cache(sets: seq<Ways>, accesses: nat, hits: nat, lfsr: Lfsr8)

  function EmptyCache(g: Geometry): Cache
    requires GeometryOk(g)
  {
    Cache(seq(g.sets, _ => seq(g.ways, _ => EMPTY_LINE)), 0, 0, 0xAC)
  }

  predicate Fits(g: Geometry, c: Cache) {
    GeometryOk(g) && |c.sets| == g.sets && forall i :: 0 <= i < |c.sets| ==> |c.sets[i]| == g.ways
  }

  lemma IndexInRange(g: Geometry, addr: Word)
    requires GeometryOk(g)
    ensures 0 <= SetIndex(g, addr) < g.sets
  {
    IndexAndTag(g, addr);
  }

  function Access(g: Geometry, policy: Policy, c: Cache, addr: Word): (r: (Cache, bool))
    requires Fits(g, c)
    ensures Fits(g, r.0)
  {
    IndexInRange(g, addr);
    var idx := SetIndex(g, addr);
    var o := SetAccess(policy, c.sets[idx], Tag(g, addr), c.accesses + 1, c.lfsr);
    (Cache(c.sets[idx := o.ways], c.accesses + 1, if o.hit then c.hits + 1 else c.hits, o.lfsr), o.hit)
  }

  function After(g: Geometry, policy: Policy, trace: seq<Word>): (c: Cache)
    requires GeometryOk(g)
    ensures Fits(g, c)
  {
    if trace == [] then EmptyCache(g)
    else Access(g, policy, After(g, policy, trace[..|trace| - 1]), trace[|trace| - 1]).0
  }

  predicate Hits(g: Geometry, policy: Policy, trace: seq<Word>, addr: Word)
    requires GeometryOk(g)
  {
    Access(g, policy, After(g, policy, trace), addr).1
  }

  function SetOf(g: Geometry, addr: Word): nat
    requires GeometryOk(g)
  {
    LineOf(g, addr) % g.sets
  }

  /** The lines of set idx a trace uses, in order. */
  function History(g: Geometry, trace: seq<Word>, idx: nat): seq<int>
    requires GeometryOk(g)
  {
    if trace == [] then []
    else
      var addr := trace[|trace| - 1];
      History(g, trace[..|trace| - 1], idx) + if SetOf(g, addr) == idx then [LineOf(g, addr)] else []
  }

  ghost predicate Tracked(ws: seq<Line>, stack: seq<int>, sets: nat, idx: nat, now: nat)
    requires sets > 0
  {
    exists slot :: Tracks(ws, stack, slot, sets, idx, now)
  }

  lemma TracksLater(ws: seq<Line>, stack: seq<int>, slot: seq<int>, sets: nat, idx: nat, now: nat, later: nat)
    requires sets > 0 && Tracks(ws, stack, slot, sets, idx, now) && now <= later
    ensures Tracks(ws, stack, slot, sets, idx, later)
  {
    forall i | 0 <= i < |slot| ensures Held(ws, stack, slot, sets, i, later) {
      assert Held(ws, stack, slot, sets, i, now);
    }
  }

  lemma EmptyTracks(g: Geometry, idx: nat)
    requires GeometryOk(g) && idx < g.sets
    ensures Tracked(EmptyCache(g).sets[idx], [], g.sets, idx, 0)
  {
    assert Tracks(EmptyCache(g).sets[idx], [], [], g.sets, idx, 0);
  }

  lemma {:induction false} Counts(g: Geometry, policy: Policy, trace: seq<Word>)
    requires GeometryOk(g)
    ensures After(g, policy, trace).accesses == |trace| && After(g, policy, trace).hits <= |trace|
  {
    if trace != [] { Counts(g, policy, trace[..|trace| - 1]); }
  }

  /** In LRU mode, from empty, every set tracks the recency stack of its history. */
  lemma {:induction false} LruTracks(g: Geometry, trace: seq<Word>, idx: nat)
    requires GeometryOk(g) && idx < g.sets
    ensures Tracked(After(g, Lru, trace).sets[idx], Stack(History(g, trace, idx)), g.sets, idx, |trace|)
  {
    if trace == [] {
      EmptyTracks(g, idx);
      assert History(g, trace, idx) == [];
    } else {
      var init, addr := trace[..|trace| - 1], trace[|trace| - 1];
      assert trace == init + [addr];
      LruTracks(g, init, idx);
      LruTracksStep(g, init, addr, idx);
    }
  }

  lemma LruTracksStep(g: Geometry, init: seq<Word>, addr: Word, idx: nat)
    requires GeometryOk(g) && idx < g.sets
    requires Tracked(After(g, Lru, init).sets[idx], Stack(History(g, init, idx)), g.sets, idx, |init|)
    ensures Tracked(After(g, Lru, init + [addr]).sets[idx], Stack(History(g, init + [addr], idx)), g.sets, idx, |init| + 1)
  {
    hide Tracks, SetAccess, Stack, Touch, Access, After, History, SetOf;
    var c, line := After(g, Lru, init), LineOf(g, addr);
    Counts(g, Lru, init);
    AfterOne(g, init, addr);
    AccessOneSet(g, c, addr, idx);
    HistoryGrows(g, init, addr, idx);
    var stack := Stack(History(g, init, idx));
    var slot :| Tracks(c.sets[idx], stack, slot, g.sets, idx, |init|);
    if SetOf(g, addr) == idx {
      SetOfLine(g, addr);
      var slot' := AccessTracks(c.sets[idx], stack, slot, g.sets, idx, |init|, line, c.lfsr);
    } else {
      TracksLater(c.sets[idx], stack, slot, g.sets, idx, |init|, |init| + 1);
    }
  }

  lemma SetOfLine(g: Geometry, addr: Word)
    requires GeometryOk(g)
    ensures SetOf(g, addr) == LineOf(g, addr) % g.sets
  {}

  /** An access changes the set its line maps to and no other. */
  lemma AccessOneSet(g: Geometry, c: Cache, addr: Word, idx: nat)
    requires Fits(g, c) && idx < g.sets
    ensures var r := Access(g, Lru, c, addr).0;
      r.sets[idx] == if SetOf(g, addr) == idx
        then SetAccess(Lru, c.sets[idx], LineOf(g, addr) / g.sets, c.accesses + 1, c.lfsr).ways
        else c.sets[idx]
  {
    hide SetAccess;
    IndexAndTag(g, addr);
  }

  lemma AfterOne(g: Geometry, init: seq<Word>, addr: Word)
    requires GeometryOk(g)
    ensures After(g, Lru, init + [addr]) == Access(g, Lru, After(g, Lru, init), addr).0
  {
    assert (init + [addr])[..|init|] == init;
  }

  lemma HistoryGrows(g: Geometry, init: seq<Word>, addr: Word, idx: nat)
    requires GeometryOk(g)
    ensures Stack(History(g, init + [addr], idx)) ==
      if SetOf(g, addr) == idx then Touch(Stack(History(g, init, idx)), LineOf(g, addr)) else Stack(History(g, init, idx))
  {
    assert (init + [addr])[..|init|] == init;
    var h := History(g, init, idx);
    assert (h + [LineOf(g, addr)])[..|h|] == h;
    assert h + [] == h;
  }

  /** Each set holds exactly the most recently used distinct lines that map to it, as many as it
      has ways. */
  lemma LruHolds(g: Geometry, trace: seq<Word>, line: nat)
    requires GeometryOk(g)
    ensures var idx := line % g.sets; var stack := Stack(History(g, trace, idx));
      FindFrom(After(g, Lru, trace).sets[idx], line / g.sets, 0) >= 0 <==> line in stack[..Min(g.ways, |stack|)]
  {
    var idx := line % g.sets;
    var ws, stack := After(g, Lru, trace).sets[idx], Stack(History(g, trace, idx));
    LruTracks(g, trace, idx);
    var slot :| Tracks(ws, stack, slot, g.sets, idx, |trace|);
    var i := FoundIff(ws, stack, slot, g.sets, idx, |trace|, line);
    if i >= 0 { assert stack[..Min(g.ways, |stack|)][i] == line; }
  }

  /** An access in LRU mode hits iff its line was used before and fewer than ways distinct other
      lines of its set were used since. */
  lemma LruHitIff(g: Geometry, trace: seq<Word>, addr: Word)
    requires GeometryOk(g)
    ensures var line := LineOf(g, addr); var h := History(g, trace, SetOf(g, addr));
      Hits(g, Lru, trace, addr) <==> line in h && |Since(h, line)| < g.ways
  {
    IndexAndTag(g, addr);
    IndexInRange(g, addr);
    LruHolds(g, trace, LineOf(g, addr));
    TopMeansRecent(History(g, trace, SetOf(g, addr)), LineOf(g, addr), g.ways);
  }

  /** Inclusion: with equal sets and line size, what hits with fewer ways hits with more. */
  lemma MoreWaysHit(g: Geometry, more: Geometry, trace: seq<Word>, addr: Word)
    requires GeometryOk(g) && GeometryOk(more)
    requires more.sets == g.sets && more.lineBytes == g.lineBytes && g.ways <= more.ways
    requires Hits(g, Lru, trace, addr)
    ensures Hits(more, Lru, trace, addr)
  {
    SameHistory(g, more, trace, SetOf(g, addr));
    LruHitIff(g, trace, addr);
    LruHitIff(more, trace, addr);
  }

  lemma {:induction false} SameHistory(g: Geometry, more: Geometry, trace: seq<Word>, idx: nat)
    requires GeometryOk(g) && GeometryOk(more) && more.sets == g.sets && more.lineBytes == g.lineBytes
    ensures History(more, trace, idx) == History(g, trace, idx)
  {
    if trace != [] { SameHistory(g, more, trace[..|trace| - 1], idx); }
  }

  /** More ways never give more misses, on any trace. */
  lemma {:induction false} MoreWaysFewerMisses(g: Geometry, more: Geometry, trace: seq<Word>)
    requires GeometryOk(g) && GeometryOk(more)
    requires more.sets == g.sets && more.lineBytes == g.lineBytes && g.ways <= more.ways
    ensures After(more, Lru, trace).hits >= After(g, Lru, trace).hits
    ensures |trace| - After(more, Lru, trace).hits <= |trace| - After(g, Lru, trace).hits
  {
    if trace != [] {
      var init, addr := trace[..|trace| - 1], trace[|trace| - 1];
      MoreWaysFewerMisses(g, more, init);
      if Hits(g, Lru, init, addr) { MoreWaysHit(g, more, init, addr); }
    }
  }
}
