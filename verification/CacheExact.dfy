/** What one cache access does under every replacement policy, the shift register behind random
    replacement, and the counters. */
module CacheExact {
  import opened Words
  import opened CacheModel
  import opened CacheTraces

  // ---------------------------------------------------------------- one set

  predicate Holds(w: Line, tag: int) { w.valid && w.tag == tag }

  lemma {:induction false} FindFirst(ws: seq<Line>, tag: int, i: nat)
    requires i <= |ws|
    ensures FindFrom(ws, tag, i) >= 0 ==> forall w :: i <= w < FindFrom(ws, tag, i) ==> !Holds(ws[w], tag)
    decreases |ws| - i
  {
    if i < |ws| && !Holds(ws[i], tag) { FindFirst(ws, tag, i + 1); }
  }

  lemma {:induction false} FreeFirst(ws: seq<Line>, i: nat)
    requires i <= |ws|
    ensures FreeFrom(ws, i) >= 0 ==> forall w :: i <= w < FreeFrom(ws, i) ==> ws[w].valid
    decreases |ws| - i
  {
    if i < |ws| && ws[i].valid { FreeFirst(ws, i + 1); }
  }

  lemma {:induction false} OldestFirst(ws: seq<Line>, victim: nat, i: nat)
    requires victim < i <= |ws|
    requires forall w :: 0 <= w < i ==> if w < victim then ws[victim].lruTime < ws[w].lruTime else ws[victim].lruTime <= ws[w].lruTime
    ensures var r := OldestFrom(ws, victim, i);
      forall w :: 0 <= w < |ws| ==> if w < r then ws[r].lruTime < ws[w].lruTime else ws[r].lruTime <= ws[w].lruTime
    decreases |ws| - i
  {
    if i < |ws| { OldestFirst(ws, if ws[i].lruTime < ws[victim].lruTime then i else victim, i + 1); }
  }

  lemma {:induction false} NewestFirst(ws: seq<Line>, victim: nat, i: nat)
    requires victim < i <= |ws|
    requires forall w :: 0 <= w < i ==> if w < victim then ws[victim].lruTime > ws[w].lruTime else ws[victim].lruTime >= ws[w].lruTime
    ensures var r := NewestFrom(ws, victim, i);
      forall w :: 0 <= w < |ws| ==> if w < r then ws[r].lruTime > ws[w].lruTime else ws[r].lruTime >= ws[w].lruTime
    decreases |ws| - i
  {
    if i < |ws| { NewestFirst(ws, if ws[i].lruTime > ws[victim].lruTime then i else victim, i + 1); }
  }

  /** LRU evicts the way used longest ago, MRU the one used last, of equals the first; random replacement
      the register modulo the ways. */
  lemma EvictExact(ws: Ways, lfsr: Lfsr8)
    ensures var r := Evict(Lru, ws, lfsr);
      forall w :: 0 <= w < |ws| ==> if w < r then ws[r].lruTime < ws[w].lruTime else ws[r].lruTime <= ws[w].lruTime
    ensures var r := Evict(Mru, ws, lfsr);
      forall w :: 0 <= w < |ws| ==> if w < r then ws[r].lruTime > ws[w].lruTime else ws[r].lruTime >= ws[w].lruTime
    ensures Evict(Lfsr, ws, lfsr) == lfsr % |ws|
  {
    OldestFirst(ws, 0, 1);
    NewestFirst(ws, 0, 1);
  }

  /** One access: a hit stamps the first way that holds the line; a miss fills the first free way, or the
      policy's victim when there is none, and only then does random replacement step its register. No other
      way changes, and the line is held afterwards. */
  lemma AccessExact(policy: Policy, ws: Ways, tag: int, now: nat, lfsr: Lfsr8) returns (v: nat)
    ensures v < |ws|
    ensures var o := SetAccess(policy, ws, tag, now, lfsr);
      && |o.ways| == |ws| && Holds(o.ways[v], tag) && o.ways[v].lruTime == now
      && (forall w :: 0 <= w < |ws| && w != v ==> o.ways[w] == ws[w])
      && (o.hit <==> exists w :: 0 <= w < |ws| && Holds(ws[w], tag))
      && (o.hit ==> Holds(ws[v], tag) && forall w :: 0 <= w < v ==> !Holds(ws[w], tag))
      && (!o.hit && !ws[v].valid ==> forall w :: 0 <= w < v ==> ws[w].valid)
      && (!o.hit && ws[v].valid ==> (forall w :: 0 <= w < |ws| ==> ws[w].valid) && v == Evict(policy, ws, lfsr))
      && o.lfsr == (if !o.hit && ws[v].valid && policy == Lfsr then NextLfsr(lfsr) else lfsr)
  {
    hide Evict, NextLfsr;
    FindFirst(ws, tag, 0);
    FreeFirst(ws, 0);
    var w, free := FindFrom(ws, tag, 0), FreeFrom(ws, 0);
    v := if w >= 0 then w else if free >= 0 then free else Evict(policy, ws, lfsr);
  }

  // ---------------------------------------------------------------- the shift register

  /** One step shifts up by one bit and brings in the exclusive or of bits 7, 5, 4 and 3. */
  lemma LfsrBits(x: Lfsr8)
    ensures var feedback := (x / 128) % 2 + (x / 32) % 2 + (x / 16) % 2 + (x / 8) % 2;
      NextLfsr(x) == 2 * (x % 128) + feedback % 2
  {
    Parity(x / 128, x / 32, x / 16, x / 8);
    LfsrSplit(x);
  }

  lemma Parity(a: nat, b: nat, c: nat, d: nat)
    ensures (a + b + c + d) % 2 == (a % 2 + b % 2 + c % 2 + d % 2) % 2
  {}

  /** The register never gets stuck at zero and no two states run together. */
  lemma LfsrNonzero(x: Lfsr8)
    ensures NextLfsr(x) == 0 <==> x == 0
  {
    if x == 128 { assert NextLfsr(128) == 1; }
  }

  lemma LfsrInjective(x: Lfsr8, y: Lfsr8)
    requires NextLfsr(x) == NextLfsr(y)
    ensures x == y
  {
    hide NextLfsr;
    LfsrSplit(x);
    LfsrSplit(y);
    Differ(x % 128);
    SameOrOther(x, y);
  }

  lemma SameOrOther(x: Lfsr8, y: Lfsr8)
    requires x % 128 == y % 128
    ensures x == y || (x == x % 128 && y == x % 128 + 128) || (y == x % 128 && x == x % 128 + 128)
  {
  }

  lemma LfsrSplit(x: Lfsr8)
    ensures NextLfsr(x) / 2 == x % 128
    ensures NextLfsr(x) % 2 == (x / 128 + x / 32 + x / 16 + x / 8) % 2
  {
    ShiftedUp(x, (x / 128 + x / 32 + x / 16 + x / 8) % 2);
  }

  lemma ShiftedUp(x: int, f: int)
    requires 0 <= x < 256 && 0 <= f <= 1
    ensures (2 * x + f) % 256 == 2 * (x % 128) + f
  {}

  /** Bit 7 decides between the two states with the same lower bits. */
  lemma Differ(low: int)
    requires 0 <= low < 128
    ensures NextLfsr(low) != NextLfsr(low + 128)
  {
    var a, b, c := low / 32, low / 16, low / 8;
    assert (low + 128) / 32 == a + 4 && (low + 128) / 16 == b + 8 && (low + 128) / 8 == c + 16;
    assert low / 128 == 0 && (low + 128) / 128 == 1;
    assert (1 + (a + 4) + (b + 8) + (c + 16)) % 2 != (0 + a + b + c) % 2;
  }

  // ---------------------------------------------------------------- whole caches

  /** The accesses of a trace that hit. */
  ghost function HitsOf(g: Geometry, policy: Policy, trace: seq<Word>, n: nat): set<nat>
    requires GeometryOk(g) && n <= |trace|
  {
    set k: nat | k < n && Hits(g, policy, trace[..k], trace[k])
  }

  /** The counters count: accesses the whole trace, hits the accesses in it that hit. */
  lemma {:induction false} CountersExact(g: Geometry, policy: Policy, trace: seq<Word>)
    requires GeometryOk(g)
    ensures After(g, policy, trace).accesses == |trace|
    ensures After(g, policy, trace).hits == |HitsOf(g, policy, trace, |trace|)|
    decreases |trace|
  {
    if trace == [] {
      assert HitsOf(g, policy, trace, 0) == {};
    } else {
      CountersExact(g, policy, trace[..|trace| - 1]);
      HitsGrow(g, policy, trace);
      CountStep(g, policy, trace);
    }
  }

  lemma CountStep(g: Geometry, policy: Policy, trace: seq<Word>)
    requires GeometryOk(g) && trace != []
    ensures var n := |trace| - 1; var was, now := After(g, policy, trace[..n]), After(g, policy, trace);
      now.accesses == was.accesses + 1 && now.hits == was.hits + if Hits(g, policy, trace[..n], trace[n]) then 1 else 0
  {
    hide SetAccess, Tag, SetIndex;
  }

  lemma HitsGrow(g: Geometry, policy: Policy, trace: seq<Word>)
    requires GeometryOk(g) && trace != []
    ensures var n := |trace| - 1;
      |HitsOf(g, policy, trace, n + 1)| ==
        |HitsOf(g, policy, trace[..n], n)| + if Hits(g, policy, trace[..n], trace[n]) then 1 else 0
  {
    hide Hits, GeometryOk;
    var n := |trace| - 1;
    var t := trace[..n];
    forall k: nat | k < n ensures t[..k] == trace[..k] && t[k] == trace[k] {}
    var was, now := HitsOf(g, policy, t, n), HitsOf(g, policy, trace, n + 1);
    assert n !in was;
    assert now == was + if Hits(g, policy, t, trace[n]) then {n} else {};
  }

  /** Under every policy, what was just accessed hits. */
  lemma RepeatHits(g: Geometry, policy: Policy, trace: seq<Word>, addr: Word, again: Word)
    requires GeometryOk(g) && LineOf(g, addr) == LineOf(g, again)
    ensures Hits(g, policy, trace + [addr], again)
  {
    hide LineOf, SetAccess, SetIndex, Tag;
    IndexAndTag(g, addr);
    IndexAndTag(g, again);
    IndexInRange(g, addr);
    var c := After(g, policy, trace);
    var t := trace + [addr];
    assert t[..|t| - 1] == trace;
    var idx := SetIndex(g, addr);
    var v := AccessExact(policy, c.sets[idx], Tag(g, addr), c.accesses + 1, c.lfsr);
    var d := After(g, policy, t);
    assert Holds(d.sets[idx][v], Tag(g, addr));
    var u := AccessExact(policy, d.sets[idx], Tag(g, addr), d.accesses + 1, d.lfsr);
  }
}
