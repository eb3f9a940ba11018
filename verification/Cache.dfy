/** The cache object: lines in a two-dimensional array, updated in place by access. */
module Caches {
  import opened Words
  import opened CacheModel
  import T = CacheTraces

  class CacheObject {
    const g: Geometry
    const lines: array2<Line>
    var policy: Policy
    var lfsr: Lfsr8
    var totalAccesses: nat
    var totalHits: nat

    ghost predicate Valid() {
      GeometryOk(g) && lines.Length0 == g.sets && lines.Length1 == g.ways
    }

    ghost function Row(i: int): (r: Ways)
      requires Valid() && 0 <= i < g.sets
      reads lines
      ensures |r| == g.ways && forall w :: 0 <= w < g.ways ==> r[w] == lines[i, w]
    {
      seq(g.ways, w requires 0 <= w < g.ways reads lines => lines[i, w])
    }

    ghost function View(): (c: T.Cache)
      requires Valid()
      reads this, lines
      ensures |c.sets| == g.sets && forall i :: 0 <= i < g.sets ==> c.sets[i] == Row(i)
    {
      T.Cache(seq(g.sets, i requires 0 <= i < g.sets reads lines => Row(i)), totalAccesses, totalHits, lfsr)
    }

    constructor (geometry: Geometry)
      requires GeometryOk(geometry)
      ensures Valid() && fresh(lines) && g == geometry && policy == Lfsr
      ensures View() == T.EmptyCache(g)
    {
      g := geometry;
      lines := new Line[geometry.sets, geometry.ways]((_, _) => EMPTY_LINE);
      policy, lfsr, totalAccesses, totalHits := Lfsr, 0xAC, 0, 0;
      new;
      forall i | 0 <= i < g.sets ensures Row(i) == T.EmptyCache(g).sets[i] {}
    }

    method SetPolicy(p: Policy)
      requires Valid()
      modifies this`policy
      ensures Valid() && policy == p
    {
      policy := p;
    }

    method FindTag(idx: nat, tag: int) returns (w: int)
      requires Valid() && idx < g.sets
      ensures w == FindFrom(Row(idx), tag, 0)
    {
      w := 0;
      while w < g.ways
        invariant 0 <= w <= g.ways && FindFrom(Row(idx), tag, 0) == FindFrom(Row(idx), tag, w)
      {
        if lines[idx, w].valid && lines[idx, w].tag == tag { return; }
        w := w + 1;
      }
      w := -1;
    }

    method FindFree(idx: nat) returns (w: int)
      requires Valid() && idx < g.sets
      ensures w == FreeFrom(Row(idx), 0)
    {
      w := 0;
      while w < g.ways
        invariant 0 <= w <= g.ways && FreeFrom(Row(idx), 0) == FreeFrom(Row(idx), w)
      {
        if !lines[idx, w].valid { return; }
        w := w + 1;
      }
      w := -1;
    }

    /** The way to evict from a full set, by policy. */
    method ChooseVictim(idx: nat) returns (v: nat)
      requires Valid() && idx < g.sets
      ensures v == Evict(policy, Row(idx), lfsr)
    {
      v := 0;
      match policy
      case Lru =>
        for w := 1 to g.ways
          invariant v < g.ways && OldestFrom(Row(idx), 0, 1) == OldestFrom(Row(idx), v, w)
        {
          if lines[idx, w].lruTime < lines[idx, v].lruTime { v := w; }
        }
      case Mru =>
        for w := 1 to g.ways
          invariant v < g.ways && NewestFrom(Row(idx), 0, 1) == NewestFrom(Row(idx), v, w)
        {
          if lines[idx, w].lruTime > lines[idx, v].lruTime { v := w; }
        }
      case Lfsr => v := lfsr % g.ways;
    }

    /** Writing one line changes one way of one set. */
    method SetLine(idx: nat, w: nat, line: Line)
      requires Valid() && idx < g.sets && w < g.ways
      modifies lines
      ensures Valid() && View() == old(View()).(sets := old(View()).sets[idx := old(Row(idx))[w := line]])
    {
      lines[idx, w] := line;
      forall i | 0 <= i < g.sets ensures Row(i) == if i == idx then old(Row(idx))[w := line] else old(Row(i)) {}
    }

    /** Look one set up and refill it on a miss, at the time totalAccesses shows. */
    method AccessSet(idx: nat, tag: int) returns (hit: bool)
      requires Valid() && idx < g.sets
      modifies this`lfsr, lines
      ensures Valid()
      ensures var o := SetAccess(policy, old(Row(idx)), tag, totalAccesses, old(lfsr));
        hit == o.hit && View() == old(View()).(sets := old(View()).sets[idx := o.ways], lfsr := o.lfsr)
    {
      hide FindFrom, FreeFrom, Evict, NextLfsr;
      var w := FindTag(idx, tag);
      if w >= 0 {
        SetLine(idx, w, lines[idx, w].(lruTime := totalAccesses));
        return true;
      }
      var victim := FindFree(idx);
      if victim < 0 {
        victim := ChooseVictim(idx);
        if policy == Lfsr { lfsr := NextLfsr(lfsr); }
      }
      SetLine(idx, victim, Line(true, tag, totalAccesses));
      return false;
    }

    method Access(addr: Word) returns (hit: bool)
      requires Valid()
      modifies this`lfsr, this`totalAccesses, this`totalHits, lines
      ensures Valid() && T.Fits(g, old(View()))
      ensures (View(), hit) == T.Access(g, policy, old(View()), addr)
    {
      hide SetAccess;
      T.IndexInRange(g, addr);
      totalAccesses := totalAccesses + 1;
      assert View().sets == old(View()).sets;
      hit := AccessSet(SetIndex(g, addr), Tag(g, addr));
      label Filled:
      if hit { totalHits := totalHits + 1; }
      assert View().sets == old@Filled(View()).sets;
    }

    method Flush()
      requires Valid()
      modifies lines
      ensures Valid()
      ensures forall i, w :: 0 <= i < g.sets && 0 <= w < g.ways ==> lines[i, w] == old(lines[i, w]).(valid := false)
    {
      for i := 0 to g.sets
        invariant forall j, w :: 0 <= j < g.sets && 0 <= w < g.ways ==>
          lines[j, w] == if j < i then old(lines[j, w]).(valid := false) else old(lines[j, w])
      {
        for w := 0 to g.ways
          invariant forall j, v :: 0 <= j < g.sets && 0 <= v < g.ways ==>
            lines[j, v] == if j < i || (j == i && v < w) then old(lines[j, v]).(valid := false) else old(lines[j, v])
        {
          lines[i, w] := lines[i, w].(valid := false);
        }
      }
    }
  }
}
