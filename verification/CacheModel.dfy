/** The set-associative cache of inc/Cache.h and tools/cache_sweep/RuntimeCache.h as functions on
    the value of its fields, and the theorem that LRU mode is the recency stack. */
module CacheModel {
  import opened Words
  import opened Recency

  datatype Policy = Lfsr | Lru | Mru

  datatype Line = Line(valid: bool, tag: int, lruTime: nat)

  const EMPTY_LINE := Line(false, 0, 0)

  type Ways = ws: seq<Line> | |ws| > 0 witness [EMPTY_LINE]

  // ---------------------------------------------------------------- geometry

  predicate IsPow2(n: nat): (r: bool)
    ensures r ==> n > 0
  {
    n == 1 || (n > 1 && n % 2 == 0 && IsPow2(n / 2))
  }

  /** log2c: the number of halvings down to 1. */
  function Log2(n: nat): nat { if n <= 1 then 0 else 1 + Log2(n / 2) }

  lemma {:induction false} Log2Exact(n: nat)
    requires IsPow2(n)
    ensures Pow2(Log2(n)) == n
  {
    if n > 1 { Log2Exact(n / 2); }
  }

  datatype Geometry = Geometry(sets: nat, ways: nat, lineBytes: nat)

  predicate GeometryOk(g: Geometry) { IsPow2(g.sets) && IsPow2(g.ways) && IsPow2(g.lineBytes) }

  /** (addr >> OFFSET_BITS) & (SETS - 1); the mask of a power of two is the remainder. */
  function SetIndex(g: Geometry, addr: Word): nat
    requires GeometryOk(g)
  {
    (addr / Pow2(Log2(g.lineBytes))) % g.sets
  }

  /** addr >> TAG_SHIFT. */
  function Tag(g: Geometry, addr: Word): nat { addr / Pow2(Log2(g.lineBytes) + Log2(g.sets)) }

  /** The memory line an address lies in. */
  function LineOf(g: Geometry, addr: Word): nat
    requires g.lineBytes > 0
  {
    DivNonneg(addr, g.lineBytes);
    addr / g.lineBytes
  }

  lemma DivNonneg(x: nat, d: nat)
    requires d > 0
    ensures x / d >= 0
  {
    var q, r := x / d, x % d;
    assert x == q * d + r;
    if q < 0 { MulMono(q, -1, d); }
  }

  lemma DivMul(x: nat, a: nat, b: nat)
    requires a > 0 && b > 0
    ensures a * b > 0 && x / (a * b) == (x / a) / b
  {
    var q, r := x / a, x % a;
    var q2, r2 := q / b, q % b;
    assert x == q * a + r && q == q2 * b + r2;
    assert q * a == q2 * (a * b) + r2 * a by { MulAdd(q2 * b, r2, a); assert (q2 * b) * a == q2 * (a * b); }
    MulMono(r2, b - 1, a);
    assert (b - 1) * a == a * b - a;
    assert r2 * a >= 0 by { MulMono(0, r2, a); }
    assert a * b > 0 by { MulMono(1, b, a); assert 1 * a == a; }
    DivModUnique(x, a * b, q2, r2 * a + r);
  }

  /** Set index and tag together are the line number. */
  lemma IndexAndTag(g: Geometry, addr: Word)
    requires GeometryOk(g)
    ensures SetIndex(g, addr) == LineOf(g, addr) % g.sets && Tag(g, addr) == LineOf(g, addr) / g.sets
  {
    Log2Exact(g.lineBytes);
    Log2Exact(g.sets);
    Pow2Sum(Log2(g.lineBytes), Log2(g.sets));
    DivMul(addr, g.lineBytes, g.sets);
  }

  // ---------------------------------------------------------------- one set

  function FindFrom(ws: seq<Line>, tag: int, i: nat): (r: int)
    requires i <= |ws|
    ensures r == -1 || (i <= r < |ws| && ws[r].valid && ws[r].tag == tag)
    ensures r == -1 ==> forall w :: i <= w < |ws| ==> !(ws[w].valid && ws[w].tag == tag)
    decreases |ws| - i
  {
    if i == |ws| then -1 else if ws[i].valid && ws[i].tag == tag then i else FindFrom(ws, tag, i + 1)
  }

  function FreeFrom(ws: seq<Line>, i: nat): (r: int)
    requires i <= |ws|
    ensures r == -1 || (i <= r < |ws| && !ws[r].valid)
    ensures r == -1 ==> forall w :: i <= w < |ws| ==> ws[w].valid
    decreases |ws| - i
  {
    if i == |ws| then -1 else if !ws[i].valid then i else FreeFrom(ws, i + 1)
  }

  function OldestFrom(ws: seq<Line>, victim: nat, i: nat): (r: nat)
    requires victim < |ws| && i <= |ws|
    ensures r < |ws| && ws[r].lruTime <= ws[victim].lruTime
    ensures forall w :: i <= w < |ws| ==> ws[r].lruTime <= ws[w].lruTime
    decreases |ws| - i
  {
    if i == |ws| then victim else OldestFrom(ws, if ws[i].lruTime < ws[victim].lruTime then i else victim, i + 1)
  }

  function NewestFrom(ws: seq<Line>, victim: nat, i: nat): (r: nat)
    requires victim < |ws| && i <= |ws|
    ensures r < |ws| && ws[r].lruTime >= ws[victim].lruTime
    ensures forall w :: i <= w < |ws| ==> ws[r].lruTime >= ws[w].lruTime
    decreases |ws| - i
  {
    if i == |ws| then victim else NewestFrom(ws, if ws[i].lruTime > ws[victim].lruTime then i else victim, i + 1)
  }

  type Lfsr8 = x: int | 0 <= x < 256

  /** 8-bit Fibonacci LFSR, feedback from bits 7, 5, 4 and 3. */
  function NextLfsr(x: Lfsr8): Lfsr8 {
    (2 * x + (x / 128 + x / 32 + x / 16 + x / 8) % 2) % 256
  }

  /** The way to evict when all are valid. */
  function Evict(policy: Policy, ws: Ways, lfsr: Lfsr8): (r: nat)
    ensures r < |ws|
  {
    match policy
    case Lru => OldestFrom(ws, 0, 1)
    case Mru => NewestFrom(ws, 0, 1)
    case Lfsr => lfsr % |ws|
  }

  datatype Outcome = Outcome(ways: Ways, hit: bool, lfsr: Lfsr8)

  /** An access to one set at time now. */
  function SetAccess(policy: Policy, ws: Ways, tag: int, now: nat, lfsr: Lfsr8): (o: Outcome)
    ensures |o.ways| == |ws|
  {
    var w := FindFrom(ws, tag, 0);
    if w >= 0 then Outcome(ws[w := ws[w].(lruTime := now)], true, lfsr)
    else
      var free := FreeFrom(ws, 0);
      var victim := if free >= 0 then free else Evict(policy, ws, lfsr);
      Outcome(ws[victim := Line(true, tag, now)], false,
              if free < 0 && policy == Lfsr then NextLfsr(lfsr) else lfsr)
  }

  // ---------------------------------------------------------------- LRU tracks the stack

  /** Way slot[i] holds the i-th line of the stack, time stamps fall along the stack, and no other
      way is valid. */
  ghost predicate Tracks(ws: seq<Line>, stack: seq<int>, slot: seq<int>, sets: nat, idx: nat, now: nat)
    requires sets > 0
  {
    |slot| == Min(|ws|, |stack|) && Recency.Distinct(stack) &&
    (forall i :: 0 <= i < |stack| ==> stack[i] >= 0 && stack[i] % sets == idx) &&
    (forall i :: 0 <= i < |slot| ==> Held(ws, stack, slot, sets, i, now)) &&
    (forall i, j :: 0 <= i < j < |slot| ==> Younger(ws, slot, i, j)) &&
    forall w :: 0 <= w < |ws| && ws[w].valid ==> w in slot
  }

  ghost predicate Younger(ws: seq<Line>, slot: seq<int>, i: int, j: int)
    requires 0 <= i < |slot| && 0 <= j < |slot|
  {
    0 <= slot[i] < |ws| && 0 <= slot[j] < |ws| && slot[i] != slot[j] && ws[slot[i]].lruTime > ws[slot[j]].lruTime
  }

  ghost predicate Held(ws: seq<Line>, stack: seq<int>, slot: seq<int>, sets: nat, i: int, now: nat)
    requires sets > 0 && 0 <= i < |slot| <= |stack|
  {
    0 <= slot[i] < |ws| && ws[slot[i]].valid && ws[slot[i]].tag == stack[i] / sets && ws[slot[i]].lruTime <= now
  }

  /** Lines of one set with equal tags are the same line. */
  lemma SameLine(a: nat, b: nat, sets: nat)
    requires sets > 0 && a % sets == b % sets && a / sets == b / sets
    ensures a == b
  {
    assert a == (a / sets) * sets + a % sets;
    assert b == (b / sets) * sets + b % sets;
  }

  ghost function Upto(n: nat): (s: set<int>)
    ensures |s| == n && forall v :: v in s <==> 0 <= v < n
  {
    if n == 0 then {} else Upto(n - 1) + {n - 1}
  }

  /** Distinct numbers below n: never more than n, fewer when one is missing, exactly n otherwise. */
  lemma Pigeonhole(q: seq<int>, n: nat)
    requires Recency.Distinct(q) && forall i :: 0 <= i < |q| ==> 0 <= q[i] < n
    ensures |q| <= n
    ensures (exists v :: 0 <= v < n && v !in q) ==> |q| < n
    ensures (forall v :: 0 <= v < n ==> v in q) ==> |q| == n
  {
    DistinctSize(q);
    SubsetSize(Elems(q), Upto(n));
    if v :| 0 <= v < n && v !in q { SubsetSize(Elems(q), Upto(n) - {v}); }
    if forall v :: 0 <= v < n ==> v in q { assert Elems(q) == Upto(n); }
  }

  lemma SubsetSize(a: set<int>, b: set<int>)
    requires a <= b
    ensures |a| <= |b|
  {
    assert b == a + (b - a);
    assert |a + (b - a)| == |a| + |b - a|;
  }

  lemma SlotsDistinct(ws: seq<Line>, stack: seq<int>, slot: seq<int>, sets: nat, idx: nat, now: nat)
    requires sets > 0 && Tracks(ws, stack, slot, sets, idx, now)
    ensures Recency.Distinct(slot) && forall i :: 0 <= i < |slot| ==> 0 <= slot[i] < |ws|
  {
    forall i | 0 <= i < |slot| ensures 0 <= slot[i] < |ws| { assert Held(ws, stack, slot, sets, i, now); }
    forall i, j | 0 <= i < j < |slot| ensures slot[i] != slot[j] { assert Younger(ws, slot, i, j); }
  }

  /** A line is found iff it is among the top ways of the stack, and then in its own way. */
  lemma FoundIff(ws: seq<Line>, stack: seq<int>, slot: seq<int>, sets: nat, idx: nat, now: nat, line: nat) returns (i: int)
    requires sets > 0 && line % sets == idx && Tracks(ws, stack, slot, sets, idx, now)
    ensures FindFrom(ws, line / sets, 0) < 0 ==> i == -1 && line !in stack[..|slot|]
    ensures FindFrom(ws, line / sets, 0) >= 0 ==>
      0 <= i < |slot| && slot[i] == FindFrom(ws, line / sets, 0) && stack[i] == line
  {
    var w := FindFrom(ws, line / sets, 0);
    i := -1;
    if w >= 0 {
      assert w in slot;
      i :| 0 <= i < |slot| && slot[i] == w;
      assert Held(ws, stack, slot, sets, i, now);
      SameLine(stack[i], line, sets);
    } else {
      forall k | 0 <= k < |slot| ensures stack[k] != line { assert Held(ws, stack, slot, sets, k, now); }
    }
  }

  /** Element i moves to the front; the others keep their order. */
  function ToFront(q: seq<int>, i: nat): (r: seq<int>)
    requires i < |q|
    ensures |r| == |q| && forall k :: 0 <= k < |q| ==> r[k] == q[From(i, k)]
  {
    [q[i]] + q[..i] + q[i + 1..]
  }

  /** Where the k-th element of ToFront comes from. */
  function From(i: nat, k: int): int { if k == 0 then i else if k <= i then k - 1 else k }

  lemma {:induction false} IndexUnique(q: seq<int>, i: nat)
    requires Recency.Distinct(q) && i < |q|
    ensures q[i] in q && Index(q, q[i]) == i
  {
    if i > 0 {
      var t := q[1..];
      assert Recency.Distinct(t) by { assert forall k :: 0 <= k < |t| ==> t[k] == q[k + 1]; }
      assert t[i - 1] == q[i];
      IndexUnique(t, i - 1);
    }
  }

  lemma TouchIsToFront(stack: seq<int>, i: nat)
    requires Recency.Distinct(stack) && i < |stack|
    ensures Touch(stack, stack[i]) == ToFront(stack, i)
  {
    RemoveDistinct(stack, stack[i]);
    IndexUnique(stack, i);
  }

  lemma HitHeld(ws: seq<Line>, stack: seq<int>, slot: seq<int>, sets: nat, idx: nat, now: nat, t: nat, i: nat)
    requires sets > 0 && Tracks(ws, stack, slot, sets, idx, now) && i < |slot| && t == now + 1
    ensures 0 <= slot[i] < |ws|
    ensures var u, st, sl := ws[slot[i] := ws[slot[i]].(lruTime := t)], ToFront(stack, i), ToFront(slot, i);
      forall k :: 0 <= k < |slot| ==> Held(u, st, sl, sets, k, t)
  {
    assert Held(ws, stack, slot, sets, i, now);
    var u, st, sl := ws[slot[i] := ws[slot[i]].(lruTime := t)], ToFront(stack, i), ToFront(slot, i);
    forall k | 0 <= k < |slot| ensures Held(u, st, sl, sets, k, t) {
      assert Held(ws, stack, slot, sets, From(i, k), now);
    }
  }

  lemma HitYounger(ws: seq<Line>, stack: seq<int>, slot: seq<int>, sets: nat, idx: nat, now: nat, i: nat)
    requires sets > 0 && Tracks(ws, stack, slot, sets, idx, now) && i < |slot| && 0 <= slot[i] < |ws|
    ensures var u, sl := ws[slot[i] := ws[slot[i]].(lruTime := now + 1)], ToFront(slot, i);
      forall a, b :: 0 <= a < b < |slot| ==> Younger(u, sl, a, b)
  {
    var u, sl := ws[slot[i] := ws[slot[i]].(lruTime := now + 1)], ToFront(slot, i);
    forall a, b | 0 <= a < b < |slot| ensures Younger(u, sl, a, b) {
      var a0, b0 := From(i, a), From(i, b);
      assert Held(ws, stack, slot, sets, b0, now);
      if b0 < i { assert Younger(ws, slot, b0, i); } else { assert Younger(ws, slot, i, b0); }
      if a > 0 {
        assert Younger(ws, slot, a0, b0);
        if a0 < i { assert Younger(ws, slot, a0, i); } else { assert Younger(ws, slot, i, a0); }
      }
    }
  }

  lemma HitValid(ws: seq<Line>, stack: seq<int>, slot: seq<int>, sets: nat, idx: nat, now: nat, i: nat)
    requires sets > 0 && Tracks(ws, stack, slot, sets, idx, now) && i < |slot| && 0 <= slot[i] < |ws|
    ensures var u := ws[slot[i] := ws[slot[i]].(lruTime := now + 1)];
      forall v :: 0 <= v < |u| && u[v].valid ==> v in ToFront(slot, i)
  {
    var u, sl := ws[slot[i] := ws[slot[i]].(lruTime := now + 1)], ToFront(slot, i);
    assert Held(ws, stack, slot, sets, i, now);
    forall v | 0 <= v < |u| && u[v].valid ensures v in sl {
      assert v in slot;
      var k :| 0 <= k < |slot| && slot[k] == v;
      assert sl[if k < i then k + 1 else if k == i then 0 else k] == v;
    }
  }

  /** A hit moves its way to the front. */
  lemma HitTracks(ws: seq<Line>, stack: seq<int>, slot: seq<int>, sets: nat, idx: nat, now: nat, i: nat)
    requires sets > 0 && Tracks(ws, stack, slot, sets, idx, now) && i < |slot|
    ensures 0 <= slot[i] < |ws|
    ensures Tracks(ws[slot[i] := ws[slot[i]].(lruTime := now + 1)], Touch(stack, stack[i]), ToFront(slot, i), sets, idx, now + 1)
  {
    HitHeld(ws, stack, slot, sets, idx, now, now + 1, i);
    HitYounger(ws, stack, slot, sets, idx, now, i);
    HitValid(ws, stack, slot, sets, idx, now, i);
    TouchIsToFront(stack, i);
    TouchDistinct(stack, stack[i]);
    hide Held, Younger, ToFront, Touch;
    StackMembers(stack, ToFront(stack, i), sets, idx, stack[i]);
  }

  /** Membership facts about a stack carry over to any sequence of its elements and one more. */
  lemma StackMembers(stack: seq<int>, q: seq<int>, sets: nat, idx: nat, line: nat)
    requires sets > 0 && line % sets == idx && forall i :: 0 <= i < |stack| ==> stack[i] >= 0 && stack[i] % sets == idx
    requires forall y :: y in q ==> y == line || y in stack
    ensures forall i :: 0 <= i < |q| ==> q[i] >= 0 && q[i] % sets == idx
  {
    forall i | 0 <= i < |q| ensures q[i] >= 0 && q[i] % sets == idx { assert q[i] in q; }
  }

  lemma TouchDistinct(q: seq<int>, x: int)
    requires Recency.Distinct(q)
    ensures Recency.Distinct(Touch(q, x))
    ensures forall y :: y in Touch(q, x) ==> y == x || y in q
  {
    RemoveDistinct(q, x);
  }

  /** The ways kept when way v is refilled: all of them, or all but the last. */
  function Kept(ws: seq<Line>, slot: seq<int>, v: nat): seq<int>
    requires v < |ws| && (ws[v].valid ==> |slot| > 0)
  {
    if ws[v].valid then slot[..|slot| - 1] else slot
  }

  /** Way v was free, or held the last tracked line of a full set. */
  ghost predicate Refill(ws: seq<Line>, slot: seq<int>, v: nat) {
    v < |ws| && (ws[v].valid ==> |slot| == |ws| && slot[|slot| - 1] == v) && (!ws[v].valid ==> v !in slot)
  }

  lemma MissHeld(ws: seq<Line>, stack: seq<int>, slot: seq<int>, sets: nat, idx: nat, now: nat, t: nat, line: nat, v: nat)
    requires sets > 0 && Tracks(ws, stack, slot, sets, idx, now) && Refill(ws, slot, v) && t == now + 1
    requires |slot| <= |stack| && line !in stack[..|slot|]
    ensures var u, st, sl := ws[v := Line(true, line / sets, t)], Touch(stack, line), [v] + Kept(ws, slot, v);
      |sl| <= |st| && forall k :: 0 <= k < |sl| ==> Held(u, st, sl, sets, k, t)
  {
    TouchTop(stack, line, |slot|);
    var u, st, sl := ws[v := Line(true, line / sets, t)], Touch(stack, line), [v] + Kept(ws, slot, v);
    assert st[0] == line;
    forall k | 0 <= k < |sl| ensures Held(u, st, sl, sets, k, t) {
      if k > 0 {
        assert Held(ws, stack, slot, sets, k - 1, now);
        assert sl[k] == slot[k - 1] && st[k] == stack[k - 1];
        if ws[v].valid { assert Younger(ws, slot, k - 1, |slot| - 1); } else { assert slot[k - 1] in slot; }
      }
    }
  }

  lemma MissYounger(ws: seq<Line>, stack: seq<int>, slot: seq<int>, sets: nat, idx: nat, now: nat, line: nat, v: nat)
    requires sets > 0 && Tracks(ws, stack, slot, sets, idx, now) && Refill(ws, slot, v)
    ensures var u, sl := ws[v := Line(true, line / sets, now + 1)], [v] + Kept(ws, slot, v);
      forall a, b :: 0 <= a < b < |sl| ==> Younger(u, sl, a, b)
  {
    var u, sl := ws[v := Line(true, line / sets, now + 1)], [v] + Kept(ws, slot, v);
    forall a, b | 0 <= a < b < |sl| ensures Younger(u, sl, a, b) {
      assert Held(ws, stack, slot, sets, b - 1, now);
      assert sl[b] == slot[b - 1];
      if ws[v].valid { assert Younger(ws, slot, b - 1, |slot| - 1); } else { assert slot[b - 1] in slot; }
      if a > 0 {
        assert sl[a] == slot[a - 1];
        assert Younger(ws, slot, a - 1, b - 1);
        if ws[v].valid { assert Younger(ws, slot, a - 1, |slot| - 1); } else { assert slot[a - 1] in slot; }
      }
    }
  }

  lemma MissValid(ws: seq<Line>, stack: seq<int>, slot: seq<int>, sets: nat, idx: nat, now: nat, line: nat, v: nat)
    requires sets > 0 && Tracks(ws, stack, slot, sets, idx, now) && Refill(ws, slot, v)
    ensures var u, sl := ws[v := Line(true, line / sets, now + 1)], [v] + Kept(ws, slot, v);
      forall w :: 0 <= w < |u| && u[w].valid ==> w in sl
  {
    var u, sl := ws[v := Line(true, line / sets, now + 1)], [v] + Kept(ws, slot, v);
    forall w | 0 <= w < |u| && u[w].valid ensures w in sl {
      if w == v {
        assert sl[0] == v;
      } else {
        assert w in slot;
        var k :| 0 <= k < |slot| && slot[k] == w;
        assert sl[k + 1] == w;
      }
    }
  }

  /** A miss puts the line in way v at the front; v was free, or held the last line of a full set. */
  lemma MissTracks(ws: seq<Line>, stack: seq<int>, slot: seq<int>, sets: nat, idx: nat, now: nat, line: nat, v: nat)
    requires sets > 0 && line % sets == idx && Tracks(ws, stack, slot, sets, idx, now) && Refill(ws, slot, v)
    requires |slot| <= |stack| && line !in stack[..|slot|]
    requires !ws[v].valid ==> |slot| == |stack| < |ws|
    ensures Tracks(ws[v := Line(true, line / sets, now + 1)], Touch(stack, line), [v] + Kept(ws, slot, v), sets, idx, now + 1)
  {
    MissHeld(ws, stack, slot, sets, idx, now, now + 1, line, v);
    MissYounger(ws, stack, slot, sets, idx, now, line, v);
    MissValid(ws, stack, slot, sets, idx, now, line, v);
    TouchDistinct(stack, line);
    TouchTop(stack, line, |slot|);
    assert ws[v].valid ==> |Kept(ws, slot, v)| == |ws| - 1;
    if !ws[v].valid { assert stack[..|slot|] == stack; }
    hide Held, Younger, Touch;
    StackMembers(stack, Touch(stack, line), sets, idx, line);
  }

  lemma FreeNotSlot(ws: seq<Line>, stack: seq<int>, slot: seq<int>, sets: nat, idx: nat, now: nat, v: nat)
    requires sets > 0 && Tracks(ws, stack, slot, sets, idx, now) && v < |ws| && !ws[v].valid
    ensures v !in slot && |slot| == |stack| < |ws|
  {
    SlotsDistinct(ws, stack, slot, sets, idx, now);
    forall k | 0 <= k < |slot| ensures slot[k] != v { assert Held(ws, stack, slot, sets, k, now); }
    Pigeonhole(slot, |ws|);
  }

  /** Touching a line not among the first n leaves those n right below it. */
  lemma {:induction false} TouchTop(q: seq<int>, x: int, n: nat)
    requires n <= |q| && x !in q[..n]
    ensures n <= |Remove(q, x)| && Remove(q, x)[..n] == q[..n]
    ensures |Touch(q, x)| == 1 + |Remove(q, x)|
    ensures forall k :: 0 <= k < n ==> Touch(q, x)[k + 1] == q[k]
    ensures x !in q ==> Remove(q, x) == q
  {
    if n > 0 {
      assert q[..n][0] == q[0];
      assert q[1..][..n - 1] == q[..n][1..];
      TouchTop(q[1..], x, n - 1);
      assert Remove(q, x) == [q[0]] + Remove(q[1..], x);
    } else if q != [] && x !in q {
      RemoveAbsent(q, x);
    }
    assert forall k :: 0 <= k < n ==> Touch(q, x)[k + 1] == Remove(q, x)[k] == Remove(q, x)[..n][k];
  }

  lemma SlotsFull(ws: Ways, stack: seq<int>, slot: seq<int>, sets: nat, idx: nat, now: nat)
    requires sets > 0 && Tracks(ws, stack, slot, sets, idx, now) && FreeFrom(ws, 0) < 0
    ensures |slot| == |ws|
  {
    SlotsDistinct(ws, stack, slot, sets, idx, now);
    Pigeonhole(slot, |ws|);
  }

  /** With every way valid the oldest way is the one at the end of the tracked stack. */
  lemma OldestIsLast(ws: Ways, stack: seq<int>, slot: seq<int>, sets: nat, idx: nat, now: nat)
    requires sets > 0 && Tracks(ws, stack, slot, sets, idx, now) && FreeFrom(ws, 0) < 0
    ensures |slot| == |ws| && OldestFrom(ws, 0, 1) == slot[|slot| - 1]
  {
    SlotsFull(ws, stack, slot, sets, idx, now);
    var n := |slot| - 1;
    var last := slot[n];
    assert Held(ws, stack, slot, sets, n, now);
    forall w | 0 <= w < |ws| && w != last ensures ws[last].lruTime < ws[w].lruTime {
      assert w in slot;
      var k :| 0 <= k < |slot| && slot[k] == w;
      assert Younger(ws, slot, k, n);
    }
  }

  /** One access in LRU mode: a hit iff the line is among the top ways of the stack, and the set
      goes on tracking the stack. */
  lemma AccessTracks(ws: Ways, stack: seq<int>, slot: seq<int>, sets: nat, idx: nat, now: nat, line: nat, lfsr: Lfsr8)
    returns (slot': seq<int>)
    requires sets > 0 && line % sets == idx && Tracks(ws, stack, slot, sets, idx, now)
    ensures var o := SetAccess(Lru, ws, line / sets, now + 1, lfsr);
      (o.hit <==> line in stack[..Min(|ws|, |stack|)]) &&
      Tracks(o.ways, Touch(stack, line), slot', sets, idx, now + 1)
  {
    hide Tracks, Touch, ToFront, NewestFrom, NextLfsr;
    var i := FoundIff(ws, stack, slot, sets, idx, now, line);
    SlotCount(ws, stack, slot, sets, idx, now);
    if i >= 0 {
      HitTracks(ws, stack, slot, sets, idx, now, i);
      assert stack[..|slot|][i] == line;
      assert slot[i] == FindFrom(ws, line / sets, 0) && stack[i] == line;
      slot' := ToFront(slot, i);
    } else {
      var free := FreeFrom(ws, 0);
      if free >= 0 {
        FreeNotSlot(ws, stack, slot, sets, idx, now, free);
        MissTracks(ws, stack, slot, sets, idx, now, line, free);
        slot' := [free] + Kept(ws, slot, free);
      } else {
        OldestIsLast(ws, stack, slot, sets, idx, now);
        MissTracks(ws, stack, slot, sets, idx, now, line, slot[|slot| - 1]);
        slot' := [slot[|slot| - 1]] + Kept(ws, slot, slot[|slot| - 1]);
      }
    }
  }

  lemma SlotCount(ws: seq<Line>, stack: seq<int>, slot: seq<int>, sets: nat, idx: nat, now: nat)
    requires sets > 0 && Tracks(ws, stack, slot, sets, idx, now)
    ensures |slot| == Min(|ws|, |stack|)
  {}
}
