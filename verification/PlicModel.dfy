/** The platform interrupt controller (inc/PLIC.h) on values: 32 sources, of which 0 is never used.
    The 32-bit registers are the sets of their bit numbers. */
module PlicModel {

  const SOURCES := 32

  datatype Plic = Plic(priorities: seq<nat>, pending: set<nat>, level: set<nat>, enabled: set<nat>,
                       threshold: nat, irq: bool)

  ghost predicate Valid(p: Plic) { |p.priorities| == SOURCES }

  predicate Claimable(p: Plic, i: nat)
    requires Valid(p)
  {
    1 <= i < SOURCES && i in p.pending && i in p.enabled && p.priorities[i] > p.threshold
  }

  function ClaimableSet(p: Plic): (c: set<nat>)
    requires Valid(p)
    ensures forall i :: i in c ==> i < SOURCES
  {
    set i: nat | 1 <= i < SOURCES && Claimable(p, i)
  }

  /** i is served before j: higher priority, or equal priority and smaller id. */
  predicate Outranks(p: Plic, i: nat, j: nat)
    requires Valid(p) && i < SOURCES && j < SOURCES
  {
    p.priorities[i] > p.priorities[j] || (p.priorities[i] == p.priorities[j] && i < j)
  }

  /** The scan's running choice among the sources below n. */
  function BestBelow(p: Plic, n: nat): nat
    requires Valid(p) && 1 <= n <= SOURCES
  {
    if n == 1 then 0
    else
      var b, i := BestBelow(p, n - 1), n - 1;
      if i in p.pending && i in p.enabled && p.priorities[i] > (if b < SOURCES && b > 0 then p.priorities[b] else 0)
         && p.priorities[i] > p.threshold
      then i else b
  }

  function Best(p: Plic): nat
    requires Valid(p)
  {
    BestBelow(p, SOURCES)
  }

  ghost predicate Leads(p: Plic, b: nat, n: nat)
    requires Valid(p) && n <= SOURCES
  {
    if b == 0 then forall j: nat :: 1 <= j < n ==> !Claimable(p, j)
    else b < n && Claimable(p, b) && forall j: nat :: 1 <= j < n && Claimable(p, j) && j != b ==> Outranks(p, b, j)
  }

  /** The scan finds the claimable source that outranks every other, and 0 only when there is none. */
  lemma {:induction false} BestLeads(p: Plic, n: nat)
    requires Valid(p) && 1 <= n <= SOURCES
    ensures Leads(p, BestBelow(p, n), n)
  {
    if n > 1 {
      BestLeads(p, n - 1);
    }
  }

  // ---------------------------------------------------------------- operations

  /** The output line follows from the registers. */
  function Update(p: Plic): Plic
    requires Valid(p)
  {
    p.(irq := ClaimableSet(p) != {})
  }

  function Raise(p: Plic, id: nat): Plic
    requires Valid(p)
  {
    if 0 < id < SOURCES then Update(p.(pending := p.pending + {id})) else p
  }

  function SetLevel(p: Plic, id: nat, active: bool): Plic
    requires Valid(p)
  {
    if !(0 < id < SOURCES) then p
    else if active then Update(p.(level := p.level + {id}, pending := p.pending + {id}))
    else Update(p.(level := p.level - {id}, pending := p.pending - {id}))
  }

  function Claim(p: Plic): Plic
    requires Valid(p)
  {
    Update(if Best(p) == 0 then p else p.(pending := p.pending - {Best(p)}))
  }

  /** Completion of id. A shift by 32 or more is undefined in C++: the mask it produces is the
      arbitrary set stray. */
  function Complete(p: Plic, id: nat, stray: set<nat>): Plic
    requires Valid(p)
  {
    Update(p.(pending := if id >= SOURCES then p.pending - stray
                         else if id > 0 && id in p.level then p.pending + {id}
                         else p.pending - {id}))
  }

  /** Register writes: none of them updates the output line. */
  function WriteEnable(p: Plic, bits: set<nat>): Plic { p.(enabled := bits) }

  function WriteThreshold(p: Plic, data: nat): Plic { p.(threshold := data % 8) }

  function WritePriority(p: Plic, i: nat, data: nat): (r: Plic)
    requires Valid(p)
    ensures Valid(r)
  {
    if i < SOURCES then p.(priorities := p.priorities[i := data % 8]) else p
  }

  // ---------------------------------------------------------------- repeated claims

  /** The answers to n claims in a row. */
  function Claims(p: Plic, n: nat): seq<nat>
    requires Valid(p)
    decreases n
  {
    if n == 0 then [] else [Best(p)] + Claims(Claim(p), n - 1)
  }

  function AfterClaims(p: Plic, n: nat): Plic
    requires Valid(p)
    decreases n
  {
    if n == 0 then p else AfterClaims(Claim(p), n - 1)
  }

  lemma ClaimRemovesBest(p: Plic)
    requires Valid(p)
    ensures Best(p) == 0 ==> ClaimableSet(p) == {} && Claim(p) == Update(p)
    ensures Best(p) != 0 ==> Best(p) in ClaimableSet(p) && ClaimableSet(Claim(p)) == ClaimableSet(p) - {Best(p)}
    ensures Best(p) != 0 ==> forall j :: j in ClaimableSet(p) && j != Best(p) ==> Outranks(p, Best(p), j)
  {
    BestLeads(p, SOURCES);
    hide BestBelow;
    var q := Claim(p);
    if Best(p) != 0 {
      forall i: nat ensures Claimable(q, i) <==> Claimable(p, i) && i != Best(p) {}
    }
  }

  /** The answers r serve the set c: each member once, each outranking the ones after it, then 0. */
  ghost predicate ServesInOrder(p: Plic, c: set<nat>, r: seq<nat>)
    requires Valid(p) && forall i :: i in c ==> i < SOURCES
  {
    && |c| <= |r|
    && (forall k :: 0 <= k < |c| ==> r[k] in c)
    && (forall i :: i in c ==> i in r[..|c|])
    && (forall j, k :: 0 <= j < k < |c| ==> Outranks(p, r[j], r[k]))
    && (forall k :: |c| <= k < |r| ==> r[k] == 0)
  }

  lemma ServePrepend(p: Plic, q: Plic, c: set<nat>, b: nat, s: seq<nat>)
    requires Valid(p) && Valid(q) && p.priorities == q.priorities && forall i :: i in c ==> i < SOURCES
    requires b in c && (forall j :: j in c && j != b ==> Outranks(p, b, j))
    requires ServesInOrder(q, c - {b}, s)
    ensures ServesInOrder(p, c, [b] + s)
  {
    var d, r := c - {b}, [b] + s;
    assert |c| == |d| + 1;
    assert r[..|c|] == [b] + s[..|d|];
    forall k | 0 <= k < |c| ensures r[k] in c { if k > 0 { assert s[k - 1] in d; } }
    forall i | i in c ensures i in r[..|c|] { if i != b { assert i in s[..|d|]; } }
    forall j, k | 0 <= j < k < |c| ensures Outranks(p, r[j], r[k]) {
      assert s[k - 1] in d;
      if j > 0 { assert Outranks(q, s[j - 1], s[k - 1]); }
    }
  }

  lemma ServeNone(p: Plic, q: Plic, s: seq<nat>)
    requires Valid(p) && Valid(q) && ServesInOrder(q, {}, s)
    ensures ServesInOrder(p, {}, [0] + s)
  {}

  /** Claims in a row return every claimable source once, each outranking the ones after it, and
      then 0 for ever; nothing else stops being pending. */
  lemma {:induction false} ClaimsServeEachOnce(p: Plic, n: nat)
    requires Valid(p) && n >= |ClaimableSet(p)|
    ensures |Claims(p, n)| == n && ServesInOrder(p, ClaimableSet(p), Claims(p, n))
    ensures AfterClaims(p, n).pending == p.pending - ClaimableSet(p)
    decreases n
  {
    hide ClaimableSet, Best, Outranks, ServesInOrder;
    var c := ClaimableSet(p);
    ClaimRemovesBest(p);
    if n == 0 {
      ServeNothing(p);
    } else if Best(p) == 0 {
      SameClaimable(p, Claim(p));
      ClaimsServeEachOnce(Claim(p), n - 1);
      ServeNone(p, Claim(p), Claims(Claim(p), n - 1));
    } else {
      var b, q := Best(p), Claim(p);
      assert |c - {b}| == |c| - 1;
      ClaimsServeEachOnce(q, n - 1);
      ServePrepend(p, q, c, b, Claims(q, n - 1));
      assert AfterClaims(p, n).pending == (p.pending - {b}) - (c - {b});
    }
  }

  lemma ServeNothing(p: Plic)
    requires Valid(p)
    ensures ServesInOrder(p, {}, [])
  {}

  // ---------------------------------------------------------------- runs

  datatype Op =
    | RaiseOp(id: nat)
    | LevelOp(id: nat, active: bool)
    | ClaimOp
    | CompleteOp(id: nat, stray: set<nat>)
    | EnableOp(bits: set<nat>)
    | ThresholdOp(data: nat)
    | PriorityOp(i: nat, data: nat)

  function Step(p: Plic, op: Op): (r: Plic)
    requires Valid(p)
    ensures Valid(r)
  {
    match op
    case RaiseOp(id) => Raise(p, id)
    case LevelOp(id, active) => SetLevel(p, id, active)
    case ClaimOp => Claim(p)
    case CompleteOp(id, stray) => Complete(p, id, stray)
    case EnableOp(bits) => WriteEnable(p, bits)
    case ThresholdOp(data) => WriteThreshold(p, data)
    case PriorityOp(i, data) => WritePriority(p, i, data)
  }

  /** The operations that update the output line; raises and level changes do so for valid ids. */
  predicate Refreshes(op: Op) {
    match op
    case RaiseOp(id) => 0 < id < SOURCES
    case LevelOp(id, _) => 0 < id < SOURCES
    case ClaimOp => true
    case CompleteOp(_, _) => true
    case _ => false
  }

  function Run(p: Plic, ops: seq<Op>): (r: Plic)
    requires Valid(p)
    ensures Valid(r)
    decreases |ops|
  {
    if ops == [] then p else Run(Step(p, ops[0]), ops[1..])
  }

  // ---------------------------------------------------------------- the output line

  /** The line is up exactly when a further claim would be answered with a source. */
  ghost predicate LineAgrees(p: Plic)
    requires Valid(p)
  {
    p.irq <==> Best(p) != 0
  }

  lemma LineIsClaimable(p: Plic)
    requires Valid(p)
    ensures LineAgrees(p) <==> (p.irq <==> ClaimableSet(p) != {})
  {
    hide Best;
    ClaimRemovesBest(p);
  }

  lemma UpdateAgrees(p: Plic)
    requires Valid(p)
    ensures LineAgrees(Update(p))
  {
    hide Best;
    SameClaimable(p, Update(p));
    LineIsClaimable(Update(p));
  }

  /** Every operation that updates the line makes it agree, from any state. */
  lemma RefreshAgrees(p: Plic, op: Op)
    requires Valid(p) && Refreshes(op)
    ensures LineAgrees(Step(p, op))
  {
    hide Best, ClaimableSet, Update;
    match op
    case RaiseOp(id) => UpdateAgrees(p.(pending := p.pending + {id}));
    case LevelOp(id, active) =>
      UpdateAgrees(p.(level := p.level + {id}, pending := p.pending + {id}));
      UpdateAgrees(p.(level := p.level - {id}, pending := p.pending - {id}));
    case ClaimOp => UpdateAgrees(if Best(p) == 0 then p else p.(pending := p.pending - {Best(p)}));
    case CompleteOp(id, stray) =>
      UpdateAgrees(p.(pending := if id >= SOURCES then p.pending - stray
                                 else if id > 0 && id in p.level then p.pending + {id}
                                 else p.pending - {id}));
  }

  /** Any other operation leaves the line as it is: it agrees afterwards if and only if the write left
      some source claimable where one was, and none where none was. */
  lemma WriteAgreesIff(p: Plic, op: Op)
    requires Valid(p) && LineAgrees(p) && !Refreshes(op)
    ensures LineAgrees(Step(p, op)) <==> (ClaimableSet(p) == {} <==> ClaimableSet(Step(p, op)) == {})
  {
    hide Best, ClaimableSet;
    LineIsClaimable(p);
    LineIsClaimable(Step(p, op));
  }

  /** The state at the last update of the line in a run; m if the run has none. */
  function LastRefresh(p: Plic, m: Plic, ops: seq<Op>): (r: Plic)
    requires Valid(p) && Valid(m)
    ensures Valid(r)
    decreases |ops|
  {
    if ops == [] then m
    else LastRefresh(Step(p, ops[0]), if Refreshes(ops[0]) then Step(p, ops[0]) else m, ops[1..])
  }

  /** Over every run, register writes included, that starts with the line as at an agreeing state m: the
      line agrees at the end if and only if there is something to claim exactly when there was at the
      last update of the line. */
  lemma {:induction false} LineAgreesIff(p: Plic, m: Plic, ops: seq<Op>)
    requires Valid(p) && Valid(m) && LineAgrees(m) && p.irq == m.irq
    ensures LineAgrees(Run(p, ops)) <==>
              (ClaimableSet(LastRefresh(p, m, ops)) == {} <==> ClaimableSet(Run(p, ops)) == {})
    decreases |ops|
  {
    hide Best, ClaimableSet, Step;
    if ops == [] {
      LineIsClaimable(p);
      LineIsClaimable(m);
    } else {
      var q := Step(p, ops[0]);
      if Refreshes(ops[0]) {
        RefreshAgrees(p, ops[0]);
        LineAgreesIff(q, q, ops[1..]);
      } else {
        WriteKeepsLine(p, ops[0]);
        LineAgreesIff(q, m, ops[1..]);
      }
    }
  }

  predicate RegisterWrite(op: Op) { op.EnableOp? || op.ThresholdOp? || op.PriorityOp? }

  /** Without register writes the line agrees after every run. */
  lemma {:induction false} LineAlwaysAgrees(p: Plic, ops: seq<Op>)
    requires Valid(p) && LineAgrees(p) && forall i :: 0 <= i < |ops| ==> !RegisterWrite(ops[i])
    ensures LineAgrees(Run(p, ops))
    decreases |ops|
  {
    if ops != [] {
      if Refreshes(ops[0]) { RefreshAgrees(p, ops[0]); } else { InvalidIdKeeps(p, ops[0]); }
      hide Step, Best;
      LineAlwaysAgrees(Step(p, ops[0]), ops[1..]);
    }
  }

  lemma InvalidIdKeeps(p: Plic, op: Op)
    requires Valid(p) && !Refreshes(op) && !RegisterWrite(op)
    ensures Step(p, op) == p
  {}

  lemma WriteKeepsLine(p: Plic, op: Op)
    requires Valid(p) && !Refreshes(op)
    ensures Step(p, op).irq == p.irq
  {}

  lemma {:induction false} RunConcat(p: Plic, ops: seq<Op>, op: Op)
    requires Valid(p)
    ensures Run(p, ops + [op]) == Step(Run(p, ops), op)
    decreases |ops|
  {
    hide Step;
    if ops == [] {
      assert Run(Step(p, op), []) == Step(p, op);
    } else {
      assert (ops + [op])[1..] == ops[1..] + [op];
      RunConcat(Step(p, ops[0]), ops[1..], op);
    }
  }

  /** After any run from any state whatever, register writes included, the next valid raise or level
      change, claim or completion restores agreement. */
  lemma RefreshRestores(p: Plic, ops: seq<Op>, op: Op)
    requires Valid(p) && Refreshes(op)
    ensures LineAgrees(Run(p, ops + [op]))
  {
    hide Step, Best;
    RunConcat(p, ops, op);
    RefreshAgrees(Run(p, ops), op);
  }

  /** Enabling a pending source: the line stays down although a claim would be answered. */
  lemma EnableLeavesLineStale(p: Plic, id: nat)
    requires Valid(p) && LineAgrees(p) && ClaimableSet(p) == {}
    requires 0 < id < SOURCES && id in p.pending && p.priorities[id] > p.threshold
    ensures !LineAgrees(Step(p, EnableOp(p.enabled + {id})))
  {
    var q := WriteEnable(p, p.enabled + {id});
    hide Best;
    assert Claimable(q, id) && id in ClaimableSet(q);
    WriteAgreesIff(p, EnableOp(p.enabled + {id}));
  }

  /** Disabling everything while a source is claimable: the line stays up although a claim gives 0. */
  lemma DisableLeavesLineUp(p: Plic)
    requires Valid(p) && LineAgrees(p) && ClaimableSet(p) != {}
    ensures !LineAgrees(Step(p, EnableOp({})))
  {
    hide Best;
    WriteAgreesIff(p, EnableOp({}));
  }

  /** Raising the threshold to 7, above every three-bit priority, leaves the line up. */
  lemma ThresholdLeavesLineUp(p: Plic)
    requires Valid(p) && LineAgrees(p) && ClaimableSet(p) != {}
    requires forall i :: 0 <= i < SOURCES ==> p.priorities[i] < 8
    ensures !LineAgrees(Step(p, ThresholdOp(7)))
  {
    hide Best;
    var q := WriteThreshold(p, 7);
    assert forall i: nat :: i < SOURCES ==> !(q.priorities[i] > q.threshold);
    WriteAgreesIff(p, ThresholdOp(7));
  }

  /** Clearing the priority of the only claimable source leaves the line up. */
  lemma PriorityLeavesLineUp(p: Plic, id: nat)
    requires Valid(p) && LineAgrees(p) && id < SOURCES && ClaimableSet(p) == {id}
    ensures !LineAgrees(Step(p, PriorityOp(id, 0)))
  {
    hide Best;
    var q := WritePriority(p, id, 0);
    assert forall i: nat :: i < SOURCES && Claimable(p, i) ==> i in ClaimableSet(p);
    assert forall i: nat :: i < SOURCES && i != id ==> (Claimable(q, i) <==> Claimable(p, i));
    WriteAgreesIff(p, PriorityOp(id, 0));
  }

  // ---------------------------------------------------------------- level sources

  /** Sources claimed and not yet completed. */
  function Served(p: Plic, serving: set<nat>, op: Op): set<nat>
    requires Valid(p)
  {
    match op
    case ClaimOp => if Best(p) == 0 then serving else serving + {Best(p)}
    case CompleteOp(id, _) => serving - {id}
    case _ => serving
  }

  function Serving(p: Plic, serving: set<nat>, ops: seq<Op>): set<nat>
    requires Valid(p)
    decreases |ops|
  {
    if ops == [] then serving else Serving(Step(p, ops[0]), Served(p, serving, ops[0]), ops[1..])
  }

  /** Every asserted level source is pending or being served; sources 1 to 31 only have levels. */
  predicate LevelsKept(p: Plic, serving: set<nat>) {
    p.level <= p.pending + serving && forall i :: i in p.level ==> 0 < i < SOURCES
  }

  /** The one way to lose an asserted level source is a completion of an id out of range whose
      undefined mask hits a source that is not being served. */
  predicate StrayHit(p: Plic, serving: set<nat>, op: Op) {
    op.CompleteOp? && op.id >= SOURCES && exists i :: i in p.level && i in op.stray && i !in serving
  }

  lemma LevelStepIff(p: Plic, serving: set<nat>, op: Op)
    requires Valid(p) && LevelsKept(p, serving)
    ensures LevelsKept(Step(p, op), Served(p, serving, op)) <==> !StrayHit(p, serving, op)
  {
    hide Best, ClaimableSet;
    var q, now := Step(p, op), Served(p, serving, op);
    if op.CompleteOp? && op.id >= SOURCES {
      assert q.level == p.level && q.pending == p.pending - op.stray;
      assert forall i :: i in p.level ==> (i in now <==> i in serving);
    }
  }

  /** A failing run from reset: source 1 is asserted, then id 33 completed, the undefined mask being bit 1
      as a shifter that takes the amount modulo 32 gives it. Source 1 is neither pending nor served. */
  lemma StrayCompletionLosesLevel()
    ensures var p := Plic(seq(SOURCES, _ => 0), {}, {}, {}, 0, false);
      var ops := [LevelOp(1, true), CompleteOp(33, {1})];
      Valid(p) && LevelsKept(p, {}) && !LevelsKept(Run(p, ops), Serving(p, {}, ops))
  {
    var p := Plic(seq(SOURCES, _ => 0), {}, {}, {}, 0, false);
    var q := Step(p, LevelOp(1, true));
    var r := Step(q, CompleteOp(33, {1}));
    hide ClaimableSet, Best;
    assert [LevelOp(1, true), CompleteOp(33, {1})][1..] == [CompleteOp(33, {1})];
    assert [CompleteOp(33, {1})][1..] == [];
    assert 1 in r.level && 1 !in r.pending;
    assert Serving(p, {}, [LevelOp(1, true), CompleteOp(33, {1})]) == {};
    assert Run(p, [LevelOp(1, true), CompleteOp(33, {1})]) == r;
  }

  ghost predicate NoStrayHits(p: Plic, serving: set<nat>, ops: seq<Op>)
    requires Valid(p)
    decreases |ops|
  {
    ops != [] ==> !StrayHit(p, serving, ops[0]) && NoStrayHits(Step(p, ops[0]), Served(p, serving, ops[0]), ops[1..])
  }

  /** Over every run, register writes included, no asserted level source is ever lost unless an
      out-of-range completion hits it. */
  lemma {:induction false} LevelNeverLost(p: Plic, serving: set<nat>, ops: seq<Op>)
    requires Valid(p) && LevelsKept(p, serving) && NoStrayHits(p, serving, ops)
    ensures LevelsKept(Run(p, ops), Serving(p, serving, ops))
    decreases |ops|
  {
    hide Step, Served, LevelsKept, StrayHit;
    if ops != [] {
      LevelStepIff(p, serving, ops[0]);
      LevelNeverLost(Step(p, ops[0]), Served(p, serving, ops[0]), ops[1..]);
    }
  }

  /** A completion leaves its source pending exactly when its level is asserted, whatever was raised
      between claim and completion: a pulse raised while its source is being served is lost. */
  lemma PulseDuringServiceLost(p: Plic, id: nat, stray: set<nat>)
    requires Valid(p) && 0 < id < SOURCES
    ensures id in Complete(Raise(p, id), id, stray).pending <==> id in p.level
    ensures Complete(Raise(p, id), id, stray) == Complete(p, id, stray)
  {
    var a, b := Complete(Raise(p, id), id, stray), Complete(p, id, stray);
    assert a.pending == b.pending;
    SameClaimable(a, b);
    SameClaimable(a.(irq := p.irq), a);
    SameClaimable(b.(irq := p.irq), b);
    SameClaimable(a.(irq := Raise(p, id).irq), a);
  }

  lemma SameClaimable(a: Plic, b: Plic)
    requires Valid(a) && Valid(b) && a.(irq := false) == b.(irq := false)
    ensures ClaimableSet(a) == ClaimableSet(b)
  {
    forall i: nat ensures Claimable(a, i) <==> Claimable(b, i) {}
  }
}
