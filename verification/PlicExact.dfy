/** What each operation of the interrupt controller does to the sources a claim can answer with. */
module PlicExact {
  import opened PlicModel

  /** Source i can be claimed: it is pending and enabled, and its priority exceeds the threshold. */
  ghost predicate Ready(p: Plic, i: nat)
    requires Valid(p)
  {
    1 <= i <= 31 && i in p.pending && i in p.enabled && p.priorities[i] > p.threshold
  }

  /** Only pending, level and the line may differ. */
  ghost predicate SameSettings(p: Plic, q: Plic) {
    q.priorities == p.priorities && q.enabled == p.enabled && q.threshold == p.threshold
  }

  /** The line says whether some source is ready. */
  ghost predicate LineRight(p: Plic)
    requires Valid(p)
  {
    p.irq <==> exists i: nat :: Ready(p, i)
  }

  lemma UpdateRight(p: Plic)
    requires Valid(p)
    ensures LineRight(Update(p)) && Update(p) == p.(irq := Update(p).irq)
  {
    var q := Update(p);
    assert forall i: nat :: Ready(q, i) <==> i in ClaimableSet(p);
    if ClaimableSet(p) != {} { var i :| i in ClaimableSet(p); }
  }

  /** A raised source is pending, whatever its settings; no other source is touched. An id outside
      1..31 does nothing. */
  lemma RaiseExact(p: Plic, id: nat)
    requires Valid(p)
    ensures var q := Raise(p, id);
      if 1 <= id <= 31 then
        && SameSettings(p, q) && q.level == p.level && LineRight(q)
        && (forall i: nat :: i in q.pending <==> i in p.pending || i == id)
        && forall i: nat :: Ready(q, i) <==> Ready(p, i) || (i == id && id in p.enabled && p.priorities[id] > p.threshold)
      else q == p
  {
    UpdateRight(p.(pending := p.pending + {id}));
  }

  /** An asserted input is recorded and pending, a released one neither. */
  lemma LevelExact(p: Plic, id: nat, active: bool)
    requires Valid(p)
    ensures var q := SetLevel(p, id, active);
      if 1 <= id <= 31 then
        && SameSettings(p, q) && LineRight(q)
        && (forall i: nat :: i in q.pending <==> if i == id then active else i in p.pending)
        && (forall i: nat :: i in q.level <==> if i == id then active else i in p.level)
      else q == p
  {
    UpdateRight(p.(level := p.level + {id}, pending := p.pending + {id}));
    UpdateRight(p.(level := p.level - {id}, pending := p.pending - {id}));
  }

  /** A claim takes the source it answers with out of pending and changes nothing else but the line. */
  lemma ClaimExact(p: Plic)
    requires Valid(p)
    ensures var q, b := Claim(p), Best(p);
      && SameSettings(p, q) && q.level == p.level && LineRight(q)
      && (forall i: nat :: i in q.pending <==> i in p.pending && (b == 0 || i != b))
      && (b == 0 ==> forall i: nat :: !Ready(p, i))
      && (b != 0 ==> Ready(p, b) && forall i: nat :: Ready(p, i) && i != b ==>
            p.priorities[b] > p.priorities[i] || (p.priorities[b] == p.priorities[i] && b < i))
  {
    BestLeads(p, SOURCES);
    hide BestBelow;
    assert forall i: nat :: Ready(p, i) ==> i < 32 && Claimable(p, i);
    UpdateRight(if Best(p) == 0 then p else p.(pending := p.pending - {Best(p)}));
  }

  /** Completing a source below 32 leaves it pending exactly when its input is still asserted, and touches
      no other. */
  lemma CompleteExact(p: Plic, id: nat, stray: set<nat>)
    requires Valid(p) && id <= 31
    ensures var q := Complete(p, id, stray);
      && SameSettings(p, q) && q.level == p.level && LineRight(q)
      && forall i: nat :: i in q.pending <==> if i == id then id != 0 && id in p.level else i in p.pending
  {
    UpdateRight(p.(pending := if id > 0 && id in p.level then p.pending + {id} else p.pending - {id}));
  }

  /** The register writes: a source's priority and the threshold keep three bits, and decide from then on
      which pending sources are ready. */
  lemma SettingsExact(p: Plic, i: nat, data: nat, bits: set<nat>)
    requires Valid(p)
    ensures var q := WritePriority(p, i, data);
      && (forall j: nat :: Ready(q, j) <==>
            if j == i then 1 <= i <= 31 && i in p.pending && i in p.enabled && data % 8 > p.threshold else Ready(p, j))
      && q.pending == p.pending && q.level == p.level && q.enabled == p.enabled && q.threshold == p.threshold && q.irq == p.irq
    ensures var q := WriteThreshold(p, data);
      && (forall j: nat :: Ready(q, j) <==> 1 <= j <= 31 && j in p.pending && j in p.enabled && p.priorities[j] > data % 8)
      && q.pending == p.pending && q.level == p.level && q.irq == p.irq
    ensures var q := WriteEnable(p, bits);
      && (forall j: nat :: Ready(q, j) <==> 1 <= j <= 31 && j in p.pending && j in bits && p.priorities[j] > p.threshold)
      && q.pending == p.pending && q.level == p.level && q.irq == p.irq
  {}

  /** A raised, enabled source above the threshold is answered by one of the claims that follow, before the
      first answer 0. */
  lemma RaisedIsServed(p: Plic, id: nat, n: nat)
    requires Valid(p) && 1 <= id <= 31 && id in p.enabled && p.priorities[id] > p.threshold
    requires n >= |ClaimableSet(Raise(p, id))|
    ensures var answers := Claims(Raise(p, id), n);
      id in answers && forall k :: 0 <= k < |answers| && answers[k] == 0 ==> id in answers[..k]
  {
    hide Claims, Update, ServesInOrder;
    var q := Raise(p, id);
    RaiseExact(p, id);
    var c := ClaimableSet(q);
    assert Ready(q, id) && id in c;
    ClaimsServeEachOnce(q, n);
    Served(q, c, Claims(q, n), id);
  }

  lemma Served(q: Plic, c: set<nat>, answers: seq<nat>, id: nat)
    requires Valid(q) && (forall i :: i in c ==> 0 < i < SOURCES) && ServesInOrder(q, c, answers) && id in c
    ensures id in answers && forall k :: 0 <= k < |answers| && answers[k] == 0 ==> id in answers[..k]
  {
    assert id in answers[..|c|];
    forall k | 0 <= k < |answers| && answers[k] == 0 ensures id in answers[..k] {
      assert k >= |c|;
      var j :| 0 <= j < |c| && answers[..|c|][j] == id;
      assert answers[..k][j] == id;
    }
  }

  /** With nothing ready before it, the very next claim answers a raised source. */
  lemma RaisedIsNext(p: Plic, id: nat)
    requires Valid(p) && 1 <= id <= 31 && id in p.enabled && p.priorities[id] > p.threshold
    requires forall i: nat :: Ready(p, i) ==> p.priorities[id] > p.priorities[i] || i == id
    ensures Best(Raise(p, id)) == id && Raise(p, id).irq
  {
    hide Best, Update;
    RaiseExact(p, id);
    var q := Raise(p, id);
    assert Ready(q, id);
    ClaimExact(q);
  }
}
