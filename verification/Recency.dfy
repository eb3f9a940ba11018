/** Recency stacks: the reference for LRU replacement. The stack of a history lists its distinct
    elements, most recently used first. */
module Recency {
  import opened Words

  function Remove(q: seq<int>, x: int): (r: seq<int>)
    ensures |r| <= |q|
    ensures forall y :: y in r <==> y in q && y != x
  {
    if q == [] then []
    else if q[0] == x then Remove(q[1..], x)
    else [q[0]] + Remove(q[1..], x)
  }

  /** x moves to the top. */
  function Touch(q: seq<int>, x: int): seq<int> { [x] + Remove(q, x) }

  function Stack(h: seq<int>): seq<int> {
    if h == [] then [] else Touch(Stack(h[..|h| - 1]), h[|h| - 1])
  }

  ghost predicate Distinct(q: seq<int>) { forall i, j :: 0 <= i < j < |q| ==> q[i] != q[j] }

  /** What was used after the last use of x. */
  ghost function Since(h: seq<int>, x: int): set<int> {
    if h == [] || h[|h| - 1] == x then {} else Since(h[..|h| - 1], x) + {h[|h| - 1]}
  }

  function Index(q: seq<int>, x: int): (i: nat)
    requires x in q
    ensures i < |q| && q[i] == x && x !in q[..i]
  {
    if q[0] == x then 0 else 1 + Index(q[1..], x)
  }

  /** One more element on top moves everything down by one. */
  lemma BelowTop(y: int, r: seq<int>, x: int)
    requires x in r && x != y
    ensures x in [y] + r && Index([y] + r, x) == 1 + Index(r, x)
    ensures ([y] + r)[..1 + Index(r, x)] == [y] + r[..Index(r, x)]
    ensures Elems([y] + r[..Index(r, x)]) == {y} + Elems(r[..Index(r, x)])
  {
    var q, i := [y] + r, Index(r, x);
    assert q[0] == y && q[1..] == r && q[1 + i] == x;
    assert q[..1 + i] == [y] + r[..i];
  }

  lemma {:induction false} RemoveAbsent(q: seq<int>, x: int)
    requires x !in q
    ensures Remove(q, x) == q
  {
    if q != [] { RemoveAbsent(q[1..], x); }
  }

  lemma TailDistinct(q: seq<int>)
    requires Distinct(q) && q != []
    ensures Distinct(q[1..]) && q[0] !in q[1..]
  {
    var t := q[1..];
    assert forall i :: 0 <= i < |t| ==> t[i] == q[i + 1];
  }

  lemma {:induction false} RemoveDistinct(q: seq<int>, x: int)
    requires Distinct(q)
    ensures Distinct(Remove(q, x))
    ensures x !in q ==> Remove(q, x) == q
    ensures x in q ==> Remove(q, x) == q[..Index(q, x)] + q[Index(q, x) + 1..]
  {
    if q != [] {
      var y, t := q[0], q[1..];
      TailDistinct(q);
      RemoveDistinct(t, x);
      hide Distinct;
      assert q == [y] + t;
      if y == x {
        RemoveAbsent(t, x);
        assert q[..0] + q[1..] == t;
      } else {
        PrependDistinct(y, Remove(t, x));
        if x in q {
          BelowTop(y, t, x);
          assert q[Index(q, x) + 1..] == t[Index(t, x) + 1..];
          Assoc([y], t[..Index(t, x)], t[Index(t, x) + 1..]);
        }
      }
    }
  }

  lemma PrependDistinct(y: int, r: seq<int>)
    requires Distinct(r) && y !in r
    ensures Distinct([y] + r)
  {}

  lemma {:induction false} StackDistinct(h: seq<int>)
    ensures Distinct(Stack(h))
    ensures forall x :: x in Stack(h) <==> x in h
  {
    if h != [] {
      var init := h[..|h| - 1];
      StackDistinct(init);
      RemoveDistinct(Stack(init), h[|h| - 1]);
      assert h == init + [h[|h| - 1]];
    }
  }

  ghost function Elems(q: seq<int>): set<int> { set x | x in q }

  lemma {:induction false} DistinctSize(q: seq<int>)
    requires Distinct(q)
    ensures |Elems(q)| == |q|
  {
    if q == [] {
      assert Elems(q) == {};
    } else {
      var init, x := q[..|q| - 1], q[|q| - 1];
      DistinctSize(init);
      assert q == init + [x];
      assert x !in init;
      assert Elems(q) == Elems(init) + {x};
    }
  }

  /** Above x in the stack stand exactly the elements used since. */
  lemma {:induction false} AboveIsSince(h: seq<int>, x: int)
    requires x in h
    ensures x in Stack(h) && Elems(Stack(h)[..Index(Stack(h), x)]) == Since(h, x)
  {
    hide Distinct, Remove, Index;
    var init, y := h[..|h| - 1], h[|h| - 1];
    assert h == init + [y];
    if y == x {
      TopOfTouch(Stack(init), x);
    } else {
      AboveIsSince(init, x);
      var r := Remove(Stack(init), y);
      assert Stack(h) == [y] + r;
      RemoveAbove(Stack(init), y, x);
      BelowTop(y, r, x);
    }
  }

  lemma TopOfTouch(q: seq<int>, x: int)
    ensures x in Touch(q, x) && Index(Touch(q, x), x) == 0 && Elems(Touch(q, x)[..0]) == {}
  {
    assert Touch(q, x)[0] == x;
  }

  lemma {:induction false} RemoveAbove(q: seq<int>, y: int, x: int)
    requires x in q && y != x
    ensures x in Remove(q, y)
    ensures Elems(Remove(q, y)[..Index(Remove(q, y), x)]) == Elems(q[..Index(q, x)]) - {y}
  {
    hide Elems, Index, Distinct;
    if q[0] == x {
      TopOfRemoved(q, y, x);
    } else {
      var t := q[1..];
      assert q == [q[0]] + t;
      RemoveAbove(t, y, x);
      BelowTop(q[0], t, x);
      if q[0] != y { BelowTop(q[0], Remove(t, y), x); }
    }
  }

  lemma TopOfRemoved(q: seq<int>, y: int, x: int)
    requires q != [] && q[0] == x && y != x
    ensures x in q && Index(q, x) == 0 && x in Remove(q, y) && Index(Remove(q, y), x) == 0
    ensures Elems(q[..0]) == {} && Elems(Remove(q, y)[..0]) == {}
  {
    assert Remove(q, y)[0] == x;
  }

  /** x is among the top n of the stack iff it was used before and fewer than n distinct others
      have been used since. */
  lemma TopMeansRecent(h: seq<int>, x: int, n: nat)
    ensures x in Stack(h)[..if n < |Stack(h)| then n else |Stack(h)|] <==> x in h && |Since(h, x)| < n
  {
    StackDistinct(h);
    var s := Stack(h);
    var top := s[..if n < |s| then n else |s|];
    if x in h {
      AboveIsSince(h, x);
      var i := Index(s, x);
      assert Distinct(s[..i]);
      DistinctSize(s[..i]);
      if i < n { assert top[i] == x; }
      if x in top {
        var j :| 0 <= j < |top| && top[j] == x;
        assert s[j] == x;
        assert i == j;
      }
    } else {
      assert forall k :: 0 <= k < |top| ==> top[k] in s;
    }
  }
}
