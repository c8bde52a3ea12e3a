/** The deterministic shuffler (pkg/failure/failure.go). The random source is the list of its answers. */
module Shuffle {
  import Bytes

  function Identity(n: nat): (s: seq<int>)
    ensures |s| == n && forall i :: 0 <= i < n ==> s[i] == i
  {
    seq(n, i => i)
  }

  function Swapped(s: seq<int>, i: nat, j: nat): seq<int>
    requires i < |s| && j < |s|
  {
    s[i := s[j]][j := s[i]]
  }

  /** Answer k of the source is r.Intn(|draws| - k + 1). */
  predicate ValidDraws(draws: seq<nat>) {
    forall k :: 0 <= k < |draws| ==> draws[k] <= |draws| - k
  }

  /** Fisher-Yates on the first |draws| + 1 positions, last position first. */
  function Shuffled(s: seq<int>, draws: seq<nat>): (r: seq<int>)
    requires ValidDraws(draws) && |draws| < |s|
    ensures |r| == |s|
    decreases |draws|
  {
    if draws == [] then s
    else
      assert forall k :: 0 <= k < |draws| - 1 ==> draws[1..][k] == draws[k + 1];
      Shuffled(Swapped(s, |draws|, draws[0]), draws[1..])
  }

  /** What Permute returns, as a value. */
  function Order(n: int, draws: seq<nat>): seq<int>
    requires n > 1 ==> |draws| == n - 1 && ValidDraws(draws)
  {
    if n <= 1 then [0] else Shuffled(Identity(n), draws)
  }

  /** SchedulerShuffle.Permute: elements of `order` are swapped in place. */
  method Permute(n: int, draws: seq<nat>) returns (order: array<int>)
    requires n > 1 ==> |draws| == n - 1 && ValidDraws(draws)
    ensures fresh(order)
    ensures order[..] == Order(n, draws)
  {
    if n <= 1 {
      order := new int[1](_ => 0);
      return;
    }
    order := new int[n](i => i);
    var i := n - 1;
    ghost var left := draws;
    assert order[..] == Identity(n);
    while i > 0
      invariant 0 <= i < n && i == |left| && left == draws[n - 1 - i..] && ValidDraws(left)
      invariant fresh(order) && order.Length == n
      invariant Shuffled(order[..], left) == Shuffled(Identity(n), draws)
    {
      var j := draws[n - 1 - i];
      assert left[0] == j;
      ghost var was := order[..];
      order[i], order[j] := order[j], order[i];
      assert order[..] == Swapped(was, i, j);
      left := left[1..];
      i := i - 1;
    }
  }

  ghost predicate Distinct(s: seq<int>) {
    forall i, j :: 0 <= i < j < |s| ==> s[i] != s[j]
  }

  function Elements(s: seq<int>): set<int> {
    set x <- s
  }

  /** A rearrangement of 0 .. n-1. */
  ghost predicate IsPermutation(p: seq<int>, n: nat) {
    |p| == n && Distinct(p) && Elements(p) == Elements(Identity(n))
  }

  lemma SwappedKeeps(s: seq<int>, i: nat, j: nat)
    requires i < |s| && j < |s|
    ensures Elements(Swapped(s, i, j)) == Elements(s)
    ensures Distinct(s) ==> Distinct(Swapped(s, i, j))
  {
    var r := Swapped(s, i, j);
    forall x ensures x in r <==> x in s {
      if x in s {
        var k :| 0 <= k < |s| && s[k] == x;
        assert r[if k == i then j else if k == j then i else k] == x;
      }
      if x in r {
        var k :| 0 <= k < |r| && r[k] == x;
        assert s[if k == i then j else if k == j then i else k] == x;
      }
    }
  }

  lemma {:induction false} ShuffledKeeps(s: seq<int>, draws: seq<nat>)
    requires ValidDraws(draws) && |draws| < |s|
    ensures Elements(Shuffled(s, draws)) == Elements(s)
    ensures Distinct(s) ==> Distinct(Shuffled(s, draws))
    ensures forall k :: |draws| < k < |s| ==> Shuffled(s, draws)[k] == s[k]
    decreases |draws|
  {
    if draws != [] {
      assert forall k :: 0 <= k < |draws| - 1 ==> draws[1..][k] == draws[k + 1];
      SwappedKeeps(s, |draws|, draws[0]);
      ShuffledKeeps(Swapped(s, |draws|, draws[0]), draws[1..]);
    }
  }

  /** Permute returns a permutation of 0 .. n-1 for every random source, exactly when n is positive: for n = 0
      it returns the one-element list [0]. */
  lemma PermuteIsPermutationIff(n: nat, draws: seq<nat>)
    requires n > 1 ==> |draws| == n - 1 && ValidDraws(draws)
    ensures IsPermutation(Order(n, draws), n) <==> n >= 1
  {
    if n > 1 {
      ShuffledKeeps(Identity(n), draws);
    } else if n == 1 {
      assert Identity(1) == [0];
    }
  }

  /** Every arrangement of the first positions is reached by some answers of the source. */
  lemma {:induction false} SomeDrawsReach(s: seq<int>, p: seq<int>, k: nat) returns (draws: seq<nat>)
    requires k < |s| == |p| && Distinct(s) && Distinct(p) && Elements(s) == Elements(p)
    requires forall j :: k < j < |s| ==> s[j] == p[j]
    ensures |draws| == k && ValidDraws(draws) && Shuffled(s, draws) == p
    decreases k
  {
    assert p[k] in Elements(s);
    var j :| 0 <= j < |s| && s[j] == p[k];
    assert j <= k by {
      assert forall i :: k < i < |s| ==> p[i] != p[k];
    }
    if k == 0 {
      assert s == p;
      return [];
    }
    SwappedKeeps(s, k, j);
    var rest := SomeDrawsReach(Swapped(s, k, j), p, k - 1);
    draws := [j] + rest;
    assert draws[1..] == rest;
    assert forall i :: 0 < i < k ==> draws[i] == rest[i - 1];
  }

  lemma TailDraws(draws: seq<nat>)
    requires draws != [] && ValidDraws(draws)
    ensures draws[0] <= |draws| && ValidDraws(draws[1..]) && draws == [draws[0]] + draws[1..]
  {
    assert forall k :: 0 <= k < |draws| - 1 ==> draws[1..][k] == draws[k + 1];
  }

  /** The first answer fixes what ends up at the last of the shuffled positions. */
  lemma LastPlaced(s: seq<int>, draws: seq<nat>)
    requires draws != [] && ValidDraws(draws) && |draws| < |s|
    ensures Shuffled(s, draws)[|draws|] == s[draws[0]]
  {
    TailDraws(draws);
    ShuffledKeeps(Swapped(s, |draws|, draws[0]), draws[1..]);
  }

  /** Different answers give different results: each permutation is reached exactly once. */
  lemma {:induction false} DrawsDetermined(s: seq<int>, d: seq<nat>, e: seq<nat>)
    requires |d| == |e| < |s| && ValidDraws(d) && ValidDraws(e) && Distinct(s)
    requires Shuffled(s, d) == Shuffled(s, e)
    ensures d == e
    decreases |d|
  {
    if d != [] {
      hide Swapped, ValidDraws;
      TailDraws(d);
      TailDraws(e);
      LastPlaced(s, d);
      LastPlaced(s, e);
      assert d[0] == e[0];
      hide Distinct;
      SwappedKeeps(s, |d|, d[0]);
      DrawsDetermined(Swapped(s, |d|, d[0]), d[1..], e[1..]);
    }
  }

  /** Drawing without replacement: each answer picks one of the items left, and the gap is filled by the last of them.
      The picks fill the result from its end. */
  function Drawn(items: seq<int>, draws: seq<nat>): (r: seq<int>)
    requires ValidDraws(draws) && |items| == |draws| + 1
    ensures |r| == |items|
    decreases |draws|
  {
    if draws == [] then items
    else
      TailDraws(draws);
      var last := |items| - 1;
      Drawn(items[draws[0] := items[last]][..last], draws[1..]) + [items[draws[0]]]
  }

  lemma {:induction false} ShuffledFront(s: seq<int>, tail: seq<int>, draws: seq<nat>)
    requires ValidDraws(draws) && |draws| < |s|
    ensures Shuffled(s + tail, draws) == Shuffled(s, draws) + tail
    decreases |draws|
  {
    if draws != [] {
      TailDraws(draws);
      var n, j := |draws|, draws[0];
      assert Swapped(s + tail, n, j) == Swapped(s, n, j) + tail;
      ShuffledFront(Swapped(s, n, j), tail, draws[1..]);
    }
  }

  /** The in-place swaps are drawing without replacement. */
  lemma {:induction false} ShuffleIsDrawing(items: seq<int>, draws: seq<nat>)
    requires ValidDraws(draws) && |items| == |draws| + 1
    ensures Shuffled(items, draws) == Drawn(items, draws)
    decreases |draws|
  {
    if draws != [] {
      TailDraws(draws);
      var n, j := |draws|, draws[0];
      var left := items[j := items[n]][..n];
      assert Swapped(items, n, j) == left + [items[j]];
      ShuffledFront(left, [items[j]], draws[1..]);
      ShuffleIsDrawing(left, draws[1..]);
    }
  }

  ghost predicate Yields(draws: seq<nat>, n: nat, p: seq<int>)
    requires n >= 1
  {
    |draws| == n - 1 && ValidDraws(draws) && Shuffled(Identity(n), draws) == p
  }

  /** The shuffle is fair: answers of the source and permutations correspond one to one. */
  lemma ShuffleIsBijection(n: nat, p: seq<int>)
    requires n >= 1 && IsPermutation(p, n)
    ensures exists d :: Yields(d, n, p) && forall e :: Yields(e, n, p) ==> e == d
  {
    var d := SomeDrawsReach(Identity(n), p, n - 1);
    assert Yields(d, n, p);
    forall e | Yields(e, n, p) ensures e == d {
      DrawsDetermined(Identity(n), d, e);
    }
  }

  // ---------------------------------------------------------------- deliveries

  /** How many deliveries of the list go to trace `k`. */
  function Deliveries(traces: seq<int>, k: nat): nat {
    if traces == [] then 0
    else Deliveries(traces[..|traces| - 1], k) + if traces[|traces| - 1] == k then 1 else 0
  }

  /** In order: `perTrace` rounds over all traces. */
  function InOrder(traces: nat, perTrace: nat): seq<int> {
    if perTrace == 0 then [] else InOrder(traces, perTrace - 1) + Identity(traces)
  }

  /** Shuffled: item `x` of the order is delivered to trace x / perTrace. */
  function Shuffling(order: seq<int>, perTrace: nat): (r: seq<int>)
    requires perTrace > 0
    ensures |r| == |order| && forall i :: 0 <= i < |order| ==> r[i] == order[i] / perTrace
  {
    seq(|order|, i requires 0 <= i < |order| => order[i] / perTrace)
  }

  lemma {:induction false} DeliveriesConcat(a: seq<int>, b: seq<int>, k: nat)
    ensures Deliveries(a + b, k) == Deliveries(a, k) + Deliveries(b, k)
  {
    if b == [] {
      assert a + b == a;
    } else {
      DeliveriesConcat(a, b[..|b| - 1], k);
      assert (a + b)[..|a + b| - 1] == a + b[..|b| - 1];
    }
  }

  lemma {:induction false} DeliveriesOfRound(traces: nat, k: nat)
    ensures Deliveries(Identity(traces), k) == if k < traces then 1 else 0
  {
    if traces > 0 {
      DeliveriesOfRound(traces - 1, k);
      assert Identity(traces)[..traces - 1] == Identity(traces - 1);
    }
  }

  lemma {:induction false} InOrderDeliveries(traces: nat, perTrace: nat, k: nat)
    ensures Deliveries(InOrder(traces, perTrace), k) == if k < traces then perTrace else 0
  {
    if perTrace > 0 {
      InOrderDeliveries(traces, perTrace - 1, k);
      DeliveriesConcat(InOrder(traces, perTrace - 1), Identity(traces), k);
      DeliveriesOfRound(traces, k);
    }
  }

  /** The items that belong to trace `k`. */
  function ItemsOf(items: set<int>, perTrace: nat, k: nat): set<int>
    requires perTrace > 0
  {
    set x <- items | x / perTrace == k
  }

  lemma DistinctSnoc(front: seq<int>, x: int)
    requires Distinct(front + [x])
    ensures Distinct(front) && x !in Elements(front) && Elements(front + [x]) == Elements(front) + {x}
  {
    var s := front + [x];
    assert s[|front|] == x && forall i :: 0 <= i < |front| ==> s[i] == front[i];
  }

  lemma ItemsAdd(items: set<int>, x: int, perTrace: nat, k: nat)
    requires perTrace > 0 && x !in items
    ensures |ItemsOf(items + {x}, perTrace, k)|
         == |ItemsOf(items, perTrace, k)| + if x / perTrace == k then 1 else 0
  {
    var q, before := x / perTrace, ItemsOf(items, perTrace, k);
    assert ItemsOf(items + {x}, perTrace, k) == if q == k then before + {x} else before;
  }

  lemma {:induction false} DeliveriesAreItems(order: seq<int>, perTrace: nat, k: nat)
    requires perTrace > 0 && Distinct(order)
    ensures Deliveries(Shuffling(order, perTrace), k) == |ItemsOf(Elements(order), perTrace, k)|
  {
    if order != [] {
      hide Distinct, Elements, ItemsOf;
      var front, x := order[..|order| - 1], order[|order| - 1];
      assert order == front + [x];
      DistinctSnoc(front, x);
      DeliveriesAreItems(front, perTrace, k);
      ItemsAdd(Elements(front), x, perTrace, k);
      assert Shuffling(order, perTrace)[..|order| - 1] == Shuffling(front, perTrace);
    } else {
      assert Shuffling(order, perTrace) == [];
    }
  }

  /** The integers from `lo` up to, not including, lo + n. */
  function Range(lo: int, n: nat): (r: set<int>)
    ensures |r| == n
    ensures forall x :: x in r <==> lo <= x < lo + n
  {
    if n == 0 then {} else Range(lo, n - 1) + {lo + n - 1}
  }

  lemma QuotientRange(x: int, perTrace: nat, k: nat)
    requires perTrace > 0
    ensures x / perTrace == k <==> x in Range(k * perTrace, perTrace)
  {
    var q, r := x / perTrace, x % perTrace;
    assert x == q * perTrace + r && 0 <= r < perTrace;
    if q > k {
      Bytes.MulOrder(k, q, perTrace);
    } else if q < k {
      Bytes.MulOrder(q, k, perTrace);
    }
  }

  /** Among the first `n` items, trace `k` has one whole range of them. */
  lemma ItemsAreRange(n: nat, perTrace: nat, k: nat)
    requires perTrace > 0 && k * perTrace + perTrace <= n
    ensures |ItemsOf(Elements(Identity(n)), perTrace, k)| == perTrace
  {
    hide Identity, Elements, ItemsOf, Range;
    var items, range := Elements(Identity(n)), Range(k * perTrace, perTrace);
    assert k * perTrace >= 0;
    forall x ensures x in ItemsOf(items, perTrace, k) <==> x in range {
      QuotientRange(x, perTrace, k);
      IsItem(n, x);
      InItemsOf(items, perTrace, k, x);
    }
    assert ItemsOf(items, perTrace, k) == range;
  }

  lemma IsItem(n: nat, x: int)
    ensures x in Elements(Identity(n)) <==> 0 <= x < n
  {
    if 0 <= x < n { assert Identity(n)[x] == x; }
  }

  lemma InItemsOf(items: set<int>, perTrace: nat, k: nat, x: int)
    requires perTrace > 0
    ensures x in ItemsOf(items, perTrace, k) <==> x in items && x / perTrace == k
  {
  }

  /** Shuffled delivery gives every trace exactly as many deliveries as in-order delivery, whatever the random
      source answers. */
  lemma ShuffleConservesDeliveries(traces: nat, perTrace: nat, draws: seq<nat>, k: nat)
    requires perTrace > 0 && k < traces
    requires var n := traces * perTrace; n > 1 ==> |draws| == n - 1 && ValidDraws(draws)
    ensures Deliveries(Shuffling(Order(traces * perTrace, draws), perTrace), k)
         == Deliveries(InOrder(traces, perTrace), k) == perTrace
  {
    hide Deliveries, InOrder, ItemsOf, Identity, Elements, Distinct, ValidDraws, Order;
    var n := traces * perTrace;
    Bytes.MulOrder(k, traces, perTrace);
    assert k * perTrace >= 0;
    ItemsAreRange(n, perTrace, k);
    InOrderDeliveries(traces, perTrace, k);
    OrderIsPermutation(n, draws);
    DeliveriesAreItems(Order(n, draws), perTrace, k);
  }

  lemma OrderIsPermutation(n: nat, draws: seq<nat>)
    requires n >= 1 && (n > 1 ==> |draws| == n - 1 && ValidDraws(draws))
    ensures Distinct(Order(n, draws)) && Elements(Order(n, draws)) == Elements(Identity(n))
  {
    hide Order, Distinct, Elements;
    PermuteIsPermutationIff(n, draws);
  }
}
