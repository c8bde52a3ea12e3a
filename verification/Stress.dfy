/** The long-term stress simulator (pkg/stress/stress.go). Crash, partition and byzantine rolls are arbitrary
    functions of the tick. */
module Stress {
  import opened Bytes

  datatype StressEvent = StressEvent(seqNo: nat, eventHash: bytes, prevHash: bytes, byzantine: bool)

  class Node {
    var events: seq<StressEvent>
    var crashed: bool

    constructor ()
      ensures events == [] && !crashed
    {
      events, crashed := [], false;
    }
  }

  /** The rolls of one run, indexed by tick, and the text of an event hash. */
  datatype Rolls = Rolls(crash: nat -> bool, partition: nat -> bool, byzantine: nat -> bool, hashText: nat -> bytes)

  datatype Violated = NoSplitBrain(at: nat) | ReplayEquiv(at: nat) | Convergence(at: nat)

  // ---------------------------------------------------------------- the three checks

  /** Strictly more events than every other node of the list. */
  ghost predicate Leads(nodes: seq<Node>, x: Node)
    reads nodes, x
  {
    forall y <- nodes :: y != x ==> |y.events| < |x.events|
  }

  ghost predicate AtMostOneLeader(nodes: seq<Node>)
    reads nodes
  {
    forall i, j :: 0 <= i < j < |nodes| && Leads(nodes, nodes[i]) ==> !Leads(nodes, nodes[j])
  }

  /** CheckNoSplitBrain counts the positions that hold a leading node. */
  method CheckNoSplitBrain(nodes: seq<Node>) returns (ok: bool)
    ensures ok <==> AtMostOneLeader(nodes)
  {
    if |nodes| == 0 {
      return true;
    }
    var leaders := 0;
    ghost var first, second := 0, 0;
    for n := 0 to |nodes|
      invariant leaders >= 0 && 0 <= first && 0 <= second
      invariant leaders == 0 ==> forall i :: 0 <= i < n ==> !Leads(nodes, nodes[i])
      invariant leaders == 1 ==> first < n && Leads(nodes, nodes[first])
      invariant leaders == 1 ==> forall i :: 0 <= i < n && Leads(nodes, nodes[i]) ==> i == first
      invariant leaders > 1 ==> first < second < n && Leads(nodes, nodes[first]) && Leads(nodes, nodes[second])
    {
      var isLeader := true;
      var m := 0;
      while m < |nodes|
        invariant 0 <= m <= |nodes|
        invariant isLeader ==> forall y <- nodes[..m] :: y != nodes[n] ==> |y.events| < |nodes[n].events|
        invariant !isLeader ==> !Leads(nodes, nodes[n])
      {
        if nodes[n] != nodes[m] && |nodes[m].events| >= |nodes[n].events| {
          isLeader := false;
          break;
        }
        m := m + 1;
      }
      if isLeader {
        if leaders == 0 { first := n; } else if leaders == 1 { second := n; }
        leaders := leaders + 1;
      }
    }
    ok := leaders <= 1;
  }

  ghost predicate DistinctNodes(nodes: seq<Node>) {
    forall i, j :: 0 <= i < j < |nodes| ==> nodes[i] != nodes[j]
  }

  /** The split-brain check fails only when the list names one leading node twice; on distinct nodes it cannot
      fail, whatever they hold. */
  lemma SplitBrainFailsIff(nodes: seq<Node>)
    ensures !AtMostOneLeader(nodes)
       <==> exists i, j :: 0 <= i < j < |nodes| && nodes[i] == nodes[j] && Leads(nodes, nodes[i])
  {
    forall i, j | 0 <= i < j < |nodes| && Leads(nodes, nodes[i])
      ensures Leads(nodes, nodes[j]) <==> nodes[i] == nodes[j]
    {
      assert nodes[i] != nodes[j] ==> |nodes[j].events| < |nodes[i].events|;
    }
  }

  ghost predicate SameHashes(a: Node, b: Node)
    reads a, b
  {
    |a.events| == |b.events| && forall k :: 0 <= k < |a.events| ==> a.events[k].eventHash == b.events[k].eventHash
  }

  ghost predicate Counts(n: Node)
    reads n
  {
    !n.crashed && n.events != []
  }

  ghost predicate Equivalent(nodes: seq<Node>)
    reads nodes
  {
    forall a, b :: a in nodes && b in nodes && Counts(a) && Counts(b) ==> SameHashes(a, b)
  }

  /** Two live histories that differ in length or in any hash are not equivalent. */
  lemma DivergenceIsSeen(nodes: seq<Node>, a: Node, b: Node)
    requires a in nodes && b in nodes && !a.crashed && !b.crashed && a.events != [] && b.events != []
    requires |a.events| != |b.events|
      || exists k :: 0 <= k < |a.events| && a.events[k].eventHash != b.events[k].eventHash
    ensures !Equivalent(nodes)
  {
    assert !SameHashes(a, b);
  }

  /** CheckReplayEquivalence: all live nodes that hold events hold the same hashes. */
  method CheckReplayEquivalence(nodes: seq<Node>) returns (ok: bool)
    ensures ok <==> Equivalent(nodes)
  {
    var live: seq<Node> := [];
    for n := 0 to |nodes|
      invariant forall x :: x in live <==> x in nodes[..n] && Counts(x)
    {
      assert nodes[..n + 1] == nodes[..n] + [nodes[n]];
      if !nodes[n].crashed && |nodes[n].events| > 0 {
        live := live + [nodes[n]];
      }
    }
    assert nodes[..|nodes|] == nodes;
    if |live| < 2 {
      forall a, b | a in nodes && b in nodes && Counts(a) && Counts(b) ensures SameHashes(a, b) {
        assert a in live && b in live;
      }
      return true;
    }
    var ref := live[0];
    for n := 1 to |live|
      invariant forall k :: 0 <= k < n ==> SameHashes(live[k], ref)
    {
      var node := live[n];
      if |node.events| != |ref.events| {
        assert !SameHashes(node, ref) && node in live && ref in live;
        return false;
      }
      for i := 0 to |node.events|
        invariant forall k :: 0 <= k < i ==> node.events[k].eventHash == ref.events[k].eventHash
      {
        if node.events[i].eventHash != ref.events[i].eventHash {
          assert !SameHashes(node, ref) && node in live && ref in live;
          return false;
        }
      }
    }
    ok := true;
  }

  /** How often number `q` occurs in one history, and in all live histories. */
  function Occurrences(es: seq<StressEvent>, q: nat): nat {
    if es == [] then 0 else Occurrences(es[..|es| - 1], q) + if es[|es| - 1].seqNo == q then 1 else 0
  }

  function LiveOccurrences(nodes: seq<Node>, q: nat): nat
    reads nodes
  {
    if nodes == [] then 0
    else
      var last := nodes[|nodes| - 1];
      LiveOccurrences(nodes[..|nodes| - 1], q) + if last.crashed then 0 else Occurrences(last.events, q)
  }

  function LiveCount(nodes: seq<Node>): nat
    reads nodes
  {
    if nodes == [] then 0
    else LiveCount(nodes[..|nodes| - 1]) + if nodes[|nodes| - 1].crashed then 0 else 1
  }

  /** The positions at which number `q` occurs in one history. */
  ghost function Positions(es: seq<StressEvent>, q: nat): set<nat> {
    set j: nat | j < |es| && es[j].seqNo == q
  }

  lemma {:induction false} OccurrencesCount(es: seq<StressEvent>, q: nat)
    ensures Occurrences(es, q) == |Positions(es, q)|
  {
    if es != [] {
      var front, n := es[..|es| - 1], |es| - 1;
      OccurrencesCount(front, q);
      assert Positions(es, q) == Positions(front, q) + if es[n].seqNo == q then {n} else {};
    } else {
      assert Positions(es, q) == {};
    }
  }

  /** The places (node, position) at which live nodes hold number `q`, and the live nodes. */
  ghost function LivePlaces(nodes: seq<Node>, q: nat): set<(nat, nat)>
    reads nodes
  {
    set i: nat, j: nat | i < |nodes| && j in Positions(nodes[i].events, q) && !nodes[i].crashed :: (i, j)
  }

  ghost function LiveNodes(nodes: seq<Node>): set<nat>
    reads nodes
  {
    set i: nat | i < |nodes| && !nodes[i].crashed
  }

  ghost function Pairs(n: nat, s: set<nat>): set<(nat, nat)> {
    set j | j in s :: (n, j)
  }

  lemma {:induction false} PairsCount(n: nat, s: set<nat>)
    ensures |Pairs(n, s)| == |s|
  {
    if s != {} {
      var x :| x in s;
      PairsCount(n, s - {x});
      assert Pairs(n, s) == Pairs(n, s - {x}) + {(n, x)};
      assert (n, x) !in Pairs(n, s - {x});
    } else {
      assert Pairs(n, s) == {};
    }
  }

  lemma LivePlacesSnoc(nodes: seq<Node>, q: nat)
    requires nodes != []
    ensures var n := |nodes| - 1;
      var here := if nodes[n].crashed then {} else Pairs(n, Positions(nodes[n].events, q));
      LivePlaces(nodes, q) == LivePlaces(nodes[..n], q) + here && LivePlaces(nodes[..n], q) !! here
  {
    hide Positions;
  }

  lemma LiveNodesSnoc(nodes: seq<Node>)
    requires nodes != []
    ensures var n := |nodes| - 1;
      LiveNodes(nodes) == LiveNodes(nodes[..n]) + (if nodes[n].crashed then {} else {n}) && n !in LiveNodes(nodes[..n])
  {
  }

  /** The counting functions count what their names say. */
  lemma {:induction false} LiveCountsAre(nodes: seq<Node>, q: nat)
    ensures LiveOccurrences(nodes, q) == |LivePlaces(nodes, q)| && LiveCount(nodes) == |LiveNodes(nodes)|
  {
    if nodes != [] {
      var n := |nodes| - 1;
      LivePlacesSnoc(nodes, q);
      LiveNodesSnoc(nodes);
      LiveCountsAre(nodes[..n], q);
      OccurrencesCount(nodes[n].events, q);
      PairsCount(n, Positions(nodes[n].events, q));
      hide Positions, LivePlaces, LiveNodes, Pairs;
      if nodes[n].crashed {
        assert LivePlaces(nodes, q) == LivePlaces(nodes[..n], q);
      }
    } else {
      assert LivePlaces(nodes, q) == {} && LiveNodes(nodes) == {};
    }
  }

  ghost predicate Converged(nodes: seq<Node>)
    reads nodes
  {
    forall q: nat :: LiveOccurrences(nodes, q) in {0, LiveCount(nodes)}
  }

  /** CheckConvergence: every number any live node holds is held, in total, as often as there are live nodes. */
  method CheckConvergence(nodes: seq<Node>) returns (ok: bool)
    ensures ok <==> Converged(nodes)
  {
    var eventCounts := CountEvents(nodes);
    var todo := eventCounts.Keys;
    while todo != {}
      invariant todo <= eventCounts.Keys
      invariant forall q :: q in eventCounts && q !in todo ==> eventCounts[q] == LiveCount(nodes)
      decreases |todo|
    {
      var q :| q in todo;
      todo := todo - {q};
      var count := eventCounts[q];
      var liveNodes := 0;
      for n := 0 to |nodes|
        invariant liveNodes == LiveCount(nodes[..n])
      {
        assert nodes[..n + 1][..n] == nodes[..n];
        if !nodes[n].crashed {
          liveNodes := liveNodes + 1;
        }
      }
      assert nodes[..|nodes|] == nodes;
      if count != liveNodes && count > 0 {
        assert LiveOccurrences(nodes, q) !in {0, LiveCount(nodes)};
        return false;
      }
    }
    ok := true;
  }

  /** The counting loops of CheckConvergence. */
  method CountEvents(nodes: seq<Node>) returns (counts: map<nat, nat>)
    ensures forall q: nat :: q in counts <==> LiveOccurrences(nodes, q) > 0
    ensures forall q <- counts :: counts[q] == LiveOccurrences(nodes, q)
  {
    counts := map[];
    for n := 0 to |nodes|
      invariant forall q: nat :: q in counts <==> LiveOccurrences(nodes[..n], q) > 0
      invariant forall q <- counts :: counts[q] == LiveOccurrences(nodes[..n], q)
    {
      assert nodes[..n + 1][..n] == nodes[..n];
      if !nodes[n].crashed {
        var es := nodes[n].events;
        ghost var base := counts;
        for i := 0 to |es|
          invariant forall q: nat :: q in counts <==> q in base || Occurrences(es[..i], q) > 0
          invariant forall q <- counts :: counts[q] == (if q in base then base[q] else 0) + Occurrences(es[..i], q)
        {
          assert es[..i + 1][..i] == es[..i];
          var q := es[i].seqNo;
          counts := counts[q := (if q in counts then counts[q] else 0) + 1];
        }
        assert es[..|es|] == es;
      }
    }
    assert nodes[..|nodes|] == nodes;
  }

  // ---------------------------------------------------------------- the invariant of a run

  /** Numbers strictly increase, so none repeats. */
  ghost predicate Increasing(es: seq<StressEvent>) {
    forall i, j :: 0 <= i < j < |es| ==> es[i].seqNo < es[j].seqNo
  }

  /** Live nodes hold exactly `history`, crashed nodes a prefix of it. */
  ghost predicate InStep(nodes: seq<Node>, history: seq<StressEvent>)
    reads nodes
  {
    forall n <- nodes :: n.events <= history && (!n.crashed ==> n.events == history)
  }

  lemma {:induction false} IncreasingOccurrences(es: seq<StressEvent>, q: nat)
    requires Increasing(es)
    ensures Occurrences(es, q) <= 1
    ensures Occurrences(es, q) == 1 <==> exists i :: 0 <= i < |es| && es[i].seqNo == q
  {
    if es != [] {
      var front := es[..|es| - 1];
      IncreasingOccurrences(front, q);
      assert forall i :: 0 <= i < |front| ==> front[i] == es[i];
    }
  }

  lemma {:induction false} LiveOccurrencesInStep(nodes: seq<Node>, history: seq<StressEvent>, q: nat)
    requires InStep(nodes, history) && Occurrences(history, q) <= 1
    ensures LiveOccurrences(nodes, q) == if Occurrences(history, q) == 1 then LiveCount(nodes) else 0
  {
    if nodes != [] {
      LiveOccurrencesInStep(nodes[..|nodes| - 1], history, q);
      assert nodes[|nodes| - 1] in nodes;
    }
  }

  /** A network in step passes all three checks. */
  lemma InStepPasses(nodes: seq<Node>, history: seq<StressEvent>)
    requires DistinctNodes(nodes) && InStep(nodes, history) && Increasing(history)
    ensures AtMostOneLeader(nodes) && Equivalent(nodes) && Converged(nodes)
  {
    SplitBrainFailsIff(nodes);
    forall q: nat ensures LiveOccurrences(nodes, q) in {0, LiveCount(nodes)} {
      IncreasingOccurrences(history, q);
      LiveOccurrencesInStep(nodes, history, q);
    }
  }

  class Network {
    const nodes: seq<Node>
    var partitionActive: bool

    /** NewByzantineNetwork. */
    constructor (n: nat)
      ensures |nodes| == n && DistinctNodes(nodes) && fresh(set x <- nodes)
      ensures forall x <- nodes :: x.events == [] && !x.crashed
      ensures !partitionActive
    {
      var made: seq<Node> := [];
      for i := 0 to n
        invariant |made| == i && DistinctNodes(made)
        invariant fresh(set x <- made) && forall x <- made :: x.events == [] && !x.crashed
      {
        var x := new Node();
        made := made + [x];
      }
      nodes := made;
      partitionActive := false;
    }

    /** Broadcast: every live node appends the event. */
    method Broadcast(e: StressEvent)
      requires DistinctNodes(nodes)
      modifies nodes
      ensures forall n <- nodes :: n.crashed == old(n.crashed)
      ensures forall n <- nodes :: n.events == if n.crashed then old(n.events) else old(n.events) + [e]
    {
      for i := 0 to |nodes|
        invariant forall n <- nodes :: n.crashed == old(n.crashed)
        invariant forall k :: 0 <= k < i ==>
          nodes[k].events == if nodes[k].crashed then old(nodes[k].events) else old(nodes[k].events) + [e]
        invariant forall k :: i <= k < |nodes| ==> nodes[k].events == old(nodes[k].events)
      {
        if !nodes[i].crashed {
          nodes[i].events := nodes[i].events + [e];
        }
      }
    }

    /** Crash injection: the first live node of the list stops, if there is one. */
    method CrashOne() returns (ghost first: nat)
      requires DistinctNodes(nodes)
      modifies nodes
      ensures first <= |nodes| && forall j :: 0 <= j < first ==> old(nodes[j].crashed)
      ensures first < |nodes| ==> !old(nodes[first].crashed)
      ensures forall k :: 0 <= k < |nodes| ==> (nodes[k].crashed <==> old(nodes[k].crashed) || k == first)
      ensures forall n <- nodes :: n.events == old(n.events)
    {
      for i := 0 to |nodes|
        invariant forall j :: 0 <= j < i ==> old(nodes[j].crashed)
        invariant forall n <- nodes :: n.events == old(n.events) && n.crashed == old(n.crashed)
      {
        if !nodes[i].crashed {
          nodes[i].crashed := true;
          return i;
        }
      }
      first := |nodes|;
    }
  }

  // ---------------------------------------------------------------- what every node holds

  /** Crash rolls among the first `t` ticks: crashed nodes never restart, so this many nodes are down. */
  function Down(rolls: Rolls, t: nat): nat {
    if t == 0 then 0 else Down(rolls, t - 1) + if rolls.crash(t - 1) then 1 else 0
  }

  function EventAt(rolls: Rolls, i: nat): StressEvent {
    StressEvent(i, rolls.hashText(i), if i == 0 then [] else rolls.hashText(i - 1), rolls.byzantine(i))
  }

  /** What node `k` holds after `t` ticks: every event sent while it was up and no partition was active. */
  function Held(rolls: Rolls, k: nat, t: nat): seq<StressEvent> {
    if t == 0 then []
    else Held(rolls, k, t - 1) + if rolls.partition(t - 1) || k < Down(rolls, t) then [] else [EventAt(rolls, t - 1)]
  }

  /** Every event sent without a partition. */
  function History(rolls: Rolls, t: nat): seq<StressEvent> {
    if t == 0 then [] else History(rolls, t - 1) + if rolls.partition(t - 1) then [] else [EventAt(rolls, t - 1)]
  }

  lemma {:induction false} HeldIsPrefix(rolls: Rolls, k: nat, t: nat)
    ensures Held(rolls, k, t) <= History(rolls, t)
    ensures k >= Down(rolls, t) ==> Held(rolls, k, t) == History(rolls, t)
    ensures Increasing(History(rolls, t)) && forall e <- History(rolls, t) :: e.seqNo < t
  {
    if t > 0 {
      HeldIsPrefix(rolls, k, t - 1);
    }
  }

  /** The ticks below `t` at which a node crashes. */
  ghost function CrashTicks(rolls: Rolls, t: nat): set<nat> {
    set i: nat | i < t && rolls.crash(i)
  }

  /** One node is down for every tick at which the crash roll came up. */
  lemma {:induction false} DownCounts(rolls: Rolls, t: nat)
    ensures Down(rolls, t) == |CrashTicks(rolls, t)|
  {
    if t > 0 {
      DownCounts(rolls, t - 1);
      assert CrashTicks(rolls, t) == CrashTicks(rolls, t - 1) + if rolls.crash(t - 1) then {t - 1} else {};
    } else {
      assert CrashTicks(rolls, 0) == {};
    }
  }

  /** Node `k` gets the event of tick `q`: no partition then, and at most `k` crashes up to and including it. */
  ghost predicate Receives(rolls: Rolls, k: nat, q: nat) {
    !rolls.partition(q) && |CrashTicks(rolls, q + 1)| <= k
  }

  /** An event of a tick below `t` at which the node receives one: its tick is its number, it carries its own hash text
      and that of the tick before, and the byzantine roll. */
  ghost predicate GotAt(rolls: Rolls, k: nat, t: nat, e: StressEvent) {
    && e.seqNo < t && Receives(rolls, k, e.seqNo)
    && e.eventHash == rolls.hashText(e.seqNo) && e.byzantine == rolls.byzantine(e.seqNo)
    && e.prevHash == if e.seqNo == 0 then [] else rolls.hashText(e.seqNo - 1)
  }

  ghost predicate AllGot(rolls: Rolls, k: nat, t: nat, es: seq<StressEvent>) {
    forall e <- es :: GotAt(rolls, k, t, e)
  }

  ghost predicate HasNumber(es: seq<StressEvent>, q: nat) {
    exists e <- es :: e.seqNo == q
  }

  ghost predicate NoneMissed(rolls: Rolls, k: nat, t: nat, es: seq<StressEvent>) {
    forall q: nat :: q < t && Receives(rolls, k, q) ==> HasNumber(es, q)
  }

  lemma GotOneMore(rolls: Rolls, k: nat, t: nat, es: seq<StressEvent>)
    requires AllGot(rolls, k, t, es)
    ensures AllGot(rolls, k, t + 1, es)
    ensures Receives(rolls, k, t) ==> AllGot(rolls, k, t + 1, es + [EventAt(rolls, t)])
  {
    hide Receives;
  }

  lemma NoneMissedOneMore(rolls: Rolls, k: nat, t: nat, es: seq<StressEvent>)
    requires NoneMissed(rolls, k, t, es)
    ensures !Receives(rolls, k, t) ==> NoneMissed(rolls, k, t + 1, es)
    ensures NoneMissed(rolls, k, t + 1, es + [EventAt(rolls, t)])
  {
    hide Receives;
    var more := es + [EventAt(rolls, t)];
    forall q: nat | q < t + 1 && Receives(rolls, k, q) ensures HasNumber(more, q) {
      if q < t {
        var e :| e in es && e.seqNo == q;
        assert e in more;
      } else {
        assert EventAt(rolls, t) in more;
      }
    }
  }

  lemma IncreasingOneMore(rolls: Rolls, k: nat, t: nat, es: seq<StressEvent>)
    requires AllGot(rolls, k, t, es) && Increasing(es)
    ensures Increasing(es + [EventAt(rolls, t)])
  {
    hide Receives;
    assert forall i :: 0 <= i < |es| ==> GotAt(rolls, k, t, es[i]);
  }

  /** What every node holds: the events of exactly the ticks at which it receives one, in order. */
  lemma {:induction false} HeldExactly(rolls: Rolls, k: nat, t: nat)
    ensures AllGot(rolls, k, t, Held(rolls, k, t)) && NoneMissed(rolls, k, t, Held(rolls, k, t))
    ensures Increasing(Held(rolls, k, t))
  {
    NothingHeld(rolls, k);
    HeldStep(rolls, k, t);
    hide Receives, AllGot, NoneMissed, Increasing, Held, EventAt;
    if t > 0 {
      HeldExactly(rolls, k, t - 1);
      var before := Held(rolls, k, t - 1);
      GotOneMore(rolls, k, t - 1, before);
      NoneMissedOneMore(rolls, k, t - 1, before);
      IncreasingOneMore(rolls, k, t - 1, before);
    }
  }

  lemma NothingHeld(rolls: Rolls, k: nat)
    ensures Held(rolls, k, 0) == []
    ensures AllGot(rolls, k, 0, []) && NoneMissed(rolls, k, 0, []) && Increasing([])
  {
  }

  lemma HeldStep(rolls: Rolls, k: nat, t: nat)
    ensures t > 0 ==>
      var before := Held(rolls, k, t - 1);
      Held(rolls, k, t) == if Receives(rolls, k, t - 1) then before + [EventAt(rolls, t - 1)] else before
  {
    hide Receives, EventAt;
    if t > 0 {
      ReceivesIff(rolls, k, t - 1);
      var before := Held(rolls, k, t - 1);
      assert before + [] == before;
    }
  }

  lemma ReceivesIff(rolls: Rolls, k: nat, q: nat)
    ensures Receives(rolls, k, q) <==> !rolls.partition(q) && Down(rolls, q + 1) <= k
  {
    DownCounts(rolls, q + 1);
  }

  ghost predicate AfterTicks(nodes: seq<Node>, rolls: Rolls, t: nat)
    reads nodes
  {
    forall k :: 0 <= k < |nodes| ==> nodes[k].events == Held(rolls, k, t) && (nodes[k].crashed <==> k < Down(rolls, t))
  }

  lemma NothingHeldAtStart(nodes: seq<Node>, rolls: Rolls)
    requires forall x <- nodes :: x.events == [] && !x.crashed
    ensures AfterTicks(nodes, rolls, 0)
  {
  }

  lemma AfterTicksInStep(nodes: seq<Node>, rolls: Rolls, t: nat)
    requires AfterTicks(nodes, rolls, t)
    ensures InStep(nodes, History(rolls, t)) && Increasing(History(rolls, t))
  {
    HeldIsPrefix(rolls, 0, t);
    forall n | n in nodes ensures n.events <= History(rolls, t) && (!n.crashed ==> n.events == History(rolls, t)) {
      var k :| 0 <= k < |nodes| && nodes[k] == n;
      HeldIsPrefix(rolls, k, t);
    }
  }

  /** One cycle of the simulation up to the checks: crash roll, partition roll, then the broadcast. */
  method Cycle(network: Network, i: nat, rolls: Rolls)
    requires DistinctNodes(network.nodes) && AfterTicks(network.nodes, rolls, i)
    modifies network, network.nodes
    ensures AfterTicks(network.nodes, rolls, i + 1)
  {
    hide Increasing;
    if rolls.crash(i) {
      ghost var down := Down(rolls, i);
      assert down < |network.nodes| ==> !network.nodes[down].crashed;
      ghost var first := network.CrashOne();
      assert first == if down < |network.nodes| then down else |network.nodes|;
    }
    network.partitionActive := rolls.partition(i);
    var e := StressEvent(i, rolls.hashText(i), if i == 0 then [] else rolls.hashText(i - 1), rolls.byzantine(i));
    if !network.partitionActive {
      network.Broadcast(e);
    }
  }

  /** The invariant checks at the end of a cycle: the first violated one is reported. */
  method Inspect(nodes: seq<Node>, at: nat) returns (err: Option<Violated>)
    ensures err.None? <==> AtMostOneLeader(nodes) && Equivalent(nodes) && Converged(nodes)
  {
    hide AtMostOneLeader, Equivalent, Converged;
    var ok := CheckNoSplitBrain(nodes);
    if !ok {
      return Some(NoSplitBrain(at));
    }
    ok := CheckReplayEquivalence(nodes);
    if !ok {
      return Some(ReplayEquiv(at));
    }
    ok := CheckConvergence(nodes);
    if !ok {
      return Some(Convergence(at));
    }
    err := None;
  }

  /** RunLongTerm reports no violation, for any number of nodes and events and any rolls; `net` is the network it
      leaves behind, node by node. */
  method RunLongTerm(nodeCount: nat, eventCount: int, rolls: Rolls) returns (err: Option<Violated>, ghost net: Network)
    ensures err == None
    ensures |net.nodes| == nodeCount && AfterTicks(net.nodes, rolls, if eventCount < 0 then 0 else eventCount)
  {
    hide AtMostOneLeader, Equivalent, Converged, Increasing, Held, Down, History;
    var network := new Network(nodeCount);
    net := network;
    NothingHeldAtStart(network.nodes, rolls);
    var ticks := if eventCount < 0 then 0 else eventCount;
    for i := 0 to ticks
      invariant fresh(network) && fresh(set n <- network.nodes) && DistinctNodes(network.nodes)
      invariant AfterTicks(network.nodes, rolls, i)
    {
      Cycle(network, i, rolls);
      AfterTicksInStep(network.nodes, rolls, i + 1);
      InStepPasses(network.nodes, History(rolls, i + 1));
      err := Inspect(network.nodes, i);
      if err.Some? {
        return;
      }
    }
    err := None;
  }
}
