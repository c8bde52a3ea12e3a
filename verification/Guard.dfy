/** The runtime invariant guard (pkg/invariant/guard.go). A panic is a returned violation. */
module Guard {
  import opened Bytes
  import opened Traces
  import opened EventStore

  /** An event as the guard sees it: a stored event with its clock tick. */
  datatype GuardEvent = GuardEvent(core: Event, tick: uint64)

  datatype Violation = INV1 | INV2 | INV3 | INV4 | INV5

  /** CheckEvent: the invariant that panics, if any, for `e` after `prev` of the same trace. */
  function CheckEvent(e: GuardEvent, prev: Option<GuardEvent>): Option<Violation> {
    if e.core.seqNo < 1 then Some(INV4)
    else if prev.Some? && e.core.seqNo != Succ(prev.value.core.seqNo) then Some(INV2)
    else if prev.Some? && e.core.prevHash != prev.value.core.eventHash then Some(INV1)
    else if prev.Some? && e.tick < prev.value.tick then Some(INV3)
    else if prev.None? && e.core.prevHash != [] then Some(INV1)
    else if e.core.eventHash == [] then Some(INV5)
    else None
  }

  /** Which invariant is reported: the first one broken, in the order number, succession, hash chain, tick, hash. */
  lemma CheckEventVerdict(e: GuardEvent, prev: Option<GuardEvent>)
    ensures var v := CheckEvent(e, prev);
      var numbered := e.core.seqNo > 0;
      var next := prev.Some? ==> e.core.seqNo == (prev.value.core.seqNo + 1) % U64;
      var linked := e.core.prevHash == if prev.Some? then prev.value.core.eventHash else [];
      var onTime := prev.Some? ==> e.tick >= prev.value.tick;
      && (v == Some(INV4) <==> !numbered)
      && (v == Some(INV2) <==> numbered && !next)
      && (v == Some(INV1) <==> numbered && next && !linked)
      && (v == Some(INV3) <==> numbered && next && linked && !onTime)
      && (v == Some(INV5) <==> numbered && next && linked && onTime && e.core.eventHash == [])
  {
  }

  /** Numbers strictly increase within every trace. */
  ghost predicate Monotonic(events: seq<Event>) {
    forall i, j :: 0 <= i < j < |events| && events[i].traceId == events[j].traceId ==> events[i].seqNo < events[j].seqNo
  }

  /** Each event carries the hash of the one before it. */
  ghost predicate HashLinked(events: seq<Event>) {
    forall i :: 1 <= i < |events| ==> HashLinkedAt(events, i)
  }

  ghost predicate HashLinkedAt(events: seq<Event>, i: nat)
    requires 1 <= i < |events|
  {
    events[i].prevHash == events[i - 1].eventHash
  }

  /** `latest` maps each trace to the position of its last event among the first `n`. */
  ghost predicate Latest(events: seq<Event>, n: nat, latest: map<bytes, nat>)
    requires n <= |events|
  {
    && (forall t <- latest :: latest[t] < n && events[latest[t]].traceId == t)
    && (forall i :: 0 <= i < n ==> events[i].traceId in latest && i <= latest[events[i].traceId])
  }

  /** CheckSeqMonotonic: panics unless the list is monotonic. */
  method CheckSeqMonotonic(events: seq<Event>) returns (v: Option<Violation>)
    ensures v == if Monotonic(events) then None else Some(INV2)
  {
    if |events| < 2 {
      return None;
    }
    var byTrace: map<bytes, uint64> := map[];
    ghost var latest: map<bytes, nat> := map[];
    for n := 0 to |events|
      invariant byTrace.Keys == latest.Keys && Latest(events, n, latest)
      invariant forall t <- latest :: latest[t] < |events| && byTrace[t] == events[latest[t]].seqNo
      invariant Monotonic(events[..n])
    {
      var e := events[n];
      if e.traceId in byTrace && e.seqNo <= byTrace[e.traceId] {
        assert events[latest[e.traceId]].seqNo >= events[n].seqNo;
        return Some(INV2);
      }
      hide Monotonic, Latest;
      MonotonicSnoc(events, n, latest);
      LatestSnoc(events, n, latest);
      byTrace, latest := byTrace[e.traceId := e.seqNo], latest[e.traceId := n];
    }
    assert events[..|events|] == events;
    v := None;
  }

  lemma LatestSnoc(events: seq<Event>, n: nat, latest: map<bytes, nat>)
    requires n < |events| && Latest(events, n, latest)
    ensures var latest' := latest[events[n].traceId := n];
      && Latest(events, n + 1, latest')
      && forall t <- latest :: t != events[n].traceId ==> latest'[t] == latest[t] < |events|
  {
  }

  lemma MonotonicSnoc(events: seq<Event>, n: nat, latest: map<bytes, nat>)
    requires n < |events| && Latest(events, n, latest) && Monotonic(events[..n])
    requires var t := events[n].traceId; t in latest ==> events[latest[t]].seqNo < events[n].seqNo
    ensures Monotonic(events[..n + 1])
  {
    var es, t := events[..n + 1], events[n].traceId;
    forall i | 0 <= i < n && es[i].traceId == t ensures es[i].seqNo < es[n].seqNo {
      if i < latest[t] {
        assert events[..n][i].seqNo < events[..n][latest[t]].seqNo;
      }
    }
    forall i, j | 0 <= i < j < n && es[i].traceId == es[j].traceId ensures es[i].seqNo < es[j].seqNo {
      assert events[..n][i].seqNo < events[..n][j].seqNo;
    }
  }

  /** CheckHashChain: panics unless the list is hash-linked. */
  method CheckHashChain(events: seq<Event>) returns (v: Option<Violation>)
    ensures v == if HashLinked(events) then None else Some(INV1)
  {
    if |events| < 2 {
      return None;
    }
    for n := 1 to |events|
      invariant forall i :: 1 <= i < n ==> HashLinkedAt(events, i)
    {
      if events[n].prevHash != events[n - 1].eventHash {
        assert !HashLinkedAt(events, n);
        return Some(INV1);
      }
    }
    v := None;
  }

  /** What the recovery checks make of the logs a store can hold: the whole log is monotonic per trace exactly until
      some trace's counter wraps, and each trace's own events always form an unbroken hash chain. */
  lemma StoreLogPassesGuard(es: seq<Event>, t: bytes)
    ensures Monotonic(Run(es).log) <==> forall u :: |Trace(Run(es).log, u)| < U64
    ensures HashLinked(Trace(Run(es).log, t))
  {
    hide Run, Trace, Monotonic;
    var log := Run(es).log;
    RunIsValid(es);
    if forall u :: |Trace(log, u)| < U64 {
      MonotonicUntilWrap(es);
    } else {
      var u :| |Trace(log, u)| >= U64;
      WrapBreaksMonotonic(es, u);
    }
    assert TraceValid(Run(es), t);
    var mine := Trace(log, t);
    forall i | 1 <= i < |mine| ensures HashLinkedAt(mine, i) {
      assert Linked(mine, i);
    }
  }

  lemma MonotonicUntilWrap(es: seq<Event>)
    requires forall u :: |Trace(Run(es).log, u)| < U64
    ensures Monotonic(Run(es).log)
  {
    hide Run, Trace;
    var log := Run(es).log;
    forall i, j | 0 <= i < j < |log| && log[i].traceId == log[j].traceId ensures log[i].seqNo < log[j].seqNo {
      NoPairRepeats(es, i, j);
    }
  }

  /** Event 2^64 - 1 of a trace, counted from 0, is numbered 0. */
  lemma WrapBreaksMonotonic(es: seq<Event>, t: bytes)
    requires |Trace(Run(es).log, t)| >= U64
    ensures !Monotonic(Run(es).log)
  {
    hide Run, Trace;
    var log := Run(es).log;
    RunIsValid(es);
    assert TraceValid(Run(es), t);
    var mine := Trace(log, t);
    assert Linked(mine, 0) && Linked(mine, U64 - 1);
    var i, j := TracePositions(log, t, 0, U64 - 1);
    assert log[i].seqNo == 1 && log[j].seqNo == 0;
  }

  /** Two events of a trace stand in the log in the same order. */
  lemma {:induction false} TracePositions(log: seq<Event>, t: bytes, a: nat, b: nat) returns (i: nat, j: nat)
    requires a < b < |Trace(log, t)|
    ensures i < j < |log| && log[i] == Trace(log, t)[a] && log[j] == Trace(log, t)[b]
  {
    var n := |log| - 1;
    var front := log[..n];
    assert log == front + [log[n]];
    TraceSnoc(front, log[n], t);
    hide Trace;
    if b < |Trace(front, t)| {
      i, j := TracePositions(front, t, a, b);
    } else {
      i := TracePosition(front, t, a);
      j := n;
    }
  }

  lemma {:induction false} TracePosition(log: seq<Event>, t: bytes, a: nat) returns (i: nat)
    requires a < |Trace(log, t)|
    ensures i < |log| && log[i] == Trace(log, t)[a]
  {
    var n := |log| - 1;
    var front := log[..n];
    assert log == front + [log[n]];
    TraceSnoc(front, log[n], t);
    hide Trace;
    if a < |Trace(front, t)| {
      i := TracePosition(front, t, a);
    } else {
      i := n;
    }
  }

  /** The last event of the trace, as the guard's caller would pass it. */
  ghost function Tip(s: Store, t: bytes, tick: uint64): Option<GuardEvent> {
    var mine := Trace(s.log, t);
    if mine == [] then None else Some(GuardEvent(mine[|mine| - 1], tick))
  }

  /** Guard and store agree on one event except in four ways, all of them named here: the guard also demands a
      tick that does not run backwards, a non-empty hash and a non-zero number, and it does not demand that a
      trace starts at 1. */
  lemma GuardVersusStore(es: seq<Event>, e: GuardEvent, tick: uint64)
    ensures var s := Run(es); var prev := Tip(s, e.core.traceId, tick);
      CheckEvent(e, prev).None? <==>
        && (Refusal(s, e.core).None? || (prev.None? && e.core.prevHash == []))
        && e.core.seqNo >= 1 && e.core.eventHash != [] && (prev.Some? ==> e.tick >= tick)
  {
    hide Trace;
    var s, t := Run(es), e.core.traceId;
    RunIsValid(es);
    assert TraceValid(s, t);
    var mine := Trace(s.log, t);
    if mine != [] {
      assert Linked(mine, |mine| - 1);
    }
  }
}
