/** The append-only multi-trace store (pkg/consensus/engine.go). */
module EventStore {
  import opened Bytes
  import opened Traces

  datatype Event = Event(traceId: bytes, seqNo: uint64, prevHash: bytes, eventHash: bytes)

  datatype Kind = SeqViolation | FirstSeqNot1 | HashViolation | FirstPrevHashNotEmpty

  datatype AppendError = AppendError(traceId: bytes, kind: Kind, have: uint64, want: uint64)

  datatype Store = Store(log: seq<Event>, lastSeq: map<bytes, uint64>, lastHash: map<bytes, bytes>)

  const EMPTY: Store := Store([], map[], map[])

  function TraceOf(e: Event): bytes { e.traceId }

  /** The events of trace `t`, in order. */
  function Trace(log: seq<Event>, t: bytes): (r: seq<Event>)
    ensures forall e <- r :: e.traceId == t
  {
    assert forall e <- Only(log, TraceOf, t) :: TraceOf(e) == t;
    Only(log, TraceOf, t)
  }

  function Refusal(s: Store, e: Event): Option<AppendError> {
    var t := e.traceId;
    if t in s.lastSeq && e.seqNo != Succ(s.lastSeq[t]) then
      Some(AppendError(t, SeqViolation, e.seqNo, Succ(s.lastSeq[t])))
    else if t !in s.lastSeq && e.seqNo != 1 then Some(AppendError(t, FirstSeqNot1, e.seqNo, 1))
    else if t in s.lastHash && e.prevHash != s.lastHash[t] then Some(AppendError(t, HashViolation, 0, 0))
    else if t !in s.lastHash && e.prevHash != [] then Some(AppendError(t, FirstPrevHashNotEmpty, 0, 0))
    else None
  }

  function Appended(s: Store, e: Event): Store {
    if Refusal(s, e).Some? then s
    else Store(s.log + [e], s.lastSeq[e.traceId := e.seqNo], s.lastHash[e.traceId := e.eventHash])
  }

  /** The store after offering it every event of `es` in turn; refused events leave no mark. */
  function Run(es: seq<Event>): Store {
    if es == [] then EMPTY else Appended(Run(es[..|es| - 1]), es[|es| - 1])
  }

  class EventStoreObject {
    var log: seq<Event>
    var lastSeq: map<bytes, uint64>
    var lastHash: map<bytes, bytes>

    ghost function State(): Store
      reads this
    {
      Store(log, lastSeq, lastHash)
    }

    constructor ()
      ensures State() == EMPTY
    {
      log, lastSeq, lastHash := [], map[], map[];
    }

    /** EventStore.Append. */
    method Append(e: Event) returns (err: Option<AppendError>)
      modifies this
      ensures err == Refusal(old(State()), e)
      ensures State() == Appended(old(State()), e)
      ensures err.Some? ==> State() == old(State())
      ensures err.None? ==>
        && log == old(log) + [e]
        && lastSeq == old(lastSeq)[e.traceId := e.seqNo] && lastHash == old(lastHash)[e.traceId := e.eventHash]
    {
      var seqOk := e.traceId in lastSeq;
      var hashOk := e.traceId in lastHash;
      if seqOk {
        if e.seqNo != Succ(lastSeq[e.traceId]) {
          return Some(AppendError(e.traceId, SeqViolation, e.seqNo, Succ(lastSeq[e.traceId])));
        }
      } else {
        if e.seqNo != 1 {
          return Some(AppendError(e.traceId, FirstSeqNot1, e.seqNo, 1));
        }
      }
      if hashOk {
        if e.prevHash != lastHash[e.traceId] {
          return Some(AppendError(e.traceId, HashViolation, 0, 0));
        }
      } else {
        if e.prevHash != [] {
          return Some(AppendError(e.traceId, FirstPrevHashNotEmpty, 0, 0));
        }
      }
      log := log + [e];
      lastSeq := lastSeq[e.traceId := e.seqNo];
      lastHash := lastHash[e.traceId := e.eventHash];
      err := None;
    }
  }

  // ---------------------------------------------------------------- the invariant

  /** Event `k` (from 0) is numbered k + 1, as a uint64, and carries the hash of the one before it. */
  ghost predicate Linked(es: seq<Event>, k: nat)
    requires k < |es|
  {
    && es[k].seqNo == (k + 1) % U64
    && es[k].prevHash == if k == 0 then [] else es[k - 1].eventHash
  }

  ghost predicate Chained(es: seq<Event>) {
    forall k :: 0 <= k < |es| ==> Linked(es, k)
  }

  ghost predicate Valid(s: Store) {
    && s.lastSeq.Keys == s.lastHash.Keys
    && forall t :: TraceValid(s, t)
  }

  ghost predicate TraceValid(s: Store, t: bytes) {
    var es := Trace(s.log, t);
    && Chained(es)
    && (t in s.lastSeq <==> es != [])
    && (es != [] && t in s.lastHash ==>
          s.lastSeq[t] == |es| % U64 && s.lastHash[t] == es[|es| - 1].eventHash)
  }

  lemma TraceSnoc(log: seq<Event>, e: Event, t: bytes)
    ensures Trace(log + [e], t) == if t == e.traceId then Trace(log, t) + [e] else Trace(log, t)
  {
    hide Only;
    OnlySnoc(log, TraceOf, t, e);
  }

  lemma ChainedSnoc(es: seq<Event>, e: Event)
    ensures Chained(es + [e]) <==>
            && Chained(es) && e.seqNo == (|es| + 1) % U64
            && e.prevHash == if es == [] then [] else es[|es| - 1].eventHash
  {
    var n, es' := |es|, es + [e];
    assert Linked(es', n) <==> e.seqNo == (n + 1) % U64 && e.prevHash == if n == 0 then [] else es[n - 1].eventHash;
    forall k | 0 <= k < n ensures Linked(es', k) <==> Linked(es, k) { }
    if Chained(es') {
      forall k | 0 <= k < n ensures Linked(es, k) {
        assert Linked(es', k);
      }
      assert Linked(es', n);
    }
  }

  /** A trace of a valid store accepts an event exactly when the event continues its chain. */
  lemma AcceptsIffChained(s: Store, e: Event)
    requires Valid(s)
    ensures Refusal(s, e).None? <==> Chained(Trace(s.log, e.traceId) + [e])
  {
    hide Trace, Chained;
    var es := Trace(s.log, e.traceId);
    assert TraceValid(s, e.traceId);
    SuccOfMod(|es|);
    ChainedSnoc(es, e);
  }

  /** Why a store refuses an event, in terms of the events its trace holds: the first of number and previous hash that
      does not go on where the trace ends, and whether there was a trace to go on with. */
  lemma RefusalReason(es: seq<Event>, e: Event)
    ensures var mine := Trace(Run(es).log, e.traceId);
      var n := |mine|;
      Refusal(Run(es), e) ==
      if e.seqNo != (n + 1) % U64 then
        Some(AppendError(e.traceId, if n > 0 then SeqViolation else FirstSeqNot1, e.seqNo, (n + 1) % U64))
      else if e.prevHash != (if n > 0 then mine[n - 1].eventHash else []) then
        Some(AppendError(e.traceId, if n > 0 then HashViolation else FirstPrevHashNotEmpty, 0, 0))
      else None
  {
    hide Run, Trace, Chained;
    RunIsValid(es);
    assert TraceValid(Run(es), e.traceId);
    SuccOfMod(|Trace(Run(es).log, e.traceId)|);
  }

  lemma AppendKeepsTrace(s: Store, e: Event, t: bytes)
    requires Valid(s) && Refusal(s, e).None?
    ensures TraceValid(Appended(s, e), t)
  {
    hide Trace, Chained;
    AcceptsIffChained(s, e);
    TraceSnoc(s.log, e, t);
    assert TraceValid(s, t);
    ChainedSnoc(Trace(s.log, e.traceId), e);
  }

  lemma AppendKeepsValid(s: Store, e: Event)
    requires Valid(s)
    ensures Valid(Appended(s, e))
  {
    if Refusal(s, e).None? {
      forall t ensures TraceValid(Appended(s, e), t) {
        AppendKeepsTrace(s, e, t);
      }
    }
  }

  /** Every reachable store is valid. */
  lemma {:induction false} RunIsValid(es: seq<Event>)
    ensures Valid(Run(es))
  {
    if es != [] {
      RunIsValid(es[..|es| - 1]);
      AppendKeepsValid(Run(es[..|es| - 1]), es[|es| - 1]);
    } else {
      forall t ensures TraceValid(EMPTY, t) { }
    }
  }

  ghost predicate Accepted(es: seq<Event>) {
    Run(es).log == es
  }

  lemma {:induction false} RunLogGrows(es: seq<Event>)
    ensures |Run(es).log| <= |es|
  {
    if es != [] { RunLogGrows(es[..|es| - 1]); }
  }

  lemma AcceptedStep(es: seq<Event>)
    requires es != []
    ensures Accepted(es) <==> Accepted(es[..|es| - 1]) && Refusal(Run(es[..|es| - 1]), es[|es| - 1]).None?
  {
    var before, e := es[..|es| - 1], es[|es| - 1];
    RunLogGrows(before);
    assert es == before + [e];
    if Accepted(es) {
      assert Run(es).log[..|before|] == before;
    }
  }

  /** The store accepts exactly the event lists in which every trace is chained, however they interleave. */
  lemma {:induction false} AcceptedIffEveryTraceChained(es: seq<Event>)
    ensures Accepted(es) <==> forall t :: Chained(Trace(es, t))
  {
    if es == [] {
      forall t ensures Chained(Trace(es, t)) { }
    } else {
      hide Trace, Chained;
      var before, e := es[..|es| - 1], es[|es| - 1];
      AcceptedStep(es);
      AcceptedIffEveryTraceChained(before);
      RunIsValid(before);
      assert es == before + [e];
      forall t ensures Trace(es, t) == if t == e.traceId then Trace(before, t) + [e] else Trace(before, t) {
        TraceSnoc(before, e, t);
      }
      ChainedSnoc(Trace(before, e.traceId), e);
      if Accepted(before) {
        AcceptsIffChained(Run(before), e);
      }
      if forall t :: Chained(Trace(es, t)) {
        forall t ensures Chained(Trace(before, t)) {
          assert Chained(Trace(es, t));
        }
        assert Chained(Trace(es, e.traceId));
      }
    }
  }

  lemma {:induction false} AcceptedPrefix(es: seq<Event>, k: nat)
    requires Accepted(es) && k <= |es|
    ensures Accepted(es[..k])
    decreases |es|
  {
    if k < |es| {
      AcceptedStep(es);
      AcceptedPrefix(es[..|es| - 1], k);
      assert es[..|es| - 1][..k] == es[..k];
    } else {
      assert es[..k] == es;
    }
  }

  /** The log a run leaves is itself accepted in full and leads to the same store. */
  lemma {:induction false} LogReplaysItself(es: seq<Event>)
    ensures Run(Run(es).log) == Run(es)
  {
    if es != [] {
      var before, e := es[..|es| - 1], es[|es| - 1];
      LogReplaysItself(before);
      if Refusal(Run(before), e).None? {
        var log' := Run(before).log + [e];
        assert log'[..|log'| - 1] == Run(before).log;
      }
    }
  }

  /** The two maps are summaries of the log. */
  lemma MapsSummariseLog(es: seq<Event>, t: bytes)
    ensures var s := Run(es); var mine := Trace(s.log, t);
      && (t in s.lastSeq <==> t in s.lastHash) && (t in s.lastSeq <==> mine != [])
      && (mine != [] ==> s.lastSeq[t] == |mine| % U64 && s.lastHash[t] == mine[|mine| - 1].eventHash)
  {
    RunIsValid(es);
    assert TraceValid(Run(es), t);
  }

  /** No (trace, sequence number) pair occurs twice while the trace has fewer than 2^64 events. */
  lemma NoPairRepeats(es: seq<Event>, i: nat, j: nat)
    requires var log := Run(es).log; i < j < |log| && log[i].traceId == log[j].traceId
    requires |Trace(Run(es).log, Run(es).log[i].traceId)| < U64
    ensures Run(es).log[i].seqNo < Run(es).log[j].seqNo
  {
    hide Run, Only;
    var log := Run(es).log;
    var t := log[i].traceId;
    RunIsValid(es);
    assert TraceValid(Run(es), t);
    OnlyAt(log, TraceOf, i);
    OnlyAt(log, TraceOf, j);
    OnlyAt(log[..j], TraceOf, i);
    assert log[..j][..i] == log[..i];
    var a, b := |Only(log[..i], TraceOf, t)|, |Only(log[..j], TraceOf, t)|;
    assert Trace(log, t)[a] == log[i] && Trace(log, t)[b] == log[j];
    assert Linked(Trace(log, t), a) && Linked(Trace(log, t), b);
  }

  /** Sequence numbers are distinct within a trace exactly until the uint64 counter has gone round once. */
  lemma NumbersDistinctIff(es: seq<Event>, t: bytes)
    ensures var mine := Trace(Run(es).log, t);
      (forall a, b :: 0 <= a < b < |mine| ==> mine[a].seqNo != mine[b].seqNo) <==> |mine| <= U64
  {
    hide Run, Trace;
    var mine := Trace(Run(es).log, t);
    RunIsValid(es);
    assert TraceValid(Run(es), t);
    if |mine| > U64 {
      assert Linked(mine, 0) && Linked(mine, U64);
    } else {
      forall a, b | 0 <= a < b < |mine| ensures mine[a].seqNo != mine[b].seqNo {
        assert Linked(mine, a) && Linked(mine, b);
      }
    }
  }

  /** An event once accepted is refused by every later store. */
  lemma StaleIsRefused(s: Store, later: Store, e: Event)
    requires Valid(s) && Valid(later) && Refusal(s, e).None?
    requires Appended(s, e).log <= later.log && |Trace(later.log, e.traceId)| < U64
    ensures Refusal(later, e).Some?
  {
    var t := e.traceId;
    TraceGrows(s, later.log, e);
    hide Trace, Refusal, Appended, Valid;
    AcceptedNumber(s, e);
    CountsDiffer(|Trace(s.log, t)|, |Trace(later.log, t)|);
    if Refusal(later, e).None? { AcceptedNumber(later, e); }
  }

  lemma TraceGrows(s: Store, log: seq<Event>, e: Event)
    requires Refusal(s, e).None? && Appended(s, e).log <= log
    ensures |Trace(s.log, e.traceId)| < |Trace(log, e.traceId)|
  {
    var grown := s.log + [e];
    assert Appended(s, e).log == grown;
    hide Trace, Refusal, Appended;
    TraceSnoc(s.log, e, e.traceId);
    TracePrefix(grown, log, e.traceId);
  }

  lemma AcceptedNumber(s: Store, e: Event)
    requires Valid(s) && Refusal(s, e).None?
    ensures e.seqNo == (|Trace(s.log, e.traceId)| + 1) % U64
  {
    AcceptsIffChained(s, e);
    hide Trace, Refusal, Chained;
    ChainedSnoc(Trace(s.log, e.traceId), e);
  }

  lemma CountsDiffer(a: nat, b: nat)
    requires a < b < U64
    ensures (a + 1) % U64 != (b + 1) % U64
  {
  }

  lemma TracePrefix(a: seq<Event>, b: seq<Event>, t: bytes)
    requires a <= b
    ensures |Trace(a, t)| <= |Trace(b, t)|
  {
    OnlyPrefix(b, TraceOf, t, |a|);
    assert b[..|a|] == a;
  }

  // ---------------------------------------------------------------- reordering across traces

  /** The part of a store one trace can see. */
  datatype View = View(es: seq<Event>, tipSeq: Option<uint64>, tipHash: Option<bytes>)

  function ViewOf(s: Store, t: bytes): View {
    View(Trace(s.log, t),
         if t in s.lastSeq then Some(s.lastSeq[t]) else None,
         if t in s.lastHash then Some(s.lastHash[t]) else None)
  }

  /** What a trace sees depends on its own events only. */
  lemma {:induction false} ViewDependsOnTrace(es: seq<Event>, t: bytes)
    ensures ViewOf(Run(es), t) == ViewOf(Run(Trace(es, t)), t)
  {
    if es != [] {
      var before, e := es[..|es| - 1], es[|es| - 1];
      hide Trace, ViewOf, Appended;
      ViewDependsOnTrace(before, t);
      assert es == before + [e];
      TraceSnoc(before, e, t);
      if e.traceId == t {
        var mine := Trace(before, t);
        assert (mine + [e])[..|mine|] == mine;
        AppendedSameView(Run(before), Run(mine), e);
      } else {
        AppendedOtherView(Run(before), e, t);
      }
    }
  }

  lemma AppendedOtherView(s: Store, e: Event, t: bytes)
    requires e.traceId != t
    ensures ViewOf(Appended(s, e), t) == ViewOf(s, t)
  {
    hide Trace;
    TraceSnoc(s.log, e, t);
  }

  lemma AppendedSameView(a: Store, b: Store, e: Event)
    requires ViewOf(a, e.traceId) == ViewOf(b, e.traceId)
    ensures ViewOf(Appended(a, e), e.traceId) == ViewOf(Appended(b, e), e.traceId)
  {
    hide Trace;
    TraceSnoc(a.log, e, e.traceId);
    TraceSnoc(b.log, e, e.traceId);
    assert Refusal(a, e) == Refusal(b, e);
  }

  /** Two interleavings of the same traces leave the same maps and the same per-trace logs, refusals included. */
  lemma ReorderInvisible(es: seq<Event>, fs: seq<Event>)
    requires forall t :: Trace(es, t) == Trace(fs, t)
    ensures Run(es).lastSeq == Run(fs).lastSeq && Run(es).lastHash == Run(fs).lastHash
    ensures forall t :: Trace(Run(es).log, t) == Trace(Run(fs).log, t)
  {
    var a, b := Run(es), Run(fs);
    forall t ensures ViewOf(a, t) == ViewOf(b, t) {
      ViewDependsOnTrace(es, t);
      ViewDependsOnTrace(fs, t);
      assert Trace(es, t) == Trace(fs, t);
    }
    forall t ensures Trace(a.log, t) == Trace(b.log, t) {
      assert ViewOf(a, t) == ViewOf(b, t);
    }
    assert a.lastSeq == b.lastSeq by {
      forall t ensures (t in a.lastSeq <==> t in b.lastSeq) && (t in a.lastSeq ==> a.lastSeq[t] == b.lastSeq[t]) {
        assert ViewOf(a, t) == ViewOf(b, t);
      }
    }
    assert a.lastHash == b.lastHash by {
      forall t ensures (t in a.lastHash <==> t in b.lastHash) && (t in a.lastHash ==> a.lastHash[t] == b.lastHash[t]) {
        assert ViewOf(a, t) == ViewOf(b, t);
      }
    }
  }
}
