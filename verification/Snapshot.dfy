/** Snapshots and fast replay (pkg/snapshot/store.go), and their agreement with the store. */
module Snapshot {
  import opened Bytes
  import opened Traces
  import ES = EventStore

  /** The reduced event of fast replay: no previous hash. */
  datatype Event = Event(traceId: bytes, seqNo: uint64, eventHash: bytes)

  datatype Snap = Snap(lastSeq: map<bytes, uint64>, lastHash: map<bytes, bytes>, timestamp: uint64)

  function TraceOf(e: Event): bytes { e.traceId }

  predicate Follows(s: Snap, e: Event) {
    if e.traceId in s.lastSeq then e.seqNo == Succ(s.lastSeq[e.traceId]) else e.seqNo == 1
  }

  function Advance(s: Snap, e: Event): Snap {
    s.(lastSeq := s.lastSeq[e.traceId := e.seqNo], lastHash := s.lastHash[e.traceId := e.eventHash])
  }

  /** Reference meaning of fast replay: None where the source panics. */
  function Replay(s: Snap, es: seq<Event>): Option<Snap> {
    if es == [] then Some(s)
    else
      var front := Replay(s, es[..|es| - 1]);
      if front.Some? && Follows(front.value, es[|es| - 1]) then Some(Advance(front.value, es[|es| - 1])) else None
  }

  /** What replay keeps about one trace. */
  datatype View = View(tipSeq: Option<uint64>, tipHash: Option<bytes>)

  function ViewOf(s: Snap, t: bytes): View {
    View(if t in s.lastSeq then Some(s.lastSeq[t]) else None, if t in s.lastHash then Some(s.lastHash[t]) else None)
  }

  datatype EquivError = EquivError(traceId: bytes, have: uint64, want: uint64)

  /** Copying a Go map entry by entry, in whatever order the runtime ranges over it. */
  method CopyMap<V>(m: map<bytes, V>) returns (c: map<bytes, V>)
    ensures c == m
  {
    c := map[];
    var todo := m.Keys;
    while todo != {}
      invariant todo <= m.Keys
      invariant c.Keys == m.Keys - todo
      invariant forall k <- c :: c[k] == m[k]
      decreases |todo|
    {
      var k :| k in todo;
      c := c[k := m[k]];
      todo := todo - {k};
    }
  }

  class SnapshotObject {
    var lastSeq: map<bytes, uint64>
    var lastHash: map<bytes, bytes>
    var timestamp: uint64

    ghost function State(): Snap
      reads this
    {
      Snap(lastSeq, lastHash, timestamp)
    }

    /** New. */
    constructor ()
      ensures State() == Snap(map[], map[], 0)
    {
      lastSeq, lastHash, timestamp := map[], map[], 0;
    }

    /** Snapshot.Clone. */
    method Clone() returns (clone: SnapshotObject)
      ensures fresh(clone) && clone.State() == State()
    {
      clone := new SnapshotObject();
      clone.timestamp := timestamp;
      clone.lastSeq := CopyMap(lastSeq);
      clone.lastHash := CopyMap(lastHash);
    }
  }

  /** CreateSnapshot. */
  method CreateSnapshot(lastSeq: map<bytes, uint64>, lastHash: map<bytes, bytes>, tick: uint64)
    returns (snap: SnapshotObject)
    ensures fresh(snap) && snap.State() == Snap(lastSeq, lastHash, tick)
  {
    snap := new SnapshotObject();
    snap.timestamp := tick;
    snap.lastSeq := CopyMap(lastSeq);
    snap.lastHash := CopyMap(lastHash);
  }

  lemma ReplayNothing(s: Snap, es: seq<Event>)
    ensures Replay(s, es[..0]) == Some(s)
  {
  }

  lemma ReplayNext(s: Snap, es: seq<Event>, n: nat)
    requires n < |es| && Replay(s, es[..n]).Some?
    ensures var mid := Replay(s, es[..n]).value;
      Replay(s, es[..n + 1]) == if Follows(mid, es[n]) then Some(Advance(mid, es[n])) else None
  {
    assert es[..n + 1][..n] == es[..n];
  }

  /** FastReplay: works on a clone, so the input snapshot is left alone; `null` stands for the panic. */
  method FastReplay(snap: SnapshotObject, events: seq<Event>) returns (result: SnapshotObject?)
    ensures result != null <==> Replay(snap.State(), events).Some?
    ensures result != null ==> fresh(result) && result.State() == Replay(snap.State(), events).value
  {
    var work := snap.Clone();
    ghost var start := snap.State();
    hide Replay;
    ReplayNothing(start, events);
    for n := 0 to |events|
      invariant fresh(work)
      invariant Replay(start, events[..n]) == Some(work.State())
    {
      var ev := events[n];
      ReplayNext(start, events, n);
      if ev.traceId in work.lastSeq && ev.seqNo != Succ(work.lastSeq[ev.traceId]) {
        ReplayStops(start, events, n + 1);
        return null;
      }
      if ev.traceId !in work.lastSeq && ev.seqNo != 1 {
        ReplayStops(start, events, n + 1);
        return null;
      }
      work.lastSeq := work.lastSeq[ev.traceId := ev.seqNo];
      work.lastHash := work.lastHash[ev.traceId := ev.eventHash];
    }
    assert events[..|events|] == events;
    result := work;
  }

  /** EquivalenceProof. `panicked` is FastReplay's panic; otherwise the error, if any, is returned. */
  method EquivalenceProof(snap: SnapshotObject, logEvents: seq<Event>) returns (panicked: bool, err: Option<EquivError>)
    ensures panicked <==> Replay(snap.State(), logEvents).None?
    ensures err == None
  {
    var replayed := FastReplay(snap, logEvents);
    if replayed == null {
      return true, None;
    }
    var byTrace: map<bytes, Event> := map[];
    for n := 0 to |logEvents|
      invariant byTrace == LastByTrace(logEvents[..n])
      invariant Replay(snap.State(), logEvents) == Some(replayed.State())
    {
      assert logEvents[..n + 1][..n] == logEvents[..n];
      byTrace := byTrace[logEvents[n].traceId := logEvents[n]];
    }
    assert logEvents[..|logEvents|] == logEvents;
    var todo := byTrace.Keys;
    while todo != {}
      invariant todo <= byTrace.Keys
      invariant Replay(snap.State(), logEvents) == Some(replayed.State())
      decreases |todo|
    {
      var traceId :| traceId in todo;
      todo := todo - {traceId};
      ReplayEndsAtLast(snap.State(), logEvents, traceId);
      var finalEvent := byTrace[traceId];
      assert ViewOf(replayed.State(), traceId).tipSeq == Some(finalEvent.seqNo);
      var snapHasSeq := traceId in snap.lastSeq;
      var replayedHasSeq := traceId in replayed.lastSeq;
      var replayedSeq := if replayedHasSeq then replayed.lastSeq[traceId] else 0;
      if !snapHasSeq {
        if replayedSeq != finalEvent.seqNo {
          return false, Some(EquivError(traceId, replayedSeq, finalEvent.seqNo));
        }
      }
      if snapHasSeq && replayedHasSeq {
        if snap.lastSeq[traceId] == replayedSeq {
          continue;
        }
        if replayedSeq != finalEvent.seqNo {
          return false, Some(EquivError(traceId, replayedSeq, finalEvent.seqNo));
        }
      }
    }
    panicked, err := false, None;
  }

  function LastByTrace(es: seq<Event>): map<bytes, Event> {
    if es == [] then map[] else LastByTrace(es[..|es| - 1])[es[|es| - 1].traceId := es[|es| - 1]]
  }

  /** After an accepted replay every trace of the list stands at its last event; the others are untouched. */
  lemma {:induction false} ReplayEndsAtLast(s: Snap, es: seq<Event>, t: bytes)
    requires Replay(s, es).Some?
    ensures var r, last := Replay(s, es).value, LastByTrace(es);
      && ViewOf(r, t) == (if t in last then View(Some(last[t].seqNo), Some(last[t].eventHash)) else ViewOf(s, t))
      && r.timestamp == s.timestamp
  {
    if es != [] {
      ReplayEndsAtLast(s, es[..|es| - 1], t);
    }
  }

  lemma {:induction false} ReplayStops(s: Snap, es: seq<Event>, k: nat)
    requires k <= |es| && Replay(s, es[..k]).None?
    ensures Replay(s, es).None?
    decreases |es|
  {
    if k < |es| {
      assert es[..|es| - 1][..k] == es[..k];
      ReplayStops(s, es[..|es| - 1], k);
    } else {
      assert es[..k] == es;
    }
  }

  /** Replay composes: a list replays exactly when its first part does and the second replays from there. */
  lemma {:induction false} ReplayComposes(s: Snap, a: seq<Event>, b: seq<Event>)
    ensures Replay(s, a + b) == match Replay(s, a) case None => None case Some(mid) => Replay(mid, b)
  {
    if b == [] {
      assert a + b == a;
    } else {
      var front := b[..|b| - 1];
      ReplayComposes(s, a, front);
      assert (a + b)[..|a + b| - 1] == a + front;
    }
  }

  // ---------------------------------------------------------------- agreement with the store

  function Reduce(e: ES.Event): Event {
    Event(e.traceId, e.seqNo, e.eventHash)
  }

  function ReduceAll(es: seq<ES.Event>): (r: seq<Event>)
    ensures |r| == |es| && forall i :: 0 <= i < |es| ==> r[i] == Reduce(es[i])
  {
    seq(|es|, i requires 0 <= i < |es| => Reduce(es[i]))
  }

  function SnapOf(s: ES.Store, tick: uint64): Snap {
    Snap(s.lastSeq, s.lastHash, tick)
  }

  /** Everything the store accepts, replay accepts too, with the same maps. */
  lemma {:induction false} ReplayFollowsStore(es: seq<ES.Event>, tick: uint64)
    requires ES.Accepted(es)
    ensures Replay(SnapOf(ES.EMPTY, tick), ReduceAll(es)) == Some(SnapOf(ES.Run(es), tick))
  {
    if es != [] {
      var before, e := es[..|es| - 1], es[|es| - 1];
      ES.AcceptedStep(es);
      ReplayFollowsStore(before, tick);
      assert ReduceAll(es)[..|es| - 1] == ReduceAll(before);
    }
  }

  /** A snapshot at any cut point, plus the rest of the log replayed, equals a snapshot taken at the end. */
  lemma SnapshotEquivalence(es: seq<ES.Event>, k: nat, tick: uint64)
    requires k <= |ES.Run(es).log|
    ensures var log := ES.Run(es).log;
      Replay(SnapOf(ES.Run(log[..k]), tick), ReduceAll(log[k..])) == Some(SnapOf(ES.Run(es), tick))
  {
    hide ES.Run, Replay;
    var log := ES.Run(es).log;
    ES.LogReplaysItself(es);
    ES.AcceptedPrefix(log, k);
    ReplayFollowsStore(log, tick);
    ReplayFollowsStore(log[..k], tick);
    ReplayComposes(SnapOf(ES.EMPTY, tick), ReduceAll(log[..k]), ReduceAll(log[k..]));
    assert ReduceAll(log[..k]) + ReduceAll(log[k..]) == ReduceAll(log);
  }

  /** Fast replay checks less than the store: on a store and its snapshot, the store accepts an event exactly
      when replay does and the event carries the hash of its trace's tip. */
  lemma ReplayIsWeaker(es: seq<ES.Event>, e: ES.Event)
    ensures var s := ES.Run(es);
      ES.Refusal(s, e).None? <==>
        && Follows(SnapOf(s, 0), Reduce(e))
        && e.prevHash == if e.traceId in s.lastHash then s.lastHash[e.traceId] else []
  {
    ES.RunIsValid(es);
  }

  // ---------------------------------------------------------------- reordering across traces

  function Mine(es: seq<Event>, t: bytes): (r: seq<Event>)
    ensures forall e <- r :: e.traceId == t
  {
    assert forall e <- Only(es, TraceOf, t) :: TraceOf(e) == t;
    Only(es, TraceOf, t)
  }

  lemma MineSnoc(es: seq<Event>, e: Event, t: bytes)
    ensures Mine(es + [e], t) == if t == e.traceId then Mine(es, t) + [e] else Mine(es, t)
  {
    hide Only;
    OnlySnoc(es, TraceOf, t, e);
  }

  lemma ReplaySnoc(s: Snap, es: seq<Event>, e: Event)
    ensures var before := Replay(s, es);
      Replay(s, es + [e]) ==
      if before.Some? && Follows(before.value, e) then Some(Advance(before.value, e)) else None
  {
    assert (es + [e])[..|es|] == es;
  }

  /** Whether an event follows, and what it does to its trace, depends on what is kept about that trace only. */
  lemma SameViewSameStep(a: Snap, b: Snap, e: Event)
    requires ViewOf(a, e.traceId) == ViewOf(b, e.traceId)
    ensures Follows(a, e) <==> Follows(b, e)
    ensures ViewOf(Advance(a, e), e.traceId) == ViewOf(Advance(b, e), e.traceId)
  {
  }

  lemma OtherViewStays(s: Snap, e: Event, t: bytes)
    requires t != e.traceId
    ensures ViewOf(Advance(s, e), t) == ViewOf(s, t)
  {
  }

  /** An accepted list is accepted trace by trace, and each trace ends where it would end alone. */
  lemma {:induction false} AcceptedTraceByTrace(s: Snap, es: seq<Event>, t: bytes)
    requires Replay(s, es).Some?
    ensures Replay(s, Mine(es, t)).Some?
    ensures ViewOf(Replay(s, Mine(es, t)).value, t) == ViewOf(Replay(s, es).value, t)
  {
    if es != [] {
      hide Mine, Replay, Follows, Advance, ViewOf;
      var before, e := es[..|es| - 1], es[|es| - 1];
      assert es == before + [e];
      ReplaySnoc(s, before, e);
      AcceptedTraceByTrace(s, before, t);
      MineSnoc(before, e, t);
      var whole, mine := Replay(s, before).value, Replay(s, Mine(before, t)).value;
      if t == e.traceId {
        ReplaySnoc(s, Mine(before, t), e);
        SameViewSameStep(mine, whole, e);
      } else {
        OtherViewStays(whole, e, t);
      }
    } else {
      assert Mine(es, t) == [];
    }
  }

  /** A list is accepted exactly when each of its traces is accepted on its own. */
  lemma {:induction false} AcceptedIffEachTrace(s: Snap, es: seq<Event>)
    ensures Replay(s, es).Some? <==> forall t :: Replay(s, Mine(es, t)).Some?
  {
    if Replay(s, es).Some? {
      forall t ensures Replay(s, Mine(es, t)).Some? {
        AcceptedTraceByTrace(s, es, t);
      }
    } else {
      RejectedInSomeTrace(s, es);
    }
  }

  lemma {:induction false} RejectedInSomeTrace(s: Snap, es: seq<Event>)
    requires Replay(s, es).None?
    ensures exists t :: Replay(s, Mine(es, t)).None?
  {
    assert es != [];
    hide Mine, Replay, Follows, Advance, ViewOf;
    var before, e := es[..|es| - 1], es[|es| - 1];
    assert es == before + [e];
    ReplaySnoc(s, before, e);
    if Replay(s, before).None? {
      RejectedInSomeTrace(s, before);
      var t :| Replay(s, Mine(before, t)).None?;
      MineSnoc(before, e, t);
      ReplaySnoc(s, Mine(before, t), e);
      assert Replay(s, Mine(es, t)).None?;
    } else {
      var t := e.traceId;
      AcceptedTraceByTrace(s, before, t);
      MineSnoc(before, e, t);
      ReplaySnoc(s, Mine(before, t), e);
      SameViewSameStep(Replay(s, Mine(before, t)).value, Replay(s, before).value, e);
      assert Replay(s, Mine(es, t)).None?;
    }
  }

  /** Numbered on from `from`, wrapping at 2^64. */
  ghost predicate Numbered(es: seq<Event>, from: nat) {
    forall k :: 0 <= k < |es| ==> es[k].seqNo == (from + k + 1) % U64
  }

  function LastNumber(s: Snap, t: bytes): nat {
    if t in s.lastSeq then s.lastSeq[t] else 0
  }

  lemma NumberedSnoc(es: seq<Event>, e: Event, from: nat)
    ensures Numbered(es + [e], from) <==> Numbered(es, from) && e.seqNo == (from + |es| + 1) % U64
  {
    var all := es + [e];
    assert all[|es|] == e && forall k :: 0 <= k < |es| ==> all[k] == es[k];
  }

  /** One trace alone. */
  lemma {:induction false} OneTraceAccepted(s: Snap, es: seq<Event>, t: bytes)
    requires forall e <- es :: e.traceId == t
    ensures Replay(s, es).Some? <==> Numbered(es, LastNumber(s, t))
    ensures Replay(s, es).Some? ==>
      && LastNumber(Replay(s, es).value, t) == (LastNumber(s, t) + |es|) % U64
      && (es != [] ==> t in Replay(s, es).value.lastSeq)
    ensures Replay(s, es).Some? && es == [] ==> Replay(s, es).value == s
  {
    if es != [] {
      var before, e := es[..|es| - 1], es[|es| - 1];
      assert es == before + [e];
      ReplaySnoc(s, before, e);
      hide Replay, Numbered;
      OneTraceAccepted(s, before, t);
      NumberedSnoc(before, e, LastNumber(s, t));
      SuccOfMod(LastNumber(s, t) + |before|);
    }
  }

  /** Which lists replay accepts, read off their numbers: every trace goes on from the snapshot's last number, or from
      zero, by ones. */
  lemma AcceptedIffNumbered(s: Snap, es: seq<Event>)
    ensures Replay(s, es).Some? <==> forall t :: Numbered(Mine(es, t), LastNumber(s, t))
  {
    hide Replay, Numbered;
    AcceptedIffEachTrace(s, es);
    forall t ensures Replay(s, Mine(es, t)).Some? <==> Numbered(Mine(es, t), LastNumber(s, t)) {
      OneTraceAccepted(s, Mine(es, t), t);
    }
  }

  /** Two interleavings of the same traces are both accepted or both rejected, and end in equal maps. */
  lemma ReorderInvisible(s: Snap, es: seq<Event>, fs: seq<Event>)
    requires forall t :: Mine(es, t) == Mine(fs, t)
    ensures Replay(s, es) == Replay(s, fs)
  {
    AcceptedIffEachTrace(s, es);
    AcceptedIffEachTrace(s, fs);
    if Replay(s, es).Some? {
      forall t ensures Replay(s, Mine(fs, t)).Some? {
        assert Mine(es, t) == Mine(fs, t);
      }
      var a, b := Replay(s, es).value, Replay(s, fs).value;
      forall t ensures ViewOf(a, t) == ViewOf(b, t) {
        AcceptedTraceByTrace(s, es, t);
        AcceptedTraceByTrace(s, fs, t);
      }
      SameViews(a, b);
      ReplayEndsAtLast(s, es, []);
      ReplayEndsAtLast(s, fs, []);
    } else {
      var t :| Replay(s, Mine(es, t)).None?;
      assert Mine(es, t) == Mine(fs, t);
    }
  }

  lemma SameViews(a: Snap, b: Snap)
    requires forall t :: ViewOf(a, t) == ViewOf(b, t)
    ensures a.lastSeq == b.lastSeq && a.lastHash == b.lastHash
  {
    forall t ensures (t in a.lastSeq <==> t in b.lastSeq) && (t in a.lastSeq ==> a.lastSeq[t] == b.lastSeq[t]) {
      assert ViewOf(a, t) == ViewOf(b, t);
    }
    forall t ensures (t in a.lastHash <==> t in b.lastHash) && (t in a.lastHash ==> a.lastHash[t] == b.lastHash[t]) {
      assert ViewOf(a, t) == ViewOf(b, t);
    }
  }
}
