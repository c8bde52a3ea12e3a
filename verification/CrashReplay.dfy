/** End to end: store, log, crash, recovery and fast replay together
    (pkg/wal/wal.go, pkg/consensus/engine.go, pkg/snapshot/store.go). */
module CrashReplay {
  import opened Bytes
  import opened WalCodec
  import opened WalRecovery
  import ES = EventStore
  import S = Snapshot
  import Canon
  import Wal

  /** The part of a canonical event the store looks at. */
  function Core(e: Event): ES.Event {
    ES.Event(e.traceId, e.seqNo, e.prevHash, e.eventHash)
  }

  function Cores(es: seq<Event>): (r: seq<ES.Event>)
    ensures |r| == |es| && forall i :: 0 <= i < |es| ==> r[i] == Core(es[i])
  {
    seq(|es|, i requires 0 <= i < |es| => Core(es[i]))
  }

  // ---------------------------------------------------------------- replaying what was recovered

  /** Fast replay, from nothing, of the events recovered for `es`; None where it panics. */
  function Replayed(es: seq<Event>, tick: uint64): Option<S.Snap> {
    S.Replay(S.SnapOf(ES.EMPTY, tick), S.ReduceAll(Cores(RecoveredAll(es))))
  }

  function Back(e: Event): S.Event {
    S.Event(StoredTrace(e.traceId), e.seqNo, StoredHash(e.eventHash))
  }

  lemma ReplayedStep(es: seq<Event>, tick: uint64)
    requires es != []
    ensures var before, b := Replayed(es[..|es| - 1], tick), Back(es[|es| - 1]);
      Replayed(es, tick) ==
      if before.Some? && S.Follows(before.value, b) then Some(S.Advance(before.value, b)) else None
  {
    hide StoredTrace, StoredHash;
    var all, before := S.ReduceAll(Cores(RecoveredAll(es))), es[..|es| - 1];
    assert all[..|es| - 1] == S.ReduceAll(Cores(RecoveredAll(before)));
    assert all[|es| - 1] == Back(es[|es| - 1]);
  }

  /** The store after `es`, one event before it, and the last event. */
  lemma StoreStep(es: seq<Event>)
    requires es != [] && ES.Accepted(Cores(es))
    ensures var s, e := ES.Run(Cores(es[..|es| - 1])), Core(es[|es| - 1]);
      && ES.Accepted(Cores(es[..|es| - 1])) && ES.Refusal(s, e).None?
      && ES.Run(Cores(es)) == ES.Appended(s, e)
      && s.lastSeq.Keys == s.lastHash.Keys
  {
    hide ES.Accepted;
    var before := es[..|es| - 1];
    assert Cores(es)[..|es| - 1] == Cores(before);
    ES.AcceptedStep(Cores(es));
    ES.RunIsValid(Cores(before));
  }

  /** `r` is the summary `s` with trace IDs and hashes as they come back from the file. */
  ghost predicate Renames(s: ES.Store, r: S.Snap) {
    && (forall t <- s.lastSeq :: RenamesTrace(s, r, t))
    && (forall u <- r.lastSeq :: exists t :: t in s.lastSeq && StoredTrace(t) == u)
    && r.lastSeq.Keys == r.lastHash.Keys
  }

  ghost predicate RenamesTrace(s: ES.Store, r: S.Snap, t: bytes)
    requires t in s.lastSeq
  {
    var u := StoredTrace(t);
    && t in s.lastHash && u in r.lastSeq && u in r.lastHash
    && r.lastSeq[u] == s.lastSeq[t] && r.lastHash[u] == StoredHash(s.lastHash[t])
  }

  /** No two traces of the store come back under one ID. */
  ghost predicate Apart(s: ES.Store) {
    forall t, u :: t in s.lastSeq && u in s.lastSeq && StoredTrace(t) == StoredTrace(u) ==> t == u
  }

  /** Only the trace of `e` itself comes back under the stored ID of `e`. */
  ghost predicate KeepsApart(s: ES.Store, t: bytes) {
    forall u :: u in s.lastSeq && StoredTrace(u) == StoredTrace(t) ==> u == t
  }

  lemma ApartStep(s: ES.Store, e: ES.Event)
    requires ES.Refusal(s, e).None?
    ensures Apart(ES.Appended(s, e)) <==> Apart(s) && KeepsApart(s, e.traceId)
  {
    hide StoredTrace, ES.Refusal;
    var keys := ES.Appended(s, e).lastSeq.Keys;
    assert keys == s.lastSeq.Keys + {e.traceId};
    if Apart(ES.Appended(s, e)) {
      forall u | u in s.lastSeq && StoredTrace(u) == StoredTrace(e.traceId) ensures u == e.traceId {
        assert u in keys && e.traceId in keys;
      }
      forall t, u | t in s.lastSeq && u in s.lastSeq && StoredTrace(t) == StoredTrace(u) ensures t == u {
        assert t in keys && u in keys;
      }
    }
  }

  lemma RenamesFollows(s: ES.Store, r: S.Snap, e: Event)
    requires Renames(s, r) && ES.Refusal(s, Core(e)).None? && KeepsApart(s, e.traceId)
    ensures S.Follows(r, Back(e))
  {
    hide StoredTrace, StoredHash;
    if e.traceId in s.lastSeq {
      assert RenamesTrace(s, r, e.traceId);
    }
  }

  lemma RenamesTraceAdvance(s: ES.Store, r: S.Snap, e: Event, t: bytes)
    requires ES.Refusal(s, Core(e)).None? && t in ES.Appended(s, Core(e)).lastSeq
    requires t in s.lastSeq ==> RenamesTrace(s, r, t)
    requires t in s.lastSeq && StoredTrace(t) == StoredTrace(e.traceId) ==> t == e.traceId
    ensures RenamesTrace(ES.Appended(s, Core(e)), S.Advance(r, Back(e)), t)
  {
    hide StoredTrace, StoredHash, ES.Refusal;
  }

  lemma RenamesAdvance(s: ES.Store, r: S.Snap, e: Event)
    requires Renames(s, r) && ES.Refusal(s, Core(e)).None? && KeepsApart(s, e.traceId)
    ensures Renames(ES.Appended(s, Core(e)), S.Advance(r, Back(e)))
  {
    hide StoredTrace, StoredHash, ES.Refusal;
    var s', r' := ES.Appended(s, Core(e)), S.Advance(r, Back(e));
    assert s'.lastSeq == s.lastSeq[e.traceId := e.seqNo] && s'.lastHash == s.lastHash[e.traceId := e.eventHash];
    forall t | t in s'.lastSeq ensures RenamesTrace(s', r', t) {
      RenamesTraceAdvance(s, r, e, t);
    }
    hide ES.Appended;
    forall u | u in r'.lastSeq ensures exists t :: t in s'.lastSeq && StoredTrace(t) == u {
      if u == StoredTrace(e.traceId) {
        assert e.traceId in s'.lastSeq;
      } else {
        var t :| t in s.lastSeq && StoredTrace(t) == u;
        assert t in s'.lastSeq;
      }
    }
  }

  /** As long as no two traces come back under one ID, replay is accepted and gives the store's maps with the
      stored IDs and hashes. */
  lemma {:induction false} RenamedReplay(es: seq<Event>, tick: uint64)
    requires ES.Accepted(Cores(es)) && Apart(ES.Run(Cores(es)))
    ensures Replayed(es, tick).Some? && Renames(ES.Run(Cores(es)), Replayed(es, tick).value)
    ensures Replayed(es, tick).value.timestamp == tick
  {
    if es == [] {
      assert Replayed(es, tick) == Some(S.SnapOf(ES.EMPTY, tick));
    } else {
      hide ES.Refusal, ES.Run, ES.Accepted, ES.Appended, Renames, Replayed, Apart, KeepsApart, S.Follows, Back;
      var before, e := es[..|es| - 1], es[|es| - 1];
      var s := ES.Run(Cores(before));
      StoreStep(es);
      ApartStep(s, Core(e));
      RenamedReplay(before, tick);
      RenamesFollows(s, Replayed(before, tick).value, e);
      RenamesAdvance(s, Replayed(before, tick).value, e);
      ReplayedStep(es, tick);
    }
  }

  /** Every trace ID that replay ends with fits. */
  lemma {:induction false} ReplayedFits(es: seq<Event>, tick: uint64)
    requires Replayed(es, tick).Some?
    ensures forall u <- Replayed(es, tick).value.lastSeq :: TraceFits(u)
  {
    if es != [] {
      hide Replayed, StoredTrace, StoredHash, TraceFits;
      ReplayedStep(es, tick);
      ReplayedFits(es[..|es| - 1], tick);
      StoredTraceFits(es[|es| - 1].traceId);
    } else {
      assert Replayed(es, tick) == Some(S.SnapOf(ES.EMPTY, tick));
    }
  }

  lemma StoredTraceFits(t: bytes)
    ensures TraceFits(StoredTrace(t))
  {
    PadOfTrim(PadTrace(t));
    TraceSurvives(StoredTrace(t));
  }

  /** What a caller can check of a store: trace IDs and tip hashes fit the fields of a log frame. */
  ghost predicate TipsSurvive(s: ES.Store) {
    forall t <- s.lastHash :: TraceFits(t) && IsHexHash(s.lastHash[t])
  }

  /** Replaying what a log of accepted events is recovered as restores the store if and only if the store's trace IDs
      and tip hashes fit their fields. Hashes before the tip may be anything. */
  lemma ReplayRestoresIff(es: seq<Event>, tick: uint64)
    requires ES.Accepted(Cores(es))
    ensures Replayed(es, tick) == Some(S.SnapOf(ES.Run(Cores(es)), tick)) <==> TipsSurvive(ES.Run(Cores(es)))
  {
    var s, want := ES.Run(Cores(es)), S.SnapOf(ES.Run(Cores(es)), tick);
    ES.RunIsValid(Cores(es));
    hide ES.Run, Replayed, StoredTrace, StoredHash, TraceFits, IsHexHash, ES.TraceValid;
    if TipsSurvive(s) || Replayed(es, tick) == Some(want) {
      if Replayed(es, tick) == Some(want) { ReplayedFits(es, tick); }
      forall t | t in s.lastSeq ensures TraceFits(t) && StoredTrace(t) == t { TraceSurvives(t); }
      RenamedReplay(es, tick);
      RestoredIff(s, Replayed(es, tick).value);
    }
  }

  lemma RestoredIff(s: ES.Store, r: S.Snap)
    requires Renames(s, r) && s.lastSeq.Keys == s.lastHash.Keys
    requires forall t <- s.lastSeq :: TraceFits(t) && StoredTrace(t) == t
    ensures r.lastSeq == s.lastSeq
    ensures r.lastHash == s.lastHash <==> TipsSurvive(s)
  {
    hide StoredTrace, StoredHash, TraceFits, IsHexHash;
    forall t | t in s.lastSeq
      ensures t in r.lastSeq && t in r.lastHash && r.lastSeq[t] == s.lastSeq[t]
      ensures r.lastHash[t] == s.lastHash[t] <==> IsHexHash(s.lastHash[t])
    {
      assert RenamesTrace(s, r, t);
      HashSurvives(s.lastHash[t]);
    }
    assert r.lastSeq.Keys == s.lastSeq.Keys;
  }

  /** Short of a wrapped counter, replay panics if and only if two traces come back under one ID. */
  lemma {:induction false} ReplayPanicsIff(es: seq<Event>, tick: uint64)
    requires ES.Accepted(Cores(es)) && forall t :: |ES.Trace(Cores(es), t)| < U64
    ensures Replayed(es, tick).None? <==> !Apart(ES.Run(Cores(es)))
  {
    if Apart(ES.Run(Cores(es))) {
      RenamedReplay(es, tick);
    } else if es != [] {
      hide ES.Trace, ES.Refusal, ES.Run, ES.Accepted, ES.Appended, Replayed, Apart, KeepsApart, S.Follows, Back;
      var before, e := es[..|es| - 1], es[|es| - 1];
      StoreStep(es);
      ReplayedStep(es, tick);
      assert Cores(before) == Cores(es)[..|es| - 1];
      forall t ensures |ES.Trace(Cores(before), t)| < U64 { ES.TracePrefix(Cores(before), Cores(es), t); }
      ReplayPanicsIff(before, tick);
      ApartStep(ES.Run(Cores(before)), Core(e));
      if Apart(ES.Run(Cores(before))) {
        MergedIsRefused(before, e, tick);
      }
    }
  }

  /** The first event of a trace is numbered 1, which no running trace of the same stored ID goes on with. */
  lemma MergedIsRefused(es: seq<Event>, e: Event, tick: uint64)
    requires ES.Accepted(Cores(es)) && Apart(ES.Run(Cores(es))) && forall t :: |ES.Trace(Cores(es), t)| < U64
    requires ES.Refusal(ES.Run(Cores(es)), Core(e)).None? && !KeepsApart(ES.Run(Cores(es)), e.traceId)
    ensures Replayed(es, tick).Some? && !S.Follows(Replayed(es, tick).value, Back(e))
  {
    hide ES.Trace, ES.Run, ES.Appended, Replayed, StoredTrace, StoredHash;
    var s := ES.Run(Cores(es));
    RenamedReplay(es, tick);
    var u :| u in s.lastSeq && StoredTrace(u) == StoredTrace(e.traceId) && u != e.traceId;
    assert RenamesTrace(s, Replayed(es, tick).value, u);
    ES.MapsSummariseLog(Cores(es), u);
    OldTraceStays(s, Replayed(es, tick).value, u, e);
  }

  lemma OldTraceStays(s: ES.Store, r: S.Snap, u: bytes, e: Event)
    requires u in s.lastSeq && s.lastSeq[u] != 0 && RenamesTrace(s, r, u)
    requires StoredTrace(u) == StoredTrace(e.traceId) && u != e.traceId
    requires e.traceId !in s.lastSeq && ES.Refusal(s, Core(e)).None?
    ensures !S.Follows(r, Back(e))
  {
    hide StoredTrace, StoredHash;
  }

  // ---------------------------------------------------------------- logs that do and do not survive

  /** An event whose trace and hash fit the fields of a log frame. */
  predicate Writable(e: Event) {
    TraceFits(e.traceId) && IsHexHash(e.eventHash)
  }

  /** Events that fit leave tips that fit, at every cut of the log. */
  lemma {:induction false} WritableTipsSurvive(es: seq<Event>)
    requires ES.Accepted(Cores(es)) && forall e <- es :: Writable(e)
    ensures TipsSurvive(ES.Run(Cores(es)))
  {
    if es != [] {
      hide ES.Run, ES.Accepted, TraceFits, IsHexHash;
      StoreStep(es);
      WritableTipsSurvive(es[..|es| - 1]);
      assert Writable(es[|es| - 1]);
    }
  }

  const LETTER: byte := 0x61

  function Letters(n: nat): (t: bytes)
    ensures |t| == n && forall i :: 0 <= i < n ==> t[i] == LETTER
  {
    seq(n, _ => LETTER)
  }

  function First(t: bytes): Event {
    Canon.Event(t, 1, [], ToHex(Zeros(32)), [], 0)
  }

  lemma FirstsAccepted(t: bytes, u: bytes)
    requires t != u
    ensures ES.Run(Cores([First(t)])) == ES.Appended(ES.EMPTY, Core(First(t))) && ES.Accepted(Cores([First(t)]))
    ensures ES.Accepted(Cores([First(t), First(u)])) && {t, u} <= ES.Run(Cores([First(t), First(u)])).lastSeq.Keys
  {
    hide ToHex;
    var one, two := Cores([First(t)]), Cores([First(t), First(u)]);
    assert one[..0] == [] && two[..1] == one;
    assert ES.Run(one) == ES.Appended(ES.Run([]), one[0]);
    assert ES.Run(two) == ES.Appended(ES.Run(one), two[1]);
  }

  /** One event whose trace ID has 17 bytes: the store accepts it, the log takes it, recovery reports no error, and
      replay ends in other maps. */
  lemma LongTraceIsRenamed(sha: Sha256, tick: uint64)
    ensures var es := [First(Letters(17))];
      && ES.Accepted(Cores(es)) && Loggable(es)
      && Parse(sha, LogFile(sha, es)) == Recovery(RecoveredAll(es), None)
      && Replayed(es, tick) != Some(S.SnapOf(ES.Run(Cores(es)), tick))
  {
    hide Parse, LogFile, Replayed;
    var t := Letters(17);
    FirstsAccepted(t, []);
    ParseWholeLog(sha, [First(t)]);
    ReplayRestoresIff([First(t)], tick);
    assert t in ES.Appended(ES.EMPTY, Core(First(t))).lastHash && !TraceFits(t);
  }

  /** Any two traces whose IDs share their first 16 bytes: again no error anywhere, and replay panics. */
  lemma SharedPrefixPanics(sha: Sha256, t: bytes, u: bytes, tick: uint64)
    requires |t| >= 16 && |u| >= 16 && t[..16] == u[..16] && t != u
    ensures var es := [First(t), First(u)];
      && ES.Accepted(Cores(es)) && Loggable(es)
      && Parse(sha, LogFile(sha, es)) == Recovery(RecoveredAll(es), None)
      && Replayed(es, tick) == None
  {
    hide Parse, LogFile, Replayed, ES.Trace;
    var es := [First(t), First(u)];
    FirstsAccepted(t, u);
    ParseWholeLog(sha, es);
    forall x ensures |ES.Trace(Cores(es), x)| < U64 { ShortTrace(Cores(es), x); }
    ReplayPanicsIff(es, tick);
    SharedStoredTrace(t, u);
    hide StoredTrace;
    assert {t, u} <= ES.Run(Cores(es)).lastSeq.Keys;
  }

  lemma SharedStoredTrace(t: bytes, u: bytes)
    requires |t| >= 16 && |u| >= 16 && t[..16] == u[..16]
    ensures StoredTrace(t) == StoredTrace(u)
  {
    hide TrimZeros;
    TraceField(t);
    TraceField(u);
    forall i | 0 <= i < 16 ensures PadTrace(t)[i] == PadTrace(u)[i] {
      assert t[i] == t[..16][i] && u[i] == u[..16][i];
    }
    assert PadTrace(t) == PadTrace(u);
  }

  lemma ShortTrace(es: seq<ES.Event>, t: bytes)
    ensures |ES.Trace(es, t)| <= |es|
  {
  }

  // ---------------------------------------------------------------- end to end

  /** Write any log the store accepted, lose any number of bytes off the end, recover, and replay: there is no error,
      exactly the wholly written events come back, and replay lands on the store as it was after them if and only if
      that store's trace IDs and tip hashes fit their fields. */
  lemma CrashReplayTheorem(sha: Sha256, es: seq<Event>, n: nat, tick: uint64)
    requires ES.Accepted(Cores(es)) && Loggable(es)
    requires n <= |LogFile(sha, es)|
    ensures var k := WholeFrames(es, n);
      var r, s := Parse(sha, LogFile(sha, es)[..n]), ES.Run(Cores(es)[..k]);
      && r == Recovery(RecoveredAll(es[..k]), None)
      && (S.Replay(S.SnapOf(ES.EMPTY, tick), S.ReduceAll(Cores(r.events))) == Some(S.SnapOf(s, tick))
          <==> TipsSurvive(s))
  {
    hide ES.Run, Parse, LogFile, ES.Accepted, TipsSurvive, WholeFrames, S.Replay;
    var k := WholeFrames(es, n);
    ParseCutLog(sha, es, n);
    assert Cores(es[..k]) == Cores(es)[..k];
    ES.AcceptedPrefix(Cores(es), k);
    ReplayRestoresIff(es[..k], tick);
  }

  /** In particular, after any crash, for events that fit. */
  lemma CrashReplayOfWritable(sha: Sha256, es: seq<Event>, n: nat, tick: uint64)
    requires ES.Accepted(Cores(es)) && Loggable(es) && forall e <- es :: Writable(e)
    requires n <= |LogFile(sha, es)|
    ensures var k := WholeFrames(es, n);
      S.Replay(S.SnapOf(ES.EMPTY, tick), S.ReduceAll(Cores(Parse(sha, LogFile(sha, es)[..n]).events)))
      == Some(S.SnapOf(ES.Run(Cores(es)[..k]), tick))
  {
    hide ES.Run, Parse, LogFile, ES.Accepted, TipsSurvive, WholeFrames, S.Replay, Writable;
    var k := WholeFrames(es, n);
    CrashReplayTheorem(sha, es, n, tick);
    assert Cores(es[..k]) == Cores(es)[..k];
    ES.AcceptedPrefix(Cores(es), k);
    WritableTipsSurvive(es[..k]);
  }

  /** The same after any disciplined use of the log object, with any number of crashes on the way: recovery gives the
      surviving events, and replay the state of a store that appended exactly these, if and only if its trace IDs and
      tip hashes fit. */
  lemma CrashAfterAnyRun(sha: Sha256, ops: seq<Wal.Op>, states: seq<Wal.LogState>, tick: uint64)
    requires Wal.Disciplined(ops) && Wal.IsRun(sha, ops, states)
    requires ES.Accepted(Cores(Wal.FollowAll(ops).history))
    ensures var es := Wal.FollowAll(ops).history;
      var r, s := Parse(sha, states[|ops|].disk), ES.Run(Cores(es));
      && r == Recovery(RecoveredAll(es), None)
      && (S.Replay(S.SnapOf(ES.EMPTY, tick), S.ReduceAll(Cores(r.events))) == Some(S.SnapOf(s, tick))
          <==> TipsSurvive(s))
  {
    hide ES.Run, Parse, LogFile, ES.Accepted, TipsSurvive, Wal.FollowAll, S.Replay;
    Wal.RunInvariant(sha, ops, states);
    ReplayRestoresIff(Wal.FollowAll(ops).history, tick);
  }

  /** The stated recovery invariant, read literally, fails for every non-empty log the store accepted: the empty
      previous hash of a first event comes back as 64 zeros. */
  lemma RecoveredIsLogIffEmpty(sha: Sha256, es: seq<Event>)
    requires ES.Accepted(Cores(es)) && Loggable(es)
    ensures Parse(sha, LogFile(sha, es)).events == es <==> es == []
  {
    hide Parse, LogFile;
    ParseWholeLog(sha, es);
    if es != [] {
      ES.AcceptedPrefix(Cores(es), 1);
      ES.AcceptedStep(Cores(es)[..1]);
      assert es[0].prevHash == [];
      assert RecoveredAll(es)[0] == Recovered(es[0]);
      assert |Recovered(es[0]).prevHash| == 64;
    }
  }

  /** Worse, a fresh store refuses every recovered event: only fast replay, which ignores previous hashes,
      can rebuild state from the log. */
  lemma {:induction false} RecoveredNeverReappends(es: seq<Event>)
    ensures ES.Run(Cores(RecoveredAll(es))) == ES.EMPTY
  {
    if es != [] {
      var before, e := es[..|es| - 1], es[|es| - 1];
      hide Recovered, Core, ES.Refusal;
      RecoveredNeverReappends(before);
      assert Cores(RecoveredAll(es))[..|es| - 1] == Cores(RecoveredAll(before));
      RecoveredIsRefused(e);
    }
  }

  lemma RecoveredIsRefused(e: Event)
    ensures ES.Refusal(ES.EMPTY, Core(Recovered(e))).Some?
  {
    hide PadTrace, TrimZeros, HashField, ToHex;
    assert |Recovered(e).prevHash| == 64;
  }
}
