/** What a log file means: the events a left-to-right parse of its bytes yields, and what
    cutting, damaging or overwriting the file does to them (pkg/wal/wal.go). */
module WalRecovery {
  import opened Bytes
  import opened WalCodec
  import Canon

  type Event = Canon.Event

  /** The entry WAL.Append builds from an event: the tick is not stored. */
  function EntryOf(e: Event): WALEntry {
    WALEntry(e.seqNo, e.traceId, e.eventHash, e.prevHash, e.payload, [])
  }

  function EventOf(w: WALEntry): Event {
    Canon.Event(w.traceId, w.seqNo, w.prevHash, w.eventHash, w.payload, 0)
  }

  function Frame(sha: Sha256, e: Event): (f: bytes)
    ensures |f| == MIN_FRAME + |e.payload|
  {
    Encoding(sha, EntryOf(e))
  }

  /** Where the fields of an event stand in its frame. */
  lemma FrameLayout(sha: Sha256, e: Event)
    ensures var f, n := Frame(sha, e), |e.payload|;
      && IsBigEndian(f[..8], e.seqNo)
      && IsTraceField(f[8..24], e.traceId)
      && IsHashField(f[24..56], e.eventHash)
      && IsHashField(f[56..88], e.prevHash)
      && IsBigEndian(f[88..92], n % 0x1_0000_0000)
      && f[92..92 + n] == e.payload
      && f[92 + n..] == sha(f[..92 + n])
  {
    hide Encoding, IsBigEndian, IsTraceField, IsHashField;
    EncodingLayout(sha, EntryOf(e));
  }

  /** The event a logged event is recovered as. */
  function Recovered(e: Event): Event {
    Canon.Event(StoredTrace(e.traceId), e.seqNo, StoredHash(e.prevHash), StoredHash(e.eventHash), e.payload, 0)
  }

  function RecoveredAll(es: seq<Event>): (rs: seq<Event>)
    ensures |rs| == |es|
    ensures forall i :: 0 <= i < |es| ==> rs[i] == Recovered(es[i])
  {
    seq(|es|, i requires 0 <= i < |es| => Recovered(es[i]))
  }

  ghost predicate Loggable(es: seq<Event>) {
    forall e <- es :: |e.payload| < U32
  }

  /** The file after appending `es` one after the other. */
  function LogFile(sha: Sha256, es: seq<Event>): bytes {
    if es == [] then [] else Frame(sha, es[0]) + LogFile(sha, es[1..])
  }

  datatype Recovery = Recovery(events: seq<Event>, err: Option<WalError>)

  /** Reference meaning of a file: whole frames from the left until the bytes run out or a frame is bad. */
  function Parse(sha: Sha256, b: bytes): Recovery
    decreases |b|
  {
    if |b| < HEADER || |b| < FrameSize(b) then Recovery([], None)
    else
      match Decoding(sha, b[..FrameSize(b)])
      case Err(x) => Recovery([], Some(x))
      case Ok(w) =>
        var rest := Parse(sha, b[FrameSize(b)..]);
        Recovery([EventOf(w)] + rest.events, rest.err)
  }

  // ---------------------------------------------------------------- frames and parsing

  lemma SliceOfPrefix(b: bytes, n: nat)
    requires HEADER <= n <= |b|
    ensures b[..n][88..92] == b[88..92]
  {
  }

  /** The parser and the decoder agree on the size of a frame, so the decoder never complains about format. */
  lemma {:induction false} NeverInvalidFormat(sha: Sha256, b: bytes)
    ensures Parse(sha, b).err in {None, Some(Corruption)}
    decreases |b|
  {
    if |b| >= HEADER && |b| >= FrameSize(b) {
      SliceOfPrefix(b, FrameSize(b));
      NeverInvalidFormat(sha, b[FrameSize(b)..]);
    }
  }

  lemma ParseFrame(sha: Sha256, e: Event, rest: bytes)
    requires |e.payload| < U32
    ensures Parse(sha, Frame(sha, e) + rest) ==
            Recovery([Recovered(e)] + Parse(sha, rest).events, Parse(sha, rest).err)
  {
    var b := Frame(sha, e) + rest;
    FrameSizeOfEncoding(sha, EntryOf(e), rest);
    assert b[..FrameSize(b)] == Frame(sha, e) && b[FrameSize(b)..] == rest;
    DecodeOfEncode(sha, EntryOf(e));
  }

  lemma RecoveredCons(es: seq<Event>, more: seq<Event>)
    requires es != []
    ensures [Recovered(es[0])] + (RecoveredAll(es[1..]) + more) == RecoveredAll(es) + more
  {
    hide Recovered, RecoveredAll;
    var tail := RecoveredAll(es[1..]);
    var all, glued := RecoveredAll(es), [Recovered(es[0])] + tail;
    forall i | 0 <= i < |all| ensures all[i] == glued[i] {
      assert i > 0 ==> es[i] == es[1..][i - 1];
    }
    assert all == glued;
  }

  /** A file made of whole frames contributes exactly its events, whatever bytes follow. */
  lemma {:induction false} ParseLog(sha: Sha256, es: seq<Event>, rest: bytes)
    requires Loggable(es)
    ensures Parse(sha, LogFile(sha, es) + rest) ==
            Recovery(RecoveredAll(es) + Parse(sha, rest).events, Parse(sha, rest).err)
  {
    hide Frame, Parse, Recovered;
    if es == [] {
      assert LogFile(sha, es) + rest == rest;
      assert RecoveredAll(es) + Parse(sha, rest).events == Parse(sha, rest).events;
    } else {
      var tail := LogFile(sha, es[1..]) + rest;
      assert LogFile(sha, es) + rest == Frame(sha, es[0]) + tail;
      ParseFrame(sha, es[0], tail);
      ParseLog(sha, es[1..], rest);
      RecoveredCons(es, Parse(sha, rest).events);
    }
  }

  lemma ParseWholeLog(sha: Sha256, es: seq<Event>)
    requires Loggable(es)
    ensures Parse(sha, LogFile(sha, es)) == Recovery(RecoveredAll(es), None)
  {
    ParseLog(sha, es, []);
    assert LogFile(sha, es) + [] == LogFile(sha, es);
    assert RecoveredAll(es) + [] == RecoveredAll(es);
  }

  lemma {:induction false} LogFileSnoc(sha: Sha256, es: seq<Event>, e: Event)
    ensures LogFile(sha, es + [e]) == LogFile(sha, es) + Frame(sha, e)
  {
    hide Frame;
    if es == [] {
      assert es + [e] == [e];
    } else {
      LogFileSnoc(sha, es[1..], e);
      assert (es + [e])[1..] == es[1..] + [e];
    }
  }

  // ---------------------------------------------------------------- sizes

  function TotalSize(es: seq<Event>): nat {
    if es == [] then 0 else MIN_FRAME + |es[0].payload| + TotalSize(es[1..])
  }

  lemma {:induction false} TotalSizeOfLog(sha: Sha256, es: seq<Event>)
    ensures TotalSize(es) == |LogFile(sha, es)| == TotalSize(RecoveredAll(es))
  {
    if es != [] {
      TotalSizeOfLog(sha, es[1..]);
      assert RecoveredAll(es)[1..] == RecoveredAll(es[1..]);
    }
  }

  /** Where decoding stops: behind the last whole frame, or behind the first bad one. */
  function Consumed(sha: Sha256, b: bytes): (n: nat)
    ensures n <= |b|
    decreases |b|
  {
    if |b| < HEADER || |b| < FrameSize(b) then 0
    else if Decoding(sha, b[..FrameSize(b)]).Err? then FrameSize(b)
    else FrameSize(b) + Consumed(sha, b[FrameSize(b)..])
  }

  /** What the next frame of a file adds to what is recovered, and to where decoding stops. */
  lemma NextFrame(sha: Sha256, b: bytes)
    ensures |b| < HEADER || |b| < FrameSize(b) ==> Parse(sha, b) == Recovery([], None) && Consumed(sha, b) == 0
    ensures |b| >= HEADER && |b| >= FrameSize(b) ==>
      var n := FrameSize(b);
      match Decoding(sha, b[..n])
      case Err(x) => Parse(sha, b) == Recovery([], Some(x)) && Consumed(sha, b) == n
      case Ok(w) =>
        var rest := Parse(sha, b[n..]);
        && Parse(sha, b).err == rest.err && Parse(sha, b).events == [EventOf(w)] + rest.events && |w.payload| < U32
        && Consumed(sha, b) == n + Consumed(sha, b[n..])
        && TotalSize(Parse(sha, b).events) == n + TotalSize(rest.events)
  {
    if |b| >= HEADER && |b| >= FrameSize(b) {
      hide Encoding, Sealed, Fields;
      var n := FrameSize(b);
      SliceOfPrefix(b, n);
      if Decoding(sha, b[..n]).Ok? {
        EncodeOfDecode(sha, b[..n]);
        hide Decoding;
        assert Parse(sha, b).events[1..] == Parse(sha, b[n..]).events;
      }
    }
  }

  /** Decoding stops behind the recovered events' frames, or one bad frame further on. */
  lemma {:induction false} ConsumedExact(sha: Sha256, b: bytes)
    ensures var r, n := Parse(sha, b), TotalSize(Parse(sha, b).events);
      && n <= |b|
      && (r.err.None? ==> Consumed(sha, b) == n)
      && (r.err.Some? ==> |b| - n >= HEADER && Consumed(sha, b) == n + FrameSize(b[n..]))
    decreases |b|
  {
    hide Parse, Consumed, Decoding;
    NextFrame(sha, b);
    if |b| >= HEADER && |b| >= FrameSize(b) && Decoding(sha, b[..FrameSize(b)]).Ok? {
      var n := FrameSize(b);
      ConsumedExact(sha, b[n..]);
      var m := TotalSize(Parse(sha, b[n..]).events);
      assert b[n..][m..] == b[n + m..];
    } else {
      assert b[0..] == b;
    }
  }

  lemma {:induction false} ParsedIsLoggable(sha: Sha256, b: bytes)
    ensures Loggable(Parse(sha, b).events)
    decreases |b|
  {
    hide Parse, Consumed, Decoding;
    NextFrame(sha, b);
    if |b| >= HEADER && |b| >= FrameSize(b) && Decoding(sha, b[..FrameSize(b)]).Ok? {
      ParsedIsLoggable(sha, b[FrameSize(b)..]);
    }
  }

  /** Recovery never makes up bytes: the events it returns fit in what it decoded, and so in the file, and every
      payload length fits its field. */
  lemma ParseFitsFile(sha: Sha256, b: bytes)
    ensures TotalSize(Parse(sha, b).events) <= Consumed(sha, b) <= |b|
    ensures Loggable(Parse(sha, b).events)
  {
    hide Parse, Consumed, TotalSize, Loggable;
    ConsumedExact(sha, b);
    ParsedIsLoggable(sha, b);
  }

  /** A bad frame found after reading on ends behind what was held back before. */
  lemma ConsumedBeyond(sha: Sha256, held: bytes, more: bytes)
    requires Parse(sha, held) == Recovery([], None) && Parse(sha, held + more).err.Some?
    ensures Consumed(sha, held + more) > |held|
  {
    hide Decoding, EventOf;
    var b := held + more;
    if |held| >= HEADER {
      assert b[88..92] == held[88..92];
    }
  }

  // ---------------------------------------------------------------- a crash: the file is cut

  /** How many leading events have their whole frame inside the first `n` bytes. */
  function WholeFrames(es: seq<Event>, n: nat): (k: nat)
    ensures k <= |es|
  {
    if es == [] || n < MIN_FRAME + |es[0].payload| then 0
    else 1 + WholeFrames(es[1..], n - MIN_FRAME - |es[0].payload|)
  }

  /** `WholeFrames` counts right: that many frames fit, and one more would not. */
  lemma {:induction false} WholeFramesExact(es: seq<Event>, n: nat)
    ensures var k := WholeFrames(es, n);
      TotalSize(es[..k]) <= n && (k < |es| ==> n < TotalSize(es[..k + 1]))
  {
    var k := WholeFrames(es, n);
    if k > 0 {
      WholeFramesExact(es[1..], n - MIN_FRAME - |es[0].payload|);
      assert es[..k][1..] == es[1..][..k - 1];
      if k < |es| { assert es[..k + 1][1..] == es[1..][..k]; }
    } else if es != [] {
      assert es[..1][1..] == [];
    }
  }

  /** Bytes that are only the beginning of the frame of `e`. */
  ghost predicate TornFrom(sha: Sha256, e: Event, torn: bytes) {
    |e.payload| < U32 && torn <= Frame(sha, e) && torn != Frame(sha, e)
  }

  ghost predicate Torn(sha: Sha256, torn: bytes) {
    exists e :: TornFrom(sha, e, torn)
  }

  /** Whole frames, then at most a torn one. */
  ghost predicate TornLog(sha: Sha256, es: seq<Event>, disk: bytes) {
    LogFile(sha, es) <= disk && Torn(sha, disk[|LogFile(sha, es)|..])
  }

  /** Bytes that are only the beginning of a frame yield nothing and no error. */
  lemma ParseTornFrame(sha: Sha256, torn: bytes)
    requires Torn(sha, torn)
    ensures Parse(sha, torn) == Recovery([], None)
  {
    hide Encoding;
    var e :| TornFrom(sha, e, torn);
    if |torn| >= HEADER {
      assert torn[88..92] == (Frame(sha, e) + [])[88..92];
      FrameSizeOfEncoding(sha, EntryOf(e), []);
    }
  }

  /** A torn log recovers without error to exactly the events whose frames are whole. */
  lemma ParseTornLog(sha: Sha256, es: seq<Event>, disk: bytes)
    requires Loggable(es) && TornLog(sha, es, disk)
    ensures Parse(sha, disk) == Recovery(RecoveredAll(es), None)
  {
    hide LogFile, Parse, Torn, Recovered;
    var torn := disk[|LogFile(sha, es)|..];
    ParseLog(sha, es, torn);
    ParseTornFrame(sha, torn);
    assert LogFile(sha, es) + torn == disk;
    assert RecoveredAll(es) + [] == RecoveredAll(es);
  }

  /** A log without a torn frame is a torn log too. */
  lemma WholeLogIsTornLog(sha: Sha256, es: seq<Event>)
    ensures TornLog(sha, es, LogFile(sha, es))
  {
    hide Frame, LogFile;
    var e := Canon.Event([], 0, [], [], [], 0);
    assert LogFile(sha, es)[|LogFile(sha, es)|..] == [];
    assert TornFrom(sha, e, []);
  }

  lemma TornLogCons(sha: Sha256, es: seq<Event>, disk: bytes)
    requires es != [] && TornLog(sha, es[1..], disk)
    ensures TornLog(sha, es, Frame(sha, es[0]) + disk)
  {
    hide Frame, Torn;
    var log := LogFile(sha, es[1..]);
    assert (Frame(sha, es[0]) + disk)[|Frame(sha, es[0])| + |log|..] == disk[|log|..];
  }

  lemma TornLogTail(sha: Sha256, es: seq<Event>, disk: bytes)
    requires es != [] && TornLog(sha, es, disk)
    ensures Frame(sha, es[0]) <= disk && TornLog(sha, es[1..], disk[|Frame(sha, es[0])|..])
  {
    hide Frame, Torn;
    var f, log := Frame(sha, es[0]), LogFile(sha, es[1..]);
    assert LogFile(sha, es) == f + log;
    assert disk == (f + log) + disk[|f| + |log|..];
    assert disk[|f|..] == log + disk[|f| + |log|..];
  }

  /** Bytes of a torn frame, cut again, or of a whole one cut short. */
  lemma CutTornFrame(sha: Sha256, e: Event, torn: bytes, n: nat)
    requires |e.payload| < U32 && n <= |torn|
    requires TornFrom(sha, e, torn) || (Frame(sha, e) <= torn && n < |Frame(sha, e)|)
    ensures TornLog(sha, [], torn[..n])
  {
    hide Frame;
    assert torn[..n] == torn[..n][|LogFile(sha, [])|..];
    assert TornFrom(sha, e, torn[..n]);
  }

  /** Cut anywhere, a torn log is the torn log of the events whose frames are still whole. */
  lemma {:induction false} CutTornLog(sha: Sha256, es: seq<Event>, disk: bytes, n: nat)
    requires Loggable(es) && TornLog(sha, es, disk) && n <= |disk|
    ensures TornLog(sha, es[..WholeFrames(es, n)], disk[..n])
  {
    hide Frame;
    var k := WholeFrames(es, n);
    if es == [] {
      var e :| TornFrom(sha, e, disk[|LogFile(sha, es)|..]);
      assert disk[|LogFile(sha, es)|..] == disk;
      CutTornFrame(sha, e, disk, n);
    } else {
      hide TornLog, LogFile;
      var f := Frame(sha, es[0]);
      TornLogTail(sha, es, disk);
      if n < |f| {
        CutTornFrame(sha, es[0], disk, n);
        assert es[..k] == [];
      } else {
        CutTornLog(sha, es[1..], disk[|f|..], n - |f|);
        assert es[..k][1..] == es[1..][..k - 1];
        TornLogCons(sha, es[..k], disk[|f|..][..n - |f|]);
        assert f + disk[|f|..][..n - |f|] == disk[..n];
      }
    }
  }

  /** Cut anywhere, the file recovers without error to exactly the events whose frames are whole. */
  lemma ParseCutLog(sha: Sha256, es: seq<Event>, n: nat)
    requires Loggable(es) && n <= |LogFile(sha, es)|
    ensures Parse(sha, LogFile(sha, es)[..n]) == Recovery(RecoveredAll(es[..WholeFrames(es, n)]), None)
  {
    hide LogFile, Parse, TornLog, WholeFrames;
    WholeLogIsTornLog(sha, es);
    CutTornLog(sha, es, LogFile(sha, es), n);
    ParseTornLog(sha, es[..WholeFrames(es, n)], LogFile(sha, es)[..n]);
  }

  // ---------------------------------------------------------------- what a recovery tells about the file

  /** An entry that was read back as `e` was written as its frame. */
  lemma RecoveredEncodes(sha: Sha256, w: WALEntry, e: Event)
    requires EventOf(w) == Recovered(e)
    ensures Encoding(sha, w) == Frame(sha, e)
  {
    hide StoredTrace, StoredHash, BigEndian;
    assert w == Norm(sha, EntryOf(e)).(checksum := w.checksum);
    assert Body(w) == Body(Norm(sha, EntryOf(e)));
    BodyOfNorm(sha, EntryOf(e));
  }

  lemma DecodedFrame(sha: Sha256, b: bytes)
    requires |b| >= HEADER && |b| >= FrameSize(b) && Decoding(sha, b[..FrameSize(b)]).Ok?
    ensures b[..FrameSize(b)] == Encoding(sha, Decoding(sha, b[..FrameSize(b)]).value)
  {
    hide Encoding, Sealed, Fields;
    var raw := b[..FrameSize(b)];
    SliceOfPrefix(b, FrameSize(b));
    EncodeOfDecode(sha, raw);
  }

  lemma FirstFrame(sha: Sha256, b: bytes, e: Event)
    requires Parse(sha, b).events != [] && Parse(sha, b).events[0] == Recovered(e)
    ensures var f := Frame(sha, e);
      && f <= b
      && Parse(sha, b) == Recovery([Recovered(e)] + Parse(sha, b[|f|..]).events, Parse(sha, b[|f|..]).err)
  {
    hide Recovered, EventOf, Encoding, Decoding, FrameSize;
    DecodedFrame(sha, b);
    RecoveredEncodes(sha, Decoding(sha, b[..FrameSize(b)]).value, e);
  }

  lemma {:induction false} RecoversLoggableIff(sha: Sha256, es: seq<Event>, b: bytes)
    requires Loggable(es)
    ensures Parse(sha, b) == Recovery(RecoveredAll(es), None)
       <==> LogFile(sha, es) <= b && Parse(sha, b[|LogFile(sha, es)|..]) == Recovery([], None)
  {
    hide Frame, Parse, Recovered;
    var log := LogFile(sha, es);
    if log <= b {
      ParseLog(sha, es, b[|log|..]);
      assert log + b[|log|..] == b;
    }
    if Parse(sha, b) == Recovery(RecoveredAll(es), None) {
      if es == [] {
        assert b[|log|..] == b;
      } else {
        FirstFrame(sha, b, es[0]);
        var f := Frame(sha, es[0]);
        var rest := b[|f|..];
        assert RecoveredAll(es[1..]) == RecoveredAll(es)[1..] == Parse(sha, rest).events;
        RecoversLoggableIff(sha, es[1..], rest);
        assert b == f + rest && log == f + LogFile(sha, es[1..]);
      }
    }
  }

  /** Only histories whose payload lengths fit their fields are ever recovered. */
  lemma RecoveredIsLoggable(sha: Sha256, es: seq<Event>, b: bytes)
    requires Parse(sha, b).events == RecoveredAll(es)
    ensures Loggable(es)
  {
    hide Parse;
    ParseFitsFile(sha, b);
    forall e | e in es ensures |e.payload| < U32 {
      var i :| 0 <= i < |es| && es[i] == e;
      assert RecoveredAll(es)[i] in Parse(sha, b).events;
    }
  }

  /** Recovery yields exactly the history `es` and no error if and only if its payload lengths fit, the file starts
      with its frames, and nothing can be read from the rest. */
  lemma RecoversExactlyIff(sha: Sha256, es: seq<Event>, b: bytes)
    ensures Parse(sha, b) == Recovery(RecoveredAll(es), None)
       <==> && Loggable(es) && LogFile(sha, es) <= b
            && Parse(sha, b[|LogFile(sha, es)|..]) == Recovery([], None)
  {
    hide LogFile, Parse, Loggable;
    if Loggable(es) {
      RecoversLoggableIff(sha, es, b);
    } else if Parse(sha, b) == Recovery(RecoveredAll(es), None) {
      RecoveredIsLoggable(sha, es, b);
    }
  }

  // ---------------------------------------------------------------- damage

  /** Frame `i` replaced by `bad`, of the same announced size but not sealed: exactly the events before it
      are recovered, and the damage is reported. */
  lemma DamagedFrame(sha: Sha256, es: seq<Event>, i: nat, bad: bytes, rest: bytes)
    requires Loggable(es) && i < |es|
    requires |bad| == |Frame(sha, es[i])| && bad[88..92] == Frame(sha, es[i])[88..92]
    requires bad[|bad| - 32..] != sha(bad[..|bad| - 32])
    ensures Parse(sha, LogFile(sha, es[..i]) + bad + rest) == Recovery(RecoveredAll(es[..i]), Some(Corruption))
  {
    hide Recovered, Encoding, LogFile;
    var b := bad + rest;
    assert Frame(sha, es[i]) + [] == Frame(sha, es[i]);
    FrameSizeOfEncoding(sha, EntryOf(es[i]), []);
    assert b[88..92] == bad[88..92];
    assert b[..|bad|] == bad;
    assert Parse(sha, b) == Recovery([], Some(Corruption));
    ParseLog(sha, es[..i], b);
    assert LogFile(sha, es[..i]) + bad + rest == LogFile(sha, es[..i]) + b;
    assert RecoveredAll(es[..i]) + [] == RecoveredAll(es[..i]);
  }

  lemma FrameIsSealed(sha: Sha256, e: Event)
    ensures var f := Frame(sha, e); f[|f| - 32..] == sha(f[..|f| - 32])
  {
    hide Header;
    var body := Body(EntryOf(e));
    assert Frame(sha, e)[..|body|] == body;
  }

  /** Damage confined to the 32 checksum bytes is always caught: no assumption on the hash. */
  lemma DamagedChecksum(sha: Sha256, es: seq<Event>, i: nat, bad: bytes, rest: bytes)
    requires Loggable(es) && i < |es|
    requires var f := Frame(sha, es[i]); |bad| == |f| && bad != f && bad[..|f| - 32] == f[..|f| - 32]
    ensures Parse(sha, LogFile(sha, es[..i]) + bad + rest) == Recovery(RecoveredAll(es[..i]), Some(Corruption))
  {
    hide Frame, Parse, LogFile;
    var f := Frame(sha, es[i]);
    var n := |f| - 32;
    FrameIsSealed(sha, es[i]);
    assert bad == bad[..n] + bad[n..] && f == f[..n] + f[n..];
    assert bad[88..92] == bad[..n][88..92] == f[88..92];
    DamagedFrame(sha, es, i, bad, rest);
  }

  // ---------------------------------------------------------------- writing at the cursor

  /** The bytes of a file after writing `d` at offset `pos`; a gap past the end reads as zeros. */
  function WriteAt(data: bytes, pos: nat, d: bytes): bytes {
    var base := if |data| < pos then data + Zeros(pos - |data|) else data;
    base[..pos] + d + (if pos + |d| <= |base| then base[pos + |d|..] else [])
  }

  /** Byte by byte: the written bytes stand at the cursor, everything else is as it was, and a gap is zeros. */
  lemma WriteAtEachByte(data: bytes, pos: nat, d: bytes)
    ensures var r := WriteAt(data, pos, d);
      && |r| == (if pos + |d| > |data| then pos + |d| else |data|)
      && forall i :: 0 <= i < |r| ==>
           r[i] == if pos <= i < pos + |d| then d[i - pos] else if i < |data| then data[i] else 0
  {
  }

  /** The file is opened without append mode. On a log of `es`, writing the next frame keeps the whole
      history recoverable exactly when the cursor is at the end of the file and the payload length fits. */
  lemma AppendKeepsHistoryIffAtEnd(sha: Sha256, es: seq<Event>, e: Event, pos: nat)
    requires Loggable(es) && pos <= |LogFile(sha, es)|
    ensures Parse(sha, WriteAt(LogFile(sha, es), pos, Frame(sha, e))) == Recovery(RecoveredAll(es + [e]), None)
       <==> pos == |LogFile(sha, es)| && |e.payload| < U32
  {
    hide Frame, Parse, Recovered;
    var disk := LogFile(sha, es);
    var after := WriteAt(disk, pos, Frame(sha, e));
    LogFileSnoc(sha, es, e);
    if |e.payload| >= U32 {
      assert e in es + [e];
      if Parse(sha, after).events == RecoveredAll(es + [e]) { RecoveredIsLoggable(sha, es + [e], after); }
    } else if pos == |disk| {
      assert after == disk + Frame(sha, e);
      ParseWholeLog(sha, es + [e]);
    } else {
      ParseFitsFile(sha, after);
      TotalSizeOfLog(sha, es + [e]);
    }
  }

  /** A torn tail is not trimmed: when it still holds a header that announces more bytes than follow, the
      next append is swallowed by it, and recovery reports neither the event nor an error. */
  lemma TornTailSwallowsAppend(sha: Sha256, es: seq<Event>, torn: bytes, e: Event)
    requires Loggable(es)
    requires |torn| >= HEADER && |torn| + |Frame(sha, e)| < FrameSize(torn)
    ensures var disk := LogFile(sha, es) + torn;
      Parse(sha, WriteAt(disk, |disk|, Frame(sha, e))) == Recovery(RecoveredAll(es), None)
  {
    hide Frame, Recovered;
    var tail := torn + Frame(sha, e);
    assert tail[88..92] == torn[88..92];
    var disk := LogFile(sha, es) + torn;
    assert WriteAt(disk, |disk|, Frame(sha, e)) == LogFile(sha, es) + tail;
    ParseLog(sha, es, tail);
    assert RecoveredAll(es) + [] == RecoveredAll(es);
  }

  lemma LoggableSnoc(es: seq<Event>, e: Event)
    ensures Loggable(es + [e]) <==> Loggable(es) && |e.payload| < U32
  {
    var all := es + [e];
    assert all[|es|] == e && forall i :: 0 <= i < |es| ==> all[i] == es[i];
  }

  /** The exact condition for an append behind leftover bytes `tail`: written behind them, the frame must still be
      read from where they begin, and what it pushes out must read as nothing. */
  lemma AppendBehindTailIff(sha: Sha256, es: seq<Event>, tail: bytes, e: Event)
    requires Loggable(es)
    ensures var disk, moved := LogFile(sha, es) + tail, tail + Frame(sha, e);
      Parse(sha, WriteAt(disk, |disk|, Frame(sha, e))) == Recovery(RecoveredAll(es + [e]), None)
      <==> |e.payload| < U32 && Frame(sha, e) <= moved && Parse(sha, moved[|Frame(sha, e)|..]) == Recovery([], None)
  {
    hide Frame, Parse, Recovered, LogFile;
    var log, f := LogFile(sha, es), Frame(sha, e);
    var moved := tail + f;
    var after := log + moved;
    assert WriteAt(log + tail, |log + tail|, f) == after;
    LogFileSnoc(sha, es, e);
    LoggableSnoc(es, e);
    hide Loggable;
    RecoversExactlyIff(sha, es + [e], after);
    assert after[|log|..] == moved;
    assert log + f <= after <==> f <= moved by {
      if log + f <= after {
        assert f == (log + f)[|log|..] == after[|log|..|log| + |f|] == moved[..|f|];
      }
    }
    assert after[|log + f|..] == moved[|f|..];
  }

  /** What a write of `n` bytes at the start of the file does not reach. */
  function Beyond(disk: bytes, n: nat): bytes {
    if n <= |disk| then disk[n..] else []
  }

  lemma WriteAtFront(disk: bytes, d: bytes)
    ensures WriteAt(disk, 0, d) == d + Beyond(disk, |d|)
  {
  }

  lemma FrameNotInsideTorn(sha: Sha256, e: Event, torn: bytes)
    requires |e.payload| < U32 && Torn(sha, torn)
    ensures !(Frame(sha, e) <= torn)
  {
    if Frame(sha, e) <= torn {
      var g :| TornFrom(sha, g, torn);
      hide Encoding;
      PrefixFree(sha, EntryOf(e), EntryOf(g));
      assert false;
    }
  }

  lemma FramesAgree(sha: Sha256, e: Event, g: Event, b: bytes)
    requires |e.payload| < U32 && |g.payload| < U32
    requires Frame(sha, e) <= b && Frame(sha, g) <= b
    ensures Frame(sha, e) == Frame(sha, g)
  {
    hide Encoding;
    if |Frame(sha, e)| <= |Frame(sha, g)| {
      PrefixFree(sha, EntryOf(e), EntryOf(g));
    } else {
      PrefixFree(sha, EntryOf(g), EntryOf(e));
    }
  }

  /** A frame written over the front of a log that still begins with that log was its first frame. */
  lemma FrontIsFirst(sha: Sha256, es: seq<Event>, disk: bytes, e: Event)
    requires Loggable(es + [e]) && es != [] && LogFile(sha, es) <= disk
    requires LogFile(sha, es) + Frame(sha, e) <= Frame(sha, e) + Beyond(disk, |Frame(sha, e)|)
    ensures LogFile(sha, es) + Frame(sha, e) <= disk && Frame(sha, e) <= disk[|LogFile(sha, es)|..]
  {
    hide Frame;
    var f, g := Frame(sha, e), Frame(sha, es[0]);
    var after := f + Beyond(disk, |f|);
    var log := LogFile(sha, es);
    assert log == g + LogFile(sha, es[1..]);
    hide LogFile;
    assert e in es + [e] && es[0] in es + [e];
    assert g <= after by {
      assert after == (log + f) + after[|log + f|..];
    }
    FramesAgree(sha, e, es[0], after);
    assert f <= disk;
    assert after == disk;
    assert disk[|log|..][..|f|] == disk[..|log| + |f|][|log|..] == f;
  }

  lemma NoRoomAtFront(sha: Sha256, es: seq<Event>, disk: bytes, e: Event)
    requires Loggable(es + [e]) && es != [] && TornLog(sha, es, disk)
    ensures !(LogFile(sha, es) + Frame(sha, e) <= Frame(sha, e) + Beyond(disk, |Frame(sha, e)|))
  {
    hide Frame, LogFile, Torn;
    var f, log := Frame(sha, e), LogFile(sha, es);
    FrameNotInsideTorn(sha, e, disk[|log|..]);
    if log + f <= f + Beyond(disk, |f|) {
      FrontIsFirst(sha, es, disk, e);
    }
  }

  /** An append before any Recover goes to the start of the file. It keeps the history exactly when nothing whole
      was there, that is, when a crash tore the first frame. */
  lemma AppendAtFrontIff(sha: Sha256, es: seq<Event>, disk: bytes, e: Event)
    requires Loggable(es) && TornLog(sha, es, disk)
    ensures Parse(sha, WriteAt(disk, 0, Frame(sha, e))) == Recovery(RecoveredAll(es + [e]), None)
       <==> |e.payload| < U32 && es == [] && Parse(sha, Beyond(disk, |Frame(sha, e)|)) == Recovery([], None)
  {
    assert es == [] ==> LogFile(sha, es) == [];
    hide Frame, Parse, Recovered, RecoveredAll, LogFile, TornLog, WriteAt, Beyond;
    var f, log := Frame(sha, e), LogFile(sha, es);
    var after := f + Beyond(disk, |f|);
    WriteAtFront(disk, f);
    LogFileSnoc(sha, es, e);
    LoggableSnoc(es, e);
    hide Loggable;
    RecoversExactlyIff(sha, es + [e], after);
    if es == [] {
      assert log + f == f && after[|f|..] == Beyond(disk, |f|);
    } else if |e.payload| < U32 {
      NoRoomAtFront(sha, es, disk, e);
    }
  }
}
