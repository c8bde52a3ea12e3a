/** The write-ahead log object over an operating-system file, and its invariant over every run
    of Append, Recover, Close, crashes and reopening (pkg/wal/wal.go). */
module Wal {
  import opened Bytes
  import opened WalCodec
  import opened WalRecovery

  /** The stored bytes of a path. They outlive every handle. */
  class Disk {
    var data: bytes

    constructor ()
      ensures data == []
    {
      data := [];
    }
  }

  /** os.File opened read-write without append mode. */
  class File {
    const disk: Disk
    var pos: nat
    var isOpen: bool

    constructor (disk: Disk)
      ensures this.disk == disk && pos == 0 && isOpen
    {
      this.disk := disk;
      pos := 0;
      isOpen := true;
    }

    /** One read of at most 4096 bytes: any positive number of the available bytes, or none at the end. */
    method Read() returns (chunk: bytes, eof: bool)
      requires isOpen
      modifies this`pos
      ensures eof <==> old(pos) >= |disk.data|
      ensures eof ==> chunk == [] && pos == old(pos)
      ensures !eof ==> 1 <= |chunk| <= 4096 && pos == old(pos) + |chunk| <= |disk.data|
                       && chunk == disk.data[old(pos)..pos]
    {
      if pos >= |disk.data| {
        return [], true;
      }
      var n :| 1 <= n <= 4096 && n <= |disk.data| - pos;
      chunk, eof := disk.data[pos..pos + n], false;
      pos := pos + n;
    }

    method Write(d: bytes)
      requires isOpen
      modifies this`pos, disk
      ensures disk.data == WriteAt(old(disk.data), old(pos), d) && pos == old(pos) + |d|
    {
      disk.data := WriteAt(disk.data, pos, d);
      pos := pos + |d|;
    }
  }

  // ---------------------------------------------------------------- the log as a state machine

  datatype LogState = LogState(disk: bytes, pos: nat, isOpen: bool)

  datatype Op = Append(e: Event) | Recover | Close | Crash(left: nat) | Reopen

  /** What a crash leaves of the stored bytes: any prefix. */
  function CutTo(disk: bytes, left: nat): bytes {
    if left < |disk| then disk[..left] else disk
  }

  /** Where Recover leaves the cursor: at the end, or, after a bad frame, behind the chunk that completed it. */
  ghost predicate LeftAt(sha: Sha256, disk: bytes, pos: nat) {
    if Parse(sha, disk).err.None? then pos == |disk|
    else Consumed(sha, disk) <= pos <= |disk| && pos < Consumed(sha, disk) + 4096
  }

  /** What one call does to the bytes on disk, the cursor and the open flag. */
  ghost predicate Next(sha: Sha256, s: LogState, op: Op, s': LogState) {
    match op
    case Append(e) =>
      if s.isOpen then s' == LogState(WriteAt(s.disk, s.pos, Frame(sha, e)), s.pos + |Frame(sha, e)|, true)
      else s' == s
    case Recover =>
      if s.isOpen then s'.disk == s.disk && s'.isOpen && LeftAt(sha, s.disk, s'.pos)
      else s' == s
    case Close => s' == s.(isOpen := false)
    case Crash(left) => s' == LogState(CutTo(s.disk, left), s.pos, false)
    case Reopen => s' == LogState(s.disk, 0, true)
  }

  class WAL {
    const sha: Sha256
    const file: File
    var closed: bool

    ghost predicate Valid()
      reads this, file
    {
      closed == !file.isOpen
    }

    ghost function State(): LogState
      reads this, file, file.disk
    {
      LogState(file.disk.data, file.pos, !closed)
    }

    /** NewWAL: opens the path and leaves the cursor at its start. */
    constructor (sha: Sha256, disk: Disk)
      ensures Valid() && fresh(file)
      ensures this.sha == sha && file.disk == disk
      ensures State() == LogState(disk.data, 0, true)
    {
      this.sha := sha;
      this.file := new File(disk);
      closed := false;
    }

    /** WAL.Append: a closed log refuses; otherwise the encoded event is written at the cursor. */
    method Append(e: Event) returns (err: Option<WalError>)
      requires Valid()
      modifies file`pos, file.disk
      ensures Valid()
      ensures err == if old(closed) then Some(Closed) else None
      ensures Next(sha, old(State()), Op.Append(e), State())
    {
      if closed {
        return Some(Closed);
      }
      var data := Encode(sha, EntryOf(e));
      file.Write(data);
      err := None;
    }

    /** WAL.Recover: whatever way the reads split the file, the result is that of parsing it whole. */
    method Recover() returns (r: Recovery)
      requires Valid()
      modifies file`pos
      ensures Valid()
      ensures old(closed) ==> r == Recovery([], Some(SeekFailed))
      ensures !old(closed) ==> r == Parse(sha, file.disk.data) && r.err in {None, Some(Corruption)}
      ensures Next(sha, old(State()), Op.Recover, State())
    {
      if closed {
        return Recovery([], Some(SeekFailed));
      }
      file.pos := 0;
      var events: seq<Event> := [];
      var remain: bytes := [];
      NeverInvalidFormat(sha, file.disk.data);
      MidwayStart(sha, file.disk.data);
      hide Parse, Midway, LeftAt, Frame, WriteAt, CutTo;
      while true
        invariant file.isOpen && !closed && file.pos <= |file.disk.data|
        invariant Midway(sha, file.disk.data, events, remain, file.pos)
        decreases |file.disk.data| - file.pos
      {
        var eof, err;
        events, remain, eof, err := ReadMore(events, remain);
        if eof || err.Some? {
          return Recovery(events, err);
        }
      }
    }

    /** One turn of Recover: the next chunk is read and every whole frame held back so far is decoded. */
    method ReadMore(events0: seq<Event>, held: bytes)
      returns (events: seq<Event>, remain: bytes, eof: bool, err: Option<WalError>)
      requires file.isOpen && Midway(sha, file.disk.data, events0, held, file.pos)
      modifies file`pos
      ensures old(file.pos) <= file.pos <= |file.disk.data|
      ensures eof || err.Some? ==>
        Parse(sha, file.disk.data) == Recovery(events, err) && LeftAt(sha, file.disk.data, file.pos)
      ensures !eof && err.None? ==>
        file.pos > old(file.pos) && Midway(sha, file.disk.data, events, remain, file.pos)
    {
      ghost var whole, pos0 := file.disk.data, file.pos;
      MidwayInside(sha, whole, events0, held, pos0);
      hide Parse, Consumed, Midway, LeftAt, Joined, Taken;
      var chunk;
      chunk, eof := file.Read();
      if eof {
        MidwayEnd(sha, whole, events0, held);
        return events0, held, true, None;
      }
      MidwayRead(sha, whole, events0, held, pos0, chunk);
      var buffered := held + chunk;
      ghost var unread := whole[file.pos..];
      events, remain, err := TakeFrames(events0, buffered, unread, Parse(sha, whole));
      MidwayTaken(sha, whole, events0, held, pos0, chunk, events, remain, err);
    }

    /** The inner loop of Recover: decode every whole frame held back so far. */
    method TakeFrames(events0: seq<Event>, remain0: bytes, ghost unread: bytes, ghost goal: Recovery)
      returns (events: seq<Event>, remain: bytes, err: Option<WalError>)
      requires goal == Joined(events0, Parse(sha, remain0 + unread))
      ensures Taken(sha, goal, remain0, unread, events, remain, err)
    {
      hide Decoding, EventOf;
      events, remain := events0, remain0;
      while |remain| >= HEADER
        invariant goal == Joined(events, Parse(sha, remain + unread))
        invariant |remain| <= |remain0|
        invariant Consumed(sha, remain0 + unread) == |remain0| - |remain| + Consumed(sha, remain + unread)
        decreases |remain|
      {
        var payloadLen := FromBigEndian(remain[88..92]);
        var totalSize := HEADER + payloadLen + 32;
        if |remain| < totalSize {
          break;
        }
        var entryRaw := remain[..totalSize];
        ParsePeek(sha, remain, unread);
        remain := remain[totalSize..];
        var entry := DecodeEntry(sha, entryRaw);
        if entry.Err? {
          assert events + [] == events;
          return events, remain, Some(entry.error);
        }
        ghost var rest := Parse(sha, remain + unread);
        assert events + ([EventOf(entry.value)] + rest.events) == (events + [EventOf(entry.value)]) + rest.events;
        events := events + [EventOf(entry.value)];
      }
      err := None;
    }

    /** WAL.Close: closing a closed file is an error. */
    method Close() returns (err: Option<WalError>)
      requires Valid()
      modifies this`closed, file`isOpen
      ensures Valid()
      ensures err == if old(closed) then Some(Closed) else None
      ensures Next(sha, old(State()), Op.Close, State())
    {
      err := if closed then Some(Closed) else None;
      closed := true;
      file.isOpen := false;
    }

    /** The process dies: the handle is gone, and of the file only the first `left` bytes survive. */
    method Crash(left: nat)
      requires Valid()
      modifies this`closed, file`isOpen, file.disk
      ensures Valid()
      ensures Next(sha, old(State()), Op.Crash(left), State())
    {
      file.disk.data := CutTo(file.disk.data, left);
      closed := true;
      file.isOpen := false;
    }
  }

  /** Events already taken, followed by what the rest of the file yields. */
  ghost function Joined(events: seq<Event>, rest: Recovery): Recovery {
    Recovery(events + rest.events, rest.err)
  }

  /** Recover has read `whole` up to `pos`, decoded `events`, and holds back `remain`, which has no whole frame. */
  ghost predicate Midway(sha: Sha256, whole: bytes, events: seq<Event>, remain: bytes, pos: nat) {
    && |remain| <= pos <= |whole|
    && Parse(sha, whole) == Joined(events, Parse(sha, remain + whole[pos..]))
    && Consumed(sha, whole) == pos - |remain| + Consumed(sha, remain + whole[pos..])
    && Parse(sha, remain) == Recovery([], None)
  }

  lemma MidwayStart(sha: Sha256, whole: bytes)
    ensures Midway(sha, whole, [], [], 0)
  {
    hide Decoding;
    assert [] + whole[0..] == whole && [] + Parse(sha, whole).events == Parse(sha, whole).events;
  }

  lemma MidwayInside(sha: Sha256, whole: bytes, events: seq<Event>, remain: bytes, pos: nat)
    requires Midway(sha, whole, events, remain, pos)
    ensures |remain| <= pos <= |whole|
  {
  }

  lemma MidwayEnd(sha: Sha256, whole: bytes, events: seq<Event>, remain: bytes)
    requires Midway(sha, whole, events, remain, |whole|)
    ensures Parse(sha, whole) == Recovery(events, None) && LeftAt(sha, whole, |whole|)
  {
    hide Parse, Consumed;
    assert remain + whole[|whole|..] == remain && events + [] == events;
  }

  /** What the inner loop starts from once `chunk` has been read. */
  lemma MidwayRead(sha: Sha256, whole: bytes, events: seq<Event>, held: bytes, pos: nat, chunk: bytes)
    requires Midway(sha, whole, events, held, pos) && pos + |chunk| <= |whole| && chunk == whole[pos..pos + |chunk|]
    ensures var b := held + chunk + whole[pos + |chunk|..];
      && Parse(sha, whole) == Joined(events, Parse(sha, b))
      && Consumed(sha, whole) == pos - |held| + Consumed(sha, b)
      && b == held + (chunk + whole[pos + |chunk|..])
  {
    hide Parse, Consumed, Joined;
    assert whole[pos..] == chunk + whole[pos + |chunk|..];
    assert held + (chunk + whole[pos + |chunk|..]) == held + chunk + whole[pos + |chunk|..];
  }

  /** After the inner loop: either on the way again, or at a bad frame that ends inside the chunk just read. */
  lemma MidwayTaken(sha: Sha256, whole: bytes, events0: seq<Event>, held: bytes, pos0: nat, chunk: bytes,
                    events: seq<Event>, remain: bytes, err: Option<WalError>)
    requires Midway(sha, whole, events0, held, pos0) && 1 <= |chunk| <= 4096
    requires pos0 + |chunk| <= |whole| && chunk == whole[pos0..pos0 + |chunk|]
    requires Taken(sha, Parse(sha, whole), held + chunk, whole[pos0 + |chunk|..], events, remain, err)
    ensures err.None? ==> Midway(sha, whole, events, remain, pos0 + |chunk|)
    ensures err.Some? ==> LeftAt(sha, whole, pos0 + |chunk|) && Parse(sha, whole) == Recovery(events, err)
  {
    MidwayInside(sha, whole, events0, held, pos0);
    MidwayRead(sha, whole, events0, held, pos0, chunk);
    var unread := whole[pos0 + |chunk|..];
    if err.Some? {
      HeldIsIncomplete(sha, whole, events0, held, pos0);
      ErrorStays(sha, whole, events0, held + chunk + unread);
      hide Parse, Consumed, Joined, Midway, LeftAt;
      ConsumedBeyond(sha, held, chunk + unread);
      BadFrameEnd(sha, whole, pos0 + |chunk|, |remain|, |chunk|);
    } else {
      hide Parse, Consumed, Joined;
    }
  }

  lemma HeldIsIncomplete(sha: Sha256, whole: bytes, events: seq<Event>, held: bytes, pos: nat)
    requires Midway(sha, whole, events, held, pos)
    ensures Parse(sha, held) == Recovery([], None)
  {
  }

  lemma ErrorStays(sha: Sha256, whole: bytes, events: seq<Event>, b: bytes)
    requires Parse(sha, whole) == Joined(events, Parse(sha, b))
    ensures Parse(sha, b).err == Parse(sha, whole).err
  {
    hide Parse;
  }

  lemma BadFrameEnd(sha: Sha256, whole: bytes, pos: nat, left: nat, chunk: nat)
    requires Parse(sha, whole).err.Some? && pos <= |whole|
    requires left < chunk <= 4096 && left <= pos && Consumed(sha, whole) == pos - left
    ensures LeftAt(sha, whole, pos)
  {
    hide Parse, Consumed;
  }

  /** What the inner loop has done to `remain0`, before `unread`, when it stops. */
  ghost predicate Taken(sha: Sha256, goal: Recovery, remain0: bytes, unread: bytes, events: seq<Event>, remain: bytes,
                        err: Option<WalError>)
  {
    && |remain| <= |remain0|
    && Consumed(sha, remain0 + unread)
       == |remain0| - |remain| + (if err.None? then Consumed(sha, remain + unread) else 0)
    && if err.Some? then goal == Recovery(events, err)
       else goal == Joined(events, Parse(sha, remain + unread)) && Parse(sha, remain) == Recovery([], None)
  }

  /** A whole frame in the carry-over buffer is the frame the whole-file parse takes next. */
  lemma ParsePeek(sha: Sha256, remain: bytes, unread: bytes)
    requires |remain| >= HEADER && |remain| >= FrameSize(remain)
    ensures var n := FrameSize(remain);
      match Decoding(sha, remain[..n])
      case Err(x) => Parse(sha, remain + unread) == Recovery([], Some(x)) && Consumed(sha, remain + unread) == n
      case Ok(w) =>
        && Parse(sha, remain + unread) == Joined([EventOf(w)], Parse(sha, remain[n..] + unread))
        && Consumed(sha, remain + unread) == n + Consumed(sha, remain[n..] + unread)
  {
    hide Decoding;
    var n := FrameSize(remain);
    var b := remain + unread;
    assert b[88..92] == remain[88..92];
    assert b[..n] == remain[..n] && b[n..] == remain[n..] + unread;
  }

  /** Reopening a path after a Close or a crash. */
  method Reopened(lost: WAL) returns (w: WAL)
    ensures fresh(w) && fresh(w.file) && w.sha == lost.sha && w.file.disk == lost.file.disk
    ensures w.Valid() && Next(w.sha, lost.State(), Op.Reopen, w.State())
  {
    w := new WAL(lost.sha, lost.file.disk);
  }

  // ---------------------------------------------------------------- every run

  /** What the calls and crashes so far say about the log: is it open, has the cursor been brought to the end since
      the last reopening, which events are wholly on disk, and how many bytes of a torn frame follow them. */
  datatype Track = Track(isOpen: bool, ready: bool, history: seq<Event>, torn: nat)

  function Follow(t: Track, op: Op): Track {
    match op
    case Append(e) => if t.isOpen then t.(history := t.history + [e]) else t
    case Recover => if t.isOpen then t.(ready := true) else t
    case Close => t.(isOpen := false)
    case Crash(left) =>
      var size := TotalSize(t.history) + t.torn;
      var kept := if left < size then left else size;
      var k := WholeFrames(t.history, kept);
      WholeFramesExact(t.history, kept);
      Track(false, false, t.history[..k], kept - TotalSize(t.history[..k]))
    case Reopen => Track(true, t.history == [] && t.torn == 0, t.history, t.torn)
  }

  function FollowAll(ops: seq<Op>): Track {
    if ops == [] then Track(true, true, [], 0) else Follow(FollowAll(ops[..|ops| - 1]), ops[|ops| - 1])
  }

  /** The caller's obligation: after a reopening, Recover before the first Append (unless the file is empty), and no
      Append while a torn frame is left at the end. */
  predicate MayIssue(t: Track, op: Op) {
    op.Append? && t.isOpen ==> t.ready && t.torn == 0 && |op.e.payload| < U32
  }

  ghost predicate Disciplined(ops: seq<Op>) {
    forall i :: 0 <= i < |ops| ==> MayIssue(FollowAll(ops[..i]), ops[i])
  }

  lemma DisciplinedFront(ops: seq<Op>)
    requires ops != [] && Disciplined(ops)
    ensures Disciplined(ops[..|ops| - 1]) && MayIssue(FollowAll(ops[..|ops| - 1]), ops[|ops| - 1])
  {
    hide FollowAll;
    var before := ops[..|ops| - 1];
    forall i | 0 <= i < |before| ensures MayIssue(FollowAll(before[..i]), before[i]) {
      assert before[..i] == ops[..i];
    }
  }

  ghost predicate IsRun(sha: Sha256, ops: seq<Op>, states: seq<LogState>) {
    && |states| == |ops| + 1
    && states[0] == LogState([], 0, true)
    && forall i :: 0 <= i < |ops| ==> Next(sha, states[i], ops[i], states[i + 1])
  }

  ghost predicate InStep(sha: Sha256, t: Track, s: LogState) {
    && Loggable(t.history)
    && s.isOpen == t.isOpen
    && TornLog(sha, t.history, s.disk)
    && |s.disk| == TotalSize(t.history) + t.torn
    && (t.isOpen ==> s.pos == if t.ready then |s.disk| else 0)
    && (t.isOpen && !t.ready ==> s.disk != [])
  }

  lemma UntornLog(sha: Sha256, es: seq<Event>, disk: bytes)
    requires TornLog(sha, es, disk) && |disk| == TotalSize(es)
    ensures disk == LogFile(sha, es)
  {
    hide LogFile, Torn;
    TotalSizeOfLog(sha, es);
  }

  lemma AppendKeepsTrack(sha: Sha256, t: Track, s: LogState, e: Event, s': LogState)
    requires InStep(sha, t, s) && t.isOpen && MayIssue(t, Append(e)) && Next(sha, s, Append(e), s')
    ensures InStep(sha, Follow(t, Append(e)), s')
  {
    hide Frame, LogFile, TornLog, TotalSize;
    var es := t.history + [e];
    UntornLog(sha, t.history, s.disk);
    LogFileSnoc(sha, t.history, e);
    assert s'.disk == LogFile(sha, es);
    TotalSizeOfLog(sha, es);
    WholeLogIsTornLog(sha, es);
  }

  lemma CrashKeepsTrack(sha: Sha256, t: Track, s: LogState, left: nat, s': LogState)
    requires InStep(sha, t, s) && Next(sha, s, Crash(left), s')
    ensures InStep(sha, Follow(t, Crash(left)), s')
  {
    hide TornLog, TotalSize, WholeFrames;
    var kept := if left < |s.disk| then left else |s.disk|;
    CutTornLog(sha, t.history, s.disk, kept);
    assert s'.disk == s.disk[..kept];
  }

  lemma StepKeepsTrack(sha: Sha256, t: Track, s: LogState, op: Op, s': LogState)
    requires InStep(sha, t, s) && MayIssue(t, op) && Next(sha, s, op, s')
    ensures InStep(sha, Follow(t, op), s')
  {
    hide Parse, TornLog;
    match op
    case Append(e) =>
      if t.isOpen { AppendKeepsTrack(sha, t, s, e, s'); }
    case Crash(left) =>
      CrashKeepsTrack(sha, t, s, left, s');
    case Recover =>
      ParseTornLog(sha, t.history, s.disk);
    case Reopen =>
    case Close =>
  }

  /** In every disciplined run from an empty file, crashes included, the file is the frames of the surviving events
      with at most the beginning of one more behind them, the cursor stands at its end whenever an Append may be
      issued, and recovery yields exactly the surviving history. */
  lemma {:induction false} RunInvariant(sha: Sha256, ops: seq<Op>, states: seq<LogState>)
    requires Disciplined(ops) && IsRun(sha, ops, states)
    ensures var t, s := FollowAll(ops), states[|ops|];
      && InStep(sha, t, s)
      && Parse(sha, s.disk) == Recovery(RecoveredAll(t.history), None)
    decreases |ops|
  {
    hide Frame, Parse, TornLog, Follow, Disciplined;
    var n := |ops|;
    if n > 0 {
      var before := ops[..n - 1];
      DisciplinedFront(ops);
      RunInvariant(sha, before, states[..n]);
      StepKeepsTrack(sha, FollowAll(before), states[n - 1], ops[n - 1], states[n]);
    } else {
      WholeLogIsTornLog(sha, []);
    }
    ParseTornLog(sha, FollowAll(ops).history, states[n].disk);
  }

  lemma {:induction false} NothingTornWithoutCrash(ops: seq<Op>)
    requires forall op <- ops :: !op.Crash?
    ensures FollowAll(ops).torn == 0
    ensures forall i :: 0 <= i <= |ops| ==> FollowAll(ops[..i]).history <= FollowAll(ops).history
  {
    if ops != [] {
      var before := ops[..|ops| - 1];
      NothingTornWithoutCrash(before);
      forall i | 0 <= i <= |ops| ensures FollowAll(ops[..i]).history <= FollowAll(ops).history {
        if i < |ops| { assert ops[..i] == before[..i]; } else { assert ops[..i] == ops; }
      }
    }
  }

  /** Without a crash nothing is ever lost: the file is the concatenation of all accepted events' frames, and every
      earlier history is a prefix of the last one. */
  lemma CrashFreeRun(sha: Sha256, ops: seq<Op>, states: seq<LogState>)
    requires Disciplined(ops) && IsRun(sha, ops, states) && forall op <- ops :: !op.Crash?
    ensures states[|ops|].disk == LogFile(sha, FollowAll(ops).history)
    ensures forall i :: 0 <= i <= |ops| ==> FollowAll(ops[..i]).history <= FollowAll(ops).history
  {
    hide LogFile, TornLog, TotalSize, Parse, FollowAll;
    RunInvariant(sha, ops, states);
    NothingTornWithoutCrash(ops);
    UntornLog(sha, FollowAll(ops).history, states[|ops|].disk);
  }

  /** The obligation is exact: after any disciplined run on an open log an Append the caller may issue leaves the full
      history recoverable, and unless a torn frame is left at the end no other Append does. */
  lemma DisciplineIsExact(sha: Sha256, ops: seq<Op>, states: seq<LogState>, e: Event, s': LogState)
    requires Disciplined(ops) && IsRun(sha, ops, states) && FollowAll(ops).isOpen
    requires Next(sha, states[|ops|], Append(e), s')
    ensures var kept := Parse(sha, s'.disk) == Recovery(RecoveredAll(FollowAll(ops).history + [e]), None);
      && (MayIssue(FollowAll(ops), Append(e)) ==> kept)
      && (FollowAll(ops).torn == 0 ==> (kept <==> MayIssue(FollowAll(ops), Append(e))))
  {
    hide Frame, Parse, LogFile, TornLog, TotalSize, Loggable;
    RunInvariant(sha, ops, states);
    var t, s := FollowAll(ops), states[|ops|];
    if t.torn == 0 {
      UntornLog(sha, t.history, s.disk);
      AppendKeepsHistoryIffAtEnd(sha, t.history, e, s.pos);
    }
  }

  /** What an Append does after any disciplined run, torn frames included. Behind a torn frame the event is kept only
      if the frame read from the torn bytes on is its own; before any Recover, only if a crash tore the first frame. */
  lemma AppendAfterAnyRunIff(sha: Sha256, ops: seq<Op>, states: seq<LogState>, e: Event, s': LogState)
    requires Disciplined(ops) && IsRun(sha, ops, states) && FollowAll(ops).isOpen
    requires Next(sha, states[|ops|], Append(e), s')
    ensures var t, disk, f := FollowAll(ops), states[|ops|].disk, Frame(sha, e);
      && LogFile(sha, t.history) <= disk
      && var moved := disk[|LogFile(sha, t.history)|..] + f;
      Parse(sha, s'.disk) == Recovery(RecoveredAll(t.history + [e]), None)
      <==> && |e.payload| < U32
           && if t.ready then f <= moved && Parse(sha, moved[|f|..]) == Recovery([], None)
              else t.history == [] && Parse(sha, Beyond(disk, |f|)) == Recovery([], None)
  {
    hide Frame, Parse, LogFile, Torn, Beyond, FollowAll, WriteAt, Loggable;
    RunInvariant(sha, ops, states);
    var t, s := FollowAll(ops), states[|ops|];
    var log := LogFile(sha, t.history);
    if t.ready {
      assert log + s.disk[|log|..] == s.disk;
      AppendBehindTailIff(sha, t.history, s.disk[|log|..], e);
    } else {
      AppendAtFrontIff(sha, t.history, s.disk, e);
    }
  }

  // ---------------------------------------------------------------- runs that append behind torn frames

  /** What a caller who cannot see torn frames keeps: may an Append come, and which events were written behind nothing
      but whole frames and have not been cut off since. */
  datatype Survey = Survey(ready: bool, durable: seq<Event>)

  function Surveyed(v: Survey, op: Op, s: LogState): Survey {
    match op
    case Append(e) =>
      if s.isOpen && |s.disk| == TotalSize(v.durable) && |e.payload| < U32 then v.(durable := v.durable + [e]) else v
    case Recover => if s.isOpen then v.(ready := true) else v
    case Close => v
    case Crash(left) => v.(durable := v.durable[..WholeFrames(v.durable, |CutTo(s.disk, left)|)])
    case Reopen => v.(ready := s.disk == [])
  }

  function SurveyAll(ops: seq<Op>, states: seq<LogState>): Survey
    requires |states| == |ops| + 1
  {
    if ops == [] then Survey(true, [])
    else Surveyed(SurveyAll(ops[..|ops| - 1], states[..|ops|]), ops[|ops| - 1], states[|ops| - 1])
  }

  /** The caller recovers before the first Append after a reopening, unless the file is empty. Nothing else. */
  ghost predicate Careful(ops: seq<Op>, states: seq<LogState>)
    requires |states| == |ops| + 1
  {
    forall i :: 0 <= i < |ops| ==> CarefulAt(ops, states, i)
  }

  ghost predicate CarefulAt(ops: seq<Op>, states: seq<LogState>, i: nat)
    requires |states| == |ops| + 1 && i < |ops|
  {
    ops[i].Append? && states[i].isOpen ==> SurveyAll(ops[..i], states[..i + 1]).ready
  }

  lemma CarefulFront(ops: seq<Op>, states: seq<LogState>)
    requires |states| == |ops| + 1 && ops != []
    ensures var n := |ops| - 1;
      Careful(ops, states) <==> Careful(ops[..n], states[..n + 1]) && CarefulAt(ops, states, n)
  {
    hide SurveyAll;
    var n := |ops| - 1;
    var before, states' := ops[..n], states[..n + 1];
    forall i | 0 <= i < n ensures CarefulAt(ops, states, i) <==> CarefulAt(before, states', i) {
      assert before[..i] == ops[..i] && states'[..i + 1] == states[..i + 1];
    }
    if Careful(ops, states) {
      forall i | 0 <= i < n ensures CarefulAt(before, states', i) { assert CarefulAt(ops, states, i); }
    }
    if Careful(before, states') {
      forall i | 0 <= i < n ensures CarefulAt(ops, states, i) { assert CarefulAt(before, states', i); }
    }
  }

  ghost predicate Safe(sha: Sha256, v: Survey, s: LogState) {
    && Loggable(v.durable) && LogFile(sha, v.durable) <= s.disk
    && (s.isOpen && v.ready ==> |LogFile(sha, v.durable)| <= s.pos <= |s.disk|)
  }

  /** Durable events are recovered first, and a Recover leaves the cursor behind them. */
  lemma DurableIsRecovered(sha: Sha256, es: seq<Event>, disk: bytes)
    requires Loggable(es) && LogFile(sha, es) <= disk
    ensures RecoveredAll(es) <= Parse(sha, disk).events
    ensures |LogFile(sha, es)| <= Consumed(sha, disk)
  {
    hide Parse, LogFile, Consumed, Recovered;
    var rest := disk[|LogFile(sha, es)|..];
    assert LogFile(sha, es) + rest == disk;
    ParseLog(sha, es, rest);
    ParseFitsFile(sha, disk);
    TotalSizeOfLog(sha, es);
    TotalSizeGrows(RecoveredAll(es), Parse(sha, rest).events);
  }

  lemma {:induction false} TotalSizeGrows(es: seq<Event>, more: seq<Event>)
    ensures TotalSize(es) <= TotalSize(es + more)
  {
    if es != [] {
      assert (es + more)[1..] == es[1..] + more;
      TotalSizeGrows(es[1..], more);
    }
  }

  lemma AppendKeepsSafe(sha: Sha256, v: Survey, s: LogState, e: Event, s': LogState)
    requires Safe(sha, v, s) && s.isOpen && v.ready && Next(sha, s, Append(e), s')
    ensures Safe(sha, Surveyed(v, Append(e), s), s')
  {
    hide Frame, LogFile, TotalSize;
    var log := LogFile(sha, v.durable);
    TotalSizeOfLog(sha, v.durable);
    LogFileSnoc(sha, v.durable, e);
    LoggableSnoc(v.durable, e);
    assert s'.disk[..s.pos] == s.disk[..s.pos];
    assert log == s.disk[..s.pos][..|log|] == s'.disk[..|log|];
    if |s.disk| == |log| {
      assert s.disk == log && s'.disk == log + Frame(sha, e);
    }
  }

  lemma CrashKeepsSafe(sha: Sha256, v: Survey, s: LogState, left: nat, s': LogState)
    requires Safe(sha, v, s) && Next(sha, s, Crash(left), s')
    ensures Safe(sha, Surveyed(v, Crash(left), s), s')
  {
    hide LogFile, TotalSize, WholeFrames;
    var k := WholeFrames(v.durable, |s'.disk|);
    var es := v.durable[..k];
    WholeFramesExact(v.durable, |s'.disk|);
    TotalSizeOfLog(sha, es);
    LogFilePrefix(sha, v.durable, k);
    assert s'.disk == s.disk[..|s'.disk|];
    assert LogFile(sha, es) == s.disk[..|s'.disk|][..|LogFile(sha, es)|];
  }

  lemma {:induction false} LogFilePrefix(sha: Sha256, es: seq<Event>, k: nat)
    requires k <= |es|
    ensures LogFile(sha, es[..k]) <= LogFile(sha, es)
  {
    hide Frame;
    if k > 0 {
      LogFilePrefix(sha, es[1..], k - 1);
      assert es[..k][1..] == es[1..][..k - 1];
    }
  }

  lemma StepKeepsSafe(sha: Sha256, v: Survey, s: LogState, op: Op, s': LogState)
    requires Safe(sha, v, s) && Next(sha, s, op, s') && (op.Append? && s.isOpen ==> v.ready)
    ensures Safe(sha, Surveyed(v, op, s), s')
  {
    hide Parse, LogFile, Consumed, WriteAt;
    match op
    case Append(e) =>
      if s.isOpen { AppendKeepsSafe(sha, v, s, e, s'); }
    case Crash(left) =>
      CrashKeepsSafe(sha, v, s, left, s');
    case Recover =>
      DurableIsRecovered(sha, v.durable, s.disk);
    case Reopen =>
    case Close =>
  }

  /** In every run with a Recover before the first Append after a reopening, torn frames and corruption errors included,
      the durable events stay at the front of the file and come first in every recovery, whatever the hash function. */
  lemma {:induction false} DurableRun(sha: Sha256, ops: seq<Op>, states: seq<LogState>)
    requires IsRun(sha, ops, states) && Careful(ops, states)
    ensures var v, s := SurveyAll(ops, states), states[|ops|];
      && Safe(sha, v, s)
      && RecoveredAll(v.durable) <= Parse(sha, s.disk).events
    decreases |ops|
  {
    hide Parse, LogFile, Surveyed, Careful;
    var n := |ops|;
    if n > 0 {
      var before, states' := ops[..n - 1], states[..n];
      CarefulFront(ops, states);
      DurableRun(sha, before, states');
      StepKeepsSafe(sha, SurveyAll(before, states'), states[n - 1], ops[n - 1], states[n]);
    } else {
      assert LogFile(sha, []) == [] by { TotalSizeOfLog(sha, []); }
    }
    DurableIsRecovered(sha, SurveyAll(ops, states).durable, states[n].disk);
  }

  lemma NothingIsCareful(states: seq<LogState>)
    requires |states| == 1
    ensures Careful([], states)
  {
  }

  lemma SurveyFollows(sha: Sha256, t: Track, v: Survey, s: LogState, op: Op)
    requires InStep(sha, t, s) && MayIssue(t, op)
    requires v.durable == t.history && (t.isOpen ==> v.ready == t.ready)
    ensures var t', v' := Follow(t, op), Surveyed(v, op, s);
      v'.durable == t'.history && (t'.isOpen ==> v'.ready == t'.ready)
  {
    hide TornLog, WholeFrames, Loggable;
    assert TotalSize(t.history) == 0 ==> t.history == [];
  }

  /** Disciplined runs are careful, and in them the durable events are the whole surviving history. */
  lemma {:induction false} DisciplinedIsCareful(sha: Sha256, ops: seq<Op>, states: seq<LogState>)
    requires Disciplined(ops) && IsRun(sha, ops, states)
    ensures Careful(ops, states)
    ensures var t, v := FollowAll(ops), SurveyAll(ops, states);
      v.durable == t.history && (t.isOpen ==> v.ready == t.ready)
    decreases |ops|
  {
    hide Parse, Surveyed, Follow, TornLog, Careful, Disciplined;
    var n := |ops|;
    if n > 0 {
      var before, states' := ops[..n - 1], states[..n];
      DisciplinedFront(ops);
      DisciplinedIsCareful(sha, before, states');
      RunInvariant(sha, before, states');
      SurveyFollows(sha, FollowAll(before), SurveyAll(before, states'), states[n - 1], ops[n - 1]);
      CarefulFront(ops, states);
    } else {
      NothingIsCareful(states);
    }
  }
}
