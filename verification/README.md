# Verification of the event-log pipeline

A Dafny model of the runtime's event pipeline and the properties its documentation and tests rely on: a binary
write-ahead log, an append-only store of many interleaved traces, snapshots with fast replay, a small voting
protocol, a depth-first model checker, the canonical JSON encoder with the event hash, and the stress simulator,
shuffler and invariant guard around them. `dafny verify dfyconfig.toml` checks everything.

How the source is represented:

* A Go `string` and a Go `[]byte` are sequences of bytes; a `uint64` is a natural number below 2^64 whose `+ 1`
  wraps (`Bytes.Succ`). SHA-256 is a parameter: every result holds for every function from bytes to 32 bytes, and
  absence of collisions is assumed only where a lemma says so, and only on the inputs that lemma names.
* Objects the source updates in place are classes (`Wal.WAL`, `Wal.File`, `EventStore.EventStoreObject`,
  `Snapshot.SnapshotObject`, `Consensus.ConsensusNode`, `ModelChecker.Checker`, `Stress.Network`). Each of their
  methods is proved equal to a function, or to a step relation, on the object's value; the theorems are about those.
* One read of a file returns any positive number of available bytes up to 4096, or nothing at the end; the random
  source of the shuffler and the rolls of the simulator are arbitrary; Go map iteration visits keys in any order.
* A panic or an error return is an ordinary result.

## What was found

Some statements of the source's documentation do not hold as written. Each comes with the exact condition.

* "Recover(WAL) == Prefix(EventStore.log)" (pkg/wal/wal.go:6 and 319) is false of every non-empty accepted log: the
  empty previous hash of a first event comes back as 64 zeros (`CrashReplay.RecoveredIsLogIffEmpty`), so a fresh
  store refuses every recovered event (`CrashReplay.RecoveredNeverReappends`). The intended meaning, replaying the
  recovered events, holds after any crash if and only if the trace IDs and tip hashes of the recovered store fit the
  log's fields: at most 16 bytes without a trailing zero, and 64 lower-case hex digits
  (`CrashReplay.CrashReplayTheorem`). Otherwise nothing reports an error: a 17-byte trace ID comes back cut
  (`CrashReplay.LongTraceIsRenamed`), and two IDs that share their first 16 bytes make replay panic
  (`CrashReplay.SharedPrefixPanics`, `CrashReplay.ReplayPanicsIff`).
* The log file is opened without append mode. History survives an Append exactly when the cursor is at the end of
  the file (`WalRecovery.AppendKeepsHistoryIffAtEnd`), which for a caller means: Recover before the first Append
  after a reopening, and keep payloads below 2^32 bytes (`Wal.DisciplineIsExact`).
* A torn tail left by a crash is not trimmed. An Append behind it is kept only if the frame can be read from the torn
  bytes on (`WalRecovery.AppendBehindTailIff`), and may be swallowed without an error
  (`WalRecovery.TornTailSwallowsAppend`). When a crash tore the very first frame, it is an Append *without* a Recover
  that survives (`Wal.AppendAfterAnyRunIff`). Whatever happens behind a torn tail, the events written before it stay
  recoverable (`Wal.DurableRun`).
* Election safety needs non-empty requester IDs and terms that do not wrap; with either missing, a cluster of any
  size can elect two candidates in one term (`Consensus.ElectionSafetyIff`).
* Go writes map keys raw. Its encoding is injective exactly without quotes in keys
  (`CanonicalInjective.InjectiveIff`), while Python's is injective on all ASCII keys
  (`CanonicalInjective.PythonInjective`), and Go and Python agree exactly when no key needs an escape
  (`Canonical.LanguagesAgreeIff`).
* The hashed event text is ambiguous exactly when bars may occur in trace IDs and in event types
  (`EventHash.UnambiguousIff`).
* `Permute(0)` returns `[0]` (`Shuffle.PermuteIsPermutationIff`). `Paths` misreads trace IDs that contain a colon
  (`ModelChecker.PathsTraceIdIff`). The stress split-brain check can fail only on a list that names one node twice
  (`Stress.SplitBrainFailsIff`), and the snapshot equivalence check can never report an error
  (`Snapshot.EquivalenceProof`). The guard accepts first events with any number (`Guard.GuardVersusStore`).
* A trace fed only by APPEND messages repeats one hash throughout (`Consensus.OneHashPerTrace`).

## Model

| member | source | states |
|---|---|---|
| Bytes.HexTextRoundTrip | pkg/wal/wal.go:131-165 | Printing a decoded hash text gives the text back if and only if it is lower-case hex |
| Bytes.HexRoundTrip | pkg/wal/wal.go:148-165 | Decoding what %064x printed gives the bytes back, with the byte-wise wrap and or of the source |
| Bytes.ToHexAt | pkg/wal/wal.go:218-226 | Digit 2i and 2i + 1 of the printed text are the digits "0" to "f" of the high and the low half of byte i |
| Bytes.HexToByteBit | pkg/wal/wal.go:148-165 | Bit by bit, for any two characters: the low bits come from the second, the high ones from either |
| Bytes.BigEndianByte | pkg/wal/wal.go:57-59 | Byte i of an n-byte field has weight 256^(n - 1 - i): the most significant byte is first |
| WalCodec.HexToBytes | pkg/wal/wal.go:131-146 | Fails exactly on texts that are not 64 characters long, otherwise yields the 32 decoded bytes |
| WalCodec.Encode | pkg/wal/wal.go:45-92 | The buffer filled field by field is the header, the payload and the hash of both |
| WalCodec.EncodingLayout | pkg/wal/wal.go:45-92 | Where every field stands, byte by byte: number, first 16 bytes of the trace ID with zeros behind, event hash, previous hash, payload length, payload, hash of all before |
| WalCodec.StoredTraceIsPrefix | pkg/wal/wal.go:61-64 | A trace ID comes back as its first 16 bytes without trailing zeros |
| WalCodec.DecodeEntry | pkg/wal/wal.go:194-265 | The moving cursor computes the reference decoding, including both error cases |
| WalCodec.DecodingVerdict | pkg/wal/wal.go:194-265 | From the raw bytes alone: which inputs are too short, which fail the checksum, and only those |
| WalCodec.DecodeOfEncode | pkg/wal/wal.go:45-92 | Decoding an encoding succeeds with the normal form if and only if the payload length fits 32 bits |
| WalCodec.EncodeOfDecode | pkg/wal/wal.go:194-265 | Every accepted input starts with the encoding of the entry it decodes to, and that entry is normal |
| WalCodec.PrefixFree | pkg/wal/wal.go:229-234 | No encoding is a proper prefix of another |
| WalCodec.NormIdempotent | pkg/wal/wal.go:61-78 | Storing a recovered entry again writes the same bytes |
| WalCodec.NormFixpoint | pkg/wal/wal.go:61-78 | An entry survives storage unchanged if and only if its trace ID fits 16 bytes without trailing zero and both hashes are 64 lower-case hex digits |
| WalRecovery.NeverInvalidFormat | pkg/wal/wal.go:348-369 | Parsing a file never ends in a format error: the recovery loop and the decoder agree on frame size |
| WalRecovery.FrameLayout | pkg/wal/wal.go:295-305 | Where each field of an event stands in its frame |
| WalRecovery.ConsumedExact | pkg/wal/wal.go:348-369 | Decoding stops behind the recovered events' frames, or one bad frame further on |
| WalRecovery.WriteAtEachByte | pkg/wal/wal.go:278-308 | What a write at the cursor does to every byte of the file |
| WalRecovery.ParseLog | pkg/wal/wal.go:348-378 | A file of whole frames contributes exactly its events, whatever bytes follow |
| WalRecovery.ParseCutLog | pkg/wal/wal.go:320-382 | A log cut at any byte recovers without error to exactly the wholly contained events |
| WalRecovery.WholeFramesExact | pkg/wal/wal.go:356-361 | The number of recovered events is the largest whose frames fit in the cut |
| WalRecovery.CutTornLog | pkg/wal/wal.go:356-361 | A log with a torn frame at its end, cut again anywhere, is the log of the events still whole and a torn frame |
| WalRecovery.ParseTornLog | pkg/wal/wal.go:320-382 | Such a log recovers without error to exactly its whole events |
| WalRecovery.RecoversExactlyIff | pkg/wal/wal.go:348-378 | Recovery yields exactly a given history if and only if its payload lengths fit, the file starts with its frames and nothing can be read from the rest |
| WalRecovery.DamagedFrame | pkg/wal/wal.go:241-262 | A frame altered outside its length so that its hash no longer fits yields exactly the events before it and the corruption error |
| WalRecovery.DamagedChecksum | pkg/wal/wal.go:241-262 | Damage confined to the checksum bytes is always caught, with no assumption on the hash |
| WalRecovery.ParseFitsFile | pkg/wal/wal.go:320-382 | For every file, the recovered events' frames fit in the decoded part, and every payload length fits its field |
| WalRecovery.AppendKeepsHistoryIffAtEnd | pkg/wal/wal.go:278-315 | Writing a frame keeps the history recoverable if and only if the cursor is at the end and the payload length fits |
| WalRecovery.AppendBehindTailIff | pkg/wal/wal.go:305-308 | Exactly when an append behind leftover bytes is recovered together with the history before them |
| WalRecovery.AppendAtFrontIff | pkg/wal/wal.go:277-308 | Exactly when an append before any recovery keeps the history: nothing whole was on disk and no leftover can be read |
| WalRecovery.TornTailSwallowsAppend | pkg/wal/wal.go:358-361 | An append behind a torn tail whose header announces more bytes than follow is lost without an error |
| Wal.WAL.constructor | pkg/wal/wal.go:277-283 | Opening leaves the bytes alone and the cursor at the start |
| Wal.WAL.Append | pkg/wal/wal.go:287-315 | A closed log refuses; otherwise the frame is written at the cursor and the cursor moves behind it |
| Wal.WAL.Recover | pkg/wal/wal.go:320-382 | For every way the reads split the file, terminates with the result of parsing the whole file; leaves the cursor at the end, or after a corruption error behind the chunk that completed the bad frame |
| Wal.WAL.TakeFrames | pkg/wal/wal.go:348-378 | Decoding the carry-over buffer never changes what the rest of the file will yield |
| Wal.WAL.Close | pkg/wal/wal.go:385-390 | Closes the log and its file, keeps the bytes, and fails exactly when already closed |
| Wal.RunInvariant | pkg/wal/wal.go:277-390 | In every disciplined run with any number of crashes the file is the frames of the surviving events and at most one torn frame, the cursor is at the end whenever an append may come, and recovery yields exactly the surviving history |
| Wal.CrashFreeRun | pkg/wal/wal.go:277-390 | Without crashes the file is the concatenation of all accepted frames and no event is ever lost |
| Wal.DisciplineIsExact | pkg/wal/wal.go:277-315 | After any disciplined run, an append the discipline allows leaves the full history recoverable; where no torn frame is left, no other append does |
| Wal.AppendAfterAnyRunIff | pkg/wal/wal.go:277-315 | The exact effect of any append after any disciplined run: torn frames, missing recoveries and payloads of 2^32 bytes or more included |
| Wal.DurableRun | pkg/wal/wal.go:277-390 | If only Recover comes before the first append after each reopening, then in every run, appends behind torn frames and recoveries that fail included, the events written behind whole frames and not cut off come first in every recovery |
| Wal.DisciplinedIsCareful | pkg/wal/wal.go:277-390 | Disciplined runs meet that condition, and in them these events are the whole surviving history |
| EventStore.EventStoreObject.Append | pkg/consensus/engine.go:61-92 | New state and error of an append; a refused append changes nothing |
| EventStore.RefusalReason | pkg/consensus/engine.go:66-86 | Which error an event gets, with its numbers, in terms of the events its trace holds |
| EventStore.RunIsValid | pkg/consensus/engine.go:61-92 | In every reachable store each trace is numbered 1, 2, 3, ... and hash-chained, and the two maps are the tips |
| EventStore.AcceptedIffEveryTraceChained | pkg/consensus/engine.go:61-92 | The store accepts exactly the lists whose every trace is chained, however interleaved |
| EventStore.MapsSummariseLog | pkg/formal/eventstore.tla:48-57 | The last number of a trace is its event count modulo 2^64 and the last hash is that of its last event |
| EventStore.LogReplaysItself | pkg/consensus/engine.go:61-92 | The log a run leaves is accepted in full and leads to the same store |
| EventStore.NoPairRepeats | pkg/formal/eventstore.tla:63-64 | The numbers of a trace of fewer than 2^64 events strictly increase, so no pair repeats |
| EventStore.NumbersDistinctIff | pkg/consensus/engine.go:67-75 | Numbers of a trace are distinct if and only if it has at most 2^64 events |
| EventStore.ReorderInvisible | pkg/consensus/engine.go:61-92 | Two interleavings of the same traces leave equal maps and equal per-trace logs, refusals included |
| EventStore.StaleIsRefused | pkg/consensus/engine.go:66-75 | An event once accepted is refused by every later store |
| Guard.CheckEventVerdict | pkg/invariant/guard.go:21-58 | Which invariant the guard reports for one event: the first one broken |
| Guard.CheckSeqMonotonic | pkg/invariant/guard.go:62-77 | Panics if and only if some trace's numbers fail to increase |
| Guard.CheckHashChain | pkg/invariant/guard.go:81-92 | Panics if and only if some event does not carry its predecessor's hash |
| Guard.StoreLogPassesGuard | pkg/invariant/guard.go:62-92 | A log the store can hold passes the sequence check if and only if each of its traces has fewer than 2^64 events, and every trace always passes the hash check |
| Snapshot.SnapshotObject.Clone | pkg/snapshot/store.go:53-66 | A fresh object with equal contents |
| Snapshot.CreateSnapshot | pkg/snapshot/store.go:35-50 | A fresh snapshot of the given maps |
| Snapshot.FastReplay | pkg/snapshot/store.go:71-96 | Panics exactly when the reference replay stops; otherwise a fresh snapshot with its result, input untouched |
| Snapshot.EquivalenceProof | pkg/snapshot/store.go:109-164 | Panics exactly when replay does, and otherwise never reports an error |
| Snapshot.ReplayEndsAtLast | pkg/snapshot/store.go:91-92 | After an accepted replay each trace stands at its last event, the others are untouched |
| Snapshot.ReplayComposes | pkg/snapshot/store.go:71-96 | Replaying a concatenation is replaying its parts one after the other |
| Snapshot.ReplayFollowsStore | pkg/snapshot/store.go:71-96 | What the store accepts, replay accepts, with the same maps |
| Snapshot.SnapshotEquivalence | pkg/snapshot/store.go:106-113 | A snapshot at any cut point plus replay of the rest equals a snapshot at the end |
| Snapshot.AcceptedIffEachTrace | pkg/snapshot/store.go:75-93 | A list is accepted if and only if each of its traces is accepted alone |
| Snapshot.AcceptedIffNumbered | pkg/snapshot/store.go:75-89 | A list is accepted if and only if each trace is numbered on by ones from the snapshot's last number, or from zero |
| Snapshot.ReorderInvisible | pkg/snapshot/store.go:75-93 | Two interleavings of the same traces are both accepted with equal maps or both rejected |
| CrashReplay.CrashReplayTheorem | pkg/wal/wal.go:317-382 | Log any accepted events with payloads below 2^32 bytes, cut the file anywhere and recover: no error and exactly the wholly written events; replaying them gives the store's state after them if and only if that store's trace IDs and tip hashes fit the log's fields |
| CrashReplay.CrashReplayOfWritable | pkg/wal/wal.go:317-382 | In particular for every cut of a log whose trace IDs and hashes all fit |
| CrashReplay.ReplayRestoresIff | pkg/snapshot/store.go:71-96 | The same condition for the replay of any recovered log of accepted events |
| CrashReplay.RenamedReplay | pkg/snapshot/store.go:71-96 | While no two traces come back under one ID, replay is accepted and gives the store's maps under the stored IDs |
| CrashReplay.ReplayPanicsIff | pkg/snapshot/store.go:75-89 | Short of a wrapped counter, replay of recovered events panics if and only if two traces come back under one ID |
| CrashReplay.LongTraceIsRenamed | pkg/wal/wal.go:61-63 | A 17-byte trace ID passes store, log and recovery without an error and replays to other maps |
| CrashReplay.SharedPrefixPanics | pkg/wal/wal.go:61-64 | Any two trace IDs of at least 16 bytes that share the first 16 pass store, log and recovery without an error and make replay panic |
| CrashReplay.CrashAfterAnyRun | pkg/wal/wal.go:277-390 | The same condition after any disciplined use of the log object with any number of crashes and reopenings |
| CrashReplay.RecoveredIsLogIffEmpty | pkg/wal/wal.go:319 | The recovery invariant read literally holds if and only if the log is empty |
| CrashReplay.RecoveredNeverReappends | pkg/consensus/engine.go:77-86 | A fresh store refuses every recovered event |
| Consensus.ConsensusNode.HandleMessage | pkg/consensus/engine.go:242-289 | New node state and reply for every message |
| Consensus.AppendEffects | pkg/consensus/engine.go:244-265 | An APPEND of no stale term is stored and acknowledged if and only if it starts a new trace with number 1 or goes on a held one by number and tip hash; the stored event carries the message's own fields |
| Consensus.VoteEffects | pkg/consensus/engine.go:266-276 | When a vote is granted, what is remembered and answered |
| Consensus.HeartbeatEffects | pkg/consensus/engine.go:277-286 | When a heartbeat is answered; all other messages do nothing |
| Consensus.AnnouncedIsStored | pkg/consensus/engine.go:244-265 | APPENDs 1 to k of one hash are all acknowledged by a fresh node and leave exactly these k events |
| Consensus.ThresholdIsLeastMajority | pkg/consensus/engine.go:182-185 | The quorum size is the least number that is more than half |
| Consensus.ConsensusNode.GEBAdvanceTerm | pkg/consensus/engine.go:235-239 | The term rises if and only if it was not the largest uint64 |
| Consensus.QuorumReached | pkg/consensus/engine.go:171-180 | True if and only if the number of nodes with a positive term reaches the threshold |
| Consensus.CommitEntry | pkg/consensus/engine.go:189-194 | The entry is stored if and only if more than half of the nodes have a positive term and the store accepts it |
| Consensus.ElectLeader | pkg/consensus/engine.go:150-167 | The first node of greatest term and log length, or none while all are at zero |
| Consensus.RunKeepsVotes | pkg/consensus/engine.go:266-276 | In every run a node votes for at most one requester per term |
| Consensus.ElectionSafety | pkg/consensus/engine.go:182-185 | No two requesters both collect a quorum of votes in one term, over any interleaving |
| Consensus.ElectionSafetyIff | pkg/consensus/engine.go:235-276 | That holds for all runs of a cluster if and only if no requester ID is empty and no term wraps |
| Consensus.RunExtends | pkg/consensus/engine.go:235-289 | Terms never fall and logs only grow |
| Consensus.QuorumKept | pkg/consensus/engine.go:171-180 | A reached quorum is never lost |
| Consensus.OneHashPerTrace | pkg/consensus/engine.go:248-258 | A trace built from APPEND messages carries one hash throughout |
| Consensus.PrefixComparable | pkg/consensus/engine.go:244-265 | Nodes fed by messages whose trace starts with the same hash hold prefix-comparable logs for it |
| Consensus.RedeliveryAddsNothing | pkg/consensus/engine.go:244-265 | Delivering an accepted APPEND again, at any later point, adds nothing |
| Decimal.FormatUint64 | pkg/consensus/engine.go:115-127 | The loop writes the decimal digits and never more than 20 of them |
| Decimal.DigitsExact | pkg/snapshot/store.go:183-196 | The digits parse back to the number and have no leading zero |
| Decimal.ParseExact | pkg/snapshot/store.go:183-196 | Every digit string without leading zero is the print of its number |
| ModelChecker.KeyTextInjective | pkg/modelchecker/model.go:50-54 | Different (trace, number) pairs never share a key text, colons included |
| ModelChecker.Checker.Check | pkg/modelchecker/model.go:59-84 | Terminates; no error if and only if every transition out of a reached state raises the number by one, an error names one that does not; on success visited is exactly "trace:number" of the reached states |
| ModelChecker.Checker.Expand | pkg/modelchecker/model.go:73-80 | Pushes exactly the targets of the transitions out of a state, in list order, or names a bad one |
| ModelChecker.ReachedIsReachable | pkg/modelchecker/model.go:73-80 | Searching by trace ID and number reaches exactly the states that transitions lead to |
| ModelChecker.RouteCounts | pkg/modelchecker/model.go:87-92 | After a passing check a route of length m ends m numbers later |
| ModelChecker.NoReachedCycle | pkg/modelchecker/model.go:87-92 | After a passing check no reached state lies on a cycle |
| ModelChecker.SplitExact | pkg/modelchecker/model.go:130-149 | The index loops compute the reference split, None where the source panics |
| ModelChecker.SplitExactMeaning | pkg/modelchecker/model.go:128-149 | Joining the parts gives the text back, there are exactly n, and only the last may hold a delimiter |
| ModelChecker.SplitExactPanicsIff | pkg/modelchecker/model.go:130-149 | The source panics if and only if there are fewer than n - 1 delimiters |
| ModelChecker.PathsTraceIdIff | pkg/modelchecker/model.go:111-126 | The trace ID read back from a key is right if and only if it has no colon |
| Canonical.Encode | pkg/contract/contract.go:25-35 | Go's output is the reference text |
| Canonical.EncodeMap | pkg/contract/contract.go:37-79 | Members in ascending key order, keys raw, whatever order the map is ranged over |
| Canonical.ObjectText | pkg/contract/contract.go:37-79 | An object prints as its members joined by commas between braces, the keys in ascending byte order |
| Canonical.LessIsByteLess | pkg/contract/contract.go:42 | The key order is byte order: a proper prefix first, or the smaller byte at the first difference |
| Canonical.LeafTexts | pkg/contract/contract.go:32-34 | The texts of null, booleans, integers and plain strings |
| Canonical.EncodeSlice | pkg/contract/contract.go:81-111 | Items in order |
| Canonical.ListText | pkg/contract/contract.go:81-111 | A list prints as its items in order, joined by commas between brackets |
| Canonical.PyEncode | pkg/contract/__init__.py:46-64 | Python's output is the reference text with escaped keys |
| Canonical.PyEncodeDict | pkg/contract/__init__.py:52-60 | The sorted, comma-joined parts are the reference text |
| Canonical.EscapedReadsBack | pkg/contract/__init__.py:57 | A JSON reader gets back every ASCII key that Python writes |
| Canonical.PyEncodeList | pkg/contract/__init__.py:40-43 | The comma-joined items are the reference text |
| Canonical.LanguagesAgreeIff | pkg/contract/contract.go:2 | Go and Python print the same bytes if and only if no key needs an escape |
| Canonical.AscendingUnique | pkg/contract/contract.go:42 | A key set has only one ascending listing |
| CanonicalInjective.Cut | pkg/contract/contract.go:25-111 | Reading a value off the front of a text leaves no choice of value or rest |
| CanonicalInjective.EncodingInjective | pkg/contract/contract.go:25-111 | Equal output means equal values, maps compared as maps, when keys have no quote (Go) or are ASCII (Python) |
| CanonicalInjective.CutEscaped | pkg/contract/__init__.py:57 | The escaped form of a key tells the key and where it ends |
| CanonicalInjective.PythonInjective | pkg/contract/__init__.py:46-64 | Equal Python output means equal values, for all ASCII keys |
| CanonicalInjective.InjectiveIff | pkg/contract/contract.go:50-54 | Over any key alphabet that has the colon and the comma, the encoding is injective if and only if the alphabet has no quote |
| EventHash.RawInjective | pkg/contract/contract.go:124-125 | The hashed text determines its five fields if trace IDs or event types are free of bars |
| EventHash.HashEventReads | pkg/contract/contract.go:114-128 | Cut at its first four bars, the hashed text gives trace ID, decimal number, event type, payload hash and previous hash in this order |
| EventHash.UnambiguousIff | pkg/contract/contract.go:124-125 | Over alphabets with the digits, the hashed text is unambiguous if and only if bars are kept out of one of the two |
| EventHash.TipFixesTrace | pkg/contract/contract.go:114-128 | Equal tip hashes of chained traces mean the same trace, length, types and payloads, without collisions on what was hashed |
| EventHash.TipFixesHistory | pkg/consensus/engine.go:77-90 | The same for the tips two stores hold |
| Stress.Network.constructor | pkg/stress/stress.go:58-67 | Distinct fresh live nodes without events |
| Stress.Network.Broadcast | pkg/stress/stress.go:92-98 | Exactly the live nodes append the event |
| Stress.Network.CrashOne | pkg/stress/stress.go:214-222 | The first live node stops, nothing else changes |
| Stress.CheckNoSplitBrain | pkg/stress/stress.go:127-148 | True if and only if at most one position of the list strictly leads |
| Stress.SplitBrainFailsIff | pkg/stress/stress.go:127-148 | The check fails if and only if the list names a leading node twice |
| Stress.CheckReplayEquivalence | pkg/stress/stress.go:153-176 | True if and only if all live nodes that hold events hold the same hashes |
| Stress.DivergenceIsSeen | pkg/stress/stress.go:165-174 | Live histories that differ in length or in any hash fail the check |
| Stress.CheckConvergence | pkg/stress/stress.go:179-203 | True if and only if every number is held in total never or once per live node |
| Stress.LiveCountsAre | pkg/stress/stress.go:179-203 | The counts compared are the places at which live nodes hold a number, and the live nodes |
| Stress.Cycle | pkg/stress/stress.go:210-243 | One cycle takes every node from its history after i ticks to that after i + 1 |
| Stress.HeldIsPrefix | pkg/stress/stress.go:207-243 | Live nodes hold the whole duplicate-free history, crashed ones a prefix of it |
| Stress.HeldExactly | pkg/stress/stress.go:207-243 | A node holds the events of exactly the ticks without partition before it crashed, in order, with their own number, hash texts and roll |
| Stress.DownCounts | pkg/stress/stress.go:213-222 | As many nodes are down as crash rolls came up |
| Stress.RunLongTerm | pkg/stress/stress.go:207-258 | Reports no violation for any number of nodes, any event count, negative ones included, and any rolls, and leaves every node with exactly its history |
| Shuffle.Permute | pkg/failure/failure.go:217-235 | The in-place swaps compute the Fisher-Yates function of the source's answers |
| Shuffle.ShuffleIsDrawing | pkg/failure/failure.go:229-233 | The swaps draw the items without replacement, filling the result from its end |
| Shuffle.PermuteIsPermutationIff | pkg/failure/failure.go:216-235 | The result is a permutation of 0 .. n-1 for every random source if and only if n is positive |
| Shuffle.ShuffleIsBijection | pkg/failure/failure.go:229-233 | Each permutation arises from exactly one list of answers |
| Shuffle.ShuffleConservesDeliveries | pkg/tests/reorder_test.go:40-78 | Shuffled delivery and in-order rounds both give every trace the same number of deliveries |

## Left out

- Mutexes, fsync, operating-system write errors and partial writes: one writer with atomic writes; a crash cuts the file at any byte.
- WALEntry.ValidateChecksum, WALEntry.checksum and WALEntry.Hash: not on the recovery path; the check that counts is in DecodeEntry.
- Wal.RunInvariant: its runs do not append behind a torn frame, because what is recovered of such events depends on the hash function; Wal.AppendAfterAnyRunIff says exactly when the first one is kept, and Wal.DurableRun that the events before the tear are safe in all runs.
- Wal.DisciplineIsExact: behind a torn frame the discipline is sufficient, not necessary; the exact condition is that of Wal.AppendAfterAnyRunIff.
- CanonicalInjective.InjectiveIff: key alphabets without a colon or a comma are not decided.
- Leader state and INV_NoSplitBrain, INV_QuorumCommit: no code outside tests sets a leader, and the quorum counts nodes with a positive term, not holders of the entry; election safety is proved on votes instead.
- CheckSingleSourceOfTruth and the consensus CheckNoSplitBrain: plain comparisons that would add only easy members.
- Canonical.Encode: floating-point numbers and string values that need escapes are outside the value type, because json.Marshal is not modelled; keys may hold any bytes.
- Canonical.PyEncode: the same for json.dumps; keys may hold any ASCII text.
- HashEvent in Python: it builds the same text by an f-string, so the Go lemmas cover it.
- The internals of SHA-256, of the random generator and of the crash, partition and byzantine rolls: arbitrary functions.
- Trace ID and text of simulator events: TraceID is a constant there; the hash text is an arbitrary function of the tick.
- Timestamps and ticks of events: not stored by the log and not read by replay, so only the guard model has them.
- pkg/ci, cmd/formalgen, scripts, pkg/formal text generation, pkg/byzantine, pkg/clock, pkg/geb, pkg/schema, pkg/coverage, pkg/chaos, pkg/trace, pkg/diff and pkg/rng: plumbing, counters and formatting that would add only easy members.
