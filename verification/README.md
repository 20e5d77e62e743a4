# rocket-mem: durability, replication, codecs, eviction and cluster slots

A Dafny model of the parts of rocket-mem whose correctness is hard to see by reading one function:
the append-only file with its ordering guards, generations and snapshots; what a crash and a restart
make of them; what a follower ends up with; the two wire codecs; the key pattern matcher; the byte
accounting that eviction depends on; and the slot map of the static cluster.

`dafny verify dfyconfig.toml` checks the whole project.

## How it is put together

| file | what it models |
|---|---|
| `Bytes.dfy`, `Unicode.dfy` | bytes, decimal and big-endian numbers, UTF-8, command names |
| `Frames.dfy`, `Resp.dfy`, `RespStream.dfy`, `RespFrontier.dfy` | frames, the RESP printer and parser, the buffered codec and split reads, what becomes of an unfinished frame |
| `Rmp.dfy`, `RmpStream.dfy` | the binary value format and its envelope |
| `Names.dfy` | every command name, which of them write, and which of their arguments are keys |
| `Commands.dfy`, `Requests.dfy` | SET, APPEND, INCR, DEL, MSET, RENAME: their meaning, how they run one shard lock at a time, and what each request does to every key |
| `Grouping.dfy`, `Replay.dfy`, `CrashAtomicity.dfy` | MULTI/EXEC grouping, replaying a log that may end anywhere, all-or-nothing units |
| `Recovery.dfy`, `TornFiles.dfy` | the data directory and `recover`; a rewrite onto a file that already held bytes, whole or torn |
| `Protocol.dfy` | the whole server as an interleaved step system: every guard taken or dropped, shard touched, message queued, file written, snapshot walked, manifest renamed and frame sent is one step |
| `ProtocolLocks.dfy` ... `ProtocolCrash.dfy`, `ProtocolFsync.dfy` | what every step of every run keeps: locks, queue, agreement of shards, log and followers, brackets, disk, crashes, flushes |
| `ProtocolDeadlock.dfy`, `ProtocolLiveness.dfy` | who can wait for ever and who cannot, and that everybody else finishes |
| `ProtocolRaces.dfy`, `ProtocolOverlap.dfy` | what the locks do not order, with the exact conditions |
| `ProtocolSchedules.dfy`, `ProtocolCounterexamples.dfy`, `ProtocolLeftovers.dfy` | whole requests as schedules, and runs that show each of those conditions failing |
| `Glob.dfy` | pattern reading and matching |
| `Values.dfy`, `Deltas.dfy`, `Shard.dfy`, `ShardLedger.dfy`, `Eviction.dfy` | entry sizes, the bytes collection commands report, one shard alone, one shard under concurrency, eviction |
| `Crc.dfy`, `Cluster.dfy` | the slot checksum as polynomial division, hash tags, topology files |

The log order, the order in which shards are changed and the order in which frames reach a follower
are three different orders. They agree because frames that touch different shards commute
(`Commands.Commute`), so the proofs follow, shard by shard, what each client in the middle of a
section still owes to the log and to every follower.

## Promises of the source that do not hold as stated

Each has the condition under which it does hold, for all runs or all inputs, and a run or an input with
which it fails.

- A request is always answered: the rewrite lock is taken before the guards and no thread takes the
  guards twice (crates/server/src/aof.rs:354-357). MULTI queues SAVE and BGREWRITEAOF like anything
  else, and EXEC then asks for guards it holds itself. When nothing more can happen every client has
  its answer if and only if no transaction that EXEC runs queued one of the two: `AnsweredIff`,
  `FinishesIff`, `DeadlockFree`. `DoomedForever` says such a client never gets one, `NestedStuck` is the
  run, for every such transaction, and `AdminNests` gives the smallest two. A transaction that EXEC
  aborts, because a name in it was refused, is answered at once: `AbortedIsAnswered`,
  `SaveBesideUnknown`.
- A log written by the server can always be read back. EXEC takes only the guards of its own keys, so
  the MULTI of one transaction can land inside another on different shards, and a strict reader from
  the log's start stops there for ever. It gets through exactly while no transaction was opened inside
  another: `ReadableLogIff`, `OverlapIsForever`. Transactions that take a guard in common with each
  other never do that (`SharedNeverOverlap`); any two that do not can (`DisjointCanOverlap`). The guards
  are those of every key a queued frame has by its name, reads and wrong argument counts included
  (`WantIff`, `AnyArityCounts`, `ReadsCount`). A restart reads from
  its snapshot's offset on, so what it needs is that part closed: `RestartKeepsAll` is the exact
  condition at rest, `OverlapLosesBoth` a run that loses both transactions, and `SaveHeals` the same
  run with a SAVE behind it, which loses nothing.
- The comment in `serve_replica` that nothing can move the replication offset between reading it and
  registering (crates/server/src/connection.rs:660-672). PUBLISH moves it and sends without any guard.
  The header is right when nobody publishes (`NoPublishNoDrift`). In general header plus stream is the
  leader's offset at rest, for ever, if and only if the published bytes still unsent at registration are
  those counted since the header was read (`HeaderRightIff`); `PublishRace` is a run where they are not.
- A committed rewrite recovers to its snapshot plus its log. The snapshot's header is 0, and rotation
  appends to whatever file an interrupted rewrite left there, cut at any byte. `StaleHarmlessIff`: every
  log that can follow restarts right if and only if those bytes end where replay would cut and replaying
  them over the snapshot changes nothing. `StoppedLeadLoses`: behind a leftover that stops the reader no
  later frame ever comes back. `StaleRewrite` and `TornRewrite` are the runs. `NoStaleBytes` in the
  crash theorems is the condition that the file was empty or has been saved past.
- Under the fsync-always policy an answered write survives a crash. With `NoStaleBytes`, the condition of
  the entry above, everything written survives if and only if the log from the snapshot's point on is
  closed and nothing was written between the rotation of a rewrite and the commit of its manifest
  (`AlwaysKeepsAll`). `AnsweredWriteLost` and
  `RotationLosesAnswered` are runs for the two halves.
- A snapshot equal to the replay of its own offset's prefix is only an accelerator. It is one for every
  continuation of the log if and only if the offset is also a place where replay would cut:
  `AcceleratesIff`, `MisalignedSnapshot`.
- The shard's byte counter is exact when nothing is in progress. `clear` empties the table and resets
  the counter in two steps, and a live REPLICAOF runs it beside client writes
  (crates/server/src/replication.rs:1150). At rest the counter is exact if and only if, at the last
  reset, what the table held was what was still to be added: `ExactAtRestIff`, `ClearRace`.
- The shard's byte counter never exceeds what it accounts for. `set` settles after dropping the lock,
  subtraction first. The counter never goes below zero while no step takes away or replaces an entry
  whose bytes are still to be settled (`CalmNeverWraps`); the per-shard guard keeps client writes to
  that, and eviction, which deletes in other shards without their guard, does not. `TransientWrap` and
  `EvictionWrap` are runs after which it reads near 2^64.
- Eviction frees memory only over the ceiling. It does with exact counters (`ExactEviction`), and in
  general exactly when the 64-bit sum of the counters is over it (`EvictsIff`). While one shard is owed
  more than all entries account for, that sum reads near 2^64, and everything goes, up to 1000 entries,
  however far the entries are from the ceiling (`WrappedEvictsAll`); `WrappedInput` is a store of 50
  bytes under a ceiling of 1000.
- A list range covers the positions from `start` to `stop`. When `stop` lies before the first element
  the code still keeps that element: `RangeIff` gives the condition, and `RangeBeforeStart` is the range
  from 0 to -100 of three elements.
- A binary message that was encoded can be decoded. The encoder has no depth limit, the decoder does:
  `MessageRoundTrip` says which side of 32 levels decides, and `ThirtyThreeRefused` is one level more.
- A RESP frame that was encoded can be parsed back: `RoundTripIff` gives the frames for which it can, and
  `LineEndInside` is a simple string that comes back shorter.
- A RESP buffer without a complete frame is waiting for more bytes (crates/protocol/src/codec.rs:106-108).
  Some continuation decides an unfinished frame if and only if no bulk header below -1 stands where the
  parser stopped, however deep in arrays (`DecidableIff`). At such a header the parser panics if and
  only if its length wraps round when the header's own is added (`PanicsIff`; `MinusTwoPanics` is the
  shortest), and otherwise it waits for ever, whatever arrives (`WaitsForEver`, `MinusNineWaits`).

## Model

| member | source | states |
|---|---|---|
| Resp.RoundTrip | crates/protocol/src/codec.rs:21-183 | parsing an encoded readable frame, with any bytes behind it, gives it back with Map and Push flattened and uses exactly its encoding |
| Resp.RoundTripIff | crates/protocol/src/codec.rs:21-183 | that happens if and only if the frame is readable: no line end inside simple text, no RESP3-only type byte |
| Resp.PrefixIncomplete | crates/protocol/src/codec.rs:109-183 | every proper prefix of an encoding asks for more bytes, never fails and never parses as something else |
| Resp.FrameStable | crates/protocol/src/codec.rs:101-183 | a parse that came to any decision does not change when bytes are appended |
| RespFrontier.PanicsIff | crates/protocol/src/codec.rs:134-155 | the parser panics if and only if it stopped at a bulk header below -1 whose length wraps round, at any depth and behind any frames |
| RespFrontier.WaitsForEver | crates/protocol/src/codec.rs:134-155 | stopped at a lower one it asks for more bytes whatever is appended |
| RespFrontier.DecidableIff | crates/protocol/src/codec.rs:105-183 | some continuation decides an unfinished frame if and only if no bulk header below -1 stands where the parser stopped |
| RespFrontier.MinusTwoPanics | crates/protocol/src/codec.rs:134-155 | the five bytes of a bulk header of -2, alone and in an array, panic |
| RespFrontier.MinusNineWaits | crates/protocol/src/codec.rs:134-155 | a bulk header of -9 waits for ever |
| Resp.LineEndInside | crates/protocol/src/codec.rs:21-45 | a simple string with a line end inside comes back cut at it |
| Resp.LeafBytes | crates/protocol/src/codec.rs:23-52 | the bytes of each frame that holds no other, in both protocol versions |
| Resp.NestedBytes | crates/protocol/src/codec.rs:53-94 | the type byte and count of Array, Map and Push in both versions: RESP3 counts a Map's pairs, RESP2 its items |
| Resp.OtherBytes | crates/protocol/src/codec.rs:109-183 | an unknown type byte is refused, a negative array count reads as the empty array |
| Resp.BadLine | crates/protocol/src/codec.rs:113-165 | a complete line that is no text or no number is refused |
| Resp.AnyTwoBytes | crates/protocol/src/codec.rs:143-155 | a bulk string is taken with whatever two bytes stand behind it |
| Unicode.Utf8Iff | crates/protocol/src/codec.rs:113-130 | text is accepted if and only if it is the encoding of some sequence of Unicode scalar values |
| Bytes.NumberForms | crates/protocol/src/codec.rs:124-145 | a decimal with or without a sign is a number if and only if it fits in 64 bits |
| Bytes.StrangeByte | crates/protocol/src/codec.rs:124-145 | text with anything but digits behind an optional sign is none |
| Bytes.NameIff | crates/server/src/dispatcher.rs:213-225 | a command name is at most 32 bytes of ASCII |
| RespStream.EncodeInto | crates/protocol/src/codec.rs:21-97 | the encoder appends exactly the frame's encoding and keeps what was buffered |
| RespStream.ParseFrameLoop | crates/protocol/src/codec.rs:109-183 | the item loop over a slice computes the recursive parse |
| RespStream.Decode | crates/protocol/src/codec.rs:186-217 | a decoded frame is taken off the front; otherwise the buffer is untouched |
| RespStream.DrainBuffer | crates/protocol/src/codec.rs:186-217 | decoding until the buffer asks for more gives the specified frames, remainder and stop |
| RespStream.SplitReads | crates/protocol/src/codec.rs:186-217 | a stream cut into any reads decodes to the same frames and the same error as the whole of it, and while it waits to the same remainder |
| RespStream.ChunkingIrrelevant | crates/protocol/src/codec.rs:186-217 | every way of cutting a byte stream into reads gives the same frames and the same error as decoding it at once |
| Commands.RunIsApply | crates/server/src/dispatcher.rs:359-410 | running a command one shard lock at a time ends in its meaning, and a refused command changes nothing |
| Requests.SetRequest | crates/server/src/dispatcher.rs:406-457 | SET in any letter case leaves the value at its key and every other key alone |
| Requests.AppendRequest | crates/engine/src/commands/string.rs:28-56 | APPEND leaves the old value followed by the suffix, or the suffix alone |
| Requests.IncrRequest | crates/engine/src/commands/string.rs:66-104 | INCR leaves one more than the number there, 1 for a missing key, and anything else as it was |
| Requests.DelRequest | crates/server/src/dispatcher.rs:396-400 | DEL takes away every key it is given and no other |
| Requests.MSetRequest | crates/server/src/dispatcher.rs:1042-1053 | MSET leaves at each key the last value given for it |
| Requests.MSetKeeps | crates/server/src/dispatcher.rs:1042-1053 | MSET leaves other keys alone, and with an odd number of arguments all of them |
| Requests.RenameRequest | crates/server/src/dispatcher.rs:1080-1086 | RENAME moves the value and leaves nothing behind; a missing key changes nothing |
| Requests.RefusedRequest | crates/server/src/dispatcher.rs:328-357 | with too few arguments nothing changes |
| Requests.NoRequest | crates/server/src/dispatcher.rs:359-367 | nor by a frame that is empty or holds anything but strings |
| Commands.IncrementCounts | crates/engine/src/commands/string.rs:66-104 | INCR adds one to every decimal `i64` below the largest and refuses the largest |
| Names.WritesHaveKeys | crates/server/src/aof.rs:431-476 | every name that is logged is known and has a place for a key |
| Names.PicksArguments | crates/server/src/dispatcher.rs:1768-1806 | whatever a key specification picks is one of the arguments |
| Names.KnownIff | crates/server/src/dispatcher.rs:1579-1683 | the names sorted by where their keys are, are exactly the listed ones |
| Names.TransactionNames | crates/server/src/dispatcher.rs:3408-3450 | which names a transaction answers at once, which spoil it and which it queues |
| Commands.KeysAreNamed | crates/server/src/dispatcher.rs:1768-1806 | every key a command touches is among the keys its name gives it, so the guards cover what it touches |
| Commands.DispatchLocal | crates/server/src/dispatcher.rs:1741-1806 | a frame's effect on the shards of its keys depends only on those shards |
| Commands.DispatchFrame | crates/server/src/dispatcher.rs:1741-1806 | a frame leaves every shard none of its keys lives in as it was |
| Commands.Commute | crates/server/src/aof.rs:101-120 | frames with keys in different shards can be applied in either order |
| Grouping.MarkersAreMarkers | crates/server/src/dispatcher.rs:3580-3599 | the frames EXEC writes around a transaction are recognised as its markers |
| Grouping.MarkerSpelled | crates/server/src/transaction_grouping.rs:8-21 | MULTI and EXEC are markers in any letter case and only without arguments |
| Grouping.MarkerIsNoCommand | crates/server/src/transaction_grouping.rs:8-23 | a marker is never a command and a command never a marker |
| Grouping.TransactionGrouper.FeedFrame | crates/server/src/transaction_grouping.rs:35-54 | feeding a frame releases what closes with it and reports a marker out of place |
| Grouping.TransactionGrouper.IsMidTransaction | crates/server/src/transaction_grouping.rs:31-33 | true exactly between a MULTI and its EXEC |
| Grouping.BalancedIsFold | crates/server/src/transaction_grouping.rs:35-54 | a stream whose brackets are all closed releases frames that have the same effect as applying the stream plainly |
| Grouping.LenientIsFold | crates/server/src/replication.rs:1225-1300 | a follower that ignores misplaced markers applies the same effect too, plus what it still holds back |
| Replay.Engine.DispatchFrame | crates/server/src/dispatcher.rs:359-410 | the step loop leaves the engine with the frame's effect |
| Replay.ReplayWithStats | crates/server/src/aof.rs:506-620 | the replay loop applies, counts, and keeps exactly what the specification of a scan says, from any start offset, for any bytes |
| CrashAtomicity.ScanOfCut | crates/server/src/aof.rs:537-580 | a log cut at any byte is read as its whole frames |
| CrashAtomicity.MisplacedStops | crates/server/src/aof.rs:555-580 | an EXEC without a MULTI and a MULTI inside another stop the replay in front of them |
| CrashAtomicity.CutLogReplay | crates/server/src/aof.rs:537-620 | replay applies the frames up to the last closed point among them, keeps exactly their bytes, and rebuilds their keyspace |
| CrashAtomicity.UnitAtomicity | crates/server/src/aof.rs:537-620 | of a log of commands and transactions cut at any byte, exactly the units wholly inside are applied, in order, and the file is cut after the last of them |
| CrashAtomicity.RepairedFile | crates/server/src/aof.rs:582-612 | whatever the bytes: replaying a truncated file again changes nothing more, and what is appended later replays after it |
| Recovery.DataDir.ReplayFile | crates/server/src/aof.rs:506-620 | replaying a generation's file in place, missing file included |
| Recovery.DataDir.Recover | crates/server/src/aof.rs:734-847 | startup reads the manifest's generation, uses or discards its snapshot, replays and truncates, as specified by `Recovered` |
| Recovery.UselessSnapshot | crates/server/src/aof.rs:797-826 | with a log and a snapshot that is missing, undecodable or past the log's end, the whole log is replayed |
| Recovery.UsefulSnapshot | crates/server/src/aof.rs:814-847 | otherwise replay starts at the snapshot's offset with its image |
| Recovery.NoLog | crates/server/src/aof.rs:781-796 | without a log the snapshot is everything |
| Recovery.ManifestDecides | crates/server/src/aof.rs:734-760 | startup is refused if and only if the manifest does not parse; a missing one stands for generation 0 |
| Recovery.SnapshotIsAccelerator | crates/server/src/aof.rs:734-847 | with the log present, recovery equals the full log's replay whenever the snapshot is absent, undecodable, past the end, or agrees with the log at a cut point |
| Recovery.AcceleratesIff | crates/server/src/aof.rs:734-847 | a snapshot gives the full log's replay for every continuation of the bytes it was taken of if and only if its image is their replay and replay would not cut inside them |
| Recovery.RecoverTwice | crates/server/src/aof.rs:734-847 | recovering again finds the same keyspace and leaves the disk alone |
| ProtocolLocks.LocksHold | crates/server/src/aof.rs:346-400 | in every run each guard and the rewrite lock is held by exactly the client the model says holds it |
| ProtocolLocks.Exclusion | crates/server/src/aof.rs:346-400 | no two clients hold the same guard, nor both the rewrite lock |
| ProtocolQueue.QueueHolds | crates/server/src/aof.rs:165-240 | every waiting client's message is in the queue, and behind a client's flush or rotation nothing comes but the once-a-second loop's own flushes |
| ProtocolQueue.QueueBounded | crates/server/src/aof.rs:165-170 | in every run the queue holds no more than its capacity |
| ProtocolDeadlock.DeadlockFree | crates/server/src/aof.rs:121-126 | while no transaction that EXEC runs has queued SAVE or BGREWRITEAOF, whenever some client is unfinished, a client or the writer thread can take a step, with a queue of any capacity |
| ProtocolDeadlock.DoomedForever | crates/server/src/dispatcher.rs:3499-3573 | a client inside a transaction that queued one of them is never answered, whatever anybody does |
| ProtocolDeadlock.AskedIsDoomed | crates/server/src/dispatcher.rs:3395-3460 | asking for such a transaction is enough, unless a refused name makes EXEC abort it |
| ProtocolLiveness.StepUsesWork | crates/server/src/aof.rs:346-416 | every step without a new request strictly reduces a bound on the work left |
| ProtocolLiveness.BoundedWork | crates/server/src/aof.rs:346-416 | no schedule without new requests is longer than that bound |
| ProtocolLiveness.RunsDry | crates/server/src/aof.rs:346-416 | from every reachable state the work asked for runs out within the bound |
| ProtocolLiveness.AnsweredIff | crates/server/src/dispatcher.rs:3395-3573 | however a run comes to the point where nothing more can happen, every client has its answer there if and only if no transaction that EXEC runs queued SAVE or BGREWRITEAOF |
| ProtocolLiveness.FinishesIff | crates/server/src/dispatcher.rs:3395-3573 | from a reachable state everybody can be answered without new requests if and only if no transaction that EXEC runs queued one of them |
| ProtocolLiveness.Finishes | crates/server/src/aof.rs:346-416 | and then within the bound |
| ProtocolViews.StreamsHold | crates/server/src/dispatcher.rs:4455-4612 | at every step each client accounts exactly for the difference between the shards it holds and the log, and between them and every follower |
| ProtocolViews.FreeShardsAgree | crates/server/src/aof.rs:101-120 | on every shard whose guard is free, the log's replay and every follower's stream give what the shard holds |
| ProtocolViews.QuietStreams | crates/server/src/aof.rs:101-120 | when no writer is inside a section, the log and every follower describe the whole keyspace |
| ProtocolReplicas.HandoffHolds | crates/server/src/connection.rs:660-689 | at every step, per follower, what was logged since it joined is what was sent plus what is still owed, per shard in log order |
| ProtocolReplicas.OffsetsHold | crates/server/src/replication.rs:777-790 | header plus streamed bytes plus counted-but-unsent bytes is the leader's offset plus an error fixed at registration |
| ProtocolReplicas.PsyncHandoff | crates/server/src/connection.rs:660-740 | at rest the blob is the log up to registration, each later write was sent exactly once and per shard in order, and a follower applying them through its transaction buffer holds the leader's keyspace |
| ProtocolRaces.NoPublishNoDrift | crates/server/src/connection.rs:672-689 | with no PUBLISH in the run, every header read under the guards is still the offset at registration |
| ProtocolRaces.ExactOffsets | crates/server/src/connection.rs:672-689 | then header plus stream is the leader's offset at rest |
| ProtocolRaces.RegistrationDrift | crates/server/src/dispatcher.rs:3838-3868 | with PUBLISH, the error fixed at registration is the published bytes unsent then less those counted since the header was read |
| ProtocolRaces.HeaderRightIff | crates/server/src/connection.rs:660-740 | for every run through a registration to rest: header plus everything streamed is the leader's offset if and only if the published bytes unsent at registration were those counted since the header was read |
| ProtocolBrackets.BracketsHold | crates/server/src/dispatcher.rs:3499-3573 | the append order is open exactly while one client is inside a transaction, until two overlap |
| ProtocolBrackets.ReadableLogIff | crates/server/src/dispatcher.rs:3499-3573 | a strict reader gets through the append order if and only if no transaction was opened inside another |
| ProtocolBrackets.OverlapIsForever | crates/server/src/aof.rs:555-580 | after an overlap nothing appended later is ever reached by a reader that starts where the log starts |
| ProtocolOverlap.SharedNeverOverlap | crates/server/src/dispatcher.rs:3528-3550 | in a run whose logged transactions take a guard in common with each other, none is opened inside another |
| ProtocolOverlap.DisjointCanOverlap | crates/server/src/dispatcher.rs:3528-3550 | any two logged transactions without one have a run in which the second is opened inside the first |
| ProtocolOverlap.WantIff | crates/server/src/dispatcher.rs:3532-3544 | a transaction takes a guard if and only if some queued frame has a key there by its name, or none has any key |
| ProtocolOverlap.AnyArityCounts | crates/server/src/dispatcher.rs:3528-3550 | a SET with any number of arguments takes its key's guard alone and is logged between markers |
| ProtocolOverlap.ReadsCount | crates/server/src/dispatcher.rs:3532-3544 | two transactions that read the same key take its guard in common |
| ProtocolDisk.DiskHolds | crates/server/src/dispatcher.rs:3171-3300 | at every step of every run, rewrites included: each live file is its old bytes and its stretch of the log, the manifest names the active generation or the one before, and its snapshot is the replay of the prefix it stands for |
| ProtocolDisk.SavedCut | crates/server/src/dispatcher.rs:3248-3285 | the walk SAVE makes under all guards is the keyspace at exactly the offset it recorded |
| ProtocolDisk.RotationImage | crates/server/src/dispatcher.rs:3171-3181 | the image a rewrite carries is the keyspace of the whole log at the rotation |
| ProtocolCrash.SavedSnapshot | crates/server/src/dispatcher.rs:3248-3300 | a snapshot on disk is the replay of exactly the log prefix its header names, and image plus tail is the full replay |
| ProtocolCrash.DiskReplay | crates/server/src/aof.rs:734-847 | a restart replays the surviving log up to its last closed point and cuts the file there |
| ProtocolCrash.CrashRecovery | crates/server/src/aof.rs:218-235 | a crash at any step recovers to a prefix of the log, the longest closed one that survived, and everything up to the rotation while the manifest still names the old generation |
| ProtocolCrash.CrashPossible | crates/server/src/aof.rs:165-240 | a crash that loses no byte of the files is always among the possible ones |
| ProtocolCrash.FsyncedSurvives | crates/server/src/aof.rs:190-209 | every fsynced frame is among those that survive |
| ProtocolFsync.FlushedSurvives | crates/server/src/connection.rs:65-82 | in every run, what had been written when a once-a-second flush was taken is among what survives any later crash while the manifest names the active generation |
| ProtocolFsync.FlushedComesBack | crates/server/src/aof.rs:203-209 | and while transactions have not overlapped, a restart has everything up to any closed point of it |
| ProtocolFsync.FlushedSetFound | crates/server/src/connection.rs:65-82 | a run of one SET and one flush after which every restart finds the key |
| ProtocolFsync.UnflushedSetLost | crates/server/src/aof.rs:172-188 | the same run without the flush, and a crash that loses it |
| ProtocolCrash.RestartKeepsAll | crates/server/src/aof.rs:734-847 | a server at rest with its log fsynced restarts with everything written, and so with the keyspace it had, if and only if the log from its last snapshot's point on is closed; without an overlap it always is |
| ProtocolCrash.AlwaysSynced | crates/server/src/aof.rs:190-202 | under the always policy nothing is ever written without being fsynced |
| ProtocolCrash.AlwaysKeepsAll | crates/server/src/aof.rs:190-202 | then a crash at any step keeps every written frame if and only if the log from the snapshot's point on is closed and nothing was written between a rotation and its commit |
| ProtocolCrash.StaleBytesReplayed | crates/server/src/dispatcher.rs:3171-3181 | after a rewrite onto a file that already held bytes, recovery replays them between the snapshot's image and the log, and never gets to the log when they stop the reader |
| TornFiles.StoppedLeadLoses | crates/server/src/aof.rs:537-612 | behind a leftover that ends in an unreadable frame, a misplaced marker or an open transaction, no later frame comes back, and the file is cut inside the leftover |
| TornFiles.CrossScan | crates/server/src/aof.rs:537-580 | a leftover that replay would cut, followed by the first INCR of a new key: the key does not appear or another disappears |
| TornFiles.StaleHarmlessIff | crates/server/src/aof.rs:218-235 | such a rewrite restarts right, for every log that can follow, if and only if the leftover ends where replay would cut and replaying it over the snapshot changes nothing |
| ProtocolCrash.RestartIsInit | crates/server/src/aof.rs:734-847 | the restarted server is again a starting state of the model, so every theorem holds after any number of crashes |
| ProtocolCounterexamples.PublishRace | crates/server/src/dispatcher.rs:3838-3868 | a run after which header plus stream stays below the offset for ever |
| ProtocolCounterexamples.PublishIff | crates/server/src/dispatcher.rs:3838-3868 | PUBLISH in any letter case publishes if and only if it has a channel and a message |
| ProtocolLeftovers.StaleRewrite | crates/server/src/aof.rs:218-235 | a run of one BGREWRITEAOF onto a whole old frame after which recovery brings back an old key |
| ProtocolLeftovers.TornRewrite | crates/server/src/aof.rs:218-235 | a run of BGREWRITEAOF onto one torn byte and an answered, fsynced SET that no restart finds |
| ProtocolLeftovers.RotationLosesAnswered | crates/server/src/dispatcher.rs:3171-3210 | an answered, fsynced SET between rotation and commit that a crash loses with no transaction open |
| ProtocolCounterexamples.OverlapLosesBoth | crates/server/src/dispatcher.rs:3499-3573 | a run of two answered transactions on different shards after which recovery finds nothing |
| ProtocolCounterexamples.SaveHeals | crates/server/src/dispatcher.rs:3248-3300 | the same run followed by SAVE, after which recovery finds everything |
| ProtocolCounterexamples.NestedStuck | crates/server/src/dispatcher.rs:3499-3573 | for every transaction that EXEC runs and that queues SAVE or BGREWRITEAOF, a run on an idle server after which nothing can move and its client is never answered |
| ProtocolCounterexamples.AdminNests | crates/server/src/dispatcher.rs:3395-3460 | MULTI, SAVE, EXEC and MULTI, BGREWRITEAOF, EXEC are such transactions |
| ProtocolCounterexamples.AbortedIsAnswered | crates/server/src/dispatcher.rs:3510-3523 | a transaction with a refused name is answered in one step, takes no guard and leaves no trace, whatever else it queued |
| ProtocolCounterexamples.SaveBesideUnknown | crates/server/src/dispatcher.rs:3432-3450 | SAVE beside an unknown name is such a transaction |
| ProtocolCounterexamples.AnsweredWriteLost | crates/server/src/dispatcher.rs:3499-3573 | an answered, fsynced write that a crash loses because another client's transaction is open |
| ProtocolLeftovers.MisalignedSnapshot | crates/server/src/aof.rs:750-830 | a snapshot equal to its prefix's replay with which recovery loses the log |
| Glob.Tokenize | crates/engine/src/glob.rs:18-60 | the reading loop gives the pattern's tokens, unterminated classes and trailing backslashes included |
| Glob.TokenizeWritten | crates/engine/src/glob.rs:18-60 | every list of writable tokens, that is with no bracket and no leading negation inside a class, can be written as a pattern that reads back as it |
| Glob.TokenListsIff | crates/engine/src/glob.rs:18-60 | those lists are exactly the ones some pattern is read as |
| Glob.PlainByte | crates/engine/src/glob.rs:47-57 | any byte without a meaning stands for itself; so do an open bracket that is never closed and a last backslash |
| Glob.SpecialByte | crates/engine/src/glob.rs:23-34 | what a backslash, a star and a question mark are read as |
| Glob.ReadsClass | crates/engine/src/glob.rs:35-46 | a bracket up to the first closing one is a class, negated by a caret or an exclamation mark |
| Glob.MatchesItself | crates/engine/src/glob.rs:85-116 | a pattern without special bytes matches exactly itself |
| Glob.MatchesPrefix | crates/engine/src/glob.rs:85-116 | followed by a star exactly what begins with it, by a question mark exactly that and one byte |
| Glob.ClassLists | crates/engine/src/glob.rs:121-138 | a class without a hyphen holds exactly the bytes it lists |
| Glob.ClassRange | crates/engine/src/glob.rs:121-138 | a class a-b holds exactly the bytes between |
| Glob.ClassMatches | crates/engine/src/glob.rs:121-138 | a byte is in a class if and only if one of the ranges the body lists holds it |
| Glob.TokenMatches | crates/engine/src/glob.rs:65-72 | a token accepts a byte; a star never does |
| Glob.LaterStar | crates/engine/src/glob.rs:85-116 | once a later star is reached, giving an earlier one a longer run never helps |
| Glob.GlobMatch | crates/engine/src/glob.rs:85-116 | true if and only if some choice of run for each star makes the tokens fit the text, in at most (text + 1) * (tokens + 1) iterations |
| Values.ApproxSize | crates/engine/src/value.rs:77-99 | at least the overhead, and exactly that for an emptied collection |
| Values.ExpiryMoment | crates/engine/src/shard.rs:15-17 | an entry has expired from the very moment it expires at, and one without such a moment never |
| Values.TotalWithout | crates/engine/src/shard.rs:20-22 | the bytes a table accounts for do not depend on the order they are added up in |
| Shard.Shard.Get | crates/engine/src/shard.rs:37-60 | reads what is visible; a hit only marks the entry as used, an expired entry is removed, and nothing else in the table changes; counter exact |
| Shard.Shard.Set | crates/engine/src/shard.rs:62-79 | the key holds the value without an expiry, every other entry is as it was, the counter stays exact |
| Shard.Shard.Del | crates/engine/src/shard.rs:81-92 | removes the entry and says whether it was visible, counter exact |
| Shard.Shard.WithMut | crates/engine/src/shard.rs:242-285 | changes a visible value, keeps its expiry and every other entry, and removes a collection it empties, counter exact |
| Shard.Shard.WithMutDelta | crates/engine/src/shard.rs:296-340 | the same with the closure's own byte count: the counter goes wrong by exactly what the report is wrong |
| Deltas.PushBack | crates/engine/src/commands/list.rs:18-41 | the RPUSH loop computes `Rpush`: the values appended and their bytes |
| Deltas.PushFront | crates/engine/src/commands/list.rs:58-81 | the LPUSH loop computes `Lpush`: the values prepended, last first, and their bytes |
| Deltas.LpushOrder | crates/engine/src/commands/list.rs:58-81 | after LPUSH the last argument is first and the old elements follow the first |
| Deltas.RpushOrder | crates/engine/src/commands/list.rs:18-41 | after RPUSH the arguments follow the old elements in order |
| Deltas.Pop | crates/engine/src/commands/list.rs:104-137 | LPOP and RPOP take the end element off and report its bytes, as `PopEnd` says |
| Deltas.PushesTruthful | crates/engine/src/commands/list.rs:18-81 | whatever RPUSH and LPUSH find, they report exactly the change in `approx_size`, so the counter stays exact |
| Deltas.PopTruthful | crates/engine/src/commands/list.rs:104-137 | the same of LPOP and RPOP |
| Deltas.SetTruthful | crates/engine/src/commands/list.rs:205-228 | the same of LSET, indices outside the list included |
| Deltas.LsetPlace | crates/engine/src/commands/list.rs:205-228 | LSET changes the element at its index, from the end when negative, and no other |
| Deltas.TrimTruthful | crates/engine/src/commands/list.rs:230-263 | the same of LTRIM |
| Deltas.RemTruthful | crates/engine/src/commands/list.rs:268-316 | the same of LREM with any count |
| Deltas.SetsTruthful | crates/engine/src/commands/set.rs:18-71 | the same of SADD and SREM |
| Deltas.SortedSetsTruthful | crates/engine/src/commands/sorted_set.rs:5-73 | the same of ZADD and ZREM |
| Deltas.HsetTruthful | crates/engine/src/commands/hash.rs:8-32 | the same of HSET |
| Deltas.HdelTruthful | crates/engine/src/commands/hash.rs:57-73 | the same of HDEL |
| Deltas.RangeIff | crates/engine/src/commands/list.rs:144-164 | the normalised range holds exactly the positions from start to stop unless stop lies before the first element and start does not lie behind it |
| Deltas.RangeBeforeStart | crates/engine/src/commands/list.rs:144-164 | the range from 0 to -100 of three elements holds the first |
| Deltas.LtrimKeeps | crates/engine/src/commands/list.rs:230-263 | LTRIM keeps exactly the elements its range covers, in order |
| Deltas.Trim | crates/engine/src/commands/list.rs:230-263 | LTRIM, tail first and then head, computes `Ltrim`: exactly the range, and the bytes of the rest |
| Deltas.RemoveMatching | crates/engine/src/commands/list.rs:268-316 | LREM from the head removes the first occurrences asked for, or all, and reports their bytes without looking at them |
| Deltas.RemoveFromTail | crates/engine/src/commands/list.rs:268-316 | LREM from the tail, places first and removals afterwards, removes exactly the last occurrences asked for |
| Deltas.LremTakes | crates/engine/src/commands/list.rs:268-316 | LREM takes exactly the first, the last or all occurrences and keeps the order of the rest |
| Deltas.LastOneGoes | crates/engine/src/shard.rs:318-336 | taking the last element out of any collection takes its key away |
| Deltas.EmptyStringStays | crates/engine/src/value.rs:74-88 | an empty string is no emptied collection |
| Deltas.Insert | crates/engine/src/commands/set.rs:18-37 | SADD, and ZADD at its own cost: the members are those there and those given, each once, with the bytes of the new ones |
| Deltas.Erase | crates/engine/src/commands/set.rs:55-71 | SREM, and ZREM at its own cost: the members are those there and not given, with the bytes of the ones gone |
| Deltas.HsetSets | crates/engine/src/commands/hash.rs:8-32 | HSET sets one field and leaves the others |
| Deltas.HdelRemoves | crates/engine/src/commands/hash.rs:57-73 | HDEL leaves exactly the fields it was not given |
| Deltas.EraseFields | crates/engine/src/commands/hash.rs:57-73 | the HDEL loop computes `Hdel` and counts what it removed |
| Shard.Shard.RemoveExpired | crates/engine/src/shard.rs:185-199 | leaves exactly the entries that have not expired, each as it was, counts the others, counter exact |
| Shard.Shard.OffByZero | crates/engine/src/shard.rs:296-340 | so the counter stays exact if and only if the report is right modulo 2^64 |
| Shard.Shard.Clear | crates/engine/src/shard.rs:145-148 | empties table and counter, with nobody else on the shard |
| ShardLedger.StepKeepsOff | crates/engine/src/shard.rs:37-340 | every step of every operation, but for the reset of `clear`, leaves the counter exactly as right or wrong as it was |
| ShardLedger.LedgerHolds | crates/engine/src/shard.rs:37-340 | in every interleaving in which each clear was alone when it reset the counter, counter plus outstanding deltas equals the sum of entry sizes modulo 2^64 |
| ShardLedger.ExactAtRest | crates/engine/src/shard.rs:37-340 | in such a run, with no operation in progress, the counter is exact |
| ShardLedger.ExactAtRestIff | crates/engine/src/shard.rs:145-148 | in every run, overlapping clears included, it is exact at rest if and only if, at the last reset, what the table held was what was still to be added |
| ShardLedger.ReadsHugeIff | crates/engine/src/shard.rs:62-79 | in between it is the difference, and reads near 2^64 if and only if more is outstanding than the table accounts for |
| ShardLedger.CalmNeverWraps | crates/engine/src/shard.rs:62-79 | while no step takes away or replaces an entry whose bytes are still to be settled, and each clear is alone, the counter is at every moment the table's bytes less what is outstanding, and that is never below zero |
| ShardLedger.TransientWrap | crates/engine/src/shard.rs:62-79 | two concurrent sets of a new key after which a nearly empty shard reads near 2^64 |
| ShardLedger.EvictionWrap | crates/engine/src/engine.rs:274-286 | a set and an eviction of its key with the same reading on an empty shard |
| ShardLedger.ClearRace | crates/engine/src/shard.rs:145-148 | a set overlapped by a clear after which an empty shard at rest accounts for bytes for ever |
| Eviction.Store.MemoryUsed | crates/engine/src/store.rs:120-122 | the 64-bit sum over the shards is what all entries account for plus the counters' error |
| Eviction.Store.SampleForEviction | crates/engine/src/store.rs:124-129 | of every shard in turn exactly five different entries with their ticks, or all when it has fewer |
| Eviction.Store.Del | crates/engine/src/store.rs:58-60 | takes the key out of the shard its hash names and keeps the counters' error, round the word if need be |
| Eviction.MinByTick | crates/engine/src/engine.rs:275-278 | the first candidate with the smallest tick |
| Eviction.ExactLru | crates/engine/src/engine.rs:274-286 | the victim is an entry, and no entry of a shard with at most five was used longer ago |
| Eviction.Store.MaybeEvict | crates/engine/src/engine.rs:241-306 | whatever the counters say: ends with a reading at or under the ceiling, after exactly 1000 evictions, or with nothing left; the tables are the old ones without the victims, in order; each victim is the oldest of a sample drawn from the tables as the earlier ones left them and was taken while the reading was over the ceiling; the reported bytes are those the victims accounted for |
| Eviction.ExactEviction | crates/engine/src/engine.rs:241-306 | with exact counters each victim was taken while the entries accounted for more than the ceiling, and the run ends under it or after exactly 1000 evictions |
| Eviction.EvictsIff | crates/engine/src/engine.rs:274-278 | whatever the counters say, something is evicted if and only if there is an entry and the sum of the counters is over the ceiling |
| Eviction.FreedExactly | crates/engine/src/engine.rs:236-244 | when no victim had expired, the bytes reported freed are exactly what the entries account for less |
| Eviction.ExpiredNotReported | crates/engine/src/engine.rs:236-244 | a victim that had expired is freed and not reported |
| Eviction.WrappedEvictsAll | crates/engine/src/engine.rs:241-306 | while more is owed to one shard than all entries account for, a run evicts everything, up to 1000 entries |
| Eviction.WrappedInput | crates/engine/src/engine.rs:241-306 | a 50-byte store under a ceiling of 1000 that is emptied so |
| Crc.RemainderExists | crates/server/src/cluster.rs:11-24 | every polynomial over GF(2) has a remainder modulo x^16+x^12+x^5+1 |
| Crc.RemainderUnique | crates/server/src/cluster.rs:11-24 | and only one |
| Crc.Crc16 | crates/server/src/cluster.rs:11-24 | for every byte string, the remainder of the message polynomial times x^16 |
| Crc.OneBit | crates/server/src/cluster.rs:11-24 | the checksum of a single bit is 0x1021 |
| Cluster.TaggedHash | crates/server/src/cluster.rs:31-42 | a key with a non-empty tag between its first brace and the next closing one hashes by that tag |
| Cluster.HashTagIff | crates/server/src/cluster.rs:31-42 | every other key hashes by itself |
| Cluster.BracesAreBraces | crates/server/src/cluster.rs:31-42 | a key with a tag in braces, and one with an empty tag, byte by byte |
| Cluster.TagSharesSlot | crates/server/src/cluster.rs:46-48 | a tag is its own tag, so a key and its tag share a slot |
| Cluster.SlotOf | crates/server/src/cluster.rs:46-48 | the slot method computes the checksum of the tag modulo 16384 |
| Cluster.Parse | crates/server/src/cluster.rs:83-182 | the parsing loops give the loaded map or the first problem, in the order they are looked for |
| Cluster.ParseAcceptsIff | crates/server/src/cluster.rs:83-182 | well-formed lines are accepted if and only if ids and addresses are unique, ranges partition 0..16383 and the node is named; the map is then the nodes by first slot |
| Cluster.PrintedNodes | crates/server/src/cluster.rs:83-142 | printed nodes read back, each line as id, address, first and last slot |
| Cluster.PrintedLine | crates/server/src/cluster.rs:83-142 | a printed line adds its node if its range lies in 0..16383 and is not backward, and is refused otherwise |
| Cluster.OtherLine | crates/server/src/cluster.rs:86-98 | blank lines and comments add nothing, and a line of another number of fields is refused |
| Cluster.AnyLineOrder | crates/server/src/cluster.rs:83-182 | the order of the lines does not matter |
| Cluster.LoadingStops | crates/server/src/cluster.rs:85-142 | loading stops at the first guilty line and reports what that line is guilty of, a repeated id before a repeated address |
| Cluster.ValidateMeans | crates/server/src/cluster.rs:144-181 | each refusal of the whole list means what it says: no nodes, an unowned first, last or inner slot, a shared slot, or a good map without this node |
| Cluster.OwnerOf | crates/server/src/cluster.rs:196-201 | the search finds the one node that covers the slot |
| Cluster.OneRedirect | crates/server/src/cluster.rs:196-207 | all nodes load the same map; the node a redirect names owns the slot and nobody else does |
| Rmp.FrameRoundTrip | crates/protocol/src/rmp.rs:83-177 | decoding an encoded frame gives it back and takes exactly its bytes if it is at most 32 levels deep, and is refused if deeper |
| Rmp.DecodedIsCanonical | crates/protocol/src/rmp.rs:128-177 | every decoded frame is at most 32 levels deep, has no more frames than bytes, and re-encodes to exactly the bytes read |
| Rmp.DecodeFrame | crates/protocol/src/rmp.rs:128-177 | decoding terminates on every input with the remaining bytes as measure and takes at least one byte and no more than there are |
| RmpStream.EncodeFrame | crates/protocol/src/rmp.rs:83-126 | appends the frame's bytes, and fails exactly on a Push anywhere inside |
| RmpStream.EncodeMessage | crates/protocol/src/rmp.rs:219-233 | accepts exactly the messages without Push whose payload is within the cap, and appends nothing otherwise |
| RmpStream.DecodeFrameInner | crates/protocol/src/rmp.rs:128-177 | the recursive loops on a buffer compute the specified decode and consume what it used |
| RmpStream.Decode | crates/protocol/src/rmp.rs:240-286 | a message is taken off the front only when it is whole; while waiting the buffer is untouched |
| RmpStream.MessageRoundTrip | crates/protocol/src/rmp.rs:219-286 | every accepted message comes back with exactly its bytes taken, deeper ones are refused, and every proper prefix waits |
| RmpStream.ThirtyThreeRefused | crates/protocol/src/rmp.rs:219-286 | thirty-three nested arrays are accepted by the encoder and refused by the decoder |
| RmpStream.ThirtyTwoAccepted | crates/protocol/src/rmp.rs:219-286 | thirty-two are accepted by both |
| RmpStream.OneMessage | crates/protocol/src/rmp.rs:219-233 | every byte of one message |
| RmpStream.ValueBytes | crates/protocol/src/rmp.rs:83-126 | the tag of each kind of value |
| RmpStream.HeaderRefused | crates/protocol/src/rmp.rs:240-275 | what a header is refused for, in which order, and that 64 MiB is the largest payload |
| RmpStream.MessageStable | crates/protocol/src/rmp.rs:240-286 | what has been decided stays decided when more bytes arrive |
| RmpStream.LengthsFit | crates/protocol/src/rmp.rs:219-221 | the one cap on the payload implies that no inner length was cut to 32 bits and that every inner length check passes |

## Left out

- Disk and network errors: appends, fsyncs, renames and sends succeed, so the paths that log an error and go on are not modelled.
- The writer thread's file identity check, and real file handles: a file is its bytes, a rename is atomic, and truncation at startup is durable.
- TTLs in the protocol part: expiry is modelled in `Shard.dfy` only, and evictions are not in the log.
- Commands other than the six of `Commands.dfy`, and SET with EX, PX, NX or XX: they take their guards and their transaction's markers, and then count as refused. The rewriting of TTL and blocking commands before they are logged is not modelled.
- PUBLISH inside a transaction: the model sends it outside any section only.
- A follower that disconnects: registered channels stay, so pruning a dead one is not modelled.
- Generation 1 and above with an unreadable snapshot: the full-replay fallback of `recover` does not have the history there.
- Snapshot encoding, hashing and authentication libraries: a snapshot decodes to an offset and a keyspace or not at all, and every result holds for any key hash.
- The manifest's text: it is a number, missing, or unreadable.
- TornFiles.StaleHarmlessIff: takes the file and every key to be shorter than the largest length a Rust allocation can have, because the log that shows the harm needs a longer key.
- ProtocolLiveness.Finishes: speaks of the work already asked for; with new requests arriving for ever, it does not say that a real scheduler is fair.
- ShardLedger.CalmNeverWraps: one direction only, because a run that is not calm may still never wrap, for example on a shard that holds enough other bytes.
- The string commands, ZINCRBY and HINCRBY as reporters of bytes: they replace or add one element as the modelled ones do.
- Eviction.Store.MaybeEvict: nobody else writes while it runs, because what other threads do to the counters is the subject of `ShardLedger`; the error they leave is arbitrary here.
- Cluster.Parse: takes each line as its whitespace-separated fields, because trimming and splitting add only easy members.
- Health checks, configuration, logging, access control, pub/sub matching, the metrics endpoint, the web client and the blocking-command frame pump.
