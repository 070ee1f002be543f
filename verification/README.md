# steller, modelled and verified in Dafny

steller is a small Redis-compatible server: a key-value map with deadlines, an append-only log and a
snapshot for durability, a RESP codec with a streaming framer, publish/subscribe, and a shutdown that
has to get a thread out of a blocking `accept`. This project models those parts and proves what they
promise, over every input, every interleaving and every reachable state.

Conventions. A byte is an integer below 256. Clock readings are parameters (`Millis`, a 64-bit count), so
every statement quantifies over what the clock may say. `usize` is taken to be 64 bits wide; `Sized` and
`Storable` say that lengths fit it, as every Rust vector's does. Objects the source updates in place are
classes whose methods are proved against functions on values, and the functions carry the theorems.
Concurrent protocols are step systems: an `Enabled` predicate, a `Do` function, and `After`, the state a
list of steps leads to. Verify with `dafny verify dfyconfig.toml`.

| file | contents |
|---|---|
| `Bytes.dfy`, `Decimal.dfy`, `Crlf.dfy` | bytes and limits, decimal print and parse, splitting on CRLF |
| `Frame.dfy`, `FrameTheory.dfy` | frames, encoder, parser; stability, round trip, self-delimitation, bounded work |
| `Command.dfy`, `Lifting.dfy` | commands, lifting frames into them, the log form of a write; what each command line means and what is wrong with the others |
| `Cache.dfy`, `Answers.dfy` | what each command does to the map and answers; the cache object; what the answers mean, up to the bytes on the wire |
| `Ideal.dfy` | the clock-free meaning of a history of writes, and absorption |
| `Recovery.dfy`, `RecoveryExact.dfy` | live runs, snapshots and replays against that meaning; the exact condition |
| `Writer.dfy`, `Log.dfy`, `Persister.dfy` | buffered file, log bytes and torn tails, log, snapshot and executor objects |
| `TornTail.dfy` | what a start-up makes of entries appended behind a torn one |
| `CrashModel.dfy`, `CrashSafety.dfy` | sessions, snapshotter, TTL's two halves, crashes and restarts interleaved |
| `CrashRuns.dfy` | runs that show the provisos are needed; logs written out of order |
| `Sweep.dfy`, `Ttl.dfy` | sweeps and stray reads do not show in replies; TTL after SET EX |
| `Framer.dfy` | the session's read loop and chunking independence |
| `Reply.dfy` | replies, their serializer and a reference RESP2 decoder |
| `PubSub.dfy`, `PubSubTheorems.dfy`, `Channels.dfy` | registry, sessions and writers as a step system; the registry object |
| `Shutdown.dfy` | flag, knock and accept loop |

## What the proofs turned up

The model follows the code. Where the code does less than its documentation says, a lemma exhibits the
case and another says when the promise does hold.

- `src/lib/domain/command/cache/write.rs` says absolute deadlines keep replay time-invariant. Decoding is
  (`LogFormRoundTrips`); execution is not. Replay can lose a key the live cache kept (`ReplayCanLoseAKey`)
  and bring back one it had swept (`ReplayCanResurrectAKey`). For any range of clock readings, replay at its
  end agrees with every live run in the range that could have written a log if and only if each key of the
  log is settled over the range: `RecoveryExactIffSettled`.
- `src/lib/domain/cache.rs` says of TTL that a passed deadline removes the entry. It looks at the deadline
  under the lock, lets go, and then removes whatever is there. A SET acknowledged in the gap is removed, and
  the next snapshot makes the loss permanent (`TtlCanLoseAWrite`). It does harm if and only if the key is
  there and live when the removal comes (`TtlRemoveHarmsIff`), which takes a write while the removal was
  pending (`OnlyRacedKeysAreRobbed`). `CrashSafe` promises a key back where this has not happened since the
  key was last set or deleted, and everywhere that nothing foreign comes back.
- `src/lib/outbound/persister/mod.rs` says a crash between storing the snapshot and clearing the log only
  costs a replay. That holds for keys with no write in flight (`CrashSafe`). With writes in flight it holds
  if the log sets or deletes the key, or the snapshot saw none of the writes still missing from the log, or
  the log holds nothing for the key (`AcknowledgedWritesSurvive`). In the one case left the key comes back as
  the snapshot had it but with the last logged deadline (`SnapshotRetimed`), which can be a mixture no
  sequence of its writes produces (`InFlightKeyCanMix`). `SnapshotKeptIff` says exactly when the log on top
  of a snapshot does not show.
- `src/lib/domain/executor.rs` concedes that two writes to one key can be logged in the order opposite to
  their application. `InOrder` in the crash model is the hypothesis that they are not. Without it a run the
  code can take restarts as the exchanged history (`OvertakenRestart`). `SwapHarmlessIff` says exactly which
  pairs come to no harm at clock readings from a given one on, and for every other pair `OvertakingDiverges`
  gives a run at that reading which does.
- Replay skips a torn tail without cutting it off, and the writer appends. What becomes of the writes
  acknowledged after that depends on the byte the tear fell on, and `TornTailFate` says what for every byte. A
  tear in a header line makes the next start-up fail. Before an element or in a payload, later entries are
  swallowed without a word until enough of them have been appended, and then the start-up fails. If a CRLF
  happens to stand where the torn payload was to end, the entry is taken to be completed by bytes of later
  ones. What then comes of it is a write of the same kind with a filled-up argument, or a failed start-up
  (`Refilled`). It can be a value nobody wrote, with nothing reported at all (`SpliceCanForgeAValue`). Runs in
  the crash model append nothing behind a torn entry until a snapshot has cleared the log; that hypothesis too
  is in `InOrder`.
- `src/lib/resp/frame.rs` says nested arrays are parsed without recursion. They recurse; what is proved is
  termination and a bound on the work (`WorkBound`).
- `src/lib/domain/channels.rs` says the registry only holds live channels. A publish leaves an empty entry
  exactly when no session with a live writer wants the channel (`PublishEmptiesIff`), and that can be reached
  (`EmptyEntryIsReachable`). `NoStrayChannels` and `RegistryEmptiesOut` are what does hold.
- A hard frame error throws away whatever was buffered behind it, so chunking can show after it
  (`FrameBehindAnError`). A read takes at most 1 KiB, so a break can throw away only so much. All cuts of a
  stream into such reads agree if and only if what is said behind each break does not depend on how far the
  read it happens in reaches (`CutsAgreeIff`). If one read can take all that lies behind the break, that means
  that there is no CRLF in it (`CutsAgreeIffQuiet`), and without one the cuts agree in any case
  (`QuietCutsAgree`).
- The accept loop can be left waiting with the triggers in given positions if and only if none of them has
  knocked (`HangsIffNobodyKnocked`), and for good, short of help from outside, if and only if every trigger's
  connect has failed (`HangsForGoodIffAllFailed`).
- A sweep can show in the reply to an expire command, which says whether it found the key, expired or not.
  Apart from DEL's, no other reply can show one, and that one always can: `SweepsInvisibleIff`.

## Model

| member | source | states |
|---|---|---|
| Crlf.FindCrlf | src/lib/resp/crlf.rs:30-35 | the position found holds CRLF and no earlier one does; none found means there is none anywhere |
| Crlf.SplitExtends | src/lib/resp/crlf.rs:30-35 | bytes arriving behind a found CRLF change neither the part before it nor the split point |
| Decimal.ParseAfterPrint | src/lib/resp/command.rs:31-36 | every number the width can hold parses back from its decimal form |
| Decimal.ParsesIff | src/lib/resp/command.rs:31-36 | a text parses as a number within the width if and only if it is that number in decimal with leading zeros and perhaps a plus sign |
| Decimal.ParsedIsNoShorter | src/lib/resp/frame.rs:90-93 | no accepted spelling of a length, signs and leading zeros included, is shorter than the canonical one |
| FrameTheory.DecidedIff | src/lib/resp/frame.rs:80-141 | the parser answers with a frame or a hard error if and only if nothing that could still arrive would change its answer |
| FrameTheory.LineVerdict | src/lib/resp/frame.rs:80-141 | what a first line leads to, on literal sigils: each hard error, a payload with its terminator, or so many elements |
| FrameTheory.NoLineNoVerdict | src/lib/resp/frame.rs:80-99 | without a CRLF anywhere the answer is incomplete |
| Frames.ParseArray | src/lib/resp/frame.rs:109-118 | the element loop returns the recursive specification's frames, leftover or first error |
| Frames.WriteTo | src/lib/resp/frame.rs:150-167 | the pieces written add up to the frame's encoding, and meanwhile the file only shows prefixes of the outcome |
| FrameTheory.ParseStable | src/lib/resp/frame.rs:80-141 | through any nesting, success and hard failure are final: more input only lengthens the leftover |
| FrameTheory.RoundTrip | src/lib/resp/frame.rs:80-167 | parsing an encoding followed by anything returns the frame and exactly what followed, for payloads of any bytes |
| FrameTheory.StrictPrefixIncomplete | src/lib/resp/frame.rs:80-167 | every strict prefix of an encoding is reported incomplete, never as a frame or a hard error |
| FrameTheory.ParseConsumes | src/lib/resp/frame.rs:80-141 | a success consumes at least the canonical encoding of its frame and leaves a suffix of its input |
| FrameTheory.WorkBound | src/lib/resp/frame.rs:80-118 | four times the number of parser entries is at most the bytes present plus four, whatever count a header claims |
| CommandCodec.CollectChannels | src/lib/resp/command.rs:201-223 | the loop succeeds just when every argument is a bulk string, and returns their payloads in order |
| CommandCodec.LogFormRoundTrips | src/lib/resp/frame.rs:179-213 | the frame logged for a write lifts back to that write at every clock reading |
| CommandCodec.AcceptedWritesReplayUnchanged | src/lib/resp/command.rs:60-200 | whatever form a client used, its logged form lifts, at any later clock, to the very write that was applied |
| Lifting.LiftsIff | src/lib/resp/command.rs:60-260 | a frame lifts to a command if and only if it is an array of bulk strings that mean it: literal verbs and options in any case, arguments in place, deadlines as capped sums |
| Lifting.RejectsIff | src/lib/resp/command.rs:60-260 | every other frame is rejected with the first thing that is wrong with it, reading from the left |
| CacheObject.Cache.Fetch | src/lib/domain/cache.rs:109-122 | returns the unexpired entry and removes the key if it was due |
| CacheObject.Cache.Insert | src/lib/domain/cache.rs:132-139 | replaces the entry and returns the previous one |
| CacheObject.Cache.Remove | src/lib/domain/cache.rs:146-149 | removes whatever the deadline says and returns what was there |
| CacheObject.Cache.Contains | src/lib/domain/cache.rs:159-173 | true just for an unexpired key, a due one being removed |
| CacheObject.Cache.SetExpiresAt | src/lib/domain/cache.rs:186-200 | a reached deadline deletes, another is set on a present key, and the answer is presence, expired or not |
| CacheObject.Cache.ExpiresAt | src/lib/domain/cache.rs:215-231 | the three states of a key's deadline, with a due key removed |
| CacheObject.Cache.TimeToLive | src/lib/domain/cache.rs:247-257 | the same three states, with the time left at the second clock reading floored at zero |
| CacheObject.Cache.RemoveTtl | src/lib/domain/cache.rs:270-287 | clears a live deadline, drops an expired key, and answers true only for the former |
| CacheObject.Cache.RemoveExpired | src/lib/domain/cache.rs:300-312 | the loop leaves exactly the entries not due, and counts the others |
| CacheObject.Cache.Execute | src/lib/domain/cache.rs:324-362 | for every command, the new map and the reply are those of the specification functions |
| Answers.GetAfterSet | src/lib/domain/cache.rs:109-139 | after a SET and any events that write other keys, GET returns exactly the value set until its deadline and nothing from then on |
| Answers.GetShowsTheHistory | src/lib/domain/cache.rs:324-362 | over any run, a settled key's GET answers the value its writes leave alive, and none otherwise |
| Answers.GetNeverInvents | src/lib/domain/cache.rs:109-122 | at any clock readings, a value GET returns is the one the writes give the key |
| Answers.ExistsIffGet | src/lib/domain/cache.rs:159-173 | EXISTS answers one exactly when GET finds a value |
| Answers.TtlIff | src/lib/domain/cache.rs:215-257 | TTL's three cases are exactly absent or due, no deadline, and a pending deadline with its begun seconds |
| Answers.DelTellsWhetherItChanged | src/lib/domain/cache.rs:146-149 | DEL answers whether it changed the map, and the key is gone |
| Answers.PersistTellsWhetherItKept | src/lib/domain/cache.rs:270-287 | PERSIST answers whether it changed the map with the key still there |
| Answers.ExpireTellsWhetherItApplied | src/lib/domain/cache.rs:186-200 | an expire answers presence; the key then has the deadline or is gone, and otherwise nothing changed |
| Answers.ReclaimsExactlyTheDue | src/lib/domain/cache.rs:109-312 | a read drops its own key just when due, a sweep every due key, and neither touches another |
| Answers.WritesOnTheWire | src/lib/inbound/mod.rs:16-33 | byte for byte: `+OK` for SET, `:1` for a DEL, expire or PERSIST that takes effect, `:0` otherwise |
| Answers.LiveReadsOnTheWire | src/lib/inbound/mod.rs:16-33 | byte for byte, what GET, EXISTS and TTL send for a live key |
| Answers.MissesOnTheWire | src/lib/inbound/mod.rs:16-33 | byte for byte, what they send when there is none |
| Answers.SetThenReads | src/lib/inbound/mod.rs:16-33 | from a SET without a deadline to the bytes of a later GET and TTL, whatever happens to other keys in between |
| Answers.DelThenReads | src/lib/inbound/mod.rs:16-33 | from a DEL to the bytes of a later GET and TTL |
| Ideal.FoldPointwise | src/lib/domain/cache.rs:324-362 | a history of writes acts on each key through that key's own writes alone |
| Ideal.AbsorbsAt | src/lib/outbound/persister/mod.rs:96-104 | for one key, a snapshot after any number of writes plus a log reaching back past it gives the whole history |
| Ideal.ReplayAbsorbs | src/lib/outbound/persister/mod.rs:96-104 | the same for whole maps: replaying any suffix on a map holding any longer prefix changes nothing |
| Recovery.RunWithin | src/lib/domain/cache.rs:324-362 | at any clock readings, a key that is present holds exactly its clock-free value and deadline |
| Recovery.RunKeeps | src/lib/domain/cache.rs:186-312 | a run at clocks up to t keeps every key whose steady history leaves it live at t |
| Recovery.ReplayFaithful | src/lib/outbound/persister/aof.rs:105-129 | a faithful snapshot and a log overlapping it by any amount rebuild a state faithful to the whole history |
| Recovery.ReplayWithReset | src/lib/outbound/persister/aof.rs:105-129 | a log that sets or deletes a key rebuilds its whole history on any state at all |
| Recovery.RecoveredContentIsExact | src/lib/inbound/server.rs:84-87 | live and recovered maps never disagree on the content of a key, for all clock readings, snapshots and overlaps |
| Recovery.ExactRecovery | src/lib/inbound/server.rs:84-87 | load, replay and sweep at t give the live map without its expired entries, for every settled key |
| RecoveryExact.RecoveryExactIffSettled | src/lib/inbound/server.rs:84-87 | for any clock range ending at t, replay at t reproduces every live run in the range with this log if and only if every key of the log is settled over it |
| RecoveryExact.UnsettledDiverges | src/lib/domain/cache.rs:186-200 | for a key unsettled over a clock range, a live run in the range with this log and a forward clock from which recovery differs |
| RecoveryExact.SettledKeyShows | src/lib/domain/cache.rs:186-312 | a key settled over the range shows at its end what the earliest possible run leaves of it, after every run in the range |
| RecoveryExact.SettledImpliesSettledSince | src/lib/inbound/server.rs:84-87 | the settledness `ExactRecovery` and `CrashSafe` ask for, which names no earliest clock reading, is settledness over every range ending at t |
| RecoveryExact.ReplayCanLoseAKey | src/lib/domain/cache.rs:191-192 | a concrete log whose replay drops a key the live cache kept |
| RecoveryExact.ReplayCanResurrectAKey | src/lib/domain/executor.rs:54-60 | a concrete run whose logged but unsuccessful expire brings a swept key back |
| Writer.BufferedFile.WriteAll | src/lib/outbound/persister/persister_inner.rs:37-46 | the bytes follow what was there, the buffer never outgrows its capacity, what fits leaves the file alone, and on the way the file only shows prefixes |
| LogCodec.WholeFits | src/lib/outbound/persister/aof.rs:105-129 | the count of whole entries in a byte prefix is the largest that fits |
| LogCodec.TornTailReplays | src/lib/outbound/persister/aof.rs:105-129 | every byte prefix of a log replays without error exactly the writes whole in it, whatever the clock |
| LogCodec.CrashMidAppend | src/lib/outbound/persister/aof.rs:82-129 | a whole log plus part of one entry reads back that entry whole or not at all |
| LogCodec.LogBytes | src/lib/resp/frame.rs:179-213 | the literal bytes of each logged write, upper-case verbs and PXAT included |
| LogCodec.ReadSkipsTheRest | src/lib/outbound/persister/aof.rs:105-129 | replay executes the cache commands of any log in order, reads included, and passes over everything else |
| TornTails.TornTailFate | src/lib/outbound/persister/aof.rs:105-129 | for every byte a tear can fall on and any later entries, what the start-up executes from the tear on and how it ends |
| TornTails.RefilledLifts | src/lib/outbound/persister/aof.rs:105-129 | an entry whose torn argument is filled up from later entries lifts to a write of the same kind or to the stated error, whichever argument it is |
| TornTails.SpliceCanForgeAValue | src/lib/outbound/persister/aof.rs:105-129 | for every next write, a torn SET behind which start-up succeeds silently, loses that write and stores a value nobody wrote |
| Persistence.Aof.Append | src/lib/outbound/persister/aof.rs:82-87 | on return the file is the old log plus the entry with nothing buffered; before, the old log plus a prefix of it |
| Persistence.Aof.Clear | src/lib/outbound/persister/aof.rs:144-149 | on return file and buffer are empty, and on the way the file was the old log or empty |
| Persistence.Aof.Replay | src/lib/outbound/persister/aof.rs:105-129 | the loop executes on the cache exactly the events the log reads as, and ends as the reading ends |
| Persistence.Persister.Snapshot | src/lib/outbound/persister/mod.rs:99-104 | the snapshot becomes the cache's map and the log becomes empty, in that order: in between the old log stands beside the new snapshot |
| Persistence.Restart | src/lib/inbound/server.rs:84-87 | start-up yields the snapshot with the log's events executed on it, swept, and reports how the log ended |
| Persistence.Executor.ExecuteLogged | src/lib/domain/executor.rs:54-60 | the specified effect and reply, then one log entry for a write and none for a read, history invariant kept |
| Persistence.Executor.CrashAndRestart | src/lib/inbound/server.rs:84-87 | after any sequence of calls, a restart shows no foreign content and returns each settled key as the live cache held it |
| CrashModel.ReachableInv | src/lib/domain/executor.rs:54-60 | in every interleaving, TTL's two halves included, per key: cache and snapshot track the writes, and log plus flight is the history from the snapshot on |
| CrashModel.FileReadsBack | src/lib/outbound/persister/aof.rs:105-129 | at any instant the file's bytes read back without error as exactly the entries whole in it |
| CrashModel.RestartKeeps | src/lib/inbound/server.rs:84-87 | a crash at any byte and the restart re-establish the invariant, so runs may crash any number of times |
| CrashSafety.CrashSafe | src/lib/outbound/persister/mod.rs:90-104 | after any interleaving and any crashes, a settled key not caught in flight nor robbed by a TTL since it was last set or deleted restarts as all writes ever issued to it, and a robbed one as nothing else |
| CrashSafety.CrashSafeWithoutDeadlines | src/lib/outbound/persister/mod.rs:90-104 | with no deadline falling due, the restarted key is the plain fold of those writes |
| CrashSafety.OnlyRacedKeysAreRobbed | src/lib/domain/cache.rs:219-228 | only a key written while a TTL's removal of it was pending can be removed while live, from the cache or through it from the snapshot |
| CrashSafety.TtlRemoveHarmsIff | src/lib/domain/cache.rs:219-228 | the second half of a TTL makes the cache show something else than the writes amount to if and only if the key is there and live |
| CrashSafety.AcknowledgedWritesSurvive | src/lib/domain/executor.rs:54-60 | with writes in flight, every acknowledged write survives if the log resets the key, or the snapshot saw no more than is durable, or the log has nothing for the key |
| CrashSafety.SnapshotRetimed | src/lib/outbound/persister/mod.rs:96-104 | when the log only moves the key's deadline, it restarts as the snapshot had it with the last of those deadlines |
| CrashSafety.SnapshotKeptIff | src/lib/outbound/persister/mod.rs:96-104 | a key restarts as the snapshot had it if and only if the durable writes in the log move nothing on it, given settled overrides |
| CrashSafety.SnapshotKeptIffWithoutDeadlines | src/lib/outbound/persister/mod.rs:96-104 | the same for every key with no deadline falling due, decided by the stored entry alone |
| CrashRuns.InFlightKeyCanMix | src/lib/outbound/persister/mod.rs:96-104 | a reachable state that restarts a key into a state none of its histories has |
| CrashRuns.TtlCanLoseAWrite | src/lib/domain/cache.rs:219-228 | a reachable state, nothing in flight, in which neither the cache nor any restart holds an acknowledged SET that nothing overwrote |
| CrashRuns.CacheIsTheRun | src/lib/domain/executor.rs:54-60 | between crashes and with no TTL removal, the cache is the plain run of the writes, reads and sweeps in lock order |
| CrashRuns.LockIsReleased | src/lib/outbound/persister/mod.rs:99-104 | the snapshotter can always let go of the cache lock and changes nothing by it |
| CrashRuns.FreeLockAdmits | src/lib/domain/cache.rs:109-312 | with the cache lock free every write, read, sweep and half of a TTL can take its step |
| CrashRuns.SwapHarmlessIff | src/lib/domain/executor.rs:47-51 | two neighbouring log entries replay and sweep to the same map in either order, on all maps at all clocks from a given one on, if and only if they are interchangeable from then on |
| CrashRuns.OvertakenRestart | src/lib/domain/executor.rs:54-60 | with appends unordered, a run whose live cache is one history and whose restart is the history with two writes exchanged |
| CrashRuns.OvertakingDiverges | src/lib/domain/executor.rs:54-60 | for every pair not interchangeable from a clock reading on, such a run at that reading whose restart differs from the live cache |
| TtlTheorem.FreshTtlReadsBack | src/lib/domain/time.rs:82-99 | a key set with EX s answers TTL with s if and only if s is positive and, at TTL's second clock reading, the time passed plus what saturation cut off is under a second |
| SweepTransparency.SweepsInvisible | src/lib/domain/cache.rs:109-312 | two runs of the same commands with different sweeps and stray reads give the same replies, DEL's aside, and look alike after |
| SweepTransparency.SweepsInvisibleIff | src/lib/domain/cache.rs:186-312 | all runs that add sweeps and stray reads to the same commands answer alike if and only if no expire command finds its key expired but still there |
| Framer.FrameAllResumes | src/lib/inbound/session.rs:105-119 | framing a stream can be stopped at any byte and resumed from the leftover |
| Framer.ChunkingIrrelevant | src/lib/inbound/session.rs:90-197 | any two ways of cutting a stream into reads, timeouts anywhere, emit the same items up to the first hard error |
| Framer.OnesSay | src/lib/inbound/session.rs:105-119 | bytes arriving one at a time make the session emit the framing up to each break and then start afresh right behind it |
| Framer.CutsAgreeIff | src/lib/inbound/session.rs:90-119 | all cuts of a stream into reads of at most 1 KiB emit the same full list of items if and only if what follows each break does not depend on where the breaking read ends |
| Framer.CutsAgreeIffQuiet | src/lib/inbound/session.rs:90-119 | when one read can take all that is behind the break, the cuts agree if and only if there is no CRLF in it |
| Framer.QuietCutsAgree | src/lib/inbound/session.rs:90-119 | with no CRLF behind the break the cuts agree, however long the stream |
| Framer.FrameBehindAnError | src/lib/inbound/session.rs:112-115 | behind any broken stream a good frame within reach of the breaking read is dropped when that read takes it in, and delivered when it comes separately |
| Framer.EveryCutCanHappen | src/lib/inbound/session.rs:90-96 | every list of reads of at most 1 KiB is what some deliveries of the socket give the session |
| Framer.ReadsKeepEveryByte | src/lib/inbound/session.rs:90-96 | however deliveries are cut up for reading, every byte is read once and in order |
| Framer.SessionReader.Read | src/lib/inbound/session.rs:90-96 | one read of at most 1 KiB is appended, what a delivery has beyond it is kept for the next, a timeout changes nothing, the end of the stream reads zero |
| Framer.SessionReader.ParseNext | src/lib/inbound/session.rs:105-119 | a success drains exactly the bytes consumed, an incomplete frame keeps the buffer, a hard error clears it |
| Framer.SessionReader.ReadFrame | src/lib/inbound/session.rs:182-197 | what the loop replies and returns is the next stretch of the session's items, and the first timeout it meets sends it back |
| Replies.SimpleIffDecodable | src/lib/resp/reply.rs:37-48 | a payload validates if and only if a client reads it back from a simple string line, and if and only if sanitizing leaves it alone |
| Replies.SanitizedPicks | src/lib/resp/reply.rs:70-77 | the result is the input at increasing positions, and exactly the positions of CR and LF are left out |
| Replies.Serialize | src/lib/resp/reply.rs:114-152 | the buffer built piece by piece is the reply's encoding |
| Replies.SerializeAll | src/lib/resp/reply.rs:142-181 | replies are serialized back to back, in order |
| Replies.ReplyRoundTrip | src/lib/resp/reply.rs:114-152 | a reference decoder recovers every reply, nulls and nesting included, and leaves what follows |
| Replies.RepliesUniquelyDecodable | src/lib/resp/reply.rs:114-181 | two lists of replies share their bytes if and only if they are the same list |
| Replies.TtlReplyUnambiguous | src/lib/inbound/mod.rs:16-33 | two TTL outcomes share their bytes just when they are equal or both beyond the signed 64-bit limit |
| Answers.OthersOnTheWire | src/lib/resp/reply.rs:114-152 | byte for byte, simple strings, error replies, arrays and the null bulk string |
| PubSubModel.ReachableInv | src/lib/domain/channels.rs:91-162 | in every interleaving, registry, session sets and sender counts stay in agreement, half-done changes included |
| PubSubTheorems.RegistryAgrees | src/lib/inbound/session.rs:233-299 | an id under a channel means its session wants it, and the converse while its writer lives |
| PubSubTheorems.NoStrayChannels | src/lib/domain/channels.rs:114-162 | every channel in the registry, empty or not, is wanted by a session that has not left |
| PubSubTheorems.RegistryEmptiesOut | src/lib/inbound/session.rs:467-477 | once all sessions have left, the registry is empty, whatever pruning did |
| PubSubTheorems.PublishEmptiesIff | src/lib/domain/channels.rs:140-162 | a publish leaves an empty entry if and only if no session with a live writer wants the channel |
| PubSubTheorems.EmptyEntryIsReachable | src/lib/domain/channels.rs:140-162 | a run that ends with a channel nobody is registered under |
| PubSubTheorems.JoinCannotDeadlock | src/lib/inbound/session.rs:467-481 | at the join a session has no sender left and its writer can always move |
| PubSubTheorems.WriterExitsInTime | src/lib/inbound/session.rs:397-412 | from the join on, the writer exits within its backlog plus one of its own steps, whatever others do |
| PubSubTheorems.TrafficIsExact | src/lib/inbound/session.rs:397-412 | sent plus queued is, in order, everything addressed to the session going by the steps alone: its replies and the pushes it is owed; a dead writer sent a prefix |
| PubSubTheorems.RunningSessionIsFree | src/lib/inbound/session.rs:425-465 | a running session with no change half done can join, part, leave and reply, and its writer can send or die |
| PubSubTheorems.TeardownCompletes | src/lib/inbound/session.rs:467-485 | from every reachable state a running session can get to its end by steps of its own |
| ChannelsObject.Channels.Subscribe | src/lib/domain/channels.rs:91-105 | the session is added under the channel, created if need be |
| ChannelsObject.Channels.Unsubscribe | src/lib/domain/channels.rs:114-130 | the session is removed, and the channel with its last subscriber |
| ChannelsObject.Channels.Publish | src/lib/domain/channels.rs:140-162 | every live subscriber gets the message once at its queue's end, dead ones are pruned, the count is of those reached |
| ChannelsObject.ReadHalf.Subscribe | src/lib/inbound/session.rs:238-248 | set and registry gain exactly the listed channels and stay in step, with one running total per channel |
| ChannelsObject.ReadHalf.Unsubscribe | src/lib/inbound/session.rs:249-270 | exactly the targets are left, all channels if none is listed, with running totals or the null line |
| ChannelsObject.ReadHalf.UnsubscribeFromAll | src/lib/inbound/session.rs:294-299 | a session in step with the registry is registered nowhere afterwards |
| ChannelsObject.RegisterAllMoves | src/lib/domain/channels.rs:91-130 | subscribing or unsubscribing a list changes this session's registrations under those channels and nothing else |
| ChannelsObject.RunningTotals | src/lib/inbound/session.rs:240-267 | each total differs from the one before by one just when the channel is new, or was still held |
| ChannelsObject.AcksInTurn | src/lib/inbound/session.rs:238-270 | acknowledgement i names channel i and counts the set just after it |
| Shutdown.NoLostWakeup | src/lib/inbound/server.rs:51-56 | in no interleaving has a knock gone in while the loop is blocked on an empty backlog, and no knock becomes a session |
| Shutdown.NobodyLost | src/lib/inbound/server.rs:184-230 | while the flag is down, served, in hand and waiting together are exactly the connections made so far, in order |
| Shutdown.ServedUpToTheFlag | src/lib/inbound/server.rs:184-230 | once the flag is up, exactly the connections in hand or waiting when it went up, or made later, are never served |
| Shutdown.LoopCanServeAll | src/lib/inbound/server.rs:184-230 | while the flag is down the loop is running, and steps of its own alone can serve everyone in hand or waiting, in order |
| Shutdown.LoopExitsInTime | src/lib/inbound/server.rs:184-230 | once the flag is up the loop is out within two steps of its own and starts no session |
| Shutdown.HangsIffNobodyKnocked | src/lib/inbound/server.rs:51-56 | a reachable stuck state with given trigger positions exists if and only if no trigger among them has knocked |
| Shutdown.HangsForGoodIffAllFailed | src/lib/inbound/server.rs:51-56 | a reachable stuck state in which only outsiders can still act exists if and only if every trigger's connect has failed |

## Left out

- Sockets, threads, stdin and signals: they appear as steps on queues, flags and byte sequences.
- I/O failures part way through a write, fsync and power loss, mutex poisoning, a clock before 1970.
- The `wincode` encoding of the snapshot: loading what was stored is the identity, and the rename is one step.
- `SimpleInner` error texts, and the difference between a number that is not UTF-8 and one that is not a number.
- Session ids after 2^32 connections: the pub/sub model never reuses an id.
- Replies built from pub/sub outcomes, PING, and the error replies of the session: only more cases of the serializer.
- Multi-channel SUBSCRIBE and UNSUBSCRIBE in the step system: each channel is a pair of steps of its own.
- CacheObject.Cache.ExpiresAt: shows nothing coming between the look at the deadline and the removal; the crash model has them as two steps.
- CacheObject.Cache.TimeToLive: rests on `ExpiresAt` and shows its two halves as one in the same way.
- Persistence.Persister.Snapshot: says nothing of the cache lock, which the crash model has.
- Persistence.Executor.ExecuteLogged: one session at a time, so nothing falls between apply and append; the crash model has that gap.
- CrashRuns.SwapHarmlessIff: speaks of two neighbouring writes, not of longer reorderings.
- FrameTheory.WorkBound: bounds entries into the parser, not the bytes each of them scans for its header.
