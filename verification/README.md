# Verified model of a single-node key-value server

A Dafny 4.11 model of the server's hard core: the append-only log and crash
recovery, the RESP2 codec, the store and engine, glob matching, SCAN sessions,
the reply stream and shutdown. `dafny verify dfyconfig.toml` checks all of it.
Nothing here runs the server; the source citations are to its Go files.

## How it is put together

| module | models |
|---|---|
| Bytes, Decimal | byte strings; decimal text as strconv, the frame decoder and the counter parser read and write it |
| Resp, RespReader | request frames as functions of the bytes that remain; the streaming decoder as classes over a source that splits its bytes in any way |
| Store, Engine | the two-map store; every engine operation as a plan, performed under the admission gate and the log's answer |
| Aof, Replay | records, codec, header; replay and reopening |
| Log | the log object, and the log with its writer goroutine, file and history as a state machine |
| Mirror | log against store: replay gives the live view; stores that show the same; counters |
| Reclamation | what clients can tell about reclamation: nothing, except through SCAN's byte bound |
| System | the whole server over runs of operations, writer steps, acknowledgements, shutdown, crashes and restarts |
| Commands | what each command does, on the store's two maps and in its reply, without the plans; reading back what was written |
| Durability | from a command to the answer after a crash; that acknowledgements come |
| Sizes | which commands within the default limits leave a record that cannot be read back |
| Glob, GlobLaws | patterns, and what they mean said without their tokens |
| Sessions, SessionManager, Discovery | SCAN sessions, KEYS |
| Wire | the formats byte by byte: requests, replies, records, malformed lines and payloads |
| Replies, ReplyStream | reply text and its unique reading; buffered writer, flush before block, command loop |
| Lifecycle | connection handlers against shutdown and session clearing |

Operations that the source writes as loops or in-place updates are methods and
classes here, each proved against a function of its inputs or old state; the
theorems are about those functions and about runs built from them.

## Modelling facts the results rest on

- Time is integer nanoseconds. Records keep whole milliseconds, so recovery is
  stated with deadlines floored (`Db.Floor`); `FlooringLosesOnlyDyingKeys` says
  exactly when that shows.
- Clock readings never decrease, across restarts included. Expired keys are
  dropped without a record, and replay relies on their still being expired.
- A crash keeps a prefix of the bytes the operating system had, at least the
  durable ones, and none or all of the 16-byte header. `HeaderSurvives` says
  that any other image is refused.
- Replay decodes with the default limits, whatever the server was configured
  with, so a logged record must fit them. `RecordExact` and `WholeLogExact` give
  the exact condition. It can fail for accepted commands: a SET that fills the
  command limit followed by EXPIRE of that key logs a record that replay refuses
  as corrupt (`ExpireCanPoisonLog`). In `System` an operation is a step only if
  the record it logs meets the condition; `OnlyDeadlinesPoison` shows that, for
  clients held to the default limits, this excludes exactly the SET records whose
  deadline does not fit, whatever ran before.
- The documentation says that a client can never observe when reclamation ran
  (docs/protocol.md, line 125). The code departs from it in one place: a SCAN 0
  that needs a session is charged for room for every key held, expired ones
  included, and the charge decides whether it is refused. `ReclamationShows` gives
  inputs, `ReclamationObserved` the exact condition over runs, and
  `ReclamationUnobservable` a bound under which the promise holds.
- The token source may repeat a token once it is free. A cursor is invalid after
  use until it is issued again; a traversal asks only that the cursor held is
  not issued to someone else, and termination of the token loop that some draw
  to come is usable, where a call comes to draw one.
- Go integers are unbounded here except where the source checks a range: int64
  counters and deadlines, the length parser's bound, the saturating estimate.
- An `io.Reader` delivers at least one byte per call until its end.

## Model

| member | source | states |
|---|---|---|
| System.CrashSafety | internal/aof/log.go:125-187 | After any run, whatever prefix a crash keeps, replay reports no corruption and restores exactly the effects of a prefix of the committed records that includes every record acknowledged under Always, and every acknowledged one when all delivered bytes survive |
| System.CrashRecovers | internal/aof/replay.go:68-103 | The same of any state that satisfies the invariant |
| Durability.AcknowledgedSetIsRead | internal/engine/engine.go:289-314 | A SET answered Done and acknowledged under Always is what GET answers after any later steps that do not touch the key, a crash that keeps what it keeps, and recovery, until its deadline in whole milliseconds |
| Durability.DurableIsRecovered | internal/aof/replay.go:68-135 | A key whose last record was acknowledged under Always is recovered as that record left it, deleted or expired included |
| Durability.LastRecordWins | internal/aof/replay.go:106-135 | Replay leaves of a key what the last record that names it says |
| Durability.WritesAreAcknowledged | internal/engine/engine.go:174-184 | In any running state with a log in health, once the writer rests without a fault of the file every record can be acknowledged, and under Always counts as durable |
| System.LiveIsRecoverable | internal/engine/engine.go:159-172 | In every reachable running state and at every later instant, replaying the history gives exactly the live store's visible keys, values and deadlines, floored to milliseconds |
| System.AcknowledgedNeverLost | internal/engine/engine.go:174-184 | Records acknowledged under Always stay at the head of the history through any further steps, any number of crashes and restarts included |
| System.AcknowledgedSurvivesProcess | internal/engine/engine.go:174-184 | Records acknowledged under either policy stay at the head of the history through any run whose crashes lose no delivered byte |
| System.FileShape | internal/aof/open.go:14-46 | Over any number of crash, reopen and append cycles, what a crash leaves included, the file is the header, whole records and at most a strict part of one more, or a crash left nothing |
| System.StepKeeps | internal/aof/log.go:204-289 | Every step of the server, in any order, keeps the system invariant |
| System.ReopenKeeps | internal/aof/open.go:20-45 | Reopening any crash image succeeds, keeps every record acknowledged under Always and restores the whole invariant |
| System.CleanShutdown | internal/server/server.go:175-238 | After a nil return of the last process in any run: it had no fatal report, finalize timeout or handler left behind before it returned and no log failure; every committed record is synced, no crash can lose a byte, and replaying the file gives the final view of memory with floored deadlines |
| System.NilMeansNoFatal | internal/server/server.go:198-232 | Over every run of one process: it returns nil if and only if it returns and until then no fatal condition was reported, finalizing did not time out, all handlers were waited for and the log had not failed; a later report does not count |
| System.FatalIsReturned | internal/server/server.go:211-226 | A fatal condition reported, or a finalization that timed out, at any point before the return is what is returned |
| System.LastProcess | internal/server/server.go:175-238 | Any run that ends running is some run that leaves a process just started, followed by that process's own steps |
| System.DrainedRun | internal/engine/engine.go:456-460 | After BeginDrain no run of the process appends a record, and what is visible changes only by expiry |
| Sizes.OnlyDeadlinesPoison | internal/resp/reader.go:22-28 | After any run of commands within the default limits, crashes and restarts included, the next one's record can be read back if and only if a condition on the command, the store it meets and the instant holds: only SET with a deadline and EXPIRE of a live key, by the value it holds, have a size to fit |
| Sizes.PlanSized | internal/engine/engine.go:289-450 | One operation: that equivalence, and if the condition holds every held pair stays loggable without a deadline and every deadline representable |
| Sizes.DeletionRecoverable | internal/engine/engine.go:415-430 | The DEL record of the live, distinct keys fits whenever the command did |
| Sizes.ReplayRelogs | internal/aof/replay.go:106-124 | Replay of readable records restores only pairs that are loggable without a deadline |
| Log.ActionKeeps | internal/aof/log.go:80-84 | The log invariant survives every action in any interleaving: until a failure the file, the batch in flight and the buffer are the records' texts in commit order, synced <= written <= appended, written counts exactly the records wholly delivered, synced ones are durable, pending records have a wake-up |
| Log.FileIsPrefix | internal/aof/log.go:295-323 | In every state, failed ones included, the file is a prefix of the log's text that holds every written record |
| Log.AcknowledgedIsStored | internal/aof/log.go:164-187 | A successful wait means the record is in the file, and under Always on the disk |
| Log.AwaitNeverClosed | internal/aof/log.go:233-252 | A close without failure leaves everything written and synced, so no wait on a number handed out ends in the closed error |
| Log.WriterAnswersEveryWait | internal/aof/log.go:154-180 | Left alone the writer stops within a bound computed from the state, however its writes and syncs turn out, and then every wait is granted unless the log has failed |
| Log.WaitExact | internal/aof/log.go:164-187 | In every state: a wait fails exactly when the log has failed, else is granted exactly when the record is written, or synced under Always, and never ends in the closed error |
| Log.HealthyWriterGrants | internal/aof/log.go:204-311 | With a file whose writes and syncs do not fail, the writer comes to rest with every wait granted |
| Log.HealthyStep | internal/aof/log.go:257-347 | Nothing but a failed write or sync makes a log fail |
| Log.TickSyncs | internal/aof/log.go:204-231 | Whatever the policy and whatever is appended meanwhile, once the writer rests after a tick every record appended before it is synced |
| Log.WorkShrinks | internal/aof/log.go:204-231 | Each move of the writer shrinks the work left |
| Log.LastWithinExact | internal/aof/log.go:313-323 | Scanning the marks counts exactly the records whose text lies in the bytes delivered |
| Log.WriteFull | internal/aof/log.go:295-311 | The count is exactly what reached the file under any pattern of partial writes; no error means all of it, an error that a write failed |
| Log.Flush | internal/aof/log.go:257-289 | A flush alone: what the file received, where the markers stand, that only a failed write or sync fails the log, and that a forced or Always flush without failure leaves everything synced |
| Log.Log.Append | internal/aof/log.go:125-159 | A record is refused when failed or closing, else its text and mark are added, numbered next, with a wake-up queued |
| Log.Log.Swap | internal/aof/log.go:257-268 | The whole pending batch leaves the buffer, or nothing when failed |
| Log.Log.AdvanceWritten | internal/aof/log.go:313-323 | written moves to the last record wholly within the bytes delivered |
| Log.Log.AdvanceSynced | internal/aof/log.go:325-330 | synced catches up with written and nothing else changes |
| Log.Log.Fail | internal/aof/log.go:337-347 | Failure is latched and nothing else changes |
| Log.Log.BeginClose | internal/aof/log.go:239-252 | Closing is latched and nothing else changes |
| Log.Log.Await | internal/aof/log.go:164-187 | One pass answers failed, reached, closed or waiting, in that order |
| Mirror.PerformMirrors | internal/engine/engine.go:289-450 | Every operation, whatever the log answers, keeps replay of the logged records equal to the store's floored view |
| Mirror.PutMirrors | internal/aof/record.go:45-51 | Logging the derived SET and applying the write keeps that equality, for any value and deadline |
| Mirror.DeleteMirrors | internal/engine/engine.go:413-445 | Logging only the live keys while removing all requested ones keeps it |
| Mirror.ReclaimMirrors | internal/store/store.go:167-183 | Unlogged reclamation keeps it |
| Mirror.MirrorLater | internal/aof/replay.go:106-124 | Equality at one instant gives it at every later one |
| Mirror.ReplayLater | internal/aof/replay.go:58-59 | Replaying later gives what is still alive of an earlier replay |
| Mirror.RecoveredMirrors | internal/aof/replay.go:68-103 | A recovered store mirrors the records it came from |
| Mirror.FlooringLosesOnlyDyingKeys | internal/aof/record.go:45-51 | Recovery shows the same keys as memory at an instant if and only if no key is within the last fraction of a millisecond of its life |
| Mirror.DyingKeyLost | internal/aof/record.go:48-48 | Such a key exists |
| Mirror.ExpireCanPoisonLog | internal/aof/replay.go:79-93 | Two accepted commands can leave a log that replay refuses as corrupt |
| Mirror.PlansSame | internal/engine/engine.go:220-225 | Stores that show the same at an instant answer the same, log the same and still show the same, whether or not readNow skips the clock |
| Mirror.IncrementsExact | internal/engine/incr.go:64-121 | Any run of increments on a live integer key stores the true sum of those that fit int64, with its deadline unchanged |
| Mirror.IncrementExact | internal/engine/incr.go:83-115 | One increment replies and stores the exact sum with the same deadline, or reports overflow with value, deadline and log untouched |
| Commands.SetWrites | internal/engine/engine.go:289-314 | SET: the key has that value and that deadline, or none if none is given, every other key is as before, and exactly that is logged; or an obstacle is reported and nothing changed |
| Commands.ExpireWrites | internal/engine/engine.go:334-367 | EXPIRE: a key that is there keeps its value and gets the deadline; for any other the answer is no, whatever the log says |
| Commands.PersistWrites | internal/engine/engine.go:370-399 | PERSIST: a key that is there with a deadline keeps its value and loses it; for any other the answer is no |
| Commands.DeleteWrites | internal/engine/engine.go:404-450 | DEL: all keys named are gone and no other changes; the different ones that were there are counted and exactly those logged; if none was, no log can refuse it |
| Commands.IncrWrites | internal/engine/incr.go:64-121 | INCRBY: the sum with the integer held, 0 for a key not there, under the deadline held; a sum outside int64 is refused |
| Commands.IncrRefuses | internal/engine/incr.go:64-94 | INCRBY of a value that no integer writes is refused and changes nothing |
| Commands.ClaimsAreLogged | internal/engine/engine.go:136-172 | For every write and every answer of the log: a reply that claims an effect met no obstacle and is on the log; a failure changed and logged nothing; what is logged was claimed |
| Commands.ObstacleReported | internal/engine/engine.go:159-172 | Draining is always reported as such, and a failure of persistence only when the log had failed or closed |
| Commands.GateExact | internal/aof/log.go:125-140 | The log takes records exactly while it has neither failed nor begun to close |
| Commands.GetAnswers | internal/engine/engine.go:237-241 | GET: the value held if the key is held and its deadline is to come, else nil |
| Commands.MGetAnswers | internal/engine/engine.go:255-267 | MGET: one such answer for each key asked for, in order |
| Commands.ExistsAnswers | internal/engine/engine.go:271-284 | EXISTS: how many places of the list hold a key that is there |
| Commands.TTLAnswers | internal/engine/engine.go:319-331 | TTL: the deadline less the instant, or that there is no deadline, or no key |
| Commands.SizeAnswers | internal/engine/discovery.go:72-76 | DBSIZE and the names listed: the keys that are there |
| Commands.ReadsOnly | internal/engine/engine.go:220-284 | A read never fails, changes or logs anything, draining or with a failed log included |
| Commands.OnlyTouched | internal/engine/engine.go:289-450 | No command changes a key it does not name, nor logs a record that names another |
| Commands.WriteIsRead | internal/engine/engine.go:237-331 | A SET answered Done is read back by GET, and its time left by TTL, at any instant before its deadline, whatever was done to other keys, reclaimed or refused in between |
| Reclamation.ReclamationObserved | internal/engine/engine.go:505-514 | Two runs from one state with the same client events at the same instants, SCAN starts and continuations and interleaved captures included, but any different reclamations give the same replies, pages and records if and only if bytes refuse the same SCAN starts in both |
| Reclamation.RunsAgree | internal/engine/engine.go:505-514 | The same from two states that show the same and whose sessions differ in their charges alone |
| Reclamation.ReclamationUnobservable | internal/engine/scan_sessions.go:78-111 | They give the same replies, pages and records whenever no snapshot, of sessions open at the start or taken later, is charged more than maxBytes/maxSessions, and in any run that starts no SCAN |
| Reclamation.ScanStartAgrees | internal/engine/scan_sessions.go:78-111 | For two stores that show the same and one manager, SCAN 0 gives the same page if and only if all keys fit it, or the session count is at its bound, or the two charges both fit or both do not |
| Reclamation.ReclamationShows | internal/store/store.go:149-157 | For every number of expired keys, up to 2^24, held beside two live ones: SCAN 0 COUNT 1 under the default limits is refused exactly above 8388601 of them, and never once they are reclaimed |
| Reclamation.StepAlike | internal/engine/discovery.go:54-66 | One event in two such states: the same is shown if and only if bytes decide the same, and the states stay alike |
| Decimal.ParseStoredInt | internal/engine/incr.go:30-56 | Accepts exactly the texts FormatInt writes for int64 values, each read back as its integer |
| Decimal.StoredIntExact | internal/engine/incr.go:21-56 | The counter grammar is the image of FormatInt on int64 |
| Decimal.ParseInt | internal/resp/reader.go:255-283 | The accumulating loop with its early exit accepts exactly the digit strings within the bound, and gives their value |
| Engine.Engine.SetKey | internal/engine/engine.go:289-314 | Reply, store, log and sequence number are those of performing the operation at one instant |
| Engine.Engine.ExpireKey | internal/engine/engine.go:334-367 | The same for EXPIRE, which logs the value the key holds |
| Engine.Engine.PersistKey | internal/engine/engine.go:370-399 | The same for PERSIST |
| Engine.Engine.DeleteKeys | internal/engine/engine.go:404-450 | The same for DEL: duplicates collapse, live keys are counted and logged, all are removed |
| Engine.Engine.IncrKeyBy | internal/engine/incr.go:64-121 | The same for INCRBY |
| Engine.Engine.CommitRecord | internal/engine/engine.go:159-172 | The record is on the log and numbered, or the refusal says why, a record with no text included, and nothing changed |
| Engine.Engine.CommitSet | internal/engine/engine.go:136-145 | Record on the log and pair in the store, or neither |
| Engine.Engine.MGetKeys | internal/engine/engine.go:255-267 | One answer per requested key, in order, all judged at one instant |
| Engine.Engine.CountExisting | internal/engine/engine.go:271-284 | The number of requested keys live at one instant, duplicates counted |
| Engine.Engine.GetKey | internal/engine/engine.go:237-241 | The value visible at the instant readNow picks |
| Engine.Engine.TimeLeft | internal/engine/engine.go:319-331 | The time left at that instant, or that there is no key or no deadline |
| Engine.Engine.Size | internal/engine/discovery.go:72-76 | The number of keys visible at that instant |
| Engine.LiveOnesExact | internal/engine/engine.go:415-430 | What DEL counts and logs is each live requested key exactly once |
| Store.Store.Set | internal/store/store.go:64-71 | Value and deadline replaced; no deadline clears one |
| Store.Store.Delete | internal/store/store.go:76-81 | The key and its deadline are gone, and presence is reported |
| Store.Store.Expire | internal/store/store.go:87-93 | Applies exactly to keys visible now |
| Store.Store.Persist | internal/store/store.go:96-105 | Applies exactly to visible keys with a deadline |
| Store.Store.Len | internal/store/store.go:137-145 | The number of visible keys |
| Store.Store.LiveKeys | internal/store/store.go:149-157 | Each visible key once, in some order |
| Store.Store.ReclaimExpired | internal/store/store.go:167-183 | Exactly min(limit, deadlines) keys are examined, and exactly those among them whose deadline has come are removed |
| Store.LiveAnswers | internal/store/store.go:42-59 | Every read is decided by what is visible at its instant |
| Store.WithoutInvisible | internal/store/store.go:42-51 | Removing keys that are invisible at an instant leaves what is visible then unchanged |
| Aof.RecordExact | internal/aof/codec.go:32-137 | For every record: its text, followed by anything, is read back as that record using exactly its bytes if and only if the record is recoverable; any other is corrupt |
| Aof.SetRecoverable | internal/resp/reader.go:157-165 | The condition on a SET record as bounds on its key, value and deadline text |
| Aof.DeadlineCanOverflowRecord | internal/aof/codec.go:54-57 | A SET the limits accept can become unreadable once it carries a deadline |
| Aof.Encode | internal/aof/codec.go:32-82 | Appends exactly the record's text, or nothing for a deletion of no keys |
| Aof.Decode | internal/aof/codec.go:91-137 | The answer and the bytes used depend only on the bytes that remain, under any fragmentation |
| Aof.HeaderSurvives | internal/aof/header.go:52-71 | A cut log is accepted exactly when it is empty or kept its whole header |
| Aof.ReadHeader | internal/aof/header.go:52-71 | New log, log of this version, or one of three refusals, decided by the bytes |
| Aof.StartExact | internal/aof/header.go:52-71 | A file of at least sixteen bytes is a log exactly when its first twelve are the header's; shorter ones are new or truncated, and a foreign file and another version are told apart |
| Replay.TornTailExact | internal/aof/replay.go:82-102 | A log cut at any byte: exactly the complete records are applied, the offset is the end of the last, truncation is reported iff the cut is inside a record, corruption never |
| Replay.DecodingInvertsEncoding | internal/aof/codec.go:84-137 | Decoding a cut log yields exactly the records complete before the cut |
| Replay.WholeLogExact | internal/aof/replay.go:68-103 | A log of any records is accepted iff every one is recoverable, otherwise refused where the first other one begins |
| Replay.ImageReplays | internal/aof/replay.go:68-103 | A whole file cut anywhere but inside its header: exactly the complete records are applied, with the offset of the last and whether a part of another follows |
| Replay.ReopenKeepsWholeRecords | internal/aof/open.go:26-43 | Reopening leaves the header and the surviving whole records, so appends follow the last whole record |
| Replay.Replay | internal/aof/replay.go:68-103 | Outcome, offset and store are those of the file's bytes, however the source splits them |
| Replay.ApplyTo | internal/aof/replay.go:106-135 | The four effect rules, an expired SET removing the key |
| Replay.OpenFile | internal/aof/open.go:14-46 | The store is the replayed one and the file is cut to the last whole record, or untouched when refused |
| Resp.CommandExact | internal/resp/writer.go:68-107 | For all arguments: a written frame is read back exactly when it fits the limits, and is malformed otherwise |
| Resp.CommandPrefix | internal/resp/reader.go:223-252 | No prefix of a complete frame is malformed: it is empty or torn |
| Resp.CommandStable | internal/resp/reader.go:93-143 | A frame once complete or malformed is not changed by later bytes |
| RespReader.Reader.ReadCommand | internal/resp/reader.go:102-143 | The answer is the pure reading of the bytes that remain for every fragmentation and any reallocations, the offsets delimit the payloads, and the buffer stays within MaxCommandBytes + 2 |
| RespReader.Reader.ReadBulk | internal/resp/reader.go:145-189 | One argument appended after the others, which stay in place |
| RespReader.Reader.GrowBuf | internal/resp/reader.go:198-221 | Room is made, contents kept, the cap respected |
| RespReader.BufReader.ReadLine | internal/resp/reader.go:234-252 | A header line, a clean end, a torn or a malformed line, as the bytes decide |
| RespReader.BufReader.ReadFull | internal/resp/reader.go:178-180 | The next bytes land in place and the consumed offset is the count minus what is buffered |
| Wire.RequestIsReply | internal/resp/writer.go:68-107 | A request is written exactly as the array of its arguments would be as a reply |
| Wire.ReplyTags | internal/resp/writer.go:20-107 | The first byte tells the kind of reply, null is `$-1`, and every reply but an array ends in CR LF |
| Wire.SafeExact | internal/resp/writer.go:42-59 | In a line reply CR and LF become spaces and nothing else changes |
| Wire.RecordWire | internal/aof/codec.go:32-82 | Records on the disk are the requests SET key value, SET key value PXAT milliseconds and DEL keys, after sixteen given header bytes |
| Wire.LineExact | internal/resp/reader.go:234-252 | A header line is what comes before CR LF, if both are within the buffer |
| Wire.LineFaults | internal/resp/reader.go:234-252 | A line feed alone and a line too long are malformed, a shorter one that ends is torn, and nothing at all a clean end |
| Wire.PayloadEnds | internal/resp/reader.go:178-189 | A payload of the declared length is accepted exactly when CR LF follows it |
| Wire.LengthForms | internal/resp/reader.go:255-283 | Lengths may have leading zeros and a minus; no digits is no length |
| Wire.NegativeRefused | internal/resp/reader.go:102-165 | A negative count of arguments or bytes is malformed |
| Glob.Match | internal/glob/glob.go:6-39 | True exactly when the value can be cut along the pattern's tokens, for all byte strings; what the tokens take is said by the GlobLaws rows |
| Glob.MatchesIffMatchFrom | internal/glob/glob.go:4-39 | Cutting along tokens and recursive matching are the same |
| Glob.NewStar | internal/glob/glob.go:11-20 | At a new star the remembered one can be forgotten |
| Glob.AtEnd | internal/glob/glob.go:35-38 | At the end of the value only trailing stars match and no restart can |
| Glob.MatchOne | internal/glob/glob.go:41-59 | One token's set of bytes and its end |
| Glob.MatchClass | internal/glob/glob.go:61-97 | Membership in a class of escapes, signed ranges and literals, negated or not |
| GlobLaws.TokenExact | internal/glob/glob.go:22-26 | Every pattern that does not begin with a star: its first token, alone, matches the first byte, and the rest of the pattern the rest of the value |
| GlobLaws.StarExact | internal/glob/glob.go:11-20 | A star before a pattern matches exactly the values with some end that the pattern matches |
| GlobLaws.QuestionExact | internal/glob/glob.go:47-48 | A question mark matches every single byte |
| GlobLaws.EscapeExact | internal/glob/glob.go:49-53 | An escaped byte matches itself alone, and so does a trailing backslash |
| GlobLaws.LiteralExact | internal/glob/glob.go:56-57 | A pattern without special bytes matches itself alone |
| GlobLaws.QuoteExact | internal/glob/glob.go:49-53 | Every value, escaped byte by byte, is a pattern that matches it alone |
| GlobLaws.NegationComplements | internal/glob/glob.go:61-97 | A caret makes a class match exactly the bytes it would not match without, for every class body |
| GlobLaws.ListedExact | internal/glob/glob.go:87-96 | A class that lists bytes matches exactly those, with its closing bracket or without |
| GlobLaws.RangeExact | internal/glob/glob.go:79-86 | A range matches both ends and the bytes between them as signed numbers, whichever end comes first |
| GlobLaws.EscapedMember | internal/glob/glob.go:75-78 | An escaped byte in a class is itself, whatever it is |
| Sessions.WholeTraversal | internal/engine/scan_sessions.go:78-143 | A traversal that reaches cursor 0 has returned every captured key once, in order, whatever others did in between; with positive counts, as many further pages as the first left keys reach it; one that is looked after does reach it |
| Sessions.TraversalExact | internal/engine/scan_sessions.go:113-143 | A cursor chain that reaches 0 returned exactly what its session had to go |
| Sessions.TraversalProgress | internal/engine/scan_sessions.go:113-143 | With positive counts a cursor chain gives at most as many pages as its session has keys to go, and one that gives as many has reached cursor 0; `TraversalCompletes` says when the pages are given |
| Sessions.TraversalCompletes | internal/engine/scan_sessions.go:113-143 | As many continuations as there are keys to go return them all, if each comes within the time to live with a positive count, the same pattern and a token to be had, and nobody clears or presents the cursor meanwhile |
| Sessions.NextAnswers | internal/engine/scan_sessions.go:113-143 | Answer by answer: invalid exactly when not in time, refused exactly when the pattern differs, else count keys from the position on or all that are left, with the token drawn leading to the rest |
| Sessions.StartAnswers | internal/engine/scan_sessions.go:78-111 | Answer by answer: all keys if they fit the page, refused exactly when the sessions in time are at their number or the bytes exceed their bound, else the first keys and a cursor to the rest |
| Sessions.UnexpiredExact | internal/engine/scan_sessions.go:158-164 | A call sees exactly the sessions last used less than the time to live ago, as they were |
| Sessions.ChargeGrows | internal/engine/scan_sessions.go:203-230 | Below its ceiling the estimate counts an overhead, sixteen bytes per place reserved and every byte of keys and pattern |
| Sessions.CallSound | internal/engine/scan_sessions.go:78-150 | Every call keeps the manager invariant: bytes are the sum over live sessions and within the cap, session count bounded, cursors nonzero, positions inside their snapshots |
| Sessions.StartSound | internal/engine/scan_sessions.go:78-111 | Starting keeps it; a failing call leaves unexpired sessions alone; the page is a front of the keys |
| Sessions.NextSound | internal/engine/scan_sessions.go:113-143 | Continuing keeps it |
| Sessions.CursorSingleUse | internal/engine/scan_sessions.go:133-142 | A cursor that gave a page is invalid; a failing call uses up nothing |
| Sessions.SessionBytes | internal/engine/scan_sessions.go:203-230 | The saturating estimate is the true total, capped |
| Sessions.PageEnd | internal/engine/scan_sessions.go:195-201 | The page ends at count keys or at the end |
| SessionManager.ScanSessions.Start | internal/engine/scan_sessions.go:78-111 | The object does exactly the call on its value, with the token drawn if one is needed |
| SessionManager.ScanSessions.Next | internal/engine/scan_sessions.go:113-143 | The same for a continuation |
| SessionManager.ScanSessions.ExpireLocked | internal/engine/scan_sessions.go:158-169 | Exactly the lapsed sessions go, and their bytes with them |
| SessionManager.ScanSessions.NextTokenLocked | internal/engine/scan_sessions.go:171-185 | The first draw that is nonzero and unused, or the source's failure |
| Discovery.KeysEqualsScan | internal/engine/discovery.go:37-66 | Sort-then-filter and filter-then-sort of any two snapshots of the same keys give the one sorted list of the matching ones |
| Discovery.Keys | internal/engine/discovery.go:48-52 | The one sorted list of keys live and matching now |
| Discovery.ScanStart | internal/engine/discovery.go:54-66 | A session starts from the list KEYS would give at that instant, all live keys without MATCH, charged for every key held |
| Discovery.ScanReturnsKeys | internal/engine/discovery.go:48-66 | Whatever others do in between, a traversal that reaches cursor 0 has returned what KEYS would have returned when it began, in order; one whose turns come in time and whose session nobody touches does reach it, within as many pages as there are keys |
| Discovery.AnswersUnique | internal/engine/discovery.go:35-52 | There is one sorted list of the members that match |
| Discovery.ListOfAll | internal/engine/discovery.go:59-62 | Without MATCH that list is all live keys |
| Discovery.FilterSnapshot | internal/engine/discovery.go:37-46 | In-place compaction keeps the matching keys in order and clears the tail |
| Discovery.SortedUnique | internal/engine/discovery.go:35-35 | There is one sorted arrangement, so the algorithm does not matter |
| Discovery.LeExact | internal/engine/discovery.go:35-35 | The order is ascending by bytes: a prefix first, else the smaller byte where two keys first differ |
| Replies.ReplyReads | internal/server/conn.go:126-151 | Any reply's text, nested arrays included, followed by anything, is read back as that reply with line breaks in line replies as spaces |
| Replies.RepliesRead | internal/server/conn.go:126-151 | A stream of replies is read back reply by reply |
| Replies.ReplyPrefixFree | internal/resp/writer.go:28-59 | If one reply's text begins another's, the two are read as the same reply |
| ReplyStream.Handler.ServeConn | internal/server/conn.go:38-82 | What is sent is a prefix of the replies' text, and all of it unless a write of the socket failed; at every socket read all finished replies had been sent |
| ReplyStream.RepliesExact | internal/server/conn.go:43-104 | One reply for each command up to the first pass that is none, in order, and one error more if that is a malformed frame |
| ReplyStream.Handler.Reads | internal/server/flush_on_block.go:21-26 | Before every read of the socket all finished replies are sent, or a failed flush ends the reads |
| ReplyStream.Flusher.Flush | internal/server/flush_on_block.go:47-59 | Everything asked for is sent unless the writer has failed; a new failure latches, and after one nothing more is sent |
| ReplyStream.Writer.Put | internal/resp/writer.go:10-18 | Under any partial writes what was sent is a prefix of what was asked; after an error nothing is sent again |
| ReplyStream.Writer.WriteLineSafe | internal/resp/writer.go:42-59 | The line goes out with every CR and LF as a space |
| ReplyStream.Writer.WriteReply | internal/server/conn.go:126-151 | The reply's text is asked for, all of it or a prefix with an error |
| Lifecycle.NoSessionOutlivesShutdown | internal/server/server.go:155-257 | In every interleaving of handlers with shutdown, once it returned and every handler released its connection, no session or retained byte remains, and connections stay within the limit |
| Lifecycle.EventKeeps | internal/server/server.go:137-171 | While sessions remain, someone is still going to clear them |
| Lifecycle.RegisteredFollows | internal/server/server.go:137-171 | In the interleaving, admission and release move the registered handlers exactly as the object's methods move its connections, and nothing else does |
| Lifecycle.Connections.Release | internal/server/server.go:155-166 | The last registered handler to leave while draining, and only it, must clear |
| Lifecycle.Connections.Admit | internal/server/server.go:137-153 | Registered unless the limit is reached |
| Lifecycle.AdmissionExact | internal/server/server.go:137-153 | A new connection is admitted below the limit and only there, and no other is affected |
| Lifecycle.ClearingExact | internal/server/server.go:155-166 | Exactly the only connection left, while draining, must clear |
| Lifecycle.SessionsOutliveConnections | internal/server/server.go:155-171 | While the server works, connections coming and going leave all sessions as they are |
| Lifecycle.NoCommandAfterDrain | internal/server/conn.go:43-49 | Once draining, no handler begins another command |

## Left out

- Sockets, deadlines, timers, goroutine scheduling and file-system calls: nondeterministic steps and parameters stand for them.
- Command dispatch, arity checks and error texts: each is settled by reading one branch.
- Panic recovery (`guard`, `recoverConn`): language runtime behaviour.
- Transport errors of a reader other than its end: a source here only delivers bytes and ends.
- Borrowing of returned argument slices until the next read: arguments are returned as values.
- Wrap-around of the log's 64-bit sequence numbers: numbers are unbounded.
- The one-second spacing of periodic syncs: a tick may come at any time the writer is idle.
- Eventual reclamation under adversarial map order: only the work and the effect of one call are stated.
- Quality of random tokens: a source of arbitrary draws.
- Log.Flush: states one flush with no append in between; interleavings are the state machine's.
