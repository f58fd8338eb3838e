# CloudCore: a verified model of its protocols and algorithms

CloudCore is a small private-cloud control plane. Most of its code drives libvirt, HAProxy and SQLite, but
several parts are algorithms or protocols in their own right. This project models those parts in Dafny 4.11
and proves what they promise, for every input, every interleaving and every way a connection can break.
`dafny verify dfyconfig.toml` checks all of it.

| part | files | main results |
|---|---|---|
| WebSocket bridge for VNC | `WebSocket`, `VncReader`, `VncConversation`, `VncBridge`, `VncTransparency` | printing and parsing are inverse; the reader does not depend on how the stream is cut, and exactly when it does; whole conversations round-trip; the relay delivers exactly the data payloads before the first close, and exactly the display's bytes |
| Cron search | `Calendar`, `CronFields`, `CronSyntax`, `Cron`, `CronBuild`, `CronMeaning` | the jumping search returns the least matching minute; a field means what its pieces say; built expressions parse back, fire within their period, and fire first at the minute they mean by the calendar |
| Scheduler | `Iso`, `Scheduler` | over any ticks of a whole table, missed occurrences collapse into one run, no row stops another, and a one-off starts once; when a stored text is on time, both ways |
| Package mirror | `HttpRange`, `Download`, `Mirror`, `Pull`, `InStep`, `PullMeaning` | resumable transfer against any server and against an honest one; what a pull changes and what it leaves alone; when its exit code 0 can be trusted, both ways |
| Writer lock | `DbLock`, `DbConnection` | one writer at a time exactly in the runs that never give the lock up inside a transaction; the lock is lost exactly by a careless close, and then forever |
| Peer pairing | `Pairing` | agreement on tokens in every run with lost messages; tokens are used once, revoked ones never again; when a host ends with two approved rows about another, both ways |
| Load balancer | `Lb`, `Sorting`, `Routing`, `RoutingMeaning`, `LbHandlers`, `LbMeaning`, `LbStore` | the compiled HAProxy rules route every request as the rules say; when each handler refuses, both ways; concurrent handlers are serialised in lock order and lose nothing |
| GGUF header | `Gguf`, `GgufFormat`, `GgufMeaning`, `GgufErrors` | exact on every well-formed header, None on every cut one; on every file whatever, exactly when an error escapes |
| Snapshots | `Snapshots` | all or nothing creation; restore returns the content at creation in every run |
| Lab VMs | `LabVms` | quotas hold in every interleaving with the reaper; when it deletes a machine that is no longer due, both ways |
| Layer split | `LayerSplit` | None exactly when nothing fits; otherwise the nearest feasible count, exactly when it fits |

`Bytes` and `Text` hold the byte and string arithmetic the parts share. A protocol is a state, an `Enabled`
predicate and an `Apply` function over its events; its theorems quantify over all legal event sequences. An
algorithm that updates state in the source is a method or a class whose contract ties it to a specification
function, and the theorems are about that function.

## Where promises and code part

- The reader's "frame too large" error discards every message decoded earlier in the same `recv`, so what is
  delivered can depend on how the stream is cut. `VncReader.PingLost` shows a ping that is lost in one cut and
  delivered in another; `VncReader.CutsAgreeIff` gives the exact condition on the frames before the oversize one.
- A one-off schedule stores its time as the text it was given, and the tick compares texts. A time written with
  a UTC offset is taken for the UTC time that reads the same: `Scheduler.OneOffStartsLate` shows one that starts
  two hours late. `Scheduler.OneOffOnTimeIff` gives the exact condition on the text, and
  `Scheduler.OneOffOffsetIff` says that of all clocks only UTC meets it. Recurring schedules store UTC times.
- "IN STEP" after a pull is not always true: an index may hold a file at the very path of another file's
  `.part`. `InStep.HazardExample` and `InStep.HazardBreaks` exhibit it, `InStep.TrustworthyIff` gives the
  exact condition on the index. An index as `checksums` writes it lists no part files and is always to be trusted
  (`InStep.ServedIndexTrustworthy`). A part path is also never listed among the served files, so after pruning
  the served files are the index's paths that are not part files.
- An index entry outside the served directories is meant to be refused, but a path without any component raises an
  uncaught `IndexError` (`PullMeaning.DotRaises`); `PullMeaning.FirstOutside` says which of the two happens.
- A transfer that fails is meant to be retried and then reported, but an `http.client.HTTPException` is caught
  nowhere and ends the whole program (`Mirror.MalformedStatusCrashes`). By `Mirror.CrashedIff` that is so exactly
  when one of the six connections that the download makes, each asked from the bytes held by then, raises one
  after others that were short and did not. What was received stays in the part file.
- A request that ends between an UPDATE and its commit closes the connection with the process-wide lock still
  taken (`DbLock.CarelessRunExists`, from the heartbeat handler); `DbLock.LockLostIff` says that exactly these
  closes lose it and `DbLock.BlockedForever` that no later caller gets it.
- A statement or commit that raises inside its transaction gives up the lock with the transaction still open
  (`DbLock.FailedStatementBreaksExclusion`); `DbLock.ExclusionIff` says that a run keeps one writer at a time
  exactly when no call does that.
- Two backend sections share a name when two referenced target groups agree in the first eight characters of
  their ids (`RoutingMeaning.TwinSections`), or when one takes the default backend's name; exactly then, by
  `RoutingMeaning.SectionsUniqueIff`.
- Creating a target group refuses a taken name, updating one does not (`LbHandlers.RenameClash`); names stay
  unique exactly through the other handlers and updates to free names (`LbHandlers.HandlerKeepsNamesIff`).
- A returned layer count need not fit when one flavor has no room for a single layer, because it is clamped to
  at least one layer on each side after the memory stage (`LayerSplit.OverfullSplit`); exactly then, by
  `LayerSplit.ResultFitsIff`.
- `block_count` promises a count or None, but lets two errors through: the ValueError of an unknown value type, at
  any depth of an array (`GgufErrors.ArrayOfUnknownType`), and the OverflowError of a length of 2^63 or more
  (`GgufErrors.LongKeyRaises`). By `GgufErrors.EscapesIff` that is so on exactly the files that start with
  well-formed pairs without a ".block_count" key and go on with a pair that raises; never on a well-formed
  header, whole or cut (`GgufFormat.WellFormedNeverRaises`).
- A host is meant never to have two approved rows about another, and checks for that before it sends a request
  and when it receives one, but not on approval: `Pairing.TwoApprovedRows` is a run with one lost reply that ends
  with two. `Pairing.OneApprovedIff` says that exactly an approval or callback that finds an approved row does it.
- The reaper decides by what it read at the start of its pass, so it may delete a machine for being idle that was
  touched a moment ago (`LabVms.TouchedButReaped`); `LabVms.ReapedNotDueIff` gives the exact condition.
- The docstring of `next_fire` says that it handles only expressions with a starred day field; the code applies
  the either-field rule when both are restricted, and the model follows the code.
- A range whose last position is before its first is an invalid specifier (section 14.1.1 of RFC 9110), which a
  server may ignore or reject (section 14.2). This server ignores every other malformed header but answers this
  one with 416 (`HttpRange.ReversedRange`), and it also answers a suffix range of an empty file with 416, though
  section 14.1.2 calls it satisfiable; `HttpRange.RfcIff` says that it differs from the ignoring reading in these
  two families only.
- The pattern for snapshot names ends in `$`, which also admits one final newline, and nothing else that the
  error message rules out (`Snapshots.NewlineName`).

## Model

| member | source | states |
|---|---|---|
| `WebSocketFrames.ParseEncode` | api/vnc_bridge.py:54-80 | any frame (any length form, mask key, reserved bits) followed by any bytes parses to exactly that frame and its size |
| `WebSocketFrames.EncodeParse` | api/vnc_bridge.py:54-80 | whatever parses is exactly the printed form of the parsed frame |
| `WebSocketFrames.ParseStable` | api/vnc_bridge.py:54-80 | a decision taken on a buffer, frame or error, is not changed by later bytes |
| `WebSocketFrames.FrameBytesDecodes` | api/vnc_bridge.py:32-41 | what `_frame` prints, at all three length encodings up to the cap, decodes to the same opcode and payload |
| `WebSocketFrames.WireMeaning` | api/vnc_bridge.py:54-80 | every frame that parses, in the bytes of the buffer alone: the bits of the first two bytes, the length fields, and each bit of each payload byte, which a mask flips exactly where the key byte whose turn it is has a bit |
| `WebSocketFrames.HelloDecodes` | api/vnc_bridge.py:79-80 | the masked frame of section 5.7 of RFC 6455 decodes to "Hello" |
| `VncReader.FrontFrame` | api/vnc_bridge.py:54-80 | the imperative header reader finds the frame the wire format defines, asks for more, or raises |
| `VncReader.Reader.constructor` | api/vnc_bridge.py:47-49 | a new reader has an empty buffer and no fragments |
| `VncReader.Reader.Feed` | api/vnc_bridge.py:51-89 | `feed` delivers, keeps and raises exactly as draining the buffer frame by frame says |
| `VncReader.Reader.Deliver` | api/vnc_bridge.py:81-89 | control frames pass at once, fragments are kept until the final one, other frames stand alone |
| `VncReader.AcceptMeaning` | api/vnc_bridge.py:81-89 | by opcode: a close, ping or pong passes even between fragments, a final data frame stands alone, a final continuation completes a binary message, and the rest is kept |
| `VncReader.DrainFrames` | api/vnc_bridge.py:51-89 | any printed frames plus an incomplete rest yield what the frames mean and leave exactly the rest |
| `VncReader.Split` | api/vnc_bridge.py:51-89 | every byte string is a list of frames followed by bytes that hold no complete frame |
| `VncReader.DrainAppend` | api/vnc_bridge.py:51-89 | draining now and again after more bytes is draining once with all of them |
| `VncReader.FeedChunks` | api/vnc_bridge.py:107-121 | feeding chunk after chunk delivers the concatenated outputs and ends in the composed state |
| `VncReader.ChunkingIndependent` | api/vnc_bridge.py:51-89 | without an oversize frame every way of cutting the stream gives the outputs and state of one call; with one, a prefix and the error |
| `VncReader.OversizeLosesMessages` | api/vnc_bridge.py:68-69 | a stream with an oversize frame delivers nothing when fed at once and everything before that frame when cut just before it |
| `VncReader.CutsAgreeIff` | api/vnc_bridge.py:51-89 | for any frames and any incomplete or oversize rest, all cuts deliver the same messages exactly when an oversize rest is preceded by no control frame and no final frame |
| `VncReader.PingLost` | api/vnc_bridge.py:68-69 | a ping and then a header announcing 16 MiB and one byte: lost in one piece, delivered when cut between them |
| `VncReader.SilentIff` | api/vnc_bridge.py:81-89 | frames yield no message exactly when all are data frames that are not final |
| `VncConversation.ReassembleFragmented` | api/vnc_bridge.py:81-89 | a message in any fragments with control frames between them comes out as the control frames in order, then one binary message |
| `VncConversation.ConversationRoundTrip` | api/vnc_bridge.py:51-89 | any conversation, with any masks and length forms, cut anywhere, is received message for message and leaves the reader empty |
| `VncBridge.AnswerBatch` | api/vnc_bridge.py:121-128 | the loop over decoded messages sends the bytes of the specified answers and stops at a close |
| `VncBridge.Handle` | api/vnc_bridge.py:111-128 | one pass of the relay loop, for both sockets and both ends of stream |
| `VncBridge.Serve` | api/vnc_bridge.py:105-132 | the whole relay sends each side exactly what the run of events specifies |
| `VncTransparency.AnswerMeaning` | api/vnc_bridge.py:121-128 | a batch forwards the data before the first close, answers each ping and echoes the close status |
| `VncTransparency.AnswerOrder` | api/vnc_bridge.py:121-126 | a batch sends a pong for each ping before the first close, in order, then the answer to the close, and nothing else |
| `VncTransparency.Upstream` | api/vnc_bridge.py:107-128 | over any run, the display gets exactly the data payloads before the first close of the browser's stream, pongs match pings, and the run ends in a close exactly when the stream has one |
| `VncTransparency.Downstream` | api/vnc_bridge.py:111-116 | the binary frames sent to the browser carry exactly the display's bytes |
| `VncTransparency.ReadsEverything` | api/vnc_bridge.py:107-120 | a run still open has consumed both streams completely |
| `VncTransparency.DisplayEvent` | api/vnc_bridge.py:111-116 | in an open run the display's bytes go out as one binary frame, and its end as a close with status 1000 that ends the run |
| `VncTransparency.HangsUp` | api/vnc_bridge.py:117-120 | the browser's end of stream ends the run without a word, and a run that has ended takes no further event |
| `VncTransparency.OpenIff` | api/vnc_bridge.py:105-132 | a run is open exactly as long as neither side has hung up and what the browser sent, taken in one piece, holds no close and no oversize frame |
| `VncTransparency.DecodePrinted` | api/vnc_bridge.py:32-41 | any list of sendable messages, printed one after another, decodes to itself |
| `VncTransparency.BrowserSeesDisplay` | api/vnc_bridge.py:105-132 | a browser decoding what the relay sent, cut in any way, gets exactly the messages meant for it and the display's byte stream |
| `Calendar.DayNumberOfDate` | api/croncalc.py:95-105 | the closed day number of a date inverts counting days one by one |
| `Calendar.DateOfDayNumber` | api/croncalc.py:95-105 | and counting days inverts the closed form, for every valid date |
| `Calendar.MonthUntilNext` | api/croncalc.py:95-105 | the first of the next month lies ahead and every day before it is in the same month |
| `Calendar.MonthLengths` | api/croncalc.py:95-105 | the months of thirty-one days are the odd ones up to July and the even ones from August, and February follows the leap years |
| `CronFields.Collect` | api/croncalc.py:57-61 | a range is refused exactly when it is not empty and leaves the bounds, else yields exactly the stepped values |
| `CronFields.ParseField` | api/croncalc.py:28-64 | a field parses to the union of its parts, or is refused when a part is bad or nothing is left |
| `Text.SplitGlue` | api/croncalc.py:30 | splitting at a character undoes joining with it |
| `Text.StripMeaning` | api/croncalc.py:31 | stripping takes off white space at both ends and nothing else |
| `Text.NumeralIff` | api/croncalc.py:38-61 | `int` takes a text as a numeral exactly when single underscores separate groups of digits |
| `CronFields.Parse` | api/croncalc.py:67-78 | an expression parses exactly when it has five good fields, each in its own bounds |
| `CronFields.Meaning` | api/croncalc.py:67-78 | parsed fields are non-empty and within their bounds |
| `CronSyntax.FieldIff` | api/croncalc.py:28-64 | a field written as pieces with commas between them (stars, numbers, ranges, with or without a step) is refused exactly when a step is zero, a non-empty range leaves the bounds or nothing is listed; otherwise its values are exactly those between the ends that are whole steps from the field's lower bound |
| `Cron.Cardinalities` | api/croncalc.py:87-88 | the two size tests decide whether a day field leaves a day out |
| `Cron.DayOk` | api/croncalc.py:106-117 | the four-way day test is the either-or-both rule on days |
| `Cron.MonthJump` | api/croncalc.py:95-105 | the jump to the next month passes no match and moves forward |
| `Cron.DayJump` | api/croncalc.py:118-120 | the jump to the next day passes no match |
| `Cron.HourJump` | api/croncalc.py:121-123 | the jump to the next hour passes no match |
| `Cron.Search` | api/croncalc.py:90-128 | the loop ends, and finds the least matching minute strictly after the start, or raises when none lies below the limit |
| `Cron.NextFireUnique` | api/croncalc.py:81-128 | there is at most one next fire |
| `Cron.NextFire` | api/croncalc.py:81-128 | `next_fire` is the plain definition: the first matching minute of the parsed expression, or an exception |
| `Cron.NextFireAt` | api/croncalc.py:81-128 | whatever minute is the first match below the limit is the one returned |
| `CronBuild.BuildParses` | api/croncalc.py:131-162 | every accepted picker setting is built into a string that parses back to the intended sets |
| `CronBuild.MultipleWithin` | api/croncalc.py:156-161 | any n consecutive units contain a multiple of n of the period, wrap-around included |
| `CronBuild.FiresWithin` | api/croncalc.py:147-161 | any window as long as a day, a week, n minutes or n hours contains a matching minute |
| `CronBuild.NextFireWithin` | api/croncalc.py:81-162 | `next_fire` never raises on a built string and fires within that wait |
| `CronMeaning.MatchesDate` | api/croncalc.py:95-125 | an expression matches a date and a clock time exactly when month, hour and minute are listed and the day passes, its weekday counted in days from a named Sunday |
| `CronMeaning.ExpressionIff` | api/croncalc.py:67-78 | an expression is good exactly when it has five words that are good fields, each in its bounds |
| `CronMeaning.BuiltNextFire` | api/croncalc.py:81-162 | a built string fires first at the least minute after the start that the picker setting means, in clock times and counted days |
| `CronMeaning.WeeklyFiresOn` | api/croncalc.py:106-109 | a weekly schedule fires on a day that is whole weeks and the chosen number of days from Sunday 2026-06-07, at the chosen hour and minute |
| `CronMeaning.BuiltIff` | api/croncalc.py:131-162 | a picker setting is built exactly when its mode is known and every number is there and within its bounds |
| `CronMeaning.BuiltTexts` | api/croncalc.py:131-162 | the strings built for a daily, a weekly and a stepped setting |
| `Scheduler.Table.Tick` | api/scheduler.py:205-215 | a tick advances exactly the rows whose stored text is at most the text of now and starts them, or stops at the first row that raises, with the rows before it advanced and nothing started |
| `Scheduler.AdvanceBeforeRun` | api/scheduler.py:218-233 | a one-off is disabled, a recurring row moved to the time `next_fire` defines, or its exception goes through |
| `Scheduler.Table.Create` | api/scheduler.py:70-92 | for a known kind a recurrence is armed at the first match after now, a one-off stored with its text as given; else nothing is stored |
| `Scheduler.DueIdsExact` | api/scheduler.py:208-215 | each due schedule is started once by a tick, any other not at all |
| `Scheduler.DueIffFired` | api/scheduler.py:207-211 | a recurring row is due exactly when a fire time has passed since it was last moved |
| `Scheduler.AdvanceArmed` | api/scheduler.py:218-233 | advancing never raises on a built expression and moves the row strictly into the future, by no more than its period |
| `Scheduler.MissedRunsCollapse` | api/scheduler.py:205-233 | over any increasing ticks a recurring row never raises and starts once at each tick with at least one fire time since the last start |
| `Scheduler.OneOffRunsOnce` | api/scheduler.py:227-228 | a one-off never raises and starts at the first tick that finds it due and at no other |
| `Scheduler.OneOffAtMostOnce` | api/scheduler.py:227-228 | whatever its text says, a one-off starts at most once |
| `Scheduler.OneOffOnTimeIff` | api/scheduler.py:207-211 | a one-off meant for t starts, in every run, at the first tick at or after t exactly when its text stands between the UTC texts of the microsecond before t and of t |
| `Scheduler.OneOffOffsetIff` | api/scheduler.py:174-183 | of the texts that print t on clocks with any offset exactly the UTC one is on time |
| `Scheduler.OneOffStartsLate` | api/scheduler.py:79-80 | 2026-06-01T09:00:00+02:00 is not due half a minute after its time, and becomes due only after nine o'clock UTC |
| `Scheduler.TableFollowsPlans` | api/scheduler.py:205-233 | a table of built recurrences and one-offs with distinct ids: over any increasing ticks no tick raises, and each tick starts each id once exactly when that row's own plan says so |
| `Iso.UtcOrder` | api/scheduler.py:207-211 | on UTC texts, with or without a fraction, text order is time order |
| `Iso.DueFromIff` | api/scheduler.py:207-211 | a text comes due exactly from t on when two comparisons hold, with the text of t and of the microsecond before |
| `Iso.OffsetReadsLocal` | api/scheduler.py:207-211 | a text with an offset comes due just after the UTC clock reads what its own clock reads |
| `Iso.ZoneMeaning` | api/scheduler.py:205-215 | the zone of a text is its sign and two digits each of hours and minutes |
| `Iso.OffsetIff` | api/scheduler.py:207-211 | so text order is time order for exactly the times written in UTC |
| `HttpRange.SendHead` | api/serve-package-repo.py:106-149 | the imperative range arithmetic computes the specified answer for every header and size |
| `HttpRange.AnswerSelects` | api/serve-package-repo.py:125-139 | a range is answered with exactly the positions it selects, and refused exactly when it selects none |
| `HttpRange.RangeIff` | api/serve-package-repo.py:112-121 | a header is read as a range exactly when, stripped, it is "bytes=", digits, a hyphen and digits |
| `HttpRange.WholeIff` | api/serve-package-repo.py:112-121 | and the whole file is sent exactly when it is no such text, or one without a digit |
| `HttpRange.RfcIff` | api/serve-package-repo.py:125-138 | the answer is that of RFC 9110 with invalid ranges ignored, except exactly for a reversed range and a suffix of an empty file, which get 416 |
| `HttpRange.ReversedRange` | api/serve-package-repo.py:130-138 | bytes=5-2 of a ten-byte file is refused, where the other reading sends the file |
| `HttpRange.CopyFile` | api/serve-package-repo.py:158-167 | the copy loop sends exactly the announced part of the file |
| `HttpRange.ParseResume` | api/sync-package-repo.py:159 | the client's resume header parses at the server as intended |
| `HttpRange.ResumeGetsTheRest` | api/serve-package-repo.py:125-149 | a resuming client is sent exactly the missing suffix, with 206 |
| `Download.Store.Append` | api/sync-package-repo.py:161-168 | through every chunk the part file, the running hash and `have` stay in agreement, also when an uncaught error follows |
| `Download.Store.Prepare` | api/sync-package-repo.py:147-156 | a part that is too long is thrown away, any other is kept and hashed |
| `Download.Store.Transmit` | api/sync-package-repo.py:157-181 | the retry loop performs the specified attempts, six connections at most, and ends by enough bytes, used-up retries or an uncaught error |
| `Download.Store.Download` | api/sync-package-repo.py:141-185 | the files, the outcome (uncaught HTTP errors included) and the number of connections of a download are the specified ones |
| `Mirror.AnyServer` | api/sync-package-repo.py:182-185 | whatever the server sends, `dest` is replaced only by content of the indexed size and hash and no third file changes |
| `Mirror.AttemptsGrow` | api/sync-package-repo.py:158-181 | the part only grows, and giving up takes six connections that fell short |
| `Mirror.NextRunResumes` | api/sync-package-repo.py:147-181 | giving up, or an uncaught error after no more than the indexed size, loses nothing: the next run starts from every byte received |
| `Mirror.ConnectionStep` | api/sync-package-repo.py:158-181 | what each kind of connection does: a lost one or a reply to a range request with another status than 206 leaves the part and the program goes on, a stream is appended, an uncaught error ends the program, the sixth short connection gives up |
| `Mirror.RangeIgnored` | api/sync-package-repo.py:161-181 | a server that never honours the range: six connections, the download is given up, and the part file holds exactly the bytes it held |
| `Mirror.WholeFileOnResume` | api/sync-package-repo.py:162-163 | the whole file with status 200 to a client that holds five bytes of ten is not appended |
| `Mirror.OneConnection` | api/sync-package-repo.py:147-185 | one connection that brings enough: the file is installed exactly when old and new bytes together have the indexed size and hash, else the part is deleted |
| `Mirror.UncaughtIff` | api/sync-package-repo.py:157-181 | a transfer ends in an uncaught error exactly when one of its six connections, asked from the bytes held by then, raises one after others that were short and did not |
| `Mirror.CrashedIff` | api/sync-package-repo.py:141-185 | the same for a whole download, from what it keeps of an earlier part file |
| `Mirror.MalformedStatusCrashes` | api/sync-package-repo.py:160-173 | a malformed status line ends the program and leaves the part as it was |
| `Mirror.PrefixAfterEveryChunk` | api/sync-package-repo.py:161-168 | with an honest server the part is a prefix of the served file after every chunk |
| `Mirror.HonestServer` | api/sync-package-repo.py:141-185 | with an honest server and drops anywhere a checksum never fails and nothing crashes, success installs the served file, giving up leaves a prefix |
| `Mirror.HonestCompletes` | api/sync-package-repo.py:158-185 | one complete connection among the six is enough to finish |
| `Pull.Repository.CheckFiles` | api/sync-package-repo.py:205-212 | the checking loop finds the entries to fetch and updates the hash cache as specified |
| `Pull.Repository.CheckPaths` | api/sync-package-repo.py:197-200 | the loop over the paths finds the first one outside and whether it is refused or raises |
| `Pull.Repository.FetchFiles` | api/sync-package-repo.py:232-248 | the fetching loop downloads each entry, recording verified files in the cache and the others as failed, until one ends the program |
| `Pull.Repository.Run` | api/sync-package-repo.py:188-262 | `cmd_pull` with all its exits (an index that is reported unreadable, one that ends the program, and an uncaught error later), files and cache is the specified pull |
| `InStep.CheckSound` | api/sync-package-repo.py:205-212 | with a true cache, what is not to be fetched is really there, and the cache stays true |
| `InStep.PullKeepsCache` | api/sync-package-repo.py:188-262 | the cache stays true of every served file through every pull |
| `InStep.PullInStep` | api/sync-package-repo.py:188-262 | without a hazard in the index, exit code 0 means every entry has its size and hash, and pruning leaves exactly the index's paths |
| `InStep.HazardExample` | api/sync-package-repo.py:143 | the smallest index with an entry at another one's part path |
| `InStep.HazardBreaks` | api/sync-package-repo.py:143-150 | for every such index there is a pull that returns 0 with an entry missing |
| `InStep.TrustworthyIff` | api/sync-package-repo.py:188-262 | exit code 0 can be trusted, from all states and servers, exactly when the index has no such entry |
| `InStep.ServedIndexTrustworthy` | api/sync-package-repo.py:102-108 | an index that lists only served files, as `checksums` writes it, can always be trusted |
| `PullMeaning.InsideIff` | api/sync-package-repo.py:197-200 | a path of components is accepted exactly when it is relative, none is "..", and the first that is neither empty nor a dot names a served directory |
| `PullMeaning.FirstOutside` | api/sync-package-repo.py:197-200 | the first entry outside ends the pull with nothing touched, by exit code 2 or an uncaught error |
| `PullMeaning.DotRaises` | api/sync-package-repo.py:198 | an entry with the path "." is not refused but raises |
| `PullMeaning.NothingTouched` | api/sync-package-repo.py:197-230 | a dry run and exit codes 2 and 3 leave every file as it was, for every index, cache, server and hash |
| `PullMeaning.SpaceIff` | api/sync-package-repo.py:215-230 | exit code 3 exactly when the sizes to fetch, less the part files, and twenty gigabytes exceed the free space; else a dry run exits with 0 |
| `PullMeaning.CheckFilters` | api/sync-package-repo.py:205-212 | what is fetched is the index filtered by what files and cache said before the pull, although the cache changes on the way |
| `PullMeaning.SmallFirst` | api/sync-package-repo.py:234 | downloads go in the order of size, each entry as often as it was to be fetched |
| `PullMeaning.FetchStep` | api/sync-package-repo.py:234-248 | a verified file is cached with its size and time, a failure is noted and the next download still runs, only an uncaught error stops the rest |
| `PullMeaning.Unlisted` | api/sync-package-repo.py:213-254 | an unlisted file is deleted exactly by a pull that prunes and comes to its end, and only if it is not named like a part |
| `PullMeaning.UnlistedCache` | api/sync-package-repo.py:249-254 | and the cache forgets it exactly then |
| `PullMeaning.HonestPull` | api/sync-package-repo.py:188-262 | against an honest source with broken connections, one of the six complete, a pull with enough space exits with 0 and leaves every entry in place |
| `DbLock.StepKeepsInv` | api/db.py:49-116 | every step of every thread keeps the lock's ownership, the connections' flags and one connection a thread in agreement |
| `DbLock.RunKeepsInv` | api/db.py:49-116 | so does every run |
| `DbLock.WritersExclude` | api/db.py:49-116 | in every run whose failing calls leave no transaction open, at most one connection is in a transaction, it holds the lock, and the lock is held exactly by the connection with the flag |
| `DbLock.ExclusionIff` | api/db.py:49-116 | a run keeps one writer, with the lock in its hands, in every state it goes through exactly when no call gives the lock up with its transaction open |
| `DbLock.FailedStatementBreaksExclusion` | api/db.py:68-84 | open, execute, acquire, a statement that raises inside its transaction, release: a transaction is left open without the lock |
| `DbLock.HeldIffUnraised` | api/db.py:68-116 | in every run a connection between calls holds the lock exactly when it is in a transaction whose last call did not raise |
| `DbLock.UnraisedWritersExclude` | api/db.py:68-84 | with any failing calls, transactions whose last call did not raise exclude one another |
| `DbLock.LockLostIff` | api/db.py:782-785 | a closed connection keeps the lock exactly in runs that close inside a transaction that has not raised |
| `DbLock.FreeWhenQuiet` | api/db.py:58-116 | without such a close the lock is free whenever nothing is in the middle of a call or transaction, failures included |
| `DbLock.NeverWaitsForItself` | api/db.py:53-56 | without such a close no thread waits for a lock it holds |
| `DbLock.OwnerCanRelease` | api/db.py:106-116 | without such a close the owner alone can always reach a state with the lock free |
| `DbLock.BlockedForever` | api/db.py:53-56 | after such a close no one acquires the lock in any continuation, and waiting callers wait forever |
| `DbLock.CarelessRunExists` | api/lfs_build.py:362-365 | such a run exists |
| `DbConnection.SerializedConnection.Acquire` | api/db.py:53-56 | takes a free lock, keeps its own, and is left waiting for another connection's |
| `DbConnection.SerializedConnection.ReleaseIfIdle` | api/db.py:58-61 | gives the lock up exactly when no transaction is open |
| `DbConnection.SerializedConnection.ReleaseUnconditionally` | api/db.py:63-66 | gives the lock up if the connection has it |
| `DbConnection.SerializedConnection.Execute` | api/db.py:68-84 | a call, successful, raising or left waiting for the lock, is a legal sequence of the lock model's steps and leaves its result |
| `DbConnection.SerializedConnection.Resume` | api/db.py:68-84 | the rest of a waiting call once the lock is free, likewise |
| `DbConnection.SerializedConnection.Answered` | api/db.py:70-84 | SQLite's answer decides whether the lock is kept |
| `DbConnection.SerializedConnection.Finish` | api/db.py:106-116 | the same for commit and rollback, which always give the lock up |
| `DbConnection.CallRun` | api/db.py:68-104 | the steps of a call that need not wait, from any state where the connection is idle |
| `DbConnection.WaitRun` | api/db.py:53-56 | a call that finds the lock taken stops after its first step |
| `DbConnection.ResumeRun` | api/db.py:53-84 | the rest of a waiting call, from any state where the lock is free |
| `DbConnection.FinishRun` | api/db.py:106-116 | the steps of a commit or rollback, from any such state |
| `Pairing.StepKeepsInv` | api/peers_routes.py:171-429 | every handler and every lost message keeps tokens, requests, rows and messages in agreement |
| `Pairing.RunKeepsInv` | api/peers_routes.py:171-429 | so does every run |
| `Pairing.Agreement` | api/peers_routes.py:306-408 | an approved outbound row's tokens are those, exchanged, of a row the other host created on approving that request, unless that was revoked |
| `Pairing.MutualAuthentication` | api/peers_store.py:45-51 | the row the other host created on approval is found, and while it is not revoked each stored token resolves on the other host to exactly this pairing's row |
| `Pairing.TokensHeld` | api/peers_store.py:87-88 | in every reachable state a revoked row holds no token, a waiting row only the one to be presented to it, an approved row both |
| `Pairing.PendingNeverAuthenticates` | api/peers_store.py:45-51 | what authenticates on a host is an approved row of its own; the callback token of a waiting row opens no door anywhere |
| `Pairing.CompletesOnce` | api/peers_routes.py:378-408 | a callback token completes at most one pairing, in any continuation |
| `Pairing.RevokedNeverAuthenticates` | api/peers_store.py:87-88 | a revoked row's token never resolves again, on any host |
| `Pairing.HandshakeSucceeds` | api/peers_routes.py:171-408 | from any state where neither host has a live row about the other, without loss both end with approved rows that hold each other's tokens, and no other row changes |
| `Pairing.StepDoublesIff` | api/peers_routes.py:306-408 | one approved row about a host is kept by every step exactly unless an approval or callback finds one already approved |
| `Pairing.OneApprovedIff` | api/peers_routes.py:270-281 | so a run never has two exactly when no such step is in it |
| `Pairing.TwoApprovedRows` | api/peers_routes.py:306-330 | a run with a lost reply and two approvals that ends with two approved rows about one host |
| `Pairing.LiveRowStopsInitiating` | api/peers_routes.py:171-202 | while a row about a host is pending or approved, no run mints a token for another handshake with it |
| `Pairing.ApprovedRowStopsRequests` | api/peers_routes.py:270-281 | while a row is approved, no run opens a new request from that host |
| `Pairing.ClosedNeverApproved` | api/peers_routes.py:306-330 | a request that is no longer pending is never approved again |
| `Sorting.SortSorted` | api/lb.py:209 | the stable sort yields a list ordered by priority |
| `Sorting.FirstOfSorted` | api/lb.py:209 | the first match in the sorted list is the match with the least priority number, the earliest among equals |
| `Routing.CompileRule` | api/lb.py:221-232 | one rule compiles to its ACL lines and names |
| `Routing.CompileListener` | api/lb.py:201-240 | the loop over the rules builds the specified frontend and collects exactly the groups it refers to |
| `RoutingMeaning.AclMeaning` | api/lb.py:213-232 | in the whole list, a rule's ACL names stand for its own conditions and no other rule's |
| `RoutingMeaning.UseMeaning` | api/lb.py:233-235 | a rule's `use_backend` line applies exactly when the rule matches |
| `RoutingMeaning.CompilationPreservesRouting` | api/lb.py:201-249 | for every listener and request the frontend picks the backend of the best usable matching rule, else the default |
| `RoutingMeaning.RequestGoesTo` | api/lb.py:201-240 | said of the balancer itself: a request goes to the section of the group of the rule that takes it and comes before every other that does, by priority and then by place |
| `RoutingMeaning.RequestFallsThrough` | api/lb.py:236-248 | and with no such rule to the listener's own group if there is one, else to the balancer's backends |
| `RoutingMeaning.SectionIff` | api/lb.py:233-240 | a group gets a section exactly when a listener has it as its own or a rule with a condition names it |
| `RoutingMeaning.OwnersMeaning` | api/lb.py:303-306 | exactly the referenced target groups get a section, one each |
| `RoutingMeaning.NamedBackendsWritten` | api/lb.py:233-240 | every backend a frontend names has a section |
| `RoutingMeaning.SectionsUniqueIff` | api/lb.py:161-165 | section names are unique exactly when the referenced ids differ in eight characters and none takes the default's name |
| `RoutingMeaning.TwinSections` | api/lb.py:161-165 | two referenced groups with ids that share eight characters get two sections of one name |
| `RoutingMeaning.WriteConfig` | api/lb.py:198-306 | the outer loop writes one compiled frontend a listener and the sections in order |
| `LbHandlers.Serialised` | api/store.py:29-38 | every interleaving of locked handlers leaves the state of running those that wrote one at a time, each once, in the order of the `Lock` events, less the owner that has not written |
| `LbHandlers.HandlerKeepsPorts` | api/server.py:1650-1745 | every handler keeps listener ports pairwise distinct |
| `LbHandlers.PortsStayDistinct` | api/server.py:1605-1745 | so does every state of every interleaving |
| `LbHandlers.HandlerKeepsNamesIff` | api/server.py:1778-1905 | target-group names stay unique through a handler exactly when it is not a rename to a taken name |
| `LbHandlers.RenameClash` | api/server.py:1856 | such a rename |
| `LbHandlers.HandlerKeepsChecks` | api/server.py:1794-1822 | no handler stores a health check with a zero or an empty path |
| `LbHandlers.UpdateRepairsCheck` | api/server.py:1860-1875 | an update that mentions the health check repairs a stored zero |
| `LbHandlers.AdditionsSurvive` | api/server.py:1605-1905 | in a serial run an added listener or group stays until exactly that one is removed |
| `LbHandlers.AdditionsNotLost` | api/server.py:1605-1905 | no interleaving loses an addition |
| `LbMeaning.DeleteGroupIff` | api/server.py:1891-1898 | a delete is refused exactly when there is no group of the id or a listener or one of its rules names it |
| `LbMeaning.DeletedGroup` | api/server.py:1899 | a successful delete takes away exactly the groups of that id and leaves no listener or rule that names it |
| `LbMeaning.TargetsStayFound` | api/server.py:1605-1905 | no handler takes away a group that is still named |
| `LbMeaning.AddListenerIff` | api/server.py:1657-1687 | a listener is appended exactly when its port is given, in range and free and its protocol known |
| `LbMeaning.UpdateListenerMeaning` | api/server.py:1715-1721 | the first listener of the id gets the target, rules and action that are given and keeps everything else |
| `LbMeaning.UpdateListenerRefusedIff` | api/server.py:1711-1718 | an update is refused exactly when there is no listener of the id |
| `LbMeaning.RemoveListenerMeaning` | api/server.py:1737-1739 | exactly the listeners of the id go; refused exactly when there is none |
| `LbMeaning.BackendMeaning` | api/server.py:1612-1632 | exactly the backends of the name go, and an addition is appended |
| `LbMeaning.CreateGroupMeaning` | api/server.py:1785-1824 | a group is appended exactly when its stripped name is not empty and free and its port not zero, with every default spelled out |
| `LbMeaning.UpdateGroupMeaning` | api/server.py:1852-1875 | the first group of the id gets the fields that are given, and in a health check the first usable one of the given, the stored and the default value |
| `LbMeaning.UpdateGroupRefusedIff` | api/server.py:1847-1854 | an update is refused exactly when there is no group of the id |
| `LbStore.LoadBalancer.AddBackend` | api/server.py:1612-1616 | appends the backend, or refuses |
| `LbStore.LoadBalancer.RemoveBackend` | api/server.py:1632 | keeps exactly the backends of other names |
| `LbStore.LoadBalancer.AddListener` | api/server.py:1657-1687 | appends a listener, refusing a bad port or protocol and a port in use |
| `LbStore.LoadBalancer.UpdateListener` | api/server.py:1715-1721 | changes target, rules and default action of the first listener with the id and nothing else |
| `LbStore.LoadBalancer.RemoveListener` | api/server.py:1737-1739 | keeps exactly the other listeners, or refuses an unknown id |
| `LbStore.LoadBalancer.CreateGroup` | api/server.py:1785-1824 | appends a group with the stripped name and the defaults, refusing an empty or taken name or a missing port |
| `LbStore.LoadBalancer.UpdateGroup` | api/server.py:1852-1875 | changes the given fields of the first group with the id, health check included |
| `LbStore.LoadBalancer.DeleteGroup` | api/server.py:1891-1899 | removes a group, refusing one that a listener or rule still refers to |
| `LbStore.Table.Serve` | api/server.py:1605-1905 | a request inside the lock is one thread's Lock, Read, Write, Unlock of the concurrent model, changes no other row, and keeps ports distinct and health checks usable |
| `LbStore.Filter` | api/server.py:1739 | the list comprehension keeps exactly the accepted elements in order |
| `LbStore.ServeRun` | api/store.py:33-38 | from any state with the lock free those steps are legal, store what the handler by itself stores, and touch no other thread |
| `Gguf.BlockCount` | api/gguf_meta.py:77-99 | the reading loop computes the specified count, None or escaping error on any bytes at all |
| `GgufFormat.SkipExact` | api/gguf_meta.py:47-58 | skipping a value advances by exactly its encoded length, nested arrays included |
| `GgufFormat.SkipCut` | api/gguf_meta.py:47-58 | skipping a value that is cut ends in an error or at the very end of the file |
| `GgufFormat.BlockCountExact` | api/gguf_meta.py:77-99 | on every well-formed header the result is the value of the first `.block_count` key |
| `GgufFormat.CutGivesNone` | api/gguf_meta.py:77-99 | cutting the file anywhere before that value ends gives None, never another number |
| `GgufFormat.WellFormedNeverRaises` | api/gguf_meta.py:77-99 | on a well-formed header, whole or cut anywhere, no error escapes |
| `GgufMeaning.PlainIff` | api/gguf_meta.py:39 | the widths of the fixed-size types |
| `GgufMeaning.ScalarMeaning` | api/gguf_meta.py:61-74 | the number that two, four or eight bytes make, unsigned or in two's complement, a text as it is, and nothing for every other type |
| `GgufMeaning.CountKeyIff` | api/gguf_meta.py:93 | a key counts exactly when it ends in the twelve bytes of ".block_count" |
| `GgufMeaning.CountReturned` | api/gguf_meta.py:77-99 | a 32-bit count is returned as the number its four bytes make, wherever its key stands first |
| `GgufMeaning.SampleCount` | api/gguf_meta.py:77-99 | a file of fifty-three bytes holds the count 300 |
| `GgufErrors.FaultRaises` | api/gguf_meta.py:47-58 | a value that meets an unknown type or an unreadable length at any depth of arrays raises that error |
| `GgufErrors.SkipUndone` | api/gguf_meta.py:47-58 | conversely, a skip that raises ran into such a value, and one that succeeds before the end of the file passed over a well-formed one |
| `GgufErrors.FaultRaisesIff` | api/gguf_meta.py:90-98 | with a raising pair after well-formed pairs the error escapes exactly when none of their keys ends in .block_count |
| `GgufErrors.EscapesIff` | api/gguf_meta.py:77-99 | on every file whatever an error escapes exactly when well-formed pairs without a .block_count key are followed by a pair that raises it |
| `GgufErrors.ArrayOfUnknownType` | api/gguf_meta.py:50-58 | one pair with an array of one element of type 13 raises the ValueError |
| `GgufErrors.LongKeyRaises` | api/gguf_meta.py:42-44 | a key length of 2^63 raises the OverflowError |
| `Snapshots.RunKeepsInv` | api/compute.py:1059-1132 | in every run names are unique, every indexed snapshot exists on all its disks and no disk has another |
| `Snapshots.RestoreReturnsContent` | api/compute.py:1095-1114 | restore returns each disk to its content at creation, whatever came between, until the snapshot is deleted |
| `Snapshots.NewlineName` | api/compute.py:1007 | a name outside the promised characters is accepted exactly when it is a good name followed by one newline |
| `Snapshots.NameIff` | api/compute.py:1007 | a name is accepted exactly when it is one to sixty-four of the promised characters, or so followed by one newline |
| `Snapshots.CreateIff` | api/compute.py:1065-1092 | exactly with a new valid name, disks and steps that work every disk saves its content; otherwise nothing changes |
| `Snapshots.RestoreMeaning` | api/compute.py:1095-1114 | the disks of a listed snapshot get its content and the power is set as told or left; an unknown name changes nothing |
| `Snapshots.DeleteMeaning` | api/compute.py:1117-1132 | a listed snapshot of a stopped domain leaves its disks and the index; else nothing changes |
| `Snapshots.WriteUndone` | api/compute.py:1059-1114 | from every state that admits a create, the run create, write, restore is possible and returns every disk to its content |
| `Snapshots.Instance.CreateSnapshot` | api/compute.py:1065-1092 | succeeds exactly for a good new name with disks that all work, and otherwise changes nothing |
| `Snapshots.Instance.TakeAll` | api/compute.py:1076-1084 | either every disk has the snapshot or none has changed |
| `Snapshots.Instance.RollBack` | api/compute.py:1082-1083 | deleting what was done restores the disks exactly |
| `Snapshots.Instance.RestoreSnapshot` | api/compute.py:1095-1114 | reverts exactly the listed disks and starts or stops the domain as told, or reports an unknown name |
| `Snapshots.Instance.RevertAll` | api/compute.py:1109-1110 | reverts every listed disk and no other |
| `Snapshots.Instance.DeleteSnapshot` | api/compute.py:1117-1132 | removes the snapshot from its disks and the index, or reports an unknown name or a running domain and changes nothing |
| `Snapshots.Instance.DropAll` | api/compute.py:1130-1131 | deletes the snapshot of every listed disk and no other |
| `LabVms.QuotasHold` | api/lab_vm_broker.py:326-393 | in every interleaving at most six VMs are active, two of them student, one an LFS build |
| `LabVms.BeginIff` | api/lab_vm_broker.py:337-345 | a create passes its checks exactly when fewer than six machines are active and, for a student or an LFS build, fewer than two or none of its kind |
| `LabVms.DueMeaning` | api/lab_vm_broker.py:161-169 | when a machine of each purpose is due, and why, in seconds from its creation and its last touch |
| `LabVms.ReapStep` | api/lab_vm_broker.py:590-603 | one row of a pass: passed over unless it was active and due, kept when its delete fails, marked once when it works; no other row changes |
| `LabVms.WholePass` | api/lab_vm_broker.py:586-603 | from any state a pass can be run to its end, and undisturbed it deletes exactly the active and due rows with their reasons |
| `LabVms.DeletionIsFinal` | api/lab_vm_broker.py:431-456 | rows stay, deadlines never move, and a deletion keeps its time and reason |
| `LabVms.PassReapsAll` | api/lab_vm_broker.py:586-603 | after a clean pass no VM that was active and overdue at its start is active, whatever ran in between |
| `LabVms.ReapsOnlyDue` | api/lab_vm_broker.py:586-603 | the reaper deletes only a row it found active and overdue at the start of its pass, with exactly the reason that made it overdue |
| `LabVms.ReapedNotDueIff` | api/lab_vm_broker.py:586-603 | a deleted row is no longer due exactly when it was touched after the pass read it, and its lifetime (and by the time of deletion its new idle limit) is not over |
| `LabVms.TouchedButReaped` | api/lab_vm_broker.py:586-603 | a student machine touched just after the pass read it is deleted as idle a second later |
| `LabVms.Broker.Create` | api/lab_vm_broker.py:337-391 | a VM is added exactly when the quotas admit it and the instance was granted |
| `LabVms.Broker.ReapOnce` | api/lab_vm_broker.py:586-603 | an undisturbed pass deletes and returns exactly the overdue rows whose deletion works |
| `LayerSplit.OffloadLayers` | api/layer_split.py:91-126 | the clamping code computes the specified split |
| `LayerSplit.MaxLayers` | api/layer_split.py:112-116 | the number of whole layers that fit a flavor's safe budget, and not one more |
| `LayerSplit.SplitInRange` | api/layer_split.py:103-126 | any returned count leaves a layer on each side |
| `LayerSplit.FitsBetween` | api/layer_split.py:112-117 | the counts that fit both flavors are exactly those between the two computed bounds |
| `LayerSplit.NoneIffNothingFits` | api/layer_split.py:111-122 | the memory stage gives None exactly when no division of the layers fits |
| `LayerSplit.ResultFitsIff` | api/layer_split.py:111-126 | a returned count fits both flavors exactly when each has room for one layer |
| `LayerSplit.OverfullSplit` | api/layer_split.py:123-124 | two layers, equal hosts, a 1 MB worker and a 4 MiB model: the count returned does not fit |
| `LayerSplit.NearestFeasible` | api/layer_split.py:103-126 | the result is the feasible count nearest to the CPU-weighted share |
| `LayerSplit.WithoutFlavors` | api/layer_split.py:83-104 | None without two layers, workers and capacity; with a flavor size unknown, the nearest count to the weighted share that leaves a layer on each side |
| `LayerSplit.CapacityMeaning` | api/layer_split.py:64-68 | the idle share of the cores, and a twentieth of them when less is idle |
| `LayerSplit.WeightedMeaning` | api/layer_split.py:97-98 | the workers' capacity is to everyone's as the share is to all layers |
| `LayerSplit.RoundTies` | api/layer_split.py:98 | a tie is rounded to the even neighbour |
| `LayerSplit.FitsInBytes` | api/layer_split.py:111-116 | a division fits exactly when each side's bytes stay within three quarters of its flavor, in whole numbers |
| `LayerSplit.BusyAndIdle` | api/layer_split.py:64-104 | four cores at 80% and eight idle ones: forty-four layers of forty-eight |

## Left out

- The HTTP upgrade and accept key of the bridge, errors of `send`, and the select timeout; what `recv` returns is a parameter.
- Text is ASCII: Unicode digits, spaces and case folding that Python's `int`, `strip`, `split`, `lower` and the `\d` of a pattern accept are not modelled.
- Cron times are minutes of one UTC calendar; time zones are not modelled. Exceptions are one outcome, whatever their class.
- The scheduler leaves out changes to schedules by other requests in the middle of a tick and the runs themselves; which texts `fromisoformat` accepts is a parameter. Offsets are whole minutes.
- The package mirror takes paths as normalised text (no `a/./b` aliases), and leaves out directories in the place of files, failing local writes, writing the index (`checksums`) and logging. A write to a part file completes or does nothing.
- Hashes are an arbitrary function of the content; connections, time stamps and free space are parameters.
- `SendHead` and `CopyFile` leave out headers other than the range and status, and directories.
- `DbLock` takes setting the flag and taking or releasing the lock as one step, and leaves out SQLite's own locking and the separate connection that `init` uses before any thread starts.
- `DbConnection` states calls that no other thread interrupts but by holding the lock; their interleavings are the subject of `DbLock`. A commit that fails may leave its transaction open but opens none.
- `Pairing` models each handler as steps on values, cut at the call to the other host, and not as updates in place of a table; hosts are honest and have one address each, tokens are never guessed. Rate limit, pending cap and expiry may refuse at any time; WireGuard and the migration of host references are left out.
- `Routing` takes a pattern as one word, as HAProxy reads it; a bare `*` prints an ACL with an empty pattern and is taken to match every path. Server lines, health checks and other text of the configuration, the frontend without listeners and TCP mode are left out.
- `LbHandlers` and `LbStore` leave out reading the body (numbers given as text among it), the HAProxy reload, and the handlers that do not take the lock (`delete_lb`).
- `Gguf` leaves out Python's recursion limit and a length below 2^63 that the memory cannot hold, and compares the key's bytes where the code compares the decoded text, which end alike.
- `Snapshots` takes applying and deleting a disk snapshot to succeed, and leaves out a domain that does not stop or start.
- `LabVms` leaves out placement, capacity, networking and the text of requests; whether a host accepts an instance is a parameter.
- `LayerSplit` uses real numbers, not floating point, and leaves out reading statistics and `maybe_apply`.
- Instances, networks, DNS, NFS, security groups, WireGuard, backups, the terminal, the UI, the Go provider and the plain stores: effects of other programs, or members that would only be simple.
