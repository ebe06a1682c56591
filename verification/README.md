# Verified model of log-tailer-go

A Dafny model of the parts of log-tailer-go that keep state over whole runs or
compute something with a non-obvious meaning, and proofs of what they guarantee.
`dafny verify dfyconfig.toml` checks the whole project.

| files | what they model |
|---|---|
| `Lines`, `Cleaning`, `Chunking`, `TailerModel`, `TailerTheorems`, `Passes`, `AtMostOnce`, `Tailer` | the log tailer: the streaming line splitter, the run loop against an arbitrary file system, and the object that does it |
| `DockerStats`, `DockerModel`, `DockerCollector`, `FanOut` | the Docker collector: CPU baselines across rounds, and the bounded fan-out as a concurrent protocol |
| `PostgresModel`, `PostgresRounds`, `PostgresEngine` | the Postgres engine: counters kept from round to round, failures logged on change, one session at a time |
| `Statfs`, `StorageCollector`, `MountList`, `StorageEvent`, `Disk` | the storage collector: statfs with a timeout, the published mounts and server total, disk arithmetic |
| `Paths`, `Mounts`, `LocalDisks`, `MountParse` | the mount table: lookup, wildcard match, one entry per device, parsing |
| `Text` | string order, splitting, sorted sequences |

How it is set up:

- Code that updates state step by step is a class or a method with loops. Each
  such method is proved equal to a function of its inputs and old state, and the
  theorems are about those functions over whole histories.
- Everything the operating system, Docker or Postgres may answer is an input:
  one `Iteration` of the tailer holds every reply one pass may consume, one
  `Replies` every answer of a Postgres round. Replies are unrelated to one
  another, so all failures at all moments are covered. A drain whose replies run
  out is a run cancelled there.
- Concurrent parts are step relations; a theorem about `Execute(steps)` holds of
  every interleaving.
- Publishing appends to a ghost log. Times, inodes and counters are unbounded
  numbers, floats are reals; disk arithmetic wraps at 2^64 as in the source.
- The tailer's two size constants are parameters (any `0 < size <= max`).
- Glob matching is a function parameter; path cleaning is modelled.

Where code and documentation differ, the model follows the code:

- The mount table parser returns nil for a table without entries, so a wildcard
  is published as "mount table unreadable" on an empty table too
  (`storage/collector.go:219`, `StorageEvent.EmptyTableReadsAsUnreadable`), not
  only when the table cannot be read; `StorageEvent.NoTablePublishedExactlyWhen`
  has the exact condition.
- Cleaning a line strips byte order marks in one pass and carriage returns
  after, so a new mark can be joined (`Lines.CleaningCanJoinABom`).
  `Cleaning.MarkLeftExactlyWhenSplit`: a mark is left, and cleaning is not
  idempotent, exactly when three surviving bytes spell a mark with only carriage
  returns and whole marks between them.
- An oversized line is flushed without looking for newlines, so a forced chunk
  may hold newlines and complete lines may wait for the next read;
  `Lines.FlushIsByLineExactlyWhen` says exactly when either happens.
  `Chunking.AlwaysByLineExactlyWhen`: the messages are the lines of the stream
  after every read exactly when every read fits into the buffer beside the
  unterminated line before it; `Chunking.EveryCutIsByLineExactlyWhen` says which
  streams that holds of however they are cut. Lines shorter than the limit by
  one read suffice (`Chunking.ChunkingIsInvisible`); as a bound on line length
  alone this cannot be raised (`Chunking.ChunkBoundIsTight`).
- `used + free + reserved = total` holds exactly for filesystems reporting
  available <= free <= total blocks (`Disk.BytesAddUpExactlyWhenConsistent`, and
  `Disk.BytesNeedNotAddUp` for an input on which it fails).

What the documentation leaves open: a file opened again is read from its start,
so one failed stat publishes it a second time
(`AtMostOnce.FailedStatRepublishes`); `AtMostOnce.ReadTwiceExactlyWhenReread`
says exactly when bytes are read twice.

## Model

Rows marked "refinement step" tie one method or definition to the functions the
theorems are about; the other rows are the results.

| member | source | states |
|---|---|---|
| `Lines.CleaningCanJoinABom` | logs/tailer.go:342-345 | a concrete line whose cleaned form is a byte order mark, so cleaning is not idempotent |
| `Cleaning.CleaningKeepsSurvivors` | logs/tailer.go:342-345 | cleaning removes the carriage returns and the bytes of whole marks of the line, and nothing else, in order |
| `Cleaning.MarkLeftExactlyWhenSplit` | logs/tailer.go:342-345 | a cleaned line holds a mark, and cleaning it again changes it, if and only if three surviving bytes spell a mark with only dropped bytes between them |
| `Lines.SplitRejoins` | logs/tailer.go:333-352 | terminated lines and unterminated tail are newline-free and rejoin to the text |
| `Lines.SplitIsUnique` | logs/tailer.go:333-352 | no other decomposition into newline-free pieces exists |
| `Lines.MessagesAreTheNonEmptyLines` | logs/tailer.go:347-351 | the messages of the simple specification are exactly the cleaned lines that are not empty, in order |
| `Lines.LineSegmentsEmit` | logs/tailer.go:333-352 | cutting segments off the buffer emits the cleaned non-empty lines of the simple specification |
| `Lines.FlushConserves` | logs/tailer.go:321-358 | one flush splits the buffer into whole lines or one chunk of exactly the limit, and a rest within the limit |
| `Lines.FeedConserves` | logs/tailer.go:317-358 | over any sequence of reads, removed segments followed by the buffer are exactly the bytes read; the buffer stays within the limit |
| `Lines.FlushIsByLineExactlyWhen` | logs/tailer.go:321-358 | a flush sends no message with a newline inside iff the buffer is within the limit or its first limit bytes have none, and leaves no complete line iff it is within the limit or none is behind it |
| `Chunking.AlwaysByLineExactlyWhen` | logs/tailer.go:172-182 | for any reads whatever, messages and buffer are those of splitting the stream so far after every read if and only if every read fits beside the unterminated tail before it |
| `Chunking.EveryCutIsByLineExactlyWhen` | logs/tailer.go:172-182 | every way to cut a stream into reads agrees with splitting it, after every read, if and only if at every position the largest read possible fits beside the tail before it |
| `Chunking.ChunkingIsInvisible` | logs/tailer.go:172-182 | however a stream with short enough lines is cut into reads, messages and buffer are those of splitting the whole stream |
| `Chunking.CutsAgree` | logs/tailer.go:172-182 | two cuts of the same stream give the same messages and the same buffer |
| `Chunking.ChunkBoundIsTight` | logs/tailer.go:324-331 | for all constants there is a stream whose runs are at most one byte over that bound, and a cut into allowed reads, that forces a chunk out and leaves the newline in the buffer, unlike splitting |
| `TailerModel.NewestIsMaximal` | logs/tailer.go:261-288 | the single pass over the matches finds the maximum by modification time then name among those not left, or none exactly when none is eligible |
| `TailerModel.AbsorbKeepsInv` | logs/tailer.go:177-182 | a read, flush and publish keep the invariant tying log, buffer and offset to the reads of the open file |
| `TailerModel.RunKeepsInv` | logs/tailer.go:92-225 | in every run the published log is what the openings' reads amount to, each under its path; no open file means an empty buffer |
| `TailerTheorems.EventsHaveOrigins` | logs/tailer.go:321-376 | events and byte ranges of openings correspond one to one, in order |
| `TailerTheorems.EveryRunPublishesRangesInOrder` | logs/tailer.go:92-225 | in every run each message comes from one contiguous range of a single opening, carries its path, and ranges are disjoint and in order |
| `TailerTheorems.EveryFlushIsBounded` | logs/tailer.go:172-182 | in every drain of every run no flush sees more than limit plus one read nor leaves more than the limit |
| `TailerTheorems.EveryRunWithRoomPublishesCleanLines` | logs/tailer.go:60-225 | when every read fits beside the tail before it, a run publishes exactly the cleaned complete lines of what it read, opening by opening |
| `TailerTheorems.EveryRunPublishesCleanLines` | logs/tailer.go:60-225 | the same for lines shorter than the limit by one read, whatever the reads |
| `TailerTheorems.LinesUpTo960KiBAreExact` | logs/tailer.go:19-21 | the same with the tailer's own constants, for lines up to 960 KiB |
| `TailerTheorems.GrowingFileIsTailed` | logs/tailer.go:172-206 | in every run, what an opening of a file that only grows adds to the published log is exactly the cleaned complete lines between its start and how far it read, the offset if it is open |
| `TailerTheorems.LaterOpeningsStartAtZero` | logs/tailer.go:70-123 | in every run only the first opening may skip existing content |
| `AtMostOnce.ReadTwiceExactlyWhenReread` | logs/tailer.go:227-248 | in every run a byte of an inode is read in two openings if and only if the earlier read anything and the later got past where the earlier began |
| `AtMostOnce.NoByteIsPublishedTwice` | logs/tailer.go:92-225 | in every run without such a pair of openings no byte of a file lies in two published ranges |
| `AtMostOnce.DistinctInodesArePublishedOnce` | logs/tailer.go:92-225 | in particular when no inode is opened twice |
| `AtMostOnce.FailedStatRepublishes` | logs/tailer.go:152-160 | for any file content, a failed stat between two passes makes its messages come out twice |
| `Passes.DrainIsTold` | logs/tailer.go:172-210 | what a drain reads, where it stops and which of its ends it comes to, from the replies it takes: it goes on exactly while there is more to read and no reply failed or came at the end of the run |
| `Passes.TakenIsDetermined` | logs/tailer.go:172-210 | how many replies a drain takes is determined |
| `Passes.PassFromOpen` | logs/tailer.go:92-221 | a pass that starts open closes the file if and only if it was not cancelled and the check found it gone or replaced, the stat failed, it was truncated, a read failed, or a switch was due and it caught up; a switch is due exactly when the 25th-cycle check of a glob finds a newer match or one was pending; what it reads, forgets, switches and ends, likewise |
| `Passes.PassFromClosed` | logs/tailer.go:99-127 | a pass with nothing open opens exactly when there is a candidate and the open succeeds, the newest one, from the end only if it is the first of the run, and then does what an open pass does; otherwise it changes nothing else |
| `Passes.CycleCountsPassesWithFile` | logs/tailer.go:97-132 | in every run the check falls due on every 25th pass that has a file, counted over the whole run |
| `Passes.CancelledRunEnds` | logs/tailer.go:92-95 | cancellation ends the run before anything else |
| `Passes.TruncationIsNoticed` | logs/tailer.go:164-170 | in every run a pass that finds the file shorter than its offset publishes nothing and closes it, and the next opening, whenever it comes, reads from the start |
| `Passes.NewerMatchIsFollowed` | logs/tailer.go:147-221 | while a newer match stays, within 25 passes the run ends or the file is closed, and closed by switching unless it was replaced, truncated or unreadable |
| `TailerTheorems.ReplacementIsNoticed` | logs/tailer.go:129-146 | a file that stays deleted or replaced is closed within 25 passes unless the run ends |
| `TailerTheorems.SwitchDueExactlyWhenNewer` | logs/tailer.go:298-307 | a switch becomes due if and only if the newest match not left is another path modified after the open file |
| `TailerTheorems.LeftIsNeverReopened` | logs/tailer.go:261-296 | an inode switched away from is in no later opening while every scan still sees it |
| `TailerTheorems.SwitchesAreBounded` | logs/tailer.go:147-221 | over n fixed files with distinct inodes at most n - 1 switches happen, whatever the modification times |
| `TailerTheorems.SwitchOnlyAfterDrain` | logs/tailer.go:172-221 | at a switch the offset is that of the replies the drain took, before each there was more to read, and the last size they observed is reached, unless the last re-stat failed |
| `Tailer.Tailer.constructor` | logs/tailer.go:48-74 | refinement step: the initial state |
| `Tailer.Tailer.NewestMatch` | logs/tailer.go:265-296 | the loop returns the newest eligible match and prunes the left set to what was seen |
| `Tailer.Tailer.Forget` | logs/tailer.go:289-294 | refinement step: left inodes not present are dropped, the others kept |
| `Tailer.Tailer.AppendEvent` | logs/tailer.go:361-376 | refinement step: the line joins the batch under the followed path |
| `Tailer.Tailer.PublishBatch` | logs/tailer.go:381-387 | refinement step: the batch is published in order and emptied |
| `Tailer.Tailer.FlushCompleteLines` | logs/tailer.go:321-358 | buffer and published log after the loop are those of one flush |
| `Tailer.Tailer.TakeLines` | logs/tailer.go:333-356 | the loop advancing an index takes out exactly the line segments |
| `Tailer.Tailer.TakeChunk` | logs/tailer.go:177-182 | refinement step: one read advances the offset by its length, joins the buffer and is flushed |
| `Tailer.Tailer.DrainLoop` | logs/tailer.go:172-210 | the drain loop reaches the state and end of the drain function |
| `Tailer.Tailer.CloseFile` | logs/tailer.go:135-137 | refinement step: closing empties the buffer and leaves path, offset and log |
| `Tailer.Tailer.TryOpen` | logs/tailer.go:227-248 | refinement step: opening starts at the end only the first time |
| `Tailer.Tailer.EnsureOpen` | logs/tailer.go:99-127 | refinement step: the opening phase, including waiting and failed opens |
| `Tailer.Tailer.CheckRotation` | logs/tailer.go:129-150 | refinement step: the periodic check for disappearance, replacement and a newer match |
| `Tailer.Tailer.ReadAvailable` | logs/tailer.go:152-221 | refinement step: stat, truncation, drain and switch |
| `Tailer.Tailer.Pass` | logs/tailer.go:92-224 | refinement step: one pass of the loop is one step of the model |
| `Tailer.Tailer.RunAll` | logs/tailer.go:62-225 | a whole run is a run of the model |
| `DockerStats.OneFullCoreIsAHundred` | docker/stats/calculate.go:10-26 | the percentage is proportional to CPU time and reads 100 for one full core |
| `DockerStats.DifferencedExactlyWhenUsable` | docker/stats/calculate.go:16-26 | a window is differenced if and only if both samples have host time, CPUs are known, host time advanced and container time did not go back; it reads zero exactly when the container was idle |
| `DockerStats.WindowsCompose` | docker/stats/calculate.go:16-26 | usable windows compose, and over equal CPU counts the percentage is the host-time-weighted mean |
| `DockerModel.RunningSamplesAreThisRounds` | docker/collector.go:362-377 | a round's samples are exactly those of the ids it read as running |
| `DockerModel.FailedIdsAreThisRounds` | docker/collector.go:340-352 | the failed ids are exactly those whose read failed in the round |
| `DockerModel.ListedRoundRemembersOnlyItself` | docker/collector.go:298-384 | after any history, a listed round leaves exactly its own running samples and its own failed ids |
| `DockerModel.BaselinesAreCurrent` | docker/collector.go:175-240 | every stored sample was read in the last listed round or a pre-read since it |
| `DockerModel.PublishedCPUHasCurrentBaseline` | docker/collector.go:397-403 | every published CPU percentage is differenced against such a sample |
| `DockerModel.PublishesCPUExactlyWhen` | docker/collector.go:336-403 | a tick publishes a container's CPU if and only if it is running or paused, was read as running, and a sample is held to which the window is usable |
| `DockerModel.TwoRoundsPublishCPUExactlyWhen` | docker/collector.go:336-403 | after a listed round: if and only if that round read it as running too and the window is usable |
| `DockerModel.RowsTellTheRound` | docker/collector.go:336-382 | a row is marked failed exactly when its read failed in this round, which is when its id is remembered as failing |
| `DockerModel.PreReadLeavesOthers` | docker/collector.go:214-224 | a pre-read leaves alone what is stored of ids it does not read as running |
| `DockerModel.UnlistedChangeNothing` | docker/collector.go:252-262 | refinement step: rounds that fail at the list leave the memory as it was |
| `DockerModel.PreReadStores` | docker/collector.go:214-224 | a pre-read stores its sample or keeps an older one it can be differenced against |
| `DockerModel.PreReadGuarantee` | docker/collector.go:168-225 | if pre-read and tick samples can be differenced the tick publishes CPU; a kept older sample gives the value without pre-read, averaging both windows |
| `DockerCollector.Collector.FillStats` | docker/collector.go:397-403 | refinement step: differences against the stored sample, then stores |
| `DockerCollector.Collector.Merge` | docker/collector.go:336-369 | refinement step: one result updates both maps and its row |
| `DockerCollector.Collector.PrunePrev` | docker/collector.go:371-377 | refinement step: samples of containers not running this round are dropped |
| `DockerCollector.Collector.PruneFailing` | docker/collector.go:378-382 | refinement step: failures of containers not listed are dropped |
| `DockerCollector.Collector.WithDetails` | docker/collector.go:333-384 | the merge leaves exactly this round's samples and failures, and publishes each row against the old samples |
| `DockerCollector.Collector.PrimeCPU` | docker/collector.go:231-240 | refinement step: the first reading is a listed round that publishes nothing |
| `DockerCollector.Collector.CollectAndPublish` | docker/collector.go:242-285 | a tick publishes the round's rows, or none when the list failed, and nothing on shutdown |
| `DockerCollector.Collector.PreReadCPU` | docker/collector.go:175-225 | a pre-read is a pre-read of the history; a failed list changes nothing |
| `DockerCollector.Collector.KeepNeeded` | docker/collector.go:214-224 | the loop keeps only samples the tick could not do without |
| `FanOut.ExecuteKeepsInv` | docker/collector.go:304-331 | slot counts, wait group and results match the goroutines in every interleaving |
| `FanOut.EveryInterleavingIsBounded` | docker/collector.go:304-331 | at most 8 stats and 8 detail requests in flight, slots held only by containers of their kind, all free and all results there at the join |
| `FanOut.ResultsWrittenByOwner` | docker/collector.go:315-329 | refinement step: result j changes only by goroutine j's own step, while it is not there yet |
| `FanOut.EveryResultIsWrittenOnce` | docker/collector.go:304-331 | in every interleaving that reaches the join exactly one step wrote result j, of goroutine j, and the result is what it wrote |
| `FanOut.UncancelledResultsAreAnswers` | docker/collector.go:304-331 | a goroutine gives up only after a cancellation, so in a round without one every result is what its own request came back with |
| `FanOut.ProceedsExactlyWhenASlotIsFree` | docker/collector.go:309-327 | in every interleaving a waiting goroutine may proceed exactly while fewer than eight of its kind hold a slot |
| `FanOut.EveryStepDecreases` | docker/collector.go:309-331 | every step decreases a measure |
| `FanOut.SchedulesAreFinite` | docker/collector.go:309-331 | no interleaving takes more than five steps per container and two |
| `FanOut.SomeStepUntilJoined` | docker/collector.go:315-331 | until the join some step other than cancelling is enabled |
| `PostgresModel.DiffIsTheGap` | db/postgres/calculate.go:23-45 | refinement step: samples can be differenced if and only if undisturbed, and the activity is the difference of every counter |
| `PostgresModel.CacheHitIsAPercentage` | db/postgres/calculate.go:47-57 | between such samples the hit share is in 0..100, absent exactly when no block was read |
| `PostgresModel.CacheHitIsTheShareOfHits` | db/postgres/calculate.go:47-57 | the percentage times all block accesses is 100 times the hits; 100 exactly when no block came from disk, 0 exactly when none was a hit |
| `PostgresModel.CacheHitAverages` | db/postgres/calculate.go:47-57 | over two windows joined it is the mean weighted by block accesses |
| `PostgresModel.ConnectTells` | db/postgres/engine.go:139-151 | only a refusal for too many connections is tried again, at most twice and not once the round has ended, and the last try decides |
| `PostgresModel.EntriesTellTheRound` | db/postgres/engine.go:203-243 | in any round a database's entry has activity and cache share if and only if the start and its counters were read and those held advanced undisturbed, and then they are the difference and the share of hits |
| `PostgresModel.ConnectFrom` | db/postgres/engine.go:139-151 | refinement step: between one and three tries, whatever the replies |
| `PostgresModel.FailedRoundsLoseNothing` | db/postgres/engine.go:198-243 | striking all rounds that are not full changes neither the counters held nor the sum reported |
| `PostgresModel.FullRoundReports` | db/postgres/engine.go:216-241 | a full round reports the difference against the counters held, nothing if there are none or they were disturbed, and then holds its own |
| `PostgresModel.ActivityIsConserved` | db/postgres/engine.go:83-243 | over any history the activity reported for an undisturbed database sums to last full round minus first, seconds included |
| `PostgresModel.ReportedIsTheSumOfWindows` | db/postgres/engine.go:203-243 | over any history, restarts, resets and missing databases included, the activity reported is the sum of the undisturbed windows between consecutive full rounds |
| `PostgresRounds.KeysAreInjective` | db/postgres/engine.go:252-265 | log keys are injective in database name and part, slashes included |
| `PostgresRounds.OutcomeKeysAreUnique` | db/postgres/engine.go:83-136 | a round attempts every key at most once |
| `PostgresRounds.ServerPartsTell` | db/postgres/engine.go:83-126 | each of the eight server parts fails exactly when its own replies say so; none but connect is attempted when connecting fails |
| `PostgresRounds.DatabasePartsTell` | db/postgres/engine.go:247-274 | connecting to a database is attempted exactly where it is allowed and its tables exactly when that worked, each failing for its own reply |
| `PostgresRounds.FailingIsTheLastRounds` | db/postgres/engine.go:342-351 | after every round the failing set is exactly the keys attempted and failed in it |
| `PostgresRounds.LoggedOnChange` | db/postgres/engine.go:315-351 | a warning is logged at round k iff the key failed at k and not at k - 1, a recovery iff it succeeded at k and failed at k - 1, never twice |
| `PostgresRounds.SessionsOneAtATime` | db/postgres/engine.go:83-151 | at every moment at most one session is open, none at the end, at most 3 x (1 + databases) connect attempts |
| `PostgresRounds.EveryPartIsQueried` | db/postgres/engine.go:90-126 | how many queries a round makes |
| `PostgresEngine.Engine.constructor` | db/postgres/engine.go:56-63 | refinement step: nothing held, nothing failing |
| `PostgresEngine.Engine.Ok` | db/postgres/engine.go:320-340 | refinement step: the failing set and log follow the outcome |
| `PostgresEngine.Engine.Prune` | db/postgres/engine.go:345-351 | refinement step: only attempted keys stay failing |
| `PostgresEngine.Engine.Connect` | db/postgres/engine.go:139-151 | refinement step: the retry loop connects and tries as the model says |
| `PostgresEngine.Engine.ReadTables` | db/postgres/engine.go:247-274 | refinement step: outcomes and session of one database |
| `PostgresEngine.Engine.Databases` | db/postgres/engine.go:203-243 | every entry against the old counters; counters replaced only when the start is known |
| `PostgresEngine.Engine.ReadHealth` | db/postgres/engine.go:90-110 | refinement step: the first four parts and their queries |
| `PostgresEngine.Engine.ReadStorage` | db/postgres/engine.go:111-126 | refinement step: the other three parts, and the close |
| `PostgresEngine.Engine.RunParts` | db/postgres/engine.go:83-135 | refinement step: the whole round's outcomes, actions, counters and entries |
| `PostgresEngine.Engine.Collect` | db/postgres/engine.go:69-136 | a round keeps the object equal to what the history says |
| `Statfs.ExecuteKeepsInv` | storage/collector.go:285-311 | every call not received is the one waited for or the pending one of its path |
| `Statfs.OneOutstandingCallPerPath` | storage/collector.go:285-311 | in every interleaving at most one outstanding call per path, between ticks the pending one |
| `Statfs.EveryReadingIsFresh` | storage/collector.go:285-311 | in every interleaving each reading answered is of a call started by its own invocation and returned after it, with no other invocation in between |
| `Statfs.EveryInvocationIsAnswered` | storage/collector.go:285-311 | in every interleaving the answers are to the invocations, in order and one to each, but for the one being waited for |
| `Statfs.StuckPathsStartNothing` | storage/collector.go:286-300 | a stuck path answers a timeout and starts nothing; any other starts exactly one call and drops a stale result |
| `Disk.BytesAddUpExactlyWhenConsistent` | storage/disk/calculate.go:12-50 | used + free + reserved = total if and only if the block counts are consistent or there are no bytes |
| `Disk.BytesNeedNotAddUp` | storage/disk/calculate.go:12-50 | block counts for which used + free + reserved is not the total |
| `Disk.ConsistentBytes` | storage/disk/calculate.go:12-50 | the four sizes of a consistent filesystem against its block counts |
| `Disk.BytesOfAnyFilesystem` | storage/disk/calculate.go:12-50 | the same for inconsistent block counts: nothing goes below zero, and the percentage is the used share of used and available |
| `Disk.Total` | storage/disk/calculate.go:56-68 | the loop computes the wrapped sums and the percentage of the sums |
| `Disk.TotalIsConsistent` | storage/disk/calculate.go:52-68 | the total of consistent filesystems is consistent when it fits |
| `Disk.ServerPercentIsBetween` | storage/disk/calculate.go:52-68 | the server percentage lies between the percentages of its parts |
| `Disk.PartialTotalIsSmaller` | storage/disk/calculate.go:56-68 | leaving filesystems out makes no component larger |
| `Paths.ContainsIsPrefix` | storage/mounts/calculate.go:84-91 | a mount point holds a path exactly when its components are a prefix of the path's |
| `Paths.CleaningFollowsThePath` | storage/mounts/calculate.go:67-91 | cleaning an absolute path follows it component by component: ".." to the parent, at the root nowhere |
| `Paths.CleanIsIdempotent` | storage/mounts/calculate.go:67-91 | cleaning is idempotent |
| `Mounts.Find` | storage/mounts/calculate.go:67-82 | the loop computes the one-pass lookup of the cleaned path |
| `Mounts.FindIsNearestAncestor` | storage/mounts/calculate.go:59-91 | the one-pass lookup is the walk up the ancestors, last entry winning; not found exactly when no ancestor is mounted |
| `Text.LessIsLexicographic` | storage/mounts/calculate.go:53-55 | the order of paths is the dictionary's: the first differing byte decides, a proper prefix comes first |
| `Text.WildcardsAre` | storage/mounts/calculate.go:23-27 | a configured path is a pattern exactly when it holds `*`, `?` or `[` |
| `Mounts.Match` | storage/mounts/calculate.go:35-57 | whatever order the map is walked in, the list is the one sorted list of the matching mounts |
| `Mounts.Collect` | storage/mounts/calculate.go:47-56 | collecting in any order gives a strictly sorted list of exactly the non-autofs matches |
| `Mounts.MatchListIsDetermined` | storage/mounts/calculate.go:47-56 | only one list satisfies the specification |
| `Mounts.ByPathIsLastAt` | storage/mounts/calculate.go:38-45 | the map holds for each matching mount point the entry mounted last |
| `Mounts.MatchesAscend` | storage/mounts/calculate.go:53-55 | the matches ascend by path |
| `Mounts.MatchFindsItself` | storage/mounts/calculate.go:35-82 | looking up a match's path returns that very entry |
| `LocalDisks.Filter` | storage/mounts/calculate.go:101-108 | exactly the qualifying entries, in table order |
| `LocalDisks.SortByLength` | storage/mounts/calculate.go:110-112 | a stable sort by path length |
| `LocalDisks.Dedup` | storage/mounts/calculate.go:114-123 | the in-place pass keeps the first entry of each device in the array it reads |
| `LocalDisks.LocalFilesystems` | storage/mounts/calculate.go:93-124 | per qualifying device the shortest mount path, earliest on ties, ordered by length; the table is not modified |
| `LocalDisks.SelectionIsDetermined` | storage/mounts/calculate.go:93-124 | the specification has one answer |
| `LocalDisks.SelectedAre` | storage/mounts/calculate.go:93-124 | only local types and no loop devices, each by its shortest mount path, the first of those |
| `LocalDisks.SelectedInOrder` | storage/mounts/calculate.go:110-112 | shorter paths first, equally long ones as in the table |
| `LocalDisks.OneEntryPerDevice` | storage/mounts/calculate.go:98-100 | every qualifying device is there, exactly once |
| `MountParse.UnescapeLoop` | storage/mounts/parse.go:36-52 | the index-jumping loop computes the unescaped text |
| `MountParse.SpaceIsWhiteSpace` | storage/mounts/parse.go:22-26 | fields are separated exactly where a white-space character of Unicode is encoded in UTF-8, and all its bytes |
| `MountParse.EscapesWrap` | storage/mounts/parse.go:41-46 | an escape above 377 wraps at 256 |
| `MountParse.Parse` | storage/mounts/parse.go:20-34 | the loop parses every line in order |
| `MountParse.UnescapeUndoesEscape` | storage/mounts/parse.go:36-52 | unescaping undoes the kernel's escaping, for every text |
| `MountParse.ParseUndoesPrint` | storage/mounts/parse.go:15-52 | printing any table with escapes and parsing it gives back its entries in order |
| `StorageCollector.ReportMount` | storage/collector.go:243-276 | refinement step: one path's published usage, timeout and failure included |
| `StorageCollector.Add` | storage/collector.go:204-209 | refinement step: a usage is added unless its path is listed |
| `StorageCollector.OnePath` | storage/collector.go:211-233 | refinement step: one configured path adds its items |
| `StorageCollector.AddMatches` | storage/collector.go:228-232 | refinement step: every match is added under its pattern |
| `StorageCollector.MountUsages` | storage/collector.go:200-235 | the published list is that of the expanded configuration |
| `StorageCollector.ListedOnceInOrder` | storage/collector.go:196-235 | each path is listed once, in order of first occurrence, read by its own call |
| `MountList.EverythingAskedForIsListed` | storage/collector.go:200-235 | whatever a configured path asks for is listed |
| `MountList.PlainPathsAndMatchesAreListed` | storage/collector.go:211-233 | every plain path is listed, and every mount that is last at its path, hits a configured pattern and is not autofs |
| `MountList.NothingElseIsListed` | storage/collector.go:200-235 | every entry is the reading of something a configured path asks for |
| `MountList.NoMatchPublishedExactlyWhen` | storage/collector.go:223-227 | a pattern is listed as matching nothing if and only if there is a table and no entry of it is a match, unless another pattern matches a mount of that very name |
| `MountList.UsageTellsTheReply` | storage/collector.go:243-276 | an entry names the mount at the nearest mounted ancestor unless its statfs failed outright, and has figures exactly when it answered |
| `StorageCollector.WildcardKeepsItsMount` | storage/collector.go:228-244 | device and type under a wildcard are those of the mount that matched |
| `StorageEvent.ReadMountTable` | storage/collector.go:125-134 | refinement step: the parsed entries, none when the table could not be read |
| `StorageEvent.WildcardHasNoTableExactlyWhen` | storage/collector.go:215-222 | a wildcard's only item is "no mount table" if and only if the table could not be read or no line has three fields |
| `StorageEvent.EmptyTableReadsAsUnreadable` | storage/collector.go:217-222 | an empty table read successfully cannot be told from an unreadable one |
| `StorageEvent.NoTablePublishedExactlyWhen` | storage/collector.go:200-235 | each configured wildcard is published as having no mount table if and only if that is so, whatever else is configured |
| `StorageEvent.CollectAndPublish` | storage/collector.go:106-123 | one tick: server total and mounts are those of the one table read |
| `StorageCollector.SortPaths` | storage/collector.go:171 | the missing paths sorted, none lost |
| `StorageCollector.ReportOver` | storage/collector.go:143-184 | total of what could be read, partial exactly when something was missing, missing paths sorted; absent exactly when nothing counts |
| `StorageCollector.ReportServer` | storage/collector.go:136-185 | that report over exactly one filesystem per local device |
| `StorageCollector.ReportTellsTheReads` | storage/collector.go:143-184 | the report is absent exactly when no filesystem could be read and has bytes, and is partial exactly when one could not be read, and names those, sorted, as often as that was |
| `StorageCollector.ReportTotalIsTheSum` | storage/collector.go:143-184 | each figure of the published total is the sum of that figure over everything read |
| `StorageCollector.CallsAreNumberedInOrder` | storage/collector.go:211-233 | each statted path has its own call, in order |
| `StorageCollector.ServerTotalConserves` | storage/collector.go:136-185 | the server total adds up and its percentage lies within its parts' |
| `StorageCollector.PartialServerTotalIsSmaller` | storage/collector.go:136-185 | a partial total is at most the total with the missing filesystems included |

## Left out

- Heartbeat lines and the shipped counter of the tailer, the delays between passes, and the deferred close on return: only the order of events is modelled.
- JSON encoding, the Redis publisher and delivery failures: publishing appends to a log.
- File contents are not tied to reads except in `GrowingFileIsTailed`: a read may return anything.
- TryOpen: stat, open and seek are one step, so a rename between them is one reply, not a sequence of steps.
- LeftIsNeverReopened: assumes that a scan and the open that follows see the same file under the chosen path.
- SwitchesAreBounded: the same assumption, and scans that see exactly the fixed files.
- WindowsCompose: IEEE rounding of percentages is not modelled; percentages are reals.
- DiffIsTheGap: 64-bit overflow of the counters' differences is not modelled.
- ActivityIsConserved, ReportedIsTheSumOfWindows: the rows of one round have distinct names, as the catalog guarantees.
- FindIsNearestAncestor: for clean absolute mount points, as the kernel prints them; on others the source compares lengths of uncleaned names.
- ReadTwiceExactlyWhenReread, NoByteIsPublishedTwice: a file truncated and rewritten under the same inode counts as the same file.
- PassFromOpen, PassFromClosed, TruncationIsNoticed, NewerMatchIsFollowed, CycleCountsPassesWithFile: a scan never names an empty path, as glob matching never does.
- PublishesCPUExactlyWhen, RowsTellTheRound: the containers of one list have distinct ids, as Docker's have.
- Timers, tickers, request timeouts and round budgets: cancellation and expiry may happen at any step instead.
- Container names, images, memory, network, block I/O and process counts, exit codes and times and error texts of the Docker event; the cgroup version and the flag for the list failing.
- Sessions, blocked queries, replication rows, sizes, table rows and error texts of the Postgres event: only whether each part was read.
- The storage collector's log lines and its failing maps.
- Reading `/proc/self/mounts`, statfs itself, the Docker HTTP client and guard, SQL text and the Postgres driver.
- Glob matching inside a path: a function parameter of `Match`.
- Loading and validating the configuration, the fixed liveness beat, the restart of a component one second after a panic, and the CPU, load, memory, network and uptime readings of the host.
