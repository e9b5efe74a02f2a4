# Proofs about SoyaOS

A Dafny model of the parts of SoyaOS whose correctness is hardest to see by
reading, and proofs of what they promise. `dafny verify dfyconfig.toml` checks
all of it.

- **The ciphertext relay** (`Frame`, `RelayServer`, `RelayAdmission`,
  `RelaySafety`, `RelayThroughput`, `RelayQuota`, `RelayClient`, `RelayQueue`):
  the single-loop UDP forwarder as session objects proved against a state
  machine; what one turn answers, told on the bytes of the datagram; its routing
  and counting invariants over every run; the quota of a session id across
  evictions; and the client at both ends of it.
- **The indexed-table pipeline** (`IndexedConfig`, `IndexedRows`,
  `IndexedBatches`, `WorkerPool`, `IndexedInterleave` with `Partitions`,
  `IndexedSupply`, `IndexedHandler`): the worker pool under every schedule refines
  a sequential loop, whatever an invocation emits is a publishable table, and
  unless an expansion is disturbed it emits one exactly when there is one.
- **The scheduler** (`Cron`, `CronMatches`, `Hydration`, `Backfill`,
  `PruneReplay`, `OnceReplay`, `MissedFires`, `Scheduler`, `OneShots`): missed-fire
  replay over any sequence of interrupted hydrations, what each policy comes to,
  the idempotency window, the loader and the time wheel.
- **The canonical snapshot encoder** (`JsonText`, `JsonParse`, `Snapshot`,
  `SnapshotEncoder`, `MapOrder`, `SnapshotValues`): the appending encoder writes
  the canonical text of what a Go value denotes, a parser recovers the value from
  it, map iteration order leaves no trace at any depth, and two values get the
  same bytes exactly when they are equal as snapshots.
- **The release planner** (`SemVer`, `CommitLog`, `ReleaseGraph`,
  `ReleasePlan`): ordering, closure, bumping, and that what is planned is
  accepted.
- **Storage** (`Keys`, `StateStore`, `BigEndian`, `Episodic`), **usage metering**
  (`Usage`, `MinuteText`, `UsageLedger`, `UsageReport`, `UsageFlush`,
  `UsageAggregator`) **and the flag reorderer** (`FlagOrder`).

Code that changes things step by step is a class or a method here and is proved
against a function; what the source promises is proved about that function.

## What the proofs found

- The relay's quota, read as "burst + rate * window", holds for all runs exactly
  when a session idle long enough to be evicted would have a full bucket again:
  `rate * (idle + 1ns) >= burst` (`RelayQuota.QuotaIsExact`). The defaults meet
  it; a configuration that does not is overdrawn by a run the proof constructs.
- `IssueToken` accepts any positive ttl, but expiry is cut to whole seconds: a
  token is alive when issued exactly when it reaches a later second
  (`Frame.IssuedAlive`), and `Frame.BornExpired` is one that does not.
- The `ErrShortBuffer` branch of `PacketConn.ReadFrom` cannot be reached: the
  read buffer is exactly one header longer than the caller's, so an oversized
  payload is cut without an error (`RelayClient.WrittenFrameIsRead`).
- A plan the release tool makes and applies is refused by its own release check
  exactly when a planned module holds a local replace of an internal path
  (`ReleasePlan.PlanIsReleasable`; `ReleasePlan.ReplaceIsRefused` is such a plan).
- The flag reorderer documents that tokens behind `--` stay positional, but it
  drops the `--` (`FlagOrder.DoubleDashIsForgotten`). Arguments that parse lose
  their meaning exactly when a `--` comes before every positional and protects a
  token with a dash (`FlagOrder.ReorderPreservesMeaning`).
- A usage sample for a bucket already flushed splits the bucket in two rows
  (`UsageReport.ReportNeedsPunctuality`); the next flush overwrites the stored
  row, and the report is right afterwards exactly when that row held nothing
  (`UsageFlush.LateFlushOverwrites`, `UsageFlush.LateFlushLoses`).
- A flush takes the closed buckets out of memory before it writes them: the
  report is right afterwards exactly when the store took all of them
  (`UsageFlush.FlushIsExact`).
- A live bucket has its key to itself exactly when its key prefix, agent and image
  hold no bar (`Usage.LiveKeyIsOwn`); the comment speaks of the window only.
- Texts of minutes sort as the minutes do from the year 0000 exactly up to the
  end of the year 9999 (`MinuteText.SortingIsExact`).
- An attempt behind a prune is safe exactly when it is for a time at most one
  nanosecond before the prune (`Hydration.SafeTimesAreExact`). A backfill reaches
  further: two hydrations of one job fire a key twice within the idempotency
  window (`PruneReplay.HydrationsRepeat`).
- A one-shot job is armed anew by every hydration, whatever its policy and whether
  or not it has fired: without a key, one that was missed is fired by the
  hydration and again by the first tick behind it (`OneShots.KeylessFiresAgain`);
  a key stands against that exactly for 24 hours (`OneShots.KeyedFiresOnce`).
- An owner keeps out of all others' episodic prefixes exactly when neither its
  scope nor its name holds a NUL (`Episodic.OwnersKeepApart`), against the comment
  on the prefix; over a whole log everybody reads only their own events exactly
  when no name in it holds one (`Episodic.RecentSeparates`). Behind a
  timestamp at the last 64-bit nanosecond the clock wraps around and the older
  event passes for the newest (`Episodic.WrapHidesNewest`).

## Model

| member | source | states |
|---|---|---|
| `Frame.IssueToken` | pkg/mesh/relay/token.go:44-59 | a token is refused exactly for a short secret or a ttl that is not positive; an issued one holds expiry, session id and MAC in that layout, and is valid exactly until its whole-second expiry |
| `Frame.IssuedAlive` | pkg/mesh/relay/token.go:48-58 | a positive ttl is not enough: the token issued is valid at its own issue exactly when now + ttl reaches a later second |
| `Frame.BornExpired` | pkg/mesh/relay/token.go:48-58 | a token issued half a second into a second for a quarter of one is never valid |
| `Frame.EncodeFrame` | pkg/mesh/relay/frame.go:37-44 | fills the frame buffer with magic, token, side and payload, byte for byte |
| `Frame.DecodeOfFrame` | pkg/mesh/relay/frame.go:37-60 | decoding what was encoded gives the envelope back |
| `Frame.FrameOfDecode` | pkg/mesh/relay/frame.go:46-60 | whatever decodes is, byte for byte, the encoding of what it decodes to |
| `RelayServer.NewServer` | pkg/mesh/relay/server.go:63-90 | refuses exactly short secrets, keeps every positive setting and the secret as given, and fills in 1310720 bytes a second, 4194304 bytes of burst and ten minutes of idle time |
| `RelayAdmission.AdmittedIsGenuine` | pkg/mesh/relay/server.go:127-132 | a datagram is admitted exactly when its bytes are the magic, a side, an expiry that has not come, a session id and the MAC of both under the secret, within 64 KiB; and it is cut up so |
| `RelayAdmission.ForgedIsDropped` | pkg/mesh/relay/server.go:118-132 | any other datagram is dropped: it leaves exactly the sessions of the eviction pass, and changes no counter but that of the drops |
| `RelayAdmission.WrongMacIsDropped` | pkg/mesh/relay/token.go:84-92 | so is a frame whose last 32 token bytes are not the MAC of the 24 before them |
| `RelayAdmission.GenuineIsAnswered` | pkg/mesh/relay/server.go:133-176 | a genuine datagram meets the session its id has after the eviction pass, or a new one with a full bucket; its source speaks if the side is free or its own; then an empty payload registers, and another is charged and forwarded to the other side exactly if the bucket holds it, that side is bound and the write succeeds; session, other sessions, counters and next eviction are as told |
| `RelayServer.Session.Allow` | pkg/mesh/relay/server.go:202-216 | the in-place token bucket charges exactly as the pure bucket does, refusals included |
| `RelayServer.Session.RouteDatagram` | pkg/mesh/relay/server.go:147-176 | binding, registration, quota and forwarding of one datagram, on the session object, as the pure step says |
| `RelayServer.Server.EvictStale` | pkg/mesh/relay/server.go:119-124 | the eviction loop removes exactly the stale sessions and keeps the gauge in step |
| `RelayServer.Server.Sweep` | pkg/mesh/relay/server.go:118-126 | the eviction pass runs only when due and leaves the state the pure eviction gives |
| `RelayServer.Server.Admit` | pkg/mesh/relay/server.go:133-146 | finds or opens the token's session, touching no other |
| `RelayServer.Server.Handle` | pkg/mesh/relay/server.go:117-176 | one turn of the loop on the session objects is one step of the state machine |
| `RelayServer.Server.Serve` | pkg/mesh/relay/server.go:95-177 | the loop over any datagrams is the run of the state machine, outcome by outcome |
| `RelaySafety.CountersBalance` | pkg/mesh/relay/server.go:109-176 | at every loop head received = forwarded + dropped + registered, and the gauge is the number of sessions |
| `RelaySafety.SessionsAreIsolated` | pkg/mesh/relay/server.go:118-146 | a datagram changes only the session of its own authentic token, and eviction judges each session alone |
| `RelaySafety.BindingsAreStable` | pkg/mesh/relay/server.go:149-157 | while a session lives, an address once bound to a side never changes |
| `RelaySafety.WritesAreAuthentic` | pkg/mesh/relay/server.go:127-175 | every write is the received datagram verbatim, non-empty; the MAC in its bytes is that of its expiry and id and the expiry has not come; it goes from the address bound to its side to the address bound to the other |
| `RelayThroughput.SentIsCounted` | pkg/mesh/relay/server.go:169-176 | the bytes counted as sent for an id are those by which genuine datagrams with that id move the forwarded-bytes counter |
| `RelayThroughput.RoutePays` | pkg/mesh/relay/server.go:161-175 | what one datagram forwards is paid for out of its session's bucket |
| `RelayThroughput.CleanupGivesNothing` | pkg/mesh/relay/server.go:118-146 | evicting an idle session and opening it anew grants no more credit than one continuous bucket |
| `RelayThroughput.StepPays` | pkg/mesh/relay/server.go:117-176 | over one turn credit falls by at least what the turn sends |
| `RelayThroughput.SentInWindow` | pkg/mesh/relay/server.go:117-176 | in any window an id sends at most burst + rate * length, evictions and re-creations included |
| `RelayQuota.QuotaIsExact` | pkg/mesh/relay/server.go:99-126 | the window bound holds for every run exactly when rate * (idle + 1ns) reaches the burst; otherwise a concrete run overdraws it |
| `RelayClient.AcceptIsExact` | pkg/mesh/relay/packetconn.go:128-148 | a packet is read exactly when it comes from the relay's address and port and what fits the buffer is, byte by byte, a frame with this token for the other side and a payload |
| `RelayClient.PacketConn.ReadFrom` | pkg/mesh/relay/packetconn.go:128-151 | returns the first packet the filter accepts, cut to the buffer, and consumes exactly the packets before it |
| `RelayClient.PacketConn.WriteTo` | pkg/mesh/relay/packetconn.go:153-161 | refuses exactly the frames over the datagram limit and otherwise sends one frame of the payload |
| `RelayClient.WrittenFrameIsRead` | pkg/mesh/relay/packetconn.go:128-161 | a peer's frame arrives whole exactly when the payload fits the buffer, and is silently cut otherwise |
| `RelayClient.ReadsComeFromThePeer` | pkg/mesh/relay/packetconn.go:128-151 | whatever is read off the relay's writes was framed with the same token for the opposite side, under a token valid when forwarded |
| `RelayClient.ForwardedPayloadIsRead` | pkg/mesh/relay/packetconn.go:128-161 | written, forwarded, read: the payload comes back exactly when it fits the buffer |
| `RelayQueue.QueueIsRead` | pkg/mesh/relay/packetconn.go:128-151 | whatever of the relay's writes arrive, in whatever order and however often: reading to the end returns exactly the payloads the peer framed for this reader, in order of arrival |
| `IndexedConfig.Validate` | pkg/soyapack/manifest.go:176-243 | accepts exactly the valid configurations |
| `IndexedConfig.BlankIsExact` | pkg/soyapack/manifest.go:176-243 | a text is blank exactly when trimming leaves nothing of it |
| `IndexedRows.MatchesColumnRules` | pkg/kernel/indexed_table.go:291-316 | a row passes exactly when it meets every rule |
| `IndexedRows.ContainsIsExact` | pkg/kernel/indexed_table.go:291-316 | a forbidden text is contained exactly when the value is something, that text, and something |
| `IndexedRows.ValidateBatch` | pkg/kernel/indexed_table.go:207-227 | one reply is rejected or filtered exactly as the reference says |
| `IndexedRows.BatchRowsSound` | pkg/kernel/indexed_table.go:207-226 | what a batch keeps is verbatim from the reply, of full width, without blank cells, within the rules and of the batch's partition |
| `IndexedRows.BatchRowsInPlace` | pkg/kernel/indexed_table.go:207-226 | a batch keeps the good rows of its partition, all of them, each as often and in the order it was received |
| `IndexedRows.RejectedForAMalformedRow` | pkg/kernel/indexed_table.go:212-222 | a batch is rejected exactly when a row that counts is too short, too long or has a blank cell |
| `IndexedRows.SelectIndexedRows` | pkg/kernel/indexed_table.go:331-351 | succeeds exactly on distinct in-range indices of the right number, and returns the rows they name |
| `IndexedInterleave.Partition` | pkg/kernel/indexed_table.go:261-274 | the buckets are the listed partitions in order, the rest are the other rows in order |
| `IndexedInterleave.AppendRound` | pkg/kernel/indexed_table.go:277-283 | one round appends the offset-th row of every bucket that has one, and reports whether any had |
| `IndexedInterleave.InterleaveIndexedPartitions` | pkg/kernel/indexed_table.go:257-289 | the loop computes the round-robin interleaving |
| `IndexedInterleave.InterleavingIsFair` | pkg/kernel/indexed_table.go:255-289 | a permutation that keeps the order inside each partition and of the rest, puts unlisted rows last, and in every prefix keeps listed partitions within one of each other unless exhausted, the earlier listed ahead |
| `WorkerPool.StepKeepsInv` | pkg/kernel/indexed_table.go:171-241 | every step of the dispatcher, a worker or a cancellation keeps the pool's invariant |
| `WorkerPool.SequentialIsInOrder` | pkg/kernel/indexed_table.go:242-252 | the sequential loop succeeds exactly when every batch does, and then the rows of each batch stand whole and in order behind those of the batches before it |
| `WorkerPool.NoDeadlock` | pkg/kernel/indexed_table.go:165-241 | until all have returned someone can move, or a call is outstanding that only cancellation ends |
| `WorkerPool.StepsDecrease` | pkg/kernel/indexed_table.go:171-241 | every step lowers a measure, so every schedule is finite |
| `WorkerPool.FinishedIsSequential` | pkg/kernel/indexed_table.go:242-252 | a finished pool that was not cancelled has filled every slot and holds the sequential loop's rows |
| `WorkerPool.EveryInterleaving` | pkg/kernel/indexed_table.go:153-253 | for every schedule: the calls made name no batch twice and only batches of the task, no deadlock, rows exactly the sequential ones, an error exactly when the loop fails unless interrupted from outside |
| `WorkerPool.RunPool` | pkg/kernel/indexed_table.go:153-253 | under any scheduler it returns rows only if they are the sequential loop's; it is not interrupted while the context lasts and all calls return, and then returns what the loop does; no batch is called twice, and each exactly once when rows are returned |
| `IndexedBatches.BatchesInRange` | pkg/kernel/indexed_table.go:156-192 | between 1 and 100 batches, and one per partition value in a first pass, so nothing is indexed out of range |
| `IndexedBatches.TargetsSumToCount` | pkg/kernel/indexed_table.go:179-182 | the batch targets are each at least one and sum to the count |
| `IndexedBatches.BatchesAreFull` | pkg/kernel/indexed_table.go:156-182 | every batch but the last asks for a full batch, and there are no more workers than configured or than batches |
| `IndexedBatches.BatchResultIsExact` | pkg/kernel/indexed_table.go:187-226 | a batch fails exactly on a failed call, an answer that is none or a malformed row among those that count; else it contributes the good ones, in a first pass over partitions only those of its own |
| `IndexedBatches.ExpandIndexedBatches` | pkg/kernel/indexed_table.go:153-253 | rows only if a sequential loop returns the same, nothing lost or reordered; no batch is called twice, each is when rows are returned, and at most 100 calls |
| `IndexedBatches.SequentialRowsSound` | pkg/kernel/indexed_table.go:212-226 | every expanded row comes from some batch, is good, and is of that batch's partition |
| `IndexedSupply.TopicOfTitle` | pkg/kernel/indexed_table.go:79 | however a title is spaced, its topic is its words with one space between them, in lower case |
| `IndexedSupply.UnseenIsFirsts` | pkg/kernel/indexed_table.go:77-84 | of the rows received exactly the first of each topic are kept, verbatim and in order |
| `IndexedSupply.SupplyIsUnique` | pkg/kernel/indexed_table.go:58-92 | at most one run of expansions supplies enough topics, and none beside one that ends without |
| `IndexedHandler.AddUnseen` | pkg/kernel/indexed_table.go:77-84 | the rows kept so far stay in front, no topic is kept twice, the topics kept are those before and those of the batch, and the rows are the first of each topic of all received |
| `IndexedHandler.Gather` | pkg/kernel/indexed_table.go:57-92 | returns the first rows of each topic that a run of needed expansions brings once they have the target number of topics; fails exactly when an expansion fails, or the repair budget ends with fewer topics, unless the expansion it needs next is disturbed; every row is from a call made, none made twice, at most 100 calls per round |
| `IndexedHandler.CheckCoverage` | pkg/kernel/indexed_table.go:107-118 | passes exactly when every partition has its minimum |
| `IndexedHandler.Select` | pkg/kernel/indexed_table.go:95-127 | returns the rows named by the first acceptable answer within the budget that no failed call precedes, and fails exactly when there is none; what is selected is publishable |
| `IndexedHandler.FirstTryPublishes` | pkg/kernel/indexed_table.go:57-127 | if the first expansion is left alone and brings rows of enough topics, and some selection within the budget is acceptable before any selection call fails, there is a table and nothing can disturb it |
| `IndexedHandler.Handle` | pkg/kernel/indexed_table.go:21-148 | nothing is emitted before everything is validated; an emitted table has exactly the target rows, each verbatim from the answer to a call this invocation made, distinct topics, partitions covered; at most 405 calls; undisturbed, a table is sent exactly when configuration, collecting and context allow it and some run of expansions and selection yields one, and it is that one |
| `CronMatches.AllMatchesExact` | pkg/scheduler/persist.go:353-374 | the listing is ascending and holds exactly the matching minute boundaries of the interval |
| `CronMatches.Split` | pkg/scheduler/persist.go:356-374 | the matches of an interval are those of its two parts, wherever it is cut |
| `CronMatches.Resume` | pkg/scheduler/persist.go:279-291 | the matches up to the k-th are exactly the first k |
| `CronMatches.CronMatchesBetween` | pkg/scheduler/persist.go:356-374 | the loop returns the first 10080 matches after from, up to and including to, in order |
| `Hydration.PruneIsInvisible` | pkg/scheduler/persist.go:314-349 | pruning at now never changes an answer about w, whatever is stored, exactly when w >= now - 1ns |
| `Hydration.FiresAreSpaced` | pkg/scheduler/persist.go:261-349 | when no attempt reaches behind a prune, fires under one key are 24h apart, across jobs and across missed and live fires |
| `Hydration.SuppressionIsExact` | pkg/scheduler/persist.go:261-327 | after any events with no attempt behind a prune, a fire is suppressed exactly if its key is not empty and was last fired for a time less than 24 hours before, or later |
| `Hydration.SafeTimesAreExact` | pkg/scheduler/persist.go:157-160 | an attempt for w behind a prune at p keeps all fires of a key 24h apart, whoever fired before and whenever, exactly when w >= p - 1ns |
| `PruneReplay.HydrationsRepeat` | pkg/scheduler/persist.go:143-254 | two uncut hydrations of one backfill job, at hours 100 and 200 of the calendar, fire its key for hours 100 and 110 |
| `Backfill.OwnTurn` | pkg/scheduler/persist.go:231-254 | a keyless backfill job's turn, cut after any attempt, advances its log and its last fire together |
| `Backfill.BackfillIsExact` | pkg/scheduler/persist.go:143-198 | over any sequence of hydrations, each cut anywhere, a keyless backfill job has fired exactly the matches up to its recorded last fire, once each and in order |
| `Backfill.CatchesUp` | pkg/scheduler/persist.go:231-254 | an uncut hydration leaves nothing due behind exactly when nothing was due, or the job has a handler, no malformed job ends the hydration before it, and at most 10080 matches were missed |
| `OnceReplay.OnceIsIdempotent` | pkg/scheduler/persist.go:207-230 | a once or one-shot job hydrated twice at the same instant fires nothing the second time, whatever the other jobs are, malformed ones included |
| `MissedFires.OnceIsTriedOnce` | pkg/scheduler/persist.go:203-230 | a once or one-shot job with a handler is attempted once, for now, exactly if a whole minute its schedule matches lies after its last fire, or within 24 hours if there was none; a one-shot exactly if its time is past and it never fired |
| `MissedFires.BackfillIsTriedEach` | pkg/scheduler/persist.go:231-254 | a backfill job is attempted for the first 10080 such minutes, in order |
| `MissedFires.TurnIsExact` | pkg/scheduler/persist.go:167-196 | a job has its turn exactly when no job with a smaller id has a handler and a cron text that does not parse |
| `MissedFires.OwnTurnDecides` | pkg/scheduler/persist.go:143-198 | over a whole uncut hydration a job with a turn is left as its own turn leaves it, whatever the other jobs do |
| `MissedFires.OnceIsFired` | pkg/scheduler/persist.go:207-230 | an uncut hydration fires a once or one-shot job for now and records it, exactly if it has a handler and its turn, something was missed and its key does not suppress it; else it leaves the job alone |
| `MissedFires.BackfillIsFired` | pkg/scheduler/persist.go:231-254 | an uncut hydration fires a keyless backfill job for each of the first missed minutes, in order, and records the last, also when it never fired before |
| `MissedFires.SkippedIsLeft` | pkg/scheduler/persist.go:203-206 | jobs under the skip or empty policy, under an unknown one if they have a cron text, or without a handler are neither fired nor changed |
| `Scheduler.TimeWheel.Add` | pkg/scheduler/scheduler.go:77-93 | adds exactly the jobs with a schedule that parses or a run time, armed afresh |
| `Scheduler.TimeWheel.Cancel` | pkg/scheduler/scheduler.go:96-101 | removes the job, if there |
| `Scheduler.TimeWheel.Tick` | pkg/scheduler/scheduler.go:122-142 | starts exactly the due jobs; a one-shot started once is never due again until added anew |
| `Scheduler.StartedByTick` | pkg/scheduler/scheduler.go:122-142 | over any run of ticks a one-shot just added is started by exactly the first tick not before its time, a cron job by every tick its schedule matches |
| `Scheduler.Loader.SavePersistent` | pkg/scheduler/persist.go:70-89 | stores the job under its id with the given policy, skip by default |
| `Scheduler.Loader.DeletePersistent` | pkg/scheduler/persist.go:93-98 | forgets the job |
| `Scheduler.Loader.DedupSeen` | pkg/scheduler/persist.go:314-327 | seen exactly when the stamp parses and is younger than the window |
| `Scheduler.Loader.PruneDedup` | pkg/scheduler/persist.go:333-349 | deletes exactly the stamps older than the window |
| `Scheduler.Loader.TryFire` | pkg/scheduler/persist.go:261-292 | fires, stamps and records the last fire, or does nothing when suppressed |
| `Scheduler.Loader.LiveFire` | pkg/scheduler/persist.go:297-310 | a live fire honours and renews the stamp and leaves the last fire alone |
| `Scheduler.Loader.FireEach` | pkg/scheduler/persist.go:242-254 | attempts in order with a pause between, ended by a cancelled context at the first pause it no longer allows |
| `Scheduler.Loader.ApplyMissedFire` | pkg/scheduler/persist.go:203-256 | tries exactly what the job's policy plans, in order; the plan is what OnceIsTriedOnce, BackfillIsTriedEach and SkippedIsLeft tell |
| `Scheduler.Loader.HydrateJob` | pkg/scheduler/persist.go:167-196 | a job's turn: its missed fires, then its place in the wheel |
| `Scheduler.Loader.LoadFromStore` | pkg/scheduler/persist.go:143-198 | prunes, then turns to the jobs in key order until one fails or the context is cancelled; the wheel holds what the jobs so far have put there |
| `Scheduler.LoadedWheel` | pkg/scheduler/persist.go:143-198 | a hydration that ends well has armed exactly the stored jobs with a handler and a cron text that parses or a run time, unfired and with the parsed text, and left the rest of the wheel alone |
| `Scheduler.HydrationIsPrefix` | pkg/scheduler/persist.go:143-198 | what a hydration did is a beginning of its agenda, all of it when it ends well |
| `OneShots.KeylessFiresAgain` | pkg/scheduler/persist.go:207-218 | a keyless one-shot job is fired by the hydration if it was missed, and in any case by the first tick behind it that is not before its time |
| `OneShots.KeyedFiresOnce` | pkg/scheduler/persist.go:261-310 | after a hydration fired a keyed one-shot job that tick fires it again exactly if it is 24 hours later |
| `Cron.ParseField` | pkg/scheduler/cron.go:31-52 | accepts exactly a star or a list of in-range integers, and returns the set they list |
| `Cron.MeaningfulIsExact` | pkg/scheduler/cron.go:31-52 | a field means something exactly when it is a star or each part between commas is an integer in range |
| `Cron.AtoiIsNumeral` | pkg/scheduler/cron.go:41-45 | only a numeral, perhaps behind one sign, is read as an integer |
| `Cron.ParseCron` | pkg/scheduler/cron.go:54-77 | accepts exactly five meaningful fields |
| `Cron.SpecIsUnique` | pkg/scheduler/cron.go:54-77 | a cron text means at most one schedule |
| `Cron.ParseOfLine` | pkg/scheduler/cron.go:31-77 | writing five fields and reading them back gives the sets written |
| `Cron.LineMatches` | pkg/scheduler/cron.go:23-29 | whatever a written line is read as matches an instant exactly when every field admits it, at second zero |
| `JsonText.UnquoteOfEscaped` | pkg/artifact/snapshot.go:287-319 | reading an escaped string back gives the string and what followed it |
| `JsonText.EscapeIsShortest` | pkg/artifact/snapshot.go:284-319 | of the spellings of a character that section 7 of RFC 8259 allows the shortest is written |
| `JsonParse.ValueRoundTrip` | pkg/artifact/snapshot.go:76-229 | parsing a canonical text with anything behind it recovers the value and the rest |
| `JsonParse.ParseOfEncode` | pkg/artifact/snapshot.go:76-229 | the canonical encoding is uniquely decodable |
| `JsonParse.EncodeInjective` | pkg/artifact/snapshot.go:76-229 | equal bytes mean equal values |
| `SnapshotEncoder.Builder.EncodeJSONString` | pkg/artifact/snapshot.go:287-319 | appends the quoted, minimally escaped string |
| `SnapshotEncoder.EncodeCanonical` | pkg/artifact/snapshot.go:76-165 | appends exactly the canonical text of what the value denotes, or fails exactly when it denotes nothing; EqualBytes tells on the values what that keeps apart |
| `SnapshotEncoder.EncodeElements` | pkg/artifact/snapshot.go:136-147 | an array is the canonical texts of its elements in order |
| `SnapshotEncoder.EncodeMap` | pkg/artifact/snapshot.go:170-198 | a map, whatever its iteration order, is its canonical object |
| `SnapshotEncoder.CollectStructFields` | pkg/artifact/snapshot.go:237-271 | collects the exported, untagged-away, non-omitted fields, embedded structs inlined, in declaration order |
| `SnapshotEncoder.ReadTag` | pkg/artifact/snapshot.go:244-260 | reads skip, name and omitempty off a tag |
| `SnapshotEncoder.EncodeStruct` | pkg/artifact/snapshot.go:211-229 | a struct is the canonical object of its collected fields |
| `SnapshotEncoder.OrderOfEntries` | pkg/artifact/snapshot.go:176-196 | two entry lists that agree key by key denote the same object, whatever their order |
| `MapOrder.OrderLeavesNoTrace` | pkg/artifact/snapshot.go:76-229 | two values that are the same up to the iteration order of maps at any depth get the same canonical bytes or are refused together |
| `MapOrder.PermutedEntries` | pkg/artifact/snapshot.go:176-196 | any two iterations of a map count as the same value |
| `SnapshotEncoder.StructIsMap` | pkg/artifact/snapshot.go:200-229 | a struct with distinct member names gets the bytes of the equivalent map |
| `SnapshotEncoder.PlainStructIsMap` | pkg/artifact/snapshot.go:200-271 | an untagged struct gets the bytes of the map from its field names to their values |
| `SnapshotEncoder.SameBytes` | pkg/artifact/snapshot.go:59-66 | two snapshots get the same bytes exactly when they denote the same value |
| `SnapshotEncoder.CanonicalBytes` | pkg/artifact/snapshot.go:59-66 | the bytes to be hashed are the canonical text, parse back to the value, and are refused exactly when there is none |
| `SnapshotValues.IntIsRead` | pkg/artifact/snapshot.go:105-110 | an integer's text is read back as it, sign included |
| `SnapshotValues.SameIntegers` | pkg/artifact/snapshot.go:105-110 | two integers get the same bytes exactly when they are the same |
| `SnapshotValues.EqualBytes` | pkg/artifact/snapshot.go:76-229 | a value gets bytes exactly when nothing it writes is a channel, function, complex number, map with other keys than strings, or float that is not finite; two values get the same bytes exactly when they are equal: all nils one null, booleans, texts and integers by value, a float by its text, which may be an integer's, lists element by element, maps and structs member by member in no order |
| `SnapshotValues.TagMeans` | pkg/artifact/snapshot.go:244-271 | a tag names the member by its first part unless that is empty, leaves it out if that is a dash, and with omitempty among the rest leaves out empty values; an embedded struct lends its own members |
| `SnapshotValues.EmptyIsZeroOrBare` | pkg/artifact/snapshot.go:273-282 | empty is the zero value of the value's own type, and a slice or map without elements |
| `SemVer.ParseOfRender` | scripts/module_release.py:128-137 | a rendered version is read back as itself |
| `SemVer.KeyOrderIsPrecedence` | scripts/module_release.py:140-148 | the key order is the precedence of item 11 of SemVer 2.0.0 |
| `SemVer.NotNewer` | scripts/module_release.py:341-342 | no version is newer than itself |
| `SemVer.BumpIncreases` | scripts/module_release.py:151-166 | every bump at a known level succeeds, is readable again and is strictly newer |
| `SemVer.BumpMeans` | scripts/module_release.py:151-166 | a release is bumped to the least release with a larger major number, the least newer one with a larger major or minor number, or the least newer one, as the level says; a pre-release keeps its numbers and has its last identifier counted up or a 1 added; an unknown level fails for releases only |
| `CommitLog.BumpLevelIsExact` | scripts/module_release.py:169-175 | major exactly when the log holds a line that begins with a word, perhaps a scope, and !:, or the words BREAKING CHANGE:; otherwise minor exactly when a line begins with feat, perhaps a scope, and a colon |
| `CommitLog.BumpLevelOfText` | scripts/module_release.py:169-175 | the same on the text itself: major exactly when the log is something that ends a line, a word, perhaps a scope, !: and a rest, or holds BREAKING CHANGE:; else minor exactly when it is such a beginning, feat, perhaps a scope, a colon and a rest |
| `ReleaseGraph.TopologicalOrder` | scripts/module_release.py:178-195 | the loop over ready modules computes the layered order, or fails |
| `ReleaseGraph.TopologicalOrderIsExact` | scripts/module_release.py:178-195 | fails exactly when some dependencies among the selected modules run in a cycle; otherwise lists each selected module once, behind all its dependencies that are selected |
| `ReleaseGraph.Reverse` | scripts/module_release.py:201-204 | the reversed graph |
| `ReleaseGraph.ReverseDependencyClosure` | scripts/module_release.py:198-216 | the least closed superset of the changed modules, with reasons one per affected dependency |
| `ReleaseGraph.ClosureIsIdempotent` | scripts/module_release.py:367-370 | the closure of a closure is itself |
| `ReleasePlan.BuildPlan` | scripts/module_release.py:252-294 | a plan of the closure of the modules with changed files, in dependency order, each one bump further; fails exactly on a bad tree, a version without its tag, or a cycle |
| `ReleasePlan.SomeFileChanged` | scripts/module_release.py:230-236 | a module counts as changed exactly when its diff names a file other than go.sum |
| `ReleasePlan.CountsIsExact` | scripts/module_release.py:230-236 | a line of a diff counts exactly when it is not empty, not go.sum and does not end in /go.sum |
| `ReleasePlan.NextVersions` | scripts/module_release.py:268-275 | each planned module is bumped at its level, and no other |
| `ReleasePlan.PlannedVersions` | scripts/module_release.py:268-275 | a planned module that changed is bumped at the level of its commits, one that only depends on it by a patch |
| `ReleasePlan.Checkout.ApplyPlan` | scripts/module_release.py:297-316 | editing in place gives the applied tree |
| `ReleasePlan.ApplyToModule` | scripts/module_release.py:302-315 | each planned module, and no other, is edited once, from its original |
| `ReleasePlan.ApplyToVersions` | scripts/module_release.py:315-316 | the manifest gets exactly the planned versions |
| `ReleasePlan.ManifestChanges` | scripts/module_release.py:319-358 | bootstrap exactly without a manifest at the base; otherwise reports exactly the changed modules in order when every change advances, and fails exactly otherwise |
| `ReleasePlan.ChangesMean` | scripts/module_release.py:319-358 | a report has one item for each module whose version is not what it was and no other; both manifests name it and its old version precedes its new one |
| `ReleasePlan.ValidatePendingRelease` | scripts/module_release.py:361-392 | accepts exactly closed sets whose requirements match and that replace nothing internal |
| `ReleasePlan.RefusedWhen` | scripts/module_release.py:361-392 | a release is refused when a module requiring a released one is missing, when a requirement lags behind, and when a released module replaces one of the workspace |
| `ReleasePlan.PlanIsReported` | scripts/module_release.py:297-358 | every applied plan passes the manifest check and is reported item by item |
| `ReleasePlan.PlanIsReleasable` | scripts/module_release.py:297-392 | an applied plan passes the release check exactly when no planned module replaces an internal path |
| `ReleasePlan.ReplaceIsRefused` | scripts/module_release.py:252-392 | a module that replaces its requirement by a local directory can be planned and applied, and is then refused |
| `Keys.PutUvarint` | pkg/store/store.go:55-65 | fills the header buffer with the varint, within its ten bytes |
| `Keys.CompositeKey` | pkg/store/store.go:55-79 | the loop builds the length-prefixed key |
| `Keys.SplitKeyOfKey` | pkg/store/store.go:55-79 | composite keys are uniquely decodable for any number of parts |
| `Keys.KeyInjective` | pkg/store/store.go:55-79 | different part lists have different keys |
| `StateStore.BoltStore.Get` | pkg/state/state.go:108-126 | returns exactly the cell of the triple, or the error |
| `StateStore.BoltStore.Put` | pkg/state/state.go:128-161 | the versioned write on the abstract map, errors included |
| `StateStore.BoltStore.CompareAndSwap` | pkg/state/state.go:167-220 | the conditional write on the abstract map, conflicts included |
| `StateStore.BoltStore.Delete` | pkg/state/state.go:222-230 | removes the triple's cell and nothing else |
| `StateStore.BoltStore.List` | pkg/state/state.go:236-259 | the wanted entries in key order |
| `StateStore.BoltStore.ListIsExact` | pkg/state/state.go:236-259 | exactly the abstract cells of the scope and owner with the prefix, each once, in the byte order of their composite keys |
| `StateStore.VersionCountsWrites` | pkg/state/state.go:128-220 | a version is the number of successful writes since creation or the last delete |
| `StateStore.SuccessIsExact` | pkg/state/state.go:128-220 | a write of any history succeeds exactly when its scope is known and, for a compare-and-swap, its base is the number of successful writes since the triple was absent |
| `StateStore.LastWriteWins` | pkg/state/state.go:128-220 | what a triple holds is the value of the last successful write to it |
| `StateStore.CasExcludesCas` | pkg/state/state.go:167-220 | two compare-and-swaps with one base never both succeed without a delete in between |
| `StateStore.WritesAreIndependent` | pkg/state/state.go:128-230 | a write to one triple leaves all others as they were |
| `Episodic.BoltEpisodic.Append` | pkg/memory/episodic.go:65-83 | the record goes behind all earlier ones, at its own time or one nanosecond after the last, which wraps around exactly at the last 64-bit nanosecond |
| `Episodic.BoltEpisodic.Recent` | pkg/memory/episodic.go:87-116 | the newest n of whatever the prefix lists, by clock; with NUL-free scopes and owners and no wrap, the last n events of the pair, newest first |
| `Episodic.NewestAreLast` | pkg/memory/episodic.go:108-116 | an answer holds the last events, as many as asked for or there are, from the last one back |
| `Episodic.ByteOrderIsClockOrder` | pkg/memory/episodic.go:119-127 | for non-negative clocks the byte order of keys is the clock order |
| `Episodic.PrefixSelectsPair` | pkg/memory/episodic.go:129-134 | without NULs a prefix selects exactly its own pair's keys |
| `Episodic.NulOwnersLeak` | pkg/memory/episodic.go:129-134 | an owner with a NUL reaches into another owner's prefix |
| `Episodic.OwnersKeepApart` | pkg/memory/episodic.go:129-134 | no NUL-free pair's prefix but their own matches an owner's keys, exactly when scope and owner hold no NUL |
| `Episodic.RecentSeparates` | pkg/memory/episodic.go:87-134 | over any log, every NUL-free reader asking for any number of events is answered with its own, newest first, exactly when no scope and no owner in the log holds a NUL |
| `Episodic.WrapHidesNewest` | pkg/memory/episodic.go:70-75 | after an append past the last 64-bit nanosecond the older of two events is answered as the newest |
| `BigEndian.OrderPreserved` | pkg/memory/episodic.go:123-125 | big-endian texts of equal length compare as their numbers |
| `Usage.TotalIsFieldwise` | pkg/scope/usage_aggregator.go:86-93 | each field of a bucket's total is the sum of that field over its samples, byte counts as 64 bits hold them |
| `Usage.LiveKeyInjective` | pkg/scope/usage_aggregator.go:184-189 | keys and agents without a bar never share an in-memory bucket |
| `Usage.LiveKeyIsOwn` | pkg/scope/usage_aggregator.go:184-189 | no other bucket has a bucket's in-memory key exactly when its key prefix, agent and image hold no bar |
| `Usage.MatchesIsSelects` | pkg/scope/usage_aggregator.go:191-217 | within four-digit years comparing rendered minutes decides the time bounds |
| `MinuteText.RenderMeetsRfc3339` | pkg/scope/usage_aggregator.go:203-215 | the text written for a minute sorts as the minute and holds no bar, for every minute of the years 0000 to 9999 |
| `MinuteText.SortingIsExact` | pkg/scope/usage_aggregator.go:197-215 | from the year 0000 to before minute t, byte order of texts is time order exactly when t is no later than the end of the year 9999 |
| `MinuteText.CivilCounts` | pkg/scope/usage_aggregator.go:76 | the calendar begins at midnight on the first of January of the year 1, and each minute is followed by the next of a Gregorian calendar |
| `MinuteText.RenderReads` | pkg/scope/usage_aggregator.go:76 | the text of a minute of a four-digit year holds its year, month, day, hour and minute, each in its column |
| `UsageLedger.TickKeepsTallies` | pkg/scope/usage_aggregator.go:75-94 | a sample in time is counted in its bucket, once |
| `UsageLedger.FlushKeepsTallies` | pkg/scope/usage_aggregator.go:103-129 | a successful flush loses nothing and counts nothing twice |
| `UsageReport.QueryIsReport` | pkg/scope/usage_aggregator.go:135-174 | a query is the filtered, sorted, grouped sum of everything ticked, one row per bucket |
| `UsageReport.WantedIsReported` | pkg/scope/usage_aggregator.go:135-217 | a report has a row for every sample within the bounds, key, agent and image asked for |
| `UsageReport.ReportedIsWanted` | pkg/scope/usage_aggregator.go:135-217 | and each of its rows is the total of the bucket of such a sample |
| `UsageReport.ReportIsComplete` | pkg/scope/usage_aggregator.go:135-174 | while every row held is right, the answer is the report exactly when no selected bucket is missing |
| `UsageReport.ReportNeedsPunctuality` | pkg/scope/usage_aggregator.go:75-174 | right after a sample the query is such a report exactly when the sample's bucket was not yet persisted |
| `UsageFlush.FlushReports` | pkg/scope/usage_aggregator.go:103-129 | after a flush a query is the report exactly when it asks for none of the rows the store did not take |
| `UsageFlush.FlushIsExact` | pkg/scope/usage_aggregator.go:103-129 | after a flush the report of everything is right exactly when the store took as many rows as there were closed buckets |
| `UsageFlush.LateFlushOverwrites` | pkg/scope/usage_aggregator.go:75-129 | flushing a bucket that started over replaces its stored total by what came since |
| `UsageFlush.LateFlushLoses` | pkg/scope/usage_aggregator.go:75-174 | after that flush a query that selects the bucket is the report exactly when the row it replaced held nothing |
| `UsageAggregator.Aggregator.Tick` | pkg/scope/usage_aggregator.go:75-94 | accumulates the sample in its live bucket |
| `UsageAggregator.Aggregator.Flush` | pkg/scope/usage_aggregator.go:103-129 | takes exactly the closed buckets out of memory and writes as many as the store takes; succeeds exactly when it takes them all |
| `UsageAggregator.Aggregator.Query` | pkg/scope/usage_aggregator.go:135-174 | over any punctual run of ticks and flushes the answer is the report, for bounds in four-digit years |
| `FlagOrder.ReorderForFlagSet` | cmd/soyaos/flagorder.go:30-76 | the index loop lifts flags with their values in front of the positionals |
| `FlagOrder.ReorderPreservesMeaning` | cmd/soyaos/flagorder.go:11-29 | parsing the reordered arguments gives what an order-free parser gives, exactly unless the arguments parse and a -- before every positional protects a dash, or they end in a flag without its value and hold a positional |
| `FlagOrder.WrittenIsUnderstood` | cmd/soyaos/flagorder.go:11-29 | the order-free parser understands a line as it was written: flags alone, joined or apart from their values, with one dash or two, among positionals, and everything behind -- as positional |
| `FlagOrder.WrittenIsParsed` | cmd/soyaos/flagorder.go:11-76 | reordered, a written line without -- is parsed to the flags and positionals written |
| `FlagOrder.FirstErrorDecides` | cmd/soyaos/flagorder.go:11-29 | the first flag that is unknown, lacks its value or has one that is refused fails with that error, after the flags before it were set |
| `FlagOrder.DoubleDashIsForgotten` | cmd/soyaos/flagorder.go:22-45 | a token protected by -- becomes a flag again, because the -- is dropped |
| `FlagOrder.SplitIsStable` | cmd/soyaos/flagorder.go:29-76 | both groups keep the order of the arguments |
| `FlagOrder.SplitConserves` | cmd/soyaos/flagorder.go:30-76 | no token is lost, added or changed but for one -- |

## Left out

- WorkerPool.RunPool: steps of dispatcher and workers are atomic; a call that never returns unless cancelled is allowed, and is then ended by the timeout.
- SnapshotEncoder.EncodeCanonical: says nothing of a struct two of whose collected members share a name; the source sorts such members with an unstable sort.
- SnapshotEncoder.CanonicalBytes: says nothing of such structs either; the hash taken of the bytes is left out.
- SnapshotEncoder.EncodeMap: asks nothing of its entries, but promises its text only for distinct keys, which every Go map has.
- UsageAggregator.Aggregator.Flush: the store fails only after a number of writes that the caller names, and writes the closed rows in whatever order the map gives them.
- Usage.MatchesIsSelects: asks for minutes of the years 0000 to 9999, outside which texts do not sort as times; so do the tallies and the reports.
- Usage.LiveKeyIsOwn: asks that the key fits a Go string, as any key does that was ever built.
- Hydration.FiresAreSpaced: fires under one key run one at a time; two live fires racing between reading and writing the stamp are not modelled.
- Backfill.BackfillIsExact: a hydration is cut only between completed attempts; a crash between a callback and the write of its last fire repeats that fire. A job that has never fired looks back one window only; `MissedFires.BackfillIsFired` covers its first hydration.
- The cron parser in a hydration is a parameter (`Hydration.Env`); `Cron` proves what the source's parser accepts and what its schedules match.
- One-shot jobs: what hydration and the first tick behind it do is proved; further ticks of one wheel and later restarts follow from `Scheduler.StartedByTick` and the same lemmas, no count over whole lives is claimed.
- Store failures other than those of the usage flush, undecodable stored entries, and nil stores: entries encode and decode to themselves.
- Floating point: bucket tokens are exact, in units of byte-nanoseconds; vCPU and GPU seconds are reals; a float in a snapshot is given by the shortest decimal text that `strconv` prints for it, any text of digits, sign, point and exponent.
- Cryptography: the MAC is any function of secret and message, the hash of the canonical bytes is left out, random session ids are an input.
- Calendars: the scheduler's reading of an instant as minute, hour, day, month and weekday is a parameter; `PruneReplay` gives the Gregorian one.
- Providers: any function from calls to replies; JSON decoding of their replies, prompts, logging and the timeout's clock are left out.
- Socket and context errors of the relay loop, UDP address cloning of other address types beyond leaving the side unbound, and the health handler.
- Process calls of the release tool: the module tree, the existing tags, the diffs, the commit logs and the previous manifest are inputs; pushing tags is left out.
- Concurrency of the state store and the episodic log: each operation is atomic under its mutex.
- Unicode case folding of titles is a parameter.
- Registries, other manifest checks, HTTP, rendering, authentication and configuration loading: they would only add single-branch facts.
