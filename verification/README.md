# MORI verification model

A Dafny model of the parts of MORI whose correctness does not show in any one function, with
proofs of what they promise. Check everything with `dafny verify dfyconfig.toml`.

| component | modules |
|---|---|
| Hash-chained action audit log: hashing, verification, logging across restarts and failed appends | `AuditChain`, `HashEncoding`, `AuditLog`, `AuditAppend`, `AuditRace`, `AuditContent` |
| Unified worker: leader election among processes, due-time scheduling | `LeaderElection`, `Scheduler` |
| Ingestion: host merge in memory and in SQL, repository, retrying poll cycle, sync bookkeeping | `OrderedDict`, `Hosts`, `Repository`, `Poller` |
| Time-based state: query-service cache, rate limiter, login sessions | `QueryCache`, `RateLimit`, `Sessions` |
| Code-scan script: batching files, merging the reported personal-data flows | `Chunking`, `OrderedDedup`, `MergeFlow` |
| Recursive checks: JSON Schema subset, host alias collection, account reconciliation | `Json`, `SchemaCheck`, `HostAliases`, `AccountRecon` |

Code that changes things in place is modelled by classes and methods (`AuditLogger`,
`WorkerProcess`, `Worker`, `InMemoryRepository`, `HostTable`, `ServiceGetter`, `RateLimiter`,
`PersistentSessionDict`, `Checker`, `AliasList`, and the looping methods), each proved against a
function of its state; the theorems are about those functions over whole runs. Clock readings,
environment settings, lock answers, store outcomes and library text functions are inputs.

One assumption is made about the digest: `CollisionFree(h)` says that distinct (previous hash,
fields) have distinct hashes and no hash is the literal `GENESIS`. It is a `requires` of the
theorems that need it, and `HashEncoding.AssumptionSatisfiable` shows that it can be met.

## Where the code and its promises part

Each point is a theorem with the exact condition, or a concrete run.

- A stored audit log does not verify. The time stamp is hashed as the text `_log_action` writes,
  ending in `Z`; the table keeps it as a timestamp and reads it back with an offset, and the verify
  route hashes that. Read-back rows verify exactly when they are linked and every stamp keeps its
  text (`AuditLog.StoredLogVerifiesIff`, `RouteOkIff`), so with stamps ending in `Z` and an offset
  read back, no non-empty stored log does (`RenderedLogNeverVerifies`).
- The inserted rows themselves stop being a chain as soon as an append that failed is followed, in
  the same process and with a non-empty table, by one that succeeds (`AuditLog.InsertedRowsVerifyIff`).
- After a boot that could not read the head, appends are dropped for their taken numbers until the
  process has logged as many entries as there are rows; the next one breaks the chain, unless the
  last entry dropped is the last row over again (`AuditAppend.UnreadHeadKeepsIntactIff`). For any
  run, the table stays linked exactly while every stored entry fits the table it finds
  (`AuditAppend.StaysIntactIff`).
- `_log_action` takes no lock, and threads can disturb each other. Memory verifies exactly when every
  entry it keeps, but the first, was made for an entry equal to the one that came to stand before it
  (`AuditRace.RacedMemoryVerifiesExactly`). In the table, the second of two entries made for the same
  last one is dropped for its number without any failure, and the next call, which links to it, breaks
  the chain unless the two are the same (`LostEntryBreaksTable`); over every interleaving the table
  stays linked exactly while every stored entry fits it (`RacedRowsLinkedIff`).
- "Only one leader polls" holds without session loss and lock fallback. With two or more workers it
  can be relied on from a state onwards exactly when no live winner has lost its session and nobody
  runs without the lock (`LeaderElection.OnePollerAheadIff`, `SessionLossGivesTwoPollers`).
- The two host merges agree exactly while no save overwrites a stored string with an empty one
  (`Hosts.BackendsAgreeIff`).
- The session store's documentation says a stale `last_seen` does not affect validity. The code's
  idle rule reads it, and the stored one is the login time: after a restart a session is accepted
  exactly while its login is no longer ago than either lifetime, however active it was
  (`Sessions.RestartKeepsIff`, `RestartCutsShort`). A session that is live is never accepted longer for
  a restart (`RestartNeverLengthens`); one that a boot without the table had dropped comes back, under
  the same condition, with the next boot that reads it.
- A logout is final unless an unexpired row stays behind: because the delete fails, or because the
  process could not read the table at boot, does not know the token and does not try
  (`Sessions.LogoutIsFinalIff`, `UnknownTokenLogout`).
- Waiting out `Retry-After` does not ensure admission (`RateLimit.PunctualRetryMayBeRejected`).
- With several threads a call can get an older snapshot than an earlier call got through the cache,
  but only once a thread has stored over a newer snapshot than its own (`QueryCache.SlotForwardIff`,
  `LaterCallsNoOlder`, `StaleStoreIsSeen`, `OlderSnapshotMayReturn`), which takes two calls that are
  between miss and store at the same time (`SeparateMissesNeverGoBack`). Answers of calls with the
  cache switched off are newer than the cache without any of that (`BypassOutrunsCache`).
- `merge_flow` is associative around a flow exactly when, for each name, the last of its reports there
  is what merging them one after the other gives (`MergeFlow.MergeAssociativeIff`): for unique names
  always, for a name reported twice when the second report covers the first (`UniqueNamesSuffice`,
  `RepeatedNameSufficesIff`).
- The schema checker ignores other types, misplaced keywords and Python's `True == 1`
  (`SchemaCheck.TypeExactIff`, `UntypedObjectExactIff`, `UntypedPropertiesExactIff`,
  `UntypedArrayExactIff`, `EnumExactIff`).
- An account without a host type is listed as on a server, but its host is not counted as one
  (`AccountRecon.ServersShownIff`).

A corner that the only caller does not reach: `verify_audit_chain` reports ok when the first broken
entry carries no `seq` (`AuditChain.VerdictExact`, `UnnumberedTamperingPasses`). Logged entries and
table rows always carry one.

## Model

| member | source | states |
|---|---|---|
| AuditChain.VerifyAuditChain | src/mori_soc/api/server.py:228-247 | The loop returns the verdict on the whole list, stopping at its first bad entry; what that verdict means is VerdictExact, BrokenAtFirst and VerdictCounts |
| AuditChain.VerdictCounts | src/mori_soc/api/server.py:245-247 | The verdict has the number of entries and the hash of the last one, GENESIS when there is none |
| AuditChain.BrokenAtFirst | src/mori_soc/api/server.py:236-243 | `broken_at` is the `seq` of the first entry with a wrong hash or link |
| AuditChain.VerdictExact | src/mori_soc/api/server.py:234-247 | ok exactly when every entry is good or the first bad one has no `seq` |
| AuditChain.NumberedVerdict | src/mori_soc/api/server.py:228-247 | On entries that carry `seq`, ok is integrity |
| AuditChain.UnnumberedTamperingPasses | src/mori_soc/api/server.py:239-247 | A wrong hash on an entry without `seq` is reported as ok |
| AuditChain.LinksToPredecessorOnly | src/mori_soc/api/server.py:217-225 | Inside a logged chain an entry links to another exactly when it is its successor |
| AuditChain.PickVerifiesIffConsecutive | src/mori_soc/api/server.py:228-247 | Any selection of a logged chain by index, with gaps, repeats or reordering, verifies iff the indices are consecutive: every interior deletion, swap or duplication is caught |
| AuditChain.RootHashCommits | src/mori_soc/api/server.py:217-247 | Two numbered lists that verify with the same root hash agree backwards: the shorter is a suffix of the longer |
| HashEncoding.AssumptionSatisfiable | src/mori_soc/api/server.py:217-225 | A collision-free function of (previous hash, five fields) that never yields GENESIS exists |
| AuditLog.AuditTable.Append | src/mori_soc/repositories/state_postgres.py:508-514 | An available store inserts the entry unless its `seq` is taken; an unavailable one changes nothing. The stamp is kept as an instant: its text is what reading makes of it (AuditTable.Load) |
| AuditLog.AuditTable.Load | src/mori_soc/repositories/state_postgres.py:516-526 | The last `limit` rows (at least one) in ascending order, each with its stamp rendered anew |
| AuditLog.AuditLogger.constructor | src/mori_soc/api/server.py:470-475 | Boot is the Restart step: empty memory, head from the latest row or empty when the read failed |
| AuditLog.AuditLogger.LogAction | src/mori_soc/api/server.py:477-505 | One logged action is the Log step, over memory, head and table, whether or not the append reaches the table; the last entry in memory carries the time, user, action and detail passed, and at most 2000 are kept |
| AuditLog.MemoryAlwaysVerifies | src/mori_soc/api/server.py:470-505 | In every run of one call after another, with any failed appends and head reads, memory is the last min(n, 2000) of the n entries logged since boot, consecutively numbered, and verifies |
| AuditLog.InsertedRowsVerifyIff | src/mori_soc/api/server.py:470-505 | Over every run with successful head reads the rows as inserted are linked, and are a consecutively numbered chain, iff no append succeeded after a failed one in the same process with a non-empty table |
| AuditLog.ReadBackVerifiesIff | src/mori_soc/repositories/state_postgres.py:516-526 | Rows that are read back verify iff they are linked as inserted and every stamp keeps its text |
| AuditLog.StoredLogVerifiesIff | src/mori_soc/api/routes/audit.py:82-87 | Over every run with successful head reads, the log as it is read back verifies iff nothing was stored past a loss and every stamp keeps its text |
| AuditLog.RenderedLogNeverVerifies | src/mori_soc/api/payloads.py:1106-1109 | With stamps that end in Z and a column read back that never does, no non-empty log of any run verifies, and the verdict names the first row read |
| AuditLog.RouteOkIff | src/mori_soc/api/routes/audit.py:77-87 | Over every run the verify route says ok iff it falls back to memory (unreadable or empty table) or the rows it loads are linked and keep their stamps |
| AuditLog.RouteCounts | src/mori_soc/api/routes/audit.py:77-89 | The route counts, and takes the root hash of, the loaded rows, or the entries in memory when there are none or they cannot be read |
| AuditLog.UnreadHeadBreaksStoredLog | src/mori_soc/api/server.py:472-475 | One failed head read after one stored entry breaks the stored log at the second entry after it, although every append succeeds |
| AuditContent.MemorySaysWhatWasLogged | src/mori_soc/api/server.py:490-501 | Over every run memory holds, for each of the last 2000 calls since boot and in their order, an entry with the time, user, action and detail of that call |
| AuditContent.StoredRowSays | src/mori_soc/repositories/state_postgres.py:508-514 | The row an accepted call leaves carries the words of the call, unless its number was taken; then the table stays as it was |
| AuditContent.RowsSayWhatWasLogged | src/mori_soc/repositories/state_postgres.py:508-514 | Over every run every row carries the words of some accepted call |
| AuditContent.RacedEntrySays | src/mori_soc/api/server.py:490-499 | A racing call makes and appends an entry that carries its own words |
| AuditAppend.InsertPlaces | src/mori_soc/repositories/state_postgres.py:508-514 | An insert changes nothing when the number is taken and else puts the entry between the smaller and the greater numbers |
| AuditAppend.AppendKeepsIntactIff | src/mori_soc/api/server.py:483-505 | An append keeps an intact table intact iff the table is empty, the number is taken, the entry is newest and links to the last row, or is oldest and the first row links to it; between two rows it never does |
| AuditAppend.StaysIntactIff | src/mori_soc/api/server.py:470-505 | Over every run, head reads failing or not, the table stays linked all along iff every stored entry fits the table it finds |
| AuditAppend.UnreadHeadRows | src/mori_soc/api/server.py:472-489 | After a boot without a head over rows numbered from 1, as many entries as there are rows are dropped and the later ones stored |
| AuditAppend.UnreadHeadKeepsIntactIff | src/mori_soc/api/server.py:472-489 | That table stays linked iff no more entries were logged than there were rows, or the last one dropped is the last row over again |
| AuditRace.BootsAreGood | src/mori_soc/api/server.py:472-475 | Over any table of well-hashed rows, raced or not, the head a boot finds is empty or the digest of the entry numbered before the next |
| AuditRace.LinksIffMadeForPrevious | src/mori_soc/api/server.py:484-499 | An entry links to the one before it iff it was made for an entry equal to that one |
| AuditRace.RacedMemoryVerifiesExactly | src/mori_soc/api/server.py:484-501 | Over every interleaving of calls, restarts and truncations, memory verifies iff every kept entry but the first was made for an entry equal to the one before it |
| AuditRace.RacedMemoryVerifiesIff | src/mori_soc/api/server.py:484-501 | Over every interleaving of calls memory verifies when no call is disturbed, and, while nothing is truncated, only then |
| AuditRace.TwoReadersBreakMemory | src/mori_soc/api/server.py:484-499 | In any reachable state, two calls that look at the same last entry and then append leave a memory that does not verify |
| AuditRace.StoredUnlessTaken | src/mori_soc/repositories/state_postgres.py:508-514 | An appended entry that the table accepts is in it afterwards iff it was already or its number was free |
| AuditRace.RacedRowsLinkedIff | src/mori_soc/api/server.py:484-505 | Over every interleaving, with failing inserts, restarts and unread heads, the table stays linked all along iff every stored entry fits the table it finds |
| AuditRace.LostEntryBreaksTable | src/mori_soc/api/server.py:484-505 | Of two calls that look at the same last entry the second to be stored is lost without a failure, and the table after the next call is linked iff the two entries are equal |
| LeaderElection.WorkerProcess.constructor | src/mori_soc/worker.py:200-201 | A started process holds no connection and needs the lock iff singleton mode is on |
| LeaderElection.WorkerProcess.Turn | src/mori_soc/worker.py:203-216 | One turn of the loop: asks only while it needs the lock and holds no connection; granted, it keeps the connection and polls; refused, it stays as it is and does not; when the lock is unavailable it drops the need and polls; else it polls as it is |
| LeaderElection.StepsAreTurns | src/mori_soc/worker.py:145-166 | The protocol moves the asking worker as the process moves itself on the lock's answer, and no other worker |
| LeaderElection.PollersBounded | src/mori_soc/worker.py:145-216 | In every reachable state the pollers are the leader, the winners whose session died and the workers without a lock, with at most one leader |
| LeaderElection.SingleLeader | src/mori_soc/worker.py:132-134 | Without session loss and fallback at most one worker polls, over every interleaving |
| LeaderElection.OnePollerAheadIff | src/mori_soc/worker.py:145-216 | Among two or more workers every continuation without further loss or fallback has at most one poller iff no worker is stale or without a lock |
| LeaderElection.SessionLossGivesTwoPollers | src/mori_soc/worker.py:200-216 | A run in which session loss leaves two pollers |
| LeaderElection.StandbyTakesOver | src/mori_soc/worker.py:132-134 | Once the holding session is gone nobody leads until a standby asks, whatever else happens in between, and the first to be answered is then the leader; while the session lives asking changes no poller |
| Scheduler.Worker.constructor | src/mori_soc/worker.py:194-195 | A worker starts with nothing logged and, on a clock of at least 0, every poller due |
| Scheduler.Worker.RunPass | src/mori_soc/worker.py:218-225 | One pass: a single clock reading, each due poller run in turn, next due one interval after its cycle ended, then the sleep |
| Scheduler.BoundedLateness | src/mori_soc/worker.py:194-225 | Over every run of n pollers with cycles of at most D and sleeps of at most S: a cycle due at t by an earlier run starts in [t, t + (n-1+i)D + S), so before t + (2n-1)D + S, t being one interval after its previous cycle ended |
| Scheduler.PassServesExactlyTheDue | src/mori_soc/worker.py:218-222 | A pass runs exactly the pollers due at its reading and leaves every due time beyond it |
| Scheduler.PassKeepsOnTime | src/mori_soc/worker.py:218-225 | At the top of every pass no poller that ran before is overdue by (n-1)D + S |
| Scheduler.FirstPassRunsEveryPoller | src/mori_soc/worker.py:194-222 | From a state in which all are due, the first pass runs every poller exactly once, in list order, the j-th after at most j cycles of D |
| Scheduler.EveryPollerStarts | src/mori_soc/worker.py:194-222 | So over every run from a clock of at least 0 the first n cycles are one of each poller, in list order and as soon |
| OrderedDict.ReplayChangesNothing | src/mori_soc/repositories/memory.py:136-151 | For any merge that a later copy survives, saving a list twice leaves the values and the insertion order of saving it once |
| OrderedDict.MergeThrough | scripts/code_review_fullscan.py:87-101 | Merging keyed items through an intermediate dict equals merging them directly, for an associative merge |
| Hosts.HostTable.Save | src/mori_soc/repositories/postgres.py:61-98 | The upsert of one host row; all other rows unchanged |
| Hosts.MergeIsUpsertIff | src/mori_soc/repositories/memory.py:136-151 | Memory merge and SQL upsert of a known host agree iff no stored string meets an empty one that differs from it |
| Hosts.BackendsAgreeIff | src/mori_soc/repositories/postgres.py:63-98 | The backends agree after every save of a sequence iff none of its saves overwrites a stored value with an empty string |
| Hosts.BackendsAgree | src/mori_soc/repositories/postgres.py:63-98 | With strings absent or non-empty, any sequence of saves leaves the same hosts in both |
| Hosts.MergeIsExtremes | src/mori_soc/repositories/memory.py:136-167 | A host is known iff saved; its first-seen is the least, last-seen and risk score the greatest of what was saved for it |
| Hosts.OrderIrrelevant | src/mori_soc/repositories/memory.py:154-167 | Permuting or repeating saves changes neither which hosts exist nor those three fields |
| Hosts.LatestObservationWins | src/mori_soc/repositories/memory.py:141-147 | Name, platform and address of a host are those of the latest save that had one, its status that of the latest that knew it, else of the first save |
| Repository.InMemoryRepository.SaveEntity | src/mori_soc/repositories/memory.py:43-81 | Saving one entity: hosts merge, syncs and rows replace by key, insertion order kept |
| Repository.InMemoryRepository.MergeHost | src/mori_soc/repositories/memory.py:136-151 | Saving a host merges it into the stored one |
| Repository.HostsAreMemory | src/mori_soc/repositories/memory.py:136-151 | The repository's hosts are the memory side of the backend comparison |
| Repository.ReplayAbsorbed | src/mori_soc/repositories/memory.py:43-81 | Saving any stream of entities twice leaves the repository of saving it once |
| Repository.PrefixAbsorbed | src/mori_soc/repositories/memory.py:43-81 | Saving a prefix and then the whole stream equals one clean run: hosts, rows, order |
| Repository.FailedAttemptsAbsorbed | src/mori_soc/pollers/base.py:133-165 | Any number of failed attempts, wherever each stopped, is absorbed by a complete one |
| Repository.FurthestLastAbsorbs | src/mori_soc/pollers/base.py:161-180 | When every attempt fails but the last came at least as far as the others, they leave what the last alone would |
| Repository.RolledBackIff | src/mori_soc/pollers/base.py:161-180 | In general a plain entity ends as after the furthest attempt alone iff the latest attempt that reached its key saved the same last value for it |
| Repository.ShorterFailureRollsBack | src/mori_soc/pollers/base.py:161-180 | A stream and two attempts for which it does not |
| Poller.IngestEnvelope | src/mori_soc/services/ingestion.py:29-31 | Saves the envelope's entities up to where the attempt raises |
| Poller.IngestRecord | src/mori_soc/services/ingestion.py:27-31 | The same for a record, with the envelope and entity counts of a full one |
| Poller.StreamOrder | src/mori_soc/services/ingestion.py:25-31 | The stream of a batch is its envelopes' entities, later envelopes and later records after earlier ones |
| Poller.Ingest | src/mori_soc/services/ingestion.py:23-32 | One attempt saves exactly the prefix of the entity stream it reaches, and reports the numbers of records, envelopes and entities iff nothing raised |
| Poller.RetryIngest | src/mori_soc/pollers/base.py:131-165 | The retry loop leaves the failed prefixes followed by the first clear run, or all the prefixes and the last error |
| Poller.RunCycle | src/mori_soc/pollers/base.py:114-182 | A cycle leaves the ingested repository with the sync of its outcome, or nothing when skipped; it succeeds iff some attempt does, and fails with the number of attempts and the last error |
| Poller.RetriedCycleIsCleanCycle | src/mori_soc/pollers/base.py:131-160 | A cycle in which some attempt succeeds equals the cycle whose only attempt succeeds, repository and counters |
| Poller.Latest | src/mori_soc/pollers/base.py:134-180 | The latest outcome of a kind in a history, or none when there is none |
| Poller.SyncIsFoldOfHistory | src/mori_soc/pollers/base.py:126-182 | After any cycles of any sources a stored sync shows its latest run, latest success start with its counters, and latest error start |
| Poller.RunIngestionCycle | src/mori_soc/worker.py:75-127 | The legacy cycle with its cached syncs, as a function of the repository |
| Poller.LegacyMatchesPollers | src/mori_soc/worker.py:87-127 | It leaves the entities and syncs of the pollers with zero retries, up to the error text |
| QueryCache.StalenessBounded | src/mori_soc/api/query_cache.py:41-59 | Under every interleaving of threads, a call that read the clock at `now` returns a snapshot taken after now - ttl; with the cache off, one taken after the call |
| QueryCache.SlotForwardIff | src/mori_soc/api/query_cache.py:54-59 | Over every interleaving the cached snapshot never gets older iff no thread stores one older than it finds |
| QueryCache.LaterCallsNoOlder | src/mori_soc/api/query_cache.py:49-59 | While that holds, a call that starts after another got its answer through the cache never returns an older snapshot |
| QueryCache.StaleStoreIsSeen | src/mori_soc/api/query_cache.py:50-58 | Once it fails, the next call of any free thread with enough ttl returns the older snapshot |
| QueryCache.SeparateMissesNeverGoBack | src/mori_soc/api/query_cache.py:54-58 | While no two calls are between miss and store at the same time, no store is stale and the cached snapshot never gets older |
| QueryCache.BypassOutrunsCache | src/mori_soc/api/query_cache.py:47-53 | A call with ttl 0 returns a snapshot of the moment, and a cached call after it still returns the older cached one |
| QueryCache.OlderSnapshotMayReturn | src/mori_soc/api/query_cache.py:54-59 | An interleaving from the start in which a later call returns an older snapshot |
| QueryCache.ServiceGetter.Get | src/mori_soc/api/query_cache.py:41-59 | Fixed service, default service, disabled cache, or the cached answer and the new slot |
| QueryCache.UninterruptedCall | src/mori_soc/api/query_cache.py:46-59 | The threaded steps of a call that nobody interrupts are the single-threaded call |
| QueryCache.FactoryCallsSpaced | src/mori_soc/api/query_cache.py:49-59 | With one thread, the clock values read by consecutive factory calls are at least ttl apart |
| QueryCache.SnapshotsNeverGoBack | src/mori_soc/api/query_cache.py:49-59 | With one thread, no call returns an older snapshot than an earlier call |
| QueryCache.SnapshotsMayBeCloser | src/mori_soc/api/query_cache.py:55-58 | The snapshots themselves can be closer than ttl, since the clock is read before the factory runs |
| RateLimit.RateLimiter.Dispatch | src/mori_soc/api/ratelimit.py:71-104 | The 413, pass-through and counted branches; a path under /ingest/ is admitted iff the client's recent hits there are fewer than the ingest cap, one under /auth/login iff fewer than the login cap, any other is not limited; only the list of the key changes |
| RateLimit.RouteCaps | src/mori_soc/api/ratelimit.py:19-22 | Which cap and which key belong to which route |
| RateLimit.MinOf | src/mori_soc/api/ratelimit.py:95 | The least of a non-empty list |
| RateLimit.KeysSeparate | src/mori_soc/api/ratelimit.py:90 | Prefix and client are recovered from the key |
| RateLimit.KeysIndependent | src/mori_soc/api/ratelimit.py:90-103 | Under each key lies what that key's own requests put there |
| RateLimit.WindowIsFilteredHistory | src/mori_soc/api/ratelimit.py:91-103 | The pruned per-key list is the whole request history of the key filtered to the window |
| RateLimit.AdmittedIff | src/mori_soc/api/ratelimit.py:91-104 | Admitted exactly when fewer than cap requests of the key lie in the window that ends with it |
| RateLimit.AtMostCapAdmitted | src/mori_soc/api/ratelimit.py:91-104 | Admitted requests pairwise less than a window apart number at most cap |
| RateLimit.IntervalHoldsAtMostCap | src/mori_soc/api/ratelimit.py:91-104 | No half-open interval one window long, closed on either side, holds more than cap admitted requests |
| RateLimit.RetryAfterRounds | src/mori_soc/api/ratelimit.py:95-100 | r - 1 <= remaining < r, remaining being the time until the oldest counted hit leaves the window |
| RateLimit.EarlyRetryRejected | src/mori_soc/api/ratelimit.py:91-101 | Any retry before the remaining time has passed is rejected, whatever arrived in between |
| RateLimit.PunctualRetryMayBeRejected | src/mori_soc/api/ratelimit.py:93-95 | Waiting as told can still be rejected, since rejected requests count |
| Sessions.SessionTable.LoadSessions | src/mori_soc/repositories/state_postgres.py:647-654 | An available table returns a token iff it has a row that has not run out, with the record of that row |
| Sessions.SessionTable.SaveSession | src/mori_soc/repositories/state_postgres.py:656-675 | Saves the record, to be loaded for 30 days, when the table is available |
| Sessions.PersistentSessionDict.constructor | src/mori_soc/api/session_store.py:30-42 | Boot is the Restart step: the loaded rows, or nothing when loading failed |
| Sessions.PersistentSessionDict.Put | src/mori_soc/api/session_store.py:44-50 | Writes memory always and the table when it is available |
| Sessions.PersistentSessionDict.Remove | src/mori_soc/api/session_store.py:56-67 | Removes a known token from memory, and from the table when it is available; returns what was there |
| Sessions.PersistentSessionDict.Authenticate | src/mori_soc/api/auth.py:404-415 | Accepts iff the token is live and unexpired; an expired one is removed, an accepted one gets a new last_seen in memory only |
| Sessions.ExpiredIsPastDeadline | src/mori_soc/api/auth.py:40-56 | A session is expired iff the time is past the earlier of its two deadlines |
| Sessions.ExpiredMeaning | src/mori_soc/api/auth.py:45-56 | For every session, readable stamps or not: past the absolute lifetime since creation, or past the idle one since last use, or since creation when there was none; a stamp that cannot be read never ages |
| Sessions.SessionsComeFromLogins | src/mori_soc/api/routes/auth.py:131-139 | Over every run, through failed writes and restarts, a session carries the user and the time of some login with its token |
| Sessions.RestartNeverLengthens | src/mori_soc/api/session_store.py:30-42 | In every reachable state, what a restart restores expires no later than the live session and is accepted only when that was |
| Sessions.RestartKeepsIff | src/mori_soc/api/session_store.py:30-42 | In every reachable state, a token is accepted after a restart iff the table was read and still returns its row and the login is no longer ago than the idle and the absolute lifetime |
| Sessions.RestartCutsShort | src/mori_soc/api/session_store.py:15-17 | A session that was used is accepted without a restart and refused at the same moment after one |
| Sessions.ExpiryIsPermanent | src/mori_soc/api/auth.py:404-414 | Once judged expired, a token is never accepted again before a new login, through failed deletes and restarts |
| Sessions.LogoutIsFinalIff | src/mori_soc/api/routes/auth.py:157-164 | A logged-out token is never accepted again iff, before the logout, it had no unexpired row that loading returns, or the token is live and the delete reaches the table |
| Sessions.UnknownTokenLogout | src/mori_soc/api/session_store.py:56-61 | After a boot that could not read the table a logout leaves the row, although a delete would have reached it |
| Chunking.ChunkFiles | scripts/code_review_fullscan.py:67-80 | Batches concatenate to the input, each within budget or a single file, and each closed only because the next file would not fit |
| Chunking.SizeIsText | scripts/code_review_fullscan.py:73-77 | What is held against the budget is the length of the texts put together |
| Chunking.GreedyStaysAhead | scripts/code_review_fullscan.py:72-79 | From any later position a greedy split needs no more batches than any split of the whole |
| Chunking.GreedyIsOptimal | scripts/code_review_fullscan.py:67-80 | No order-preserving split under the same rule has fewer batches |
| Chunking.GreedyIsUnique | scripts/code_review_fullscan.py:67-80 | The greedy split is determined by files and budget |
| Chunking.NoFilesNoBatches | scripts/code_review_fullscan.py:78-80 | No batches exactly for no files |
| OrderedDedup.DedupMeaning | scripts/code_review_fullscan.py:96 | `dict.fromkeys`: the same elements, none twice, in order of first occurrence |
| OrderedDedup.DedupAssociative | scripts/code_review_fullscan.py:96 | Concatenate-and-deduplicate is associative |
| MergeFlow.MergeFlows | scripts/code_review_fullscan.py:83-107 | The two loops compute the merge function |
| MergeFlow.EmptyFlowIsUnit | scripts/code_review_fullscan.py:83-107 | Merging with the empty flow on either side changes nothing but the summary |
| MergeFlow.MergeIdempotent | scripts/code_review_fullscan.py:83-107 | Merging a flow with itself changes nothing but the summary |
| MergeFlow.MergeItemAssociative | scripts/code_review_fullscan.py:94-99 | Merging three reports of one item is associative: lists by first occurrence, scalars by first non-empty |
| MergeFlow.MergeAssociative | scripts/code_review_fullscan.py:83-107 | The merge is associative, summary included, when the last report of each name in the middle flow suffices |
| MergeFlow.MergeAssociativeIff | scripts/code_review_fullscan.py:83-107 | It is associative around a middle flow exactly when, for each name, its last report there is the fold of its reports |
| MergeFlow.CombinedIsFold | scripts/code_review_fullscan.py:89-101 | The merge loop holds, under each name, its reports merged one after the other |
| MergeFlow.IndexIsLast | scripts/code_review_fullscan.py:87-88 | The comprehension over the accumulated items holds, under each name, its last report |
| MergeFlow.LastOf | scripts/code_review_fullscan.py:87-88 | The last report of a name, or none when there is none |
| MergeFlow.UniqueNamesSuffice | scripts/code_review_fullscan.py:87-88 | Flows with unique item names meet that condition |
| MergeFlow.RepeatedNameSufficesIff | scripts/code_review_fullscan.py:87-88 | In any flow, a name reported exactly twice meets the condition iff the second report covers the first |
| MergeFlow.MergeKeepsEvidence | scripts/code_review_fullscan.py:83-107 | One merge keeps every list entry of both flows |
| MergeFlow.ScanLosesNothing | scripts/code_review_fullscan.py:272-289 | Over all batches no list entry of a named item is lost, names are unique and the summary counts the items |
| MergeFlow.ScanIsOneFold | scripts/code_review_fullscan.py:272-289 | The final items are those of one merge loop over the reports of all batches |
| MergeFlow.ScanTellsExactly | scripts/code_review_fullscan.py:272-289 | A name has a final item iff some batch reports it; each list of it is, up to repetitions, what its reports say in batch order, and each scalar what the first of them to say something says |
| MergeFlow.ScanKeepsNames | scripts/code_review_fullscan.py:272-289 | A name is in the final flow iff some batch reports an item of that name |
| MergeFlow.ScanKeepsGaps | scripts/code_review_fullscan.py:103 | Over every scan a gap is in the final list iff some batch reports it, none twice, in order of first occurrence over the batches |
| MergeFlow.SummaryMeaning | scripts/code_review_fullscan.py:104-107 | The summary of a merge counts its items and their different tables, and names the first encryption any states, else the fixed text |
| Json.PythonEqualityExact | controls/validate.py:58-59 | Python's `in` finds an allowed value exactly where JSON equality does iff the value holds no boolean, 0 or 1 |
| SchemaCheck.Checker.Check | controls/validate.py:31-59 | Only appends, and appends exactly the problems of the instance in order |
| SchemaCheck.Checker.CheckRequired | controls/validate.py:37-39 | Appends the missing keys |
| SchemaCheck.Checker.CheckExtra | controls/validate.py:41-44 | Appends the keys that are not allowed |
| SchemaCheck.Checker.CheckFields | controls/validate.py:45-47 | Appends the problems inside the fields that have a schema |
| SchemaCheck.Checker.CheckItems | controls/validate.py:51-54 | Appends the problems inside the items |
| SchemaCheck.FindProperty | controls/validate.py:40-47 | A schema is found iff some property has the name, and is that property's |
| SchemaCheck.NoFalseAlarms | controls/validate.py:31-59 | Whatever the schema, an instance that satisfies it as draft-07 says gets no problem |
| SchemaCheck.NothingMissed | controls/validate.py:31-59 | On schemas of the subset, an instance without problems satisfies the schema |
| SchemaCheck.SilentIffValid | controls/validate.py:31-59 | On schemas of the subset the checker is silent on exactly the valid instances |
| SchemaCheck.TypeExactIff | controls/validate.py:33-57 | A type keyword is checked exactly iff it is object, array or string |
| SchemaCheck.UntypedObjectExactIff | controls/validate.py:34-47 | Required keys and closedness without a type are checked exactly iff there are none |
| SchemaCheck.UntypedPropertiesExactIff | controls/validate.py:40-47 | Property schemas without a type are checked exactly iff each one that can be found accepts everything |
| SchemaCheck.UntypedArrayExactIff | controls/validate.py:48-54 | An item schema without a type is checked exactly iff everything satisfies it |
| SchemaCheck.EnumExactIff | controls/validate.py:58-59 | A single allowed value is checked exactly iff Python confuses it with no other |
| SchemaCheck.ReportsExactly | controls/validate.py:31-59 | Exactly the problems that some place the schema reaches has are reported, each with the path to its place and the key in question |
| SchemaCheck.MissingCount | controls/validate.py:37-39 | One problem for each required key that is missing |
| SchemaCheck.ExtraCount | controls/validate.py:41-44 | One problem for each field that a closed schema does not name |
| HostAliases.AliasList.Append | src/mori_soc/collectors/fleet_logs.py:204-207 | Appends a non-empty text that is not there yet |
| HostAliases.AliasList.Collect | src/mori_soc/collectors/fleet_logs.py:180-202 | Appends, in pre-order, the alias texts that are new |
| HostAliases.ExtractHostAliases | src/mori_soc/collectors/fleet_logs.py:108-120 | For every object payload the result is the first-occurrence deduplication of one pre-order traversal: the six extra passes add nothing |
| HostAliases.FoundExactly | src/mori_soc/collectors/fleet_logs.py:180-202 | The traversal meets a text iff containers and list items lead to an object that has it under an alias key |
| HostAliases.AliasesMeaning | src/mori_soc/collectors/fleet_logs.py:108-120 | The aliases are exactly the reachable texts, none twice, in the order in which they are met |
| HostAliases.OwnNamesInOrder | src/mori_soc/collectors/fleet_logs.py:182-195 | An object's own names come in the order of the eleven keys, non-empty strings and numbers alike |
| HostAliases.ContainersInOrder | src/mori_soc/collectors/fleet_logs.py:196-198 | Its six containers come after them in their order |
| HostAliases.ItemsInOrder | src/mori_soc/collectors/fleet_logs.py:200-202 | List items come one after the other; other values have no names |
| AccountRecon.ByUserMeaning | src/mori_soc/services/account_recon.py:74-78 | A folded user name is in the directory iff non-empty and listed, with its last entry |
| AccountRecon.IsApproved | src/mori_soc/services/account_recon.py:82-94 | True iff some approval has the same folded user, is not scoped to another host, and is a sudo approval if sudo is asked for |
| AccountRecon.TagAccount | src/mori_soc/services/account_recon.py:102-118 | The tags of an account, as the specification function gives them, each at most once |
| AccountRecon.TagsMeaning | src/mori_soc/services/account_recon.py:110-118 | A tag is carried exactly when its rule holds, in the fixed order; dormant means at least dormant_days + 1 full days since login |
| AccountRecon.OtherHostsDoNotClear | src/mori_soc/services/account_recon.py:89-90 | When every approval of the user is scoped to another host, a sudo account is tagged unapproved_sudo and a privileged one outside the directory orphan_priv |
| AccountRecon.OtherKindsDoNotClearSudo | src/mori_soc/services/account_recon.py:91-92 | When every approval of the user is of another kind than sudo, unapproved_sudo stays |
| AccountRecon.ApprovalClears | src/mori_soc/services/account_recon.py:86-93 | One approval of the user, not scoped or for this host, clears orphan_priv, and unapproved_sudo too when it is a sudo approval |
| AccountRecon.Tally | src/mori_soc/services/account_recon.py:129-134 | One more row keeps counts equal to the tagged rows and findings equal to the first 200 of them |
| AccountRecon.Reconcile | src/mori_soc/services/account_recon.py:62-146 | One row per account in host-key order; counts[k] is the number of rows tagged k and findings[k] the first min(200, counts[k]) of them in row order; the summary |
| AccountRecon.RowsMeaning | src/mori_soc/services/account_recon.py:101-128 | Each row shows its account on its host, its type or server, whether the user is in the directory, the full days since login, and exactly the tags due |
| AccountRecon.FlaggedMeaning | src/mori_soc/services/account_recon.py:129-134 | The findings of a kind show the rows tagged with it, each once and in row order |
| AccountRecon.SummaryMeaning | src/mori_soc/services/account_recon.py:136-145 | What each number of the summary counts |
| AccountRecon.AtMostMeaning | src/mori_soc/services/account_recon.py:100 | The order of the host keys is that of strings: a prefix first, else by the first character that differs |
| AccountRecon.EveryAccountOnce | src/mori_soc/services/account_recon.py:100-101 | No input account is lost, repeated or moved to another host |
| AccountRecon.SortOrders | src/mori_soc/services/account_recon.py:100 | The hosts are a permutation in key order |
| AccountRecon.HostOrderIrrelevant | src/mori_soc/services/account_recon.py:100 | The rows do not depend on the order in which the hosts were stored |
| AccountRecon.ApprovalsOnlyClear | src/mori_soc/services/account_recon.py:82-118 | Enlarging the approval list adds no tag and removes none but orphan_priv and unapproved_sudo |
| AccountRecon.SudoApprovalCoversAccount | src/mori_soc/services/account_recon.py:83-84 | A sudo approval clears both of them |
| AccountRecon.ApprovalOrderIrrelevant | src/mori_soc/services/account_recon.py:82-94 | Permuting or repeating approvals changes no row |
| AccountRecon.MoreApprovalsFewerFindings | src/mori_soc/services/account_recon.py:129-134 | More approvals never raise a count and leave leaver and dormant findings as they were |
| AccountRecon.ServersShownIff | src/mori_soc/services/account_recon.py:104-141 | In the rows of the view, hosts shown as PCs are the hosts counted as PCs; for servers this holds iff every host with an untyped account also has one typed server |

## Left out

Stated with a condition:

- AuditChain.PickVerifiesIffConsecutive: SHA-256 over canonical JSON is the parameter `h` with `CollisionFree(h)`; real digests are fixed-length, so the assumption is the usual cryptographic idealisation.
- AuditLog.InsertedRowsVerifyIff: assumes the head read at boot succeeds; AuditAppend drops that assumption and characterises each append instead of the whole history.
- AuditRace.RacedMemoryVerifiesExactly: looking at the last entry is one step, and appending with truncating another.
- LeaderElection.PollersBounded: run-once mode is not modelled; a missing driver module acts as a refused lock.
- Scheduler.BoundedLateness: times are exact reals; the first run of a poller, due at once, has no earlier due time to be late against; a cycle does not raise out of the loop.
- Hosts.BackendsAgree: about hosts only; host aliases are keyed differently in the two backends and are not meant to agree step by step.
- Poller.RetriedCycleIsCleanCycle: every attempt sees the same entity stream; a source that answers differently on a retry is not modelled, nor is a failing save of the sync itself.
- Poller.LegacyMatchesPollers: the `post_ingest` hook and the truncation of long messages are not modelled.
- QueryCache.StalenessBounded: a factory that raises or returns None is not modelled; ttl parsing is an input.
- RateLimit.AdmittedIff: cap and window are fixed while requests are judged and the clock does not run backwards; floats are exact reals.
- RateLimit.EarlyRetryRejected: no upper bound is claimed, since rejected requests count too.
- Sessions.ExpiryIsPermanent: well-formed stored times, fixed lifetimes and one clock, for the process and the database, that does not run backwards; one process at a time uses the table.
- MergeFlow.MergeFlows: items carry the nine merged keys only, with absent lists read as empty and absent scalars as ""; other keys, which are copied from the first report, and non-dict entries are not modelled.
- SchemaCheck.SilentIffValid: on the subset only; outside it the exactness lemmas treat each restriction on its own, not every combination of keywords.
- SchemaCheck.Checker.Check: error texts are kept as structured values; tuple-form `items` and non-string YAML keys are not modelled.
- HostAliases.ExtractHostAliases: the text of a number is part of the JSON value; Python's `str` of it is not computed.
- AccountRecon.Reconcile: strip, lower-casing and ISO parsing are input functions; fields of the wrong type are not modelled.

Not modelled:

- HTTP routing, public paths, CSRF origin checks, templates and i18n: branches that read off directly.
- LDAP, Zabbix, Fleet and Slack calls, file reads, environment parsing: outcomes are inputs.
- `EnvelopeEntityMapper` and the collectors' `normalize`: the entity stream is given.
- `apply_risk_scores`, queries and snapshots of the repository: no merge behaviour of their own.
- The ten plain entity dictionaries of the repository are one dictionary keyed by (table, id).
- An unsupported entity type, which `save` rejects with TypeError.
- Session `__delitem__`: the same write path as `pop`.
- `normalize_account`: one expression per field.
- Other SQL upserts of the Postgres repository and the other state tables.
- Fleet hostname, platform, timestamp and severity extraction.
