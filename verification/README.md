# MesaHub core: a verified model

Dafny models of the hard parts of the MesaHub server, with proofs of what they guarantee over every
input, run or interleaving. Each module models one component. Components that compute are functions
with lemmas; components that change state step by step are also written as classes and loops whose
contracts are the functions the lemmas are about. Concurrent ones are systems of atomic steps.

| module | models |
|---|---|
| `DbQueue`, `QueueGuarantees`, `QueueObjects` | the per-database write queue: callers, one bounded channel and one worker per database, cancellation, draining shutdown |
| `FileStore`, `FileObjects` | the content-addressed file store: rows, blob reference counts, blob directory, quotas |
| `CacheTiers`, `KeyCache`, `RateLimit` | the two-tier cache, API-key validation by many processes over a changing registry, the request limiter |
| `SqlText`, `SqlMeaning`, `SqlRun`, `Rest`, `RestCorrect`, `RestParams`, `RestFilters` | the REST-to-SQL compiler, and a tokenizer, parser and evaluator to say what its text means; what may be written in its parameters; when its filters do what the syntax table says |
| `DbFiles`, `Lifecycle`, `RegistryFile`, `RegistryCalls`, `RoundTrips`, `ListCache`, `ListCluster`, `ConnPool`, `RegistryObjects` | database rows, files, connections and the cached lists, in one process and in many; the registry's table in its own file among them; the pool's lock protocol |
| `Migration`, `MigrationObjects` | the restartable prefix migration |
| `Csv`, `FileToken` | the CSV line parser of the importer and the signed file token |
| `Prelude`, `MapSums`, `Decimal`, `Strings` | shared helpers |

`dafny verify dfyconfig.toml` checks the whole project.

## Assumptions

- SHA-256 is injective; it, HMAC, JSON encoding, MIME sniffing, the MIME patterns allowed and name
  clean-up are parameters. A JSON payload decodes to what was encoded, stated per payload where it is
  used. UUIDs are fresh.
- SQL statements succeed unless a constraint fails, and transactions are atomic. Only the migration is
  stopped between its steps.
- Each storage, cache and registry call runs to completion before the next. Only in the queue and the
  pool do calls interleave.
- Clocks and random choices are arguments; a trace's times do not decrease.
- No `Enqueue` starts after `Stop` or is still sending when `Stop` begins: the code would send on a
  closed channel.
- Closing a connection writes nothing: SQLite would move what the WAL holds into the database file.
  The contents of `store.db` and `registry.db` are those of the main file, checkpointed.
- The registry's rows are those of the file found under the path of `store.db` at each call; an empty
  or missing file holds none. (An open connection keeps to the file it opened until it has been idle
  for ten minutes or the server restarts.) How rows lie in the file is a parameter of which only
  reading back what was saved is assumed. The migration's record goes through the connection opened
  at start, and is lost if `store.db` is replaced under it.
- Queued closures act on the state of their own database and return; they do not panic.
- Row order, comparison by affinity and collation, and column defaults are SQLite's and come from a
  parameter of the evaluator. Where a theorem says so, the comparisons of a column follow one total
  preorder, as SQLite's do.

## What the proofs found

- A context that is done before the send does not keep a job from running when the channel has room:
  both cases of the select are ready and either may be taken (`QueueGuarantees.DoneContextMayStillRun`).
- Bulk deletes decrement once per distinct hash, so deleting several rows of one hash leaves its count
  too high for good and its blob on disk (`FileStore.LeakFreeRunIff`). The error is on the safe side: no
  blob with a row is ever removed, provided the clock does not run backwards inside an expiry.
- The limiter counts rejected calls and renews the expiry on each, so it is not a per-minute maximum
  as its comment says: steady traffic is cut off after 600 calls until a full idle minute passes.
- Soft deletion moves the files before the row, and restoring moves them before it knows whether the
  slug is free. A collision leaves row and files apart. Deleting an inactive database and restoring it
  activates it, and deleting a deleted one loses its first slug. The HTTP handler for restore checks
  the slug first; the one for delete does not check the status.
- The slug `store` passes every check, and `store.db` is the registry's own file. Resetting a database
  of that name empties the registry, and SQL run on it rewrites every other database's row while the
  cached lists stay (`RegistryFile.StoreIsTheRegistry`). Calls that keep off that file, and only they,
  are safe for the other databases (`RegistryFile.OthersUntouchedIff`, `ListCache.ListStaysRightIff`).
- `Pool.Remove` deletes files after it has released the lock, so a concurrent `Get` can be left with a
  connection whose file is gone.
- Restoring or deleting for good a database whose archived slug is open in the pool, which a raw query
  can bring about, leaves the pool a connection whose file is gone (`Lifecycle.StrandsIff`). Moving a
  database onto a name the pool has open puts other bytes under that connection
  (`Lifecycle.SwapsIff`).
- Of a parameter given more than once only the first value is a filter: `?age=gt.5&age=lt.10` matches
  age 100, and DELETE and PATCH act on it. `RestFilters.MeetsAllIff` gives the queries that are safe.
  The test file says that the last value wins; it is the first.
- A filter on a name that is no column does not look at the rows: SQLite reads the name as a string. A
  test calls that safe because `=` is then false of every row; `not.null`, `neq` and often `gt` are
  true of every row, and DELETE empties the table (`RestFilters.UnknownNameEmptiesTable`,
  `RestFilters.DeletesSomeIff`).
- A list cached as a JSON array in L2 can never be read back through the tiered client, which decodes it
  into a map first; only empty lists are. The list stays right, it is just queried again.
- Restarting the migration is safe only without double prefixes, names that clash once stripped, and
  names that strip to `registry` or `store`: renaming `D-registry.db` replaces the database being
  migrated, and every later start fails (`Migration.ConvergesIffSafe`). The migration reads
  `registry.db` and the column `original_name`, while the registry itself keeps its tables in
  `store.db` with `original_slug`.
- The token's signature comparison pads with NULs, so a signature followed by NULs is accepted too.
- The CSV parser trims quoted fields as well, so quoting does not protect surrounding whitespace; the
  importer cuts the file at every line break first, so a quoted field cannot hold one.
- The registry's expiry column for API keys is never looked at during validation, and nothing in the
  repository calls the eviction that its interface documents for revocations.

## Model

| member | source | states |
|---|---|---|
| `DbQueue.InvStep` | server/queue/queue.go:45-98 | every step of every goroutine (callers, workers, cancellations, `Stop`) keeps the queue's invariant: acceptance order, one reply per accepted job, replies already sequential, channels bounded |
| `QueueGuarantees.StepRefines` | server/queue/queue.go:45-84 | each atomic step is a move of the sequential machine of the database it works on, and changes no other database |
| `QueueGuarantees.SerialExecution` | server/queue/queue.go:77-84 | in every reachable state a database has run a prefix of its accepted jobs, each once, in acceptance order, and its contents are those of the sequential run |
| `QueueGuarantees.CallsAsHandedIn` | server/queue/queue.go:45-49 | in every run, a call begun for a database with a closure stands for that very closure on that very database, whatever else happens |
| `QueueGuarantees.ExecutedWereHandedIn` | server/queue/queue.go:45-84 | what a database has run, in order, are closures that calls of the run handed in for it, no call's more than once |
| `QueueGuarantees.ReplyIsOwnClosures` | server/queue/queue.go:53-55 | the error a call returns is that of its own closure, run on the state its predecessors in the acceptance order leave |
| `QueueGuarantees.InterleavingIrrelevant` | server/queue/queue.go:61-75 | two runs with any interleavings, channel sizes and traffic on other databases agree on a database's contents whenever they have run the same closures of it, whichever calls handed them in and whatever still waits |
| `QueueGuarantees.RepliesAreSequential` | server/queue/queue.go:53-55 | the error an `Enqueue` returns is the one the sequential run gives at that job's place in the acceptance order |
| `QueueGuarantees.AcceptedIffSent` | server/queue/queue.go:48-59 | a job is in its own database's acceptance order, and in no other, exactly when its call got past the send: a call cancelled before never runs, a call cancelled while waiting still has its job in line once |
| `QueueGuarantees.SendsWhenThereIsRoom` | server/queue/queue.go:31-51 | a call that is still sending can send exactly when its channel holds fewer jobs than the depth asked for, 256 if that is not positive; Stop never catches it on a closed channel |
| `QueueGuarantees.BufferIsBounded` | server/queue/queue.go:31-41 | no channel ever holds more jobs than that |
| `QueueGuarantees.GivesUpOnlyIfCancelled` | server/queue/queue.go:48-59 | a call gives up sending or waiting only if its own context was cancelled in the run |
| `QueueGuarantees.DoneContextMayStillRun` | server/queue/queue.go:48-52 | a context that is already done does not stop the job when the channel has room; a concrete run shows it |
| `QueueGuarantees.WorkerNeverBlocksOnReply` | server/queue/queue.go:47-81 | whenever a worker is about to reply, the one-slot reply channel is free |
| `QueueGuarantees.DrainStep` | server/queue/queue.go:77-98 | while `Stop` waits, every worker step uses up exactly one unit of the pending work and no other step adds any |
| `QueueGuarantees.DrainProgress` | server/queue/queue.go:86-98 | until every worker has exited some worker can move, so `Stop` cannot hang |
| `QueueGuarantees.DrainTerminates` | server/queue/queue.go:86-98 | along any run after the channels are closed, worker steps count the pending work down to the moment `Stop` can return, and then every accepted job has run |
| `QueueGuarantees.AllExitedIffNoWork` | server/queue/queue.go:96-97 | `Stop` may return exactly when no work is left |
| `QueueGuarantees.StoppedMeansDrained` | server/queue/queue.go:86-98 | once `Stop` has returned, every accepted job of every database has run |
| `QueueObjects.Worker.TrySend` | server/queue/queue.go:48-51 | the send succeeds exactly when the channel has room, and then the job is last in the buffer and in the acceptance order |
| `QueueObjects.Worker.ServeOne` | server/queue/queue.go:79-82 | one turn of the worker: the oldest job is taken, run against the current state, and its result is the reply |
| `QueueObjects.Worker.RunWorker` | server/queue/queue.go:77-84 | the worker's loop over a closed channel runs every buffered job once, in order, and replies to it with its result in the sequential run; with nothing in flight before, executed ends up equal to accepted |
| `QueueObjects.Queue.constructor` | server/queue/queue.go:31-41 | a new queue has no workers; a depth that is not positive becomes 256 |
| `QueueObjects.Queue.WorkerFor` | server/queue/queue.go:61-75 | a registered name keeps its channel; any other name, one that Stop has closed included, gets one fresh empty channel; a channel is open exactly while its name leads to it |
| `QueueObjects.Queue.CloseAll` | server/queue/queue.go:88-95 | every registered channel is closed and every name forgotten; buffered jobs and workers stay as they are |
| `QueueObjects.Queue.Depth` | server/queue/queue.go:100-109 | the sum of the buffered jobs over all registered channels |
| `FileStore.OpOk` | server/files/storage.go:169-392 | every upload, delete, bulk delete and expiry keeps counts, rows, blobs and sent bytes consistent, and changes the slack of a hash by exactly the rows removed beyond its one decrement |
| `FileStore.EveryFileReadable` | server/files/storage.go:237-293 | after any sequence of operations the blob of every row is on disk, holds the very bytes uploaded under that id, and has the recorded size |
| `FileStore.RemoveRowsOk` | server/files/metadata.go:315-356 | removing rows and decrementing once per distinct hash never brings a count below its rows |
| `FileStore.ReplaceIsInsertThenDelete` | server/files/storage.go:269-285 | replacing a file is inserting the new one and deleting the old one, down to the counts and the blob |
| `FileStore.LeakFreeIff` | server/files/metadata.go:315-403 | one operation keeps every count equal to its rows exactly when it removes at most one row of each listed hash and none of an unlisted one |
| `FileStore.LeakFreeRunIff` | server/files/storage.go:334-392 | over any run the counts end up equal to the rows exactly when each bulk removal took at most one row per hash; otherwise a blob is leaked for good |
| `FileStore.BulkCounts` | server/files/storage.go:358-392 | a bulk delete or an expiry takes exactly one reference off each hash it lists and none off any other |
| `FileStore.OtherRowsStay` | server/files/metadata.go:315-356 | an operation on one namespace leaves every row of another as it was, and an expiry every row without an expiry or with a later one |
| `FileStore.NamespacesApart` | server/files/metadata.go:315-333 | over any run that neither names a file's namespace nor expires it, its row and its bytes stay what they were |
| `FileStore.RemovedRowsGo` | server/files/metadata.go:315-356 | after emptying a namespace, an expiry or a single delete the rows concerned are gone |
| `FileStore.NoLeakMeansNoOrphans` | server/files/storage.go:348-354 | without leaks the blob directory holds exactly the hashes some row refers to |
| `FileStore.ExpirySafeIffClockForward` | server/files/metadata.go:336-356 | expiry is safe for every store and every listing exactly when the clock does not run backwards between its SELECT and its DELETE |
| `FileStore.BackwardsClockLosesBlob` | server/files/metadata.go:336-356 | the store that shows the other half: a listed row that is not deleted loses its blob |
| `FileStore.AdmittedIff` | server/files/storage.go:169-235 | an upload is admitted exactly when it violates none of nine conditions, stated apart from the checks; otherwise the error is the first of them that it violates |
| `FileStore.UploadKeepsQuota` | server/files/storage.go:210-235 | an admitted upload, the replaced file first subtracted, leaves every namespace within its limits and with one row per path |
| `FileStore.QuotasHold` | server/files/storage.go:210-293 | every run keeps each namespace within the file count and byte limits, with at most one row per folder and name |
| `FileStore.RepeatedUploadIsIdempotent` | server/files/storage.go:167-168 | uploading the same input again in replace mode is admitted, writes no blob and changes nothing but the row's id and upload time |
| `FileObjects.MetadataDB.DBUsageStats` | server/files/metadata.go:246-251 | counts the namespace's rows and sums their sizes |
| `FileObjects.MetadataDB.GetByLogicalPath` | server/files/metadata.go:155-168 | finds a row with this namespace, folder and name that was uploaded last, of several the one with the greatest id, or none if there is none |
| `FileObjects.MetadataDB.ReplaceFile` | server/files/metadata.go:268-298 | swaps the rows in one transaction and reports the old row's hash |
| `FileObjects.MetadataDB.DeleteFilesForDatabase` | server/files/metadata.go:315-333 | exactly the rows of other namespaces remain, unchanged, and the hashes of the removed ones are listed, each once |
| `FileObjects.MetadataDB.CleanupExpiredFiles` | server/files/metadata.go:336-356 | exactly the rows without expiry or with one after the second clock reading remain, unchanged; the hashes listed, each once, are those of rows expired at the first |
| `FileObjects.MetadataDB.IncrBlobRef` | server/files/metadata.go:361-367 | the count of the hash goes up by one and no other hash's does; a hash that is not recorded counts as zero |
| `FileObjects.MetadataDB.DecrBlobRef` | server/files/metadata.go:371-403 | the count goes down by one and is reported, zero for a hash without a row; a count that is used up loses its row; no other count changes |
| `FileObjects.Storage.Check` | server/files/storage.go:169-235 | the checks in their order: the first violated limit decides the error |
| `FileObjects.Storage.Upload` | server/files/storage.go:169-301 | accepted exactly within every limit, with an allowed type that does not contradict the bytes, and, in error mode, with no file at the path; then the one new row, every column given, takes the place of the row at its path; otherwise nothing changes; in error mode every old row stays; counts, readable files and quotas stay right |
| `FileObjects.Storage.DeleteByID` | server/files/storage.go:335-356 | succeeds exactly for a row of that id and namespace; then that row alone goes and its hash has one reference less; otherwise nothing changes |
| `FileObjects.Storage.DeleteAllForDatabase` | server/files/storage.go:359-374 | exactly the rows of other namespaces remain, unchanged, and each hash of the removed ones has one reference less, no other any less |
| `FileObjects.Storage.CleanupExpired` | server/files/storage.go:377-392 | exactly the rows that had not expired remain, unchanged, and each listed hash has one reference less; no file is lost if the clock did not run backwards |
| `CacheTiers.GetIsForgetfulLookup` | server/cache/memory.go:194-221 | in one process a Get returns nothing or the value of the last Set since the last Delete, over every run with losses in either tier |
| `CacheTiers.GetAfterSet` | server/cache/memory.go:194-216 | a Get does return the last Set while the L1 or the L2 lifetime of that Set lasts, if neither tier was made to forget it |
| `CacheTiers.TieredClient.SetKey` | server/cache/memory.go:194-197 | both tiers are written, L1 with its fixed lifetime and L2 with the caller's |
| `CacheTiers.TieredClient.GetKey` | server/cache/memory.go:199-216 | L1 first and untouched by a hit, then L2, whose hit is copied into L1 with a fresh L1 lifetime |
| `CacheTiers.TieredClient.DeleteKey` | server/cache/memory.go:218-221 | the key is gone from both tiers |
| `CacheTiers.ReadsNeverExtend` | server/cache/memory.go:36-52 | no run of reads, under whatever keys, changes L2 or the expiry of an L1 entry that is still alive: a hit never lengthens a life |
| `KeyCache.Validator.ValidateTemplateKey` | server/auth/authorize.go:68-102 | a cached value is the answer and nothing else happens; on a miss the key is accepted exactly when its row is active and its scopes decode, with the row's id, owner and scopes, which are cached in both tiers, and the row's id is stamped as used; a refusal changes nothing |
| `KeyCache.BoundedStaleness` | server/auth/authorize.go:19-102 | with any number of processes over one L2, a key accepted with some id, owner and scopes had an active row with exactly these at some moment no more than 20 minutes earlier, 5 without Redis |
| `KeyCache.StalenessBoundIsTight` | server/cache/memory.go:178-216 | the bound is met: a concrete run accepts a key that long after its revocation |
| `KeyCache.EvictionTakesEffect` | server/cache/cache.go:62-64 | after a key is revoked and then evicted by any process, no process accepts it more than 5 minutes later |
| `KeyCache.EverythingBacked` | server/cache/memory.go:178-216 | every cached entry of every tier and process is backed by a moment of the run at which the registry gave that value |
| `RateLimit.Limiter.IncrRateLimit` | server/cache/cache.go:229-237 | with a working Redis and the one-minute lifetime the count is the call's place among the key's calls since it was last idle for a full minute; without Redis it reads zero and nothing is counted |
| `RateLimit.Limiter.Allow` | server/handler/exec.go:91-98 | a call is let through exactly when it is among the first 600 of its key since that key was last idle for a full minute, or when there is no Redis |
| `RateLimit.CounterIsBurst` | server/cache/cache.go:229-237 | the stored counter is the number of calls since the key was last idle for a full minute |
| `RateLimit.AcceptedIffEarlyInBurst` | server/handler/exec.go:93-97 | over every trace a call is accepted exactly when it is among the first 600 since the last idle minute |
| `RateLimit.SlidingWindow` | server/handler/exec.go:22-24 | over every trace, in any half-open interval of one minute at most 600 calls of a key are accepted |
| `RateLimit.SteadyTrafficIsCutOff` | server/cache/cache.go:229-237 | a key whose calls are less than a minute apart gets 600 of them and nothing after, however slowly it calls and whatever other keys do |
| `RateLimit.IdleMinuteResets` | server/cache/cache.go:229-237 | after a full idle minute the next call is accepted |
| `SqlText.QuoteReads` | server/handler/rest.go:576-579 | a quoted name, whatever is in it, reads back as that one identifier |
| `SqlText.UnquoteQuote` | server/handler/rest.go:576-579 | reading a quoted name as SQL gives the name |
| `SqlText.QuoteInjective` | server/handler/rest.go:576-579 | different names are quoted differently |
| `SqlMeaning.ParseOfTokens` | server/handler/rest.go:235-450 | the tokens of every statement the layer can write parse back to that statement |
| `Rest.BuildRestWhere` | server/handler/rest.go:488-538 | the loop builds the clauses and bindings of the sorted filter keys, or the error of the first key that is no name, in whatever order the map yields its keys |
| `Rest.BuildRestOrder` | server/handler/rest.go:541-574 | the loop builds the ORDER BY of the terms read from the parameter, or the first term's error |
| `Rest.BuildSelection` | server/handler/rest.go:173-192 | the loop builds the projection, skipping empty names, or the first bad name's error |
| `Rest.BuildFields` | server/handler/rest.go:288-303 | the loop over a body's sorted keys pairs each name's text with that name's value, or reports the first bad name |
| `Rest.DoGet` | server/handler/rest.go:165-238 | the SELECT and its bindings, or the first failed check |
| `Rest.DoPost` | server/handler/rest.go:272-310 | the INSERT and its bindings, or the first failed check |
| `Rest.DoPatch` | server/handler/rest.go:349-396 | the UPDATE with the SET bindings before the WHERE bindings, or the first failed check |
| `Rest.DoDelete` | server/handler/rest.go:431-450 | the DELETE and its bindings, or the first failed check |
| `RestCorrect.FilterRoundTrip` | server/handler/rest.go:505-531 | a filter written as documented reads back as the same operator with the same value, for every value |
| `RestCorrect.PlainValueIff` | server/handler/rest.go:531-535 | a bare value means equality exactly when it is neither keyword and starts with none of the seven operators |
| `RestCorrect.WhereIgnoresKeyOrder` | server/handler/rest.go:489-496 | any iteration order of the parameters gives the same clauses and bindings |
| `RestCorrect.HoldsIffMeets` | server/handler/rest.go:504-535 | the written conjunction, fed its bindings in order, holds of exactly the rows that meet the first value of every filter parameter |
| `RestCorrect.GetMeaning` | server/handler/rest.go:173-246 | the SELECT text, tokenised, parsed and run with its bindings in order, returns the rows that meet the first value of each filter, ordered, cut to the page and projected as asked, and changes nothing |
| `RestCorrect.DeleteMeaning` | server/handler/rest.go:437-450 | the DELETE text, where no foreign key forbids or extends it, keeps exactly the rows that miss the first value of some filter |
| `RestCorrect.PatchMeaning` | server/handler/rest.go:371-396 | the UPDATE text lays the body over every row that meets the first value of each filter and leaves the others alone; constraints of the table apart, it fails exactly when the body names a column the table lacks |
| `RestCorrect.PostMeaning` | server/handler/rest.go:294-310 | the INSERT text appends the table's defaults with the body laid over them and returns that row |
| `RestCorrect.ChangesNeedFilter` | server/handler/rest.go:382-390 | PATCH and DELETE are accepted exactly when all names are 1 to 128 bytes long and at least one filter is given (and PATCH sets something) |
| `RestCorrect.GetIsBounded` | server/handler/rest.go:213-224 | a GET answers with at most 1000 rows, at most 100 without a limit |
| `RestParams.SelectionReads` | server/handler/rest.go:173-192 | select, any list of entries with blanks around names and gaps between them, reads as the names in their order, as every column if there is none, and as an error at the first name over 128 bytes |
| `RestParams.AllColumnsIff` | server/handler/rest.go:173-192 | every column is asked for exactly by a parameter of nothing but commas and blanks |
| `RestParams.GetProjects` | server/handler/rest.go:173-246 | of each row of the page a GET returns exactly the cells of the columns that select lists, in that order, and changes nothing |
| `RestParams.TermReads` | server/handler/rest.go:540-574 | a column alone is ascending; asc and desc may be written in any mixture of cases |
| `RestParams.OrderReads` | server/handler/rest.go:540-574 | order, any list of such entries with blanks and gaps, reads as the orderings in their order |
| `RestParams.OrderRefused` | server/handler/rest.go:540-574 | with an entry that is no such ordering it is an error |
| `RestParams.FiltersAsDocumented` | server/handler/rest.go:21-30 | each of the seven operators and two keywords, letter by letter, means what the syntax table says, for every value |
| `RestCorrect.FiltersAreTheOthers` | server/handler/rest.go:61-67 | every parameter is a filter but select, order, limit and offset |
| `RestParams.NumbersRead` | server/handler/rest.go:213-233 | a decimal number, with either sign or none, reads as itself if it fits 64 bits and as nothing if not |
| `RestParams.PageParamsRead` | server/handler/rest.go:213-233 | a limit means itself, up to 1000, an offset itself; there are 100 rows from the first without them; a negative one is refused |
| `RestParams.GetAcceptedIff` | server/handler/rest.go:165-238 | a GET is accepted exactly when the table and every filter have names of 1 to 128 bytes and select, order, limit and offset can be read |
| `RestParams.GetErrors` | server/handler/rest.go:165-238 | each error of a GET reports its own check, the earlier ones having passed; a bad filter is the first in byte order |
| `RestParams.PostAcceptedIff` | server/handler/rest.go:272-310 | a POST is accepted exactly when table and fields have names of 1 to 128 bytes and there is a field; otherwise which of these fails first is the error |
| `RestParams.ChangeErrors` | server/handler/rest.go:349-450 | the errors of PATCH and DELETE, fields before filters before their absence, each with the first bad name in byte order |
| `RestFilters.MeetsAllIff` | server/handler/rest.go:17-30 | the filters that are used mean the filters that were given, on every row and every engine whose comparisons follow one order per column, exactly when each later value of a parameter follows from the first: it reads the same, is the weaker comparison with the same value, or is not.null after a comparison |
| `RestFilters.WhereMeetsAllIff` | server/handler/rest.go:502-535 | on the same condition, and only then, the WHERE clause passes exactly the rows that meet every filter given, on every such engine |
| `RestFilters.GetMeetsAllIff` | server/handler/rest.go:18-30 | a GET answers with the page of the rows that meet every filter given, on every table and every such engine, exactly when the first values suffice or the limit is zero |
| `RestFilters.DeleteMeetsAllIff` | server/handler/rest.go:18-30 | an accepted DELETE removes exactly the rows that meet every filter given, on every table and every such engine, exactly when the first values suffice |
| `RestFilters.PatchMeetsAllIff` | server/handler/rest.go:18-30 | an accepted PATCH overwrites exactly the rows that meet every filter given, for every body, table and such engine, exactly when the first values suffice |
| `RestFilters.RepeatedParameterIsLost` | server/handler/rest_test.go:740-742 | age over 5 and under 10, given as two values of one parameter, deletes a row of age 100 |
| `RestFilters.UnknownNamesDeleteAllOrNone` | server/handler/rest_test.go:695-697 | a DELETE whose filters all name no column removes every row or none, whatever is in the rows |
| `RestFilters.UnknownNamesPatchAllOrNone` | server/handler/rest_test.go:695-697 | a PATCH whose filters all name no column overwrites every row or none |
| `RestFilters.UnknownNameEmptiesTable` | server/handler/rest.go:441-450 | not.null on a name that is no column empties any table |
| `RestFilters.DeletesSomeIff` | server/handler/rest.go:441-450 | for a given query and columns, some engine whose comparisons follow an order and some table let the DELETE remove some rows and keep others exactly when a filter is on a column and no filter on another name is false of every row: null, or neq, gt or lt of that very name |
| `DbFiles.PathInjective` | server/db/registry.go:451-456 | different databases and suffixes never share a file name |
| `DbFiles.MoveDbAt` | server/db/registry.go:451-462 | the rename loop gives each target file the source's contents if there was one, leaves no source file and touches nothing else |
| `RegistryCalls.InsertOutcome` | server/db/registry.go:423-432 | the row is appended exactly when neither its id nor its slug is taken; no other row, file or connection changes |
| `RegistryCalls.StatusOutcome` | server/db/registry.go:435-442 | the status read afterwards under that slug is the one given; every other column, row and file is as before |
| `RegistryCalls.SizeOutcome` | server/db/registry.go:898-902 | the same for the size |
| `RegistryCalls.SoftDeletedRow` | server/db/registry.go:446-481 | the archive name is the slug, a hyphen and the second in decimal; the row under it keeps its slug as the original one and says that it is deleted and when; all other rows and files stay |
| `RegistryCalls.RestoreRefused` | server/db/registry.go:565-573 | a restore of a row that is not deleted or knows no original slug changes nothing and fails |
| `RegistryCalls.RestoredRow` | server/db/registry.go:574-595 | otherwise the row is under its original slug, active and without its marks, if that slug was free; all other rows and files stay |
| `RegistryCalls.HardDeleteOutcome` | server/db/registry.go:598-620 | a hard deletion goes through exactly for a deleted row; then the row and its three files are gone and nothing else is |
| `RegistryCalls.ResetOutcome` | server/db/pool.go:81-101 | no file of the slug and no connection to it is left, and no other file is touched |
| `Lifecycle.UpdateOk` | server/db/registry.go:86-101 | an UPDATE by slug is refused exactly when it would give a row a slug another row has |
| `Lifecycle.InsertOk` | server/db/registry.go:423-432 | the insert is accepted exactly when neither its id nor its slug is taken |
| `RegistryFile.Simulates` | server/db/registry.go:168-190 | the table is read from store.db in the same directory: a call that does not move, overwrite or remove that file does to the directory exactly what the model with the table apart says, with the same success or failure |
| `RegistryFile.InvRun` | server/db/registry.go:423-620 | every run that keeps off the registry's file keeps ids and slugs unique, and every deleted row keeps an original slug to be restored under |
| `RegistryFile.InvNeedsKeepingOff` | server/handler/db.go:19 | without that condition the invariant fails: in every directory one permitted call, SQL run on a database named store, breaks it |
| `RegistryFile.OthersUntouched` | server/db/registry.go:446-620 | no call that keeps off the registry's file, successful or not, changes the row, the files or the connection of a database it does not name |
| `RegistryFile.OthersUntouchedIff` | server/db/pool.go:59 | for a call and the slugs whose files it moves, overwrites or removes: it leaves every other database alone, in every directory and for every layout of the table in its file, exactly when store is not one of these slugs |
| `RegistryFile.StoreIsTheRegistry` | server/handler/db.go:157-173 | the failing inputs: a reset of store empties the registry, and SQL run on store makes any table of it |
| `Lifecycle.ArchivedInjective` | server/db/registry.go:447-448 | two soft deletes produce the same archive name only for the same slug in the same second |
| `RoundTrips.SoftDeleteOutcome` | server/db/registry.go:446-481 | a soft delete of any slug but store goes through exactly when no row has the archive name; if one has, the row stays while its files are already moved |
| `RoundTrips.RestoreOutcome` | server/db/registry.go:565-595 | a restore goes through exactly when no row has taken the original slug; the files move either way |
| `RoundTrips.RestoreUndoesSoftDelete` | server/db/registry.go:446-595 | whatever happens to other databases between a soft delete and its restore, as long as nothing reaches the registry's file, the restore brings back the row, active, and the files |
| `RoundTrips.ResetInBetweenLosesIt` | server/handler/db.go:157-173 | a reset of store in between makes the restore fail, whatever the directory |
| `RoundTrips.RowRestoredIff` | server/db/registry.go:586-588 | the row comes back unchanged exactly when it was active with no deletion marks |
| `RoundTrips.FilesRestoredIff` | server/db/registry.go:450-462 | the files of both names come back unchanged exactly when nothing lay at the archive name |
| `RoundTrips.RoundTripIsIdentity` | server/db/registry.go:446-595 | back to back, soft delete and restore give back the very table and all files but the bytes of the registry's own |
| `Lifecycle.StrandsIff` | server/db/registry.go:565-620 | a call leaves an open connection whose file is gone, where there was none, exactly when it is a restore under another slug or a hard deletion that passes its checks, of a name the pool has open |
| `Lifecycle.SwapsIff` | server/db/registry.go:446-595 | a call puts other contents under a connection that stays open exactly when it is a soft delete or a restore that passes its checks and moves a main file onto a name the pool has open, the contents not being the same already |
| `RegistryObjects.DataDir.RenameFiles` | server/db/registry.go:451-462 | the loop over the three suffixes moves the database's files |
| `RegistryObjects.Registry.InsertDatabase` | server/db/registry.go:423-432 | a fresh row is appended to the table in the registry's file unless its id or slug is taken, and the owner's cached list is dropped only on success |
| `RegistryObjects.Registry.SetDatabaseStatus` | server/db/registry.go:435-442 | the row's status and the dropped list, on the joint state of files, the registry's among them, connections and cache |
| `RegistryObjects.Registry.SoftDeleteDatabase` | server/db/registry.go:446-481 | files moved, connection closed and dropped, row renamed and marked, list dropped, or the failure that leaves the row |
| `RegistryObjects.Registry.RestoreDatabase` | server/db/registry.go:565-595 | the reverse, refused for rows not deleted or without an original slug |
| `RegistryObjects.Registry.HardDeleteDatabase` | server/db/registry.go:598-620 | row and files of a deleted database gone for good, list dropped; anything else refused |
| `RegistryObjects.Registry.UpdateDatabaseSize` | server/db/registry.go:898-902 | only the size changes, and no cached list is dropped |
| `RegistryObjects.Registry.GetJSON` | server/cache/memory.go:297-332 | the tiered read of a list: an array found only in L2 is an error and so a miss, null is a hit that refills L1 |
| `RegistryObjects.Registry.ListDatabasesByOwner` | server/db/registry.go:486-510 | the cached list or else the query's, which is then cached |
| `ListCache.QueryOk` | server/db/registry.go:495-496 | the query returns the rows of that owner whose status is not deleted, each as often as it is stored, and no others, newest first |
| `RegistryCalls.DropsTheOwners` | server/db/registry.go:423-620 | a call drops a cached list exactly when it succeeds in adding, restating, deleting, restoring or purging a row, and then its owner's alone |
| `RegistryCalls.DroppedListIsQueried` | server/db/registry.go:486-510 | after a drop the next list is the query's own answer, cached in both tiers for 5 minutes, and every other owner's cached list is untouched |
| `RegistryCalls.ArrayInL2IsMissed` | server/cache/memory.go:297-332 | a list that only L2 holds is never the answer: the query is asked again |
| `ListCache.UnchangedUnlessDropped` | server/db/registry.go:423-620 | a call that keeps off the registry's file and does not drop an owner's list does not change what that owner's query returns, sizes apart |
| `ListCache.ListStaysRightIff` | server/db/registry.go:483-510 | for a call and the slugs it aims at: in every directory a list cached just before the call is right just after it, sizes apart, exactly when store is not one of these slugs |
| `ListCache.ListIsQuery` | server/db/registry.go:483-510 | after any run of lists, cache losses, restarts and calls that keep off the registry's file, a list is what the direct query returns, sizes apart |
| `ListCache.SizesGoStale` | server/db/registry.go:898-902 | the exception is real: a size written after a list was cached does not show in the next list |
| `ListCluster.BoundedListStaleness` | server/db/registry.go:483-510 | with any number of processes, each with its own L1 over one L2 and one registry whose file no call reaches, a list is what the query gave, sizes apart, at some moment no more than an L1 lifetime earlier |
| `ListCluster.StaleForALifetime` | server/cache/memory.go:178-216 | the bound is met: an insertion by one process does not show in the list of another for 5 minutes |
| `ListCluster.ChangeReachesEveryProcess` | server/db/registry.go:483-510 | in such a run, more than an L1 lifetime after any moment no process answers with the list of that moment or an earlier one: a change has reached them all |
| `ConnPool.OneHandlePerName` | server/db/pool.go:43-67 | under every interleaving of Get, Remove and Close no name has two open handles, the one just being opened included |
| `ConnPool.Linearizable` | server/db/pool.go:43-78 | the interleaved calls have a sequential history that explains the map, and each returned handle was read or stored at a moment inside its call |
| `ConnPool.SameHandleUntilDropped` | server/db/pool.go:43-88 | two Gets of a name yield the same handle exactly when the name was not dropped in between |
| `ConnPool.CallsDoTheirWork` | server/db/pool.go:43-101 | under every interleaving a Get is about the name it was called with and returns nothing only after a failed open; when Remove lets go of the lock its name is out of the map, and when Close does the map is empty |
| `ConnPool.SomeoneCanMove` | server/db/pool.go:43-88 | the lock protocol never deadlocks: while a call is in progress some process can move |
| `ConnPool.RemoveOrphansIff` | server/db/pool.go:81-101 | after Remove has deleted the files, once the lock is released, an open handle is left on them exactly when a Get has opened the name again by then |
| `ConnPool.RemoveCanOrphan` | server/db/pool.go:81-101 | and such a run exists: it ends with an open handle whose files are deleted |
| `RegistryObjects.Pool.Get` | server/db/pool.go:43-67 | a name in the map keeps its connection and the directory; otherwise a fresh open one is stored and its file is there, or nothing changes if opening fails |
| `RegistryObjects.Pool.Remove` | server/db/pool.go:81-101 | the connection is closed and out of the map and the three files are gone, all others untouched |
| `RegistryObjects.Pool.Close` | server/db/pool.go:70-79 | every connection that was in the map is closed and the map is empty |
| `Migration.StripsAsIntended` | server/migrate/strip_prefixes.go:308-323 | what stripping makes of every value: D- goes, bkt-B- becomes bkt- for events, anything else stays |
| `Migration.StripTwice` | server/migrate/strip_prefixes.go:308-313 | stripping twice is stripping once exactly when the name has no second prefix under the first |
| `Migration.StripEventTwice` | server/migrate/strip_prefixes.go:315-323 | the same for token and audit names, with their three double forms |
| `Migration.RenameKeepsFinal` | server/migrate/strip_prefixes.go:92-113 | no single rename takes any file off the course to where the finished migration puts it |
| `Migration.RowsPassIff` | server/migrate/strip_prefixes.go:275-306 | the row-by-row UPDATEs of the names, none with a double prefix, go through in whatever row order exactly when names need not be unique or the stripped names are distinct |
| `Migration.CompleteEnds` | server/migrate/strip_prefixes.go:36-55 | from tables that are safe an uninterrupted run succeeds and reaches the one finished state: every prefixed database's files under the stripped name, every column in registry.db rewritten, the run recorded in store.db |
| `Migration.CrashConvergence` | server/db/registry.go:367-384 | from tables that are safe, stopping any number of times after any rename, before or after the commit, and then running to the end succeeds and gives the files, rows and record of one uninterrupted run |
| `Migration.DoublePrefixDiverges` | server/db/registry.go:375-382 | a name with a double prefix breaks it: stopped between commit and record, the next start strips again |
| `Migration.StoreDiverges` | server/db/registry.go:375-384 | so does a database named D-store with a file: the first start records on a file that has lost its name, and a start after a stop does not |
| `Migration.NeverGetsThrough` | server/migrate/strip_prefixes.go:117-152 | a start that is not stopped always fails, after any history of starts, where a database named D-registry has a file or two stripped names meet under a UNIQUE column |
| `Migration.RegistryIsOverwritten` | server/migrate/strip_prefixes.go:92-113 | the single-prefixed name D-registry as an input: its file takes the place of registry.db, and no start gets through again |
| `Migration.NameIsTaken` | server/migrate/strip_prefixes.go:117-152 | the names D-x and x as an input: where names are UNIQUE every start fails |
| `Migration.ConvergesIff` | server/migrate/strip_prefixes.go:36-152 | where no database looks like the registry, the migration can be stopped and restarted at will exactly when it is recorded, there is no registry.db, or its tables are safe |
| `Migration.ConvergesIffSafe` | server/migrate/strip_prefixes.go:36-152 | whatever the databases contain: every disk with given tables and given files can be stopped and restarted at will exactly when no stored name has a second prefix under the stripped one, no name that strips to registry or store has a file, and the stripped names are distinct where they must be unique |
| `Migration.NothingLostIffNoClash` | server/migrate/strip_prefixes.go:92-113 | every file's contents survive under its new name exactly when no renamed file lands on an existing one with other contents |
| `MigrationObjects.UpdateColumn` | server/migrate/strip_prefixes.go:275-306 | the row loop rewrites every value that is not NULL, and counts those that change |
| `MigrationObjects.UpdateNames` | server/migrate/strip_prefixes.go:275-306 | the same loop on the names, stopped at the first row whose new name another row has where names are UNIQUE |
| `MigrationObjects.PrefixMigration.RenameDBFile` | server/migrate/strip_prefixes.go:92-113 | the suffix loop moves the three files of a prefixed name to the name without the prefix, counts those that are there, and leaves any other name alone |
| `MigrationObjects.PrefixMigration.RenameDBFiles` | server/migrate/strip_prefixes.go:59-90 | the loop over the queried names does all renames in that order |
| `MigrationObjects.PrefixMigration.UpdateRegistry` | server/migrate/strip_prefixes.go:117-152 | the transaction on registry.db rewrites the four columns and counts the changed rows; a missing table or a taken name rolls everything back and fails the start |
| `MigrationObjects.PrefixMigration.RunOnce` | server/db/registry.go:370-384 | a start that is not stopped does the phases in order and records them, does nothing if they are recorded, and leaves no record if a phase fails |
| `Csv.ParseCSVLine` | admin/src/components/gui/schema-sidebar-list.tsx:204-227 | the loop computes the fields of a line as the recursive reading of its characters gives them |
| `Csv.ParseOfRecord` | admin/src/components/gui/schema-sidebar-list.tsx:204-227 | any record, its fields quoted or bare, parses to its fields with surrounding whitespace taken off |
| `Csv.RoundTripIffTight` | admin/src/components/gui/schema-sidebar-list.tsx:204-227 | parsing inverts the quoting of section 2 of RFC 4180 exactly for records none of whose fields has surrounding whitespace |
| `Csv.FileRoundTripIff` | admin/src/components/gui/schema-sidebar-list.tsx:198-233 | a file of quoted records, each line ended by LF or CRLF and the last one ended or not, reads back as those records exactly when no field has a line break or surrounding whitespace and no record is a single bare empty field |
| `FileToken.Base64RoundTrip` | server/filetoken/filetoken.go:90-120 | unpadded base64url decodes to what was encoded and never contains a dot or a NUL |
| `FileToken.EncodesAsPublished` | server/filetoken/filetoken.go:90-120 | examples of section 10 of RFC 4648, and the two characters peculiar to base64url |
| `FileToken.DecodesIff` | server/filetoken/filetoken.go:105-135 | a text decodes exactly when it holds nothing but the alphabet and line breaks and does not end with one character of a group |
| `FileToken.ClampTtl` | server/filetoken/filetoken.go:71-75 | a lifetime from 60 to 31536000 seconds is kept, a shorter one is 60, a longer one the maximum, and one that is not positive 30 days |
| `FileToken.CreateRoundTrip` | server/filetoken/filetoken.go:65-135 | a token from Create is the encoded payload, a dot and its encoded MAC; it verifies to the issued payload up to and including its expiry second, the clamped lifetime from now, and is expired after it |
| `FileToken.CreateUploadRoundTrip` | server/filetoken/filetoken.go:179-218 | the same for upload tokens with their file constraints |
| `FileToken.EqualUpToTrailingNuls` | server/filetoken/filetoken.go:227-243 | the signature comparison is equality up to trailing NULs, not equality |
| `FileToken.VerifiedIff` | server/filetoken/filetoken.go:103-135 | a token is accepted with a payload exactly when there is a secret, the signature is the MAC of the first part up to trailing NULs, the first part decodes to that payload, nothing required is missing and its expiry second has not passed |
| `FileToken.NothingWithoutSecret` | server/filetoken/filetoken.go:65-70 | without a secret no token is issued |
| `FileToken.AcceptedSignature` | server/filetoken/filetoken.go:115-118 | an accepted signature is the computed one followed by nothing but NULs |

## Left out

- HTTP routing, middleware, CORS, cookies, JWT, sessions and PKCE entries, scope checks, logging and telemetry: plumbing, or the same cache shape as API keys.
- Decoding of request bodies and URL queries, and failures to do so: the model starts from the decoded values.
- Singleflight and splitting a cache Get into fetch and backfill: each cache call is atomic.
- A failure between two statements of an upload or a delete, and overlapping uploads to one namespace.
- Integer overflow of sizes and counters: sizes are unbounded. The one place where 64-bit range decides a branch, `strconv.Atoi`, is modelled.
- The regular-expression SQL classifiers and the raw SQL endpoint: only its rate-limit gate is modelled.
- Import and export of databases, buckets and their S3 and R2 storage, shortlinks, disk-usage parsing: bound to libraries, or no harder than what is here.
- The importer around the CSV line parser: matching headers to values, the NULL string and the upload itself.
- Rename and remove errors of the operating system: a failed rename in the migration is a stop; elsewhere files can always be moved.
- `RestCorrect.GetMeaning`: SQLite reads an unknown quoted column as a string, and so does the model; column names that differ only in case, NUL bytes in SQL text and hidden rowid columns are not modelled.
- `RestFilters.DeletesSomeIff`: the columns are the names as the table spells them, for the same reason.
- `RestCorrect.PatchMeaning`: a UNIQUE, NOT NULL, CHECK or foreign key failure of the UPDATE is not modelled, nor that storing converts values to the column's affinity; the statement is one that SQLite accepts.
- `RestCorrect.DeleteMeaning`: foreign keys are on, so a DELETE can fail or cascade to other tables; neither is modelled.
- `RestCorrect.PostMeaning`: storage affinity and the NOT NULL, UNIQUE and CHECK constraints of user tables are not modelled, so the statement is that of an insert that SQLite accepts.
- `RestParams.OrderReads`: trimming covers ASCII whitespace; Go's TrimSpace also trims multi-byte spaces, which a model of bytes does not show.
- `Migration.CrashConvergence`: phase 3 (the file namespaces) is not part of the model. `registry.db` has all four migrated columns or none, the name column alone may be UNIQUE, and start-up writes nothing else to `store.db`.
- `KeyCache.BoundedStaleness`: entries live up to and including their expiry instant, the later of the two readings, so the bound covers both. For the limiter the counter is gone at its expiry instant.
- `ConnPool.OneHandlePerName`: closing a connection always works, and the preference of Go's lock for waiting writers is not modelled, which only allows more interleavings.
