# Keyv, modelled and proved in Dafny

Keyv is a key-value front end: a core that wraps values with a deadline, encodes them and stores them
through one of many adapters. This project models the parts of it that hold state machines, refinements,
batched protocols and round trips, and proves what its code and documentation promise of them, over all
inputs, all runs and all interleavings. `dafny verify dfyconfig.toml` checks everything.

## What is modelled

* **MySQL lifecycle** (`MysqlLifecycle`, `MysqlInvariant`, `MysqlSafety`, `MysqlLiveness`, `MysqlAtRest`,
  `MysqlOutcome`, `MysqlAdapter`). `reconnect`, `useTable` and `resizeKeyColumns` are queued through a promise chain while
  `query` and `disconnect` can happen between any two awaits. One step is the code between two awaits; the
  label of a step chooses which continuation runs and what the driver answers. That a pool is still usable
  is never a guard of a step: it is proved. `MysqlAdapter` is the object whose fields those turns update,
  method by method tied to the step of the machine; every turn keeps it valid, and every run is a run of it.
* **MySQL schema migration** (`MysqlSchema`). Any number of adapters run `initializeTable` on one table, one
  SQL statement at a time, in any interleaving.
* **Keyset iterators** (`KeysetIterator`) and **cleanup after reads** (`ExpiryCleanup`), with other clients
  changing the table at will in between.
* **Hash slots** (`RedisCommands`, `RedisConnection`, `RedisAdapter`, `ValkeyAdapter`). Batches are split by
  slot, run in any order and put together again.
* **Batches** (`SqliteBatch`, `DynamoBatch`): parameter limits, failing batches, answers in parts.
* **JSON serializer** (`JsonSerializer`, `Base64`, `Decimal`): tags, escaping, and exactly which values come back.
* **Maps** (`JsMap`, `Int32` and `BigMap` in `BigMap.dfy`, `MemoryAdapter`, and the LRU maps of `LruCaches`,
  `Sanitize` and `Stats` in `LruCaches.dfy`).
* **Core** (`KeyvCore`, and `CoreCleanup` for other calls during a read), **legacy bridge** (`Bridge`), **etcd ranges** (`Utf8`, `EtcdRange`) and **whole-second
  expiry** (`Leases`).

The clock is a parameter of every operation and never goes back. At the very millisecond of a deadline the
layers differ (the core compares with `>`, SQLite with `<=`), so the core's reads are stated for both sides of
it. An object whose methods update its fields is a class, and a loop that updates variables is a method with
that loop, proved against a specification function; the theorems are about those functions.

## What the proofs found

* A MySQL adapter whose `end()` rejects during `disconnect` can never be reconnected: `reconnect` awaits the
  rejected shutdown for ever after. The documentation says that `reconnect` reactivates a disconnected adapter;
  `MysqlAtRest.RevivableExactly` gives the exact condition, `MysqlAtRest.StrandedRun` the run.
* The MySQL cleanup after a read re-checks the deadline and spares live rows; the SQLite one deletes by key
  and loses exactly the rows it saw expired and that were written anew in between
  (`ExpiryCleanup.UnguardedCleanupLosesExactly`).
* A MySQL table whose text ids, under the old primary key or index, differ in trailing spaces only cannot be
  migrated; without such a key one adapter can migrate it, but two at once may fail
  (`MysqlSchema.AloneExactly`, `MysqlSchema.TogetherExactly`). The README of the adapter promises that such keys
  are distinct.
* Keyv's own cleanup after a read has the same gap as SQLite's (`CoreCleanup.CleanupLosesExactly`).
* A negative `iterationLimit` reaches the database from the Postgres and MySQL iterators.
* Redis `deleteMany` reports false for an existing key that is given twice.
* Valkey `setMany` with `useSets` on a cluster stores only entries in the slot of the tracking set.
* DynamoDB `getMany`, `hasMany` and `setMany` report nothing found or nothing written when a chunk names a key
  twice, although earlier chunks of a `setMany` have been stored; for a key repeated in different chunks a
  failed put is reported under its last index.
* JSON: besides undefined fields, a field named `__proto__` does not come back.
* Memory adapter: two namespaces without the separator in them can still share keys when the separator has
  more than one character (`a` and `a:` with `::`).
* etcd: the default lease is granted once and rounded down, so writes under the default ttl can expire early,
  although the source comments that rounding up prevents this. Once that lease has ended and the server has
  revoked it, every write without a deadline fails, for ever (`Leases.Run`, `Leases.LateWritesAreRefused`). With
  a default ttl set later, through its setter, a write without a deadline stores nothing and is reported as stored
  (`Leases.LateTtlDropsWrites`). Exactly when which of these happens is in `Leases.KeyvEtcd.Set`.
* Bridge: a batch that lets a key elapse and then sets it again loses the value on the native path only;
  entries of a batch that the legacy store refuses are reported as stored.

## Model

| member | source | states |
|---|---|---|
| `MysqlSafety.RunsAreSafe` | storage/mysql/src/index.ts:261-300 | In every run, whatever clients call and whatever the driver answers between two awaits, no statement is sent to a pool whose `end()` has begun and no pool is ended twice. |
| `MysqlSafety.EndedPoolsAreIdle` | storage/mysql/src/index.ts:294-298 | When the end of a pool has begun, no unsettled query, initialization or transition is still bound to it. |
| `MysqlSafety.RunsReplayTheirPublications` | storage/mysql/src/index.ts:279-293 | In every run uri, table and limits are the initial ones changed by exactly the published requests, in request order; a request that fails before it publishes leaves no trace. |
| `MysqlSafety.RunsCancel` | storage/mysql/src/index.ts:790-795 | In every run a `reconnect` or `useTable` requested before the shutdown of a connected adapter never publishes after it. |
| `MysqlSafety.RunsAreSerial` | storage/mysql/src/index.ts:811-815 | Transitions run one at a time in request order: one that has left the queue finds all earlier ones finished. |
| `MysqlSafety.RunsKeepTheTimer` | storage/mysql/src/index.ts:1053-1088 | In every run the cleanup timer is armed exactly while the adapter is connected with a positive interval. |
| `MysqlSafety.LogStep` | storage/mysql/src/index.ts:261-392 | Any single step adds at most one event to the history, and that event accounts for every change of the ended pools and of the configuration. |
| `MysqlSafety.PoolStep` | storage/mysql/src/index.ts:283-291 | A step replaces the published pool and connection only by publishing a reconnect, and withdraws the pool only when a shutdown has closed it. |
| `MysqlSafety.UsablePools` | storage/mysql/src/index.ts:261-300 | Between any two turns, no pool that a transition, an unsettled query, the constructor or a shutdown may still use or end has been ended. |
| `MysqlSafety.TurnIsSound` | storage/mysql/src/index.ts:261-392 | Every turn keeps the lifecycle invariant and what the history says: safe, in order, cancelled by shutdowns, and accounting for the configuration. |
| `MysqlInvariant.InitInv` | storage/mysql/src/index.ts:427-494 | The constructor establishes the lifecycle invariant. |
| `MysqlInvariant.StepInv` | storage/mysql/src/index.ts:261-392 | Every step of every client call, transition, shutdown and query keeps the lifecycle invariant (clock of shutdowns, queue order, owners of pools, queries of a replaced pool, shape of a shutdown). |
| `MysqlInvariant.RunInv` | storage/mysql/src/index.ts:261-392 | The invariant holds after any legal run from any state that satisfies it. |
| `MysqlLiveness.NoWaitCycle` | storage/mysql/src/index.ts:796-804 | In no state of any run does a query, transition or shutdown wait, directly or through others, for itself. |
| `MysqlLiveness.Progress` | storage/mysql/src/index.ts:811-815 | In every reachable state in which something has not settled, the adapter or the driver can take a step. |
| `MysqlLiveness.InternalRunsEnd` | storage/mysql/src/index.ts:279-298 | Without further client calls a run has a bounded number of steps left. |
| `MysqlLiveness.RunsComeToRest` | storage/mysql/src/index.ts:479-491 | A run can only stop when every query, transition and shutdown has settled; a failed transition stalls nothing behind it. |
| `MysqlAtRest.OpenPoolsAtRest` | storage/mysql/src/index.ts:796-804 | At rest, if no `end()` was rejected, the open pools are exactly the published one while connected, and none when disconnected. |
| `MysqlAtRest.FailedEndIsFinal` | storage/mysql/src/index.ts:796-803 | After a shutdown whose `end()` was rejected the adapter stays disconnected in every further run. |
| `MysqlAtRest.ReconnectRevives` | storage/mysql/src/index.ts:262-291 | After a shutdown that closed its pool there is a run in which `reconnect` brings the adapter back with the new uri. |
| `MysqlAtRest.RevivableExactly` | storage/mysql/src/index.ts:261-267 | A disconnected adapter at rest can be connected again if and only if its last shutdown closed the pool, for every run. |
| `MysqlAtRest.RejectedEndStrands` | storage/mysql/src/index.ts:796-803 | From every connected state at rest there is a run of three steps to a disconnected state at rest whose `end()` was rejected. |
| `MysqlAtRest.StrandedRun` | storage/mysql/src/index.ts:261-267 | For every configuration such a run exists from the constructor on, and no further run ever reconnects. |
| `MysqlOutcome.ResolvedExactly` | storage/mysql/src/index.ts:318-392 | In every run a `useTable` or `resizeKeyColumns` has resolved if and only if it has published its setting, or asked for what was in force when it got its turn while connected. |
| `MysqlOutcome.ResolvedMeans` | storage/mysql/src/index.ts:262-392 | In every run any transition that has resolved has published its own request, or had nothing to do at its turn. |
| `MysqlOutcome.ReconnectedMeans` | storage/mysql/src/index.ts:262-300 | In every run a `reconnect` that has resolved has published its uri. |
| `MysqlOutcome.UseTableTurn` | storage/mysql/src/index.ts:318-325 | At its turn a `useTable` fails if and only if disconnected, is done if and only if connected and the table is in use, and waits for the connection otherwise. |
| `MysqlOutcome.ResizeTurn` | storage/mysql/src/index.ts:355-363 | At its turn a `resizeKeyColumns` fails if and only if disconnected or a merged length is not a positive safe integer or both exceed 3072 bytes, and is done if and only if nothing changes. |
| `MysqlOutcome.FailureFails` | storage/mysql/src/index.ts:273-298 | A failed connection, statement or preparation fails its transition, and so does a rejected `end()` of the previous pool. |
| `MysqlOutcome.TableAdopted` | storage/mysql/src/index.ts:318-333 | From every connected state at rest with a good initialization a run lets `useTable(table)` resolve with that table in use and nothing else changed. |
| `MysqlOutcome.LimitsAdopted` | storage/mysql/src/index.ts:355-391 | The same for `resizeKeyColumns` and any two lengths that fit. |
| `MysqlOutcome.QueryIsSent` | storage/mysql/src/index.ts:479-491 | A query on a connected adapter can be sent to the published pool once the connection is there, and only rejected when it failed; on a disconnected one it leaves no trace. |
| `MysqlAdapter.KeyvMysql.constructor` | storage/mysql/src/index.ts:427-494 | The constructed object is the initial state of the machine, and valid: no pool used or ended after its end, timer armed exactly while connected with a positive interval. |
| `MysqlAdapter.KeyvMysql.SetIntervalExpiration` | storage/mysql/src/index.ts:235-239 | The setter rejects an interval the timer cannot hold and otherwise takes the machine's step. |
| `MysqlAdapter.KeyvMysql.SendQuery` | storage/mysql/src/index.ts:479-491 | Issuing a query takes the machine's step: rejected at once when disconnected, otherwise bound to the current connection and pending. |
| `MysqlAdapter.KeyvMysql.Reconnect` | storage/mysql/src/index.ts:261-264 | The call captures shutdown and generation and joins the queue, as the machine's step does. |
| `MysqlAdapter.KeyvMysql.StartTransition` | storage/mysql/src/index.ts:264-270 | The first turn of each kind of transition, with its early returns and errors, is the machine's step. |
| `MysqlAdapter.KeyvMysql.PublishNextPool` | storage/mysql/src/index.ts:279-293 | The generation check and the switch to the next pool are the machine's step and keep the object valid; the pool that is published or discarded has not been ended. |
| `MysqlAdapter.KeyvMysql.PublishTarget` | storage/mysql/src/index.ts:325-333 | The last turn of `useTable` and `resizeKeyColumns` is the machine's step. |
| `MysqlAdapter.KeyvMysql.WorkAnswered` | storage/mysql/src/index.ts:273-277 | A failed preparation starts to end the next pool, which has not been ended before, and changes nothing else; the object stays valid. |
| `MysqlAdapter.KeyvMysql.PreviousDrained` | storage/mysql/src/index.ts:295-298 | The previous pool is ended only in this turn, once its queries have settled, and has not been ended before. |
| `MysqlAdapter.KeyvMysql.Disconnect` | storage/mysql/src/index.ts:789-805 | A call stops the timer, bumps the generation of a connected adapter, and starts or shares one shutdown, as the machine's step does. |
| `MysqlAdapter.KeyvMysql.ClosePool` | storage/mysql/src/index.ts:800-802 | A shutdown ends whatever pool is published when everything it collected has settled, and that pool has not been ended before. |
| `MysqlAdapter.KeyvMysql.QueryConnected` | storage/mysql/src/index.ts:484-490 | A query is sent to the pool of the promise it was bound to, which has not been ended, or rejected with it. |
| `MysqlAdapter.KeyvMysql.SendWork` | storage/mysql/src/index.ts:842-1022 | A statement of `initializeTable` or of a resize goes to a pool that has not been ended. |
| `MysqlAdapter.KeyvMysql.SendInitialization` | storage/mysql/src/index.ts:427-494 | So do the statements of the table initialization the constructor starts. |
| `MysqlAdapter.KeyvMysql.Turn` | storage/mysql/src/index.ts:261-392 | Every step of the machine is taken by a turn of the object, which keeps it valid. |
| `MysqlAdapter.KeyvMysql.Run` | storage/mysql/src/index.ts:261-392 | Every run of the machine is a run of the object: it is valid all along and ends in the machine's state. |
| `MysqlSchema.MigrationsConverge` | storage/mysql/src/index.ts:842-1022 | Any number of adapters migrating one accepted legacy table, statements interleaved in any way, never fail; ids and namespaces of all rows are kept throughout, and when all are done the schema is the target one. Accepted: widths within the index limit, and no key breaks when trailing spaces of text are ignored, as they are while the columns are `utf8mb4_bin` text. |
| `MysqlSchema.MigrationsCreate` | storage/mysql/src/index.ts:842-1022 | The same for a table that does not exist yet: it has the key and namespace widths of the adapter that sends the first statement, then and ever after. |
| `MysqlSchema.MigrationsFinish` | storage/mysql/src/index.ts:842-1022 | From an accepted legacy table an adapter that gets eleven turns is done, whatever the others do in between; once all have had theirs the schema is the target one and every row keeps its id and namespace. |
| `MysqlSchema.MigratedWidths` | storage/mysql/src/index.ts:842-1022 | When all adapters have had eleven turns, a text column of n characters has 4n bytes, a byte column its width, and an added namespace column the bytes one of the adapters asked for. |
| `MysqlSchema.KeysFit` | storage/mysql/src/index.ts:851-852 | Every key of at most `keyLength` characters fits a column of four times as many bytes in UTF-8. |
| `MysqlSchema.WidthsFit` | storage/mysql/src/index.ts:883-893 | An adapter goes on if and only if both widths are known and together within 3072 bytes once text is widened. |
| `MysqlSchema.ResizeExactly` | storage/mysql/src/index.ts:364-389 | Two lengths within the index limit are refused if and only if a stored key or namespace has more characters; otherwise both columns have four bytes for each and every row is as it was and fits. |
| `MysqlSchema.SecondRunChangesNothing` | storage/mysql/src/index.ts:842-1022 | On a table with the target schema any number of further interleaved runs change nothing and fail nowhere. |
| `MysqlSchema.MigrationsAreIdempotent` | storage/mysql/src/index.ts:842-1022 | After adapters have migrated an accepted legacy table, any number of further interleaved runs leave the table as it is and none of them fails. |
| `MysqlSchema.AloneExactly` | storage/mysql/src/index.ts:842-1022 | A single adapter ends with the target schema and every row kept if and only if the keys of the legacy table still hold without trailing spaces of text and its rows differ; otherwise it fails. |
| `MysqlSchema.TogetherExactly` | storage/mysql/src/index.ts:842-1022 | Some schedule of some adapters lets one of them fail if and only if keys break, or two rows agree in namespace and id, without trailing spaces of text. |
| `MysqlSchema.FailingMigration` | storage/mysql/src/index.ts:930-958 | The schedule: where one adapter alone succeeds, a second one that has read the old column types turns the migrated columns into text again, under the new unique index. |
| `MysqlSchema.TrailingSpaceFails` | storage/mysql/src/index.ts:930-958 | A primary key of text with the ids `key` and `key ` cannot be migrated, although the README of the adapter promises that the two are distinct. |
| `MysqlSchema.StepEffect` | storage/mysql/src/index.ts:842-1022 | Each statement that meets no rows breaking a key keeps the table sound for every migrator that is under way, including one that has read older column types. |
| `KeysetIterator.Iterate` | storage/sqlite/src/index.ts:725-775 | While other clients change the table arbitrarily between batches: keys are yielded strictly increasing, each pair was a live row when read, a row is omitted only if some batch found it absent or expired, and the loop ends within the size of the key universe. |
| `KeysetIterator.StableRowsAreYielded` | storage/postgres/src/index.ts:488-554 | A row that is present and live at every batch is yielded exactly once. |
| `KeysetIterator.CursorAdvances` | storage/mysql/src/index.ts:675-713 | Each batch moves the cursor past at least as many keys of the universe as it yields. |
| `KeysetIterator.BatchLimitPositive` | storage/postgres/src/index.ts:489 | Which configured limits reach the database as a positive batch size, for each adapter. |
| `ExpiryCleanup.GuardedCleanupSparesLiveRows` | storage/mysql/src/index.ts:1094-1106 | However writers interleave between a MySQL read and its cleanup, the cleanup removes no row that is live when it runs. |
| `ExpiryCleanup.UnguardedCleanupLosesExactly` | storage/sqlite/src/index.ts:465-469 | Whatever happens between a SELECT of SQLite and the DELETE that belongs to it, of the rows live at the DELETE exactly those are lost whose key the SELECT saw expired, and each of them was written in between. |
| `ExpiryCleanup.OnlyWritesRevive` | storage/sqlite/src/index.ts:465-469 | In every run an expired or absent row stays so unless its key is written. |
| `ExpiryCleanup.UnwrittenRowsSurvive` | storage/sqlite/src/index.ts:465-469 | A run that does not write a key between SELECT and DELETE loses nothing live under it. |
| `ExpiryCleanup.SelectAnswers` | storage/mysql/src/index.ts:501-561 | A read answers with the value of each row whose deadline, if it has one, is still to come, and nothing otherwise. |
| `ExpiryCleanup.UnguardedCleanupCanLose` | storage/sqlite/src/index.ts:465-469 | For every key there is a run in which a row written anew between read and cleanup is lost. |
| `RedisCommands.GroupBySlot` | storage/redis/src/index.ts:1014-1029 | Each group is exactly one slot's commands with their positions, and every command's slot has a group. |
| `RedisCommands.ShareKeepsOrder` | storage/redis/src/index.ts:470-478 | Within a group the input order is kept, so same-key writes keep theirs. |
| `RedisCommands.OneSlot` | storage/redis/src/index.ts:1014-1029 | Each group holds one slot only. |
| `RedisCommands.ShareReply` | storage/redis/src/index.ts:481-502 | A command gets the same reply in its slot's transaction, run before or after the other slots', as on one connection. |
| `RedisCommands.ExecutedOneMore` | storage/redis/src/index.ts:481-502 | Running one more slot's transaction, in any order of slots, extends what has been executed by that slot. |
| `RedisCommands.ExecutedAll` | storage/redis/src/index.ts:481-502 | When all slots have run, in whatever order, the store is what one transaction in input order leaves. |
| `RedisConnection.RedisServer.RepliesByKey` | storage/redis/src/index.ts:940-966 | On a cluster or on one connection the store ends as one transaction leaves it, and each key maps to the reply to its last command. |
| `RedisAdapter.KeyvRedis.SetMany` | storage/redis/src/index.ts:461-538 | Clustered or not, the last entry of a key is what is held under namespace, separator and key, with its deadline (or at the earliest a millisecond from now, where the server takes relative ones only); other keys are as before, and every entry is reported as stored. |
| `RedisAdapter.KeyvRedis.WriteThenRead` | storage/redis/src/index.ts:461-766 | What was written is read, reported present and as deleted, and then gone. |
| `RedisAdapter.KeyvRedis.HasMany` | storage/redis/src/index.ts:568-620 | Clustered or not, each result is whether the prefixed key exists, in input order. |
| `RedisAdapter.KeyvRedis.GetMany` | storage/redis/src/index.ts:654-673 | Clustered or not, each result is the value of the prefixed key, in input order. |
| `RedisAdapter.KeyvRedis.MGet` | storage/redis/src/index.ts:940-966 | The values of the keys as given, in input order, from any slot grouping. |
| `RedisAdapter.KeyvRedis.DeleteMany` | storage/redis/src/index.ts:704-766 | All given keys are gone and nothing else; a result is true exactly when the key existed and was given once. |
| `RedisAdapter.KeyvRedis.ClearWithClusterSupport` | storage/redis/src/index.ts:972-985 | Exactly the given keys are removed, whatever their slots. |
| `ValkeyAdapter.TrxAt` | storage/valkey/src/index.ts:348-372 | The reply to a group's j-th write is at `j * step`, with and without tracking. |
| `ValkeyAdapter.KeyvValkey.CrossingSlot` | storage/valkey/src/index.ts:335-360 | A group's transaction crosses slots exactly on a cluster with `useSets` when its slot is not the tracking set's. |
| `ValkeyAdapter.KeyvValkey.SetMany` | storage/valkey/src/index.ts:303-384 | Once all transactions have settled: the last defined entry of a key is what is held under its spelled-out name, with its deadline, if that name is accepted; exactly the undefined and the accepted entries are reported; the accepted names are tracked; nothing else changes. |
| `ValkeyAdapter.KeyvValkey.WriteThenRead` | storage/valkey/src/index.ts:215-460 | What was written and accepted is read back and reported present. |
| `ValkeyAdapter.KeyvValkey.GetMany` | storage/valkey/src/index.ts:215-242 | Clustered or not, each result is the key's value, in input order. |
| `ValkeyAdapter.KeyvValkey.HasMany` | storage/valkey/src/index.ts:435-460 | Clustered or not, each result is whether the key exists, in input order. |
| `SqliteBatch.GetEachIsPointwise` | storage/sqlite/src/index.ts:454-473 | Reading keys one by one yields for each, also repeated ones, what the untouched table holds, and removes exactly the expired rows met. |
| `SqliteBatch.KeyvSqlite.GetMany` | storage/sqlite/src/index.ts:482-516 | For every input length each result is the value of the key's row unless its deadline has come (`expires <= now`), and exactly such rows met are removed, as single reads in order would; each statement binds at most 999 parameters. |
| `SqliteBatch.KeyvSqlite.HasMany` | storage/sqlite/src/index.ts:675-704 | Each result is whether the row was live before the call, and exactly the expired rows met are removed. |
| `SqliteBatch.KeyvSqlite.DeleteMany` | storage/sqlite/src/index.ts:615-632 | All given keys are gone, each is reported by whether it was there before, with `ceil(n / 998)` statements. |
| `SqliteBatch.KeyvSqlite.SetMany` | storage/sqlite/src/index.ts:553-590 | The table is the fold of single writes over the entries of the batches that succeed, the last of a row being what it holds with its deadline, and exactly those are reported. |
| `SqliteBatch.KeyvSqlite.WriteThenRead` | storage/sqlite/src/index.ts:454-704 | What was written is read in every form until its deadline comes, by its key with or without the namespace in front. |
| `SqliteBatch.KeyvSqlite.PrefixedKeyIsSame` | storage/sqlite/src/index.ts:820-826 | A key with the namespace in front names the same row as without. |
| `SqliteBatch.ChosenBatch` | storage/sqlite/src/index.ts:564-587 | A batch contributes all its entries to that fold or none. |
| `SqliteBatch.DeleteEachIsPointwise` | storage/sqlite/src/index.ts:597-605 | Deleting one by one reports only the first of repeated keys, where the batched form reports each. |
| `DynamoBatch.KeyvDynamo.FormatKeyTwice` | storage/dynamo/src/index.ts:192-203 | Under any namespace and separator a formatted key formats to itself, so expired items are deleted under the key they were read with. |
| `DynamoBatch.KeyvDynamo.ReadChunk` | storage/dynamo/src/index.ts:366-386 | However the service splits its answers, as long as each makes progress, the loop ends with every stored item of the chunk. |
| `DynamoBatch.KeyvDynamo.ReadChunks` | storage/dynamo/src/index.ts:361-389 | The item map holds for each key exactly what is stored; it fails exactly when a chunk of 100 names a key twice. |
| `DynamoBatch.KeyvDynamo.GetMany` | storage/dynamo/src/index.ts:355-417 | When no chunk names a key twice, each result is the value under namespace, separator and key unless its deadline has come, in input order, and exactly such items met are removed; otherwise nothing is found. |
| `DynamoBatch.KeyvDynamo.HasMany` | storage/dynamo/src/index.ts:531-589 | The same for presence; an expired item without a value is not removed. |
| `DynamoBatch.KeyvDynamo.SetMany` | storage/dynamo/src/index.ts:247-311 | Exactly the puts the service did are stored, each with its deadline (given, or the default time from now) and that deadline's second rounded up; with distinct formatted keys exactly those are reported, and for repeated keys which index reports what is stated. |
| `DynamoBatch.KeyvDynamo.WriteThenRead` | storage/dynamo/src/index.ts:247-417 | What was written and reported is read until its deadline. |
| `DynamoBatch.KeyvDynamo.Reported` | storage/dynamo/src/index.ts:272-302 | With distinct keys the flags after all chunks are false exactly for entries left unprocessed. |
| `Base64.DecodeEncode` | core/keyv/src/json-serializer.ts:18-45 | That decoder gives back any bytes from their base64 encoding (RFC 4648, section 4). |
| `Base64.GroupAt` | core/keyv/src/json-serializer.ts:18-30 | Every three bytes are the four characters for their 24 bits in RFC 4648, section 4. |
| `Base64.TailAt` | core/keyv/src/json-serializer.ts:18-30 | One or two bytes at the end are two or three characters and padding. |
| `Base64.Alphabet` | core/keyv/src/json-serializer.ts:18-30 | The alphabet is that of RFC 4648, section 4. |
| `Base64.BytesToBase64` | core/keyv/src/json-serializer.ts:18-30 | The character loop computes the base64 encoding. |
| `Base64.Base64ToBytes` | core/keyv/src/json-serializer.ts:32-45 | The byte loop gives what the forgiving decoder of `atob` gives, whitespace and missing padding included, and fails on a text it rejects. |
| `Decimal.ParsePrint` | core/keyv/src/json-serializer.ts:70 | Reading the decimal text of any integer, negative ones included, gives the integer. |
| `Decimal.Notation` | core/keyv/src/json-serializer.ts:70 | The text of an integer is its decimal notation, digit by digit. |
| `JsonSerializer.StringsSurvive` | core/keyv/src/json-serializer.ts:73-74 | A string that begins with a colon, even one that looks like a tag, is escaped so that the reviver gives it back. |
| `JsonSerializer.StoredTexts` | core/keyv/src/json-serializer.ts:60-75 | A bigint is stored as `:bigint:` and its digits, bytes as `:base64:` and their encoding, a string with one more colon if it begins with one and as it is otherwise. |
| `JsonSerializer.OtherTexts` | core/keyv/src/json-serializer.ts:60-98 | Null, booleans and finite numbers are themselves, what is not finite is null, an object with `toJSON` is its result, undefined has no text. |
| `JsonSerializer.ItemText` | core/keyv/src/json-serializer.ts:77-79 | An array item without a text is null. |
| `JsonSerializer.FieldText` | core/keyv/src/json-serializer.ts:87-95 | A field without a text, or named `__proto__`, is left out. |
| `JsonSerializer.PrepareIsPrepared` | core/keyv/src/json-serializer.ts:60-98 | No bigint, byte array or `toJSON` object is left for `JSON.stringify` at any depth. |
| `JsonSerializer.RoundTrip` | core/keyv/src/json-serializer.ts:101-121 | For every value tree `parse` never throws on what `stringify` wrote and gives back what survives; `stringify` writes no text exactly when nothing survives. |
| `JsonSerializer.CleanExactly` | core/keyv/src/json-serializer.ts:60-98 | What survives equals the value if and only if the tree holds no undefined, non-finite number, `toJSON` object or `__proto__` field. |
| `JsonSerializer.RoundTripExactly` | core/keyv/src/json-serializer.ts:101-121 | `parse(stringify(v))` equals `v` if and only if `v` is clean in that sense. |
| `JsonSerializer.UndefinedFieldsVanish` | core/keyv/src/json-serializer.ts:87-92 | `parse(stringify(v))` is `v` without its undefined fields if and only if `v` is clean but for such fields. |
| `JsonSerializer.TextsDiffer` | core/keyv/src/json-serializer.ts:101-103 | Two clean values with one text are one value. |
| `Int32.MaskIsRemainder` | core/bigmap/src/index.ts:72-77 | Masking with `n - 1` is the remainder by `n` for every power of two. |
| `Int32.PowersOfTwo` | core/bigmap/src/index.ts:72-74 | `n & (n - 1)` is zero exactly for the powers of two. |
| `Int32.BitwiseIs` | core/bigmap/src/index.ts:66-74 | `&` and `^` act on each binary digit. |
| `BigMap.MixIs` | core/bigmap/src/index.ts:52-70 | The signed 32-bit mixing is, in unsigned arithmetic, the sum of length and sampled characters with their factors, folded by 16 bits, multiplied, and folded by 13 bits. |
| `BigMap.DefaultHashIs` | core/bigmap/src/index.ts:52-78 | For every key and size the hash is that word modulo the size. |
| `BigMap.ReduceIsRemainder` | core/bigmap/src/index.ts:72-77 | For every word and every size below 2^32 the mask is taken exactly for powers of two and both paths give the remainder. |
| `BigMap.HashInRange` | core/bigmap/src/index.ts:52-78 | For every key, the empty one included, and every size the index is in range. |
| `BigMap.BigMap.Resolve` | core/bigmap/src/index.ts:386-409 | The inlined hash names the shard the hash function names, default or custom, and it exists. |
| `BigMap.ContentsAt` | core/bigmap/src/index.ts:341-347 | Reading a key's resolved shard reads the single map the shards stand for. |
| `BigMap.SetContents` | core/bigmap/src/index.ts:369-378 | Setting in the resolved shard updates that map at the key alone and keeps every key in its shard only. |
| `BigMap.DeleteContents` | core/bigmap/src/index.ts:306-317 | Deleting in the resolved shard removes the key from that map alone. |
| `BigMap.BigMap.Get` | core/bigmap/src/index.ts:341-347 | The value is the single map's. |
| `BigMap.BigMap.Set` | core/bigmap/src/index.ts:369-378 | The single map gains the pair; every key stays in its own shard only. |
| `BigMap.BigMap.Delete` | core/bigmap/src/index.ts:306-317 | The single map loses the key; the result is whether it was there. |
| `BigMap.BigMap.Has` | core/bigmap/src/index.ts:354-360 | The result is whether the single map has the key. |
| `BigMap.BigMap.Clear` | core/bigmap/src/index.ts:292-298 | The single map is empty. |
| `BigMap.BigMap.Size` | core/bigmap/src/index.ts:204-211 | The sum over the shards is the number of keys of the single map. |
| `BigMap.BigMap.Entries` | core/bigmap/src/index.ts:254-258 | Every pair of the single map is enumerated exactly once. |
| `BigMap.BigMap.SetStoreSize` | core/bigmap/src/index.ts:158-167 | A size below 1 is refused; otherwise the map is cleared and stays consistent with the new size. |
| `LruCaches.SuffixStep` | core/keyv/src/sanitize.ts:187-210 | Using a key and keeping the last n distinct inputs is using it among the last n. |
| `LruCaches.UseIs` | core/keyv/src/sanitize.ts:187-210 | One use keeps the keys of the map the most recent distinct inputs in order of last use, and changes the value of that key only. |
| `LruCaches.InOrderOfUse` | core/keyv/src/sanitize.ts:187-210 | Of two distinct inputs the one used later stands later. |
| `Sanitize.CleanCached` | core/keyv/src/sanitize.ts:187-210 | On a hit and on a miss the result is the uncached one, and the cache again holds the most recent distinct inputs. |
| `Sanitize.KeyvSanitize.CleanKey` | core/keyv/src/sanitize.ts:187-210 | Over all call histories the cached cleaning of a key equals the uncached one. |
| `Sanitize.KeyvSanitize.CleanNamespace` | core/keyv/src/sanitize.ts:226-249 | The same for namespaces, in a cache of their own. |
| `Sanitize.KeyvSanitize.CleanKeys` | core/keyv/src/sanitize.ts:215-221 | The same for lists, in order. |
| `Sanitize.KeyvSanitize.UpdateOptions` | core/keyv/src/sanitize.ts:173-182 | New patterns start with empty caches, so no old result survives. |
| `Sanitize.RunPatterns` | core/keyv/src/sanitize.ts:118-125 | The loop applies the patterns from first to last, each to what the one before left. |
| `Sanitize.CacheIsBounded` | core/keyv/src/sanitize.ts:196-203 | A cache never holds more than ten thousand results. |
| `LruCaches.CountStep` | core/keyv/src/stats.ts:201-215 | An increment counts one more for a key that is in the map, starts at one for one that is not, and leaves other counts alone. |
| `Stats.KeyvStats.IncrementKeys` | core/keyv/src/stats.ts:201-215 | The map holds the most recent distinct keys, each with the number of increments since it last entered. |
| `Stats.KeyvStats.On` | core/keyv/src/stats.ts:227-230 | An event raises its total and updates only its own map. |
| `Stats.KeyvStats.Reset` | core/keyv/src/stats.ts:284-295 | Every total is zero and every map starts anew. |
| `MemoryAdapter.AgreesSet` | core/keyv/src/adapters/memory.ts:217-226 | A write keeps the prefixed cells and the namespaced map in agreement and touches no other prefix. |
| `MemoryAdapter.AgreesDelete` | core/keyv/src/adapters/memory.ts:252-255 | So does a deletion, and so does removing an entry past its deadline. |
| `MemoryAdapter.OthersUnaffected` | core/keyv/src/adapters/memory.ts:165-171 | What an adapter does on a shared store leaves another one's map alone when neither prefix begins the other. |
| `MemoryAdapter.SharedKeys` | core/keyv/src/adapters/memory.ts:165-171 | Two prefixes have a key in common if and only if one begins the other. |
| `MemoryAdapter.NamespacesApart` | core/keyv/src/adapters/memory.ts:165-171 | Different non-empty namespaces free of a one-character separator never share keys. |
| `MemoryAdapter.LongSeparatorsShare` | core/keyv/src/adapters/memory.ts:165-171 | With a longer separator, two namespaces free of it can share keys. |
| `MemoryAdapter.DoBeside` | core/keyv/src/adapters/memory.ts:165-171 | A read, write, removal or clear of one adapter leaves another one on the same store valid, with its map as it was, when neither prefix begins the other. |
| `MemoryAdapter.Interleave` | core/keyv/src/adapters/memory.ts:165-171 | However the operations of two such adapters interleave, each answers and ends as if it were alone on the store. |
| `MemoryAdapter.KeyvMemoryAdapter.Get` | core/keyv/src/adapters/memory.ts:195-208 | Under any history and a clock that never goes back, a read shows the namespaced map's entry up to and at its deadline, and nothing after it. |
| `MemoryAdapter.KeyvMemoryAdapter.Has` | core/keyv/src/adapters/memory.ts:286-299 | The same for presence. |
| `MemoryAdapter.KeyvMemoryAdapter.Set` | core/keyv/src/adapters/memory.ts:217-226 | The namespaced map is updated, the entry is held with its deadline under namespace, separator and key, and other prefixes are untouched. |
| `MemoryAdapter.KeyvMemoryAdapter.Delete` | core/keyv/src/adapters/memory.ts:252-255 | The namespaced map loses the key; a live entry is always reported, an unknown key never. |
| `MemoryAdapter.KeyvMemoryAdapter.Clear` | core/keyv/src/adapters/memory.ts:262-279 | Exactly the cells under the prefix go. |
| `MemoryAdapter.KeyvMemoryAdapter.GetMany` | core/keyv/src/adapters/memory.ts:320-340 | The fold of the single reads. |
| `MemoryAdapter.KeyvMemoryAdapter.HasMany` | core/keyv/src/adapters/memory.ts:306-313 | The fold of the single presence checks. |
| `MemoryAdapter.KeyvMemoryAdapter.SetMany` | core/keyv/src/adapters/memory.ts:232-245 | The fold of the single writes. |
| `MemoryAdapter.KeyvMemoryAdapter.DeleteMany` | core/keyv/src/adapters/memory.ts:347-362 | The fold of the single deletions, with the reports of the single form. |
| `MemoryAdapter.KeyvMemoryAdapter.Iterate` | core/keyv/src/adapters/memory.ts:369-403 | An uninterrupted iteration yields exactly the live pairs of the namespace, each once. |
| `MemoryAdapter.WriteThenRead` | core/keyv/src/adapters/memory.ts:195-403 | After a write, whatever else the adapter does that spares the key, `get`, `has`, their many-forms and the iterator find the value if and only if `now <= expires` or there is no deadline. |
| `KeyvCore.Decode` | core/keyv/src/keyv.ts:1070-1099 | Decoding what the configured pipeline encoded gives the envelope back, for every choice of codecs that invert each other. |
| `KeyvCore.Keyv.Set` | core/keyv/src/keyv.ts:613-661 | An accepted write has the deadline now plus the given ttl if that is positive and finite, and none if it is given otherwise; without one it has that of the default ttl; other keys keep theirs, and a refused write changes nothing. |
| `KeyvCore.WriteThenRead` | core/keyv/src/keyv.ts:386-661 | A value written with a ttl, or under the default one, is read in every way until that time has passed and not after it; without one it is read for ever. |
| `KeyvCore.Encode` | core/keyv/src/keyv.ts:1046-1068 | A value is serialized, then compressed, then encrypted. |
| `KeyvCore.Keyv.Get` | core/keyv/src/keyv.ts:386-438 | Over an adapter that reaps late but never early a read shows the last write before its deadline and nothing after it, to the millisecond. |
| `KeyvCore.Keyv.GetMany` | core/keyv/src/keyv.ts:465-501 | The same for lists, in order. |
| `KeyvCore.Keyv.GetRaw` | core/keyv/src/keyv.ts:509-548 | The same for envelopes. |
| `KeyvCore.Keyv.GetManyRaw` | core/keyv/src/keyv.ts:555-604 | The same for lists of envelopes. |
| `KeyvCore.Keyv.Has` | core/keyv/src/keyv.ts:914-944 | Presence is that of the raw read. |
| `KeyvCore.Keyv.HasMany` | core/keyv/src/keyv.ts:951-975 | The same for lists. |
| `KeyvCore.FormsAgree` | core/keyv/src/keyv.ts:914-944 | Read every way on one object at one time, away from the very millisecond of a deadline: `has` is whether `getRaw` finds something, `get` is its value, and each many-form is its single form. |
| `KeyvCore.Keyv.DecodeWithExpire` | core/keyv/src/keyv.ts:1109-1140 | Without other calls in between, rows past their deadline come back undefined, and deleting their keys removes no entry that is not past it. |
| `CoreCleanup.CleanupLosesExactly` | core/keyv/src/keyv.ts:1109-1140 | With any other calls in between, of the entries live at the deletion a read loses exactly those whose key it had fetched with an entry past its deadline, and each of them was written since the fetch. |
| `CoreCleanup.CleanupCanLose` | core/keyv/src/utils.ts:67-83 | For every key there is a run in which an entry written while the read decodes is lost. |
| `KeyvCore.Keyv.DeleteExpiredKeys` | core/keyv/src/utils.ts:67-83 | The loop makes exactly the rows past their deadline undefined. |
| `KeyvCore.TtlRoundTrip` | core/keyv/src/utils.ts:18-61 | A resolved ttl is absent exactly when there is no deadline, and otherwise is recovered from the deadline. |
| `EtcdRange.PrefixEnd` | storage/etcd/src/client.ts:91-105 | For every prefix, the empty one and all bytes 0xFF included, the computed range holds exactly the keys that begin with the prefix. |
| `EtcdRange.RangeIsPrefix` | storage/etcd/src/client.ts:96-101 | A prefix whose last raisable byte is followed by any bytes 0xFF is the range up to that byte raised. |
| `EtcdRange.OnesAreLast` | storage/etcd/src/client.ts:103-104 | What does not begin with a run of bytes 0xFF lies below it. |
| `Utf8.EncodePrefix` | storage/etcd/src/client.ts:95 | One string begins another if and only if its UTF-8 bytes (RFC 3629, section 3) begin the other's. |
| `Utf8.DecodeEncode` | storage/etcd/src/client.ts:80-82 | Decoding the encoding of any string gives the string. |
| `Utf8.EncodeCharTable` | storage/etcd/src/client.ts:80-82 | Each character is encoded by the table of RFC 3629, section 3. |
| `EtcdRange.KeyvEtcd.Clear` | storage/etcd/src/index.ts:446-455 | Exactly the keys of the namespace are deleted, all keys without one. |
| `EtcdRange.KeyvEtcd.Iterate` | storage/etcd/src/index.ts:464-490 | An uninterrupted iteration yields exactly the live keys of the namespace, each once and without its prefix, and deletes only its expired ones. |
| `EtcdRange.KeyvEtcd.PairsAre` | storage/etcd/src/index.ts:464-490 | The pairs of the listed keys are exactly the live ones, with distinct names. |
| `EtcdRange.KeyvEtcd.Set` | storage/etcd/src/index.ts:237-326 | The value is stored under namespace, separator and key, the prefix once, with its deadline to the millisecond. |
| `EtcdRange.KeyvEtcd.Get` | storage/etcd/src/index.ts:255-271 | A value is found up to and at its deadline; after it, it is removed. |
| `EtcdRange.KeyvEtcd.WriteThenRead` | storage/etcd/src/index.ts:255-490 | What was written is found by `get` and the iterator up to and at its deadline, until the namespace is cleared. |
| `Leases.KeyvEtcd.Set` | storage/etcd/src/index.ts:307-332 | A lease for a deadline never ends before it, and less than a second after one that is not past, and such a write is never refused. A write to the default lease is refused exactly when the server has revoked that lease, never before its end; if taken, it is kept for the current default ttl if and only if it is in time after the grant. A write is dropped exactly when a default ttl is set but no lease was made. |
| `Leases.SecondWriteEndsEarly` | storage/etcd/src/client.ts:306-319 | Under every default ttl of at least a second, a second write before the first one's lease has ended is taken, and gone before its own ttl is over. |
| `Leases.LateWritesAreRefused` | storage/etcd/src/index.ts:328-331 | Once the server has revoked the default lease, every write without a deadline is refused and stores nothing, however often it is tried. |
| `Leases.Run` | storage/etcd/src/index.ts:307-332 | Over every run of writes and changes of the ttl, whenever the server revokes what has ended: only writes to the default lease are refused, only after its end, and after the first refusal all of them. |
| `Leases.InTimeExactly` | storage/etcd/src/index.ts:92-95 | For an unchanged ttl a write is in time if and only if it is the one the lease is granted with and the ttl a whole number of seconds, or the ttl is below a second and leaves room. |
| `Leases.EtcdClient.PutRaw` | storage/etcd/src/client.ts:193-202 | A put is refused exactly when its lease has been revoked, and then stores nothing. |
| `Leases.LateTtlDropsWrites` | storage/etcd/src/index.ts:152-154 | When the default ttl is set after construction, a write without a deadline is reported as stored and nothing is stored. |
| `Leases.EtcdClient.LeaseGrant` | storage/etcd/src/client.ts:215-219 | The server gets the floor of the seconds, at least one. |
| `Leases.Lease.Put` | storage/etcd/src/client.ts:306-319 | The first use grants the lease, once and for all; later uses share its end, are refused only after that end, and always once it has been revoked. |
| `Leases.ExptimeNeverEarly` | storage/memcache/src/index.ts:172-183 | A memcached item never expires before its deadline, and less than a second after one that is not past; without a deadline it never expires. |
| `Bridge.BatchesAgree` | core/keyv/src/adapters/bridge.ts:328-362 | On every store the native batch leaves what single writes leave if and only if no later entry revives a key that an earlier one lets elapse. |
| `Bridge.DistinctAgree` | core/keyv/src/adapters/bridge.ts:328-362 | With distinct keys both paths leave the same store. |
| `Bridge.BatchDeadlinesKept` | core/keyv/src/adapters/bridge.ts:304-321 | On the native path and on the fallback, what a batch stores with a deadline has the positive ttl that ends at it, and no elapsed deadline is stored. |
| `Bridge.InOrderAt` | core/keyv/src/adapters/bridge.ts:355-361 | The last entry for a key decides its cell. |
| `Bridge.HasDiffersExactly` | core/keyv/src/adapters/bridge.ts:370-379 | The native and the fallback `has` differ exactly on stored data past its own deadline. |
| `Bridge.KeyvBridgeAdapter.GetMany` | core/keyv/src/adapters/bridge.ts:258-289 | Both paths read each key as it was, repeated keys included, and remove the expired ones among them. |
| `Bridge.KeyvBridgeAdapter.SetMany` | core/keyv/src/adapters/bridge.ts:328-362 | Which of the two folds each path leaves of the entries the store takes, with every deadline kept; every entry is reported as stored, also a refused one. |
| `Bridge.KeyvBridgeAdapter.Set` | core/keyv/src/adapters/bridge.ts:304-321 | An elapsed deadline deletes; otherwise the cell gets the time left, unless the store answers false, which is passed on. With the two readings of the clock apart, a deadline is stored without a ttl if and only if it elapses between them. |
| `Bridge.KeyvBridgeAdapter.WriteThenRead` | core/keyv/src/adapters/bridge.ts:238-400 | What was written before its deadline and taken is read back while the deadline the data itself carries lasts; what was written at or after its deadline is gone. |
| `Bridge.KeyvBridgeAdapter.HasMany` | core/keyv/src/adapters/bridge.ts:387-400 | Results and store on each of the three paths. |
| `Bridge.KeyvBridgeAdapter.DeleteMany` | core/keyv/src/adapters/bridge.ts:418-440 | All given keys are gone on both paths; where the reports differ for repeated keys. |

## Left out

- MysqlSafety.RunsCancel: a shutdown requested of an adapter that is already disconnected does not bump the generation and cancels nothing, so only shutdowns of a connected adapter are events.
- MysqlOutcome.LimitsAdopted: in the lifecycle the scan that may refuse a narrowing counts as the answer to the first statement; what it refuses is `MysqlSchema.ResizeExactly`.
- MysqlSchema.MigrationsConverge: a legacy key holds on the exact values of its columns, whatever its collation; of collations only the padding of `utf8mb4_bin` is modelled, and indexes on other columns are not.
- KeysetIterator.Iterate: SQL collation is any strict total order; a negative limit is modelled as a refused statement.
- RedisAdapter.KeyvRedis.SetMany: the server's own removal of expired keys is not modelled, only the deadline it is given; no command fails; lost connections and the error results of the driver are not modelled.
- ValkeyAdapter.KeyvValkey.SetMany: states the array after every transaction has settled; after a rejection the caller may look at it earlier.
- RedisConnection.RedisServer.RepliesByKey: hash slots are an arbitrary function of the key, and a transaction over two slots is rejected as a whole.
- SqliteBatch.KeyvSqlite.SetMany: which batches succeed is an arbitrary function of the batch number; why one fails is not modelled.
- DynamoBatch.KeyvDynamo.GetMany: only one client at a time, and a service that answers part of the keys makes progress in each round.
- JsonSerializer.RoundTrip: a JSON text is the tree it denotes, so character escapes and number formats of JavaScript's own JSON are not modelled; neither are negative zero, cyclic values and getters.
- Decimal.ParsePrint: other literals `BigInt` reads in foreign texts (empty, hexadecimal, padded) are not modelled.
- Base64.Base64ToBytes: decodes as `atob` does; Node's `Buffer`, which ignores characters outside the alphabet, is not modelled. On encodings the two agree.
- BigMap.BigMap.Set: the hash function is fixed; replacing it on a map that holds entries is not supported by the program either. Sizes are whole numbers below 2^32.
- Sanitize.CleanCached: a pattern is an arbitrary function on strings; regular expressions and the choice of patterns from options are not modelled.
- MemoryAdapter.KeyvMemoryAdapter.Iterate: no other operation happens between two yields. Underlying stores with a size limit are not modelled.
- MemoryAdapter.KeyvMemoryAdapter.Delete: the result for an entry that is past its deadline and not yet removed is left open.
- KeyvCore.Keyv.Get: one call at a time (what other calls during a read can change is `CoreCleanup`); sanitization is off and expiry checks are on; hooks, events and telemetry are not modelled, and the store starts empty.
- KeyvCore.Decode: codecs are inverse pairs, both halves present.
- EtcdRange.KeyvEtcd.Iterate: keys under the prefix are UTF-8; strings are sequences of Unicode scalar values, so lone surrogates are not modelled.
- Leases.KeyvEtcd.Set: the setters of `lease` and `client` are not modelled; requests reach the server, which may revoke a lease at its end or any time later, and keeps it until then.
- Bridge.KeyvBridgeAdapter.SetMany: the clock stands still during one call; two readings of it are told apart in `Set` only.
- Bridge.KeyvBridgeAdapter.GetMany: the legacy store's own ttl handling, and batches that are not pointwise, are not modelled.
- Drivers, sockets, HTTP clients, SQL parsing, connection strings and option merging are not part of this model: a table is a map, a statement one atomic operation on it.
- Compression, encryption, msgpackr and superjson are not part of this model: they are arbitrary inverse pairs.
- `calculateSlot`, Redis SCAN loops, Dynamo `clear` and its single scan page, Mongo, Cloudflare KV and the Postgres pool cache are not modelled.
- Keyv's `setMany`, `setRaw`, `setManyRaw`, `clear` and iterator would add easy members beside `set` and the reads.
