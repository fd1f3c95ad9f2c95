# Redis feature store: a verified model

This project models the consistency core of `redis_feature_store.js`, the Redis-backed store
for versioned feature-flag and segment records. The Redis client, JSON and the callbacks are
abstracted away. What remains is a set of pure transitions on an abstract Redis keyspace:

- `Backend.State`: hash keys mapped to hashes (record key to record), plus whether the
  `<prefix>:$inited` marker exists.
- `Backend.Command`: the write commands the store queues (`DEL`, `HMSET`, `HSET`, `SET` of the
  marker), with their Redis semantics.
- `Keys`: key derivation, `(prefix || "launchdarkly") + ":" + namespace` and `...:$inited`.
- `Connection`: the `connected` / `initialConnect` flags and the `connect` / `end` handlers.
- `Reads`: `doGet`, `getInternal`, `getAllInternal` (fallback snapshot and live read) and
  `initializedInternal`.
- `BulkInit`: `initInternal`, written as a loop over the namespaces in any order. It stages
  DEL + HMSET per collection and then applies the whole MULTI block, marker included, when
  EXEC succeeds.
- `VersionedUpsert`: `updateItemWithVersioning` / `upsertInternal`. One pass reads, decides
  and commits. An invalidated EXEC re-runs the same decision on the state that another
  client's write left behind.
- `Walkthrough`: one flag's life through init, stale upsert, soft delete and reads.

Whatever the model cannot see is a parameter. That covers the reply of each Redis request
(`Types.Reply`), the EXEC outcome, and the competing write that invalidates a transaction
(`VersionedUpsert.ExecReply`). It also covers the connection flag at the moment of a read and
the fallback provider (absent, rejecting, or resolving to a snapshot).

Where the code's behaviour may surprise a reader, the model follows the code:

- The store starts out connected only when `redisOpts.client` was given. A client passed as
  `preconfiguredClient` starts disconnected (`Connection.Initial`).
- While disconnected, `getAllInternal` delivers the fallback sub-collection and still issues
  the live HGETALL. Both callbacks may fire (`Reads.GetAllAlwaysAsksRedis`).
- `getLocalFeatureStore` has no default. When it was not supplied, a disconnected
  `getAllInternal` throws before issuing any request or making any callback
  (`Reads.GetAllInternal`).
- `initializedInternal` does not look at the connection flag.
- `doGet` answers `null` when the store believes it is disconnected or when HGET fails. The
  upsert decision treats that answer as "no stored record". So in that case the version check
  is skipped, and a committed EXEC overwrites a newer record
  (`VersionedUpsert.UnreadableStoreSkipsVersionCheck`). Whether EXEC commits in that state
  depends on the Redis client, which is not part of this model.
- An empty-string prefix falls back to `launchdarkly`, like a missing one (`prefix || ...`).
- `JSON.parse` failures are not caught by the code (see Left out).

## Model

| member | source | states |
|---|---|---|
| Keys.EffectivePrefix | redis_feature_store.js:17 | the prefix is never empty; a non-empty prefix is used verbatim |
| Keys.DefaultKeys | redis_feature_store.js:17-18 | with no prefix, or the empty prefix, the keys are `launchdarkly:<namespace>` and `launchdarkly:$inited` |
| Keys.CustomKeys | redis_feature_store.js:59-61 | a non-empty prefix gives `<prefix>:<namespace>` and `<prefix>:$inited` |
| Keys.ItemsKeyInjective | redis_feature_store.js:59-61 | under one prefix, two namespaces give the same collection key exactly when they are equal |
| Keys.MarkerKeyClash | redis_feature_store.js:18 | the marker key equals a collection key exactly for the namespace `$inited` |
| Connection.Initial | redis_feature_store.js:29-30 | initially connected exactly when `redisOpts.client` was supplied, and waiting for a first connection exactly when not |
| Connection.OnEvent | redis_feature_store.js:40-51 | `connect` sets connected and clears initialConnect, and is reported as a reconnection exactly when initialConnect was already false; `end` clears connected only |
| Connection.ReplayFlags | redis_feature_store.js:40-51 | after any event sequence the store is connected exactly when the last event was `connect`, and still awaits its first connection exactly when it started so and no `connect` arrived |
| Connection.ReconnectWarning | redis_feature_store.js:42-45 | a `connect` logs the reconnect warning exactly when the store did not start awaiting a first connection or an earlier `connect` arrived |
| Backend.Apply | redis_feature_store.js:142-185 | the commands queued at :142-155 (DEL, HMSET, SET) and at :185 (HSET): DEL removes the hash, HMSET merges into it, HSET sets one field and leaves the others, SET creates the marker; no other key changes |
| Reads.DoGet | redis_feature_store.js:64-82 | the raw read returns a record, deleted or not, exactly when connected, HGET succeeded and the field exists, and then it is the stored record |
| Reads.ReadsWaitForFirstConnect | redis_feature_store.js:29-30 | without `redisOpts.client`, even with a preconfigured client, every raw read returns null until a `connect` event arrives |
| Reads.DisconnectedReadIgnoresBackend | redis_feature_store.js:67-71 | while disconnected both reads return null whatever Redis holds |
| Reads.GetInternal | redis_feature_store.js:84-93 | the public read returns the stored record exactly when the raw read would and the record is not soft-deleted |
| Reads.GetAllInternal | redis_feature_store.js:95-131 | while disconnected with no fallback provider the call throws and makes no request and no callback; otherwise the fallback is consulted exactly when disconnected, delivering null when its promise rejects and else the snapshot's `features` for the namespace `features` and its `segments` for every other namespace; the live delivery is null exactly on a Redis error, otherwise it holds exactly the stored records of the collection |
| Reads.GetAllAlwaysAsksRedis | redis_feature_store.js:97-115 | a connected call never throws, and whenever a fallback provider was supplied the live read's result does not depend on the connection flag: the degraded branch does not suppress it |
| Reads.FreshStoreNotInitialized | redis_feature_store.js:200-205 | a store that was never written reports not initialised |
| BulkInit.Replace | redis_feature_store.js:142-151 | after one namespace's commands its hash holds exactly the supplied records, or is absent when they are empty; nothing else changes |
| BulkInit.ReplaceIsDelThenHmSet | redis_feature_store.js:142-151 | that effect is exactly DEL followed by HMSET, with the HMSET skipped for an empty collection |
| BulkInit.StageOne | redis_feature_store.js:136-153 | queuing one more namespace keeps every collection already queued, because distinct namespaces have distinct keys |
| BulkInit.InitInternal | redis_feature_store.js:133-163 | on EXEC success every named collection equals its supplied records (empty ones end up absent), unnamed hashes are untouched and the marker is set; on an error Redis is unchanged |
| BulkInit.ReinitializedUnique | redis_feature_store.js:136-153 | the result of a committed init is fully determined by the data, whatever order the namespaces were visited in |
| BulkInit.InitializedAfterInit | redis_feature_store.js:200-205 | after a committed init, which sets the marker, the initialised query answers true exactly when its EXISTS request succeeds |
| BulkInit.ReadsAfterInit | redis_feature_store.js:133-163 | after a committed init the live read of a named collection returns exactly its supplied records and the raw read returns each supplied record |
| BulkInit.UnnamedCollectionsUntouched | redis_feature_store.js:136-153 | a collection not named in the data keeps its hash |
| VersionedUpsert.Decide | redis_feature_store.js:180-184 | keep the stored record exactly when the read was connected and successful and found a record with version at least the new one, and then it is that record |
| VersionedUpsert.Attempt | redis_feature_store.js:174-198 | a pass retries exactly when it decided to write and EXEC was invalidated; a finished pass without error leaves the returned record stored; on error it returns the new record and changes nothing; only that one field of that one hash can change |
| VersionedUpsert.Upsert | redis_feature_store.js:165-198 | a callback without error hands back the record now stored under the key; with an error it hands back the new record; the returned record is the new one or one at least as new |
| VersionedUpsert.StaleUpsert | redis_feature_store.js:180-183 | a stored record (soft-deleted or not) at least as new wins: the state is unchanged and it is returned without error |
| VersionedUpsert.AcceptedUpsert | redis_feature_store.js:185-192 | an absent or older stored record and a committed EXEC give exactly `collection[key] := item`: other records, other collections and the marker are unchanged, and the new record is returned |
| VersionedUpsert.ReadAfterUpsert | redis_feature_store.js:185-192 | after an accepted upsert the raw read returns the new record and the public read returns it unless it is a soft delete |
| VersionedUpsert.UpsertKeepsMarker | redis_feature_store.js:174-198 | an upsert never clears the initialisation marker, and it can appear during one only through a competing initialisation that invalidated a pass |
| VersionedUpsert.UnreadableStoreSkipsVersionCheck | redis_feature_store.js:180-185 | when the read sees nothing because of a disconnection or HGET error, a committed EXEC writes the new record whatever version was stored |
| VersionedUpsert.RetryAfterCompetingWrite | redis_feature_store.js:186-190 | an invalidated pass returns nothing; after a competing accepted write and a clean retry, the stored record is the newer of the two and its version is their maximum |
| VersionedUpsert.SettleKeepsNewest | redis_feature_store.js:181-192 | after any sequence of clean upserts (connected, read ok, EXEC committed) of one record, the stored record is one of the writes or the original, and its version is at least every write's and the original's |
| VersionedUpsert.SettleOrderIrrelevant | redis_feature_store.js:174-198 | with distinct versions, any reordering of the same clean upserts (connected, read ok, EXEC committed) leaves the same record stored; an unreadable pass skips the version check (`VersionedUpsert.UnreadableStoreSkipsVersionCheck`), so the property is stated for clean passes only |
| Walkthrough.FlagLifecycle | redis_feature_store.js:84-205 | init then get finds version 1; a stale upsert changes nothing and returns the stored record; a version-2 soft delete is accepted, hidden from the public read and visible to the raw read |

## Left out

- The Redis client itself: connection set-up, `unref`, `quit` (`close`), the `error` and
  `reconnecting` listeners, WATCH bookkeeping and the offline command queue. Every reply is
  a parameter instead.
- Real concurrency. Interleaving is reduced to one arbitrary competing write per invalidated
  EXEC, applied before the retry.
- Termination of the retry loop. `updateItemWithVersioning` retries without bound. The model follows a
  finite list of passes and reports `Pending` when that list runs out.
- Partial EXEC failure. A failed EXEC is modelled as applying nothing; Redis does not roll
  back a transaction whose individual commands fail.
- The JSON codec. Records are stored as they are. `JSON.parse` on a malformed payload throws
  uncaught at redis_feature_store.js:78 and :125; that behaviour is not modelled.
- The fallback provider's promise timing: its callback is modelled as delivered, not when.
  A resolved value without `features` or `segments` properties is not modelled either.
- `versioned_data_kind`, which is not part of this model. `initInternal` uses the namespace
  key of `allData` directly as the kind's namespace. An unknown namespace, which would throw
  in `initInternal`, is not modelled.
- The marker key sharing the keyspace with the collections. The marker is a separate flag.
  `Keys.MarkerKeyClash` shows this is exact unless a namespace is literally `$inited`.
- Logging (winston, `console.log`), `CachingStoreWrapper` and its TTL cache, the
  `RedisFeatureStore` constructor wrapper and the `testUpdateHook` instrumentation seam.
- Versions are mathematical integers. JavaScript numbers are doubles, and versions beyond
  2^53 are not modelled.
