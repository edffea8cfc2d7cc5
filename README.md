# shardman: shard allocation and liveness registry

shardman hands out Discord gateway shard ids to bot processes. A process
*connects* and is given the lowest free id of the pool `[0, total_shards)`,
a fresh session id and a pause to take before it opens its gateway
connection. After that it *beats* (heartbeats) and finally *disconnects*,
and a background *reaper* deletes records whose last heartbeat is too old.
The repository contains two versions of this logic:

- the web service's module-level state in `shardman/__init__.py`:
  - the pool size;
  - an admission counter under which the sixth connect of a five-second
    window, and every fifth one after it, is told to pause for five seconds;
  - the connect, heartbeat and disconnect handlers;
  - the reaper;
- the `StateManager` class in `shardman/state.py`:
  - the pool size and the start concurrency;
  - the *buckets*: shard ids grouped by their remainder modulo the
    concurrency;
  - the same lowest-free-id query;
  - the bucket *sleep multiplier*;
  - a reaper that sends a disconnect notice before every deletion.

This project models both versions in Dafny, one module per concern.

- `Collections`: cardinality facts about integer ranges, sets and
  sequences, used by the pigeonhole argument and the multiplier.
- `Models`: covers the following.
  - The shard record, the results and errors of the handlers.
  - The find-by-session query.
  - The reaper's filters `Survivors` / `Reaped` and their properties.
  - The value-level reaper walk `Sweep`, which deletes where it stands
    while scanning a snapshot of the registry.
- `Allocator`: the lowest-free-id query shared by both files, and the
  pigeonhole lemma. The lemma says that fewer records than pool slots
  always leave a free id.
- `Throttle`: the admission counter as a pure step function `Admit`, with
  its pause pattern proved over runs of connects inside one window.
- `Buckets`: covers the following.
  - The planner loop (`RunPlanner`, specified by `Planned` / `PlannedOrder`).
  - The closed form of a bucket (`Bucket`).
  - The multiplier and what it counts.
- `Api`: class `Service`, the state of `shardman/__init__.py`. Its methods
  are connect, heartbeat, disconnect and one reaper sweep, each stating its
  whole new state.
- `State`: class `StateManager`, the state of `shardman/state.py`. Its
  methods are planning, the id query, the multiplier and one reaper sweep
  with notices.

The registry, a MongoDB collection in the source, becomes a `seq<Shard>`
field in collection order. Time becomes integer seconds passed in as `now`.
Session ids become natural-number tokens taken from a counter, so they are
fresh and ordered by creation.

The model assumes that each operation runs to completion before the next
one starts. The source does not fully guarantee this: connect counts the
records before it takes its lock, and heartbeat, disconnect and the reaper
take no lock at all (see "## Left out").

The buckets live in a `map` from remainder to list, plus `bucketOrder`.
`bucketOrder` is the order in which the keys were created, which is the
order a walk over the source's dictionary values visits them.

The planner splits the ids below the **upstream** shard count, not below
the pool size. So when a configured pool is larger than the upstream
count, an id of the pool can lie in no bucket, and `CheckBucket` then
returns `None`. The source's own return annotation promises an `int`
there. The `CheckBucket` contract states this case.

At `shardman/state.py:107` the query that selects "connected shards of the
bucket" is a Python `in` test on a query-field expression. The model
follows what the comment on the line before says it does: it counts the
live records whose id is a member of the bucket and below the id asked
about.

## Model

| member | source | states |
|---|---|---|
| Models.TotalShards | shardman/__init__.py:49 | the pool size in force: the configured count whenever it is non-zero, otherwise the upstream count; it is zero only when both are |
| Models.Expired | shardman/__init__.py:29 | a record has expired exactly when its last beat is at least `max_seconds` old; with a positive timeout, a record that beat at `now` has not |
| Models.Survivors | shardman/__init__.py:28-30 | the records a sweep keeps: no more than the registry holds, each of them a record of the registry that has not expired |
| Models.Reaped | shardman/__init__.py:28-30 | the records a sweep deletes: no more than the registry holds, each of them a record of the registry that has expired |
| Models.FindSession | shardman/__init__.py:132-134 | the find-one-by-session query: None exactly when no record carries the session; otherwise the first position whose record carries it |
| Models.SweepMembers | shardman/__init__.py:28-30 | a sweep keeps exactly the records that have not expired (`last_beat + max_seconds > now`) and removes exactly those that have |
| Models.SweepPartitions | shardman/__init__.py:28-30 | every record is either kept or removed: the two counts add up to the registry size |
| Models.SurvivorsUniqueInPool | shardman/__init__.py:28-30 | a sweep preserves the pool invariant: live ids pairwise different and inside `[0, total)` |
| Models.SurvivorsSessionsDistinct | shardman/__init__.py:28-30 | a sweep preserves pairwise different session ids |
| Models.ReapFreesIds | shardman/__init__.py:28-30 | under the pool invariant, the id of a reaped record is held by no survivor, so it is free for the next connect |
| Models.Sweep | shardman/__init__.py:28-30 | the walk that deletes each expired record from the live registry as it reaches it ends with exactly the survivors of the snapshot, in order |
| Models.RemoveSession | shardman/__init__.py:153-158 | deleting the record of a session removes exactly that session: every other record stays, the session is no longer found, and session ids stay distinct and below the counter |
| Allocator.LowestFree | shardman/__init__.py:58-64 | the lowest id of `[from, total)` that no record holds, or None exactly when all of them are held |
| Allocator.GetShardId | shardman/__init__.py:53-64 | 0 on an empty registry; otherwise an id below `total` that no record holds and below which every id is held, or None exactly when every id of the pool is held |
| Allocator.FreeIdExists | shardman/__init__.py:87-91 | with fewer records than pool slots the query always yields an id of the pool that no record holds, whatever the records contain |
| Allocator.LowestFirst | shardman/__init__.py:58-64 | when the live ids are exactly `0..k-1` and the pool is larger, the next id is `k` |
| Allocator.ReuseFreedId | shardman/__init__.py:58-64 | when every id of the pool but `k` is held, `k` is handed out |
| Throttle.Admit | shardman/__init__.py:96-106 | one connect's step: the pause is 0 or 5, and 5 exactly when the window is still open and the counter is at or below 0; an opening connect sets the window end to `now + 5` and the counter to 4; otherwise the window is kept and the counter drops by one, or restarts at 4 after a pause; afterwards the counter is not negative, and it is at most 4 when it was at most 5 before |
| Throttle.RunInsideWindow | shardman/__init__.py:98-106 | inside one open window the counter cycles: connect `k` pauses exactly when `(left - k) mod 5 == 0` |
| Throttle.FiveConnectsPerWindow | shardman/__init__.py:96-106 | of the connects falling into the window the first one opens, the first five go ahead at once; the sixth and every fifth one after it pause (connect `k`, counting from 0, pauses exactly when `k > 0` and `k mod 5 == 0`) |
| Api.Service.constructor | shardman/__init__.py:17-50 | (lines 20-21 and 49-50) the pool size is the configured count unless it is zero, then the upstream count; the concurrency is the upstream one; no window is open and the counter is 5 |
| Api.Service.Connect | shardman/__init__.py:84-117 | at least as many records as slots: fails with NoShardsAvailable and changes nothing. Otherwise: appends exactly one record, carrying the lowest free id, a session id never issued before (at or above the old counter, which it advances past it), and the last beat `now` plus the pause; advances the counter by `Admit`; preserves the pool invariant |
| Api.Service.Beat | shardman/__init__.py:130-141 | an unknown session fails with SessionNotFound and a record whose id is at or above the pool size fails with NoShardsAvailable, both changing nothing; otherwise only that record's last beat, guild count and latency change |
| Api.Service.Disconnect | shardman/__init__.py:153-158 | an unknown session fails with SessionNotFound and changes nothing; otherwise exactly that record is removed and a repeated disconnect finds nothing |
| Api.Service.CheckSessions | shardman/__init__.py:24-31 | one sweep leaves exactly the survivors of the registry at `now`, in order, and keeps the class invariant |
| Buckets.Bucket | shardman/state.py:76-78 | the list the planner builds for remainder `b`: exactly the ids below `n` with that remainder, strictly ascending |
| Buckets.RunPlanner | shardman/state.py:76-78 | the planner loop builds `Planned` and, in its key order, `PlannedOrder` |
| Buckets.PlannedKeys | shardman/state.py:76-78 | planning adds as keys exactly the remainders of the ids below `n` |
| Buckets.PlannedContents | shardman/state.py:76-78 | planning extends the list under every key by exactly the matching `Bucket` |
| Buckets.PlannedOrderKeys | shardman/state.py:76-78 | the key order lists every key once, extending the previous order |
| Buckets.PlanningPass | shardman/state.py:76-78 | everything one planning pass guarantees; from an empty dictionary the result is a plan |
| Buckets.PlanFromEmpty | shardman/state.py:76-78 | planning from an empty dictionary gives exactly one ascending bucket per remainder that occurs |
| Buckets.PlanLocates | shardman/state.py:76-78 | in a plan an id lies in a bucket exactly when it is below `n`, and then only in the bucket its remainder names |
| Buckets.PlanHolder | shardman/state.py:104-105 | in a plan, the bucket holding an id is the one its remainder names |
| Buckets.PlanMissing | shardman/state.py:104-111 | in a plan, an id no bucket holds is outside `[0, n)` |
| Buckets.ExactlyOneBucket | shardman/state.py:76-78 | every id of the pool lies in exactly one bucket |
| Buckets.Multiplier | shardman/state.py:111 | the sleep multiplier: a position in the bucket, reduced by at most the number of live records, and below the bucket's length |
| Buckets.IndexOf | shardman/state.py:111 | the list's index lookup: the first position holding `x` |
| Buckets.ConnectedBelow | shardman/state.py:107-109 | the count of connected records in the bucket with a smaller id never exceeds the number of records |
| Buckets.IndexCountsLower | shardman/state.py:111 | in an ascending bucket, a member's position is the number of members below it |
| Buckets.ConnectedCountsIds | shardman/state.py:107-109 | with pairwise different ids, the connected count is the number of lower bucket members that are connected |
| Buckets.MultiplierCountsWaiting | shardman/state.py:104-111 | the multiplier is the number of lower bucket members that have not connected yet |
| Buckets.MultiplierBounds | shardman/state.py:109-111 | the multiplier lies between 0 and the position; it is 0 exactly when every lower bucket member is connected, so always for the first member |
| State.StateManager.constructor | shardman/state.py:19-26 | a fresh manager: one shard, concurrency one, no buckets, no notices |
| State.StateManager.GetBotInfo | shardman/state.py:68-78 | the pool size is the configured count unless it is zero; the concurrency is the upstream one; the buckets are the planner's result over the upstream count, each list extended by its `Bucket`; from empty buckets the result is a plan |
| State.StateManager.GetShardId | shardman/state.py:80-92 | 0 on an empty registry; otherwise the lowest id of the pool no record holds, or None exactly when the pool is exhausted |
| State.StateManager.CheckBucket | shardman/state.py:94-111 | None exactly when no bucket holds the id; otherwise the multiplier of the first bucket in creation order that holds it; after planning, the multiplier in the id's own remainder bucket when the id is below the upstream count, and None otherwise |
| State.SweepAndNotify | shardman/state.py:34-38 | the walk ends with exactly the survivors, and has sent exactly one disconnect notice per reaped record, in order, when a webhook is configured (none otherwise) |
| State.StateManager.CheckSessions | shardman/state.py:28-39 | one sweep leaves exactly the survivors and appends exactly the notices of the reaped records; the class invariant is kept |

## Left out

- HTTP routing, status codes and the authorization header check are not modelled. The errors are kept only as the values `NoShardsAvailable` and `SessionNotFound`.
- `shardman/sockets.py` is not part of this model. It is WebSocket plumbing whose session checks repeat the heartbeat.
- The upstream gateway request at start-up is not modelled. Its two answers, the shard count and the start concurrency, are parameters.
- The webhook JSON and its POST are not modelled. A sent notice is an `Alert` value appended to the `alerts` log, and whether a webhook is configured is the boolean `webhookConfigured`.
- MongoDB persistence is replaced by a sequence field. Documents left by a previous run are a constructor parameter.
- The lock, the sleeps, the endless reaper loop and its start-up grace sleep are not modelled. One iteration of the reaper is one method call.
- ULID session ids are replaced by counter tokens. Nothing in the code reads a timestamp back out of a session id. So the pause never shrinks with the time since an earlier connect.
- Float latency and float sleep durations are replaced by integers. Latency is opaque.
- Configuration loading (`shardman/config.py`) is not modelled. The configured shard count (0 meaning unset), the timeout and the webhook flag are parameters.
- Api.Service.Connect: the count check at `shardman/__init__.py:87` runs before the lock is taken at line 90. Two connects can therefore both pass it while only one slot is free. The second then gets no id from the query (lines 61-62), and building its record fails validation of the integer `shard_id` (`shardman/models.py:7`) instead of failing with NoShardsAvailable. The model runs connects one at a time and does not capture this race.
- Api.Service.Beat, Api.Service.Disconnect and the reaper take no lock in the source. Interleavings of these with each other, or with a connect, are not modelled.
- Api.Service.Connect returns the documented response: the id, the pool size, the session and the pause. As written, `shardman/__init__.py:112-117` builds `ConnectConfirmed` with a keyword `shard`, while `shardman/responses.py:6-10` declares `shard_id` and no `shard`. So the source's success path would fail validation after the insert and the counter step have already run. The model does not capture that third kind of error.
- `config.token` (`shardman/state.py:21`, `shardman/__init__.py:45`) and `config.webhook_url` (`shardman/state.py:43`) are read from a `Config` that does not declare them (`shardman/config.py:9-14`). The model takes the webhook's presence as the parameter `webhookConfigured`, and it does not model the token or the failed attribute lookups.
- Api.Service.CheckSessions and State.StateManager.CheckSessions read the clock once per sweep. The source reads it again for every record.
- Api.Service.constructor requires that the persisted records carry pairwise different session ids. The source does not check this, but its ULIDs make it so.
- Api.Service.Connect states the pool invariant (ids distinct and inside the pool) only as preserved, not as always holding. Persisted records or a changed configuration can break it before any connect. The connect itself never needs the invariant to find an id.
- State.StateManager.GetBotInfo requires a positive upstream concurrency. With concurrency 0 and a positive count the source raises a division error, which is not modelled.
- The disconnect handler's unused `token` parameter and its reuse of the handler name `beat` have no counterpart.
