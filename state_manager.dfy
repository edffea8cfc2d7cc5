/** The coordination object: the pool size and start concurrency learned at
    start-up, the startup buckets, the lowest-free-id query, the bucket
    sleep multiplier and one sweep of its reaper, which also records a
    disconnect notice for every shard it removes. */
module State {
  import opened Collections
  import opened Models
  import Allocator
  import opened Buckets

  class StateManager {
    /** Configured shard count; zero means "take the upstream count". */
    const configMaxShards: int
    /** Heartbeat timeout of the reaper, in seconds. */
    const maxSeconds: int
    /** Whether a webhook is configured; without one no notice is sent. */
    const webhookConfigured: bool

    var totalShards: int
    var maxConcurrency: int
    /** The buckets, keyed by remainder. */
    var buckets: map<int, seq<int>>
    /** The keys of `buckets` in the order they were first created: the
        order in which a walk over the dictionary's values visits them. */
    var bucketOrder: seq<int>
    /** The live shard records, in collection order. */
    var records: seq<Shard>
    /** The notices sent so far. */
    var alerts: seq<Alert>

    ghost predicate Valid()
      reads this
    {
      && maxConcurrency > 0
      && Distinct(bucketOrder)
      && (forall b :: b in bucketOrder <==> b in buckets)
      && (forall k :: 0 <= k < |bucketOrder| ==> bucketOrder[k] in buckets)
    }

    /** The buckets are exactly what one planning pass over `n` upstream
        shards builds on an empty map: a bucket for every remainder that
        some id below `n` has, holding those ids in ascending order. */
    ghost predicate IsPlan(n: int)
      reads this
    {
      PlanMap(buckets, maxConcurrency, n)
    }

    /** A fresh manager: one shard, concurrency one, no buckets, no notices;
        the registry holds whatever a previous run left in it. */
    constructor (configMaxShards: int, maxSeconds: int, webhookConfigured: bool, persisted: seq<Shard>)
      ensures Valid()
      ensures this.configMaxShards == configMaxShards && this.maxSeconds == maxSeconds
      ensures this.webhookConfigured == webhookConfigured
      ensures totalShards == 1 && maxConcurrency == 1
      ensures buckets == map[] && bucketOrder == []
      ensures records == persisted && alerts == []
    {
      this.configMaxShards := configMaxShards;
      this.maxSeconds := maxSeconds;
      this.webhookConfigured := webhookConfigured;
      totalShards := 1;
      maxConcurrency := 1;
      buckets := map[];
      bucketOrder := [];
      records := persisted;
      alerts := [];
    }

    /** Start-up planning from the upstream answer: the pool size is the
        configured count unless that is zero, the concurrency is the upstream
        one, and every id below the UPSTREAM count (not the pool size) is
        appended, in ascending order, to the bucket its remainder names; a
        bucket is created, at the end of the key order, when first needed. */
    method GetBotInfo(upstreamShards: int, upstreamMaxConcurrency: int)
      requires Valid()
      requires upstreamMaxConcurrency > 0
      modifies this`totalShards, this`maxConcurrency, this`buckets, this`bucketOrder
      ensures Valid()
      ensures totalShards == (if configMaxShards != 0 then configMaxShards else upstreamShards)
      ensures maxConcurrency == upstreamMaxConcurrency
      ensures buckets == Planned(old(buckets), upstreamMaxConcurrency, upstreamShards)
      ensures bucketOrder == PlannedOrder(old(buckets), old(bucketOrder), upstreamMaxConcurrency, upstreamShards)
      ensures forall b :: b in buckets <==>
        b in old(buckets) || (0 <= b < upstreamMaxConcurrency && b < upstreamShards)
      ensures forall b ::
        BucketAt(buckets, b) == BucketAt(old(buckets), b) + Bucket(upstreamShards, upstreamMaxConcurrency, b)
      ensures old(bucketOrder) <= bucketOrder
      ensures old(buckets) == map[] ==> IsPlan(upstreamShards)
    {
      ghost var start, startOrder := buckets, bucketOrder;
      var m, order := RunPlanner(buckets, bucketOrder, upstreamMaxConcurrency, upstreamShards);
      totalShards := TotalShards(configMaxShards, upstreamShards);
      maxConcurrency := upstreamMaxConcurrency;
      buckets := m;
      bucketOrder := order;
      PlanningPass(start, startOrder, upstreamMaxConcurrency, upstreamShards);
    }

    /** The id the next connect would be given: 0 on an empty registry,
        otherwise the lowest id of [0, totalShards) no record holds, or None
        when the pool is exhausted. */
    function GetShardId(): (r: Option<int>)
      reads this
      ensures records == [] ==> r == Some(0)
      ensures records != [] && r.Some? ==>
        && 0 <= r.value < totalShards
        && r.value !in Ids(records)
        && forall j :: 0 <= j < r.value ==> j in Ids(records)
      ensures records != [] ==> (r.None? <==> forall j :: 0 <= j < totalShards ==> j in Ids(records))
    {
      Allocator.GetShardId(Ids(records), totalShards)
    }

    /** The sleep multiplier of `shardId`: walks the buckets in creation
        order and, in the first whose list holds the id, returns its
        position there minus the connected records of that bucket with a
        smaller id; None when no bucket holds it. */
    method CheckBucket(shardId: int) returns (r: Option<int>)
      requires Valid()
      ensures r.None? <==> forall b :: b in buckets ==> shardId !in buckets[b]
      ensures r.Some? ==> exists k ::
        && 0 <= k < |bucketOrder|
        && shardId in buckets[bucketOrder[k]]
        && (forall j :: 0 <= j < k ==> shardId !in buckets[bucketOrder[j]])
        && r.value == Multiplier(buckets[bucketOrder[k]], records, shardId)
      ensures forall n :: IsPlan(n) ==>
        r == if 0 <= shardId < n
             then Some(Multiplier(Bucket(n, maxConcurrency, shardId % maxConcurrency), records, shardId))
             else None
    {
      var k := 0;
      while k < |bucketOrder|
        invariant 0 <= k <= |bucketOrder|
        invariant forall j :: 0 <= j < k ==> shardId !in buckets[bucketOrder[j]]
      {
        var b := bucketOrder[k];
        assert b in buckets;
        var bucket := buckets[b];
        if shardId in bucket {
          var alreadyConnected := ConnectedBelow(records, bucket, shardId);
          r := Some(IndexOf(bucket, shardId) - alreadyConnected);
          forall n | IsPlan(n) ensures 0 <= shardId < n && b == shardId % maxConcurrency {
            PlanHolder(buckets, maxConcurrency, n, b, shardId);
          }
          assert shardId in buckets[b];
          return;
        }
        k := k + 1;
      }
      assert forall b :: b in buckets ==> shardId !in buckets[b] by {
        forall b | b in buckets ensures shardId !in buckets[b] {
          var j :| 0 <= j < |bucketOrder| && bucketOrder[j] == b;
        }
      }
      forall n | IsPlan(n) ensures !(0 <= shardId < n) {
        PlanMissing(buckets, maxConcurrency, n, shardId);
      }
      return None;
    }

    /** One sweep of the reaper at second `now`: walks the registry and, for
        every record whose last beat is `maxSeconds` or more old, first
        sends a disconnect notice (when a webhook is configured) and then
        deletes it; the other records stay, in their order. */
    method CheckSessions(now: int)
      requires Valid()
      modifies this`records, this`alerts
      ensures Valid()
      ensures records == Survivors(old(records), now, maxSeconds)
      ensures alerts == old(alerts) + Notices(old(records), now, maxSeconds, webhookConfigured)
    {
      var kept, sent := SweepAndNotify(records, now, maxSeconds, webhookConfigured);
      records := kept;
      alerts := alerts + sent;
    }
  }

  /** The reaper's walk over a snapshot of the registry: the walk visits the
      records in order and, for each one whose last beat is `maxSeconds` or
      more old, first sends its disconnect notice (only when a webhook is
      configured) and then deletes it where it stands. */
  method SweepAndNotify(snapshot: seq<Shard>, now: int, maxSeconds: int, webhookConfigured: bool)
    returns (kept: seq<Shard>, sent: seq<Alert>)
    ensures kept == Survivors(snapshot, now, maxSeconds)
    ensures sent == Notices(snapshot, now, maxSeconds, webhookConfigured)
  {
    kept, sent := snapshot, [];
    var i := 0;
    while i < |snapshot|
      invariant 0 <= i <= |snapshot|
      invariant kept == Swept(snapshot, i, now, maxSeconds)
      invariant sent == Notices(snapshot[..i], now, maxSeconds, webhookConfigured)
    {
      var shard := snapshot[i];
      DeleteStep(snapshot, i, kept, now, maxSeconds);
      AlertStep(snapshot, i, now, maxSeconds, webhookConfigured);
      if shard.lastBeat + maxSeconds <= now {
        if webhookConfigured {
          sent := sent + [DisconnectNotice(shard)];
        }
        kept := Without(kept, |kept| - (|snapshot| - i));
      }
      i := i + 1;
    }
    assert snapshot[..i] == snapshot && snapshot[i..] == [];
    assert kept == Survivors(snapshot, now, maxSeconds) + [];
  }

  /** The notices a sweep sends: one disconnect notice per reaped record, in
      order, when a webhook is configured, and none otherwise. */
  function Notices(rs: seq<Shard>, now: int, maxSeconds: int, webhookConfigured: bool): seq<Alert> {
    if webhookConfigured then DisconnectAlerts(Reaped(rs, now, maxSeconds)) else []
  }

  /** One step of the reaper's walk, for the notices: the record at the
      sweep front adds its notice exactly when it has expired and a webhook
      is configured. */
  lemma AlertStep(snapshot: seq<Shard>, i: nat, now: int, maxSeconds: int, webhookConfigured: bool)
    requires i < |snapshot|
    ensures Notices(snapshot[..i + 1], now, maxSeconds, webhookConfigured)
         == Notices(snapshot[..i], now, maxSeconds, webhookConfigured)
            + if webhookConfigured && Expired(snapshot[i], now, maxSeconds)
              then [DisconnectNotice(snapshot[i])] else []
  {
    assert snapshot[..i + 1] == snapshot[..i] + [snapshot[i]];
    ReapedSnoc(snapshot[..i], snapshot[i], now, maxSeconds);
  }
}
