/** The request-facing service: the process-wide state of the web
    application (the pool size, the halt-window counter and the registry of
    live shards) and its operations connect, heartbeat, disconnect and one
    sweep of the stale-session reaper. The model assumes that each operation
    runs to completion before the next starts; the source does not fully
    guarantee this, since connect counts the records before it takes its
    lock and the other handlers take none. */
module Api {
  import opened Collections
  import opened Models
  import opened Allocator
  import opened Throttle

  class Service {
    /** Size of the identity pool: the configured count, or the upstream one. */
    var totalShards: int
    /** The upstream start concurrency; stored, not used by these operations. */
    var maxConcurrency: int
    /** Heartbeat timeout of the reaper, in seconds. */
    const maxSeconds: int
    /** The halt-window counter. */
    var nextHaltTime: Option<int>
    var leftBeforeHalt: int
    /** The live shard records, in collection order. */
    var records: seq<Shard>
    /** The session-id generator: every token issued so far is below it. */
    var nextSession: SessionId

    ghost predicate Valid()
      reads this
    {
      && 0 <= leftBeforeHalt <= ConnectsPerWindow
      && SessionsDistinct(records)
      && SessionsBelow(records, nextSession)
    }

    /** Start-up: the pool size is the configured count unless that is zero,
        the concurrency comes from the upstream gateway, the counter starts
        with no window and five connects, and the registry holds whatever a
        previous run left in it. */
    constructor (configMaxShards: int, upstreamShards: int, upstreamMaxConcurrency: int,
                 maxSeconds: int, persisted: seq<Shard>)
      requires SessionsDistinct(persisted)
      ensures Valid()
      ensures totalShards == (if configMaxShards != 0 then configMaxShards else upstreamShards)
      ensures maxConcurrency == upstreamMaxConcurrency
      ensures this.maxSeconds == maxSeconds
      ensures Halt(nextHaltTime, leftBeforeHalt) == Initial
      ensures records == persisted
    {
      totalShards := TotalShards(configMaxShards, upstreamShards);
      maxConcurrency := upstreamMaxConcurrency;
      this.maxSeconds := maxSeconds;
      nextHaltTime := None;
      leftBeforeHalt := ConnectsPerWindow;
      records := persisted;
      nextSession := FreshSessionFloor(persisted);
    }

    /** Connect at second `now`. With at least as many records as pool slots
        it fails with NoShardsAvailable and changes nothing. Otherwise it
        takes the lowest free id, a session id never issued before (every
        earlier one is below `old(nextSession)`) and one step of the halt-window
        counter, and inserts exactly one record, stamped `now` or, when the
        counter was exhausted, five seconds later. */
    method Connect(now: int) returns (r: Result<ConnectConfirmed>)
      requires Valid()
      modifies this
      ensures Valid()
      ensures totalShards == old(totalShards) && maxConcurrency == old(maxConcurrency)
      ensures old(nextSession) <= nextSession
      ensures r.Ok? ==> old(nextSession) <= r.value.sessionId < nextSession
      ensures old(|records|) >= totalShards ==>
        && r == Err(NoShardsAvailable)
        && records == old(records) && nextSession == old(nextSession)
        && nextHaltTime == old(nextHaltTime) && leftBeforeHalt == old(leftBeforeHalt)
      ensures old(|records|) < totalShards ==>
        && r.Ok?
        && Some(r.value.shardId) == GetShardId(Ids(old(records)), totalShards)
        && 0 <= r.value.shardId < totalShards
        && r.value.maxShards == totalShards
        && (forall i :: 0 <= i < old(|records|) ==> old(records)[i].sessionId != r.value.sessionId)
        && Admission(Halt(nextHaltTime, leftBeforeHalt), r.value.sleepDuration)
           == Admit(Halt(old(nextHaltTime), old(leftBeforeHalt)), now)
        && 0 <= leftBeforeHalt <= ConnectsPerWindow - 1
        && records == old(records) + [Shard(r.value.shardId, now + r.value.sleepDuration, r.value.sessionId, None, None)]
      ensures old(IdsUniqueInPool(records, totalShards)) ==> IdsUniqueInPool(records, totalShards)
    {
      if |records| >= totalShards {
        return Err(NoShardsAvailable);
      }
      FreeIdExists(Ids(records), totalShards);
      var shardId := GetShardId(Ids(records), totalShards).value;

      var sessionId := nextSession;
      nextSession := nextSession + 1;
      var lastBeat := now;
      var sleepDuration := 0;

      if nextHaltTime.None? || nextHaltTime.value < lastBeat {
        nextHaltTime := Some(lastBeat + WindowSeconds);
        leftBeforeHalt := ConnectsPerWindow;
      }
      if leftBeforeHalt <= 0 {
        leftBeforeHalt := ConnectsPerWindow;
        sleepDuration := HaltSeconds;
        lastBeat := lastBeat + HaltSeconds;
      }
      leftBeforeHalt := leftBeforeHalt - 1;

      ghost var before := records;
      records := records + [Shard(shardId, lastBeat, sessionId, None, None)];
      assert Ids(records) == Ids(before) + [shardId];
      r := Ok(ConnectConfirmed(shardId, totalShards, sessionId, sleepDuration));
    }

    /** Heartbeat of session `sid` at second `now` with its telemetry. An
        unknown session fails with SessionNotFound, a record whose id lies
        at or above the pool size fails with NoShardsAvailable; both change nothing.
        Otherwise only that record's last beat, guild count and latency
        change. */
    method Beat(sid: SessionId, now: int, guildCount: Option<int>, latency: Option<Latency>)
      returns (r: Outcome)
      requires Valid()
      modifies this`records
      ensures Valid()
      ensures FindSession(old(records), sid).None? ==>
        r == Fail(SessionNotFound) && records == old(records)
      ensures FindSession(old(records), sid).Some? ==>
        var i := FindSession(old(records), sid).value;
        if old(records)[i].shardId >= totalShards then
          r == Fail(NoShardsAvailable) && records == old(records)
        else
          && r == Done
          && records == old(records)[i := old(records)[i].(lastBeat := now, guildCount := guildCount, latency := latency)]
    {
      var found := FindSession(records, sid);
      if found.None? {
        return Fail(SessionNotFound);
      }
      var i := found.value;
      if records[i].shardId >= totalShards {
        return Fail(NoShardsAvailable);
      }
      records := records[i := records[i].(lastBeat := now, guildCount := guildCount, latency := latency)];
      r := Done;
    }

    /** Disconnect of session `sid`: removes exactly the record of that
        session, or fails with SessionNotFound and changes nothing. A second
        disconnect of the same session therefore fails. */
    method Disconnect(sid: SessionId) returns (r: Outcome)
      requires Valid()
      modifies this`records
      ensures Valid()
      ensures FindSession(old(records), sid).None? ==>
        r == Fail(SessionNotFound) && records == old(records)
      ensures FindSession(old(records), sid).Some? ==>
        var i := FindSession(old(records), sid).value;
        r == Done && records == Without(old(records), i)
      ensures forall x :: x in records <==> x in old(records) && x.sessionId != sid
      ensures r == Done ==> FindSession(records, sid).None?
    {
      var found := FindSession(records, sid);
      if found.None? {
        return Fail(SessionNotFound);
      }
      var i := found.value;
      RemoveSession(records, i, sid, nextSession);
      records := Without(records, i);
      r := Done;
    }

    /** One sweep of the reaper at second `now`: walks the registry and
        deletes, as it goes, every record whose last beat is `maxSeconds` or
        more old; the others stay, in their order. */
    method CheckSessions(now: int)
      requires Valid()
      modifies this`records
      ensures Valid()
      ensures records == Survivors(old(records), now, maxSeconds)
    {
      var snapshot := records;
      records := Sweep(snapshot, now, maxSeconds);
      SurvivorsSessionsDistinct(snapshot, now, maxSeconds);
      SurvivorsBelow(snapshot, now, maxSeconds, nextSession);
    }
  }
}
