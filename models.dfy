/** The shard record, the values the core returns, and the queries over the
    registry of live records that both the request handlers and the reaper use.
    The registry (a document collection in the service) is a sequence of
    records in the order the collection yields them. */
module Models {
  import opened Collections

  datatype Option<T> = None | Some(value: T)

  /** The typed failures of the core; the transport maps them to status codes. */
  datatype Error = NoShardsAvailable | SessionNotFound

  datatype Result<T> = Ok(value: T) | Err(error: Error)

  datatype Outcome = Done | Fail(error: Error)

  /** Session ids are abstract unique tokens; fresh ones come from a
      counter, so they are also ordered by creation. */
  type SessionId = nat

  /** Latency is opaque telemetry: stored and reported, never computed with. */
  type Latency = int

  /** One live shard: its id, the second of its most recent heartbeat,
      its session and its optional telemetry. */
  datatype Shard = Shard(
    shardId: int,
    lastBeat: int,
    sessionId: SessionId,
    guildCount: Option<int>,
    latency: Option<Latency>)

  /** What a successful connect tells its caller. */
  datatype ConnectConfirmed = ConnectConfirmed(
    shardId: int,
    maxShards: int,
    sessionId: SessionId,
    sleepDuration: int)

  datatype AlertType = Connect | Disconnect

  /** A status-change notice: the fields the webhook message carries. */
  datatype Alert = Alert(kind: AlertType, shardId: int, lastBeat: int)

  /** The shard count in force: the configured one unless it is zero (a
      Python `or` over two integers), so the pool is empty only when
      neither count gives it a shard. */
  function TotalShards(configured: int, upstream: int): (r: int)
    ensures configured != 0 ==> r == configured
    ensures configured == 0 ==> r == upstream
    ensures r == 0 <==> configured == 0 && upstream == 0
  {
    if configured != 0 then configured else upstream
  }

  /** The shard ids of the records, in registry order. */
  function Ids(rs: seq<Shard>): (ids: seq<int>)
    ensures |ids| == |rs|
    ensures forall i :: 0 <= i < |rs| ==> ids[i] == rs[i].shardId
  {
    seq(|rs|, i requires 0 <= i < |rs| => rs[i].shardId)
  }

  /** No two records carry the same session id. */
  predicate SessionsDistinct(rs: seq<Shard>) {
    forall i, j :: 0 <= i < j < |rs| ==> rs[i].sessionId != rs[j].sessionId
  }

  /** Every session id the records carry is below `bound`. */
  predicate SessionsBelow(rs: seq<Shard>, bound: int) {
    forall i :: 0 <= i < |rs| ==> rs[i].sessionId < bound
  }

  /** The uniqueness invariant of the pool: live shard ids are pairwise
      different and all lie in [0, total). */
  predicate IdsUniqueInPool(rs: seq<Shard>, total: int) {
    Distinct(Ids(rs)) && forall i :: 0 <= i < |rs| ==> 0 <= rs[i].shardId < total
  }

  /** The position of the first record with the given session id
      (a find-one query by session), or None when there is none. */
  function FindSession(rs: seq<Shard>, sid: SessionId): (r: Option<nat>)
    ensures r.None? <==> forall j :: 0 <= j < |rs| ==> rs[j].sessionId != sid
    ensures r.Some? ==> r.value < |rs| && rs[r.value].sessionId == sid
    ensures r.Some? ==> forall j :: 0 <= j < r.value ==> rs[j].sessionId != sid
  {
    if rs == [] then None
    else if rs[0].sessionId == sid then Some(0)
    else match FindSession(rs[1..], sid)
      case None => None
      case Some(k) => Some(k + 1)
  }

  /** A record has expired once its last heartbeat is `maxSeconds` old;
      with a positive timeout, a record that beat at `now` has not. */
  predicate Expired(s: Shard, now: int, maxSeconds: int)
    ensures Expired(s, now, maxSeconds) <==> now - s.lastBeat >= maxSeconds
    ensures Expired(s, now, maxSeconds) && maxSeconds > 0 ==> s.lastBeat < now
  {
    s.lastBeat + maxSeconds <= now
  }

  /** The records a reaper sweep at `now` keeps, in their order. */
  function Survivors(rs: seq<Shard>, now: int, maxSeconds: int): (r: seq<Shard>)
    ensures |r| <= |rs|
    ensures forall k :: 0 <= k < |r| ==> r[k] in rs && !Expired(r[k], now, maxSeconds)
  {
    if rs == [] then []
    else
      var last := rs[|rs| - 1];
      assert rs == rs[..|rs| - 1] + [last];
      Survivors(rs[..|rs| - 1], now, maxSeconds) + (if Expired(last, now, maxSeconds) then [] else [last])
  }

  /** The records a reaper sweep at `now` removes, in their order. */
  function Reaped(rs: seq<Shard>, now: int, maxSeconds: int): (r: seq<Shard>)
    ensures |r| <= |rs|
    ensures forall k :: 0 <= k < |r| ==> r[k] in rs && Expired(r[k], now, maxSeconds)
  {
    if rs == [] then []
    else
      var last := rs[|rs| - 1];
      assert rs == rs[..|rs| - 1] + [last];
      Reaped(rs[..|rs| - 1], now, maxSeconds) + (if Expired(last, now, maxSeconds) then [last] else [])
  }

  /** The disconnect notice for one record. */
  function DisconnectNotice(s: Shard): Alert {
    Alert(Disconnect, s.shardId, s.lastBeat)
  }

  /** The disconnect notices for a list of reaped records, one each, in order. */
  function DisconnectAlerts(rs: seq<Shard>): (r: seq<Alert>)
    ensures |r| == |rs|
    ensures forall i :: 0 <= i < |rs| ==> r[i] == DisconnectNotice(rs[i])
  {
    seq(|rs|, i requires 0 <= i < |rs| => DisconnectNotice(rs[i]))
  }

  /** The registry with the record at position `k` deleted. */
  function Without(rs: seq<Shard>, k: nat): seq<Shard>
    requires k < |rs|
  {
    rs[..k] + rs[k + 1..]
  }

  /** Deleting the record of session `sid` from a registry whose session
      ids are pairwise different removes exactly that session: every other
      record stays, the session is no longer found, and the session-id
      invariants still hold. */
  lemma RemoveSession(rs: seq<Shard>, i: nat, sid: SessionId, bound: int)
    requires i < |rs| && rs[i].sessionId == sid
    requires SessionsDistinct(rs) && SessionsBelow(rs, bound)
    ensures forall x :: x in Without(rs, i) <==> x in rs && x.sessionId != sid
    ensures FindSession(Without(rs, i), sid).None?
    ensures SessionsDistinct(Without(rs, i)) && SessionsBelow(Without(rs, i), bound)
  {
    var r := Without(rs, i);
    assert forall j :: 0 <= j < |r| ==> r[j] == rs[if j < i then j else j + 1];
    forall x | x in rs && x.sessionId != sid ensures x in r {
      var j :| 0 <= j < |rs| && rs[j] == x;
      assert r[if j < i then j else j - 1] == x;
    }
  }

  /** A sweep keeps exactly the records that have not expired and removes
      exactly those that have. */
  lemma {:induction false} SweepMembers(rs: seq<Shard>, now: int, maxSeconds: int)
    ensures forall x :: x in Survivors(rs, now, maxSeconds) <==> x in rs && !Expired(x, now, maxSeconds)
    ensures forall x :: x in Reaped(rs, now, maxSeconds) <==> x in rs && Expired(x, now, maxSeconds)
  {
    if rs != [] {
      var init, last := rs[..|rs| - 1], rs[|rs| - 1];
      SweepMembers(init, now, maxSeconds);
      assert rs == init + [last];
    }
  }

  /** A sweep splits the registry: every record is either kept or reaped. */
  lemma {:induction false} SweepPartitions(rs: seq<Shard>, now: int, maxSeconds: int)
    ensures |Survivors(rs, now, maxSeconds)| + |Reaped(rs, now, maxSeconds)| == |rs|
  {
    if rs != [] {
      SweepPartitions(rs[..|rs| - 1], now, maxSeconds);
    }
  }

  /** The survivors of a sweep still satisfy the uniqueness invariant. */
  lemma {:induction false} SurvivorsUniqueInPool(rs: seq<Shard>, now: int, maxSeconds: int, total: int)
    requires IdsUniqueInPool(rs, total)
    ensures IdsUniqueInPool(Survivors(rs, now, maxSeconds), total)
  {
    if rs != [] {
      var init, last := rs[..|rs| - 1], rs[|rs| - 1];
      UniqueInit(rs, total);
      SurvivorsUniqueInPool(init, now, maxSeconds, total);
      SweepMembers(init, now, maxSeconds);
      var s := Survivors(init, now, maxSeconds);
      forall k | 0 <= k < |s| ensures s[k].shardId != last.shardId {
        assert s[k] in init;
      }
      UniqueSnoc(s, last, total);
    }
  }

  /** Dropping the last record keeps the uniqueness invariant, and no
      earlier record shares the last one's id. */
  lemma UniqueInit(rs: seq<Shard>, total: int)
    requires rs != [] && IdsUniqueInPool(rs, total)
    ensures IdsUniqueInPool(rs[..|rs| - 1], total)
    ensures forall x :: x in rs[..|rs| - 1] ==> x.shardId != rs[|rs| - 1].shardId
  {
    var init := rs[..|rs| - 1];
    forall i, j | 0 <= i < j < |init| ensures Ids(init)[i] != Ids(init)[j] {
      assert Ids(rs)[i] != Ids(rs)[j];
    }
    forall x | x in init ensures x.shardId != rs[|rs| - 1].shardId {
      var i :| 0 <= i < |init| && init[i] == x;
      assert Ids(rs)[i] != Ids(rs)[|rs| - 1];
    }
  }

  /** Appending a record whose id lies in the pool and differs from every
      id already present keeps the uniqueness invariant. */
  lemma UniqueSnoc(rs: seq<Shard>, x: Shard, total: int)
    requires IdsUniqueInPool(rs, total)
    requires 0 <= x.shardId < total
    requires forall k :: 0 <= k < |rs| ==> rs[k].shardId != x.shardId
    ensures IdsUniqueInPool(rs + [x], total)
  {
    var r := rs + [x];
    forall i, j | 0 <= i < j < |r| ensures Ids(r)[i] != Ids(r)[j] {
      if j < |rs| {
        assert Ids(rs)[i] != Ids(rs)[j];
      }
    }
  }

  /** Under the uniqueness invariant, a reaped record's shard id is held by
      no surviving record, so it can be allocated again at once. */
  lemma ReapFreesIds(rs: seq<Shard>, now: int, maxSeconds: int, total: int)
    requires IdsUniqueInPool(rs, total)
    ensures forall x :: x in Reaped(rs, now, maxSeconds) ==> x.shardId !in Ids(Survivors(rs, now, maxSeconds))
  {
    SweepMembers(rs, now, maxSeconds);
    var s := Survivors(rs, now, maxSeconds);
    forall x | x in Reaped(rs, now, maxSeconds) ensures x.shardId !in Ids(s) {
      var i :| 0 <= i < |rs| && rs[i] == x;
      forall k | 0 <= k < |s| ensures Ids(s)[k] != x.shardId {
        assert s[k] in rs;
        var j :| 0 <= j < |rs| && rs[j] == s[k];
        assert Ids(rs)[i] != Ids(rs)[j] by {
          assert Expired(rs[i], now, maxSeconds) && !Expired(rs[j], now, maxSeconds);
        }
      }
    }
  }

  /** A token above every session id the records carry: where a fresh
      session-id generator starts after a restart. */
  function FreshSessionFloor(rs: seq<Shard>): (t: SessionId)
    ensures forall i :: 0 <= i < |rs| ==> rs[i].sessionId < t
  {
    if rs == [] then 0
    else
      var t := FreshSessionFloor(rs[1..]);
      assert forall i :: 1 <= i < |rs| ==> rs[i] == rs[1..][i - 1];
      if rs[0].sessionId < t then t else rs[0].sessionId + 1
  }

  /** The survivors of a sweep still carry pairwise different session ids. */
  lemma {:induction false} SurvivorsSessionsDistinct(rs: seq<Shard>, now: int, maxSeconds: int)
    requires SessionsDistinct(rs)
    ensures SessionsDistinct(Survivors(rs, now, maxSeconds))
  {
    if rs != [] {
      var init, last := rs[..|rs| - 1], rs[|rs| - 1];
      assert SessionsDistinct(init) by {
        forall i, j | 0 <= i < j < |init| ensures init[i].sessionId != init[j].sessionId {
          assert init[i] == rs[i] && init[j] == rs[j];
        }
      }
      SurvivorsSessionsDistinct(init, now, maxSeconds);
      SweepMembers(init, now, maxSeconds);
      var s := Survivors(init, now, maxSeconds);
      forall k | 0 <= k < |s| ensures s[k].sessionId != last.sessionId {
        assert s[k] in init;
        var i :| 0 <= i < |init| && init[i] == s[k];
        assert rs[i] == s[k];
      }
    }
  }

  /** A sweep of a registry with one more record at its end keeps what the
      shorter sweep keeps, plus that record unless it has expired. */
  lemma SurvivorsSnoc(rs: seq<Shard>, x: Shard, now: int, maxSeconds: int)
    ensures Survivors(rs + [x], now, maxSeconds)
         == Survivors(rs, now, maxSeconds) + (if Expired(x, now, maxSeconds) then [] else [x])
  {
    assert (rs + [x])[..|rs + [x]| - 1] == rs;
  }

  /** Every session id the survivors carry was carried before the sweep. */
  lemma SurvivorsBelow(rs: seq<Shard>, now: int, maxSeconds: int, bound: int)
    requires SessionsBelow(rs, bound)
    ensures SessionsBelow(Survivors(rs, now, maxSeconds), bound)
  {
    SweepMembers(rs, now, maxSeconds);
    var s := Survivors(rs, now, maxSeconds);
    forall i | 0 <= i < |s| ensures s[i].sessionId < bound {
      assert s[i] in rs;
    }
  }

  /** One step of the reaper's walk: with the first `i` records of the
      snapshot swept, deleting the record at the sweep front when it has
      expired (keeping it otherwise) leaves the first `i + 1` swept. */
  lemma DeleteStep(snapshot: seq<Shard>, i: nat, current: seq<Shard>, now: int, maxSeconds: int)
    requires i < |snapshot|
    requires current == Swept(snapshot, i, now, maxSeconds)
    ensures 0 <= |current| - (|snapshot| - i) < |current|
    ensures Expired(snapshot[i], now, maxSeconds) ==>
      Without(current, |current| - (|snapshot| - i)) == Swept(snapshot, i + 1, now, maxSeconds)
    ensures !Expired(snapshot[i], now, maxSeconds) ==> current == Swept(snapshot, i + 1, now, maxSeconds)
  {
    var shard := snapshot[i];
    var kept := Survivors(snapshot[..i], now, maxSeconds);
    assert snapshot[..i + 1] == snapshot[..i] + [shard];
    SurvivorsSnoc(snapshot[..i], shard, now, maxSeconds);
    assert snapshot[i..] == [shard] + snapshot[i + 1..];
    var k := |current| - (|snapshot| - i);
    assert k == |kept|;
    assert current[..k] == kept && current[k + 1..] == snapshot[i + 1..];
  }

  /** The registry part-way through a sweep: the first `i` records of the
      snapshot swept, the rest untouched. */
  function Swept(snapshot: seq<Shard>, i: nat, now: int, maxSeconds: int): seq<Shard>
    requires i <= |snapshot|
  {
    Survivors(snapshot[..i], now, maxSeconds) + snapshot[i..]
  }

  /** The reaper's walk over a snapshot of the registry: each record whose
      last beat is `maxSeconds` or more old at `now` is deleted where it
      stands as the walk reaches it. */
  method Sweep(snapshot: seq<Shard>, now: int, maxSeconds: int) returns (kept: seq<Shard>)
    ensures kept == Survivors(snapshot, now, maxSeconds)
  {
    kept := snapshot;
    var i := 0;
    while i < |snapshot|
      invariant 0 <= i <= |snapshot|
      invariant kept == Swept(snapshot, i, now, maxSeconds)
    {
      var shard := snapshot[i];
      DeleteStep(snapshot, i, kept, now, maxSeconds);
      if shard.lastBeat + maxSeconds <= now {
        kept := Without(kept, |kept| - (|snapshot| - i));
      }
      i := i + 1;
    }
    assert snapshot[..i] == snapshot && snapshot[i..] == [];
    assert kept == Survivors(snapshot, now, maxSeconds) + [];
  }

  /** The same step for the records the sweep removes: the record at the
      sweep front joins them exactly when it has expired. */
  lemma ReapedSnoc(rs: seq<Shard>, x: Shard, now: int, maxSeconds: int)
    ensures Reaped(rs + [x], now, maxSeconds)
         == Reaped(rs, now, maxSeconds) + (if Expired(x, now, maxSeconds) then [x] else [])
  {
    assert (rs + [x])[..|rs + [x]| - 1] == rs;
  }
}
