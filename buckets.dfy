/** The startup buckets and the sleep multiplier. Shard ids are split into
    `maxConcurrency` buckets by their remainder; within a bucket shards start
    one after another, so a shard's multiplier is the number of lower bucket
    members that have not connected yet. */
module Buckets {
  import opened Collections
  import opened Models

  /** Strictly increasing. */
  predicate Ascending(s: seq<int>) {
    forall i, j :: 0 <= i < j < |s| ==> s[i] < s[j]
  }

  /** Bucket `b` for a pool of `n` upstream shards, as the planner's loop over
      0, 1, ..., n - 1 appends to it: exactly the ids below `n` whose
      remainder modulo `mc` is `b`, in ascending order. */
  function Bucket(n: int, mc: int, b: int): (r: seq<int>)
    requires mc > 0
    ensures forall x :: x in r <==> 0 <= x < n && x % mc == b
    ensures Ascending(r)
    decreases n
  {
    if n <= 0 then []
    else
      var lower := Bucket(n - 1, mc, b);
      AscendingSnoc(lower, n - 1);
      lower + (if (n - 1) % mc == b then [n - 1] else [])
  }

  /** Appending a value above every element keeps a sequence ascending. */
  lemma AscendingSnoc(s: seq<int>, y: int)
    requires Ascending(s)
    requires forall x :: x in s ==> x < y
    ensures Ascending(s + [y])
  {
    forall i | 0 <= i < |s| ensures s[i] < y {
      assert s[i] in s;
    }
  }

  /** The list a bucket map holds under key `b`, empty when it has none
      (the view a default-to-empty dictionary gives). */
  function BucketAt(buckets: map<int, seq<int>>, b: int): seq<int> {
    if b in buckets then buckets[b] else []
  }

  /** The remainder of a non-negative id lies in [0, mc) and not above the
      id, and is the id itself below `mc`. */
  lemma RemainderBounds(i: int, mc: int)
    requires 0 <= i && mc > 0
    ensures 0 <= i % mc < mc && i % mc <= i
    ensures i < mc ==> i % mc == i
  {
    assert i == mc * (i / mc) + i % mc;
    assert i / mc >= 0;
  }

  /** The map after appending `x` to the list under key `b`, creating the
      list when it is missing. */
  function Append(m: map<int, seq<int>>, b: int, x: int): (r: map<int, seq<int>>)
    ensures forall c :: c in r <==> c in m || c == b
    ensures forall c :: BucketAt(r, c) == if c == b then BucketAt(m, b) + [x] else BucketAt(m, c)
  {
    m[b := BucketAt(m, b) + [x]]
  }

  /** The map the planner's loop leaves after ids 0, 1, ..., n - 1 when it
      starts on `start`: each id appended under its remainder modulo `mc`. */
  function Planned(start: map<int, seq<int>>, mc: int, n: int): map<int, seq<int>>
    requires mc > 0
    decreases n
  {
    if n <= 0 then start else Append(Planned(start, mc, n - 1), (n - 1) % mc, n - 1)
  }

  /** The key order that same loop leaves when it starts on `start` with key
      order `order`: a remainder is added at the end when its list is created. */
  function PlannedOrder(start: map<int, seq<int>>, order: seq<int>, mc: int, n: int): seq<int>
    requires mc > 0
    decreases n
  {
    if n <= 0 then order
    else
      var earlier := PlannedOrder(start, order, mc, n - 1);
      if (n - 1) % mc in Planned(start, mc, n - 1) then earlier else earlier + [(n - 1) % mc]
  }

  /** The planner's loop adds exactly the remainders of the ids below `n`
      as keys. */
  lemma {:induction false} PlannedKeys(start: map<int, seq<int>>, mc: int, n: int)
    requires mc > 0
    ensures forall b :: b in Planned(start, mc, n) <==> b in start || (0 <= b < mc && b < n)
    decreases n
  {
    if n > 0 {
      PlannedKeys(start, mc, n - 1);
      RemainderBounds(n - 1, mc);
    }
  }

  /** The planner's loop extends the list under every key `b` by the
      matching Bucket. */
  lemma {:induction false} PlannedContents(start: map<int, seq<int>>, mc: int, n: int, b: int)
    requires mc > 0
    ensures BucketAt(Planned(start, mc, n), b) == BucketAt(start, b) + Bucket(n, mc, b)
    decreases n
  {
    if n <= 0 {
      assert BucketAt(start, b) + [] == BucketAt(start, b);
    } else {
      PlannedContents(start, mc, n - 1, b);
      ListStep(start, Planned(start, mc, n - 1), mc, n - 1, b);
    }
  }

  /** One step of the planner's loop on one list. */
  lemma ListStep(start: map<int, seq<int>>, m: map<int, seq<int>>, mc: int, i: int, b: int)
    requires mc > 0 && 0 <= i
    requires BucketAt(m, b) == BucketAt(start, b) + Bucket(i, mc, b)
    ensures BucketAt(Append(m, i % mc, i), b) == BucketAt(start, b) + Bucket(i + 1, mc, b)
  {
    var before := Bucket(i, mc, b);
    if b == i % mc {
      assert Bucket(i + 1, mc, b) == before + [i];
      assert (BucketAt(start, b) + before) + [i] == BucketAt(start, b) + (before + [i]);
    } else {
      assert Bucket(i + 1, mc, b) == before;
    }
  }

  /** The key order the planner's loop keeps lists every key of its map once,
      in creation order, when it did so at the start. */
  lemma {:induction false} PlannedOrderKeys(start: map<int, seq<int>>, order: seq<int>, mc: int, n: int)
    requires mc > 0
    requires Distinct(order)
    requires forall b :: b in order <==> b in start
    ensures Distinct(PlannedOrder(start, order, mc, n))
    ensures forall b :: b in PlannedOrder(start, order, mc, n) <==> b in Planned(start, mc, n)
    ensures order <= PlannedOrder(start, order, mc, n)
    decreases n
  {
    if n > 0 {
      PlannedOrderKeys(start, order, mc, n - 1);
      var earlier := PlannedOrder(start, order, mc, n - 1);
      var b := (n - 1) % mc;
      if b !in Planned(start, mc, n - 1) {
        assert b !in earlier;
        var later := earlier + [b];
        assert forall j :: 0 <= j < |earlier| ==> later[j] == earlier[j];
        assert later[|earlier|] == b;
      }
    }
  }

  /** `buckets` is what one planning pass over `n` upstream shards with
      concurrency `mc` builds from an empty map: a bucket for every
      remainder some id below `n` has, each the matching Bucket. */
  ghost predicate PlanMap(buckets: map<int, seq<int>>, mc: int, n: int) {
    && mc > 0
    && (forall b :: b in buckets <==> 0 <= b < mc && b < n)
    && (forall b :: b in buckets ==> buckets[b] == Bucket(n, mc, b))
  }

  /** What the planner's loop leaves after all `n` ids when it started on an
      empty map is a plan. */
  lemma PlanFromEmpty(buckets: map<int, seq<int>>, mc: int, n: int)
    requires mc > 0
    requires forall b :: b in buckets <==> 0 <= b < mc && b < n
    requires forall b :: BucketAt(buckets, b) == BucketAt(map[], b) + Bucket(n, mc, b)
    ensures PlanMap(buckets, mc, n)
  {
    forall b | b in buckets ensures buckets[b] == Bucket(n, mc, b) {
      assert BucketAt(buckets, b) == [] + Bucket(n, mc, b);
    }
  }

  /** The planner's loop: for i = 0, 1, ..., n - 1 append i to the list under
      i % mc, creating that list, and its key at the end of `order`, when
      missing. */
  method RunPlanner(buckets: map<int, seq<int>>, order: seq<int>, mc: int, n: int)
    returns (m: map<int, seq<int>>, keys: seq<int>)
    requires mc > 0
    ensures m == Planned(buckets, mc, n)
    ensures keys == PlannedOrder(buckets, order, mc, n)
  {
    m, keys := buckets, order;
    var i := 0;
    while i < n
      invariant 0 <= i <= if n < 0 then 0 else n
      invariant m == Planned(buckets, mc, i)
      invariant keys == PlannedOrder(buckets, order, mc, i)
    {
      var bucket := i % mc;
      if bucket !in m {
        keys := keys + [bucket];
      }
      m := m[bucket := BucketAt(m, bucket) + [i]];
      i := i + 1;
    }
    assert n < 0 ==> Planned(buckets, mc, n) == Planned(buckets, mc, 0);
  }

  /** Everything one planning pass guarantees, starting from a map and a key
      order that list the same keys once each. */
  lemma PlanningPass(start: map<int, seq<int>>, order: seq<int>, mc: int, n: int)
    requires mc > 0
    requires Distinct(order)
    requires forall b :: b in order <==> b in start
    ensures Distinct(PlannedOrder(start, order, mc, n))
    ensures forall b :: b in PlannedOrder(start, order, mc, n) <==> b in Planned(start, mc, n)
    ensures forall k :: 0 <= k < |PlannedOrder(start, order, mc, n)| ==>
      PlannedOrder(start, order, mc, n)[k] in Planned(start, mc, n)
    ensures order <= PlannedOrder(start, order, mc, n)
    ensures forall b :: b in Planned(start, mc, n) <==> b in start || (0 <= b < mc && b < n)
    ensures forall b :: BucketAt(Planned(start, mc, n), b) == BucketAt(start, b) + Bucket(n, mc, b)
    ensures start == map[] ==> PlanMap(Planned(start, mc, n), mc, n)
  {
    PlannedKeys(start, mc, n);
    PlannedOrderKeys(start, order, mc, n);
    forall b ensures BucketAt(Planned(start, mc, n), b) == BucketAt(start, b) + Bucket(n, mc, b) {
      PlannedContents(start, mc, n, b);
    }
    if start == map[] {
      PlanFromEmpty(Planned(start, mc, n), mc, n);
    }
  }

  /** In a planned map an id is held by exactly one bucket, the one its
      remainder names, when it lies below `n`, and by none otherwise. */
  lemma PlanLocates(buckets: map<int, seq<int>>, mc: int, n: int, id: int)
    requires PlanMap(buckets, mc, n)
    ensures forall b :: b in buckets && id in buckets[b] <==> 0 <= id < n && b == id % mc
    ensures 0 <= id < n ==> id % mc in buckets && id in buckets[id % mc]
  {
    if 0 <= id < n {
      assert id % mc in buckets;
      assert id in Bucket(n, mc, id % mc);
    }
  }

  /** In a planned map the bucket that holds an id is the one its remainder
      names, and the id lies below `n`. */
  lemma PlanHolder(buckets: map<int, seq<int>>, mc: int, n: int, b: int, id: int)
    requires PlanMap(buckets, mc, n)
    requires b in buckets && id in buckets[b]
    ensures 0 <= id < n && b == id % mc
  {
    PlanLocates(buckets, mc, n, id);
  }

  /** In a planned map an id no bucket holds lies outside [0, n). */
  lemma PlanMissing(buckets: map<int, seq<int>>, mc: int, n: int, id: int)
    requires PlanMap(buckets, mc, n)
    requires forall b :: b in buckets ==> id !in buckets[b]
    ensures !(0 <= id < n)
  {
    PlanLocates(buckets, mc, n, id);
  }

  /** Every id of the pool lies in exactly one bucket, the one its
      remainder names. */
  lemma ExactlyOneBucket(n: int, mc: int, id: int)
    requires mc > 0
    requires 0 <= id < n
    ensures forall b :: id in Bucket(n, mc, b) <==> b == id % mc
  {
  }

  /** The first position of `x` in `s` (the list's index lookup). */
  function IndexOf(s: seq<int>, x: int): (k: nat)
    requires x in s
    ensures k < |s| && s[k] == x
    ensures forall j :: 0 <= j < k ==> s[j] != x
  {
    if s[0] == x then 0 else 1 + IndexOf(s[1..], x)
  }

  /** The number of connected records whose shard id lies in `bucket` below `id`. */
  function ConnectedBelow(rs: seq<Shard>, bucket: seq<int>, id: int): (c: nat)
    ensures c <= |rs|
  {
    if rs == [] then 0
    else (if rs[0].shardId in bucket && rs[0].shardId < id then 1 else 0) + ConnectedBelow(rs[1..], bucket, id)
  }

  /** The sleep multiplier of `id`: its position in its bucket minus the
      connected bucket members below it. */
  function Multiplier(bucket: seq<int>, rs: seq<Shard>, id: int): (r: int)
    requires id in bucket
    ensures IndexOf(bucket, id) - |rs| <= r <= IndexOf(bucket, id)
    ensures r < |bucket|
  {
    IndexOf(bucket, id) - ConnectedBelow(rs, bucket, id)
  }

  /** The bucket members below `id`. */
  function LowerMembers(bucket: seq<int>, id: int): set<int> {
    set x | x in bucket && x < id
  }

  /** The bucket members below `id` that no record holds. */
  function Waiting(bucket: seq<int>, rs: seq<Shard>, id: int): set<int> {
    set x | x in bucket && x < id && x !in Ids(rs)
  }

  /** In an ascending bucket the position of a member is the number of
      members below it. */
  lemma IndexCountsLower(bucket: seq<int>, id: int)
    requires Ascending(bucket) && id in bucket
    ensures IndexOf(bucket, id) == |LowerMembers(bucket, id)|
  {
    var k := IndexOf(bucket, id);
    var prefix := bucket[..k];
    assert LowerMembers(bucket, id) == Elements(prefix) by {
      forall x ensures x in LowerMembers(bucket, id) <==> x in prefix {
        if x in bucket && x < id {
          var j :| 0 <= j < |bucket| && bucket[j] == x;
          assert j < k;
          assert prefix[j] == x;
        }
      }
    }
    assert Distinct(prefix);
    ElementsCardDistinct(prefix);
  }

  /** The records counted by ConnectedBelow are those whose shard id falls in
      the bucket below `id`; with pairwise different shard ids they are as many
      as the ids they hold there. */
  lemma {:induction false} ConnectedCountsIds(rs: seq<Shard>, bucket: seq<int>, id: int)
    requires Distinct(Ids(rs))
    ensures ConnectedBelow(rs, bucket, id) == |LowerMembers(bucket, id) * Elements(Ids(rs))|
  {
    var ids := Ids(rs);
    if rs == [] {
      assert Elements(ids) == {};
    } else {
      var tail := rs[1..];
      assert Ids(tail) == ids[1..];
      DistinctTail(ids);
      ConnectedCountsIds(tail, bucket, id);
      ElementsCons(ids);
      var x := rs[0].shardId;
      assert x in LowerMembers(bucket, id) <==> x in bucket && x < id;
      IntersectionAdd(LowerMembers(bucket, id), x, Elements(Ids(tail)));
    }
  }

  /** What the multiplier means: with pairwise different connected shard ids
      and an ascending bucket, it is the number of lower bucket members that
      have not connected yet. */
  lemma MultiplierCountsWaiting(bucket: seq<int>, rs: seq<Shard>, id: int)
    requires Ascending(bucket) && id in bucket
    requires Distinct(Ids(rs))
    ensures Multiplier(bucket, rs, id) == |Waiting(bucket, rs, id)|
  {
    var L := LowerMembers(bucket, id);
    var C := L * Elements(Ids(rs));
    IndexCountsLower(bucket, id);
    ConnectedCountsIds(rs, bucket, id);
    assert Waiting(bucket, rs, id) == L - C;
    DifferenceCard(L, C);
  }

  /** Bounds of the multiplier: never negative and never above the position
      in the bucket; zero exactly when every lower bucket member is
      connected, so in particular zero for the first member of a bucket. */
  lemma MultiplierBounds(bucket: seq<int>, rs: seq<Shard>, id: int)
    requires Ascending(bucket) && id in bucket
    requires Distinct(Ids(rs))
    ensures 0 <= Multiplier(bucket, rs, id) <= IndexOf(bucket, id)
    ensures Multiplier(bucket, rs, id) == 0 <==>
      forall x :: x in bucket && x < id ==> x in Ids(rs)
    ensures IndexOf(bucket, id) == 0 ==> Multiplier(bucket, rs, id) == 0
  {
    MultiplierCountsWaiting(bucket, rs, id);
    if Multiplier(bucket, rs, id) == 0 {
      assert Waiting(bucket, rs, id) == {};
      forall x | x in bucket && x < id ensures x in Ids(rs) {
        assert x !in Waiting(bucket, rs, id);
      }
    } else {
      var w :| w in Waiting(bucket, rs, id);
      assert w in bucket && w < id && w !in Ids(rs);
    }
  }
}
