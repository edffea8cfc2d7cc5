/** Shard-id allocation: the lowest id of the pool [0, total) that no live
    record holds. */
module Allocator {
  import opened Collections
  import opened Models

  /** The lowest id in [from, total) missing from `ids`, or None when every
      one of them is held. */
  function LowestFree(ids: seq<int>, from: int, total: int): (r: Option<int>)
    ensures r.Some? ==> from <= r.value < total && r.value !in ids
    ensures r.Some? ==> forall j :: from <= j < r.value ==> j in ids
    ensures r.None? <==> forall j :: from <= j < total ==> j in ids
    decreases total - from
  {
    if from >= total then None
    else if from !in ids then Some(from)
    else LowestFree(ids, from + 1, total)
  }

  /** The id a connect is given: 0 when the registry is empty, otherwise the
      smallest element of [0, total) minus the live ids, or None when that
      difference is empty. Ids outside the pool are ignored. */
  function GetShardId(ids: seq<int>, total: int): (r: Option<int>)
    ensures ids == [] ==> r == Some(0)
    ensures ids != [] && r.Some? ==> 0 <= r.value < total && r.value !in ids
    ensures ids != [] && r.Some? ==> forall j :: 0 <= j < r.value ==> j in ids
    ensures ids != [] ==> (r.None? <==> forall j :: 0 <= j < total ==> j in ids)
  {
    if ids == [] then Some(0) else LowestFree(ids, 0, total)
  }

  /** Pigeonhole: fewer live records than pool slots always leaves a free
      id, whatever the records hold (duplicates, stale ids beyond the pool);
      and that id lies in the pool. */
  lemma FreeIdExists(ids: seq<int>, total: int)
    requires |ids| < total
    ensures GetShardId(ids, total).Some?
    ensures 0 <= GetShardId(ids, total).value < total
    ensures GetShardId(ids, total).value !in ids
  {
    if ids != [] && GetShardId(ids, total).None? {
      assert Interval(0, total) <= Elements(ids);
      IntervalCard(0, total);
      ElementsCardAtMost(ids);
      SubsetCard(Interval(0, total), Elements(ids));
      assert false;
    }
  }

  lemma SubsetCard(a: set<int>, b: set<int>)
    requires a <= b
    ensures |a| <= |b|
  {
    assert b == a + (b - a);
  }

  /** Lowest-first packing: when the live ids are exactly 0..k-1 and the
      pool is larger, the next id handed out is k. */
  lemma LowestFirst(ids: seq<int>, k: nat, total: int)
    requires forall x :: x in ids <==> 0 <= x < k
    requires k < total
    ensures GetShardId(ids, total) == Some(k)
  {
    assert (0 in ids) <==> 0 < k;
    assert k !in ids;
  }

  /** Reuse: when every id of the pool but `k` is held, `k` is handed out. */
  lemma ReuseFreedId(ids: seq<int>, k: int, total: int)
    requires 0 <= k < total
    requires k !in ids
    requires forall j :: 0 <= j < total && j != k ==> j in ids
    ensures GetShardId(ids, total) == Some(k)
  {
    assert k != 0 ==> 0 in ids;
  }
}
