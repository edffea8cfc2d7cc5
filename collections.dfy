/** Counting facts about sets drawn from sequences and integer ranges,
    used by the allocator's pigeonhole argument and the bucket multiplier. */
module Collections {

  /** The elements of `s` are pairwise different. */
  predicate Distinct<T(==)>(s: seq<T>) {
    forall i, j :: 0 <= i < j < |s| ==> s[i] != s[j]
  }

  /** The set {lo, ..., hi - 1}. */
  function Interval(lo: int, hi: int): (r: set<int>)
    ensures forall x :: x in r <==> lo <= x < hi
    decreases hi - lo
  {
    if lo >= hi then {} else Interval(lo, hi - 1) + {hi - 1}
  }

  /** The set of elements a sequence holds. */
  function Elements(s: seq<int>): (r: set<int>)
    ensures forall x :: x in r <==> x in s
  {
    set x | x in s
  }

  lemma {:induction false} IntervalCard(lo: int, hi: int)
    requires lo <= hi
    ensures |Interval(lo, hi)| == hi - lo
    decreases hi - lo
  {
    if lo < hi {
      IntervalCard(lo, hi - 1);
      assert hi - 1 !in Interval(lo, hi - 1);
    }
  }

  /** The elements of a non-empty sequence: its head and those of its tail. */
  lemma ElementsCons(s: seq<int>)
    requires s != []
    ensures Elements(s) == {s[0]} + Elements(s[1..])
  {
    assert s == [s[0]] + s[1..];
  }

  /** The tail of a sequence without repetitions has none either, and does
      not hold the head. */
  lemma DistinctTail(s: seq<int>)
    requires Distinct(s) && s != []
    ensures Distinct(s[1..]) && s[0] !in s[1..]
  {
    forall i, j | 0 <= i < j < |s[1..]| ensures s[1..][i] != s[1..][j] {
      assert s[1..][i] == s[i + 1] && s[1..][j] == s[j + 1];
    }
    forall k | 0 <= k < |s[1..]| ensures s[1..][k] != s[0] {
      assert s[1..][k] == s[k + 1];
    }
  }

  /** A sequence holds at most as many different elements as it is long. */
  lemma {:induction false} ElementsCardAtMost(s: seq<int>)
    ensures |Elements(s)| <= |s|
  {
    if s != [] {
      ElementsCardAtMost(s[1..]);
      ElementsCons(s);
    } else {
      assert Elements(s) == {};
    }
  }

  /** A sequence without repetitions holds exactly as many elements as it is long. */
  lemma {:induction false} ElementsCardDistinct(s: seq<int>)
    requires Distinct(s)
    ensures |Elements(s)| == |s|
  {
    if s != [] {
      DistinctTail(s);
      ElementsCardDistinct(s[1..]);
      ElementsCons(s);
    } else {
      assert Elements(s) == {};
    }
  }

  /** Adding a new element `x` to `t` adds one to its intersection with
      `l` exactly when `l` holds `x`. */
  lemma IntersectionAdd(l: set<int>, x: int, t: set<int>)
    requires x !in t
    ensures |l * ({x} + t)| == |l * t| + (if x in l then 1 else 0)
  {
    if x in l {
      assert l * ({x} + t) == {x} + l * t;
    } else {
      assert l * ({x} + t) == l * t;
    }
  }

  /** Removing a subset removes exactly its size. */
  lemma DifferenceCard<T>(a: set<T>, b: set<T>)
    requires b <= a
    ensures |a - b| == |a| - |b|
  {
    assert a == (a - b) + b;
    assert (a - b) * b == {};
  }
}
