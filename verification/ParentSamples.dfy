/** The adaptive budget: a cached median over the sizes of chunked documents. */
module ParentSamples {
  import opened Options
  import Sorting

  const CAP: nat := 65536
  const REFRESH_STEP: nat := 16

  predicate Less(x: nat, y: nat) { x < y }

  function SortedSizes(sizes: seq<nat>): (sorted: seq<nat>)
    ensures |sorted| == |sizes|
  {
    Sorting.SortKeeps(sizes, Less);
    Sorting.Sort(sizes, Less)
  }

  function Median(sizes: seq<nat>): nat
    requires sizes != []
  {
    Middle(SortedSizes(sizes))
  }

  function Middle(sorted: seq<nat>): nat
    requires sorted != []
  {
    var mid := |sorted| / 2;
    if |sorted| % 2 == 1 then sorted[mid] else (sorted[mid - 1] + sorted[mid]) / 2
  }

  function Below(s: seq<nat>, m: nat): nat {
    if s == [] then 0 else (if s[0] < m then 1 else 0) + Below(s[1..], m)
  }

  function Above(s: seq<nat>, m: nat): nat {
    if s == [] then 0 else (if s[0] > m then 1 else 0) + Above(s[1..], m)
  }

  lemma {:induction false} InsertCounts(x: nat, s: seq<nat>, m: nat)
    ensures Below(Sorting.Insert(x, s, Less), m) == Below([x] + s, m)
    ensures Above(Sorting.Insert(x, s, Less), m) == Above([x] + s, m)
  {
    assert ([x] + s)[1..] == s;
    if s != [] && s[0] < x {
      InsertCounts(x, s[1..], m);
      assert ([x] + s[1..])[1..] == s[1..];
      assert ([s[0]] + Sorting.Insert(x, s[1..], Less))[1..] == Sorting.Insert(x, s[1..], Less);
    }
  }

  lemma {:induction false} SortCounts(s: seq<nat>, m: nat)
    ensures Below(Sorting.Sort(s, Less), m) == Below(s, m)
    ensures Above(Sorting.Sort(s, Less), m) == Above(s, m)
  {
    if s != [] {
      SortCounts(s[1..], m);
      InsertCounts(s[0], Sorting.Sort(s[1..], Less), m);
      assert ([s[0]] + Sorting.Sort(s[1..], Less))[1..] == Sorting.Sort(s[1..], Less);
    }
  }

  lemma {:induction false} BelowAtMost(s: seq<nat>, m: nat, k: nat)
    requires k <= |s| && forall i | k <= i < |s| :: s[i] >= m
    ensures Below(s, m) <= k
  {
    if s != [] { BelowAtMost(s[1..], m, if k == 0 then 0 else k - 1); }
  }

  lemma {:induction false} AboveAtMost(s: seq<nat>, m: nat, k: nat)
    requires k <= |s| && forall i | 0 <= i < |s| - k :: s[i] <= m
    ensures Above(s, m) <= k
  {
    if s != [] { AboveAtMost(s[1..], m, if k == |s| then k - 1 else k); }
  }

  /** At most half of the sizes lie below the median, and at most half above it. */
  lemma MedianBalances(sizes: seq<nat>)
    requires sizes != []
    ensures 2 * Below(sizes, Median(sizes)) <= |sizes|
    ensures 2 * Above(sizes, Median(sizes)) <= |sizes|
  {
    SizesInOrder(sizes);
    MiddleBalances(SortedSizes(sizes));
    SortCounts(sizes, Median(sizes));
  }

  lemma MiddleBalances(sorted: seq<nat>)
    requires sorted != [] && forall i, j | 0 <= i < j < |sorted| :: sorted[i] <= sorted[j]
    ensures 2 * Below(sorted, Middle(sorted)) <= |sorted|
    ensures 2 * Above(sorted, Middle(sorted)) <= |sorted|
  {
    BelowAtMost(sorted, Middle(sorted), |sorted| / 2);
    AboveAtMost(sorted, Middle(sorted), |sorted| / 2);
  }

  /** It is the mean, rounded down, of the two sizes in the middle, which for an odd number are the same. */
  lemma MedianIsMiddle(sizes: seq<nat>) returns (x: nat, y: nat)
    requires sizes != []
    ensures x in sizes && y in sizes && x <= y && Median(sizes) == (x + y) / 2
    ensures Below(sizes, x) <= (|sizes| - 1) / 2 && Above(sizes, x) <= |sizes| / 2
    ensures Below(sizes, y) <= |sizes| / 2 && Above(sizes, y) <= (|sizes| - 1) / 2
    ensures |sizes| % 2 == 1 ==> x == y
  {
    var sorted := SortedSizes(sizes);
    SizesInOrder(sizes);
    hide SortedSizes, Below, Above;
    MiddlePair(sorted);
    x, y := sorted[(|sorted| - 1) / 2], sorted[|sorted| / 2];
    assert x in sorted && y in sorted;
    CountsInOrder(sizes, x);
    CountsInOrder(sizes, y);
  }

  lemma SizesInOrder(sizes: seq<nat>)
    ensures forall i, j | 0 <= i < j < |SortedSizes(sizes)| :: SortedSizes(sizes)[i] <= SortedSizes(sizes)[j]
    ensures forall x :: x in SortedSizes(sizes) <==> x in sizes
  {
    var sorted := SortedSizes(sizes);
    Sorting.SortSorts(sizes, Less);
    Sorting.SortMembers(sizes, Less);
    forall i, j | 0 <= i < j < |sorted| ensures sorted[i] <= sorted[j] {
      assert !Less(sorted[j], sorted[i]);
    }
  }

  lemma CountsInOrder(sizes: seq<nat>, m: nat)
    ensures Below(SortedSizes(sizes), m) == Below(sizes, m) && Above(SortedSizes(sizes), m) == Above(sizes, m)
  {
    SortCounts(sizes, m);
  }

  lemma MiddlePair(sorted: seq<nat>)
    requires sorted != [] && forall i, j | 0 <= i < j < |sorted| :: sorted[i] <= sorted[j]
    ensures var n := |sorted|;
            var x, y := sorted[(n - 1) / 2], sorted[n / 2];
            && x <= y && Middle(sorted) == (x + y) / 2 && (n % 2 == 1 ==> x == y)
            && Below(sorted, x) <= (n - 1) / 2 && Above(sorted, x) <= n / 2
            && Below(sorted, y) <= n / 2 && Above(sorted, y) <= (n - 1) / 2
  {
    var n := |sorted|;
    var x, y := sorted[(n - 1) / 2], sorted[n / 2];
    BelowAtMost(sorted, x, (n - 1) / 2);
    AboveAtMost(sorted, x, n / 2);
    BelowAtMost(sorted, y, n / 2);
    AboveAtMost(sorted, y, (n - 1) / 2);
  }

  class ParentSizeSamples {
    var sizes: seq<nat>
    var cachedMedian: Option<nat>
    var lastComputedLen: nat

    /** The cache holds the exact median of the first `lastComputedLen` samples. */
    ghost predicate Valid()
      reads this
    {
      && |sizes| <= CAP
      && lastComputedLen <= |sizes|
      && if cachedMedian.None? then lastComputedLen == 0
         else lastComputedLen > 0 && cachedMedian.value == Median(sizes[..lastComputedLen])
    }

    constructor ()
      ensures Valid() && sizes == [] && cachedMedian == None
    {
      sizes, cachedMedian, lastComputedLen := [], None, 0;
    }

    method Record(size: nat)
      requires Valid()
      modifies this
      ensures Valid()
      ensures sizes == if |old(sizes)| < 65536 then old(sizes) + [size] else old(sizes)
      ensures cachedMedian == old(cachedMedian) && lastComputedLen == old(lastComputedLen)
    {
      if |sizes| < CAP {
        assert (sizes + [size])[..lastComputedLen] == sizes[..lastComputedLen];
        sizes := sizes + [size];
      }
    }

    /** The answer is the exact median of all but fewer than `REFRESH_STEP` of the samples. */
    method GetMedian() returns (median: Option<nat>)
      requires Valid()
      modifies this
      ensures Valid() && sizes == old(sizes)
      ensures median == None <==> sizes == []
      ensures sizes != [] ==>
        && |sizes| < lastComputedLen + 16
        && 0 < lastComputedLen <= |sizes|
        && median == Some(Median(sizes[..lastComputedLen]))
      ensures lastComputedLen == old(lastComputedLen) || lastComputedLen == |sizes|
    {
      if sizes == [] {
        return None;
      }
      if cachedMedian.None? || |sizes| >= lastComputedLen + REFRESH_STEP {
        var sorted := SortedSizes(sizes);
        var mid := |sorted| / 2;
        var m := if |sorted| % 2 == 1 then sorted[mid] else (sorted[mid - 1] + sorted[mid]) / 2;
        assert sizes[..|sizes|] == sizes;
        cachedMedian := Some(m);
        lastComputedLen := |sorted|;
      }
      return cachedMedian;
    }

    /** `effective_parent_budget`: `None` switches expansion off. */
    method EffectiveBudget(auto: bool, fixed: nat, maxChars: nat, chunkChars: nat) returns (budget: Option<nat>)
      requires Valid()
      modifies this
      ensures Valid() && sizes == old(sizes)
      ensures budget == None <==> !auto && fixed == 0
      ensures !auto && fixed > 0 ==> budget == Some(fixed)
      ensures auto && sizes != [] ==> 0 < lastComputedLen <= |sizes| < lastComputedLen + 16
      ensures auto ==>
        var target := if sizes == [] then fixed else Median(sizes[..lastComputedLen]);
        var high := if maxChars < chunkChars then chunkChars else maxChars;
        && chunkChars <= budget.value <= high
        && (chunkChars <= target <= high ==> budget.value == target)
        && (target < chunkChars ==> budget.value == chunkChars)
        && (target > high ==> budget.value == high)
    {
      if auto {
        var high := if maxChars < chunkChars then chunkChars else maxChars;
        var median := GetMedian();
        var target := if median.Some? then median.value else fixed;
        budget := Some(if target < chunkChars then chunkChars else if target > high then high else target);
      } else if fixed > 0 {
        budget := Some(fixed);
      } else {
        budget := None;
      }
    }
  }
}
