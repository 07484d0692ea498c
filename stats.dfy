/**
 * `calculateStats`: total, median, mean, min and max of a list of numbers,
 * taken from a sorted copy so that the list itself keeps its order.
 */
module Stats {
  import opened Wrappers
  import opened Decimal

  /** `nums.reduce((a, b) => a + b, 0)`, folded from the left. */
  function Sum(s: seq<Dec>): real
  {
    if s == [] then 0.0 else Sum(s[..|s| - 1]) + Value(s[|s| - 1])
  }

  lemma {:induction false} SumAppend(a: seq<Dec>, b: seq<Dec>)
    ensures Sum(a + b) == Sum(a) + Sum(b)
    decreases |b|
  {
    if b == [] {
      assert a + b == a;
    } else {
      assert (a + b)[..|a + b| - 1] == a + b[..|b| - 1];
      SumAppend(a, b[..|b| - 1]);
    }
  }

  lemma SumSingleton(x: Dec)
    ensures Sum([x]) == Value(x)
  {
    assert [x][..0] == [];
  }

  /** Removing the element at `k` takes its value off the sum. */
  lemma SumRemove(s: seq<Dec>, k: nat)
    requires k < |s|
    ensures Sum(s[..k] + s[k + 1..]) == Sum(s) - Value(s[k])
  {
    assert s[..k] + s[k..] == s;
    assert s[k..] == [s[k]] + s[k + 1..];
    SumAppend(s[..k], s[k..]);
    SumAppend([s[k]], s[k + 1..]);
    SumAppend(s[..k], s[k + 1..]);
    SumSingleton(s[k]);
  }

  /** Removing the element at `j` takes one copy of it out of the multiset. */
  lemma MultisetRemove(t: seq<Dec>, j: nat)
    requires j < |t|
    ensures multiset(t[..j] + t[j + 1..]) == multiset(t) - multiset{t[j]}
  {
    assert t == t[..j] + [t[j]] + t[j + 1..];
  }

  /** The total does not depend on the order of the numbers. */
  lemma {:induction false} SumPermutation(s: seq<Dec>, t: seq<Dec>)
    requires multiset(s) == multiset(t)
    ensures Sum(s) == Sum(t)
    decreases |s|
  {
    if s != [] {
      var x := s[|s| - 1];
      var s' := s[..|s| - 1];
      assert s == s' + [x];
      assert x in multiset(t);
      var j :| 0 <= j < |t| && t[j] == x;
      var t' := t[..j] + t[j + 1..];
      MultisetRemove(t, j);
      assert multiset(s') == multiset(s) - multiset{x};
      SumPermutation(s', t');
      SumRemove(t, j);
    } else {
      assert |t| == |multiset(t)| == 0;
    }
  }

  // Sorting with the comparators `(a, b) => a - b` and `(a, b) => b - a`

  predicate InOrder(a: Dec, b: Dec, descending: bool)
  {
    if descending then Value(a) >= Value(b) else Value(a) <= Value(b)
  }

  /** Every element is in order with the next one. */
  predicate SortedBy(s: seq<Dec>, descending: bool)
    decreases |s|
  {
    |s| < 2 || (InOrder(s[0], s[1], descending) && SortedBy(s[1..], descending))
  }

  /** Sortedness between two given positions (reflexive at `i == j`). */
  lemma {:induction false} SortedAt(s: seq<Dec>, i: nat, j: nat, descending: bool)
    requires SortedBy(s, descending) && i <= j < |s|
    ensures InOrder(s[i], s[j], descending)
    decreases j
  {
    if i < j {
      SortedAt(s[1..], if i == 0 then 0 else i - 1, j - 1, descending);
      assert s[1..][j - 1] == s[j];
      if i > 0 {
        assert s[1..][i - 1] == s[i];
      }
    }
  }

  /** Sorted by adjacent pairs is sorted by every pair, and back. */
  lemma {:induction false} SortedByPairs(s: seq<Dec>, descending: bool)
    ensures SortedBy(s, descending) <==>
      forall i, j :: 0 <= i < j < |s| ==> InOrder(s[i], s[j], descending)
    decreases |s|
  {
    if forall i, j :: 0 <= i < j < |s| ==> InOrder(s[i], s[j], descending) {
      if |s| >= 2 {
        assert InOrder(s[0], s[1], descending);
        forall i, j | 0 <= i < j < |s[1..]|
          ensures InOrder(s[1..][i], s[1..][j], descending)
        {
          assert s[1..][i] == s[i + 1] && s[1..][j] == s[j + 1];
        }
        SortedByPairs(s[1..], descending);
      }
    }
    if SortedBy(s, descending) {
      forall i, j | 0 <= i < j < |s|
        ensures InOrder(s[i], s[j], descending)
      {
        SortedAt(s, i, j, descending);
      }
    }
  }

  /** A sorted list stays sorted with an element in front that is in order with its head. */
  lemma SortedCons(h: Dec, r: seq<Dec>, descending: bool)
    requires SortedBy(r, descending)
    requires r == [] || InOrder(h, r[0], descending)
    ensures SortedBy([h] + r, descending)
  {
    assert ([h] + r)[1..] == r;
  }

  lemma InsertKeepsHead(h: Dec, x: Dec, rest: seq<Dec>, r: seq<Dec>, descending: bool)
    requires SortedBy([h] + rest, descending) && InOrder(h, x, descending)
    requires multiset(r) == multiset(rest) + multiset{x} && SortedBy(r, descending)
    ensures SortedBy([h] + r, descending)
  {
    if r != [] {
      assert r[0] in multiset(r);
      if r[0] != x {
        assert r[0] in multiset(rest);
        var j :| 0 <= j < |rest| && rest[j] == r[0];
        SortedAt([h] + rest, 0, j + 1, descending);
      }
    }
    SortedCons(h, r, descending);
  }

  /** Puts `x` before the first element it may precede; equal elements keep their order. */
  function Insert(x: Dec, s: seq<Dec>, descending: bool): (r: seq<Dec>)
    requires SortedBy(s, descending)
    ensures |r| == |s| + 1
    ensures multiset(r) == multiset(s) + multiset{x}
    ensures SortedBy(r, descending)
  {
    if s == [] || InOrder(x, s[0], descending) then
      [x] + s
    else
      var r := [s[0]] + Insert(x, s[1..], descending);
      assert s == [s[0]] + s[1..];
      InsertKeepsHead(s[0], x, s[1..], Insert(x, s[1..], descending), descending);
      r
  }

  /** A sorted copy (a stable insertion sort standing in for `Array.prototype.sort`). */
  function Sort(s: seq<Dec>, descending: bool): (r: seq<Dec>)
    ensures |r| == |s|
    ensures multiset(r) == multiset(s)
    ensures SortedBy(r, descending)
  {
    if s == [] then []
    else
      assert s == [s[0]] + s[1..];
      Insert(s[0], Sort(s[1..], descending), descending)
  }

  /** Sorted arrangements of the same canonical numbers start with the same element. */
  lemma SortedSameHead(a: seq<Dec>, b: seq<Dec>, descending: bool)
    requires |a| > 0 && |b| > 0
    requires AllCanonical(a)
    requires multiset(a) == multiset(b)
    requires SortedBy(a, descending) && SortedBy(b, descending)
    ensures a[0] == b[0]
  {
    assert a[0] in multiset(b);
    var j :| 0 <= j < |b| && b[j] == a[0];
    assert b[0] in multiset(a);
    var i :| 0 <= i < |a| && a[i] == b[0];
    SortedAt(a, 0, i, descending);
    SortedAt(b, 0, j, descending);
    CanonicalUnique(a[0], b[0]);
  }

  /**
   * Two sorted arrangements of the same canonical numbers are equal, so the
   * sorted copy depends only on the numbers, not on their order.
   */
  lemma {:induction false} SortedUnique(a: seq<Dec>, b: seq<Dec>, descending: bool)
    requires AllCanonical(a)
    requires multiset(a) == multiset(b)
    requires SortedBy(a, descending) && SortedBy(b, descending)
    ensures a == b
    decreases |a|
  {
    assert |a| == |multiset(a)| == |multiset(b)| == |b|;
    if a != [] {
      SortedSameHead(a, b, descending);
      assert a == [a[0]] + a[1..];
      assert b == [b[0]] + b[1..];
      assert multiset(a) == multiset{a[0]} + multiset(a[1..]);
      assert multiset(b) == multiset{b[0]} + multiset(b[1..]);
      assert multiset(a[1..]) == multiset(b[1..]) by {
        assert multiset(a[1..]) == multiset(a) - multiset{a[0]};
        assert multiset(b[1..]) == multiset(b) - multiset{b[0]};
      }
      SortedUnique(a[1..], b[1..], descending);
    }
  }

  // The statistics

  /** `mean` and `median` are `NaN` for an empty list; `None` stands for that. */
  datatype Results = Results(total: real, median: Option<real>, mean: Option<real>, min: real, max: real)

  /** `calculateStats`: sorts a copy ascending, adds up the numbers, and reads the rest off those two. */
  function CalculateStats(nums: seq<Dec>): Results
  {
    StatsOfSorted(Sort(nums, false), Sum(nums))
  }

  /**
   * The fields of the results given the ascending copy and the total: the
   * middle element or the mean of the two middle ones, the total over the
   * count, and the first and last elements (0 when there are none).
   */
  function StatsOfSorted(sorted: seq<Dec>, total: real): Results
  {
    var n := |sorted|;
    Results(
      total := total,
      median :=
        if n % 2 == 0 then
          if n == 0 then None else Some((Value(sorted[n / 2 - 1]) + Value(sorted[n / 2])) / 2.0)
        else Some(Value(sorted[n / 2])),
      mean := if n == 0 then None else Some(total / n as real),
      min := if n > 0 then Value(sorted[0]) else 0.0,
      max := if n > 0 then Value(sorted[n - 1]) else 0.0)
  }

  /** The empty list: total, min and max are 0, median and mean are `NaN`. */
  lemma StatsOfEmpty()
    ensures CalculateStats([]) == Results(0.0, None, None, 0.0, 0.0)
  {
  }

  /** Every element of a sorted copy of `nums` lies between its first and last elements. */
  lemma SortedBounds(nums: seq<Dec>, k: nat)
    requires k < |nums|
    ensures var sorted := Sort(nums, false);
      Value(sorted[0]) <= Value(nums[k]) <= Value(sorted[|sorted| - 1])
  {
    var sorted := Sort(nums, false);
    assert nums[k] in multiset(sorted);
    var j :| 0 <= j < |sorted| && sorted[j] == nums[k];
    SortedAt(sorted, 0, j, false);
    SortedAt(sorted, j, |sorted| - 1, false);
  }

  /**
   * For a non-empty list, min and max are elements of the list and bound
   * every element, and the total is the sum of the list in any order.
   */
  lemma StatsExtrema(nums: seq<Dec>)
    requires |nums| > 0
    ensures var r := CalculateStats(nums);
      && (forall k :: 0 <= k < |nums| ==> r.min <= Value(nums[k]) <= r.max)
      && (exists k :: 0 <= k < |nums| && r.min == Value(nums[k]))
      && (exists k :: 0 <= k < |nums| && r.max == Value(nums[k]))
  {
    var sorted := Sort(nums, false);
    forall k | 0 <= k < |nums|
      ensures CalculateStats(nums).min <= Value(nums[k]) <= CalculateStats(nums).max
    {
      SortedBounds(nums, k);
    }
    assert sorted[0] in multiset(nums);
    assert sorted[|sorted| - 1] in multiset(nums);
  }

  /** For a non-empty list the median exists and lies between min and max. */
  lemma MedianBetweenExtrema(nums: seq<Dec>)
    requires |nums| > 0
    ensures var r := CalculateStats(nums);
      r.median.Some? && r.min <= r.median.value <= r.max
  {
    var sorted := Sort(nums, false);
    var n := |sorted|;
    var h := n / 2;
    SortedAt(sorted, 0, h, false);
    SortedAt(sorted, h, n - 1, false);
    if n % 2 == 0 {
      SortedAt(sorted, 0, h - 1, false);
      SortedAt(sorted, h - 1, n - 1, false);
    }
  }

  lemma {:induction false} SumBounds(s: seq<Dec>, lo: real, hi: real)
    requires forall k :: 0 <= k < |s| ==> lo <= Value(s[k]) <= hi
    ensures |s| as real * lo <= Sum(s) <= |s| as real * hi
    decreases |s|
  {
    if s != [] {
      SumBounds(s[..|s| - 1], lo, hi);
    }
  }

  /** The average of the numbers lies between the first and last of the sorted copy. */
  lemma AverageBounds(nums: seq<Dec>)
    requires |nums| > 0
    ensures var sorted := Sort(nums, false);
      Value(sorted[0]) <= Sum(nums) / |nums| as real <= Value(sorted[|sorted| - 1])
  {
    var sorted := Sort(nums, false);
    var lo, hi := Value(sorted[0]), Value(sorted[|sorted| - 1]);
    forall k | 0 <= k < |nums|
      ensures lo <= Value(nums[k]) <= hi
    {
      SortedBounds(nums, k);
    }
    MeanOfBounded(nums, lo, hi);
  }

  lemma MeanOfBounded(s: seq<Dec>, lo: real, hi: real)
    requires |s| > 0
    requires forall k :: 0 <= k < |s| ==> lo <= Value(s[k]) <= hi
    ensures lo <= Sum(s) / |s| as real <= hi
  {
    SumBounds(s, lo, hi);
    Average(Sum(s), |s| as real, lo, hi);
  }

  /** For a non-empty list the mean is the total over the count and lies between min and max. */
  lemma MeanBetweenExtrema(nums: seq<Dec>)
    requires |nums| > 0
    ensures var r := CalculateStats(nums);
      && r.mean == Some(Sum(nums) / |nums| as real)
      && r.min <= r.mean.value <= r.max
  {
    AverageBounds(nums);
  }

  lemma Average(total: real, n: real, lo: real, hi: real)
    requires n > 0.0 && n * lo <= total <= n * hi
    ensures lo <= total / n <= hi
  {
  }

  /** How many of the numbers lie at or below `v` (`atMost`), or at or above it. */
  function CountSide(s: seq<Dec>, v: real, atMost: bool): nat
  {
    if s == [] then 0
    else CountSide(s[..|s| - 1], v, atMost) + (if InSide(s[|s| - 1], v, atMost) then 1 else 0)
  }

  predicate InSide(x: Dec, v: real, atMost: bool)
  {
    if atMost then Value(x) <= v else Value(x) >= v
  }

  lemma {:induction false} CountSideAppend(a: seq<Dec>, b: seq<Dec>, v: real, atMost: bool)
    ensures CountSide(a + b, v, atMost) == CountSide(a, v, atMost) + CountSide(b, v, atMost)
    decreases |b|
  {
    if b == [] {
      assert a + b == a;
    } else {
      assert (a + b)[..|a + b| - 1] == a + b[..|b| - 1];
      CountSideAppend(a, b[..|b| - 1], v, atMost);
    }
  }

  /** Removing the element at `k` takes its contribution off the count. */
  lemma CountSideRemove(s: seq<Dec>, k: nat, v: real, atMost: bool)
    requires k < |s|
    ensures CountSide(s, v, atMost)
         == CountSide(s[..k] + s[k + 1..], v, atMost) + CountSide([s[k]], v, atMost)
  {
    assert s[..k] + s[k..] == s;
    assert s[k..] == [s[k]] + s[k + 1..];
    CountSideAppend(s[..k], s[k..], v, atMost);
    CountSideAppend([s[k]], s[k + 1..], v, atMost);
    CountSideAppend(s[..k], s[k + 1..], v, atMost);
  }

  lemma {:induction false} CountSidePermutation(s: seq<Dec>, t: seq<Dec>, v: real, atMost: bool)
    requires multiset(s) == multiset(t)
    ensures CountSide(s, v, atMost) == CountSide(t, v, atMost)
    decreases |s|
  {
    if s != [] {
      var x := s[|s| - 1];
      var s' := s[..|s| - 1];
      assert s == s' + [x];
      assert x in multiset(t);
      var j :| 0 <= j < |t| && t[j] == x;
      var t' := t[..j] + t[j + 1..];
      MultisetRemove(t, j);
      assert multiset(s') == multiset(s) - multiset{x};
      CountSidePermutation(s', t', v, atMost);
      CountSideRemove(t, j, v, atMost);
      CountSideAppend(s', [x], v, atMost);
    } else {
      assert |t| == |multiset(t)| == 0;
    }
  }

  /** A run of `m` elements all on one side of `v` counts at least `m`. */
  lemma {:induction false} CountSideAtLeast(s: seq<Dec>, v: real, atMost: bool)
    requires forall k :: 0 <= k < |s| ==> InSide(s[k], v, atMost)
    ensures CountSide(s, v, atMost) == |s|
    decreases |s|
  {
    if s != [] {
      CountSideAtLeast(s[..|s| - 1], v, atMost);
    }
  }

  lemma CountSideSplit(s: seq<Dec>, m: nat, v: real)
    requires m <= |s|
    requires forall k :: 0 <= k < m ==> InSide(s[k], v, true)
    requires forall k :: m <= k < |s| ==> InSide(s[k], v, false)
    ensures CountSide(s, v, true) >= m && CountSide(s, v, false) >= |s| - m
  {
    assert s == s[..m] + s[m..];
    CountSideAppend(s[..m], s[m..], v, true);
    CountSideAppend(s[..m], s[m..], v, false);
    CountSideAtLeast(s[..m], v, true);
    CountSideAtLeast(s[m..], v, false);
  }

  /**
   * The median halves the list: at least half of the numbers are at or
   * below it and at least half are at or above it.
   */
  lemma MedianHalves(nums: seq<Dec>)
    requires |nums| > 0
    ensures var r := CalculateStats(nums);
      r.median.Some?
      && 2 * CountSide(nums, r.median.value, true) >= |nums|
      && 2 * CountSide(nums, r.median.value, false) >= |nums|
  {
    var sorted := Sort(nums, false);
    var n := |sorted|;
    var med := CalculateStats(nums).median.value;
    var h := n / 2;
    var lower := if n % 2 == 0 then h - 1 else h;
    SortedAt(sorted, lower, h, false);
    forall k | 0 <= k <= lower
      ensures InSide(sorted[k], med, true)
    {
      SortedAt(sorted, k, lower, false);
    }
    forall k | h <= k < n
      ensures InSide(sorted[k], med, false)
    {
      SortedAt(sorted, h, k, false);
    }
    var m, m' := lower + 1, h;
    CountSideSplit(sorted, m, med);
    CountSideSplit(sorted, m', med);
    CountSidePermutation(nums, sorted, med, true);
    CountSidePermutation(nums, sorted, med, false);
  }

  /**
   * The statistics of canonical numbers depend only on which numbers there
   * are, not on their order.
   */
  lemma StatsOrderIndependent(s: seq<Dec>, t: seq<Dec>)
    requires AllCanonical(s)
    requires multiset(s) == multiset(t)
    ensures CalculateStats(s) == CalculateStats(t)
  {
    var a, b := Sort(s, false), Sort(t, false);
    forall i | 0 <= i < |a|
      ensures Canonical(a[i])
    {
      assert a[i] in multiset(s);
    }
    SortedUnique(a, b, false);
    SumPermutation(s, t);
  }
}
