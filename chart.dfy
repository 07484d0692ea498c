/**
 * The chart under the sets: one dataset per pinned set and one for the
 * working list, all padded with `null` to a common length, drawn either as
 * raw values or as running totals; and the statistics over all sets.
 */
module Chart {
  import opened Wrappers
  import opened Decimal
  import opened Stats
  import opened PinnedSets

  /** The numbers of every pinned set, oldest first. */
  function SetNumbers(pinned: seq<PinnedSet>): (r: seq<seq<Dec>>)
    ensures |r| == |pinned| && forall i :: 0 <= i < |pinned| ==> r[i] == pinned[i].numbers
  {
    seq(|pinned|, i requires 0 <= i < |pinned| => pinned[i].numbers)
  }

  /** `Math.max(0, ...sets.map(arr => arr.length))`. */
  function MaxSetLength(sets: seq<seq<Dec>>): (m: nat)
    ensures forall i :: 0 <= i < |sets| ==> |sets[i]| <= m
    ensures m == 0 || exists i :: 0 <= i < |sets| && |sets[i]| == m
  {
    if sets == [] then 0
    else
      var rest := MaxSetLength(sets[..|sets| - 1]);
      if |sets[|sets| - 1]| > rest then |sets[|sets| - 1]| else rest
  }

  /** The chart's length: the longest of the pinned sets and the working list. */
  function ChartWidth(numbers: seq<Dec>, pinned: seq<PinnedSet>): (w: nat)
    ensures |numbers| <= w
    ensures forall i :: 0 <= i < |pinned| ==> |pinned[i].numbers| <= w
    ensures w == |numbers| || exists i :: 0 <= i < |pinned| && |pinned[i].numbers| == w
  {
    var all := SetNumbers(pinned) + [numbers];
    var w := MaxSetLength(all);
    assert all[|all| - 1] == numbers;
    assert forall i :: 0 <= i < |pinned| ==> all[i] == pinned[i].numbers;
    w
  }

  /** `[...nums, ...Array(width - nums.length).fill(null)]`. */
  function Padded(nums: seq<Dec>, width: nat): (r: seq<Option<real>>)
    requires |nums| <= width
    ensures |r| == width
    ensures forall i :: 0 <= i < |nums| ==> r[i] == Some(Value(nums[i]))
    ensures forall i :: |nums| <= i < width ==> r[i] == None
  {
    seq(width, i requires 0 <= i < width => if i < |nums| then Some(Value(nums[i])) else None)
  }

  /** A chart.js dataset; `legend` is its `label` field. */
  datatype Dataset = Dataset(legend: string, borderColor: string, backgroundColor: string, data: seq<Option<real>>)

  datatype ChartData = ChartData(labels: seq<string>, datasets: seq<Dataset>)

  const CurrentLabel := "Current Numbers"
  const CurrentBorder := "rgba(75, 192, 192, 1)"
  const CurrentBackground := "rgba(75, 192, 192, 0.5)"

  /**
   * `chartData`: labels "1" to the longest length, a dataset per pinned set
   * in its colour and under its name, and the working list last; every
   * dataset as long as the labels.
   */
  function BuildChartData(numbers: seq<Dec>, pinned: seq<PinnedSet>): (c: ChartData)
    ensures var width := ChartWidth(numbers, pinned);
      && |c.labels| == width
      && (forall i :: 0 <= i < width ==> c.labels[i] == NatDigits(i + 1))
      && |c.datasets| == |pinned| + 1
      && (forall i :: 0 <= i < |pinned| ==>
            c.datasets[i] == Dataset(pinned[i].name, pinned[i].color, pinned[i].color, Padded(pinned[i].numbers, width)))
      && c.datasets[|pinned|] == Dataset(CurrentLabel, CurrentBorder, CurrentBackground, Padded(numbers, width))
  {
    var width := ChartWidth(numbers, pinned);
    var sets := seq(|pinned|, i requires 0 <= i < |pinned| =>
      Dataset(pinned[i].name, pinned[i].color, pinned[i].color, Padded(pinned[i].numbers, width)));
    ChartData(
      seq(width, i requires 0 <= i < width => NatDigits(i + 1)),
      sets + [Dataset(CurrentLabel, CurrentBorder, CurrentBackground, Padded(numbers, width))])
  }

  /** Every dataset has one entry per label, so the sets line up point by point. */
  lemma DatasetsAligned(numbers: seq<Dec>, pinned: seq<PinnedSet>)
    ensures var c := BuildChartData(numbers, pinned);
      forall d :: d in c.datasets ==> |d.data| == |c.labels|
  {
  }

  // Running totals

  /** `acc + null` is `acc` in JavaScript: a missing point adds nothing. */
  function OrZero(x: Option<real>): real
  {
    if x.Some? then x.value else 0.0
  }

  /** The sum of the first `n` entries, a missing entry counting as 0. */
  function RunningTotal(data: seq<Option<real>>, n: nat): real
    requires n <= |data|
  {
    if n == 0 then 0.0 else RunningTotal(data, n - 1) + OrZero(data[n - 1])
  }

  /**
   * `cumulate`: pushes `(acc[i - 1] || 0) + val` for every entry; entry `i`
   * of the result is the sum of entries `0..i`.
   */
  method Cumulate(data: seq<Option<real>>) returns (acc: seq<real>)
    ensures |acc| == |data|
    ensures forall i :: 0 <= i < |data| ==> acc[i] == RunningTotal(data, i + 1)
  {
    acc := [];
    var i := 0;
    while i < |data|
      invariant 0 <= i <= |data| && |acc| == i
      invariant forall j :: 0 <= j < i ==> acc[j] == RunningTotal(data, j + 1)
    {
      var previous := if i == 0 then 0.0 else acc[i - 1];
      acc := acc + [previous + OrZero(data[i])];
      i := i + 1;
    }
  }

  /**
   * A padded set's running total is the sum of its numbers so far, and it
   * stays at the set's total through the padding.
   */
  lemma {:induction false} RunningTotalOfPadded(nums: seq<Dec>, width: nat, k: nat)
    requires |nums| <= width && k <= width
    ensures RunningTotal(Padded(nums, width), k) == Sum(nums[..if k < |nums| then k else |nums|])
  {
    var data := Padded(nums, width);
    if k > 0 {
      RunningTotalOfPadded(nums, width, k - 1);
      if k <= |nums| {
        assert nums[..k][..k - 1] == nums[..k - 1];
      } else {
        assert nums[..|nums|] == nums;
      }
    } else {
      assert nums[..0] == [];
    }
  }

  /** The last point of a cumulative line is the set's total. */
  lemma CumulativeEndsAtTotal(nums: seq<Dec>, width: nat)
    requires |nums| <= width
    ensures RunningTotal(Padded(nums, width), width) == Sum(nums)
  {
    RunningTotalOfPadded(nums, width, width);
    assert nums[..|nums|] == nums;
  }

  /**
   * `getChartData`: the chart as built, or with every dataset's points
   * replaced by their running totals.
   */
  method GetChartData(c: ChartData, cumulative: bool) returns (r: ChartData)
    ensures !cumulative ==> r == c
    ensures cumulative ==>
      && r.labels == c.labels
      && |r.datasets| == |c.datasets|
      && forall i :: 0 <= i < |c.datasets| ==>
           var d, e := c.datasets[i], r.datasets[i];
           && e.legend == d.legend && e.borderColor == d.borderColor && e.backgroundColor == d.backgroundColor
           && |e.data| == |d.data|
           && forall j :: 0 <= j < |d.data| ==> e.data[j] == Some(RunningTotal(d.data, j + 1))
  {
    if !cumulative {
      return c;
    }
    var datasets: seq<Dataset> := [];
    var i := 0;
    while i < |c.datasets|
      invariant 0 <= i <= |c.datasets| && |datasets| == i
      invariant forall k :: 0 <= k < i ==>
        var d, e := c.datasets[k], datasets[k];
        && e.legend == d.legend && e.borderColor == d.borderColor && e.backgroundColor == d.backgroundColor
        && |e.data| == |d.data|
        && forall j :: 0 <= j < |d.data| ==> e.data[j] == Some(RunningTotal(d.data, j + 1))
    {
      var d := c.datasets[i];
      var acc := Cumulate(d.data);
      var points := seq(|acc|, j requires 0 <= j < |acc| => Some(acc[j]));
      datasets := datasets + [d.(data := points)];
      i := i + 1;
    }
    r := ChartData(c.labels, datasets);
  }

  // Totals over every set

  /** `.filter(arr => arr && arr.length > 0)`. */
  function NonEmptySets(sets: seq<seq<Dec>>): (r: seq<seq<Dec>>)
    ensures forall i :: 0 <= i < |r| ==> |r[i]| > 0
    ensures Flatten(r) == Flatten(sets)
  {
    if sets == [] then []
    else
      var init, last := sets[..|sets| - 1], sets[|sets| - 1];
      var rest := NonEmptySets(init);
      if |last| > 0 then
        assert (rest + [last])[..|rest + [last]| - 1] == rest;
        rest + [last]
      else
        assert Flatten(init) + last == Flatten(init);
        rest
  }

  /** `.flat()`: the sets' numbers one after the other. */
  function Flatten(sets: seq<seq<Dec>>): seq<Dec>
  {
    if sets == [] then [] else Flatten(sets[..|sets| - 1]) + sets[|sets| - 1]
  }

  /** `totalsStats`: the statistics of the working list and every pinned set together. */
  function TotalsStats(numbers: seq<Dec>, pinned: seq<PinnedSet>): Results
  {
    CalculateStats(Flatten(NonEmptySets([numbers] + SetNumbers(pinned))))
  }

  /** The sum of the pinned sets' own totals. */
  function PinnedTotal(pinned: seq<PinnedSet>): real
  {
    if pinned == [] then 0.0 else PinnedTotal(pinned[..|pinned| - 1]) + pinned[|pinned| - 1].results.total
  }

  /** The sum of the sums of some sets. */
  function SumOfSums(sets: seq<seq<Dec>>): real
  {
    if sets == [] then 0.0 else SumOfSums(sets[..|sets| - 1]) + Sum(sets[|sets| - 1])
  }

  lemma {:induction false} FlattenSum(sets: seq<seq<Dec>>)
    ensures Sum(Flatten(sets)) == SumOfSums(sets)
    decreases |sets|
  {
    if sets != [] {
      FlattenSum(sets[..|sets| - 1]);
      SumAppend(Flatten(sets[..|sets| - 1]), sets[|sets| - 1]);
    }
  }

  lemma {:induction false} FlattenAppend(a: seq<seq<Dec>>, b: seq<seq<Dec>>)
    ensures Flatten(a + b) == Flatten(a) + Flatten(b)
    decreases |b|
  {
    if b == [] {
      assert a + b == a;
    } else {
      var init, last := b[..|b| - 1], b[|b| - 1];
      assert (a + b)[..|a + b| - 1] == a + init;
      assert (a + b)[|a + b| - 1] == last;
      FlattenAppend(a, init);
      assert Flatten(a + b) == (Flatten(a) + Flatten(init)) + last;
      assert Flatten(b) == Flatten(init) + last;
    }
  }

  lemma {:induction false} FlattenCanonical(sets: seq<seq<Dec>>)
    requires forall i, j :: 0 <= i < |sets| && 0 <= j < |sets[i]| ==> Canonical(sets[i][j])
    ensures AllCanonical(Flatten(sets))
    decreases |sets|
  {
    if sets != [] {
      var init, last := sets[..|sets| - 1], sets[|sets| - 1];
      FlattenCanonical(init);
      forall k | 0 <= k < |Flatten(sets)|
        ensures Canonical(Flatten(sets)[k])
      {
        if k >= |Flatten(init)| {
          assert Flatten(sets)[k] == sets[|sets| - 1][k - |Flatten(init)|];
        }
      }
    }
  }

  lemma {:induction false} SumOfSumsAppend(a: seq<seq<Dec>>, b: seq<seq<Dec>>)
    ensures SumOfSums(a + b) == SumOfSums(a) + SumOfSums(b)
    decreases |b|
  {
    if b == [] {
      assert a + b == a;
    } else {
      assert (a + b)[..|a + b| - 1] == a + b[..|b| - 1];
      SumOfSumsAppend(a, b[..|b| - 1]);
    }
  }

  lemma {:induction false} PinnedSums(pinned: seq<PinnedSet>)
    requires AllConsistent(pinned)
    ensures SumOfSums(SetNumbers(pinned)) == PinnedTotal(pinned)
    decreases |pinned|
  {
    if pinned != [] {
      var init := pinned[..|pinned| - 1];
      assert SetNumbers(pinned)[..|pinned| - 1] == SetNumbers(init);
      PinnedSums(init);
      assert Consistent(pinned[|pinned| - 1]);
    }
  }

  /**
   * The grand total is the working list's total plus every pinned set's
   * own total.
   */
  lemma TotalsAddUp(numbers: seq<Dec>, pinned: seq<PinnedSet>)
    requires AllConsistent(pinned)
    ensures TotalsStats(numbers, pinned).total == Sum(numbers) + PinnedTotal(pinned)
  {
    var sets := [numbers] + SetNumbers(pinned);
    FlattenSum(sets);
    SumOfSumsAppend([numbers], SetNumbers(pinned));
    assert SumOfSums([numbers]) == Sum(numbers) by {
      assert [numbers][..0] == [];
    }
    PinnedSums(pinned);
  }

  /** All the numbers the totals tile is computed from, working list first. */
  lemma TotalsNumbers(numbers: seq<Dec>, pinned: seq<PinnedSet>)
    ensures TotalsStats(numbers, pinned) == CalculateStats(numbers + Flatten(SetNumbers(pinned)))
  {
    FlattenAppend([numbers], SetNumbers(pinned));
    assert Flatten([numbers]) == numbers by {
      assert [numbers][..0] == [];
    }
  }

  /** Every number of a consistent pinned set is canonical. */
  lemma PinnedNumbersCanonical(pinned: seq<PinnedSet>)
    requires AllConsistent(pinned)
    ensures AllCanonical(Flatten(SetNumbers(pinned)))
  {
    var sets := SetNumbers(pinned);
    forall i, j | 0 <= i < |sets| && 0 <= j < |sets[i]|
      ensures Canonical(sets[i][j])
    {
      assert Consistent(pinned[i]);
    }
    FlattenCanonical(sets);
  }

  /** After pinning, the pinned sets' numbers are the old ones followed by the pinned list. */
  lemma PinnedNumbers(numbers: seq<Dec>, pinned: seq<PinnedSet>, results: Results, color: string)
    ensures Flatten(SetNumbers(Pinned(pinned, numbers, results, color))) == Flatten(SetNumbers(pinned)) + numbers
  {
    var after := Pinned(pinned, numbers, results, color);
    assert SetNumbers(after) == SetNumbers(pinned) + [numbers];
    FlattenAppend(SetNumbers(pinned), [numbers]);
    assert Flatten([numbers]) == numbers by {
      assert [numbers][..0] == [];
    }
  }

  /**
   * Pinning moves the working list into the pinned sets; the totals tile,
   * computed over every set, shows the same statistics before and after.
   */
  lemma PinKeepsTotals(numbers: seq<Dec>, pinned: seq<PinnedSet>, color: string)
    requires AllConsistent(pinned)
    requires AllCanonical(numbers)
    ensures TotalsStats([], Pinned(pinned, numbers, CalculateStats(numbers), color)) == TotalsStats(numbers, pinned)
  {
    var after := Pinned(pinned, numbers, CalculateStats(numbers), color);
    var rest := Flatten(SetNumbers(pinned));
    TotalsNumbers(numbers, pinned);
    TotalsNumbers([], after);
    PinnedNumbers(numbers, pinned, CalculateStats(numbers), color);
    assert [] + Flatten(SetNumbers(after)) == rest + numbers;
    PinnedNumbersCanonical(pinned);
    StatsOfHalves(numbers, rest);
  }

  lemma StatsOfHalves(a: seq<Dec>, b: seq<Dec>)
    requires AllCanonical(a)
    requires AllCanonical(b)
    ensures CalculateStats(a + b) == CalculateStats(b + a)
  {
    assert multiset(a + b) == multiset(b + a);
    StatsOrderIndependent(a + b, b + a);
  }
}
