/**
 * Worked lists for the statistics, checked against the definitions.
 */
module StatsExamples {
  import opened Wrappers
  import opened Decimal
  import opened Stats

  /** An ascending canonical list is its own sorted copy. */
  lemma SortOfSorted(s: seq<Dec>)
    requires AllCanonical(s) && SortedBy(s, false)
    ensures Sort(s, false) == s
  {
    SortedUnique(s, Sort(s, false), false);
  }

  lemma WholeValue(m: int)
    ensures Value(Dec(m, 0)) == m as real
  {
  }

  lemma AscendingWholes(s: seq<Dec>)
    requires forall i :: 0 <= i < |s| ==> s[i] == Dec(i + 1, 0)
    ensures AllCanonical(s) && SortedBy(s, false)
  {
    forall i, j | 0 <= i < j < |s|
      ensures InOrder(s[i], s[j], false)
    {
      WholeValue(i + 1);
      WholeValue(j + 1);
    }
    SortedByPairs(s, false);
  }

  /** 1, 2, 3, 4: total 10, the median the mean of the two middle numbers, min 1 and max 4. */
  lemma StatsOfEven()
    ensures CalculateStats([Dec(1, 0), Dec(2, 0), Dec(3, 0), Dec(4, 0)]) == Results(10.0, Some(2.5), Some(2.5), 1.0, 4.0)
  {
    var s := [Dec(1, 0), Dec(2, 0), Dec(3, 0), Dec(4, 0)];
    AscendingWholes(s);
    SortOfSorted(s);
    WholeValue(1);
    WholeValue(4);
    SumOfOneToFour();
  }

  lemma SumOfOneToFour()
    ensures Sum([Dec(1, 0), Dec(2, 0), Dec(3, 0), Dec(4, 0)]) == 10.0
  {
    var s := [Dec(1, 0), Dec(2, 0), Dec(3, 0), Dec(4, 0)];
    assert s[..1] == [Dec(1, 0)];
    SumSingleton(Dec(1, 0));
    WholeValue(1);
    assert s[..2][..1] == s[..1];
    WholeValue(2);
    assert Sum(s[..2]) == 3.0;
    assert s[..3][..2] == s[..2];
    WholeValue(3);
    assert Sum(s[..3]) == 6.0;
    assert s[..3] == s[..|s| - 1];
    WholeValue(4);
  }

  /** The median of 1, 2, 3 is the middle number. */
  lemma MedianOfOdd()
    ensures CalculateStats([Dec(1, 0), Dec(2, 0), Dec(3, 0)]).median == Some(2.0)
  {
    var s := [Dec(1, 0), Dec(2, 0), Dec(3, 0)];
    AscendingWholes(s);
    SortOfSorted(s);
    WholeValue(2);
  }
}
