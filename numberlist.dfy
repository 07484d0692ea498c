/**
 * The working list of parsed numbers as the calculator shows it: in input
 * order or sorted either way, with a button cycling the order and a
 * remove button on every badge.
 */
module NumberList {
  import opened Decimal
  import opened Stats

  datatype SortMode = Original | Asc | Desc

  /** The sort button: original, then ascending, then descending, then original again. */
  function NextSortMode(m: SortMode): (r: SortMode)
    ensures r != m
    ensures m == Original <==> r == Asc
    ensures m == Asc <==> r == Desc
    ensures m == Desc <==> r == Original
  {
    match m
    case Original => Asc
    case Asc => Desc
    case Desc => Original
  }

  /** Three presses bring the order back; fewer do not. */
  lemma SortModeCycle(m: SortMode)
    ensures NextSortMode(NextSortMode(NextSortMode(m))) == m
    ensures NextSortMode(NextSortMode(m)) != m
  {
  }

  /**
   * `getSortedNumbers`: the order the badges are shown in.  The sorted
   * modes show a sorted copy; the input list itself never changes.
   */
  function SortedNumbers(nums: seq<Dec>, mode: SortMode): (r: seq<Dec>)
    ensures |r| == |nums| && multiset(r) == multiset(nums)
    ensures mode == Original ==> r == nums
    ensures mode == Asc ==> SortedBy(r, false)
    ensures mode == Desc ==> SortedBy(r, true)
  {
    match mode
    case Original => nums
    case Asc => Sort(nums, false)
    case Desc => Sort(nums, true)
  }

  /** `Array.prototype.indexOf`: the first position holding `x`, or -1. */
  function IndexOf(s: seq<Dec>, x: Dec): (i: int)
    ensures -1 <= i < |s|
    ensures i == -1 <==> x !in s
    ensures i >= 0 ==> s[i] == x && forall j :: 0 <= j < i ==> s[j] != x
  {
    if s == [] then -1
    else if s[0] == x then 0
    else
      var j := IndexOf(s[1..], x);
      if j == -1 then -1 else j + 1
  }

  /** `r` is `s` with its first occurrence of `x` deleted and nothing else changed. */
  predicate DeletesFirst(s: seq<Dec>, x: Dec, r: seq<Dec>)
  {
    exists k :: 0 <= k < |s| && s[k] == x && (forall j :: 0 <= j < k ==> s[j] != x)
                && r == s[..k] + s[k + 1..]
  }

  /** `unsorted.splice(unsorted.indexOf(x), 1)` for an `x` the list holds. */
  function RemoveFirst(s: seq<Dec>, x: Dec): (r: seq<Dec>)
    requires x in s
    ensures DeletesFirst(s, x, r)
    ensures |r| == |s| - 1 && multiset(r) == multiset(s) - multiset{x}
  {
    var k := IndexOf(s, x);
    assert s == s[..k] + [s[k]] + s[k + 1..];
    s[..k] + s[k + 1..]
  }

  /**
   * `handleRemoveNumber`: takes the value the badge at `index` shows and
   * deletes its first occurrence in input order.  An index showing no
   * badge finds nothing and changes nothing.
   */
  function RemoveDisplayed(nums: seq<Dec>, mode: SortMode, index: int): (r: seq<Dec>)
    ensures !(0 <= index < |nums|) ==> r == nums
    ensures 0 <= index < |nums| ==>
      var v := SortedNumbers(nums, mode)[index];
      |r| == |nums| - 1 && multiset(r) == multiset(nums) - multiset{v} && DeletesFirst(nums, v, r)
  {
    if 0 <= index < |nums| then
      var v := SortedNumbers(nums, mode)[index];
      assert v in multiset(nums);
      RemoveFirst(nums, v)
    else
      nums
  }

  /** Deleting one occurrence of `x` takes exactly its value off the total. */
  lemma DeletesFirstTotal(s: seq<Dec>, x: Dec, r: seq<Dec>)
    requires DeletesFirst(s, x, r)
    ensures Sum(r) == Sum(s) - Value(x)
  {
    var k :| 0 <= k < |s| && s[k] == x && (forall j :: 0 <= j < k ==> s[j] != x)
             && r == s[..k] + s[k + 1..];
    SumRemove(s, k);
  }

  /** Removing a badge takes exactly its value off the total. */
  lemma RemoveDisplayedTotal(nums: seq<Dec>, mode: SortMode, index: int)
    requires 0 <= index < |nums|
    ensures Sum(RemoveDisplayed(nums, mode, index)) == Sum(nums) - Value(SortedNumbers(nums, mode)[index])
  {
    DeletesFirstTotal(nums, SortedNumbers(nums, mode)[index], RemoveDisplayed(nums, mode, index));
  }

  /**
   * In input order the badge at `index` is the number at `index`, and
   * removing it deletes that badge unless an equal number comes earlier,
   * in which case that earlier, indistinguishable one goes.
   */
  lemma RemoveInOriginalOrder(nums: seq<Dec>, index: int)
    requires 0 <= index < |nums|
    ensures multiset(RemoveDisplayed(nums, Original, index)) == multiset(nums) - multiset{nums[index]}
    ensures (forall j :: 0 <= j < index ==> nums[j] != nums[index]) ==>
      RemoveDisplayed(nums, Original, index) == nums[..index] + nums[index + 1..]
  {
    var r := RemoveDisplayed(nums, Original, index);
    var k :| 0 <= k < |nums| && nums[k] == nums[index] && (forall j :: 0 <= j < k ==> nums[j] != nums[index])
             && r == nums[..k] + nums[k + 1..];
    if forall j :: 0 <= j < index ==> nums[j] != nums[index] {
      assert k == index;
    }
  }

  /** What is left after a removal is still the parser's canonical numbers. */
  lemma RemoveKeepsCanonical(nums: seq<Dec>, mode: SortMode, index: int)
    requires AllCanonical(nums)
    ensures var r := RemoveDisplayed(nums, mode, index); AllCanonical(r)
  {
    var r := RemoveDisplayed(nums, mode, index);
    forall i | 0 <= i < |r|
      ensures Canonical(r[i])
    {
      assert r[i] in multiset(nums);
    }
  }

  /**
   * After a removal the list is still the parser's canonical numbers, and
   * the recomputed total is the old one less the removed badge's value.
   */
  lemma RemoveDisplayedStats(nums: seq<Dec>, mode: SortMode, index: int)
    requires AllCanonical(nums)
    requires 0 <= index < |nums|
    ensures var r := RemoveDisplayed(nums, mode, index);
      && AllCanonical(r)
      && CalculateStats(r).total == Sum(nums) - Value(SortedNumbers(nums, mode)[index])
  {
    RemoveDisplayedTotal(nums, mode, index);
    RemoveKeepsCanonical(nums, mode, index);
  }
}
