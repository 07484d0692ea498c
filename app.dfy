/**
 * The calculator component's state and its event handlers.  The component
 * keeps the text of the input box, the numbers parsed from it, their
 * statistics (absent until something parses), the display order, the
 * pinned sets and the chart mode; each handler replaces some of these.
 */
module App {
  import opened Wrappers
  import opened Decimal
  import opened Tokenizer
  import opened Stats
  import opened NumberList
  import opened PinnedSets
  import opened Chart

  /** `value.trim() === ''`: the text is empty or only white space. */
  predicate IsBlank(value: string)
  {
    forall i :: 0 <= i < |value| ==> IsSpace(value[i])
  }

  /** Blank text parses to no numbers, so the blank branch agrees with the parser. */
  lemma BlankParsesEmpty(value: string)
    requires IsBlank(value)
    ensures ParseEquation(value) == []
  {
    ParseNoDigits(value);
  }

  /**
   * The working list is canonical, as the parser leaves it, and the results
   * are its statistics; they are absent only for the empty list.
   */
  predicate Summarizes(numbers: seq<Dec>, results: Option<Results>)
  {
    && AllCanonical(numbers)
    && (results.None? ==> numbers == [])
    && (results.Some? ==> results.value == CalculateStats(numbers))
  }

  /** Freshly computed statistics summarize their list, and no results summarize no numbers. */
  lemma Recomputed(nums: seq<Dec>)
    requires AllCanonical(nums)
    ensures Summarizes(nums, Some(CalculateStats(nums)))
    ensures Summarizes([], None)
  {
  }

  /**
   * The computation inside `handleInputChange`: blank text clears the list
   * and the results; other text is parsed, and results exist exactly when
   * something parsed.
   */
  method ParseInput(value: string) returns (parsed: seq<Dec>, stats: Option<Results>)
    ensures parsed == ParseEquation(value)
    ensures Summarizes(parsed, stats)
    ensures stats.Some? <==> |parsed| > 0
  {
    if IsBlank(value) {
      BlankParsesEmpty(value);
      parsed, stats := [], None;
    } else {
      parsed := ParseEquation(value);
      Recomputed(parsed);
      if |parsed| > 0 {
        stats := Some(CalculateStats(parsed));
      } else {
        stats := None;
      }
    }
  }

  class NumberStats {
    var inputValue: string
    var numbers: seq<Dec>
    var sortMode: SortMode
    var results: Option<Results>
    var pinnedSets: seq<PinnedSet>
    var cumulative: bool

    /**
     * The numbers are the parser's, the results (when present) are their
     * statistics and are absent only for an empty list, and every pinned
     * set is consistent.
     */
    predicate Valid()
      reads this
    {
      Summarizes(numbers, results) && PinnedValid()
    }

    /** Every pinned set is consistent. */
    predicate PinnedValid()
      reads this`pinnedSets
    {
      AllConsistent(pinnedSets)
    }

    /** The badges, in the order the sort button selects. */
    function Shown(): seq<Dec>
      reads this
    {
      SortedNumbers(numbers, sortMode)
    }

    /** The chart as drawn: built from every set, then cumulated if that mode is on. */
    method Chart() returns (c: ChartData)
      ensures !cumulative ==> c == BuildChartData(numbers, pinnedSets)
      ensures cumulative ==>
        var b := BuildChartData(numbers, pinnedSets);
        && c.labels == b.labels
        && |c.datasets| == |b.datasets|
        && forall i :: 0 <= i < |b.datasets| ==>
             var d, e := b.datasets[i], c.datasets[i];
             && e.legend == d.legend && e.borderColor == d.borderColor && e.backgroundColor == d.backgroundColor
             && |e.data| == |d.data|
             && forall j :: 0 <= j < |d.data| ==> e.data[j] == Some(RunningTotal(d.data, j + 1))
    {
      c := GetChartData(BuildChartData(numbers, pinnedSets), cumulative);
    }

    /** The initial state: nothing typed, nothing pinned, input order, serial chart. */
    constructor()
      ensures Valid()
      ensures inputValue == "" && numbers == [] && results == None
      ensures sortMode == Original && pinnedSets == [] && !cumulative
    {
      inputValue := "";
      numbers := [];
      sortMode := Original;
      results := None;
      pinnedSets := [];
      cumulative := false;
    }

    /**
     * `handleInputChange`: the box shows the new text and the numbers are
     * what it parses to; results exist exactly when something parsed.
     */
    method InputChange(value: string)
      requires Valid()
      modifies this`inputValue, this`numbers, this`results
      ensures Valid()
      ensures inputValue == value
      ensures numbers == ParseEquation(value)
      ensures results.Some? <==> |numbers| > 0
    {
      var parsed, stats := ParseInput(value);
      inputValue, numbers, results := value, parsed, stats;
    }

    /**
     * `handleRemoveNumber`: the badge at `index` goes, as the first
     * occurrence of its value in input order, and the statistics are
     * recomputed (to those of the empty list when the last badge goes).
     * The text in the box is left as it was.
     */
    method RemoveNumber(index: int)
      requires Valid()
      modifies this`numbers, this`results
      ensures Valid()
      ensures numbers == RemoveDisplayed(old(numbers), old(sortMode), index)
      ensures 0 <= index < |old(numbers)| ==> results.Some?
      ensures !(0 <= index < |old(numbers)|) ==> results == old(results)
      ensures 0 <= index < |old(numbers)| ==>
        results.value.total == old(Sum(numbers)) - Value(old(Shown())[index])
    {
      var shown := SortedNumbers(numbers, sortMode);
      if 0 <= index < |shown| {
        RemoveDisplayedStats(numbers, sortMode, index);
        var unsorted := RemoveDisplayed(numbers, sortMode, index);
        Recomputed(unsorted);
        numbers, results := unsorted, Some(CalculateStats(unsorted));
      }
    }

    /** The sort button: original, ascending, descending, and round again. */
    method CycleSortMode()
      requires Valid()
      modifies this`sortMode
      ensures Valid()
      ensures sortMode == NextSortMode(old(sortMode))
    {
      sortMode := NextSortMode(sortMode);
    }

    /** The serial/cumulative button. */
    method ToggleCumulative()
      requires Valid()
      modifies this`cumulative
      ensures Valid()
      ensures cumulative == !old(cumulative)
    {
      cumulative := !cumulative;
    }

    /**
     * `handlePinNumbers`, with the fresh colour as a parameter: when there
     * are numbers and results, they become the newest pinned set and the
     * input is cleared; otherwise nothing happens.
     */
    method PinNumbers(color: string)
      requires Valid()
      modifies this`pinnedSets, this`inputValue, this`numbers, this`results
      ensures Valid()
      ensures if |old(numbers)| > 0 && old(results).Some? then
          && pinnedSets == Pinned(old(pinnedSets), old(numbers), old(results).value, color)
          && inputValue == "" && numbers == [] && results == None
        else
          && pinnedSets == old(pinnedSets) && inputValue == old(inputValue)
          && numbers == old(numbers) && results == old(results)
    {
      if |numbers| > 0 && results.Some? {
        PinnedConsistent(pinnedSets, numbers, color);
        pinnedSets := Pinned(pinnedSets, numbers, results.value, color);
        inputValue := "";
        numbers := [];
        results := None;
      }
    }

    /** `handleEditPinnedSetName`. */
    method EditPinnedSetName(index: int, newName: string)
      requires Valid()
      modifies this`pinnedSets
      ensures Valid()
      ensures pinnedSets == Renamed(old(pinnedSets), index, newName)
    {
      RelabelKeepsConsistent(pinnedSets, index, newName);
      pinnedSets := Renamed(pinnedSets, index, newName);
    }

    /** `handleChangePinnedSetColor`, with the fresh colour as a parameter. */
    method ChangePinnedSetColor(index: int, color: string)
      requires Valid()
      modifies this`pinnedSets
      ensures Valid()
      ensures pinnedSets == Recolored(old(pinnedSets), index, color)
    {
      RelabelKeepsConsistent(pinnedSets, index, color);
      pinnedSets := Recolored(pinnedSets, index, color);
    }

    /** `handleDeletePinnedSet`, with the answer to the prompt as a parameter. */
    method DeletePinnedSet(index: int, confirmed: bool)
      requires Valid()
      modifies this`pinnedSets
      ensures Valid()
      ensures pinnedSets == if confirmed then Deleted(old(pinnedSets), index) else old(pinnedSets)
    {
      if confirmed {
        DeleteKeepsConsistent(pinnedSets, index);
        pinnedSets := Deleted(pinnedSets, index);
      }
    }

    /** `handleEditPinnedSetNumbers`. */
    method EditPinnedSetNumbers(setIndex: int, newValue: string)
      requires Valid()
      modifies this`pinnedSets
      ensures Valid()
      ensures pinnedSets == NumbersEdited(old(pinnedSets), setIndex, newValue)
    {
      EditKeepsConsistent(pinnedSets, setIndex, newValue);
      pinnedSets := NumbersEdited(pinnedSets, setIndex, newValue);
    }

    /** `handleMovePinnedSetLeft`; the page never passes a negative index. */
    method MovePinnedSetLeft(index: int)
      requires Valid() && 0 <= index
      modifies this`pinnedSets
      ensures Valid()
      ensures pinnedSets == MovedLeft(old(pinnedSets), index)
    {
      MovesKeepConsistent(pinnedSets, index);
      pinnedSets := MovedLeft(pinnedSets, index);
    }

    /** `handleMovePinnedSetRight`; the page never passes an index past the end. */
    method MovePinnedSetRight(index: int)
      requires Valid() && index < |pinnedSets|
      modifies this`pinnedSets
      ensures Valid()
      ensures pinnedSets == MovedRight(old(pinnedSets), index)
    {
      MovesKeepConsistent(pinnedSets, index);
      pinnedSets := MovedRight(pinnedSets, index);
    }
  }
}
