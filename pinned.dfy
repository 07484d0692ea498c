/**
 * Pinned sets: saved copies of the working list with a colour, a name and
 * their statistics.  Each handler copies the array of sets, changes one
 * entry and stores the copy; the functions here give the array each
 * handler stores.  The page shows the sets newest first.
 */
module PinnedSets {
  import opened Decimal
  import opened Tokenizer
  import opened Stats
  import opened Format

  datatype PinnedSet = PinnedSet(numbers: seq<Dec>, color: string, results: Results, name: string)

  /** A set as pinning and editing leave it: some numbers, and their statistics. */
  predicate Consistent(p: PinnedSet)
  {
    && |p.numbers| > 0
    && AllCanonical(p.numbers)
    && p.results == CalculateStats(p.numbers)
  }

  predicate AllConsistent(sets: seq<PinnedSet>)
  {
    forall i :: 0 <= i < |sets| ==> Consistent(sets[i])
  }

  /** Two arrays that agree everywhere except possibly at `i` and `j`. */
  predicate SameExcept(a: seq<PinnedSet>, b: seq<PinnedSet>, i: int, j: int)
  {
    |a| == |b| && forall k :: 0 <= k < |a| && k != i && k != j ==> a[k] == b[k]
  }

  // Reordering

  /** The array with the sets at `i` and `i + 1` exchanged. */
  function Swapped(sets: seq<PinnedSet>, i: nat): (r: seq<PinnedSet>)
    requires i + 1 < |sets|
    ensures |r| == |sets| && multiset(r) == multiset(sets)
    ensures r[i] == sets[i + 1] && r[i + 1] == sets[i] && SameExcept(r, sets, i, i + 1)
  {
    var r := sets[i := sets[i + 1]][i + 1 := sets[i]];
    assert sets == sets[..i] + [sets[i], sets[i + 1]] + sets[i + 2..];
    assert r == sets[..i] + [sets[i + 1], sets[i]] + sets[i + 2..];
    r
  }

  /**
   * `handleMovePinnedSetLeft`: swaps the set at `index` with the next one;
   * the last set stays where it is.
   */
  function MovedLeft(sets: seq<PinnedSet>, index: int): (r: seq<PinnedSet>)
    requires 0 <= index
    ensures |r| == |sets| && multiset(r) == multiset(sets)
    ensures index >= |sets| - 1 ==> r == sets
    ensures index < |sets| - 1 ==>
      r[index] == sets[index + 1] && r[index + 1] == sets[index] && SameExcept(r, sets, index, index + 1)
  {
    if index >= |sets| - 1 then sets else Swapped(sets, index)
  }

  /**
   * `handleMovePinnedSetRight`: swaps the set at `index` with the previous
   * one; the first set stays where it is.
   */
  function MovedRight(sets: seq<PinnedSet>, index: int): (r: seq<PinnedSet>)
    requires index < |sets|
    ensures |r| == |sets| && multiset(r) == multiset(sets)
    ensures index <= 0 ==> r == sets
    ensures index > 0 ==>
      r[index - 1] == sets[index] && r[index] == sets[index - 1] && SameExcept(r, sets, index - 1, index)
  {
    if index <= 0 then sets else Swapped(sets, index - 1)
  }

  /** Every set of `b` is one of `a`'s. */
  lemma SubmultisetConsistent(a: seq<PinnedSet>, b: seq<PinnedSet>)
    requires AllConsistent(a) && multiset(b) <= multiset(a)
    ensures AllConsistent(b)
  {
    forall i | 0 <= i < |b|
      ensures Consistent(b[i])
    {
      assert b[i] in multiset(a);
      var j :| 0 <= j < |a| && a[j] == b[i];
    }
  }

  /** Reordering keeps every set consistent. */
  lemma MovesKeepConsistent(sets: seq<PinnedSet>, index: int)
    requires AllConsistent(sets)
    ensures 0 <= index ==> AllConsistent(MovedLeft(sets, index))
    ensures index < |sets| ==> AllConsistent(MovedRight(sets, index))
  {
    if 0 <= index {
      SubmultisetConsistent(sets, MovedLeft(sets, index));
    }
    if index < |sets| {
      SubmultisetConsistent(sets, MovedRight(sets, index));
    }
  }

  /** Moving a set left and then moving it back right restores the order. */
  lemma MoveLeftThenRight(sets: seq<PinnedSet>, index: nat)
    requires index < |sets| - 1
    ensures MovedRight(MovedLeft(sets, index), index + 1) == sets
  {
  }

  /** Moving a set right and then left again restores the order. */
  lemma MoveRightThenLeft(sets: seq<PinnedSet>, index: nat)
    requires 0 < index < |sets|
    ensures MovedLeft(MovedRight(sets, index), index - 1) == sets
  {
  }

  /** The cards on the page: `[...pinnedSets].reverse()`, newest first. */
  function Displayed(sets: seq<PinnedSet>): (r: seq<PinnedSet>)
    ensures |r| == |sets|
    ensures forall i :: 0 <= i < |sets| ==> r[i] == sets[|sets| - 1 - i]
  {
    seq(|sets|, i requires 0 <= i < |sets| => sets[|sets| - 1 - i])
  }

  /**
   * The card at display position `idx` acts on `pinnedSets.length - 1 - idx`,
   * which is the set it shows, and the mapping is its own inverse.
   */
  function SourceIndex(count: nat, idx: nat): (i: nat)
    requires idx < count
    ensures i < count && count - 1 - i == idx
  {
    count - 1 - idx
  }

  lemma CardShowsItsSet(sets: seq<PinnedSet>, idx: nat)
    requires idx < |sets|
    ensures Displayed(sets)[idx] == sets[SourceIndex(|sets|, idx)]
  {
  }

  /** Exchanging two neighbours in the array exchanges the same two cards on the page. */
  lemma DisplayedSwapped(sets: seq<PinnedSet>, i: nat)
    requires i + 1 < |sets|
    ensures Displayed(Swapped(sets, i)) == Swapped(Displayed(sets), |sets| - 2 - i)
  {
    var a, b := Displayed(Swapped(sets, i)), Swapped(Displayed(sets), |sets| - 2 - i);
    forall k | 0 <= k < |sets|
      ensures a[k] == b[k]
    {
      DisplayedSwappedAt(sets, i, k);
    }
  }

  lemma DisplayedSwappedAt(sets: seq<PinnedSet>, i: nat, k: nat)
    requires i + 1 < |sets| && k < |sets|
    ensures Displayed(Swapped(sets, i))[k] == Swapped(Displayed(sets), |sets| - 2 - i)[k]
  {
    var n := |sets|;
    var sw, d := Swapped(sets, i), Displayed(sets);
    var b := Swapped(d, n - 2 - i);
    var m := n - 1 - k;
    assert Displayed(sw)[k] == sw[m];
    if k == n - 2 - i {
      assert b[k] == d[n - 1 - i];
    } else if k == n - 1 - i {
      assert b[k] == d[n - 2 - i];
    } else {
      assert SameExcept(b, d, n - 2 - i, n - 1 - i);
      assert b[k] == d[k];
    }
  }

  /**
   * "Move left" on the card at display position `idx` moves that card one
   * place to the left on the page.  The item is disabled on the leftmost
   * card, exactly where the handler would do nothing.
   */
  lemma MoveLeftOnPage(sets: seq<PinnedSet>, idx: nat)
    requires idx < |sets|
    ensures var before, after := Displayed(sets), Displayed(MovedLeft(sets, SourceIndex(|sets|, idx)));
      && (idx == 0 ==> after == before)
      && (idx > 0 ==> after[idx - 1] == before[idx] && after[idx] == before[idx - 1]
                      && SameExcept(after, before, idx - 1, idx))
  {
    if idx > 0 {
      DisplayedSwapped(sets, SourceIndex(|sets|, idx));
    }
  }

  /**
   * "Move right" on the card at display position `idx` moves that card one
   * place to the right.  The item is disabled on the rightmost card,
   * exactly where the handler would do nothing.
   */
  lemma MoveRightOnPage(sets: seq<PinnedSet>, idx: nat)
    requires idx < |sets|
    ensures var before, after := Displayed(sets), Displayed(MovedRight(sets, SourceIndex(|sets|, idx)));
      && (idx == |sets| - 1 ==> after == before)
      && (idx < |sets| - 1 ==> after[idx + 1] == before[idx] && after[idx] == before[idx + 1]
                               && SameExcept(after, before, idx, idx + 1))
  {
    if idx < |sets| - 1 {
      DisplayedSwapped(sets, SourceIndex(|sets|, idx) - 1);
    }
  }

  // Editing one entry

  /**
   * `handleEditPinnedSetName`: only the name of the set at `index` changes.
   * An index naming no set makes the handler throw before it stores
   * anything, so the array stays as it was.
   */
  function Renamed(sets: seq<PinnedSet>, index: int, newName: string): (r: seq<PinnedSet>)
    ensures SameExcept(r, sets, index, index)
    ensures 0 <= index < |sets| ==>
      && r[index].name == newName
      && r[index].numbers == sets[index].numbers
      && r[index].color == sets[index].color
      && r[index].results == sets[index].results
    ensures !(0 <= index < |sets|) ==> r == sets
  {
    if 0 <= index < |sets| then sets[index := sets[index].(name := newName)] else sets
  }

  /**
   * `handleChangePinnedSetColor`, with the fresh colour as a parameter:
   * only the colour of the set at `index` changes.
   */
  function Recolored(sets: seq<PinnedSet>, index: int, color: string): (r: seq<PinnedSet>)
    ensures SameExcept(r, sets, index, index)
    ensures 0 <= index < |sets| ==>
      && r[index].color == color
      && r[index].numbers == sets[index].numbers
      && r[index].name == sets[index].name
      && r[index].results == sets[index].results
    ensures !(0 <= index < |sets|) ==> r == sets
  {
    if 0 <= index < |sets| then sets[index := sets[index].(color := color)] else sets
  }

  /**
   * The position `Array.prototype.splice(start, 1)` removes from: a
   * negative start counts back from the end.
   */
  function SpliceStart(start: int, len: nat): (k: nat)
    ensures k <= len
    ensures 0 <= start ==> k == if start < len then start else len
    ensures start < 0 ==> k == if len + start > 0 then len + start else 0
  {
    if start < 0 then (if len + start > 0 then len + start else 0)
    else if start < len then start else len
  }

  /** `handleDeletePinnedSet` once the prompt is confirmed: `splice(index, 1)`. */
  function Deleted(sets: seq<PinnedSet>, index: int): (r: seq<PinnedSet>)
    ensures var k := SpliceStart(index, |sets|);
      if k < |sets| then
        && |r| == |sets| - 1
        && (forall j :: 0 <= j < k ==> r[j] == sets[j])
        && (forall j :: k <= j < |r| ==> r[j] == sets[j + 1])
        && multiset(r) + multiset{sets[k]} == multiset(sets)
      else r == sets
  {
    var k := SpliceStart(index, |sets|);
    if k < |sets| then
      assert sets == sets[..k] + [sets[k]] + sets[k + 1..];
      sets[..k] + sets[k + 1..]
    else sets
  }

  /** Deleting through the card at display position `idx` deletes the set that card shows. */
  lemma DeleteOnPage(sets: seq<PinnedSet>, idx: nat)
    requires idx < |sets|
    ensures var after := Displayed(Deleted(sets, SourceIndex(|sets|, idx)));
      && |after| == |sets| - 1
      && (forall j :: 0 <= j < idx ==> after[j] == Displayed(sets)[j])
      && (forall j :: idx <= j < |after| ==> after[j] == Displayed(sets)[j + 1])
  {
  }

  /** The default name of the `count`-th pinned set: `Pinned Set ${count}`. */
  function DefaultName(count: nat): string
  {
    "Pinned Set " + NatDigits(count)
  }

  /**
   * `handlePinNumbers`' new array: the working numbers and their results
   * appended as the newest set, named after its position.
   */
  function Pinned(sets: seq<PinnedSet>, nums: seq<Dec>, results: Results, color: string): (r: seq<PinnedSet>)
    ensures |r| == |sets| + 1 && r[..|sets|] == sets
    ensures r[|sets|] == PinnedSet(nums, color, results, DefaultName(|sets| + 1))
    ensures Displayed(r)[0] == r[|sets|]
  {
    sets + [PinnedSet(nums, color, results, DefaultName(|sets| + 1))]
  }

  /** Pinning a non-empty list with its own statistics keeps every set consistent. */
  lemma PinnedConsistent(sets: seq<PinnedSet>, nums: seq<Dec>, color: string)
    requires AllConsistent(sets) && |nums| > 0
    requires AllCanonical(nums)
    ensures AllConsistent(Pinned(sets, nums, CalculateStats(nums), color))
  {
    var r := Pinned(sets, nums, CalculateStats(nums), color);
    assert forall i :: 0 <= i < |sets| ==> r[i] == sets[i];
  }

  /**
   * `handleEditPinnedSetNumbers`: when the edited text parses to at least
   * one number, the set at `setIndex` takes those numbers and their
   * statistics; otherwise, or when no set is at `setIndex`, nothing changes.
   */
  function NumbersEdited(sets: seq<PinnedSet>, setIndex: int, newValue: string): (r: seq<PinnedSet>)
    ensures SameExcept(r, sets, setIndex, setIndex)
    ensures var parsed := ParseEquation(newValue);
      if |parsed| > 0 && 0 <= setIndex < |sets| then
        && r[setIndex].numbers == parsed
        && r[setIndex].results == CalculateStats(parsed)
        && r[setIndex].name == sets[setIndex].name
        && r[setIndex].color == sets[setIndex].color
      else r == sets
  {
    var parsed := ParseEquation(newValue);
    if |parsed| > 0 && 0 <= setIndex < |sets| then
      sets[setIndex := sets[setIndex].(numbers := parsed, results := CalculateStats(parsed))]
    else sets
  }

  /**
   * The numbers box of every card shows `formatEquation(set.numbers)`;
   * an edit that leaves that text as it is leaves the set as it is.
   */
  lemma UnchangedTextKeepsSet(sets: seq<PinnedSet>, setIndex: nat)
    requires AllConsistent(sets) && setIndex < |sets|
    ensures NumbersEdited(sets, setIndex, FormatEquation(sets[setIndex].numbers)) == sets
  {
    var p := sets[setIndex];
    RoundTrip(p.numbers);
    assert sets[setIndex := p] == sets;
  }

  /** Renaming and recolouring keep every set consistent. */
  lemma RelabelKeepsConsistent(sets: seq<PinnedSet>, index: int, text: string)
    requires AllConsistent(sets)
    ensures AllConsistent(Renamed(sets, index, text))
    ensures AllConsistent(Recolored(sets, index, text))
  {
    var r, c := Renamed(sets, index, text), Recolored(sets, index, text);
    forall k | 0 <= k < |sets|
      ensures Consistent(r[k]) && Consistent(c[k])
    {
      assert r[k].numbers == c[k].numbers == sets[k].numbers;
      assert r[k].results == c[k].results == sets[k].results;
    }
  }

  /** Deleting a set keeps the rest consistent. */
  lemma DeleteKeepsConsistent(sets: seq<PinnedSet>, index: int)
    requires AllConsistent(sets)
    ensures AllConsistent(Deleted(sets, index))
  {
    var k := SpliceStart(index, |sets|);
    if k < |sets| {
      var d := Deleted(sets, index);
      assert multiset(d) <= multiset(sets) by {
        assert multiset(d) + multiset{sets[k]} == multiset(sets);
      }
      SubmultisetConsistent(sets, d);
    }
  }

  /** Editing a set's numbers keeps every set consistent. */
  lemma EditKeepsConsistent(sets: seq<PinnedSet>, index: int, newValue: string)
    requires AllConsistent(sets)
    ensures AllConsistent(NumbersEdited(sets, index, newValue))
  {
  }
}
