# average-calc: a verified model of the calculator component

The calculator is a single React component (`src/App.tsx`). The user types a
line such as `1+2-3+4`. The component:

- deletes blanks and commas;
- picks out the signed numbers in the text;
- shows them as badges, in input order or sorted either way;
- computes their total, median, mean, min and max.

The user can remove a badge. The working list can be pinned as a named,
coloured set, which can then be renamed, recoloured, moved, deleted or
re-edited through a text box that shows the set as an equation. A chart draws
every set, padded to a common length, either point by point or as running
totals. A tile shows the statistics over all sets together.

This project models that logic in Dafny and proves what it promises.

| file | module | what it holds |
|---|---|---|
| `wrappers.dfy` | `Wrappers` | `Option` |
| `decimal.dfy` | `Decimal` | Exact decimals `Dec(mant, scale)` standing for the JavaScript numbers the parser produces; canonical form; digit strings; `String(num)` as `Render` |
| `tokenizer.dfy` | `Tokenizer` | `parseEquation`: the separator filter, a matcher for `[+-]?\d+(\.\d+)?` proved to take the longest match, `parseFloat` |
| `parse_examples.dfy` | `ParseExamples` | Worked inputs: `"1,000"`, `"1 2"`, `"5."`, `".5"` |
| `format.dfy` | `Format` | `formatEquation` and the round trip through the parser |
| `stats.dfy` | `Stats` | `calculateStats`: sum, a stable sort, median, mean, min and max, with their order properties |
| `stats_examples.dfy` | `StatsExamples` | Worked lists `1,2,3,4` and `1,2,3` |
| `numberlist.dfy` | `NumberList` | The sort-mode cycle, `getSortedNumbers`, and `handleRemoveNumber`'s list operation |
| `pinned.dfy` | `PinnedSets` | The array each pinned-set handler stores, and the newest-first page order |
| `chart.dfy` | `Chart` | Chart datasets padded to the longest set, `cumulate`, and the totals over all sets |
| `app.dfy` | `App` | Class `NumberStats`: the component's state and one method per event handler |

Numbers are exact decimals, not IEEE doubles. The parser turns the digits of
a match into `mant / 10^scale` and strips trailing fraction zeros (the
canonical form). Two canonical decimals are equal exactly when their values
are (`Decimal.CanonicalUnique`). So `==` on the model's numbers is
JavaScript's `===` on the parsed numbers, which `indexOf` relies on.

Statistics are `real`s. The mean and median of an empty list are `NaN` in
the source; here they are `None`.

The component's state is the class `App.NumberStats`:

- `inputValue`, `numbers`, `sortMode`, `results`, `pinnedSets` and
  `cumulative` are its fields.
- Each handler is a method whose `modifies` clause names the fields that
  handler sets. Its `ensures` give the new value of each of those fields, in
  terms of the pure functions of the other modules.
- Every method keeps `Valid()`, which holds when:
  - the working numbers are canonical;
  - the results are their statistics, and are absent only when there are no
    numbers;
  - every pinned set is non-empty, canonical and carries its own statistics.

The source handlers copy the pinned array, change one entry and store the
copy. The model's functions give the stored copy, and the methods assign it
to the `pinnedSets` field.

`calculateStats` (src/App.tsx:220-241) computes no mode, so the model has
none.

## Model

| member | source | states |
|---|---|---|
| Decimal.Normalize | src/App.tsx:212 | The result is canonical and has the same value; a canonical input is returned unchanged |
| Decimal.ValueSign | src/App.tsx:325 | A decimal's value is non-negative exactly when its mantissa is, which decides the `+` prefix |
| Decimal.CanonicalUnique | src/App.tsx:258 | Two canonical decimals of equal value are equal, so `indexOf`'s `===` is `==` on the model |
| Decimal.ScalesAgree | src/App.tsx:258 | A canonical decimal never has a larger scale than another decimal of the same value |
| Decimal.NatDigits | src/App.tsx:325 | The integer part's digits: non-empty, all digits, no leading zero, and they read back as the number |
| Decimal.PadDigits | src/App.tsx:325 | Exactly `w` digits that read back as `n` |
| Decimal.DigitsValueAppend | src/App.tsx:212 | Reading `x + y` as digits gives `x`'s value shifted by `|y|` places, plus `y`'s value |
| Decimal.FracPart | src/App.tsx:325 | The fraction has exactly `scale` digits |
| Decimal.Render | src/App.tsx:325 | `String(num)`: the sign, integer digits and fraction digits of the canonical form; `Format.ParseRender` proves `parseFloat` reads it back as the number |
| Tokenizer.IsSpace | src/App.tsx:208 | The characters of JavaScript's `\s` class: ASCII white space, the no-break and Unicode space separators, the line and paragraph separators and the byte-order mark |
| Tokenizer.IsSeparator | src/App.tsx:208 | The class `[\s,]`: white space or a comma |
| Tokenizer.Sanitize | src/App.tsx:208 | No white space or comma is left |
| Tokenizer.SanitizeAppend | src/App.tsx:208 | Deleting separators distributes over concatenation |
| Tokenizer.SanitizeKeeps | src/App.tsx:208 | Text without separators is left unchanged |
| Tokenizer.SanitizeDrops | src/App.tsx:208 | Text made only of separators becomes empty |
| Tokenizer.DigitRun | src/App.tsx:209 | The length of the digit run at the start: all of it digits, and the next character is not a digit |
| Tokenizer.DigitRunAtLeast | src/App.tsx:209 | A digit prefix of length `m` makes the run at least `m` long |
| Tokenizer.UnsignedMatchLen | src/App.tsx:209 | What `\d+(\.\d+)?` takes fits in the text |
| Tokenizer.MatchLen | src/App.tsx:209 | The length of the match at the start of the text, never more than the text; `Tokenizer.MatchLenIsLongestLiteral` proves it is the longest literal there |
| Tokenizer.MatchLenSound | src/App.tsx:209 | The text the matcher takes is in the pattern's language |
| Tokenizer.MatchLenLongest | src/App.tsx:209 | No longer prefix is in the pattern's language |
| Tokenizer.MatchLenIsLongestLiteral | src/App.tsx:209-210 | The match at a position is the longest prefix the pattern matches there, and it is empty exactly when no prefix matches |
| Tokenizer.UnsignedMatchLongest | src/App.tsx:209 | The unsigned part takes at least every prefix in `\d+(\.\d+)?` |
| Tokenizer.LiteralUnsignedPart | src/App.tsx:209 | A matched prefix starts with a sign exactly when the text does, and the rest is unsigned |
| Tokenizer.Matches | src/App.tsx:210 | Every match, left to right, is a string of the pattern |
| Tokenizer.MatchesNoDigits | src/App.tsx:210-212 | Text without a digit has no match |
| Tokenizer.MatchesOfLiteralText | src/App.tsx:209-210 | A number's text followed by a sign or the end is matched as exactly that text, and scanning resumes after it |
| Tokenizer.ParseFloat | src/App.tsx:212 | `parseFloat` of a match gives a canonical decimal |
| Tokenizer.ParseFloatOfLiteralText | src/App.tsx:212 | The text of a sign, integer digits and fraction digits parses to the signed digits over ten to the fraction length, normalized |
| Tokenizer.ParseEquation | src/App.tsx:206-213 | The parser never fails and gives canonical numbers |
| Tokenizer.SeparatorIgnored | src/App.tsx:208 | Inserting a blank or comma anywhere leaves the parse unchanged |
| Tokenizer.ParseNoDigits | src/App.tsx:206-213 | Text without a digit parses to no numbers |
| Tokenizer.SanitizeNoDigits | src/App.tsx:208 | Removing separators adds no digits |
| ParseExamples.ParseWhole | src/App.tsx:212 | A whole number's text with an optional sign parses to that signed number |
| ParseExamples.MatchesOfThousands | src/App.tsx:208-210 | `"1,000"` gives the single match `"1000"` |
| ParseExamples.ThousandDigits | src/App.tsx:212 | `"1000"` reads as one thousand |
| ParseExamples.ThousandsSeparator | src/App.tsx:206-213 | `"1,000"` parses to `[1000]` |
| ParseExamples.MatchesOfBlank | src/App.tsx:208-210 | `"1 2"` gives the single match `"12"` |
| ParseExamples.BlankJoinsDigits | src/App.tsx:206-213 | `"1 2"` parses to `[12]` |
| ParseExamples.MatchesOfBarePoint | src/App.tsx:209-210 | `"5."` and `".5"` each give the single match `"5"` |
| ParseExamples.BarePoint | src/App.tsx:206-213 | A point not followed by a digit is skipped: `"5."` and `".5"` both parse to `[5]` |
| Format.SignedText | src/App.tsx:325 | A later number's text: `+` and its text when it is non-negative, its text with its own `-` otherwise; `Format.ParseSignedText` reads it back |
| Format.FormatTail | src/App.tsx:325 | Each number after the first as a blank and its signed text; `Format.TailMatches` proves the parser matches exactly those texts |
| Format.FormatEquation | src/App.tsx:324-326 | The first number's text, then the tail; `Format.RoundTrip` proves parsing it gives back the numbers |
| Format.SignedTextParts | src/App.tsx:325 | A later number is written with an explicit `-` or `+` |
| Format.LiteralTextHasNoSeparator | src/App.tsx:208 | A number's text holds no blank or comma |
| Format.SignedTextKept | src/App.tsx:325 | A later number's text survives the sanitizer and starts with a sign |
| Format.RenderKept | src/App.tsx:325 | The first number's text survives the sanitizer |
| Format.SanitizeTail | src/App.tsx:325 | The sanitizer drops the joining blank and keeps the signed text |
| Format.MatchesSigned | src/App.tsx:325 | A later number's text is matched as a whole |
| Format.TailMatches | src/App.tsx:325 | After the first number, the matches are exactly the signed texts, one per number, in order |
| Format.EquationMatches | src/App.tsx:324-326 | The formatted equation gives one match per number: the first number's text, then the signed texts |
| Format.ParseParts | src/App.tsx:212 | The digits of a canonical decimal parse back to it |
| Format.ParseRender | src/App.tsx:325 | `parseFloat(String(num))` is `num` |
| Format.ParseSignedText | src/App.tsx:325 | `parseFloat` of `+${num}` or `${num}` is `num` |
| Format.RoundTrip | src/App.tsx:324-326 | Parsing the formatted equation gives back exactly the numbers, so the pinned set's edit box reads back as the set |
| Stats.Sum | src/App.tsx:223 | The values added from the left starting at 0; `Stats.SumAppend`, `Stats.SumSingleton` and `Stats.SumPermutation` give its laws |
| Stats.StatsOfSorted | src/App.tsx:224-240 | The results read off an ascending copy and its total: the middle element or the mean of the two middle ones, the total over the count, the first and last elements, 0 for min and max of nothing |
| Stats.CalculateStats | src/App.tsx:220-241 | The results of the ascending copy with the total of the list; `Stats.StatsExtrema`, `Stats.MedianHalves`, `Stats.MeanBetweenExtrema` and `Stats.StatsOrderIndependent` prove what they mean |
| Stats.SumAppend | src/App.tsx:223 | The total of a concatenation is the sum of the totals |
| Stats.SumSingleton | src/App.tsx:223 | The total of one number is its value |
| Stats.SumRemove | src/App.tsx:223 | Deleting one element takes its value off the total |
| Stats.MultisetRemove | src/App.tsx:260 | Deleting one element takes one copy of it out of the multiset |
| Stats.SumPermutation | src/App.tsx:223 | The total does not depend on the order |
| Stats.SortedAt | src/App.tsx:221 | In a sorted list any earlier element is in order with any later one |
| Stats.SortedByPairs | src/App.tsx:221 | Sorted by neighbours is sorted by every pair, and back |
| Stats.SortedCons | src/App.tsx:221 | Putting an element in front of a sorted list keeps it sorted when it is in order with the head |
| Stats.InsertKeepsHead | src/App.tsx:221 | Inserting into the tail after a head in order with the new element keeps the whole sorted |
| Stats.Insert | src/App.tsx:221 | Insertion into a sorted list gives a sorted list with one more copy of the element |
| Stats.Sort | src/App.tsx:221 | The sorted copy is sorted and a permutation of the input |
| Stats.SortedSameHead | src/App.tsx:221 | Two sorted arrangements of the same canonical numbers start with the same element |
| Stats.SortedUnique | src/App.tsx:221 | Two sorted arrangements of the same canonical numbers are equal, so the comparator sort's result does not depend on the algorithm |
| Stats.StatsOfEmpty | src/App.tsx:220-241 | The empty list: total, min and max 0; median and mean `NaN` |
| Stats.SortedBounds | src/App.tsx:221-225 | Every element lies between the first and last elements of the ascending copy |
| Stats.StatsExtrema | src/App.tsx:224-225 | For a non-empty list, min and max bound every element and are elements of the list |
| Stats.MedianBetweenExtrema | src/App.tsx:227-232 | For a non-empty list the median exists and lies between min and max |
| Stats.SumBounds | src/App.tsx:223 | With every element in `[lo, hi]`, the total lies between `n * lo` and `n * hi` |
| Stats.AverageBounds | src/App.tsx:237 | The total over the count lies between the first and last elements of the ascending copy |
| Stats.MeanOfBounded | src/App.tsx:237 | With every element in `[lo, hi]`, so is the average |
| Stats.MeanBetweenExtrema | src/App.tsx:237 | For a non-empty list the mean is the total over the count and lies between min and max |
| Stats.CountSideAppend | src/App.tsx:228-232 | Counting on one side of a value distributes over concatenation |
| Stats.CountSideRemove | src/App.tsx:228-232 | Deleting one element takes its contribution off the count |
| Stats.CountSidePermutation | src/App.tsx:228-232 | The count on one side of a value does not depend on the order |
| Stats.CountSideAtLeast | src/App.tsx:228-232 | A list entirely on one side counts all its elements |
| Stats.CountSideSplit | src/App.tsx:228-232 | A list split at `m` into low and high parts counts at least `m` below and `n - m` above |
| Stats.MedianHalves | src/App.tsx:227-232 | At least half of the numbers are at or below the median and at least half at or above it, for odd and even lengths |
| Stats.StatsOrderIndependent | src/App.tsx:220-241 | The statistics depend only on which numbers there are, not on their order |
| StatsExamples.SortOfSorted | src/App.tsx:221 | An ascending canonical list is its own sorted copy |
| StatsExamples.AscendingWholes | src/App.tsx:221 | The list 1, 2, ..., n is canonical and ascending |
| StatsExamples.StatsOfEven | src/App.tsx:220-241 | For 1, 2, 3, 4: total 10, median 2.5 (the average of the middle two), mean 2.5, min 1, max 4 |
| StatsExamples.SumOfOneToFour | src/App.tsx:223 | The total of 1, 2, 3, 4 is 10 |
| StatsExamples.MedianOfOdd | src/App.tsx:231 | The median of 1, 2, 3 is the middle element, 2 |
| NumberList.NextSortMode | src/App.tsx:426-430 | The sort button goes original, ascending, descending, original, and always changes the mode |
| NumberList.SortModeCycle | src/App.tsx:426-430 | Three presses restore the order and two do not |
| NumberList.SortedNumbers | src/App.tsx:244-248 | The display order is a permutation of the numbers: the numbers themselves, ascending or descending |
| NumberList.IndexOf | src/App.tsx:258 | The first position holding the value, or -1 exactly when it is absent |
| NumberList.DeletesFirst | src/App.tsx:258-260 | `r` is `s` with its first occurrence of `x` spliced out and every other element kept in order; `NumberList.RemoveFirst` produces it |
| NumberList.RemoveFirst | src/App.tsx:258-260 | Deletes the first occurrence and nothing else, taking one copy out of the multiset |
| NumberList.RemoveDisplayed | src/App.tsx:251-264 | For a shown badge, deletes the first occurrence in input order of the value shown at that index, taking exactly that value out of the multiset; another index changes nothing |
| NumberList.DeletesFirstTotal | src/App.tsx:260-262 | Deleting an occurrence takes its value off the total |
| NumberList.RemoveDisplayedTotal | src/App.tsx:251-264 | Removing a badge takes exactly its value off the total |
| NumberList.RemoveInOriginalOrder | src/App.tsx:251-264 | In input order, removal takes out the badge's value, and deletes that very position when no equal value comes earlier |
| NumberList.RemoveKeepsCanonical | src/App.tsx:251-264 | What remains is still canonical |
| NumberList.RemoveDisplayedStats | src/App.tsx:251-264 | After a removal the recomputed total is the old total less the removed badge's value |
| PinnedSets.Swapped | src/App.tsx:165 | The two neighbours are exchanged, all other positions are unchanged, and the multiset is kept |
| PinnedSets.MovedLeft | src/App.tsx:162-167 | Swaps `index` and `index + 1`; no change when `index >= len - 1`; length and multiset kept |
| PinnedSets.MovedRight | src/App.tsx:170-175 | Swaps `index - 1` and `index`; no change when `index <= 0`; length and multiset kept |
| PinnedSets.SubmultisetConsistent | src/App.tsx:162-175 | Sets drawn from consistent sets are consistent |
| PinnedSets.MovesKeepConsistent | src/App.tsx:162-175 | Reordering keeps every set consistent |
| PinnedSets.MoveLeftThenRight | src/App.tsx:162-175 | Moving left, then right from the new position, restores the array |
| PinnedSets.MoveRightThenLeft | src/App.tsx:162-175 | Moving right, then left from the new position, restores the array |
| PinnedSets.Displayed | src/App.tsx:513 | The page shows the sets reversed, newest first |
| PinnedSets.SourceIndex | src/App.tsx:521-557 | The handler index `len - 1 - idx` is in range and maps back to the card position `idx` |
| PinnedSets.CardShowsItsSet | src/App.tsx:513-521 | The card at a page position acts on the set it shows |
| PinnedSets.DisplayedSwapped | src/App.tsx:528-531 | Exchanging neighbours in the array exchanges the mirrored neighbours on the page |
| PinnedSets.DisplayedSwappedAt | src/App.tsx:528-531 | The same, card by card |
| PinnedSets.MoveLeftOnPage | src/App.tsx:528-530 | "Move left" on a card moves it one place left on the page, and does nothing on the leftmost card, where the item is disabled |
| PinnedSets.MoveRightOnPage | src/App.tsx:531-533 | "Move right" on a card moves it one place right on the page, and does nothing on the rightmost card, where the item is disabled |
| PinnedSets.Renamed | src/App.tsx:287-291 | Only the name of the set at `index` changes; an index naming no set changes nothing |
| PinnedSets.Recolored | src/App.tsx:178-182 | Only the colour of the set at `index` changes; an index naming no set changes nothing |
| PinnedSets.SpliceStart | src/App.tsx:296 | `splice`'s start position: a negative start counts from the end, clamped to the array |
| PinnedSets.Deleted | src/App.tsx:293-299 | Removes exactly the element at the splice position, keeping the order of the rest; no change past the end |
| PinnedSets.DeleteOnPage | src/App.tsx:521 | Deleting through a card removes that card from the page and keeps the others in order |
| PinnedSets.Pinned | src/App.tsx:272-285 | Appends the working numbers and results under the name `Pinned Set n+1`, which then shows first on the page |
| PinnedSets.DefaultName | src/App.tsx:278 | `Pinned Set ` followed by the decimal digits of the count |
| PinnedSets.PinnedConsistent | src/App.tsx:272-285 | Pinning non-empty canonical numbers with their statistics keeps every set consistent |
| PinnedSets.NumbersEdited | src/App.tsx:301-310 | When the text parses to some numbers, only that set's numbers and results change, the results being `calculateStats` of the new numbers; otherwise nothing changes |
| PinnedSets.UnchangedTextKeepsSet | src/App.tsx:556-557 | Submitting a card's box with the text it shows leaves every set as it was |
| PinnedSets.RelabelKeepsConsistent | src/App.tsx:178-182 | Renaming and recolouring keep every set consistent |
| PinnedSets.DeleteKeepsConsistent | src/App.tsx:293-299 | Deleting keeps the remaining sets consistent |
| PinnedSets.EditKeepsConsistent | src/App.tsx:301-310 | Editing numbers keeps every set consistent |
| Chart.SetNumbers | src/App.tsx:332 | The pinned sets' number lists, in order |
| Chart.MaxSetLength | src/App.tsx:333 | `Math.max(0, ...lengths)`: at least every length, and 0 or one of them |
| Chart.ChartWidth | src/App.tsx:332-333 | The chart's length bounds the working list and every pinned set, and is one of their lengths |
| Chart.Padded | src/App.tsx:341 | A set's values followed by `null` up to the width |
| Chart.BuildChartData | src/App.tsx:332-356 | Labels `1..width`; one dataset per pinned set with its name and colour, then the working list; every dataset padded to the width |
| Chart.DatasetsAligned | src/App.tsx:336-356 | Every dataset has one point per label |
| Chart.OrZero | src/App.tsx:363 | A missing point counts as 0, as `acc + null` does |
| Chart.RunningTotal | src/App.tsx:362-365 | The sum of the first `n` points, a missing one counting 0; `Chart.Cumulate` proves point `i` of the cumulative line is this total for `i + 1` |
| Chart.Cumulate | src/App.tsx:362-365 | Same length as the input, and point `i` is the sum of points `0..i` with `null` counting 0 |
| Chart.RunningTotalOfPadded | src/App.tsx:362-368 | A padded set's running total is the sum of its numbers so far, and stays at the set's total through the padding |
| Chart.CumulativeEndsAtTotal | src/App.tsx:362-368 | A cumulative line ends at its set's total |
| Chart.GetChartData | src/App.tsx:359-371 | The plain chart unchanged, or every dataset with the same label and colours and its points replaced by running totals |
| Chart.NonEmptySets | src/App.tsx:374 | Only non-empty sets remain, and flattening gives the same numbers as before the filter |
| Chart.Flatten | src/App.tsx:375 | `.flat()`: the sets' numbers one after the other; `Chart.FlattenAppend` and `Chart.FlattenSum` give its laws |
| Chart.FlattenSum | src/App.tsx:375 | The total of the flattened sets is the sum of their totals |
| Chart.FlattenAppend | src/App.tsx:375 | Flattening distributes over concatenation |
| Chart.FlattenCanonical | src/App.tsx:375 | Flattening canonical sets gives canonical numbers |
| Chart.SumOfSumsAppend | src/App.tsx:375 | The sum of set totals distributes over concatenation |
| Chart.PinnedSums | src/App.tsx:375 | For consistent sets, the sum of their numbers' totals is the sum of their stored totals |
| Chart.TotalsStats | src/App.tsx:374-375 | `calculateStats` of the non-empty sets flattened, the working list first; `Chart.TotalsNumbers` and `Chart.TotalsAddUp` prove what it is |
| Chart.TotalsAddUp | src/App.tsx:374-375 | The totals tile's total is the working total plus every pinned set's own total |
| Chart.TotalsNumbers | src/App.tsx:374-375 | The totals tile is the statistics of the working list followed by every pinned set's numbers |
| Chart.PinnedNumbersCanonical | src/App.tsx:374-375 | The pinned sets' numbers are canonical |
| Chart.PinnedNumbers | src/App.tsx:280 | After pinning, the pinned numbers are the old ones followed by the pinned list |
| Chart.PinKeepsTotals | src/App.tsx:272-285 | Pinning leaves the totals tile unchanged |
| Chart.StatsOfHalves | src/App.tsx:375 | Swapping two blocks of canonical numbers leaves the statistics unchanged |
| App.IsBlank | src/App.tsx:188 | `trim() === ''`: every character is white space; `App.BlankParsesEmpty` proves the parser agrees |
| App.BlankParsesEmpty | src/App.tsx:188-193 | Blank text parses to no numbers, so the blank branch agrees with the parser |
| App.ParseInput | src/App.tsx:184-203 | The numbers are the parse of the text, the results are their statistics, present exactly when something parsed |
| App.NumberStats.Chart | src/App.tsx:359-371 | The chart drawn is the built chart; in cumulative mode it has the same labels and datasets, each keeping its legend and colours, with point `j` replaced by the running total of the first `j + 1` points |
| App.NumberStats.constructor | src/App.tsx:134-139 | Nothing typed, no numbers or results, input order, nothing pinned, serial chart |
| App.NumberStats.InputChange | src/App.tsx:184-203 | The box shows the text, the numbers are its parse, and results exist exactly when something parsed |
| App.NumberStats.RemoveNumber | src/App.tsx:251-264 | The numbers lose the removed badge's first occurrence in input order and the results are recomputed, the total falling by its value; an index showing no badge changes nothing |
| App.NumberStats.CycleSortMode | src/App.tsx:425-431 | The display order advances to the next mode |
| App.NumberStats.ToggleCumulative | src/App.tsx:639 | Serial and cumulative chart modes swap |
| App.NumberStats.PinNumbers | src/App.tsx:272-285 | With numbers and results, they become the newest pinned set and the input, numbers and results are cleared; otherwise nothing changes |
| App.NumberStats.EditPinnedSetName | src/App.tsx:287-291 | The pinned sets become `Renamed` of the old ones |
| App.NumberStats.ChangePinnedSetColor | src/App.tsx:178-182 | The pinned sets become `Recolored` of the old ones with the given colour |
| App.NumberStats.DeletePinnedSet | src/App.tsx:293-299 | When confirmed the set at `index` is spliced out; otherwise nothing changes |
| App.NumberStats.EditPinnedSetNumbers | src/App.tsx:301-310 | The pinned sets become `NumbersEdited` of the old ones and stay consistent |
| App.NumberStats.MovePinnedSetLeft | src/App.tsx:162-167 | The pinned sets become `MovedLeft` of the old ones |
| App.NumberStats.MovePinnedSetRight | src/App.tsx:170-175 | The pinned sets become `MovedRight` of the old ones |

## Left out

- Rendering (src/App.tsx:1-130, 377-725): JSX, styles, Bootstrap and chart.js components, and `ResultsText`'s `Intl.NumberFormat` display. These are view markup.
- Storage: the `localStorage` reads and writes and `JSON.parse`/`JSON.stringify` (src/App.tsx:142-159, 191, 195, 268). They are I/O. `updatePinnedSets` is modelled as the assignment to `pinnedSets`. The load-on-mount effects are not modelled.
- `getRandomColor` (src/App.tsx:313-322) depends on `Math.random` and the `tinycolor` library. The colour is a parameter of `PinNumbers` and `ChangePinnedSetColor`.
- `window.confirm` (src/App.tsx:294) is a prompt. Its answer is the `confirmed` parameter of `DeletePinnedSet`.
- The line/bar switch `chartType` (src/App.tsx:139, 617) only picks a chart component, so it is not modelled.
- IEEE-754 doubles: `parseFloat` rounding, rounding in sums and means, `NaN` arithmetic, and negative zero. Numbers are exact decimals and statistics exact reals. The mean and median of an empty list, `NaN` in the source, are `None`.
- `Decimal.Render`: writes every number in plain decimal notation. JavaScript switches to exponent notation at magnitudes of `1e21` and above and below `1e-6`, so `Format.RoundTrip` covers only numbers JavaScript prints in plain notation.
- The source's pinned sets are objects shared between the old and new arrays, and the rename, recolour and edit handlers assign to fields of that shared object. The model replaces the entry by a new value, so it does not capture that aliasing. The stored arrays are the same.
- `Stats.Sort`: stands in for the engine's `Array.prototype.sort` with a stable insertion sort. `Stats.SortedUnique` shows every correct sort gives the same result on canonical numbers, so the choice of algorithm does not matter.
- App.NumberStats.MovePinnedSetLeft: requires `0 <= index`. With a negative index the source writes to `updated[-1]` and corrupts the array. The page only passes `pinnedSets.length - 1 - idx`, which is never negative.
- App.NumberStats.MovePinnedSetRight: requires `index < |pinnedSets|`. With an index past the end the source moves `undefined` into the array. The page never passes such an index.
- App.NumberStats.EditPinnedSetName, App.NumberStats.ChangePinnedSetColor and App.NumberStats.EditPinnedSetNumbers: for an index naming no set, the source throws a `TypeError` before storing anything. The model leaves the state unchanged, the same state the exception leaves behind.
- App.NumberStats.PinNumbers: its contract does not state the totals tile. `Chart.PinKeepsTotals` states that separately.
