# Sorting visualiser: bubble-sort trace, step player, bar colours and code panel

A Dafny model of the logic inside a browser visualiser for sorting
algorithms. The visualiser draws each array element as a bar and shows the
pseudo-code of the active algorithm with the current line highlighted. The
modelled parts are listed below.

- **The bubble-sort step generator**
  (`generateBubbleSortSteps` in `components/organisms/arraySorting/index.tsx`).
  It is an imperative method, `ArraySorting.GenerateBubbleSortSteps`. The method sorts a working
  array in place and appends a snapshot record at every logical point. It is
  proved equal to a functional definition of the whole trace,
  `BubbleTrace.BubbleSortSteps`. Lemmas about that function state what
  every trace satisfies:
  - every record is a permutation of the input;
  - every record names a listing line in 1..18;
  - every comparison is an in-range adjacent pair;
  - consecutive records differ by at most one strict adjacent swap;
  - a comparison yields 5 records, or 8 when it swaps;
  - the trace opens with the input on line 1, closes with lines 17 and 18,
    and its last array is sorted.
- **The step player** (the same file). The component's state is a class,
  `ArraySorting.ArraySortingVisualization`. Its methods are the bubble and
  reset buttons, next/prev and the slider. The cursor arithmetic
  (`Math.min`/`Math.max`) is written as functions, with lemmas for clamping
  and repeated presses. The derived `currentStep` is a function of the state.
- **The record sorter of the bubble-sort demo**
  (`components/organisms/BubbleSortDemo/BubbleSortDemo.tsx`). This is a class
  whose `BubbleSort` method sorts an array copy of the `{id, value}` records
  in place, publishing the list after each swap.
  - The published lists form a chain of strict adjacent swaps (`SwapChain`).
    Any such chain keeps the records (a permutation) and keeps records with
    equal values in their order (stability).
  - The sort ends ordered by value.
  - What a pass does, and the whole history the sort publishes, are also
    functions (`PassList`, `PassFrames`, `SortFrames`). The methods are
    proved to produce exactly those lists.
- **The bar-colour rule** (`components/molecules/boxRow/index.tsx`). The
  priority chain from an index and the highlight props to one of the named
  colours is a function. Lemmas compare it with an independent statement of
  the rule: the applicable role of highest rank wins.
- **The code panel** (`components/molecules/AlgorithmCodeDisplay/index.tsx`).
  This covers:
  - listing selection, including the placeholder;
  - `split('\n')`, with its line count and its inverse (joining);
  - the 1-based line highlight and the row text: the line (a space for an
    empty line) followed by the space that JSX keeps before the comment;
  - the title string and the description guard.
- **How the parts meet.** Lemmas show that a bubble step highlights exactly
  one row of the 19-line bubble listing. They also show that it colours only
  its compared pair.

Three facts about the code shape the model:
- A step keeps independent optional highlight fields, and the colour chain
  resolves them in priority order.
- The chain's first test is the heap "largest" index, ahead of the other
  heap nodes.
- Only bubble sort has a step generator. The handlers of the other twelve
  algorithms generate nothing.

## Model

| member | source | states |
|---|---|---|
| ArraySorting.GenerateBubbleSortSteps | components/organisms/arraySorting/index.tsx:114-155 | The in-place generator returns exactly the functional trace `BubbleSortSteps(itemsToSort)`. The caller's sequence is a value, so it stays unchanged. |
| ArraySorting.RunPasses | components/organisms/arraySorting/index.tsx:123-149 | The `do … while (swapped)` loop appends the passes. What it appends, plus the closing records of lines 17 and 18 on the final array, is the trace from the start array. |
| ArraySorting.AdvanceTrace | components/organisms/arraySorting/index.tsx:147-149 | After one pass, either another pass follows with the bound decreased by one (when it swapped and so had a bound of at least 1), or only the closing records remain. |
| ArraySorting.RecordPass | components/organisms/arraySorting/index.tsx:124-148 | One pass appends the records for lines 4 and 5, the comparisons and the line-16 record. The array becomes the pass's result and `swapped` is the pass's flag. |
| ArraySorting.RunPass | components/organisms/arraySorting/index.tsx:128-146 | The inner `for` loop makes `n - 1` comparisons, none when `n <= 1`. Its records, array and flag equal the functional pass. |
| ArraySorting.CompareAdjacent | components/organisms/arraySorting/index.tsx:129-145 | One comparison: swaps in place exactly when `arr[i] > arr[i+1]`, and reports whether it did. It appends that comparison's records. |
| ArraySorting.NextIndex | components/organisms/arraySorting/index.tsx:379-381 | Inside a trace the cursor moves one forward and stays put on the last step. |
| ArraySorting.PrevIndex | components/organisms/arraySorting/index.tsx:383-385 | Inside a trace the cursor moves one back and stays put on step 0. |
| ArraySorting.NextInRangeExactlyWithSteps | components/organisms/arraySorting/index.tsx:379-381 | For every cursor of a trace of any length, "Next" keeps the cursor inside the trace exactly when there are steps. With no steps it gives -1, which is why the controls exist only for a non-empty trace (line 431). |
| ArraySorting.NextPrevCancel | components/organisms/arraySorting/index.tsx:379-385 | Away from the boundary, next then prev (or prev then next) leaves the cursor where it was. |
| ArraySorting.NextPressedClamps | components/organisms/arraySorting/index.tsx:379-381 | Pressing "Next" `k` times gives `min(idx + k, len - 1)`. |
| ArraySorting.PrevPressedClamps | components/organisms/arraySorting/index.tsx:383-385 | Pressing "Prev" `k` times gives `max(idx - k, 0)`. |
| ArraySorting.ArraySortingVisualization.constructor | components/organisms/arraySorting/index.tsx:100-111 | The view starts with the initial array, no trace, cursor 0, no algorithm and the flag clear. |
| ArraySorting.ArraySortingVisualization.HandleBubbleSortClick | components/organisms/arraySorting/index.tsx:299-307 | A click while generating changes nothing. Otherwise the view ends with the bubble trace of the initial items loaded, cursor 0, bubble selected and the flag clear. |
| ArraySorting.ArraySortingVisualization.HandleResetClick | components/organisms/arraySorting/index.tsx:369-376 | Reset drops the trace, sets the cursor to 0 and selects no algorithm. The initial items and the flag are kept. |
| ArraySorting.ArraySortingVisualization.HandleNextStep | components/organisms/arraySorting/index.tsx:379-381 | The cursor becomes `min(prev + 1, len - 1)` and stays inside the trace. |
| ArraySorting.ArraySortingVisualization.HandlePrevStep | components/organisms/arraySorting/index.tsx:383-385 | The cursor becomes `max(prev - 1, 0)` and stays inside the trace. |
| ArraySorting.ArraySortingVisualization.HandleSliderChange | components/organisms/arraySorting/index.tsx:459-464 | The slider, ranging over `0..len-1`, sets the cursor to its value. |
| ArraySorting.ArraySortingVisualization.CurrentStep | components/organisms/arraySorting/index.tsx:389 | With no trace, the step is the bare initial items with no line. Otherwise it is a well-formed bubble record. Either way the bars are a permutation of the initial items. |
| ArraySorting.BubbleStepHighlightsOneListingLine | components/organisms/arraySorting/index.tsx:473 | For every bubble step the code panel shows the 19 bubble lines. Exactly the step's line is highlighted, and it is never the last line. |
| ArraySorting.BubbleStepBarColors | components/organisms/arraySorting/index.tsx:496-511 | A bubble step gives its compared pair, which lies inside the array, the compare colour. Every other bar gets the default colour. |
| Sequences.Swap | components/organisms/arraySorting/index.tsx:135 | The destructuring swap keeps the array's length. The demo's swap of records (BubbleSortDemo.tsx line 34) is the same function. |
| Sequences.SwapExchanges | components/organisms/arraySorting/index.tsx:135 | The swap exchanges positions `i` and `i+1`, leaves all others and permutes the sequence. |
| BubbleTrace.BubbleSortSteps | components/organisms/arraySorting/index.tsx:114-155 | The trace has at least six records. It opens with the input on line 1, followed by the first pass's line-4 record, also on the input. |
| BubbleTrace.PassesFrom | components/organisms/arraySorting/index.tsx:123-152 | From any pass on, at least five records remain: lines 4, 5 and 16 and the closing pair. The first is line 4 on the pass's start array. |
| BubbleTrace.PassSteps | components/organisms/arraySorting/index.tsx:128-146 | `k` comparisons give between `5k` and `8k` records. |
| BubbleTrace.FinalArray | components/organisms/arraySorting/index.tsx:123-152 | The array at loop exit has the input's length. |
| BubbleTrace.CompareHead | components/organisms/arraySorting/index.tsx:129-131 | The three records of lines 6, 7 and 8 show the array unchanged, with the pair `[i, i+1]` highlighted. |
| BubbleTrace.SwapSteps | components/organisms/arraySorting/index.tsx:133-140 | Four records. The first shows the array before the swap, with the pair highlighted. The other three show it after the swap. |
| BubbleTrace.NoSwapSteps | components/organisms/arraySorting/index.tsx:141-143 | One record, showing the unchanged array with the pair highlighted. |
| BubbleTrace.CompareSteps | components/organisms/arraySorting/index.tsx:129-145 | A comparison yields 8 records when `a[i] > a[i+1]` and 5 otherwise. |
| BubbleTrace.PassArr | components/organisms/arraySorting/index.tsx:128-146 | The working array of a pass keeps its length. |
| BubbleTrace.PassSwapped | components/organisms/arraySorting/index.tsx:125-136 | `swapped` can only be set once a comparison has been made. |
| BubbleTrace.PassArrPermutes | components/organisms/arraySorting/index.tsx:128-146 | A pass's array is a permutation of the one it started with. |
| BubbleTrace.PassArrFacts | components/organisms/arraySorting/index.tsx:128-146 | After `k` comparisons, positions after `k` are untouched and position `k` holds the largest of the first `k + 1`. Without a swap the array is unchanged and its first `k + 1` elements are sorted. |
| BubbleTrace.PassArrBounded | components/organisms/arraySorting/index.tsx:128-146 | A pass never moves a value above a bound that the first `k + 1` elements respect. |
| BubbleTrace.PassExtendsSortedSuffix | components/organisms/arraySorting/index.tsx:123-148 | A full pass with bound `n` extends the sorted, dominating suffix from `n` to `n - 1`. |
| BubbleTrace.QuietPassMeansSorted | components/organisms/arraySorting/index.tsx:149-151 | A pass without a swap leaves the array as it was, and that array is sorted. |
| BubbleTrace.FinalArraySorted | components/organisms/arraySorting/index.tsx:123-152 | The array the passes end with is sorted. |
| BubbleTrace.FinalArrayPermutes | components/organisms/arraySorting/index.tsx:123-152 | The array the passes end with is a permutation of the input. |
| BubbleTrace.CompareStepsRun | components/organisms/arraySorting/index.tsx:129-145 | The records of one comparison are well formed, and each shows the array before it or that array with its highlighted pair strictly swapped. |
| BubbleTrace.SwapStepsRun | components/organisms/arraySorting/index.tsx:134-140 | The four swap records show the array, then the array with the compared pair swapped. The left value was strictly greater. |
| BubbleTrace.PassStepsRun | components/organisms/arraySorting/index.tsx:128-146 | The comparisons of a pass form a well-formed run from the pass's start array to its result. |
| BubbleTrace.PassesFromRun | components/organisms/arraySorting/index.tsx:123-152 | All passes and the closing records form a well-formed run from the start array to the final array. |
| BubbleTrace.PassesFromEnd | components/organisms/arraySorting/index.tsx:151-152 | The trace ends with the records of lines 17 and 18, both on the final array. |
| BubbleTrace.BubbleStepsWellFormed | components/organisms/arraySorting/index.tsx:114-155 | Every record is a permutation of the input with a line in 1..18, and any comparison is `[i, i+1]` inside the array. Notes exist only on the compared pair, and no other highlight is set. Consecutive records show equal arrays or differ by one strict adjacent swap of the highlighted pair. |
| BubbleTrace.BubbleStepsEndSorted | components/organisms/arraySorting/index.tsx:121-152 | The first record is the unmodified input on line 1. The last two are lines 17 and 18 on the same array, which is sorted and a permutation of the input. |
| BubbleSortDemo.StrictSwapKeepsEqualValueOrder | components/organisms/BubbleSortDemo/BubbleSortDemo.tsx:32-35 | A swap of records with strictly different values leaves the order of the records of every value unchanged. |
| BubbleSortDemo.OneSwapPermutesStably | components/organisms/BubbleSortDemo/BubbleSortDemo.tsx:32-35 | One strict adjacent swap keeps the records and the order of records with equal values. |
| BubbleSortDemo.SwapChainPermutesStably | components/organisms/BubbleSortDemo/BubbleSortDemo.tsx:29-45 | Whatever chain of strict swaps was published, the list is a permutation of the starting list, and records with equal values are in their starting order. |
| BubbleSortDemo.SwapChainSnoc | components/organisms/BubbleSortDemo/BubbleSortDemo.tsx:34-38 | Publishing the list after one more strict swap extends the chain by exactly that list. |
| BubbleSortDemo.SwapChainAppend | components/organisms/BubbleSortDemo/BubbleSortDemo.tsx:29-45 | The chains of successive passes join into one chain. |
| BubbleSortDemo.SwapChainKeepsLength | components/organisms/BubbleSortDemo/BubbleSortDemo.tsx:25-38 | Every published list has as many records as the list sorted. |
| BubbleSortDemo.SortedUpToExtends | components/organisms/BubbleSortDemo/BubbleSortDemo.tsx:31-42 | A comparison without a swap extends the ordered prefix of the pass by one record. |
| BubbleSortDemo.CompareKeepsOrder | components/organisms/BubbleSortDemo/BubbleSortDemo.tsx:31-42 | A comparison, with or without its swap, keeps the dominating suffix from `n` and carries the largest value seen to `i + 1`. |
| BubbleSortDemo.PassList | components/organisms/BubbleSortDemo/BubbleSortDemo.tsx:31-42 | A pass's list after any number of comparisons has as many records as the list it started from. |
| BubbleSortDemo.PassFrames | components/organisms/BubbleSortDemo/BubbleSortDemo.tsx:31-42 | The first `k` comparisons publish at most `k` lists. The last list published is the pass's current list. |
| BubbleSortDemo.SortFrames | components/organisms/BubbleSortDemo/BubbleSortDemo.tsx:29-45 | Every list in the sort's whole history has as many records as the list sorted. |
| BubbleSortDemo.PassAdvances | components/organisms/BubbleSortDemo/BubbleSortDemo.tsx:32-38 | One more comparison applies the compare-and-swap to the pass's list. It publishes the new list exactly when the left value was greater. |
| BubbleSortDemo.CompareExtendsChain | components/organisms/BubbleSortDemo/BubbleSortDemo.tsx:32-38 | A comparison extends a chain of strict swaps by the list it publishes, if any. The chain then ends at the list after the comparison. |
| BubbleSortDemo.PassFramesAreSwapChain | components/organisms/BubbleSortDemo/BubbleSortDemo.tsx:31-42 | The lists one pass publishes form a chain of strict swaps from its start list to its final list. |
| BubbleSortDemo.AdvanceSortFrames | components/organisms/BubbleSortDemo/BubbleSortDemo.tsx:43-45 | After a pass, either it published nothing and the history is complete, or a pass with bound `n - 1` continues the history. |
| BubbleSortDemo.PassEnd | components/organisms/BubbleSortDemo/BubbleSortDemo.tsx:43-45 | After a pass the record at `n - 1` joins the ordered suffix. A pass without a swap leaves the whole list ordered. |
| BubbleSortDemo.BubbleSortDemoView.constructor | components/organisms/BubbleSortDemo/BubbleSortDemo.tsx:10-20 | The demo starts with the five initial records and is not sorting. |
| BubbleSortDemo.BubbleSortDemoView.BubbleSort | components/organisms/BubbleSortDemo/BubbleSortDemo.tsx:23-48 | The list ends ordered by value, as a permutation of the old list that keeps equal values in order. The lists published meanwhile are exactly `SortFrames` of the old list. They form a chain of strict swaps, one per swap, ending at the new list. `isSorting` is false at the end. |
| BubbleSortDemo.BubbleSortDemoView.SortPasses | components/organisms/BubbleSortDemo/BubbleSortDemo.tsx:25-45 | The `do … while (swapped)` loop leaves the array ordered. It publishes exactly the sort's history `SortFrames` from the list it started with, and that history is a chain of strict swaps. |
| BubbleSortDemo.BubbleSortDemoView.OuterStep | components/organisms/BubbleSortDemo/BubbleSortDemo.tsx:30-44 | One pass and `n--`: the history published so far remains a prefix of the whole history, and a chain of strict swaps. A pass without a swap completes the history, with the list ordered. |
| BubbleSortDemo.BubbleSortDemoView.SortPass | components/organisms/BubbleSortDemo/BubbleSortDemo.tsx:30-42 | One pass makes the array `PassList` of the old array over `n - 1` comparisons, and publishes exactly `PassFrames`, one list per swap. These form a chain of strict swaps. The pass extends the ordered suffix to `n - 1`. `swapped` is set exactly when it published something, and only when `n >= 2`. Without a swap the list and the history are unchanged, and the list is fully ordered. |
| BubbleSortDemo.BubbleSortDemoView.PassStep | components/organisms/BubbleSortDemo/BubbleSortDemo.tsx:32-41 | One iteration of the inner loop moves the array and the published lists on to those of `PassList` and `PassFrames` one comparison further. It keeps the ordered suffix and carries the largest value seen to `i + 1`. |
| BubbleSortDemo.BubbleSortDemoView.CompareAt | components/organisms/BubbleSortDemo/BubbleSortDemo.tsx:32-41 | `didSwap` is exactly whether the value at `i` exceeded the one at `i + 1`. The new array is `AfterCompareAt` of the old one. If it swapped, those two records are exchanged and the list is published. Otherwise nothing changes. |
| BubbleSortDemo.BubbleSortDemoView.HandleSortClick | components/organisms/BubbleSortDemo/BubbleSortDemo.tsx:50-54 | A click while sorting changes nothing. Otherwise the list is sorted stably, and the lists published are exactly bubble sort's history `SortFrames` of the old list, a chain of strict swaps. |
| BubbleSortDemo.BubbleSortDemoView.HandleResetClick | components/organisms/BubbleSortDemo/BubbleSortDemo.tsx:56-58 | Reset shows, and publishes, the initial records again. |
| BoxRow.ColorAt | components/molecules/boxRow/index.tsx:112-159 | The compare colour is chosen only for an index that is being compared. |
| BoxRow.RowColors | components/molecules/boxRow/index.tsx:69-71 | There is one colour per item, and the colour at `i` is the chain's colour for `i`. |
| BoxRow.ColorIsHighestPriorityRole | components/molecules/boxRow/index.tsx:129-159 | The chain returns the colour of an applicable role that no other applicable role outranks. It returns the default exactly when no role applies. |
| BoxRow.Css | components/molecules/boxRow/index.tsx:25-40 | Every colour the chain can pick is an `hsl(…)` string. |
| BoxRow.CssIsInjective | components/molecules/boxRow/index.tsx:25-40 | The sixteen colour constants the chain uses are pairwise distinct, so every role is visible. |
| BoxRow.HeapLargestWins | components/molecules/boxRow/index.tsx:129-130 | The heap-largest index gets the heap-largest colour whatever else applies. |
| BoxRow.NoHighlightIsDefault | components/molecules/boxRow/index.tsx:113 | With every highlight absent each bar has the default colour. |
| BoxRow.ComparisonOnlyColors | components/molecules/boxRow/index.tsx:141-142 | With only a comparison set, compared bars get the compare colour and all others the default. |
| BoxRow.RangesAreInclusive | components/molecules/boxRow/index.tsx:114-120 | For any bounds, merge, tim and cocktail ranges include both ends and nothing outside them. A range with `left > right` colours nothing. |
| BoxRow.RangeColorFollowsTag | components/molecules/boxRow/index.tsx:117-122 | Below the higher-priority roles, the cocktail colour follows `direction` and the tim colour follows `type`. |
| BoxRow.StrandMergeIsIgnored | components/molecules/boxRow/index.tsx:126-127 | `strandMergeIndices` never changes a colour. |
| BoxRow.RowColorsIgnoreValues | components/molecules/boxRow/index.tsx:69-71 | The colours depend on the number of items, never on their values. |
| AlgorithmCodeDisplay.GetCode | components/molecules/AlgorithmCodeDisplay/index.tsx:474-503 | Each of the twelve algorithms gets its own listing. No algorithm, or strand, gets the placeholder. |
| AlgorithmCodeDisplay.Lines | components/molecules/AlgorithmCodeDisplay/index.tsx:506 | Splitting always gives at least one line; the empty code gives one empty line. |
| AlgorithmCodeDisplay.LineCountIsNewlinesPlusOne | components/molecules/AlgorithmCodeDisplay/index.tsx:505-506 | There is one more line than there are newlines. |
| AlgorithmCodeDisplay.LinesHaveNoNewline | components/molecules/AlgorithmCodeDisplay/index.tsx:506 | No line contains a newline. |
| AlgorithmCodeDisplay.JoinSplitRoundTrip | components/molecules/AlgorithmCodeDisplay/index.tsx:506 | Joining the lines with newlines gives the code back. |
| AlgorithmCodeDisplay.NoNewlineIsOneLine | components/molecules/AlgorithmCodeDisplay/index.tsx:501 | Code without a newline, such as the placeholder, is a single line. |
| AlgorithmCodeDisplay.RenderLine | components/molecules/AlgorithmCodeDisplay/index.tsx:514-524 | A row's text is never blank. It ends in the space JSX keeps between the line expression and the comment that follows it. Dropping that space gives back a non-empty line, and an empty line shows as two spaces. The row is highlighted exactly when `currentLine` is its index plus one. |
| AlgorithmCodeDisplay.Render | components/molecules/AlgorithmCodeDisplay/index.tsx:514-525 | One row per line, so the number of newlines plus one. |
| AlgorithmCodeDisplay.HighlightIsCurrentLine | components/molecules/AlgorithmCodeDisplay/index.tsx:514-521 | Row `k` is highlighted exactly when `currentLine == k + 1`, so at most one row is. One is exactly when `currentLine` lies in 1..number of lines. |
| AlgorithmCodeDisplay.RowsShowTheirLines | components/molecules/AlgorithmCodeDisplay/index.tsx:523 | Each row shows its line, or a space for an empty line, followed by one space. Dropping the last space of a row gives back every non-empty line. |
| AlgorithmCodeDisplay.Name | components/organisms/arraySorting/index.tsx:111 | Every algorithm identifier of the page's thirteen is a non-empty string of lower-case ASCII letters. The code panel's prop type (AlgorithmCodeDisplay/index.tsx line 4) has the same ids except `strand`. |
| AlgorithmCodeDisplay.Capitalize | components/molecules/AlgorithmCodeDisplay/index.tsx:511 | Capitalising keeps the length and everything after the first character. |
| AlgorithmCodeDisplay.Title | components/molecules/AlgorithmCodeDisplay/index.tsx:511 | The title ends in " Sort Code" exactly when an algorithm is selected. Otherwise it is "Algorithm Code". |
| AlgorithmCodeDisplay.TitleNamesTheAlgorithm | components/molecules/AlgorithmCodeDisplay/index.tsx:511 | The title is the name with an upper-case first letter followed by " Sort Code". Lower-casing that letter gives the name back. |
| AlgorithmCodeDisplay.ShowsDescription | components/molecules/AlgorithmCodeDisplay/index.tsx:528 | No description is shown without a selected algorithm, nor for one without an entry in the table. |
| AlgorithmCodeDisplay.PanelFollowsSelection | components/molecules/AlgorithmCodeDisplay/index.tsx:527-533 | The description appears exactly when a listing, not the placeholder, is shown. That listing has its known number of lines, and the placeholder is one line. |

## Left out

- The 3D scene (ground, pillar, canvas, lights, physics, camera controls), the bar row's spring animation and layout arithmetic, the info boxes, the page and the build configuration. These are rendering and library calls.
- The twelve other sorting algorithms, and the click handlers that start them. In the source they are stubs that only log a warning and generate no steps. So the model's view only ever has bubble selected, or nothing.
- The commented-out asynchronous bubble sort and the unused tree-node class.
- The pseudo-code listings and the description texts are display text. `AlgorithmCodeDisplay.Texts` takes them as a table. `SourceTexts` records what the source's table satisfies: which algorithms have entries, and the line count of each trimmed listing (bubble 19, selection 25, insertion 19, merge 29, quick 31, heap 40, shell 28, tree 50, tim 43, cocktail 46, comb 40, gnome 28).
- The interpolated `description` and `logicDetails` strings are datatypes that carry the numbers the source interpolates, not the English text.
- Numbers are `int`: the arrays hold integers, so floating point, `NaN` and JavaScript's number coercions are not modelled.
- `AlgorithmCodeDisplay.Capitalize` upper-cases ASCII letters only. The algorithm names are lower-case ASCII, and no other case mapping is modelled.
- `await`, `setTimeout` delays, `useCallback` and React's batching of state updates.
  - `BubbleSortDemo.BubbleSortDemoView.BubbleSort` runs to completion inside the click. `isSorting` is true only during the call, so a second click interleaved with a running sort is not modelled. Only the guard on `isSorting` is.
  - Each `setItems` is an assignment to `items`, recorded in the ghost history `published`.
  - `BubbleSortDemo.BubbleSortDemoView.HandleResetClick`: the `disabled` attribute of the reset button during sorting is presentation and is not modelled; the handler itself has no guard.
- The "Prev"/"Next" buttons' `disabled` attributes, the step counter text and the description paragraph are presentation. At the boundaries the handlers are no-ops anyway (`ArraySorting.NextIndex`, `ArraySorting.PrevIndex`).
- `ArraySorting.ArraySortingVisualization.HandleNextStep` and `HandlePrevStep` require a non-empty trace, because the buttons exist only then.
- `ArraySorting.ArraySortingVisualization.HandleSliderChange` requires a value in the slider's range, because the input element enforces it.
- `Sequences.Swap` states only that the length is kept. Its exchange of the pair, the untouched positions and the permutation are stated in `Sequences.SwapExchanges`, which callers invoke.
- `BoxRow.Css` has no case for `STRAND_MERGE_COMPARE_COLOR` (boxRow/index.tsx line 41). The constant is declared, but the colour chain never uses it, so no bar can have it.
