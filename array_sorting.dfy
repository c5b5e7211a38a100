/**
 * The step-by-step sorting view (components/organisms/arraySorting/index.tsx):
 * the bubble-sort step generator, the component state with its click,
 * reset, next, previous and slider handlers, and the derived current step.
 */
module ArraySorting {
  import opened Options
  import opened SortSteps
  import opened Sequences
  import opened BubbleTrace
  import BoxRow
  import opened AlgorithmCodeDisplay

  /** The array the view starts from and generates its traces for. */
  const InitialArrayData: seq<int> := [5, 3, 8, 9, 10, 2, 1, 4, 6, 7]

  /**
   * `generateBubbleSortSteps`: bubble sort on a working copy of the input,
   * appending a snapshot of the working array at every logical point.
   */
  method GenerateBubbleSortSteps(itemsToSort: seq<int>) returns (steps: seq<SortStep>)
    ensures steps == BubbleSortSteps(itemsToSort)
  {
    var arr := new int[|itemsToSort|](j requires 0 <= j < |itemsToSort| => itemsToSort[j]);
    assert arr[..] == itemsToSort;
    steps := [Snap(arr[..], 1, StartBubbleSort)];
    var passes := RunPasses(arr);
    steps := steps + passes;
    steps := steps + [Snap(arr[..], 17, SortingComplete)];
    steps := steps + [Snap(arr[..], 18, Finished)];
    AppendPair(steps[..|steps| - 2], Snap(arr[..], 17, SortingComplete), Snap(arr[..], 18, Finished));
    AppendAssoc([Snap(itemsToSort, 1, StartBubbleSort)], passes, Finish(arr[..]));
  }

  /**
   * The outer `do … while (swapped)` loop: passes with a shrinking bound
   * until one makes no swap; the records for lines 17 and 18 are what is
   * left of the trace from the final array.
   */
  method RunPasses(arr: array<int>) returns (passes: seq<SortStep>)
    modifies arr
    ensures passes + Finish(arr[..]) == PassesFrom(old(arr[..]), arr.Length)
  {
    ghost var whole := PassesFrom(arr[..], arr.Length);
    passes := [];
    var n := arr.Length;
    var swapped: bool;
    while true
      invariant 0 <= n <= arr.Length
      invariant passes + PassesFrom(arr[..], n) == whole
      decreases n
    {
      ghost var a0, passes0 := arr[..], passes;
      var pass;
      pass, swapped := RecordPass(arr, n);
      passes := passes + pass;
      n := n - 1;
      AdvanceTrace(whole, passes0, a0, n + 1);
      if !swapped {
        break;
      }
    }
  }

  /**
   * One pass keeps the trace on course: what it appended plus the rest of
   * the trace from its result is still the whole trace.
   */
  lemma AdvanceTrace(whole: seq<SortStep>, passes0: seq<SortStep>, a0: seq<int>, n: int)
    requires 0 <= n <= |a0|
    requires passes0 + PassesFrom(a0, n) == whole
    ensures var b := PassArr(a0, Comparisons(n));
      && (PassSwapped(a0, Comparisons(n)) ==>
            1 <= n && (passes0 + PassHead(a0, n)) + PassesFrom(b, n - 1) == whole)
      && (!PassSwapped(a0, Comparisons(n)) ==> (passes0 + PassHead(a0, n)) + Finish(b) == whole)
  {
    var b := PassArr(a0, Comparisons(n));
    var rest := if PassSwapped(a0, Comparisons(n)) then PassesFrom(b, n - 1) else Finish(b);
    AppendAssoc(passes0, PassHead(a0, n), rest);
  }

  /**
   * The body of the outer loop up to the `swapped` test: lines 4 and 5,
   * the inner loop, and line 16 once `n` has been decremented.
   */
  method RecordPass(arr: array<int>, n: int) returns (pass: seq<SortStep>, swapped: bool)
    requires 0 <= n <= arr.Length
    modifies arr
    ensures pass == PassHead(old(arr[..]), n)
    ensures arr[..] == PassArr(old(arr[..]), Comparisons(n)) && swapped == PassSwapped(old(arr[..]), Comparisons(n))
  {
    pass := [Snap(arr[..], 4, StartNewPass)];
    swapped := false;
    pass := pass + [Snap(arr[..], 5, SetSwappedFalse)];
    var chunk;
    chunk, swapped := RunPass(arr, n);
    pass := pass + chunk;
    pass := pass + [Snap(arr[..], 16, DecrementN)];
  }

  /**
   * The inner loop: one pass over the first `n` positions, comparing each
   * adjacent pair once; `swapped` says whether any pair was exchanged.
   */
  method RunPass(arr: array<int>, n: int) returns (chunk: seq<SortStep>, swapped: bool)
    requires 0 <= n <= arr.Length
    modifies arr
    ensures chunk == PassSteps(old(arr[..]), Comparisons(n))
    ensures arr[..] == PassArr(old(arr[..]), Comparisons(n)) && swapped == PassSwapped(old(arr[..]), Comparisons(n))
  {
    ghost var a0 := arr[..];
    chunk := [];
    swapped := false;
    var i := 0;
    while i < n - 1
      invariant 0 <= i <= Comparisons(n)
      invariant arr[..] == PassArr(a0, i) && swapped == PassSwapped(a0, i) && chunk == PassSteps(a0, i)
    {
      var more, didSwap := CompareAdjacent(arr, i);
      chunk := chunk + more;
      if didSwap {
        swapped := true;
      }
      i := i + 1;
    }
    assert i == Comparisons(n);
  }

  /**
   * The body of the inner loop: records the comparison of `arr[i]` with
   * `arr[i + 1]` and swaps the pair in place when the left one is greater.
   */
  method CompareAdjacent(arr: array<int>, i: int) returns (chunk: seq<SortStep>, didSwap: bool)
    requires 0 <= i && i + 1 < arr.Length
    modifies arr
    ensures chunk == CompareSteps(old(arr[..]), i)
    ensures arr[..] == AfterCompare(old(arr[..]), i)
    ensures didSwap == (old(arr[i]) > old(arr[i + 1]))
  {
    ghost var before := arr[..];
    var h := PairHighlight(i);
    var notes := map[i := ComparingWith(i + 1), i + 1 := ComparingWith(i)];
    chunk := [SortStep(arr[..], h, None, Some(6), Some(ComparingIndices(i, i + 1)))];
    chunk := chunk + [SortStep(arr[..], h, Some(notes), Some(7), Some(CheckGreater(arr[i], arr[i + 1])))];
    chunk := chunk + [SortStep(arr[..], h, Some(notes), Some(8), None)];
    didSwap := arr[i] > arr[i + 1];
    if didSwap {
      var swapNotes := map[i := ValueGreaterSwapping(arr[i], arr[i + 1]), i + 1 := ValueLessSwapping(arr[i + 1], arr[i])];
      chunk := chunk + [SortStep(arr[..], h, Some(swapNotes), Some(10), Some(SwapNeeded))];
      arr[i], arr[i + 1] := arr[i + 1], arr[i];
      assert arr[..] == Swap(before, i);
      chunk := chunk + [SortStep(arr[..], h, None, Some(11), Some(ElementsSwapped))];
      chunk := chunk + [Snap(arr[..], 12, SetSwappedTrue)];
      chunk := chunk + [Snap(arr[..], 14, EndOfComparisonBlock)];
      assert chunk == CompareHead(before, i) + SwapSteps(before, i);
    } else {
      var keepNotes := map[i := ValueNotGreater(arr[i], arr[i + 1]), i + 1 := ValueNotLess(arr[i + 1], arr[i])];
      chunk := chunk + [SortStep(arr[..], h, Some(keepNotes), Some(14), Some(NoSwapNeeded))];
      assert chunk == CompareHead(before, i) + NoSwapSteps(before, i);
    }
    chunk := chunk + [Snap(arr[..], 6, EndOfIteration(i))];
  }

  function Min(x: int, y: int): int { if x <= y then x else y }

  function Max(x: int, y: int): int { if x >= y then x else y }

  /**
   * The index after "Next Step": `Math.min(prev + 1, len - 1)`. Inside a
   * non-empty trace it moves one forward and stays put on the last index.
   */
  function NextIndex(prev: int, len: int): (r: int)
    ensures 0 <= prev < len ==> 0 <= r < len && r == (if prev < len - 1 then prev + 1 else prev)
  {
    Min(prev + 1, len - 1)
  }

  /**
   * The index after "Prev Step": `Math.max(prev - 1, 0)`. Inside a trace it
   * moves one back and stays put on index 0.
   */
  function PrevIndex(prev: int, len: int): (r: int)
    ensures 0 <= prev < len ==> 0 <= r < len && r == (if prev > 0 then prev - 1 else prev)
  {
    Max(prev - 1, 0)
  }

  /**
   * From any cursor the view can hold (0 when there are no steps), "Next"
   * keeps the cursor inside the trace exactly when there are steps; without
   * them it gives -1, which is why the controls are hidden then.
   */
  lemma NextInRangeExactlyWithSteps(idx: int, len: nat)
    requires if len == 0 then idx == 0 else 0 <= idx < len
    ensures 0 <= NextIndex(idx, len) < len <==> len > 0
    ensures len == 0 ==> NextIndex(idx, len) == -1
  {
  }

  /** Next then previous, or previous then next, away from the boundary, is no move. */
  lemma NextPrevCancel(idx: int, len: int)
    requires 0 <= idx < len
    ensures idx < len - 1 ==> PrevIndex(NextIndex(idx, len), len) == idx
    ensures idx > 0 ==> NextIndex(PrevIndex(idx, len), len) == idx
  {
  }

  /** The index after pressing "Next Step" `k` times. */
  function NextPressed(idx: int, len: int, k: nat): int
    decreases k
  {
    if k == 0 then idx else NextPressed(NextIndex(idx, len), len, k - 1)
  }

  /** The index after pressing "Prev Step" `k` times. */
  function PrevPressed(idx: int, len: int, k: nat): int
    decreases k
  {
    if k == 0 then idx else PrevPressed(PrevIndex(idx, len), len, k - 1)
  }

  /** Pressing "Next" `k` times moves `k` forward but never past the last step. */
  lemma {:induction false} NextPressedClamps(idx: int, len: int, k: nat)
    requires 0 <= idx < len
    ensures NextPressed(idx, len, k) == Min(idx + k, len - 1)
    decreases k
  {
    if k > 0 {
      NextPressedClamps(NextIndex(idx, len), len, k - 1);
    }
  }

  /** Pressing "Prev" `k` times moves `k` back but never before the first step. */
  lemma {:induction false} PrevPressedClamps(idx: int, len: int, k: nat)
    requires 0 <= idx < len
    ensures PrevPressed(idx, len, k) == Max(idx - k, 0)
    decreases k
  {
    if k > 0 {
      PrevPressedClamps(PrevIndex(idx, len), len, k - 1);
    }
  }

  /** The state of the view component. */
  class ArraySortingVisualization {
    var initialItems: seq<int>
    var isGeneratingSteps: bool
    var allSteps: seq<SortStep>
    var currentStepIndex: int
    var activeAlgorithm: Option<Algorithm>

    /**
     * The cursor lies inside the trace (and is 0 without one), and the
     * trace is either absent with no algorithm selected, or the bubble
     * trace of the initial items with bubble selected.
     */
    ghost predicate Valid()
      reads this
    {
      && 0 <= currentStepIndex
      && (allSteps == [] ==> currentStepIndex == 0)
      && (allSteps != [] ==> currentStepIndex < |allSteps|)
      && ((activeAlgorithm == None && allSteps == []) ||
          (activeAlgorithm == Some(Bubble) && allSteps == BubbleSortSteps(initialItems)))
    }

    constructor ()
      ensures Valid()
      ensures initialItems == InitialArrayData && !isGeneratingSteps
      ensures allSteps == [] && currentStepIndex == 0 && activeAlgorithm == None
    {
      initialItems := InitialArrayData;
      isGeneratingSteps := false;
      allSteps := [];
      currentStepIndex := 0;
      activeAlgorithm := None;
    }

    /** Bubble button: ignored while generating; otherwise loads the bubble trace at step 0. */
    method HandleBubbleSortClick()
      requires Valid()
      modifies this
      ensures Valid()
      ensures old(isGeneratingSteps) ==> unchanged(this)
      ensures !old(isGeneratingSteps) ==>
        && initialItems == old(initialItems)
        && allSteps == BubbleSortSteps(initialItems)
        && currentStepIndex == 0
        && activeAlgorithm == Some(Bubble)
        && !isGeneratingSteps
    {
      if isGeneratingSteps {
        return;
      }
      isGeneratingSteps := true;
      activeAlgorithm := Some(Bubble);
      var steps := GenerateBubbleSortSteps(initialItems);
      allSteps := steps;
      currentStepIndex := 0;
      isGeneratingSteps := false;
    }

    /** Reset button: drops the trace and the selection. */
    method HandleResetClick()
      requires Valid()
      modifies this
      ensures Valid()
      ensures allSteps == [] && currentStepIndex == 0 && activeAlgorithm == None
      ensures initialItems == old(initialItems) && isGeneratingSteps == old(isGeneratingSteps)
    {
      allSteps := [];
      currentStepIndex := 0;
      activeAlgorithm := None;
    }

    /**
     * "Next Step"; the button exists only while there are steps, since
     * without them the cursor would leave the trace
     * (`NextInRangeExactlyWithSteps`).
     */
    method HandleNextStep()
      requires Valid() && allSteps != []
      modifies this`currentStepIndex
      ensures Valid()
      ensures currentStepIndex == NextIndex(old(currentStepIndex), |allSteps|)
    {
      currentStepIndex := NextIndex(currentStepIndex, |allSteps|);
    }

    /** "Prev Step"; the button exists only while there are steps. */
    method HandlePrevStep()
      requires Valid() && allSteps != []
      modifies this`currentStepIndex
      ensures Valid()
      ensures currentStepIndex == PrevIndex(old(currentStepIndex), |allSteps|)
    {
      currentStepIndex := PrevIndex(currentStepIndex, |allSteps|);
    }

    /** The step slider, whose range is 0 .. number of steps - 1. */
    method HandleSliderChange(value: int)
      requires Valid() && 0 <= value < |allSteps|
      modifies this`currentStepIndex
      ensures Valid() && currentStepIndex == value
    {
      currentStepIndex := value;
    }

    /**
     * The step on screen: the step at the cursor, or the bare initial items
     * when no trace is loaded. Either way the bars are a permutation of the
     * initial items, and a trace step always names a listing line in 1..18.
     */
    function CurrentStep(): (s: SortStep)
      reads this
      requires Valid()
      ensures |s.arrayState| == |initialItems| && multiset(s.arrayState) == multiset(initialItems)
      ensures allSteps == [] ==> s.arrayState == initialItems && s.activeCodeLine == None
      ensures allSteps != [] ==> BubbleStepOk(initialItems, s)
    {
      if |allSteps| > 0 then StepOk(initialItems, currentStepIndex); allSteps[currentStepIndex]
      else SortStep(initialItems, BoxRow.NoHighlights, None, None, None)
    }
  }

  // ---- What the other components receive from a bubble step ----

  lemma StepOk(items: seq<int>, k: int)
    requires 0 <= k < |BubbleSortSteps(items)|
    ensures BubbleStepOk(items, BubbleSortSteps(items)[k])
  {
    BubbleStepsWellFormed(items);
  }

  /**
   * The code panel shows the bubble listing with exactly the step's line
   * highlighted, and that line is never the listing's last.
   */
  lemma BubbleStepHighlightsOneListingLine(t: Texts, items: seq<int>, k: nat)
    requires SourceTexts(t)
    requires k < |BubbleSortSteps(items)|
    ensures var s := BubbleSortSteps(items)[k];
      var rows := Render(GetCode(t, Some(Bubble)), s.activeCodeLine);
      && s.activeCodeLine.Some?
      && |rows| == 19
      && s.activeCodeLine.value < |rows|
      && (forall j :: 0 <= j < |rows| ==> (rows[j].highlighted <==> j == s.activeCodeLine.value - 1))
  {
    var s := BubbleSortSteps(items)[k];
    StepOk(items, k);
    LineCountIsNewlinesPlusOne(t.listing(Bubble));
    HighlightIsCurrentLine(GetCode(t, Some(Bubble)), s.activeCodeLine);
  }

  /**
   * The bar row colours a bubble step's compared pair, which lies inside
   * the array, and gives every other bar the default colour.
   */
  lemma BubbleStepBarColors(items: seq<int>, k: nat, i: int)
    requires k < |BubbleSortSteps(items)|
    ensures var h := BubbleSortSteps(items)[k].highlights;
      && BoxRow.ColorAt(i, h) == (if BoxRow.IsComparing(i, h) then BoxRow.CompareColor else BoxRow.DefaultBarColor)
      && (BoxRow.IsComparing(i, h) ==> 0 <= i < |items|)
  {
    var s := BubbleSortSteps(items)[k];
    StepOk(items, k);
    var c := s.highlights.comparingIndices;
    assert s.highlights == BoxRow.NoHighlights.(comparingIndices := c);
    BoxRow.ComparisonOnlyColors(i, c);
    if c.Some? && i in c.value {
      assert i == c.value[0] || i == c.value[1];
    }
  }
}
