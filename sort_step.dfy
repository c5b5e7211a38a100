/**
 * The step record of the sorting visualisation
 * (`SortStep` in components/organisms/arraySorting/index.tsx) and the
 * relation between two consecutive records of a trace.
 */
module SortSteps {
  import opened Options
  import opened Sequences
  import BoxRow

  /** The step descriptions, carrying the numbers the source interpolates into them. */
  datatype Description =
    | StartBubbleSort
    | StartNewPass
    | SetSwappedFalse
    | ComparingIndices(i: int, j: int)
    | CheckGreater(x: int, y: int)
    | SwapNeeded
    | ElementsSwapped
    | SetSwappedTrue
    | EndOfComparisonBlock
    | NoSwapNeeded
    | EndOfIteration(i: int)
    | DecrementN
    | SortingComplete
    | Finished

  /** The per-bar notes of `logicDetails`, with the values they mention. */
  datatype LogicNote =
    | ComparingWith(other: int)
    | ValueGreaterSwapping(x: int, y: int)
    | ValueLessSwapping(x: int, y: int)
    | ValueNotGreater(x: int, y: int)
    | ValueNotLess(x: int, y: int)

  /**
   * One snapshot: the array at that instant (a copy, so a value here), the
   * highlight fields the bar row reads, the notes, the 1-based line of the
   * listing and the description.
   */
  datatype SortStep = SortStep(
    arrayState: seq<int>,
    highlights: BoxRow.Highlights,
    logicDetails: Option<map<int, LogicNote>>,
    activeCodeLine: Option<int>,
    description: Option<Description>)

  /** `b` is `a` with positions `i` and `i + 1` exchanged because `a[i] > a[i + 1]`. */
  predicate StrictSwapAt(a: seq<int>, b: seq<int>, i: int)
  {
    0 <= i && i + 1 < |a| && a[i] > a[i + 1] && b == Swap(a, i)
  }

  /** The highlighted comparison, when present, is `[i, i + 1]` inside the array. */
  predicate ComparesAdjacent(s: SortStep)
  {
    match s.highlights.comparingIndices
    case None => true
    case Some(c) => |c| == 2 && 0 <= c[0] && c[1] == c[0] + 1 && c[1] < |s.arrayState|
  }

  /**
   * Step `s` may follow step `p`: both show the same array, or `s` shows
   * the pair it highlights swapped, the left one having been strictly greater.
   */
  predicate Follows(p: SortStep, s: SortStep)
  {
    || s.arrayState == p.arrayState
    || (&& s.highlights.comparingIndices.Some?
        && |s.highlights.comparingIndices.value| == 2
        && StrictSwapAt(p.arrayState, s.arrayState, s.highlights.comparingIndices.value[0]))
  }
}
