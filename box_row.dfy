/**
 * The bar-colour rule of the bar row (components/molecules/boxRow/index.tsx).
 *
 * The row draws one bar per item; the colour of the bar at index `i` is
 * chosen by a fixed priority chain over the highlight props. Only that
 * decision is modelled: springs, positions and the info boxes are rendering.
 */
module BoxRow {
  import opened Options

  datatype MergeRange = MergeRange(left: int, right: int)

  /** `left`, `right` and `largest` are optional in the props. */
  datatype HeapIndices = HeapIndices(root: int, left: Option<int>, right: Option<int>, largest: Option<int>)

  datatype TimPhase = InsertionPhase | MergePhase

  datatype TimSortRange = TimSortRange(kind: TimPhase, start: int, end: int, mid: Option<int>)

  datatype Direction = Forward | Backward

  datatype CocktailRange = CocktailRange(start: int, end: int, direction: Direction)

  datatype StrandMerge = StrandMerge(resultIdx: int, sublistIdx: int)

  /** The highlight props of the row; each one may be absent (undefined or null). */
  datatype Highlights = Highlights(
    comparingIndices: Option<seq<int>>,
    minIndex: Option<int>,
    currentIndex: Option<int>,
    keyIndex: Option<int>,
    mergeRange: Option<MergeRange>,
    pivotIndex: Option<int>,
    heapIndices: Option<HeapIndices>,
    timSortRange: Option<TimSortRange>,
    cocktailRange: Option<CocktailRange>,
    strandInputIndices: Option<set<int>>,
    strandSublistIndices: Option<set<int>>,
    strandResultIndices: Option<set<int>>,
    strandMergeIndices: Option<StrandMerge>)

  const NoHighlights: Highlights :=
    Highlights(None, None, None, None, None, None, None, None, None, None, None, None, None)

  /** The named colour constants of the row, one per role, plus the default. */
  datatype BarColor =
    | HeapLargestColor
    | HeapNodeColor
    | PivotColor
    | KeyColor
    | CurrentIndexColor
    | MinIndexColor
    | CompareColor
    | StrandSublistColor
    | StrandResultColor
    | StrandInputColor
    | CocktailForwardColor
    | CocktailBackwardColor
    | TimSortInsertionColor
    | TimSortMergeColor
    | MergeRangeColor
    | DefaultBarColor

  /** The CSS value each constant stands for. */
  function Css(c: BarColor): (css: string)
    ensures |css| >= 16 && css[..4] == "hsl(" && css[|css| - 1] == ')'
  {
    match c
    case HeapLargestColor => "hsl(180, 100%, 60%)"
    case HeapNodeColor => "hsl(180, 70%, 40%)"
    case PivotColor => "hsl(330, 100%, 50%)"
    case KeyColor => "hsl(280, 100%, 50%)"
    case CurrentIndexColor => "hsl(60, 100%, 50%)"
    case MinIndexColor => "hsl(120, 100%, 35%)"
    case CompareColor => "hsl(0, 100%, 50%)"
    case StrandSublistColor => "hsl(100, 70%, 60%)"
    case StrandResultColor => "hsl(50, 100%, 60%)"
    case StrandInputColor => "hsl(210, 30%, 70%)"
    case CocktailForwardColor => "hsl(150, 70%, 60%)"
    case CocktailBackwardColor => "hsl(200, 70%, 60%)"
    case TimSortInsertionColor => "hsl(240, 60%, 70%)"
    case TimSortMergeColor => "hsl(30, 60%, 70%)"
    case MergeRangeColor => "hsl(30, 100%, 50%)"
    case DefaultBarColor => "hsl(210, 100%, 50%)"
  }

  // ---- The role tests the chain is built from ----

  predicate InMergeRange(i: int, h: Highlights)
  {
    h.mergeRange.Some? && h.mergeRange.value.left <= i <= h.mergeRange.value.right
  }

  /** An absent `left` or `right` never equals an index. */
  predicate IsHeapNode(i: int, h: Highlights)
  {
    h.heapIndices.Some? &&
    (i == h.heapIndices.value.root || h.heapIndices.value.left == Some(i) || h.heapIndices.value.right == Some(i))
  }

  predicate IsHeapLargest(i: int, h: Highlights)
  {
    h.heapIndices.Some? && h.heapIndices.value.largest == Some(i)
  }

  predicate InTimSortRange(i: int, h: Highlights)
  {
    h.timSortRange.Some? && h.timSortRange.value.start <= i <= h.timSortRange.value.end
  }

  predicate InCocktailRange(i: int, h: Highlights)
  {
    h.cocktailRange.Some? && h.cocktailRange.value.start <= i <= h.cocktailRange.value.end
  }

  predicate IsComparing(i: int, h: Highlights)
  {
    h.comparingIndices.Some? && i in h.comparingIndices.value
  }

  predicate InIndexSet(i: int, s: Option<set<int>>)
  {
    s.Some? && i in s.value
  }

  /**
   * The colour of the bar at index `i`: the first test of the chain that
   * holds decides, the default colour when none holds. `strandMergeIndices`
   * takes no part in it, and neither does the item's value.
   */
  function ColorAt(i: int, h: Highlights): (c: BarColor)
    ensures c == CompareColor ==> IsComparing(i, h)
  {
    if IsHeapLargest(i, h) then HeapLargestColor
    else if IsHeapNode(i, h) then HeapNodeColor
    else if h.pivotIndex == Some(i) then PivotColor
    else if h.keyIndex == Some(i) then KeyColor
    else if h.currentIndex == Some(i) then CurrentIndexColor
    else if h.minIndex == Some(i) then MinIndexColor
    else if IsComparing(i, h) then CompareColor
    else if InIndexSet(i, h.strandSublistIndices) then StrandSublistColor
    else if InIndexSet(i, h.strandResultIndices) then StrandResultColor
    else if InIndexSet(i, h.strandInputIndices) then StrandInputColor
    else if InCocktailRange(i, h) && h.cocktailRange.value.direction == Forward then CocktailForwardColor
    else if InCocktailRange(i, h) && h.cocktailRange.value.direction == Backward then CocktailBackwardColor
    else if InTimSortRange(i, h) && h.timSortRange.value.kind == InsertionPhase then TimSortInsertionColor
    else if InTimSortRange(i, h) && h.timSortRange.value.kind == MergePhase then TimSortMergeColor
    else if InMergeRange(i, h) then MergeRangeColor
    else DefaultBarColor
  }

  /** One colour per item, in item order. */
  function RowColors(items: seq<int>, h: Highlights): (cs: seq<BarColor>)
    ensures |cs| == |items|
    ensures forall i :: 0 <= i < |items| ==> cs[i] == ColorAt(i, h)
  {
    seq(|items|, i => ColorAt(i, h))
  }

  // ---- An independent statement of the priority rule ----

  /** Whether the role that colour `c` marks applies to index `i`. */
  predicate Applies(c: BarColor, i: int, h: Highlights)
  {
    match c
    case HeapLargestColor => IsHeapLargest(i, h)
    case HeapNodeColor => IsHeapNode(i, h)
    case PivotColor => h.pivotIndex == Some(i)
    case KeyColor => h.keyIndex == Some(i)
    case CurrentIndexColor => h.currentIndex == Some(i)
    case MinIndexColor => h.minIndex == Some(i)
    case CompareColor => IsComparing(i, h)
    case StrandSublistColor => InIndexSet(i, h.strandSublistIndices)
    case StrandResultColor => InIndexSet(i, h.strandResultIndices)
    case StrandInputColor => InIndexSet(i, h.strandInputIndices)
    case CocktailForwardColor => InCocktailRange(i, h) && h.cocktailRange.value.direction == Forward
    case CocktailBackwardColor => InCocktailRange(i, h) && h.cocktailRange.value.direction == Backward
    case TimSortInsertionColor => InTimSortRange(i, h) && h.timSortRange.value.kind == InsertionPhase
    case TimSortMergeColor => InTimSortRange(i, h) && h.timSortRange.value.kind == MergePhase
    case MergeRangeColor => InMergeRange(i, h)
    case DefaultBarColor => false
  }

  /** The priority of each role, 1 being the highest; the default comes last. */
  function Rank(c: BarColor): nat
  {
    match c
    case HeapLargestColor => 1
    case HeapNodeColor => 2
    case PivotColor => 3
    case KeyColor => 4
    case CurrentIndexColor => 5
    case MinIndexColor => 6
    case CompareColor => 7
    case StrandSublistColor => 8
    case StrandResultColor => 9
    case StrandInputColor => 10
    case CocktailForwardColor => 11
    case CocktailBackwardColor => 12
    case TimSortInsertionColor => 13
    case TimSortMergeColor => 14
    case MergeRangeColor => 15
    case DefaultBarColor => 16
  }

  /**
   * The chain picks the applicable role of highest priority: the colour it
   * returns marks a role that applies, no applicable role outranks it, and
   * it is the default exactly when no role applies.
   */
  lemma ColorIsHighestPriorityRole(i: int, h: Highlights)
    ensures ColorAt(i, h) != DefaultBarColor ==> Applies(ColorAt(i, h), i, h)
    ensures forall c :: Applies(c, i, h) ==> Rank(ColorAt(i, h)) <= Rank(c)
    ensures ColorAt(i, h) == DefaultBarColor <==> forall c :: !Applies(c, i, h)
  {
    var r := ColorAt(i, h);
    forall c | Applies(c, i, h)
      ensures Rank(r) <= Rank(c)
    {
      match c
      case HeapLargestColor =>
      case HeapNodeColor =>
      case PivotColor =>
      case KeyColor =>
      case CurrentIndexColor =>
      case MinIndexColor =>
      case CompareColor =>
      case StrandSublistColor =>
      case StrandResultColor =>
      case StrandInputColor =>
      case CocktailForwardColor =>
      case CocktailBackwardColor =>
      case TimSortInsertionColor =>
      case TimSortMergeColor =>
      case MergeRangeColor =>
    }
    if r != DefaultBarColor {
      assert Applies(r, i, h);
    }
  }

  /** Two colours with the same CSS value are the same constant: every role is visible. */
  lemma CssIsInjective(c: BarColor, d: BarColor)
    ensures Css(c) == Css(d) ==> c == d
  {
  }

  /** The heap-largest index wins over every other highlight. */
  lemma HeapLargestWins(i: int, h: Highlights)
    requires h.heapIndices.Some? && h.heapIndices.value.largest == Some(i)
    ensures ColorAt(i, h) == HeapLargestColor
  {
  }

  /** With every highlight absent each bar has the default colour. */
  lemma NoHighlightIsDefault(i: int)
    ensures ColorAt(i, NoHighlights) == DefaultBarColor
  {
  }

  /** With only a comparison highlighted, the compared bars get the compare colour and the rest the default. */
  lemma ComparisonOnlyColors(i: int, c: Option<seq<int>>)
    ensures ColorAt(i, NoHighlights.(comparingIndices := c)) ==
      (if c.Some? && i in c.value then CompareColor else DefaultBarColor)
  {
  }

  /** Range membership includes both ends and nothing outside them. */
  lemma RangesAreInclusive(i: int, lo: int, hi: int)
    ensures ColorAt(i, NoHighlights.(mergeRange := Some(MergeRange(lo, hi)))) ==
      (if lo <= i <= hi then MergeRangeColor else DefaultBarColor)
    ensures ColorAt(i, NoHighlights.(timSortRange := Some(TimSortRange(MergePhase, lo, hi, None)))) ==
      (if lo <= i <= hi then TimSortMergeColor else DefaultBarColor)
    ensures ColorAt(i, NoHighlights.(cocktailRange := Some(CocktailRange(lo, hi, Backward)))) ==
      (if lo <= i <= hi then CocktailBackwardColor else DefaultBarColor)
  {
  }

  /** The cocktail colour follows `direction`, the tim colour follows `type`. */
  lemma RangeColorFollowsTag(i: int, h: Highlights)
    requires !IsHeapLargest(i, h) && !IsHeapNode(i, h) && !IsComparing(i, h)
    requires h.pivotIndex != Some(i) && h.keyIndex != Some(i) && h.currentIndex != Some(i) && h.minIndex != Some(i)
    requires !InIndexSet(i, h.strandSublistIndices) && !InIndexSet(i, h.strandResultIndices)
    requires !InIndexSet(i, h.strandInputIndices)
    ensures InCocktailRange(i, h) ==>
      ColorAt(i, h) == (if h.cocktailRange.value.direction == Forward then CocktailForwardColor else CocktailBackwardColor)
    ensures !InCocktailRange(i, h) && InTimSortRange(i, h) ==>
      ColorAt(i, h) == (if h.timSortRange.value.kind == InsertionPhase then TimSortInsertionColor else TimSortMergeColor)
  {
  }

  /** `strandMergeIndices` never changes a colour. */
  lemma StrandMergeIsIgnored(i: int, h: Highlights, m: Option<StrandMerge>)
    ensures ColorAt(i, h.(strandMergeIndices := m)) == ColorAt(i, h)
  {
  }

  /** The colours depend on the number of items, never on their values. */
  lemma RowColorsIgnoreValues(a: seq<int>, b: seq<int>, h: Highlights)
    requires |a| == |b|
    ensures RowColors(a, h) == RowColors(b, h)
  {
  }
}
