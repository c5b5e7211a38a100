/**
 * What `generateBubbleSortSteps` (components/organisms/arraySorting/index.tsx)
 * produces, as functions, and what holds of every trace it produces.
 *
 * The trace is built pass by pass: a pass over the first `n` positions makes
 * `n - 1` adjacent comparisons, `n` then drops by one, and another pass
 * follows only when the pass swapped something.
 */
module BubbleTrace {
  import opened Options
  import opened SortSteps
  import opened Sequences
  import BoxRow

  /** A record with no highlight. */
  function Snap(a: seq<int>, line: int, d: Description): SortStep
  {
    SortStep(a, BoxRow.NoHighlights, None, Some(line), Some(d))
  }

  /** Highlights that mark the pair `[i, i + 1]` as compared. */
  function PairHighlight(i: int): BoxRow.Highlights
  {
    BoxRow.NoHighlights.(comparingIndices := Some([i, i + 1]))
  }

  /** The array after the comparison at `i`. */
  function AfterCompare(a: seq<int>, i: nat): seq<int>
    requires i + 1 < |a|
  {
    if a[i] > a[i + 1] then Swap(a, i) else a
  }

  /**
   * The records of one comparison of `a[i]` with `a[i + 1]`: lines 6, 7 and
   * 8, then either the swap (lines 10, 11, 12, 14) or the no-swap record
   * (line 14), then line 6 again with no highlight.
   */
  function CompareSteps(a: seq<int>, i: nat): (r: seq<SortStep>)
    requires i + 1 < |a|
    ensures |r| == (if a[i] > a[i + 1] then 8 else 5)
  {
    CompareHead(a, i) +
    (if a[i] > a[i + 1] then SwapSteps(a, i) else NoSwapSteps(a, i)) +
    [Snap(AfterCompare(a, i), 6, EndOfIteration(i))]
  }

  /** Lines 6, 7 and 8: the pair is compared. */
  function CompareHead(a: seq<int>, i: nat): (r: seq<SortStep>)
    requires i + 1 < |a|
    ensures |r| == 3
    ensures forall k :: 0 <= k < |r| ==> r[k].arrayState == a && r[k].highlights == PairHighlight(i)
  {
    var h := PairHighlight(i);
    var notes := map[i := ComparingWith(i + 1), i + 1 := ComparingWith(i)];
    [ SortStep(a, h, None, Some(6), Some(ComparingIndices(i, i + 1))),
      SortStep(a, h, Some(notes), Some(7), Some(CheckGreater(a[i], a[i + 1]))),
      SortStep(a, h, Some(notes), Some(8), None) ]
  }

  /** Lines 10, 11, 12 and 14: the swap, recorded before and after it happens. */
  function SwapSteps(a: seq<int>, i: nat): (r: seq<SortStep>)
    requires i + 1 < |a|
    ensures |r| == 4 && r[0].arrayState == a && r[0].highlights == PairHighlight(i)
    ensures forall k :: 1 <= k < |r| ==> r[k].arrayState == Swap(a, i)
  {
    var b := Swap(a, i);
    [ SortStep(a, PairHighlight(i),
               Some(map[i := ValueGreaterSwapping(a[i], a[i + 1]), i + 1 := ValueLessSwapping(a[i + 1], a[i])]),
               Some(10), Some(SwapNeeded)),
      SortStep(b, PairHighlight(i), None, Some(11), Some(ElementsSwapped)),
      Snap(b, 12, SetSwappedTrue),
      Snap(b, 14, EndOfComparisonBlock) ]
  }

  /** Line 14 when the pair is already in order. */
  function NoSwapSteps(a: seq<int>, i: nat): (r: seq<SortStep>)
    requires i + 1 < |a|
    ensures |r| == 1 && r[0].arrayState == a && r[0].highlights == PairHighlight(i)
  {
    [ SortStep(a, PairHighlight(i),
               Some(map[i := ValueNotGreater(a[i], a[i + 1]), i + 1 := ValueNotLess(a[i + 1], a[i])]),
               Some(14), Some(NoSwapNeeded)) ]
  }

  /** The working array of a pass over `a` after its first `k` comparisons. */
  function PassArr(a: seq<int>, k: nat): (b: seq<int>)
    requires k == 0 || k < |a|
    ensures |b| == |a|
  {
    if k == 0 then a else AfterCompare(PassArr(a, k - 1), k - 1)
  }

  /** The `swapped` flag of a pass over `a` after its first `k` comparisons. */
  function PassSwapped(a: seq<int>, k: nat): (swapped: bool)
    requires k == 0 || k < |a|
    ensures swapped ==> k > 0
  {
    k > 0 && (PassSwapped(a, k - 1) || PassArr(a, k - 1)[k - 1] > PassArr(a, k - 1)[k])
  }

  /** The records of the first `k` comparisons of a pass over `a`. */
  function PassSteps(a: seq<int>, k: nat): (r: seq<SortStep>)
    requires k == 0 || k < |a|
    ensures 5 * k <= |r| <= 8 * k
  {
    if k == 0 then [] else PassSteps(a, k - 1) + CompareSteps(PassArr(a, k - 1), k - 1)
  }

  /** A pass only exchanges elements: its array is a permutation of the one it started with. */
  lemma {:induction false} PassArrPermutes(a: seq<int>, k: nat)
    requires k == 0 || k < |a|
    ensures multiset(PassArr(a, k)) == multiset(a)
  {
    if k > 0 {
      PassArrPermutes(a, k - 1);
    }
  }

  /** A pass with bound `n` makes `n - 1` comparisons, none when `n <= 1`. */
  function Comparisons(n: int): nat
  {
    if n > 0 then n - 1 else 0
  }

  /** The records of one pass, from line 4 to the decrement on line 16. */
  function PassHead(a: seq<int>, n: int): seq<SortStep>
    requires 0 <= n <= |a|
  {
    [Snap(a, 4, StartNewPass), Snap(a, 5, SetSwappedFalse)] + PassSteps(a, Comparisons(n)) +
    [Snap(PassArr(a, Comparisons(n)), 16, DecrementN)]
  }

  /** The records after the last pass: lines 17 and 18. */
  function Finish(a: seq<int>): seq<SortStep>
  {
    [Snap(a, 17, SortingComplete), Snap(a, 18, Finished)]
  }

  /**
   * The records from the start of a pass with array `a` and bound `n` to the
   * end of the trace: at least the two opening records, the decrement and
   * the two closing records, opening on `a`.
   */
  function PassesFrom(a: seq<int>, n: int): (r: seq<SortStep>)
    requires 0 <= n <= |a|
    ensures |r| >= 5 && r[0].arrayState == a && r[0].activeCodeLine == Some(4)
    decreases n
  {
    var m := Comparisons(n);
    var b := PassArr(a, m);
    PassHead(a, n) + if PassSwapped(a, m) then PassesFrom(b, n - 1) else Finish(b)
  }

  /** The array the passes starting from `a` and `n` end with. */
  function FinalArray(a: seq<int>, n: int): (b: seq<int>)
    requires 0 <= n <= |a|
    ensures |b| == |a|
    decreases n
  {
    var m := Comparisons(n);
    var b := PassArr(a, m);
    if PassSwapped(a, m) then FinalArray(b, n - 1) else b
  }

  /** The whole trace of `generateBubbleSortSteps(items)`. */
  function BubbleSortSteps(items: seq<int>): (r: seq<SortStep>)
    ensures |r| >= 6 && r[0].arrayState == items && r[0].activeCodeLine == Some(1)
    ensures r[1].arrayState == items && r[1].activeCodeLine == Some(4)
  {
    [Snap(items, 1, StartBubbleSort)] + PassesFrom(items, |items|)
  }

  // ---- Properties of a single record ----

  /**
   * A record of a bubble trace of `items`: a permutation of `items`, a line
   * of the 19-line listing other than the last, a comparison (if any) of an
   * adjacent in-range pair, notes only on the compared pair, and no other
   * highlight.
   */
  predicate BubbleStepOk(items: seq<int>, s: SortStep)
  {
    && |s.arrayState| == |items|
    && multiset(s.arrayState) == multiset(items)
    && s.activeCodeLine.Some? && 1 <= s.activeCodeLine.value <= 18
    && ComparesAdjacent(s)
    && s.highlights == BoxRow.NoHighlights.(comparingIndices := s.highlights.comparingIndices)
    && (s.logicDetails.Some? ==>
          && s.highlights.comparingIndices.Some?
          && |s.highlights.comparingIndices.value| == 2
          && s.logicDetails.value.Keys ==
               {s.highlights.comparingIndices.value[0], s.highlights.comparingIndices.value[1]})
  }

  /** `t` is a well-formed stretch of a trace of `items` that starts with array `a` and ends with `b`. */
  predicate Run(items: seq<int>, a: seq<int>, t: seq<SortStep>, b: seq<int>)
  {
    && (forall k :: 0 <= k < |t| ==> BubbleStepOk(items, t[k]))
    && (forall k :: 0 < k < |t| ==> Follows(t[k - 1], t[k]))
    && (if t == [] then a == b else t[0].arrayState == a && t[|t| - 1].arrayState == b)
  }

  lemma RunAppend(items: seq<int>, a: seq<int>, s: seq<SortStep>, b: seq<int>, u: seq<SortStep>, c: seq<int>)
    requires Run(items, a, s, b) && Run(items, b, u, c)
    ensures Run(items, a, s + u, c)
  {
    var t := s + u;
    forall k | 0 < k < |t|
      ensures Follows(t[k - 1], t[k])
    {
      if k < |s| {
        assert t[k - 1] == s[k - 1] && t[k] == s[k];
      } else if k == |s| {
        assert t[k - 1] == s[|s| - 1] && t[k] == u[0];
      } else {
        assert t[k - 1] == u[k - 1 - |s|] && t[k] == u[k - |s|];
      }
    }
  }

  /** Records that all show the same array `a`. */
  lemma SteadyRun(items: seq<int>, a: seq<int>, t: seq<SortStep>)
    requires |a| == |items| && multiset(a) == multiset(items)
    requires forall k :: 0 <= k < |t| ==> t[k].arrayState == a && BubbleStepOk(items, t[k])
    ensures Run(items, a, t, a)
  {
  }

  lemma CompareStepsRun(items: seq<int>, a: seq<int>, i: nat)
    requires i + 1 < |a| && |a| == |items| && multiset(a) == multiset(items)
    ensures Run(items, a, CompareSteps(a, i), AfterCompare(a, i))
  {
    var c := AfterCompare(a, i);
    var head := CompareHead(a, i);
    var last := [Snap(c, 6, EndOfIteration(i))];
    assert PairHighlight(i).comparingIndices.value == [i, i + 1];
    SteadyRun(items, a, head);
    SteadyRun(items, c, last);
    if a[i] > a[i + 1] {
      SwapStepsRun(items, a, i);
      RunAppend(items, a, head, a, SwapSteps(a, i), c);
      RunAppend(items, a, head + SwapSteps(a, i), c, last, c);
    } else {
      SteadyRun(items, a, NoSwapSteps(a, i));
      RunAppend(items, a, head, a, NoSwapSteps(a, i), a);
      RunAppend(items, a, head + NoSwapSteps(a, i), a, last, a);
    }
  }

  lemma SwapStepsRun(items: seq<int>, a: seq<int>, i: nat)
    requires i + 1 < |a| && |a| == |items| && multiset(a) == multiset(items)
    requires a[i] > a[i + 1]
    ensures Run(items, a, SwapSteps(a, i), Swap(a, i))
  {
    var t := SwapSteps(a, i);
    var b := Swap(a, i);
    SwapExchanges(a, i);
    assert PairHighlight(i).comparingIndices.value == [i, i + 1];
    assert BubbleStepOk(items, t[0]);
    assert Follows(t[0], t[1]) by {
      assert StrictSwapAt(t[0].arrayState, t[1].arrayState, i);
    }
  }

  lemma {:induction false} PassStepsRun(items: seq<int>, a: seq<int>, k: nat)
    requires k == 0 || k < |a|
    requires |a| == |items| && multiset(a) == multiset(items)
    ensures Run(items, a, PassSteps(a, k), PassArr(a, k))
  {
    if k > 0 {
      var p := PassArr(a, k - 1);
      PassStepsRun(items, a, k - 1);
      PassArrPermutes(a, k - 1);
      CompareStepsRun(items, p, k - 1);
      RunAppend(items, a, PassSteps(a, k - 1), p, CompareSteps(p, k - 1), AfterCompare(p, k - 1));
      assert PassSteps(a, k) == PassSteps(a, k - 1) + CompareSteps(p, k - 1);
      assert PassArr(a, k) == AfterCompare(p, k - 1);
    }
  }

  lemma {:induction false} PassesFromRun(items: seq<int>, a: seq<int>, n: int)
    requires 0 <= n <= |a| && |a| == |items| && multiset(a) == multiset(items)
    ensures Run(items, a, PassesFrom(a, n), FinalArray(a, n))
    decreases n
  {
    var m := Comparisons(n);
    var b := PassArr(a, m);
    var head := [Snap(a, 4, StartNewPass), Snap(a, 5, SetSwappedFalse)];
    var dec := [Snap(b, 16, DecrementN)];
    SteadyRun(items, a, head);
    PassStepsRun(items, a, m);
    PassArrPermutes(a, m);
    SteadyRun(items, b, dec);
    RunAppend(items, a, head, a, PassSteps(a, m), b);
    RunAppend(items, a, head + PassSteps(a, m), b, dec, b);
    var rest := if PassSwapped(a, m) then PassesFrom(b, n - 1) else Finish(b);
    if PassSwapped(a, m) {
      PassesFromRun(items, b, n - 1);
    } else {
      SteadyRun(items, b, rest);
    }
    assert PassHead(a, n) == head + PassSteps(a, m) + dec;
    RunAppend(items, a, PassHead(a, n), b, rest, FinalArray(a, n));
  }

  /** The trace closes with lines 17 and 18, both showing the final array. */
  lemma {:induction false} PassesFromEnd(a: seq<int>, n: int)
    requires 0 <= n <= |a|
    ensures PassesFrom(a, n)[|PassesFrom(a, n)| - 2..] == Finish(FinalArray(a, n))
    decreases n
  {
    var m := Comparisons(n);
    var b := PassArr(a, m);
    var rest := if PassSwapped(a, m) then PassesFrom(b, n - 1) else Finish(b);
    assert PassesFrom(a, n) == PassHead(a, n) + rest;
    if PassSwapped(a, m) {
      PassesFromEnd(b, n - 1);
      assert FinalArray(a, n) == FinalArray(b, n - 1);
    } else {
      assert FinalArray(a, n) == b;
    }
    SuffixOfAppend(PassHead(a, n), rest, 2);
  }

  // ---- Sortedness ----

  predicate Sorted(s: seq<int>)
  {
    forall i, j :: 0 <= i < j < |s| ==> s[i] <= s[j]
  }

  /** Every element at or after `n` is at least every element before it. */
  predicate SortedFrom(a: seq<int>, n: int)
  {
    forall i, j :: 0 <= i < j < |a| && n <= j ==> a[i] <= a[j]
  }

  /**
   * After `k` comparisons of a pass: positions after `k` are untouched,
   * position `k` holds the largest of the first `k + 1`, and if nothing was
   * swapped the array is unchanged and its first `k + 1` elements are sorted.
   */
  lemma {:induction false} PassArrFacts(a: seq<int>, k: nat)
    requires k < |a|
    ensures forall j :: k < j < |a| ==> PassArr(a, k)[j] == a[j]
    ensures forall j :: 0 <= j <= k ==> PassArr(a, k)[j] <= PassArr(a, k)[k]
    ensures !PassSwapped(a, k) ==> PassArr(a, k) == a && forall i, j :: 0 <= i < j <= k ==> a[i] <= a[j]
  {
    if k > 0 {
      var p := PassArr(a, k - 1);
      PassArrFacts(a, k - 1);
      if p[k - 1] > p[k] {
        SwapExchanges(p, k - 1);
      }
    }
  }

  /** A pass never moves a value above a bound that all of the first `k + 1` elements respect. */
  lemma {:induction false} PassArrBounded(a: seq<int>, k: nat, bound: int)
    requires k < |a|
    requires forall j :: 0 <= j <= k ==> a[j] <= bound
    ensures forall j :: 0 <= j <= k ==> PassArr(a, k)[j] <= bound
  {
    if k > 0 {
      var p := PassArr(a, k - 1);
      PassArrBounded(a, k - 1, bound);
      PassArrFacts(a, k - 1);
      assert p[k] == a[k];
      if p[k - 1] > p[k] {
        SwapExchanges(p, k - 1);
        assert PassArr(a, k) == Swap(p, k - 1);
      } else {
        assert PassArr(a, k) == p;
      }
    }
  }

  /** A full pass with bound `n` puts the largest of the first `n` at `n - 1`. */
  lemma PassExtendsSortedSuffix(a: seq<int>, n: int)
    requires 1 <= n <= |a| && SortedFrom(a, n)
    ensures SortedFrom(PassArr(a, n - 1), n - 1)
  {
    var b := PassArr(a, n - 1);
    PassArrFacts(a, n - 1);
    forall j | n <= j < |a|
      ensures forall i :: 0 <= i <= n - 1 ==> b[i] <= a[j]
    {
      PassArrBounded(a, n - 1, a[j]);
    }
  }

  /** A pass without a swap leaves the array sorted. */
  lemma QuietPassMeansSorted(a: seq<int>, n: int)
    requires 0 <= n <= |a| && SortedFrom(a, n)
    requires !PassSwapped(a, Comparisons(n))
    ensures PassArr(a, Comparisons(n)) == a && Sorted(a)
  {
    if n > 0 {
      PassArrFacts(a, n - 1);
    }
  }

  lemma {:induction false} FinalArraySorted(a: seq<int>, n: int)
    requires 0 <= n <= |a| && SortedFrom(a, n)
    ensures Sorted(FinalArray(a, n))
    decreases n
  {
    var m := Comparisons(n);
    var b := PassArr(a, m);
    if PassSwapped(a, m) {
      PassExtendsSortedSuffix(a, n);
      FinalArraySorted(b, n - 1);
    } else {
      QuietPassMeansSorted(a, n);
    }
  }

  // ---- The trace ----

  /**
   * Every record of the trace is a permutation of the input with an in-range
   * adjacent comparison and a line in 1..18, and each record shows the same
   * array as the one before or that array with its highlighted pair
   * swapped, the left value having been strictly greater.
   */
  lemma BubbleStepsWellFormed(items: seq<int>)
    ensures var t := BubbleSortSteps(items);
      && (forall k :: 0 <= k < |t| ==> BubbleStepOk(items, t[k]))
      && (forall k :: 0 < k < |t| ==> Follows(t[k - 1], t[k]))
  {
    var first := [Snap(items, 1, StartBubbleSort)];
    SteadyRun(items, items, first);
    PassesFromRun(items, items, |items|);
    RunAppend(items, items, first, items, PassesFrom(items, |items|), FinalArray(items, |items|));
  }

  /**
   * The trace starts with the unmodified input on line 1, ends with lines 17
   * and 18, and its last record is the input sorted: same elements, in
   * non-decreasing order.
   */
  lemma BubbleStepsEndSorted(items: seq<int>)
    ensures var t := BubbleSortSteps(items);
      && |t| >= 3
      && t[0].arrayState == items && t[0].activeCodeLine == Some(1)
      && t[|t| - 2].activeCodeLine == Some(17)
      && t[|t| - 1].activeCodeLine == Some(18)
      && t[|t| - 2].arrayState == t[|t| - 1].arrayState
      && Sorted(t[|t| - 1].arrayState)
      && multiset(t[|t| - 1].arrayState) == multiset(items)
  {
    var t := BubbleSortSteps(items);
    var p := PassesFrom(items, |items|);
    var f := FinalArray(items, |items|);
    PassesFromEnd(items, |items|);
    assert t == [t[0]] + p;
    SuffixOfAppend([t[0]], p, 2);
    assert t[|t| - 2..] == Finish(f);
    assert t[|t| - 2] == Finish(f)[0] && t[|t| - 1] == Finish(f)[1];
    FinalArraySorted(items, |items|);
    FinalArrayPermutes(items, |items|);
  }

  lemma {:induction false} FinalArrayPermutes(a: seq<int>, n: int)
    requires 0 <= n <= |a|
    ensures |FinalArray(a, n)| == |a| && multiset(FinalArray(a, n)) == multiset(a)
    decreases n
  {
    var m := Comparisons(n);
    var b := PassArr(a, m);
    PassArrPermutes(a, m);
    if PassSwapped(a, m) {
      FinalArrayPermutes(b, n - 1);
    }
  }
}
