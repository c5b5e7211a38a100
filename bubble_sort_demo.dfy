/**
 * The record sorter of components/organisms/BubbleSortDemo/BubbleSortDemo.tsx:
 * a bubble sort of `{id, value}` records by `value` on a copy of the list,
 * publishing the list after every swap, and the two buttons around it.
 *
 * Every published list is the one before with one adjacent pair exchanged
 * because its left record had the strictly greater value. That relation
 * (`SwapChain`) is proved to keep the records (a permutation) and the order
 * of records with equal values (stability); the sort is proved to end sorted.
 */
module BubbleSortDemo {
  import opened Sequences

  datatype SortableObject = SortableObject(id: int, value: int)

  /** The list the demo starts with and resets to. */
  const InitialData: seq<SortableObject> := [
    SortableObject(1, 50),
    SortableObject(2, 20),
    SortableObject(3, 80),
    SortableObject(4, 10),
    SortableObject(5, 60)
  ]

  /** `t` is `s` with the pair at `i` exchanged, its left record having had the greater value. */
  predicate StrictSwap(s: seq<SortableObject>, t: seq<SortableObject>, i: int)
  {
    0 <= i && i + 1 < |s| && s[i].value > s[i + 1].value && t == Swap(s, i)
  }

  /** `t` follows from `s` by one strict adjacent swap. */
  ghost predicate OneSwap(s: seq<SortableObject>, t: seq<SortableObject>)
  {
    exists i :: StrictSwap(s, t, i)
  }

  /** `frames` are the lists published by successive strict swaps from `a`, the last being `b`. */
  ghost predicate SwapChain(a: seq<SortableObject>, frames: seq<seq<SortableObject>>, b: seq<SortableObject>)
    decreases |frames|
  {
    if frames == [] then b == a
    else OneSwap(a, frames[0]) && SwapChain(frames[0], frames[1..], b)
  }

  /** The records with value `v`, in list order. */
  function WithValue(s: seq<SortableObject>, v: int): (r: seq<SortableObject>)
    ensures |r| <= |s|
  {
    if s == [] then []
    else (if s[0].value == v then [s[0]] else []) + WithValue(s[1..], v)
  }

  /** Ordered by value, non-decreasing. */
  predicate SortedByValue(s: seq<SortableObject>)
  {
    forall j, k :: 0 <= j < k < |s| ==> s[j].value <= s[k].value
  }

  /** The records at `j` and `k` are in range and in order by value. */
  predicate InOrder(s: seq<SortableObject>, j: int, k: int)
  {
    0 <= j < |s| && 0 <= k < |s| && s[j].value <= s[k].value
  }

  /** Every record at or after `n` has a value at least that of every record before it. */
  predicate SortedByValueFrom(s: seq<SortableObject>, n: int)
  {
    forall j, k {:trigger InOrder(s, j, k)} :: 0 <= j < k < |s| && n <= k ==> InOrder(s, j, k)
  }

  /** Position `i` holds a largest value of the first `i + 1` records. */
  predicate MaxAt(s: seq<SortableObject>, i: int)
  {
    0 <= i < |s| && forall j {:trigger InOrder(s, j, i)} :: 0 <= j <= i ==> InOrder(s, j, i)
  }

  /** The first `i + 1` records are ordered by value. */
  predicate SortedUpTo(s: seq<SortableObject>, i: int)
  {
    forall j, k {:trigger InOrder(s, j, k)} :: 0 <= j < k <= i && k < |s| ==> InOrder(s, j, k)
  }

  // ---- What a pass and the whole sort do, as functions ----

  /** The list after the comparison at `i`: the pair exchanged when the left value is greater. */
  function AfterCompareAt(s: seq<SortableObject>, i: nat): seq<SortableObject>
    requires i + 1 < |s|
  {
    if s[i].value > s[i + 1].value then Swap(s, i) else s
  }

  /** The list of a pass over `s` after its first `k` comparisons. */
  function PassList(s: seq<SortableObject>, k: nat): (r: seq<SortableObject>)
    requires k == 0 || k < |s|
    ensures |r| == |s|
  {
    if k == 0 then s else AfterCompareAt(PassList(s, k - 1), k - 1)
  }

  /**
   * The lists published by the first `k` comparisons of a pass over `s`,
   * one per swap; the last one published is the pass's current list.
   */
  function PassFrames(s: seq<SortableObject>, k: nat): (frames: seq<seq<SortableObject>>)
    requires k == 0 || k < |s|
    ensures |frames| <= k
    ensures frames != [] ==> frames[|frames| - 1] == PassList(s, k)
  {
    if k == 0 then []
    else
      var p := PassList(s, k - 1);
      PassFrames(s, k - 1) + if p[k - 1].value > p[k].value then [PassList(s, k)] else []
  }

  /** The number of comparisons of a pass over the first `n` records. */
  function PassLength(n: int): nat
  {
    if n >= 1 then n - 1 else 0
  }

  /**
   * The lists published by the passes starting from `s` with bound `n`:
   * another pass follows only when this one published something.
   */
  function SortFrames(s: seq<SortableObject>, n: int): (frames: seq<seq<SortableObject>>)
    requires 0 <= n <= |s|
    ensures forall k :: 0 <= k < |frames| ==> |frames[k]| == |s|
    decreases n
  {
    var f := PassFrames(s, PassLength(n));
    PassFramesAreSwapChain(s, PassLength(n));
    SwapChainKeepsLength(s, f, PassList(s, PassLength(n)));
    if f == [] then [] else f + SortFrames(PassList(s, PassLength(n)), n - 1)
  }

  /** One more comparison of the pass: its list and what it publishes, from those before it. */
  lemma PassAdvances(s: seq<SortableObject>, frames: seq<seq<SortableObject>>, p: seq<SortableObject>, i: nat)
    requires i + 1 < |s| && p == PassList(s, i) && frames == PassFrames(s, i)
    ensures PassList(s, i + 1) == AfterCompareAt(p, i)
    ensures PassFrames(s, i + 1) == frames + if p[i].value > p[i + 1].value then [AfterCompareAt(p, i)] else []
  {
  }

  /** The lists a pass publishes are a chain of strict swaps from `s` to the pass's list. */
  lemma {:induction false} PassFramesAreSwapChain(s: seq<SortableObject>, k: nat)
    requires k == 0 || k < |s|
    ensures SwapChain(s, PassFrames(s, k), PassList(s, k))
  {
    if k > 0 {
      var p := PassList(s, k - 1);
      PassFramesAreSwapChain(s, k - 1);
      CompareExtendsChain(s, PassFrames(s, k - 1), p, k - 1);
      assert PassList(s, k) == AfterCompareAt(p, k - 1);
    }
  }

  /** The comparison at `i` extends a chain ending in `p` by the list it publishes, if any. */
  lemma CompareExtendsChain(a: seq<SortableObject>, f: seq<seq<SortableObject>>, p: seq<SortableObject>, i: nat)
    requires SwapChain(a, f, p) && i + 1 < |p|
    ensures SwapChain(a, f + if p[i].value > p[i + 1].value then [Swap(p, i)] else [], AfterCompareAt(p, i))
  {
    if p[i].value > p[i + 1].value {
      assert StrictSwap(p, Swap(p, i), i);
      SwapChainSnoc(a, f, p, Swap(p, i));
    } else {
      assert f + [] == f;
    }
  }

  /**
   * One pass keeps the sort's history on course: what the passes so far
   * published plus the rest of the history from the pass's list is the whole.
   */
  lemma AdvanceSortFrames(shown: seq<seq<SortableObject>>, whole: seq<seq<SortableObject>>, s: seq<SortableObject>, n: int)
    requires 0 <= n <= |s| && shown + SortFrames(s, n) == whole
    ensures PassFrames(s, PassLength(n)) == [] ==> shown == whole
    ensures PassFrames(s, PassLength(n)) != [] ==>
      1 <= n && (shown + PassFrames(s, PassLength(n))) + SortFrames(PassList(s, PassLength(n)), n - 1) == whole
  {
    var f := PassFrames(s, PassLength(n));
    if f != [] {
      AppendAssoc(shown, f, SortFrames(PassList(s, PassLength(n)), n - 1));
    } else {
      assert shown + [] == shown;
    }
  }

  // ---- Properties of a swap and of a chain of swaps ----

  lemma {:induction false} WithValueAppend(s: seq<SortableObject>, t: seq<SortableObject>, v: int)
    ensures WithValue(s + t, v) == WithValue(s, v) + WithValue(t, v)
  {
    if s != [] {
      WithValueAppend(s[1..], t, v);
      assert (s + t)[0] == s[0] && (s + t)[1..] == s[1..] + t;
      var h := if s[0].value == v then [s[0]] else [];
      assert h + (WithValue(s[1..], v) + WithValue(t, v)) == (h + WithValue(s[1..], v)) + WithValue(t, v);
    } else {
      assert s + t == t;
    }
  }

  /** A strict swap exchanges two records of different values, so no value's records change order. */
  lemma StrictSwapKeepsEqualValueOrder(s: seq<SortableObject>, i: nat, v: int)
    requires i + 1 < |s| && s[i].value > s[i + 1].value
    ensures WithValue(Swap(s, i), v) == WithValue(s, v)
  {
    var pre, post := s[..i], s[i + 2..];
    assert s == pre + [s[i], s[i + 1]] + post;
    assert Swap(s, i) == pre + [s[i + 1], s[i]] + post;
    WithValueAppend(pre + [s[i], s[i + 1]], post, v);
    WithValueAppend(pre, [s[i], s[i + 1]], v);
    WithValueAppend(pre + [s[i + 1], s[i]], post, v);
    WithValueAppend(pre, [s[i + 1], s[i]], v);
    assert [s[i], s[i + 1]][1..] == [s[i + 1]];
    assert [s[i + 1], s[i]][1..] == [s[i]];
  }

  /** A strict swap keeps the records and the order of records with equal values. */
  lemma OneSwapPermutesStably(s: seq<SortableObject>, t: seq<SortableObject>)
    requires OneSwap(s, t)
    ensures multiset(t) == multiset(s)
    ensures forall v :: WithValue(t, v) == WithValue(s, v)
  {
    var i :| StrictSwap(s, t, i);
    forall v
      ensures WithValue(t, v) == WithValue(s, v)
    {
      StrictSwapKeepsEqualValueOrder(s, i, v);
    }
  }

  /**
   * Whatever swaps were published, the list is a permutation of the one the
   * sort started from and records with equal values are in their old order.
   */
  lemma {:induction false} SwapChainPermutesStably(a: seq<SortableObject>, frames: seq<seq<SortableObject>>, b: seq<SortableObject>)
    requires SwapChain(a, frames, b)
    ensures multiset(b) == multiset(a)
    ensures forall v :: WithValue(b, v) == WithValue(a, v)
    decreases |frames|
  {
    if frames != [] {
      OneSwapPermutesStably(a, frames[0]);
      SwapChainPermutesStably(frames[0], frames[1..], b);
    }
  }

  /** Publishing one more swapped list extends the chain. */
  lemma {:induction false} SwapChainSnoc(a: seq<SortableObject>, frames: seq<seq<SortableObject>>, b: seq<SortableObject>, c: seq<SortableObject>)
    requires SwapChain(a, frames, b) && OneSwap(b, c)
    ensures SwapChain(a, frames + [c], c)
    decreases |frames|
  {
    if frames == [] {
      assert SwapChain(c, [], c);
    } else {
      SwapChainSnoc(frames[0], frames[1..], b, c);
      assert (frames + [c])[1..] == frames[1..] + [c];
    }
  }

  /** Two chains, the second starting where the first ends, make one. */
  lemma {:induction false} SwapChainAppend(a: seq<SortableObject>, f: seq<seq<SortableObject>>, b: seq<SortableObject>,
                                           g: seq<seq<SortableObject>>, c: seq<SortableObject>)
    requires SwapChain(a, f, b) && SwapChain(b, g, c)
    ensures SwapChain(a, f + g, c)
    decreases |f|
  {
    if f == [] {
      assert f + g == g;
    } else {
      SwapChainAppend(f[0], f[1..], b, g, c);
      assert (f + g)[0] == f[0] && (f + g)[1..] == f[1..] + g;
    }
  }

  /** Every list in a chain has as many records as the first. */
  lemma {:induction false} SwapChainKeepsLength(a: seq<SortableObject>, frames: seq<seq<SortableObject>>, b: seq<SortableObject>)
    requires SwapChain(a, frames, b)
    ensures forall k :: 0 <= k < |frames| ==> |frames[k]| == |a|
    ensures |b| == |a|
    decreases |frames|
  {
    if frames != [] {
      var i :| StrictSwap(a, frames[0], i);
      SwapChainKeepsLength(frames[0], frames[1..], b);
      forall k | 1 <= k < |frames|
        ensures |frames[k]| == |a|
      {
        assert frames[k] == frames[1..][k - 1];
      }
    }
  }

  /** A comparison without a swap extends the ordered prefix by one. */
  lemma SortedUpToExtends(s: seq<SortableObject>, i: int)
    requires SortedUpTo(s, i) && MaxAt(s, i) && i + 1 < |s| && s[i].value <= s[i + 1].value
    ensures SortedUpTo(s, i + 1) && MaxAt(s, i + 1)
  {
    forall j, k | 0 <= j < k <= i + 1 && k < |s|
      ensures InOrder(s, j, k)
    {
      if k == i + 1 {
        assert InOrder(s, j, i);
      } else {
        assert InOrder(s, j, k);
      }
    }
    var m := i + 1;
    forall j | 0 <= j <= m
      ensures InOrder(s, j, m)
    {
      if j <= i {
        assert InOrder(s, j, i);
      }
    }
  }

  /**
   * The comparison at `i` of a pass over the first `n` records, with or
   * without its swap, keeps the suffix from `n` in place and moves the
   * largest value seen so far to `i + 1`.
   */
  lemma CompareKeepsOrder(a: seq<SortableObject>, b: seq<SortableObject>, i: int, n: int)
    requires 0 <= i && i + 1 < n <= |a| && SortedByValueFrom(a, n) && MaxAt(a, i)
    requires if a[i].value > a[i + 1].value then b == Swap(a, i) else b == a
    ensures SortedByValueFrom(b, n) && MaxAt(b, i + 1)
  {
    var swapped := a[i].value > a[i + 1].value;
    forall j, k | 0 <= j < k < |b| && n <= k
      ensures InOrder(b, j, k)
    {
      var src := if swapped && j == i then i + 1 else if swapped && j == i + 1 then i else j;
      assert b[j] == a[src] && b[k] == a[k];
      assert InOrder(a, src, k);
    }
    var m := i + 1;
    forall j | 0 <= j <= m
      ensures InOrder(b, j, m)
    {
      if j <= i {
        assert InOrder(a, j, i);
      }
      if swapped && j < i {
        assert b[j] == a[j];
      }
    }
  }

  /**
   * At the end of a pass over the first `n` records, the record at `n - 1`
   * joins the ordered suffix; a pass without a swap leaves everything ordered.
   */
  lemma PassEnd(s: seq<SortableObject>, n: int, swapped: bool, a0: seq<SortableObject>)
    requires 0 <= n <= |s| && SortedByValueFrom(s, n) && (n >= 1 ==> MaxAt(s, n - 1))
    requires !swapped ==> s == a0 && SortedUpTo(a0, n - 1)
    ensures SortedByValueFrom(s, n - 1)
    ensures !swapped ==> SortedByValue(s)
  {
    forall j, k | 0 <= j < k < |s| && n - 1 <= k
      ensures InOrder(s, j, k)
    {
      if k == n - 1 {
        assert InOrder(s, j, n - 1);
      } else {
        assert InOrder(s, j, k);
      }
    }
    if !swapped {
      forall j, k | 0 <= j < k < |s|
        ensures s[j].value <= s[k].value
      {
        assert InOrder(s, j, k);
      }
    }
  }

  /**
   * The component's state: the list shown, the sorting flag, and (as a
   * history for stating what was shown) every list handed to `setItems`.
   */
  class BubbleSortDemoView {
    var items: seq<SortableObject>
    var isSorting: bool
    ghost var published: seq<seq<SortableObject>>

    constructor()
      ensures items == InitialData && !isSorting && published == []
    {
      items := InitialData;
      isSorting := false;
      published := [];
    }

    /**
     * `bubbleSort`: sorts a copy of `items` by value, publishing the copy
     * after every swap; the delays between swaps are not modelled, so the
     * sort runs to completion and `isSorting` is false again at the end.
     * The lists published are a chain of strict swaps from the old list to
     * the new one, which is sorted, a permutation of the old one, and keeps
     * records with equal values in their old order.
     */
    method BubbleSort()
      modifies this
      ensures !isSorting
      ensures SortedByValue(items)
      ensures published == old(published) + SortFrames(old(items), |old(items)|)
      ensures exists frames :: published == old(published) + frames && SwapChain(old(items), frames, items)
      ensures multiset(items) == multiset(old(items))
      ensures forall v :: WithValue(items, v) == WithValue(old(items), v)
    {
      isSorting := true;
      var copy := items;
      var arr := new SortableObject[|copy|](j requires 0 <= j < |copy| => copy[j]);
      assert arr[..] == items;
      ghost var shown := SortPasses(arr);
      SwapChainPermutesStably(copy, shown, items);
      isSorting := false;
    }

    /**
     * The outer `do … while (swapped)` loop over the copy `arr`: passes with
     * a shrinking bound until one makes no swap. What it publishes is the
     * sort's history from the list it started with.
     */
    method SortPasses(arr: array<SortableObject>) returns (ghost shown: seq<seq<SortableObject>>)
      requires items == arr[..]
      modifies this, arr
      ensures isSorting == old(isSorting) && items == arr[..] && SortedByValue(items)
      ensures published == old(published) + shown && SwapChain(old(items), shown, items)
      ensures shown == SortFrames(old(items), arr.Length)
    {
      ghost var start, before := items, published;
      ghost var whole := SortFrames(items, arr.Length);
      shown := [];
      var n := arr.Length;
      var swapped: bool;
      while true
        invariant 0 <= n <= arr.Length
        invariant isSorting == old(isSorting)
        invariant items == arr[..] && SortedByValueFrom(arr[..], n)
        invariant published == before + shown && SwapChain(start, shown, items)
        invariant shown + SortFrames(items, n) == whole
        decreases n
      {
        swapped, shown := OuterStep(arr, n, start, before, shown, whole);
        n := n - 1;
        if !swapped {
          break;
        }
      }
    }

    /**
     * The body of the outer loop up to `n--`: one pass over the first `n`
     * records. The history published so far stays a chain of strict swaps
     * and a prefix of the sort's history; when the pass swapped nothing the
     * history is complete and the list is ordered.
     */
    method OuterStep(arr: array<SortableObject>, n: int, ghost start: seq<SortableObject>,
                     ghost before: seq<seq<SortableObject>>, ghost shown: seq<seq<SortableObject>>,
                     ghost whole: seq<seq<SortableObject>>)
      returns (swapped: bool, ghost shown': seq<seq<SortableObject>>)
      requires 0 <= n <= arr.Length && items == arr[..] && SortedByValueFrom(arr[..], n)
      requires published == before + shown && SwapChain(start, shown, items)
      requires shown + SortFrames(items, n) == whole
      modifies this, arr
      ensures isSorting == old(isSorting) && items == arr[..] && SortedByValueFrom(arr[..], n - 1)
      ensures published == before + shown' && SwapChain(start, shown', items)
      ensures swapped ==> n >= 2 && shown' + SortFrames(items, n - 1) == whole
      ensures !swapped ==> shown' == whole && SortedByValue(items)
    {
      ghost var mid, frames := items, [];
      swapped, frames := SortPass(arr, n);
      SwapChainAppend(start, shown, mid, frames, items);
      AdvanceSortFrames(shown, whole, mid, n);
      AppendAssoc(before, shown, frames);
      shown' := shown + frames;
    }

    /**
     * One pass of the outer `do … while (swapped)` loop: compares each
     * adjacent pair of the first `n` records once, swapping and publishing
     * when the left value is greater. It moves the largest of the first `n`
     * values to position `n - 1`; without a swap the first `n` were already
     * in order.
     */
    method SortPass(arr: array<SortableObject>, n: int) returns (swapped: bool, ghost frames: seq<seq<SortableObject>>)
      requires 0 <= n <= arr.Length && items == arr[..] && SortedByValueFrom(arr[..], n)
      modifies this, arr
      ensures isSorting == old(isSorting) && items == arr[..]
      ensures SortedByValueFrom(arr[..], n - 1)
      ensures swapped ==> n >= 2
      ensures !swapped ==> SortedByValue(arr[..])
      ensures published == old(published) + frames && SwapChain(old(items), frames, items)
      ensures swapped <==> frames != []
      ensures !swapped ==> arr[..] == old(arr[..]) && published == old(published)
      ensures arr[..] == PassList(old(arr[..]), PassLength(n)) && frames == PassFrames(old(arr[..]), PassLength(n))
    {
      ghost var a0, p0 := arr[..], published;
      frames := [];
      swapped := false;
      var i := 0;
      while i < n - 1
        invariant 0 <= i && (n >= 1 ==> i <= n - 1) && (n < 1 ==> i == 0)
        invariant isSorting == old(isSorting) && items == arr[..]
        invariant SortedByValueFrom(arr[..], n) && (n >= 1 ==> MaxAt(arr[..], i))
        invariant swapped ==> i >= 1
        invariant swapped <==> frames != []
        invariant arr[..] == PassList(a0, i) && frames == PassFrames(a0, i)
        invariant !swapped ==> arr[..] == a0 && SortedUpTo(a0, i)
        invariant published == p0 + frames && SwapChain(a0, frames, items)
      {
        swapped, frames := PassStep(arr, i, n, swapped, a0, p0, frames);
        i := i + 1;
      }
      PassEnd(arr[..], n, swapped, a0);
    }

    /**
     * One iteration of the inner loop: the comparison at `i`, then
     * `swapped = true` when it swapped. The pass's list and what it has
     * published move on by one comparison.
     */
    method PassStep(arr: array<SortableObject>, i: int, n: int, swapped: bool, ghost a0: seq<SortableObject>,
                    ghost p0: seq<seq<SortableObject>>, ghost frames: seq<seq<SortableObject>>)
      returns (swapped': bool, ghost frames': seq<seq<SortableObject>>)
      requires 0 <= i && i + 1 < n <= arr.Length && |a0| == arr.Length && items == arr[..]
      requires SortedByValueFrom(arr[..], n) && MaxAt(arr[..], i)
      requires swapped <==> frames != []
      requires arr[..] == PassList(a0, i) && frames == PassFrames(a0, i)
      requires !swapped ==> arr[..] == a0 && SortedUpTo(a0, i)
      requires published == p0 + frames && SwapChain(a0, frames, items)
      modifies this, arr
      ensures isSorting == old(isSorting) && items == arr[..]
      ensures SortedByValueFrom(arr[..], n) && MaxAt(arr[..], i + 1)
      ensures swapped' <==> frames' != []
      ensures arr[..] == PassList(a0, i + 1) && frames' == PassFrames(a0, i + 1)
      ensures !swapped' ==> arr[..] == a0 && SortedUpTo(a0, i + 1)
      ensures published == p0 + frames' && SwapChain(a0, frames', items)
    {
      ghost var prev := items;
      var didSwap := CompareAt(arr, i, n);
      PassAdvances(a0, frames, prev, i);
      swapped', frames' := swapped, frames;
      if didSwap {
        assert StrictSwap(prev, items, i);
        SwapChainSnoc(a0, frames, prev, items);
        AppendAssoc(p0, frames, [items]);
        frames' := frames + [items];
        swapped' := true;
      } else if !swapped {
        SortedUpToExtends(a0, i);
      }
    }

    /**
     * The body of the inner loop: compares the records at `i` and `i + 1`
     * and, when the left value is greater, swaps them and publishes the list.
     */
    method CompareAt(arr: array<SortableObject>, i: int, n: int) returns (didSwap: bool)
      requires 0 <= i && i + 1 < n <= arr.Length && items == arr[..]
      requires SortedByValueFrom(arr[..], n) && MaxAt(arr[..], i)
      modifies this, arr
      ensures isSorting == old(isSorting) && items == arr[..]
      ensures SortedByValueFrom(arr[..], n) && MaxAt(arr[..], i + 1)
      ensures didSwap == (old(arr[i].value) > old(arr[i + 1].value))
      ensures arr[..] == AfterCompareAt(old(arr[..]), i)
      ensures didSwap ==> StrictSwap(old(arr[..]), arr[..], i) && published == old(published) + [items]
      ensures !didSwap ==> arr[..] == old(arr[..]) && published == old(published) && arr[i].value <= arr[i + 1].value
    {
      ghost var a0 := arr[..];
      didSwap := arr[i].value > arr[i + 1].value;
      if didSwap {
        arr[i], arr[i + 1] := arr[i + 1], arr[i];
        assert StrictSwap(a0, arr[..], i);
        items := arr[..];
        published := published + [items];
      }
      CompareKeepsOrder(a0, arr[..], i, n);
    }

    /** `handleSortClick`: a click while sorting does nothing; otherwise the list is sorted. */
    method HandleSortClick()
      modifies this
      ensures old(isSorting) ==> items == old(items) && isSorting && published == old(published)
      ensures !old(isSorting) ==>
        && !isSorting && SortedByValue(items)
        && multiset(items) == multiset(old(items))
        && (forall v :: WithValue(items, v) == WithValue(old(items), v))
        && published == old(published) + SortFrames(old(items), |old(items)|)
        && exists frames :: published == old(published) + frames && SwapChain(old(items), frames, items)
    {
      if !isSorting {
        BubbleSort();
      }
    }

    /** `handleResetClick`: the initial list is shown again. */
    method HandleResetClick()
      modifies this
      ensures items == InitialData && isSorting == old(isSorting)
      ensures published == old(published) + [InitialData]
    {
      items := InitialData;
      published := published + [InitialData];
    }
  }
}
