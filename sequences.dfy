/**
 * Sequence facts shared by both sorters: the destructuring swap
 * `[a[i], a[i + 1]] = [a[i + 1], a[i]]` on a copy, and two regroupings of
 * concatenations used when a trace is assembled piece by piece.
 */
module Sequences {

  /** `[a[i], a[i + 1]] = [a[i + 1], a[i]]` on a copy of `a`. */
  function Swap<T>(a: seq<T>, i: nat): (b: seq<T>)
    requires i + 1 < |a|
    ensures |b| == |a|
  {
    a[i := a[i + 1]][i + 1 := a[i]]
  }

  /** The swap exchanges the pair, keeps every other position and so permutes the sequence. */
  lemma SwapExchanges<T>(a: seq<T>, i: nat)
    requires i + 1 < |a|
    ensures var b := Swap(a, i);
      && b[i] == a[i + 1] && b[i + 1] == a[i]
      && (forall j :: 0 <= j < |a| && j != i && j != i + 1 ==> b[j] == a[j])
      && multiset(b) == multiset(a)
  {
  }

  lemma AppendAssoc<T>(a: seq<T>, b: seq<T>, c: seq<T>)
    ensures (a + b) + c == a + (b + c)
  {
  }

  lemma AppendPair<T>(s: seq<T>, x: T, y: T)
    ensures s + [x] + [y] == s + [x, y]
  {
  }

  /** The last `k` elements of `s + t` are those of `t`. */
  lemma SuffixOfAppend<T>(s: seq<T>, t: seq<T>, k: nat)
    requires k <= |t|
    ensures (s + t)[|s + t| - k..] == t[|t| - k..]
  {
  }
}
