/** A functional reference for selection sort: which position each outer
    iteration selects (characterised, not retraced comparison by
    comparison), the state after each outer iteration, and how many
    exchanges the whole sort performs. */
module SelectionModel {
  import opened SortSpec

  /** m is the FIRST position from i on holding a minimum of s[i..]: the
      position a left-to-right scan with a strict `<` keeps. */
  predicate IsFirstMin(s: seq<int>, i: int, m: int) {
    && 0 <= i <= m < |s|
    && (forall k :: i <= k < |s| ==> s[m] <= s[k])
    && (forall k :: i <= k < m ==> s[k] > s[m])
  }

  /** The position that the left-to-right scan of s[i..] against the
      running minimum selects, where a later element replaces the minimum
      only when strictly smaller. This function recurses from the right
      end, so it does not retrace the scan's comparisons: it agrees with
      the scan on the chosen position, as FirstMinIsFirstMin and
      FirstMinUnique show. */
  function FirstMin(s: seq<int>, i: nat): (m: nat)
    requires i < |s|
    ensures i <= m < |s|
    decreases |s| - i
  {
    if i == |s| - 1 then i
    else
      var m' := FirstMin(s, i + 1);
      if s[m'] < s[i] then m' else i
  }

  /** FirstMin does select the first minimum. */
  lemma {:induction false} FirstMinIsFirstMin(s: seq<int>, i: nat)
    requires i < |s|
    ensures IsFirstMin(s, i, FirstMin(s, i))
    decreases |s| - i
  {
    if i < |s| - 1 {
      FirstMinIsFirstMin(s, i + 1);
    }
  }

  /** At most one position is the first minimum. */
  lemma FirstMinUnique(s: seq<int>, i: int, m: int, m': int)
    requires IsFirstMin(s, i, m) && IsFirstMin(s, i, m')
    ensures m == m'
  {
    var x, x' := s[m], s[m'];
    assert m < m' ==> x > x';
    assert m' < m ==> x' > x;
  }

  /** Exchanges selection sort performs on s from outer iteration i on:
      one per iteration whose minimum is not already in place; the last
      position needs no iteration at all. */
  function SelectionSwaps(s: seq<int>, i: nat): nat
    decreases |s| - i
  {
    if i + 1 >= |s| then 0
    else
      var m := FirstMin(s, i);
      (if m != i then 1 else 0) + SelectionSwaps(Swap(s, i, m), i + 1)
  }

  /** Selection sort exchanges at most once per outer iteration. */
  lemma {:induction false} SelectionSwapsBound(s: seq<int>, i: nat)
    requires i < |s|
    ensures SelectionSwaps(s, i) <= |s| - 1 - i
    decreases |s| - i
  {
    if i + 1 < |s| {
      SelectionSwapsBound(Swap(s, i, FirstMin(s, i)), i + 1);
    }
  }

  /** Because ties keep the first minimum, a sorted run is never exchanged. */
  lemma {:induction false} SortedNeedsNoSelectionSwaps(s: seq<int>, i: nat)
    requires i <= |s| && SortedRange(s, i, |s|)
    ensures SelectionSwaps(s, i) == 0
    decreases |s| - i
  {
    if i + 1 < |s| {
      var m := FirstMin(s, i);
      FirstMinIsFirstMin(s, i);
      assert m == i;
      assert Swap(s, i, m) == s;
      SortedNeedsNoSelectionSwaps(s, i + 1);
    }
  }

  /** The sequence after outer iterations i, i + 1, ..., |s| - 2: each
      exchanges position i with the first minimum of s[i..]. */
  function SelectionState(s: seq<int>, i: nat): (r: seq<int>)
    ensures |r| == |s|
    decreases |s| - i
  {
    if i + 1 >= |s| then s else SelectionState(Swap(s, i, FirstMin(s, i)), i + 1)
  }

  /** Iterations from i on only exchange positions from i on, so the first i
      positions already hold their final values. */
  lemma {:induction false} SelectionStateKeepsPrefix(s: seq<int>, i: nat)
    ensures forall k :: 0 <= k < i && k < |s| ==> SelectionState(s, i)[k] == s[k]
    decreases |s| - i
  {
    if i + 1 < |s| {
      SelectionStateKeepsPrefix(Swap(s, i, FirstMin(s, i)), i + 1);
    }
  }

  /** Selection sort on s: all outer iterations from the first. */
  function SelectionSort(s: seq<int>): seq<int> {
    SelectionState(s, 0)
  }

  /** One outer iteration extends the sorted prefix, which nothing after it
      undercuts, by one position. */
  lemma SelectionStepKeeps(s: seq<int>, i: nat)
    requires i + 1 < |s| && SortedRange(s, 0, i) && SplitAt(s, i)
    ensures var c := Swap(s, i, FirstMin(s, i));
      SortedRange(c, 0, i + 1) && SplitAt(c, i + 1)
  {
    FirstMinIsFirstMin(s, i);
  }

  /** The remaining iterations sort s. */
  lemma {:induction false} SelectionStateSorts(s: seq<int>, i: nat)
    requires i <= |s| && SortedRange(s, 0, i) && SplitAt(s, i)
    ensures Sorted(SelectionState(s, i))
    decreases |s| - i
  {
    if i + 1 < |s| {
      SelectionStepKeeps(s, i);
      SelectionStateSorts(Swap(s, i, FirstMin(s, i)), i + 1);
    }
  }

  /** The remaining iterations permute s. */
  lemma {:induction false} SelectionStatePermutes(s: seq<int>, i: nat)
    ensures multiset(SelectionState(s, i)) == multiset(s)
    decreases |s| - i
  {
    if i + 1 < |s| {
      SwapPermutes(s, i, FirstMin(s, i));
      SelectionStatePermutes(Swap(s, i, FirstMin(s, i)), i + 1);
    }
  }

  /** Selection sort returns a sorted permutation of its input. */
  lemma SelectionSortSortedPermutation(s: seq<int>)
    ensures Sorted(SelectionSort(s)) && multiset(SelectionSort(s)) == multiset(s)
  {
    SelectionStateSorts(s, 0);
    SelectionStatePermutes(s, 0);
  }
}
