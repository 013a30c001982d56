/** A functional reference for bubble sort: the passes as state
    transformers, the exchanges they make, and what they achieve. */
module BubbleModel {
  import opened SortSpec

  /** One comparison of a pass: positions j and j + 1 change places when
      the left one is strictly larger. */
  function CompareExchange(s: seq<int>, j: nat): (r: seq<int>)
    requires j + 1 < |s|
    ensures |r| == |s|
  {
    if s[j] > s[j + 1] then Swap(s, j, j + 1) else s
  }

  /** The rest of a pass that stops before bound: compare-exchange at
      j, j + 1, ..., bound - 2. */
  function PassFrom(s: seq<int>, j: nat, bound: nat): (r: seq<int>)
    requires j < bound <= |s|
    ensures |r| == |s|
    decreases bound - j
  {
    if j + 1 == bound then s else PassFrom(CompareExchange(s, j), j + 1, bound)
  }

  /** The exchanges the rest of that pass makes. */
  function PassSwapsFrom(s: seq<int>, j: nat, bound: nat): nat
    requires j < bound <= |s|
    decreases bound - j
  {
    if j + 1 == bound then 0
    else (if s[j] > s[j + 1] then 1 else 0) + PassSwapsFrom(CompareExchange(s, j), j + 1, bound)
  }

  /** The remaining passes i, i + 1, ..., |s| - 2; pass i covers s[..|s| - i]. */
  function PassesFrom(s: seq<int>, i: nat): (r: seq<int>)
    ensures |r| == |s|
    decreases |s| - i
  {
    if i + 1 >= |s| then s else PassesFrom(PassFrom(s, 0, |s| - i), i + 1)
  }

  /** The exchanges those passes make. */
  function BubbleSwapsFrom(s: seq<int>, i: nat): nat
    decreases |s| - i
  {
    if i + 1 >= |s| then 0
    else PassSwapsFrom(s, 0, |s| - i) + BubbleSwapsFrom(PassFrom(s, 0, |s| - i), i + 1)
  }

  /** s[j] is a maximum of s[..j + 1]. */
  predicate MaxAt(s: seq<int>, j: nat)
    requires j < |s|
  {
    forall k :: 0 <= k <= j ==> s[k] <= s[j]
  }

  /** One comparison carries the running maximum one place right and leaves
      the sorted tail from bound on, and its separation, intact. */
  lemma CompareExchangeKeeps(s: seq<int>, j: nat, bound: nat)
    requires j + 1 < bound <= |s|
    requires SortedRange(s, bound, |s|) && SplitAt(s, bound) && MaxAt(s, j)
    ensures var c := CompareExchange(s, j);
      SortedRange(c, bound, |c|) && SplitAt(c, bound) && MaxAt(c, j + 1)
  {
  }

  /** One comparison keeps the elements and, when it exchanges, removes
      exactly one inversion. */
  lemma CompareExchangeCounts(s: seq<int>, j: nat)
    requires j + 1 < |s|
    ensures multiset(CompareExchange(s, j)) == multiset(s)
    ensures (if s[j] > s[j + 1] then 1 else 0) + Inversions(CompareExchange(s, j)) == Inversions(s)
  {
    if s[j] > s[j + 1] {
      SwapPermutes(s, j, j + 1);
      InversionsSwapAdj(s, j);
    }
  }

  /** A pass run from a running maximum at j moves the maximum of s[..bound]
      to bound - 1, growing the sorted tail by one. */
  lemma {:induction false} PassFromSorts(s: seq<int>, j: nat, bound: nat)
    requires j < bound <= |s|
    requires SortedRange(s, bound, |s|) && SplitAt(s, bound) && MaxAt(s, j)
    ensures var r := PassFrom(s, j, bound);
      SortedRange(r, bound - 1, |r|) && SplitAt(r, bound - 1)
    decreases bound - j
  {
    if j + 1 < bound {
      CompareExchangeKeeps(s, j, bound);
      PassFromSorts(CompareExchange(s, j), j + 1, bound);
    }
  }

  /** A pass permutes s. */
  lemma {:induction false} PassFromPermutes(s: seq<int>, j: nat, bound: nat)
    requires j < bound <= |s|
    ensures multiset(PassFrom(s, j, bound)) == multiset(s)
    decreases bound - j
  {
    if j + 1 < bound {
      var s' := CompareExchange(s, j);
      assert multiset(s') == multiset(s) by { CompareExchangeCounts(s, j); }
      PassFromPermutes(s', j + 1, bound);
      assert PassFrom(s, j, bound) == PassFrom(s', j + 1, bound);
    }
  }

  /** Every exchange a pass makes removes one inversion. */
  lemma {:induction false} PassFromInversions(s: seq<int>, j: nat, bound: nat)
    requires j < bound <= |s|
    ensures PassSwapsFrom(s, j, bound) + Inversions(PassFrom(s, j, bound)) == Inversions(s)
    decreases bound - j
  {
    if j + 1 < bound {
      var s' := CompareExchange(s, j);
      var e := if s[j] > s[j + 1] then 1 else 0;
      assert e + Inversions(s') == Inversions(s) by { CompareExchangeCounts(s, j); }
      PassFromInversions(s', j + 1, bound);
      assert PassFrom(s, j, bound) == PassFrom(s', j + 1, bound);
      assert PassSwapsFrom(s, j, bound) == e + PassSwapsFrom(s', j + 1, bound);
    }
  }

  /** A pass permutes s, and every exchange it makes removes one inversion. */
  lemma PassFromCounts(s: seq<int>, j: nat, bound: nat)
    requires j < bound <= |s|
    ensures multiset(PassFrom(s, j, bound)) == multiset(s)
    ensures PassSwapsFrom(s, j, bound) + Inversions(PassFrom(s, j, bound)) == Inversions(s)
  {
    PassFromPermutes(s, j, bound);
    PassFromInversions(s, j, bound);
  }

  /** A pass moves nothing from bound on. */
  lemma {:induction false} PassFromKeepsTail(s: seq<int>, j: nat, bound: nat)
    requires j < bound <= |s|
    ensures forall k :: bound <= k < |s| ==> PassFrom(s, j, bound)[k] == s[k]
    decreases bound - j
  {
    if j + 1 < bound {
      PassFromKeepsTail(CompareExchange(s, j), j + 1, bound);
    }
  }

  /** Passes i, i + 1, ... cover ever shorter prefixes, so the last i
      positions already hold their final values. */
  lemma {:induction false} PassesFromKeepsTail(s: seq<int>, i: nat)
    requires i <= |s|
    ensures forall k :: |s| - i <= k < |s| ==> PassesFrom(s, i)[k] == s[k]
    decreases |s| - i
  {
    if i + 1 < |s| {
      PassFromKeepsTail(s, 0, |s| - i);
      PassesFromKeepsTail(PassFrom(s, 0, |s| - i), i + 1);
    }
  }

  /** The remaining passes sort s. */
  lemma {:induction false} PassesFromSorts(s: seq<int>, i: nat)
    requires i <= |s| && SortedRange(s, |s| - i, |s|) && SplitAt(s, |s| - i)
    ensures Sorted(PassesFrom(s, i))
    decreases |s| - i
  {
    if i + 1 < |s| {
      PassFromSorts(s, 0, |s| - i);
      PassesFromSorts(PassFrom(s, 0, |s| - i), i + 1);
    }
  }

  /** The remaining passes permute s, and each of their exchanges removes
      one inversion. */
  lemma {:induction false} PassesFromCounts(s: seq<int>, i: nat)
    ensures multiset(PassesFrom(s, i)) == multiset(s)
    ensures BubbleSwapsFrom(s, i) + Inversions(PassesFrom(s, i)) == Inversions(s)
    decreases |s| - i
  {
    if i + 1 < |s| {
      var s' := PassFrom(s, 0, |s| - i);
      PassFromCounts(s, 0, |s| - i);
      PassesFromCounts(s', i + 1);
      assert PassesFrom(s, i) == PassesFrom(s', i + 1);
      assert BubbleSwapsFrom(s, i) == PassSwapsFrom(s, 0, |s| - i) + BubbleSwapsFrom(s', i + 1);
    }
  }

  /** The remaining passes sort s, permute it, and make exactly as many
      exchanges as s has inversions. */
  lemma PassesFromFacts(s: seq<int>, i: nat)
    requires i <= |s| && SortedRange(s, |s| - i, |s|) && SplitAt(s, |s| - i)
    ensures Sorted(PassesFrom(s, i)) && multiset(PassesFrom(s, i)) == multiset(s)
    ensures BubbleSwapsFrom(s, i) == Inversions(s)
  {
    PassesFromSorts(s, i);
    PassesFromCounts(s, i);
    SortedIffNoInversions(PassesFrom(s, i));
  }

  /** Bubble sort on s: all passes from the first. */
  function BubbleSort(s: seq<int>): seq<int> {
    PassesFrom(s, 0)
  }

  /** Bubble sort returns a sorted permutation of its input. */
  lemma BubbleSortSortedPermutation(s: seq<int>)
    ensures Sorted(BubbleSort(s)) && multiset(BubbleSort(s)) == multiset(s)
  {
    PassesFromFacts(s, 0);
  }

  /** Bubble sort exchanges exactly once per inversion of the input. */
  lemma BubbleSwapsAreInversions(s: seq<int>)
    ensures BubbleSwapsFrom(s, 0) == Inversions(s)
  {
    PassesFromFacts(s, 0);
  }

  /** Bubble sort on [5, 3, 8, 1]: three passes of 3, 2 and 1 comparisons
      and four exchanges, one per inversion, ending in [1, 3, 5, 8]. */
  lemma FourElementRun()
    ensures BubbleSort([5, 3, 8, 1]) == [1, 3, 5, 8]
    ensures BubbleSwapsFrom([5, 3, 8, 1], 0) == 4 == Inversions([5, 3, 8, 1])
    ensures Pairs(4) == 6
  {
    var s0 := [5, 3, 8, 1];
    var s1 := PassFrom(s0, 0, 4);
    assert s1 == [3, 5, 1, 8] && PassSwapsFrom(s0, 0, 4) == 2 by {
      assert CompareExchange(s0, 0) == [3, 5, 8, 1];
      assert CompareExchange([3, 5, 8, 1], 1) == [3, 5, 8, 1];
      assert CompareExchange([3, 5, 8, 1], 2) == [3, 5, 1, 8];
    }
    var s2 := PassFrom(s1, 0, 3);
    assert s2 == [3, 1, 5, 8] && PassSwapsFrom(s1, 0, 3) == 1 by {
      assert CompareExchange(s1, 0) == s1;
      assert CompareExchange(s1, 1) == [3, 1, 5, 8];
    }
    var s3 := PassFrom(s2, 0, 2);
    assert s3 == [1, 3, 5, 8] && PassSwapsFrom(s2, 0, 2) == 1 by {
      assert CompareExchange(s2, 0) == [1, 3, 5, 8];
    }
    assert PassesFrom(s0, 0) == PassesFrom(s1, 1) == PassesFrom(s2, 2) == PassesFrom(s3, 3) == s3;
    assert BubbleSwapsFrom(s0, 0) == 2 + BubbleSwapsFrom(s1, 1);
    assert BubbleSwapsFrom(s1, 1) == 1 + BubbleSwapsFrom(s2, 2);
    assert BubbleSwapsFrom(s2, 2) == 1 + BubbleSwapsFrom(s3, 3);
    BubbleSwapsAreInversions(s0);
  }
}
