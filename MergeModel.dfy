/** A functional reference for the visualiser's merge sort: the merge of two
    runs, the recursive sort, and the counters both of them advance. */
module MergeModel {
  import opened SortSpec

  /** The merge loop: take the left head when it is strictly smaller, the
      right head otherwise (so ties go to the right); once one run is
      exhausted the rest of the other follows unchanged. */
  function Merge(l: seq<int>, r: seq<int>): seq<int>
    decreases |l| + |r|
  {
    if l == [] then r
    else if r == [] then l
    else if l[0] < r[0] then [l[0]] + Merge(l[1..], r)
    else [r[0]] + Merge(l, r[1..])
  }

  /** Iterations of the merge loop, one comparison each. */
  function MergeComparisons(l: seq<int>, r: seq<int>): nat
    decreases |l| + |r|
  {
    if l == [] || r == [] then 0
    else if l[0] < r[0] then 1 + MergeComparisons(l[1..], r)
    else 1 + MergeComparisons(l, r[1..])
  }

  /** Iterations of the merge loop that take the right head; each is counted as a swap. */
  function MergeRightPicks(l: seq<int>, r: seq<int>): nat
    decreases |l| + |r|
  {
    if l == [] || r == [] then 0
    else if l[0] < r[0] then MergeRightPicks(l[1..], r)
    else 1 + MergeRightPicks(l, r[1..])
  }

  /** The merge is as long as the two runs together. */
  lemma {:induction false} MergeLength(l: seq<int>, r: seq<int>)
    ensures |Merge(l, r)| == |l| + |r|
    decreases |l| + |r|
  {
    if l != [] && r != [] {
      if l[0] < r[0] {
        MergeLength(l[1..], r);
      } else {
        MergeLength(l, r[1..]);
      }
    }
  }

  /** The merge holds the elements of both runs. */
  lemma {:induction false} MergeMultiset(l: seq<int>, r: seq<int>)
    ensures multiset(Merge(l, r)) == multiset(l) + multiset(r)
    decreases |l| + |r|
  {
    if l != [] && r != [] {
      if l[0] < r[0] {
        var rest := Merge(l[1..], r);
        MergeMultiset(l[1..], r);
        assert Merge(l, r) == [l[0]] + rest;
        assert l == [l[0]] + l[1..];
      } else {
        var rest := Merge(l, r[1..]);
        MergeMultiset(l, r[1..]);
        assert Merge(l, r) == [r[0]] + rest;
        assert r == [r[0]] + r[1..];
      }
    }
  }

  /** The merge is a permutation of the two runs put together. */
  lemma MergePermutation(l: seq<int>, r: seq<int>)
    ensures |Merge(l, r)| == |l| + |r|
    ensures multiset(Merge(l, r)) == multiset(l) + multiset(r)
  {
    MergeLength(l, r);
    MergeMultiset(l, r);
  }

  /** One iteration of the merge loop: the head it takes, and the counts it adds. */
  lemma MergeStep(l: seq<int>, r: seq<int>)
    requires l != [] && r != []
    ensures l[0] < r[0] ==>
      && Merge(l, r) == [l[0]] + Merge(l[1..], r)
      && MergeComparisons(l, r) == 1 + MergeComparisons(l[1..], r)
      && MergeRightPicks(l, r) == MergeRightPicks(l[1..], r)
    ensures l[0] >= r[0] ==>
      && Merge(l, r) == [r[0]] + Merge(l, r[1..])
      && MergeComparisons(l, r) == 1 + MergeComparisons(l, r[1..])
      && MergeRightPicks(l, r) == 1 + MergeRightPicks(l, r[1..])
  {
  }

  /** The merge loop's step on runs read from positions i and j: the output
      so far, acc, grows by the smaller head (the left one only when strictly
      smaller), and the counts of the rest shrink accordingly. */
  lemma MergeAdvance(acc: seq<int>, left: seq<int>, right: seq<int>, i: nat, j: nat)
    requires i < |left| && j < |right|
    ensures left[i] < right[j] ==>
      && acc + Merge(left[i..], right[j..]) == (acc + [left[i]]) + Merge(left[i + 1..], right[j..])
      && MergeComparisons(left[i..], right[j..]) == 1 + MergeComparisons(left[i + 1..], right[j..])
      && MergeRightPicks(left[i..], right[j..]) == MergeRightPicks(left[i + 1..], right[j..])
    ensures left[i] >= right[j] ==>
      && acc + Merge(left[i..], right[j..]) == (acc + [right[j]]) + Merge(left[i..], right[j + 1..])
      && MergeComparisons(left[i..], right[j..]) == 1 + MergeComparisons(left[i..], right[j + 1..])
      && MergeRightPicks(left[i..], right[j..]) == 1 + MergeRightPicks(left[i..], right[j + 1..])
  {
    var l, r := left[i..], right[j..];
    MergeStep(l, r);
    if left[i] < right[j] {
      assert l[1..] == left[i + 1..];
    } else {
      assert r[1..] == right[j + 1..];
    }
  }

  /** Once a run is exhausted, the loop stops and the other run is appended. */
  lemma MergeRest(l: seq<int>, r: seq<int>)
    requires l == [] || r == []
    ensures Merge(l, r) == l + r
    ensures MergeComparisons(l, r) == 0 && MergeRightPicks(l, r) == 0
  {
  }

  /** Every element of the merge is at least x when every element of both runs is. */
  lemma MergeLowerBound(l: seq<int>, r: seq<int>, x: int)
    requires forall k :: 0 <= k < |l| ==> x <= l[k]
    requires forall k :: 0 <= k < |r| ==> x <= r[k]
    ensures forall k :: 0 <= k < |Merge(l, r)| ==> x <= Merge(l, r)[k]
  {
    MergePermutation(l, r);
    forall k | 0 <= k < |Merge(l, r)| ensures x <= Merge(l, r)[k] {
      var v := Merge(l, r)[k];
      assert v in multiset(Merge(l, r));
      assert v in l || v in r;
    }
  }

  /** Merging two sorted runs gives a sorted run. */
  lemma {:induction false} MergeSorted(l: seq<int>, r: seq<int>)
    requires Sorted(l) && Sorted(r)
    ensures Sorted(Merge(l, r))
    decreases |l| + |r|
  {
    if l != [] && r != [] {
      if l[0] < r[0] {
        MergeSorted(l[1..], r);
        MergeLowerBound(l[1..], r, l[0]);
      } else {
        MergeSorted(l, r[1..]);
        MergeLowerBound(l, r[1..], r[0]);
      }
    }
  }

  /** The merge loop runs at least as often as the shorter run is long and
      stops before the last element; at most |r| of its iterations pick right,
      and at most |l| pick left. */
  lemma {:induction false} MergeCountBounds(l: seq<int>, r: seq<int>)
    ensures MergeRightPicks(l, r) <= MergeComparisons(l, r)
    ensures MergeRightPicks(l, r) <= |r|
    ensures MergeComparisons(l, r) - MergeRightPicks(l, r) <= |l|
    ensures l != [] && r != [] ==> |l| <= MergeComparisons(l, r) || |r| <= MergeComparisons(l, r)
    ensures l != [] && r != [] ==> MergeComparisons(l, r) <= |l| + |r| - 1
    decreases |l| + |r|
  {
    if l != [] && r != [] {
      if l[0] < r[0] {
        MergeCountBounds(l[1..], r);
      } else {
        MergeCountBounds(l, r[1..]);
      }
    }
  }

  /** The recursive sort: runs of length at most one are returned as they
      are; longer ones are split at floor(n/2), both halves sorted and merged. */
  function MergeSort(s: seq<int>): seq<int>
    decreases |s|
  {
    if |s| <= 1 then s
    else Merge(MergeSort(s[..|s| / 2]), MergeSort(s[|s| / 2..]))
  }

  /** Comparisons counted by a whole merge sort. */
  function SortComparisons(s: seq<int>): nat
    decreases |s|
  {
    if |s| <= 1 then 0
    else
      var left, right := s[..|s| / 2], s[|s| / 2..];
      SortComparisons(left) + SortComparisons(right)
        + MergeComparisons(MergeSort(left), MergeSort(right))
  }

  /** Swaps (right picks) counted by a whole merge sort. */
  function SortRightPicks(s: seq<int>): nat
    decreases |s|
  {
    if |s| <= 1 then 0
    else
      var left, right := s[..|s| / 2], s[|s| / 2..];
      SortRightPicks(left) + SortRightPicks(right)
        + MergeRightPicks(MergeSort(left), MergeSort(right))
  }

  lemma {:induction false} MergeSortLength(s: seq<int>)
    ensures |MergeSort(s)| == |s|
    decreases |s|
  {
    if |s| > 1 {
      MergeSortLength(s[..|s| / 2]);
      MergeSortLength(s[|s| / 2..]);
      MergePermutation(MergeSort(s[..|s| / 2]), MergeSort(s[|s| / 2..]));
    }
  }

  /** Merge sort returns a sorted permutation of its argument. */
  lemma {:induction false} MergeSortSortedPermutation(s: seq<int>)
    ensures Sorted(MergeSort(s))
    ensures multiset(MergeSort(s)) == multiset(s)
    ensures |MergeSort(s)| == |s|
    decreases |s|
  {
    if |s| > 1 {
      var left, right := s[..|s| / 2], s[|s| / 2..];
      var sl, sr := MergeSort(left), MergeSort(right);
      assert MergeSort(s) == Merge(sl, sr);
      MergeSortSortedPermutation(left);
      MergeSortSortedPermutation(right);
      MergeSorted(sl, sr);
      MergePermutation(sl, sr);
      HalvesMultiset(s, |s| / 2);
    }
  }

  /** Cutting a sequence in two keeps its elements. */
  lemma HalvesMultiset(s: seq<int>, m: nat)
    requires m <= |s|
    ensures multiset(s[..m]) + multiset(s[m..]) == multiset(s)
  {
    assert s == s[..m] + s[m..];
  }

  /** The counts of the two recursive sorts and of the final merge add up
      within the bounds for the whole run. */
  lemma CountsCombine(cl: nat, wl: nat, cr: nat, wr: nat, c: nat, w: nat, a: nat, b: nat, n: nat)
    requires a >= 1 && b >= 1 && n == a + b
    requires wl <= cl <= Pairs(a) && wr <= cr <= Pairs(b) && w <= c <= a + b - 1
    ensures wl + wr + w <= cl + cr + c <= Pairs(n)
  {
    PairsAcrossCoverMerge(a, b);
  }

  /** A merge sort counts no more swaps than comparisons, and no more
      comparisons than there are pairs of elements. */
  lemma {:induction false} SortCountBounds(s: seq<int>)
    ensures SortRightPicks(s) <= SortComparisons(s) <= Pairs(|s|)
    decreases |s|
  {
    if |s| > 1 {
      var left, right := s[..|s| / 2], s[|s| / 2..];
      var sl, sr := MergeSort(left), MergeSort(right);
      SortCountBounds(left);
      SortCountBounds(right);
      assert |sl| == |left| && |sr| == |right| by {
        MergeSortLength(left);
        MergeSortLength(right);
      }
      assert MergeRightPicks(sl, sr) <= MergeComparisons(sl, sr) <= |sl| + |sr| - 1 by {
        MergeCountBounds(sl, sr);
      }
      CountsCombine(SortComparisons(left), SortRightPicks(left), SortComparisons(right), SortRightPicks(right),
                    MergeComparisons(sl, sr), MergeRightPicks(sl, sr), |left|, |right|, |s|);
      assert SortComparisons(s) == SortComparisons(left) + SortComparisons(right) + MergeComparisons(sl, sr);
    }
  }

}
