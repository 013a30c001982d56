/** The five sorting procedures of the visualiser, each run to completion on
    the working copy it is given, and the statistics accumulator they advance. */
module Sorts {
  import opened SortSpec
  import BubbleModel
  import SelectionModel
  import InsertionModel
  import MergeModel
  import QuickModel

  /** The two running totals shown beside the bars. */
  class Stats {
    var comparisons: nat
    var swaps: nat

    constructor ()
      ensures comparisons == 0 && swaps == 0
    {
      comparisons, swaps := 0, 0;
    }

    /** Adds to both totals; the elapsed-time display it also refreshes is not modelled. */
    method UpdateStats(newComparisons: nat, newSwaps: nat)
      modifies this
      ensures comparisons == old(comparisons) + newComparisons
      ensures swaps == old(swaps) + newSwaps
    {
      comparisons := comparisons + newComparisons;
      swaps := swaps + newSwaps;
    }
  }

  /** The destructuring exchange of two array positions. */
  method Exchange(a: array<int>, i: nat, j: nat)
    requires i < a.Length && j < a.Length
    modifies a
    ensures a[..] == Swap(old(a[..]), i, j)
  {
    a[i], a[j] := a[j], a[i];
  }

  /** One pass of bubble sort's inner loop over the pairs (j, j + 1) with
      j + 1 < bound: one comparison per pair, an exchange and a swap for
      each pair out of order. */
  method BubblePass(a: array<int>, bound: nat, st: Stats)
    requires 0 < bound <= a.Length
    modifies a, st
    ensures a[..] == BubbleModel.PassFrom(old(a[..]), 0, bound)
    ensures st.comparisons == old(st.comparisons) + (bound - 1)
    ensures st.swaps == old(st.swaps) + BubbleModel.PassSwapsFrom(old(a[..]), 0, bound)
  {
    ghost var input := a[..];
    var j := 0;
    while j < bound - 1
      invariant 0 <= j < bound
      invariant BubbleModel.PassFrom(a[..], j, bound) == BubbleModel.PassFrom(input, 0, bound)
      invariant st.comparisons == old(st.comparisons) + j
      invariant st.swaps + BubbleModel.PassSwapsFrom(a[..], j, bound)
                == old(st.swaps) + BubbleModel.PassSwapsFrom(input, 0, bound)
    {
      ghost var before := a[..];
      st.UpdateStats(1, 0);
      if a[j] > a[j + 1] {
        Exchange(a, j, j + 1);
        st.UpdateStats(0, 1);
      }
      assert a[..] == BubbleModel.CompareExchange(before, j);
      j := j + 1;
    }
  }

  /** Passes over ever shorter prefixes; before pass i the last i positions
      hold their final values. Comparisons are one per pair of positions,
      swaps exactly the inversions of the input. */
  method BubbleSort(a: array<int>, st: Stats)
    modifies a, st
    ensures a[..] == BubbleModel.BubbleSort(old(a[..]))
    ensures Sorted(a[..]) && multiset(a[..]) == multiset(old(a[..]))
    ensures st.comparisons == old(st.comparisons) + Pairs(a.Length)
    ensures st.swaps == old(st.swaps) + Inversions(old(a[..]))
  {
    ghost var input := a[..];
    var n := a.Length;
    var i := 0;
    while i < n - 1
      invariant 0 <= i <= n && (n > 0 ==> i <= n - 1)
      invariant BubbleModel.PassesFrom(a[..], i) == BubbleModel.PassesFrom(input, 0)
      invariant forall k :: n - i <= k < n ==> a[k] == BubbleModel.BubbleSort(input)[k]
      invariant st.comparisons + Pairs(n - i) == old(st.comparisons) + Pairs(n)
      invariant st.swaps + BubbleModel.BubbleSwapsFrom(a[..], i)
                == old(st.swaps) + BubbleModel.BubbleSwapsFrom(input, 0)
    {
      BubblePass(a, n - i, st);
      i := i + 1;
      BubbleModel.PassesFromKeepsTail(a[..], i);
    }
    BubbleModel.BubbleSortSortedPermutation(input);
    BubbleModel.BubbleSwapsAreInversions(input);
  }

  /** The inner loop of selection sort: scan a[i + 1..] against the
      current minimum with a strict `<`, one comparison per position. */
  method FindMin(a: array<int>, i: nat, st: Stats) returns (minIndex: nat)
    requires i < a.Length
    modifies st
    ensures minIndex == SelectionModel.FirstMin(a[..], i)
    ensures st.comparisons == old(st.comparisons) + (a.Length - i - 1)
    ensures st.swaps == old(st.swaps)
  {
    minIndex := i;
    var j := i + 1;
    while j < a.Length
      invariant i < j <= a.Length && i <= minIndex < j
      invariant forall k :: i <= k < j ==> a[minIndex] <= a[k]
      invariant forall k :: i <= k < minIndex ==> a[k] > a[minIndex]
      invariant st.comparisons == old(st.comparisons) + (j - i - 1)
      invariant st.swaps == old(st.swaps)
    {
      st.UpdateStats(1, 0);
      if a[j] < a[minIndex] {
        minIndex := j;
      }
      j := j + 1;
    }
    SelectionModel.FirstMinIsFirstMin(a[..], i);
    SelectionModel.FirstMinUnique(a[..], i, minIndex, SelectionModel.FirstMin(a[..], i));
  }

  /** One outer iteration of selection sort: exchange the first minimum of
      a[i..] into position i unless it is already there. */
  method SelectPosition(a: array<int>, i: nat, st: Stats)
    requires i + 1 < a.Length
    modifies a, st
    ensures a[..] == Swap(old(a[..]), i, SelectionModel.FirstMin(old(a[..]), i))
    ensures st.comparisons == old(st.comparisons) + (a.Length - i - 1)
    ensures st.swaps == old(st.swaps) + (if SelectionModel.FirstMin(old(a[..]), i) != i then 1 else 0)
  {
    var minIndex := FindMin(a, i, st);
    if minIndex != i {
      Exchange(a, i, minIndex);
      st.UpdateStats(0, 1);
    } else {
      assert a[..] == Swap(a[..], i, minIndex);
    }
  }

  /** Selection sort: for i = 0 .. n - 2, select the first minimum of a[i..]
      into position i, after which a[..i + 1] holds its final values, the
      i + 1 smallest in order. Comparisons are one per pair of positions;
      swaps those of the reference SelectionSwaps. */
  method SelectionSort(a: array<int>, st: Stats)
    modifies a, st
    ensures a[..] == SelectionModel.SelectionSort(old(a[..]))
    ensures Sorted(a[..]) && multiset(a[..]) == multiset(old(a[..]))
    ensures st.comparisons == old(st.comparisons) + Pairs(a.Length)
    ensures st.swaps == old(st.swaps) + SelectionModel.SelectionSwaps(old(a[..]), 0)
  {
    ghost var input := a[..];
    var n := a.Length;
    var i := 0;
    while i < n - 1
      invariant 0 <= i <= n && (n > 0 ==> i <= n - 1)
      invariant SelectionModel.SelectionState(a[..], i) == SelectionModel.SelectionState(input, 0)
      invariant forall k :: 0 <= k < i ==> a[k] == SelectionModel.SelectionSort(input)[k]
      invariant st.comparisons + Pairs(n - i) == old(st.comparisons) + Pairs(n)
      invariant st.swaps + SelectionModel.SelectionSwaps(a[..], i)
                == old(st.swaps) + SelectionModel.SelectionSwaps(input, 0)
    {
      SelectPosition(a, i, st);
      i := i + 1;
      SelectionModel.SelectionStateKeepsPrefix(a[..], i);
    }
    SelectionModel.SelectionSortSortedPermutation(input);
  }

  /** One outer iteration of insertion sort: key = a[i] is compared once,
      every larger element of the sorted prefix moves one place right (one
      comparison and one swap each), and key drops into the gap. */
  method Insert(a: array<int>, i: nat, st: Stats)
    requires 1 <= i < a.Length
    modifies a, st
    ensures a[..] == InsertionModel.ShiftInsert(old(a[..]), i - 1, old(a[i]))
    ensures st.comparisons == old(st.comparisons) + 1 + InsertionModel.Shifts(old(a[..]), i - 1, old(a[i]))
    ensures st.swaps == old(st.swaps) + InsertionModel.Shifts(old(a[..]), i - 1, old(a[i]))
  {
    ghost var input := a[..];
    var key := a[i];
    var j := i - 1;
    st.UpdateStats(1, 0);
    while j >= 0 && a[j] > key
      invariant -1 <= j < i
      invariant InsertionModel.ShiftInsert(a[..], j, key) == InsertionModel.ShiftInsert(input, i - 1, key)
      invariant st.swaps + InsertionModel.Shifts(a[..], j, key)
                == old(st.swaps) + InsertionModel.Shifts(input, i - 1, key)
      invariant st.comparisons + InsertionModel.Shifts(a[..], j, key)
                == old(st.comparisons) + 1 + InsertionModel.Shifts(input, i - 1, key)
    {
      a[j + 1] := a[j];
      st.UpdateStats(1, 1);
      j := j - 1;
    }
    a[j + 1] := key;
  }

  /** Insert a[i] into the sorted prefix for i = 1 .. n - 1, after which
      a[..i + 1] is sorted. Swaps are exactly the inversions of the input;
      comparisons add one per outer iteration. */
  method InsertionSort(a: array<int>, st: Stats)
    modifies a, st
    ensures a[..] == InsertionModel.InsertionSort(old(a[..]))
    ensures Sorted(a[..]) && multiset(a[..]) == multiset(old(a[..]))
    ensures st.swaps == old(st.swaps) + Inversions(old(a[..]))
    ensures st.comparisons == old(st.comparisons) + (if a.Length == 0 then 0 else a.Length - 1)
                              + Inversions(old(a[..]))
  {
    ghost var input := a[..];
    var n := a.Length;
    var i := 1;
    while i < n
      invariant 1 <= i && (n > 0 ==> i <= n) && (n == 0 ==> i == 1)
      invariant InsertionModel.InsertionFrom(a[..], i) == InsertionModel.InsertionFrom(input, 1)
      invariant i <= n ==> SortedRange(a[..], 0, i)
      invariant st.swaps + InsertionModel.InsertionShiftsFrom(a[..], i)
                == old(st.swaps) + InsertionModel.InsertionShiftsFrom(input, 1)
      invariant st.comparisons + InsertionModel.InsertionShiftsFrom(a[..], i)
                == old(st.comparisons) + (i - 1) + InsertionModel.InsertionShiftsFrom(input, 1)
    {
      ghost var before := a[..];
      Insert(a, i, st);
      InsertionModel.ShiftInsertSorts(before, i - 1, i, before[i]);
      i := i + 1;
    }
    InsertionModel.InsertionSortFacts(input);
  }

  /** The merge loop: one comparison per iteration, a swap counted for every
      right-hand pick; the leftover run is appended once either side is used up. */
  method Merge(left: seq<int>, right: seq<int>, st: Stats) returns (merged: seq<int>)
    modifies st
    ensures merged == MergeModel.Merge(left, right)
    ensures st.comparisons == old(st.comparisons) + MergeModel.MergeComparisons(left, right)
    ensures st.swaps == old(st.swaps) + MergeModel.MergeRightPicks(left, right)
  {
    var result := [];
    var leftIndex, rightIndex := 0, 0;
    while leftIndex < |left| && rightIndex < |right|
      invariant 0 <= leftIndex <= |left| && 0 <= rightIndex <= |right|
      invariant result + MergeModel.Merge(left[leftIndex..], right[rightIndex..]) == MergeModel.Merge(left, right)
      invariant st.comparisons + MergeModel.MergeComparisons(left[leftIndex..], right[rightIndex..])
                == old(st.comparisons) + MergeModel.MergeComparisons(left, right)
      invariant st.swaps + MergeModel.MergeRightPicks(left[leftIndex..], right[rightIndex..])
                == old(st.swaps) + MergeModel.MergeRightPicks(left, right)
      decreases |left| - leftIndex + |right| - rightIndex
    {
      st.UpdateStats(1, 0);
      MergeModel.MergeAdvance(result, left, right, leftIndex, rightIndex);
      if left[leftIndex] < right[rightIndex] {
        result := result + [left[leftIndex]];
        leftIndex := leftIndex + 1;
      } else {
        result := result + [right[rightIndex]];
        rightIndex := rightIndex + 1;
        st.UpdateStats(0, 1);
      }
    }
    MergeModel.MergeRest(left[leftIndex..], right[rightIndex..]);
    merged := result + left[leftIndex..] + right[rightIndex..];
  }

  /** Split at floor(n/2), sort both halves (left first), merge. The argument
      is never changed: the halves are fresh slices. */
  method MergeSort(arr: seq<int>, st: Stats) returns (sorted: seq<int>)
    modifies st
    ensures sorted == MergeModel.MergeSort(arr)
    ensures Sorted(sorted) && multiset(sorted) == multiset(arr)
    ensures |arr| <= 1 ==> sorted == arr
    ensures st.comparisons == old(st.comparisons) + MergeModel.SortComparisons(arr)
    ensures st.swaps == old(st.swaps) + MergeModel.SortRightPicks(arr)
    decreases |arr|
  {
    MergeModel.MergeSortSortedPermutation(arr);
    if |arr| <= 1 {
      return arr;
    }
    var middle := |arr| / 2;
    var left := arr[..middle];
    var right := arr[middle..];
    var sortedLeft := MergeSort(left, st);
    var sortedRight := MergeSort(right, st);
    sorted := Merge(sortedLeft, sortedRight, st);
  }

  /** Lomuto partition of a[low..high] around the last element: the pivot
      lands on the returned index, everything before it in the segment is
      smaller and nothing after it is, nothing outside the segment moves;
      one comparison per scanned position, a swap for each element below
      the pivot and one for placing the pivot. A strictly
      ascending segment is left as it is, with the pivot staying at high.
      The loop follows the reference QuickModel.Partition step by step, and
      the array and index it leaves are exactly those of the reference. */
  method Partition(a: array<int>, low: nat, high: nat, st: Stats) returns (p: nat)
    requires low < high < a.Length
    modifies a, st
    ensures QuickModel.IsPartition(old(a[..]), low, high, a[..], p)
    ensures low <= p <= high && QuickModel.Partitioned(old(a[..]), a[..], low, high, p)
    ensures p - low == QuickModel.CountBelow(old(a[..]), low, high, old(a[high]))
    ensures st.comparisons == old(st.comparisons) + (high - low)
    ensures st.swaps == old(st.swaps) + (p - low) + 1
  {
    ghost var input := a[..];
    var pivotValue := a[high];
    var pivotIndex := low;
    var i := low;
    while i < high
      invariant low <= pivotIndex <= i <= high
      invariant QuickModel.ScanFrom(a[..], pivotValue, i, pivotIndex, high)
                == QuickModel.ScanFrom(input, pivotValue, low, low, high)
      invariant st.comparisons == old(st.comparisons) + (i - low)
      invariant st.swaps == old(st.swaps) + (pivotIndex - low)
    {
      ghost var before, boundary := a[..], pivotIndex;
      st.UpdateStats(1, 0);
      if a[i] < pivotValue {
        Exchange(a, i, pivotIndex);
        st.UpdateStats(0, 1);
        pivotIndex := pivotIndex + 1;
      }
      assert QuickModel.ScanFrom(before, pivotValue, i, boundary, high)
             == QuickModel.ScanFrom(a[..], pivotValue, i + 1, pivotIndex, high);
      i := i + 1;
    }
    ghost var scanned := a[..];
    assert QuickModel.ScanFrom(scanned, pivotValue, high, pivotIndex, high) == (scanned, pivotIndex);
    QuickModel.ScanThenPivot(input, low, high, scanned, pivotIndex);
    Exchange(a, pivotIndex, high);
    st.UpdateStats(0, 1);
    p := pivotIndex;
    QuickModel.PartitionSpec(input, low, high, a[..], p);
  }

  /** Recursive quick sort of a[low..high]: the segment ends sorted, holding
      the same elements, with nothing outside it moved. Comparisons never
      exceed the number of pairs, nor swaps the count of the ascending case;
      on a strictly ascending segment every partition is maximally
      unbalanced, every exchange is of a position with itself, and both
      bounds are met exactly. */
  method QuickSort(a: array<int>, low: int, high: int, st: Stats)
    requires 0 <= low <= high + 1 <= a.Length
    modifies a, st
    ensures SortedRange(a[..], low, high + 1)
    ensures multiset(a[..]) == multiset(old(a[..]))
    ensures QuickModel.SameOutside(old(a[..]), a[..], low, high + 1)
    ensures old(st.comparisons) <= st.comparisons <= old(st.comparisons) + Pairs(high + 1 - low)
    ensures old(st.swaps) <= st.swaps <= old(st.swaps) + QuickModel.AscendingSwaps(high + 1 - low)
    ensures QuickModel.Ascending(old(a[..]), low, high + 1) ==>
              && a[..] == old(a[..])
              && st.comparisons == old(st.comparisons) + Pairs(high + 1 - low)
              && st.swaps == old(st.swaps) + QuickModel.AscendingSwaps(high + 1 - low)
    decreases high + 1 - low
  {
    if low < high {
      ghost var s0, c0, w0 := a[..], st.comparisons, st.swaps;
      var p: int := Partition(a, low, high, st);
      ghost var s1, c1, w1 := a[..], st.comparisons, st.swaps;
      QuickSort(a, low, p - 1, st);
      ghost var s2, c2, w2 := a[..], st.comparisons, st.swaps;
      QuickSort(a, p + 1, high, st);
      QuickModel.QuickJoin(s1, s2, a[..], low, p, high);
      QuickModel.QuickCounts(c0, c1, c2, st.comparisons, w0, w1, w2, st.swaps, low, p, high);
      if QuickModel.Ascending(s0, low, high + 1) {
        QuickModel.QuickAscending(s0, s1, s2, a[..], c0, c2, st.comparisons, w0, w2, st.swaps, low, p, high);
      }
    }
  }
}
