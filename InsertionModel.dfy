/** A functional reference for insertion sort. The inner loop works on the
    sequence with a "hole" at j + 1: the key has been lifted out, and each
    shift copies s[j] one place right. Placing the key into the hole gives
    the sequence the sort conceptually holds. */
module InsertionModel {
  import opened SortSpec

  /** The rest of the inner loop from hole j + 1: shift while s[j] > key,
      then drop the key into the hole. */
  function ShiftInsert(s: seq<int>, j: int, key: int): (r: seq<int>)
    requires -1 <= j < |s| - 1
    ensures |r| == |s|
    decreases j + 1
  {
    if j >= 0 && s[j] > key then ShiftInsert(s[j + 1 := s[j]], j - 1, key)
    else s[j + 1 := key]
  }

  /** The shifts the rest of that inner loop performs. */
  function Shifts(s: seq<int>, j: int, key: int): nat
    requires -1 <= j < |s| - 1
    decreases j + 1
  {
    if j >= 0 && s[j] > key then 1 + Shifts(s[j + 1 := s[j]], j - 1, key) else 0
  }

  /** The sequence after outer iterations i, i + 1, ..., |s| - 1; iteration
      i lifts out s[i] and inserts it into s[..i]. */
  function InsertionFrom(s: seq<int>, i: nat): (r: seq<int>)
    requires 1 <= i
    ensures |r| == |s|
    decreases |s| - i
  {
    if i >= |s| then s else InsertionFrom(ShiftInsert(s, i - 1, s[i]), i + 1)
  }

  /** The shifts those outer iterations perform. */
  function InsertionShiftsFrom(s: seq<int>, i: nat): nat
    requires 1 <= i
    decreases |s| - i
  {
    if i >= |s| then 0
    else Shifts(s, i - 1, s[i]) + InsertionShiftsFrom(ShiftInsert(s, i - 1, s[i]), i + 1)
  }

  /** Insertion sort on s: all outer iterations from the second position. */
  function InsertionSort(s: seq<int>): seq<int> {
    InsertionFrom(s, 1)
  }

  /** A shift, seen with the key in the hole, exchanges the key with the
      larger element to its left: the elements stay the same and exactly one
      inversion goes away. */
  lemma ShiftStep(s: seq<int>, j: nat, key: int)
    requires j + 1 < |s| && s[j] > key
    ensures multiset(s[j + 1 := s[j]][j := key]) == multiset(s[j + 1 := key])
    ensures Inversions(s[j + 1 := s[j]][j := key]) + 1 == Inversions(s[j + 1 := key])
  {
    var f := s[j + 1 := key];
    assert s[j + 1 := s[j]][j := key] == Swap(f, j, j + 1);
    SwapPermutes(f, j, j + 1);
    InversionsSwapAdj(f, j);
  }

  /** The inner loop keeps the elements of the filled sequence. */
  lemma {:induction false} ShiftInsertPermutes(s: seq<int>, j: int, key: int)
    requires -1 <= j < |s| - 1
    ensures multiset(ShiftInsert(s, j, key)) == multiset(s[j + 1 := key])
    decreases j + 1
  {
    if j >= 0 && s[j] > key {
      var s' := s[j + 1 := s[j]];
      assert s'[j - 1 + 1 := key] == s'[j := key];
      ShiftInsertPermutes(s', j - 1, key);
      ShiftStep(s, j, key);
      assert ShiftInsert(s, j, key) == ShiftInsert(s', j - 1, key);
    }
  }

  /** Each shift of the inner loop removes one inversion from the filled
      sequence. */
  lemma {:induction false} ShiftInsertInversions(s: seq<int>, j: int, key: int)
    requires -1 <= j < |s| - 1
    ensures Shifts(s, j, key) + Inversions(ShiftInsert(s, j, key)) == Inversions(s[j + 1 := key])
    decreases j + 1
  {
    if j >= 0 && s[j] > key {
      var s' := s[j + 1 := s[j]];
      var f := s'[j := key];
      assert s'[j - 1 + 1 := key] == f;
      ShiftInsertInversions(s', j - 1, key);
      ShiftStep(s, j, key);
      var rest := ShiftInsert(s', j - 1, key);
      assert ShiftInsert(s, j, key) == rest;
      assert Shifts(s, j, key) == 1 + Shifts(s', j - 1, key);
      calc {
        Shifts(s, j, key) + Inversions(rest);
        1 + (Shifts(s', j - 1, key) + Inversions(rest));
        1 + Inversions(f);
        Inversions(s[j + 1 := key]);
      }
    }
  }

  /** The shape of the inner loop's sequence up to position i: a sorted
      prefix before the hole, a sorted run of shifted elements after it,
      each larger than the key, and nothing in the prefix above the run. */
  predicate HoleShape(s: seq<int>, j: int, i: nat, key: int)
    requires -1 <= j < i < |s|
  {
    && SortedRange(s, 0, j + 1)
    && SortedRange(s, j + 2, i + 1)
    && (forall l :: j + 2 <= l <= i ==> s[l] > key)
    && (forall k, l :: 0 <= k <= j && j + 2 <= l <= i ==> s[k] <= s[l])
  }

  /** A shift keeps that shape with the hole one place further left. */
  lemma ShiftKeepsShape(s: seq<int>, j: nat, i: nat, key: int)
    requires j < i < |s| && HoleShape(s, j, i, key) && s[j] > key
    ensures HoleShape(s[j + 1 := s[j]], j - 1, i, key)
  {
  }

  /** Dropping the key into the hole sorts everything up to position i. */
  lemma FillSorts(s: seq<int>, j: int, i: nat, key: int)
    requires -1 <= j < i < |s| && HoleShape(s, j, i, key)
    requires j >= 0 ==> s[j] <= key
    ensures SortedRange(s[j + 1 := key], 0, i + 1)
  {
  }

  /** The inner loop inserts the key into a sorted prefix. */
  lemma {:induction false} ShiftInsertSorts(s: seq<int>, j: int, i: nat, key: int)
    requires -1 <= j < i < |s| && HoleShape(s, j, i, key)
    ensures SortedRange(ShiftInsert(s, j, key), 0, i + 1)
    decreases j + 1
  {
    if j >= 0 && s[j] > key {
      ShiftKeepsShape(s, j, i, key);
      ShiftInsertSorts(s[j + 1 := s[j]], j - 1, i, key);
    } else {
      FillSorts(s, j, i, key);
    }
  }

  /** The remaining outer iterations sort a sequence whose first i elements
      are sorted. */
  lemma {:induction false} InsertionFromSorts(s: seq<int>, i: nat)
    requires 1 <= i <= |s| && SortedRange(s, 0, i)
    ensures Sorted(InsertionFrom(s, i))
    decreases |s| - i
  {
    if i < |s| {
      ShiftInsertSorts(s, i - 1, i, s[i]);
      InsertionFromSorts(ShiftInsert(s, i - 1, s[i]), i + 1);
    }
  }

  /** The remaining outer iterations permute s, and each of their shifts
      removes one inversion. */
  lemma {:induction false} InsertionFromCounts(s: seq<int>, i: nat)
    requires 1 <= i
    ensures multiset(InsertionFrom(s, i)) == multiset(s)
    ensures InsertionShiftsFrom(s, i) + Inversions(InsertionFrom(s, i)) == Inversions(s)
    decreases |s| - i
  {
    if i < |s| {
      assert s[i := s[i]] == s;
      ShiftInsertPermutes(s, i - 1, s[i]);
      ShiftInsertInversions(s, i - 1, s[i]);
      InsertionFromCounts(ShiftInsert(s, i - 1, s[i]), i + 1);
    }
  }

  /** Insertion sort returns a sorted permutation of its input and shifts
      exactly once per inversion of the input. */
  lemma InsertionSortFacts(s: seq<int>)
    ensures Sorted(InsertionSort(s)) && multiset(InsertionSort(s)) == multiset(s)
    ensures InsertionShiftsFrom(s, 1) == Inversions(s)
  {
    if |s| > 0 {
      InsertionFromSorts(s, 1);
    }
    InsertionFromCounts(s, 1);
    SortedIffNoInversions(InsertionSort(s));
  }
}
