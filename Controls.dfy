/** The playback controls of the visualiser: the three flags and the two
    counters they act on, starting, pausing, stopping and completing a run,
    and the generation of a fresh array from random draws. */
module Controls {
  import opened SortSpec
  import Sorts
  import BubbleModel
  import SelectionModel
  import InsertionModel
  import MergeModel

  /** The five choices of the algorithm selector. */
  datatype Algorithm = Bubble | Selection | Insertion | Merge | Quick

  /** The playback flags isSorting, isPaused and shouldStop. */
  datatype Flags = Flags(sorting: bool, paused: bool, stopping: bool)

  /** The combinations the controls can reach from the initial state: a
      pause only during a run, and no pending stop during one. */
  predicate Consistent(f: Flags) {
    (f.paused ==> f.sorting) && (f.sorting ==> !f.stopping)
  }

  /** The flags before any control has been used. */
  const Initial := Flags(false, false, false)

  /** Starting: refused during a run; otherwise a run begins with no stop
      pending. From consistent flags a run is then in progress and
      generation is refused; a pause is never changed. */
  function Started(f: Flags): (r: Flags)
    ensures Consistent(f) ==> r.sorting && GenerateRefused(r)
    ensures r.paused == f.paused
  {
    if f.sorting then f else f.(sorting := true, stopping := false)
  }

  /** Pausing and resuming flip the pause flag during a run and do nothing
      otherwise; the restart that resuming requests is refused, a run being
      in progress. */
  function Toggled(f: Flags): (r: Flags)
    ensures !f.sorting ==> r == f
    ensures f.sorting ==> r.paused == !f.paused && r.sorting && r.stopping == f.stopping
  {
    if !f.sorting then f
    else
      var g := f.(paused := !f.paused);
      if !g.paused then Started(g) else g
  }

  /** Stopping during a run requests the stop and ends the run, unpaused;
      outside a run it does nothing. Afterwards nothing runs, generation is
      accepted, and a stop is pending exactly when one was requested during
      a run or was already pending. */
  function Stopped(f: Flags): (r: Flags)
    ensures !r.sorting && !GenerateRefused(r)
    ensures r.stopping <==> f.sorting || f.stopping
  {
    if !f.sorting then f else Flags(false, false, true)
  }

  /** A run that was not stopped completes: no run, no pause. Whatever the
      flags were, the result is consistent and generation is accepted; a
      pending stop is kept. */
  function Completed(f: Flags): (r: Flags)
    ensures Consistent(r) && !GenerateRefused(r)
    ensures r.stopping == f.stopping
  {
    f.(sorting := false, paused := false)
  }

  /** Whether generating a new array is refused. */
  predicate GenerateRefused(f: Flags) {
    f.sorting && !f.stopping
  }

  lemma InitialConsistent()
    ensures Consistent(Initial) && !GenerateRefused(Initial)
  {
  }

  /** Every control keeps the flags consistent. */
  lemma ControlsKeepConsistent(f: Flags)
    requires Consistent(f)
    ensures Consistent(Started(f)) && Consistent(Toggled(f))
    ensures Consistent(Stopped(f)) && Consistent(Completed(f))
  {
  }

  /** On consistent flags, generation is refused exactly during a run: the
      shouldStop half of its guard never decides anything. */
  lemma GenerateRefusedIffSorting(f: Flags)
    requires Consistent(f)
    ensures GenerateRefused(f) <==> f.sorting
  {
  }

  /** Pausing then resuming, or resuming then pausing, restores the flags. */
  lemma TogglePauseTwice(f: Flags)
    ensures Toggled(Toggled(f)) == f
  {
  }

  /** A second start is refused, as is a second stop. */
  lemma StartStopIdempotent(f: Flags)
    ensures Started(Started(f)) == Started(f)
    ensures Stopped(Stopped(f)) == Stopped(f)
  {
  }

  /** After a stop nothing runs and a new start is accepted, clearing the
      pending stop; the only way back into a run from a stop is a start. */
  lemma StopThenStart(f: Flags)
    requires Consistent(f) && f.sorting
    ensures !Stopped(f).sorting && Stopped(f).stopping && !GenerateRefused(Stopped(f))
    ensures Started(Stopped(f)) == Flags(true, false, false)
    ensures Toggled(Stopped(f)) == Stopped(f) && Completed(Stopped(f)).stopping
  {
  }

  /** The value one draw of Math.random(), in [0, 1), gives a bar:
      floor(draw * 100) + 5. */
  function BarValue(draw: real): (v: int)
    requires 0.0 <= draw < 1.0
    ensures 5 <= v <= 104
  {
    (draw * 100.0).Floor + 5
  }

  /** Every draw lies in [0, 1). */
  predicate ValidDraws(draws: seq<real>) {
    forall i :: 0 <= i < |draws| ==> 0.0 <= draws[i] < 1.0
  }

  /** The bars a sequence of draws gives, in order. */
  function Bars(draws: seq<real>): (r: seq<int>)
    requires ValidDraws(draws)
    ensures |r| == |draws|
  {
    if draws == [] then [] else Bars(draws[..|draws| - 1]) + [BarValue(draws[|draws| - 1])]
  }

  /** Bar i is the value of draw i, so every bar lies in [5, 104]. */
  lemma {:induction false} BarsAreValues(draws: seq<real>)
    requires ValidDraws(draws)
    ensures forall i :: 0 <= i < |draws| ==> Bars(draws)[i] == BarValue(draws[i])
    ensures forall i :: 0 <= i < |draws| ==> 5 <= Bars(draws)[i] <= 104
  {
    if draws != [] {
      var init := draws[..|draws| - 1];
      assert ValidDraws(init);
      BarsAreValues(init);
    }
  }

  /** Whichever sort is selected, a run ends with the same array: the
      references of bubble, selection, insertion and merge sort all equal
      any sorted permutation t of the input, such as the one quick sort
      leaves behind. */
  lemma SortsAgree(s: seq<int>, t: seq<int>)
    requires Sorted(t) && multiset(t) == multiset(s)
    ensures BubbleModel.BubbleSort(s) == t && SelectionModel.SelectionSort(s) == t
    ensures InsertionModel.InsertionSort(s) == t && MergeModel.MergeSort(s) == t
  {
    BubbleModel.BubbleSortSortedPermutation(s);
    SortedPermutationUnique(BubbleModel.BubbleSort(s), t);
    SelectionModel.SelectionSortSortedPermutation(s);
    SortedPermutationUnique(SelectionModel.SelectionSort(s), t);
    InsertionModel.InsertionSortFacts(s);
    SortedPermutationUnique(InsertionModel.InsertionSort(s), t);
    MergeModel.MergeSortSortedPermutation(s);
    SortedPermutationUnique(MergeModel.MergeSort(s), t);
  }

  /** The visualiser's global state, restricted to what the controls and the
      sorts read and write. */
  class Visualizer {
    /** The global `array`: the bars shown. */
    var values: seq<int>
    var arraySize: nat
    var algorithm: Algorithm
    var isSorting: bool
    var isPaused: bool
    var shouldStop: bool
    const stats: Sorts.Stats

    function FlagsOf(): Flags
      reads this
    {
      Flags(isSorting, isPaused, shouldStop)
    }

    ghost predicate Valid()
      reads this
    {
      Consistent(FlagsOf())
    }

    constructor (size: nat, choice: Algorithm)
      ensures Valid() && FlagsOf() == Initial
      ensures values == [] && arraySize == size && algorithm == choice
      ensures fresh(stats) && stats.comparisons == 0 && stats.swaps == 0
    {
      values, arraySize, algorithm := [], size, choice;
      isSorting, isPaused, shouldStop := false, false, false;
      stats := new Sorts.Stats();
    }

    /** Both counters back to zero; the flags and the array stay. */
    method ResetState()
      modifies stats
      ensures stats.comparisons == 0 && stats.swaps == 0
    {
      stats.comparisons, stats.swaps := 0, 0;
    }

    /** The synchronous part of the sort button: refused during a run;
        otherwise the counters are reset and a run begins. The run itself is
        RunSorting. */
    method StartSorting()
      requires Valid()
      modifies this, stats
      ensures Valid() && FlagsOf() == Started(old(FlagsOf()))
      ensures values == old(values) && arraySize == old(arraySize) && algorithm == old(algorithm)
      ensures old(isSorting) ==> stats.comparisons == old(stats.comparisons) && stats.swaps == old(stats.swaps)
      ensures !old(isSorting) ==> stats.comparisons == 0 && stats.swaps == 0
    {
      ControlsKeepConsistent(FlagsOf());
      if isSorting {
        return;
      }
      ResetState();
      isSorting := true;
      shouldStop := false;
    }

    /** A run started by StartSorting, carried to its end without a stop:
        the selected sort runs on a copy of the array, the array shown ends
        as the sorted copy, and the completion callback ends the run. */
    method RunSorting()
      requires Valid() && isSorting
      modifies this, stats
      ensures Valid() && FlagsOf() == Completed(old(FlagsOf()))
      ensures Sorted(values) && multiset(values) == multiset(old(values))
      ensures arraySize == old(arraySize) && algorithm == old(algorithm)
    {
      var source := values;
      var a := new int[|source|](i requires 0 <= i < |source| => source[i]);
      assert a[..] == source;
      match algorithm {
        case Bubble =>
          Sorts.BubbleSort(a, stats);
          values := a[..];
        case Selection =>
          Sorts.SelectionSort(a, stats);
          values := a[..];
        case Insertion =>
          Sorts.InsertionSort(a, stats);
          values := a[..];
        case Merge =>
          var merged := Sorts.MergeSort(a[..], stats);
          values := merged;
        case Quick =>
          Sorts.QuickSort(a, 0, a.Length - 1, stats);
          SortedRangeWhole(a[..]);
          values := a[..];
      }
      if !shouldStop {
        CompleteSorting();
      }
    }

    /** The pause button: flips the pause flag during a run; on resuming it
        asks for a start, which the running sort refuses. */
    method TogglePause()
      requires Valid()
      modifies this, stats
      ensures Valid() && FlagsOf() == Toggled(old(FlagsOf()))
      ensures values == old(values) && arraySize == old(arraySize) && algorithm == old(algorithm)
      ensures stats.comparisons == old(stats.comparisons) && stats.swaps == old(stats.swaps)
    {
      ControlsKeepConsistent(FlagsOf());
      if !isSorting {
        return;
      }
      isPaused := !isPaused;
      if !isPaused {
        StartSorting();
      }
    }

    /** The stop button: during a run, requests the stop and ends the run. */
    method StopSorting()
      requires Valid()
      modifies this
      ensures Valid() && FlagsOf() == Stopped(old(FlagsOf()))
      ensures values == old(values) && arraySize == old(arraySize) && algorithm == old(algorithm)
    {
      ControlsKeepConsistent(FlagsOf());
      if !isSorting {
        return;
      }
      shouldStop := true;
      isSorting := false;
      isPaused := false;
    }

    /** The end of a run that was not stopped. */
    method CompleteSorting()
      requires Valid()
      modifies this
      ensures Valid() && FlagsOf() == Completed(old(FlagsOf()))
      ensures values == old(values) && arraySize == old(arraySize) && algorithm == old(algorithm)
    {
      ControlsKeepConsistent(FlagsOf());
      isSorting := false;
      isPaused := false;
    }

    /** The generate button (and the size slider): refused during a run that
        is not being stopped; otherwise the counters are reset and the array
        replaced by arraySize bars, one per draw of Math.random(). */
    method GenerateNewArray(draws: seq<real>)
      requires Valid() && |draws| == arraySize && ValidDraws(draws)
      modifies this, stats
      ensures Valid() && FlagsOf() == old(FlagsOf()) && arraySize == old(arraySize) && algorithm == old(algorithm)
      ensures GenerateRefused(old(FlagsOf())) ==>
                values == old(values)
                && stats.comparisons == old(stats.comparisons) && stats.swaps == old(stats.swaps)
      ensures !GenerateRefused(old(FlagsOf())) ==>
                values == Bars(draws) && stats.comparisons == 0 && stats.swaps == 0
      ensures !GenerateRefused(old(FlagsOf())) ==>
                |values| == arraySize && forall i :: 0 <= i < |values| ==> 5 <= values[i] <= 104
    {
      if isSorting && !shouldStop {
        return;
      }
      ResetState();
      values := [];
      var i := 0;
      while i < arraySize
        invariant 0 <= i <= |draws| && ValidDraws(draws[..i])
        invariant values == Bars(draws[..i])
        invariant arraySize == old(arraySize) && FlagsOf() == old(FlagsOf()) && algorithm == old(algorithm)
        invariant stats.comparisons == 0 && stats.swaps == 0
      {
        assert draws[..i + 1][..i] == draws[..i];
        values := values + [BarValue(draws[i])];
        i := i + 1;
      }
      assert draws[..i] == draws;
      BarsAreValues(draws);
    }
  }
}
