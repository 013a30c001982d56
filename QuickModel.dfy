/** The visualiser's quick sort. The Lomuto partition around the last
    element of a segment has a functional reference, step for step the
    scan of the source, with the counts it makes. The recursive sort has no
    reference function: it is specified by properties (a sorted segment,
    the same elements, nothing outside it moved, bounds on the counts that
    are met exactly on a strictly ascending segment), and the lemmas here
    join the partition's facts with those of the two recursive calls. */
module QuickModel {
  import opened SortSpec

  /** Every element of s[lo..hi] is at most x. */
  predicate AllAtMost(s: seq<int>, lo: int, hi: int, x: int)
    requires 0 <= lo <= hi <= |s|
  {
    forall k :: lo <= k < hi ==> s[k] <= x
  }

  /** Every element of s[lo..hi] is smaller than x. */
  predicate AllBelow(s: seq<int>, lo: int, hi: int, x: int)
    requires 0 <= lo <= hi <= |s|
  {
    forall k :: lo <= k < hi ==> s[k] < x
  }

  /** Number of elements of s[lo..hi] that are smaller than x. */
  function CountBelow(s: seq<int>, lo: int, hi: int, x: int): (c: nat)
    requires 0 <= lo <= hi <= |s|
    ensures c <= hi - lo
    decreases hi - lo
  {
    if lo == hi then 0 else (if s[lo] < x then 1 else 0) + CountBelow(s, lo + 1, hi, x)
  }

  /** The count depends only on the counted range. */
  lemma {:induction false} CountBelowFrame(s: seq<int>, t: seq<int>, lo: int, hi: int, x: int)
    requires 0 <= lo <= hi <= |s| == |t|
    requires forall k :: lo <= k < hi ==> s[k] == t[k]
    ensures CountBelow(s, lo, hi, x) == CountBelow(t, lo, hi, x)
    decreases hi - lo
  {
    if lo < hi {
      CountBelowFrame(s, t, lo + 1, hi, x);
    }
  }

  /** Every element below x is counted exactly when the count is the
      length of the range. */
  lemma {:induction false} CountBelowAll(s: seq<int>, lo: int, hi: int, x: int)
    requires 0 <= lo <= hi <= |s|
    ensures CountBelow(s, lo, hi, x) == hi - lo <==> AllBelow(s, lo, hi, x)
    decreases hi - lo
  {
    if lo < hi {
      CountBelowAll(s, lo + 1, hi, x);
    }
  }

  /** Every element of s[lo..hi] is at least x. */
  predicate AllAtLeast(s: seq<int>, lo: int, hi: int, x: int)
    requires 0 <= lo <= hi <= |s|
  {
    forall k :: lo <= k < hi ==> x <= s[k]
  }

  /** s[lo..hi] is in strictly ascending order. */
  predicate IncreasingRange(s: seq<int>, lo: int, hi: int)
    requires 0 <= lo <= hi <= |s|
  {
    forall k, l :: lo <= k < l < hi ==> s[k] < s[l]
  }

  /** t differs from s at most inside [lo, hi). */
  predicate SameOutside(s: seq<int>, t: seq<int>, lo: int, hi: int) {
    |t| == |s| && forall k :: 0 <= k < |s| && (k < lo || hi <= k) ==> t[k] == s[k]
  }

  /** The rest of the partition scan from position i, with the boundary at
      p: an element strictly below the pivot is exchanged to the boundary,
      which then moves right. The result is the sequence and the final
      boundary. */
  function ScanFrom(s: seq<int>, pivot: int, i: nat, p: nat, high: nat): (r: (seq<int>, nat))
    requires p <= i <= high < |s|
    ensures |r.0| == |s| && p <= r.1 <= high
    decreases high - i
  {
    if i == high then (s, p)
    else if s[i] < pivot then ScanFrom(Swap(s, i, p), pivot, i + 1, p + 1, high)
    else ScanFrom(s, pivot, i + 1, p, high)
  }

  /** The partition of s[low..high] around the pivot s[high]: scan, then
      exchange the pivot onto the final boundary, which is returned. */
  function Partition(s: seq<int>, low: nat, high: nat): (r: (seq<int>, nat))
    requires low < high < |s|
    ensures |r.0| == |s| && low <= r.1 <= high
  {
    var r := ScanFrom(s, s[high], low, low, high);
    (Swap(r.0, r.1, high), r.1)
  }

  /** t and p are what the reference partition of s[low..high] gives. */
  predicate IsPartition(s: seq<int>, low: nat, high: nat, t: seq<int>, p: nat)
    requires low < high < |s|
  {
    Partition(s, low, high) == (t, p)
  }

  /** The scan over the whole segment followed by the pivot exchange is the
      reference partition. */
  lemma ScanThenPivot(s: seq<int>, low: nat, high: nat, t: seq<int>, p: nat)
    requires low < high < |s| && ScanFrom(s, s[high], low, low, high) == (t, p)
    ensures p <= high && |t| == |s| && IsPartition(s, low, high, Swap(t, p, high), p)
  {
  }

  /** The scan leaves everything below position p and from high on alone,
      and ends with the elements below the pivot before the boundary and
      the others from it up to high. */
  lemma {:induction false} ScanFromSplits(s: seq<int>, pivot: int, low: nat, i: nat, p: nat, high: nat)
    requires low <= p <= i <= high < |s|
    requires forall k :: low <= k < p ==> s[k] < pivot
    requires forall k :: p <= k < i ==> s[k] >= pivot
    ensures var (t, q) := ScanFrom(s, pivot, i, p, high);
      && SameOutside(s, t, p, high)
      && (forall k :: low <= k < q ==> t[k] < pivot)
      && (forall k :: q <= k < high ==> t[k] >= pivot)
    decreases high - i
  {
    if i < high {
      if s[i] < pivot {
        ScanFromSplits(Swap(s, i, p), pivot, low, i + 1, p + 1, high);
      } else {
        ScanFromSplits(s, pivot, low, i + 1, p, high);
      }
    }
  }

  /** After the partition the pivot sits on the returned boundary, nothing
      before it is larger, nothing after it up to high is smaller, and
      nothing outside [low, high] has moved. */
  lemma PartitionSplits(s: seq<int>, low: nat, high: nat)
    requires low < high < |s|
    ensures var (t, p) := Partition(s, low, high);
      && t[p] == s[high]
      && AllBelow(t, low, p, t[p]) && AllAtLeast(t, p + 1, high + 1, t[p])
      && SameOutside(s, t, low, high + 1)
  {
    ScanFromSplits(s, s[high], low, low, low, high);
  }

  /** The scan examines each position before anything is exchanged into
      it, so the boundary advances once per original element below the
      pivot. */
  lemma {:induction false} ScanFromCount(s: seq<int>, pivot: int, i: nat, p: nat, high: nat)
    requires p <= i <= high < |s|
    ensures ScanFrom(s, pivot, i, p, high).1 == p + CountBelow(s, i, high, pivot)
    decreases high - i
  {
    if i < high {
      if s[i] < pivot {
        var s' := Swap(s, i, p);
        CountBelowFrame(s', s, i + 1, high, pivot);
        ScanFromCount(s', pivot, i + 1, p + 1, high);
      } else {
        ScanFromCount(s, pivot, i + 1, p, high);
      }
    }
  }

  /** The scan keeps the elements of the sequence. */
  lemma {:induction false} ScanFromPermutes(s: seq<int>, pivot: int, i: nat, p: nat, high: nat)
    requires p <= i <= high < |s|
    ensures multiset(ScanFrom(s, pivot, i, p, high).0) == multiset(s)
    decreases high - i
  {
    if i < high {
      if s[i] < pivot {
        var s' := Swap(s, i, p);
        SwapPermutes(s, i, p);
        ScanFromPermutes(s', pivot, i + 1, p + 1, high);
        assert ScanFrom(s, pivot, i, p, high) == ScanFrom(s', pivot, i + 1, p + 1, high);
      } else {
        ScanFromPermutes(s, pivot, i + 1, p, high);
        assert ScanFrom(s, pivot, i, p, high) == ScanFrom(s, pivot, i + 1, p, high);
      }
    }
  }

  /** The scan moves elements only among positions p..high - 1, so a bound
      on a range around those positions survives it. */
  lemma {:induction false} ScanFromKeepsBounds(s: seq<int>, pivot: int, i: nat, p: nat, high: nat,
                                               lo: nat, hi: nat, x: int)
    requires lo <= p <= i <= high < hi <= |s|
    ensures var t := ScanFrom(s, pivot, i, p, high).0;
      && (AllAtMost(s, lo, hi, x) ==> AllAtMost(t, lo, hi, x))
      && (AllAtLeast(s, lo, hi, x) ==> AllAtLeast(t, lo, hi, x))
    decreases high - i
  {
    if i < high {
      if s[i] < pivot {
        ScanFromKeepsBounds(Swap(s, i, p), pivot, i + 1, p + 1, high, lo, hi, x);
      } else {
        ScanFromKeepsBounds(s, pivot, i + 1, p, high, lo, hi, x);
      }
    }
  }

  /** The partition keeps the elements of the sequence and any bound on a
      range around the segment. */
  lemma PartitionKeeps(s: seq<int>, low: nat, high: nat, lo: nat, hi: nat, x: int)
    requires lo <= low < high < hi <= |s|
    ensures var t := Partition(s, low, high).0;
      && multiset(t) == multiset(s)
      && (AllAtMost(s, lo, hi, x) ==> AllAtMost(t, lo, hi, x))
      && (AllAtLeast(s, lo, hi, x) ==> AllAtLeast(t, lo, hi, x))
  {
    var t, p := ScanFrom(s, s[high], low, low, high).0, ScanFrom(s, s[high], low, low, high).1;
    ScanFromPermutes(s, s[high], low, low, high);
    ScanFromKeepsBounds(s, s[high], low, low, high, lo, hi, x);
    SwapPermutes(t, p, high);
  }

  /** Equal surroundings cancel out of equal multisets. */
  lemma MultisetCancel(u: seq<int>, x: seq<int>, y: seq<int>, v: seq<int>)
    requires multiset(u + x + v) == multiset(u + y + v)
    ensures multiset(x) == multiset(y)
  {
    forall e
      ensures multiset(x)[e] == multiset(y)[e]
    {
      assert multiset(u + x + v)[e] == multiset(u)[e] + multiset(x)[e] + multiset(v)[e];
      assert multiset(u + y + v)[e] == multiset(u)[e] + multiset(y)[e] + multiset(v)[e];
    }
  }

  /** A sequence that keeps its elements and changes only inside [lo, hi)
      keeps the elements of that slice. */
  lemma SegmentMultiset(s: seq<int>, t: seq<int>, lo: nat, hi: nat)
    requires lo <= hi <= |s| && SameOutside(s, t, lo, hi) && multiset(t) == multiset(s)
    ensures multiset(t[lo..hi]) == multiset(s[lo..hi])
  {
    assert s == s[..lo] + s[lo..hi] + s[hi..];
    assert t == s[..lo] + t[lo..hi] + s[hi..];
    MultisetCancel(s[..lo], t[lo..hi], s[lo..hi], s[hi..]);
  }

  /** Rearranging a slice keeps every bound on it. */
  lemma SlicePermKeepsBounds(s: seq<int>, t: seq<int>, lo: nat, hi: nat, x: int)
    requires lo <= hi <= |s| == |t| && multiset(t[lo..hi]) == multiset(s[lo..hi])
    ensures AllAtMost(s, lo, hi, x) ==> AllAtMost(t, lo, hi, x)
    ensures AllAtLeast(s, lo, hi, x) ==> AllAtLeast(t, lo, hi, x)
  {
    forall k | lo <= k < hi
      ensures exists m :: lo <= m < hi && s[m] == t[k]
    {
      assert t[k] == t[lo..hi][k - lo];
      assert t[k] in multiset(s[lo..hi]);
      var m' :| 0 <= m' < hi - lo && s[lo..hi][m'] == t[k];
      assert s[lo + m'] == t[k];
    }
  }

  /** Two sorted runs, the pivot between them bounding both, make one sorted run. */
  lemma JoinAroundPivot(r: seq<int>, low: nat, p: nat, high: nat)
    requires low <= p <= high < |r|
    requires SortedRange(r, low, p) && SortedRange(r, p + 1, high + 1)
    requires AllAtMost(r, low, p, r[p]) && AllAtLeast(r, p + 1, high + 1, r[p])
    ensures SortedRange(r, low, high + 1)
  {
  }

  /** A bound on [lo, hi) carries over to any sequence that agrees there. */
  lemma BoundsAcrossFrame(s: seq<int>, t: seq<int>, lo: nat, hi: nat, a: int, b: int, x: int)
    requires SameOutside(s, t, a, b) && lo <= hi <= |s| && (hi <= a || b <= lo)
    ensures AllAtMost(s, lo, hi, x) ==> AllAtMost(t, lo, hi, x)
    ensures AllAtLeast(s, lo, hi, x) ==> AllAtLeast(t, lo, hi, x)
    ensures SortedRange(s, lo, hi) ==> SortedRange(t, lo, hi)
  {
  }

  /** The pairs among a + b + 1 elements cover those within a group of a,
      those within a group of b, and one per element paired with a pivot. */
  lemma PairsAroundPivot(a: nat, b: nat)
    ensures Pairs(a) + Pairs(b) + (a + b) <= Pairs(a + b + 1)
  {
    PairsSplit(a, b);
  }

  /** On a strictly ascending segment every scanned element is below the
      pivot and is exchanged with itself, so the scan changes nothing and
      the boundary runs up to high. */
  lemma {:induction false} ScanFromIncreasing(s: seq<int>, pivot: int, i: nat, high: nat)
    requires i <= high < |s|
    requires forall k :: i <= k < high ==> s[k] < pivot
    ensures ScanFrom(s, pivot, i, i, high) == (s, high)
    decreases high - i
  {
    if i < high {
      assert Swap(s, i, i) == s;
      ScanFromIncreasing(s, pivot, i + 1, high);
    }
  }

  /** On a strictly ascending segment the partition changes nothing and
      returns high: the pivot is already the largest element. */
  lemma PartitionIncreasing(s: seq<int>, low: nat, high: nat)
    requires low < high < |s| && IncreasingRange(s, low, high + 1)
    ensures Partition(s, low, high) == (s, high)
  {
    ScanFromIncreasing(s, s[high], low, high);
    assert Swap(s, high, high) == s;
  }

  /** t is s partitioned around s[high] at p: the pivot on p, everything
      before it in the segment smaller and nothing after it smaller,
      nothing outside [low, high] moved, the same elements; and when
      s[low..high] is strictly ascending, t is s with p at high. */
  predicate Partitioned(s: seq<int>, t: seq<int>, low: int, high: int, p: int)
    requires 0 <= low <= p <= high < |s|
  {
    && |t| == |s| && t[p] == s[high]
    && AllBelow(t, low, p, t[p]) && AllAtLeast(t, p + 1, high + 1, t[p])
    && SameOutside(s, t, low, high + 1)
    && multiset(t) == multiset(s)
    && (Ascending(s, low, high + 1) ==> t == s && p == high)
  }

  /** What the partition achieves: the pivot on the returned boundary,
      nothing larger before it and nothing smaller after it up to high,
      nothing outside [low, high] moved, the same elements, and a strictly
      ascending segment left as it is with the boundary at high. */
  lemma PartitionSpec(s: seq<int>, low: nat, high: nat, t: seq<int>, p: nat)
    requires low < high < |s| && IsPartition(s, low, high, t, p)
    ensures low <= p <= high
    ensures Partitioned(s, t, low, high, p) && p == low + CountBelow(s, low, high, s[high])
  {
    PartitionSplits(s, low, high);
    PartitionKeeps(s, low, high, low, high + 1, 0);
    ScanFromCount(s, s[high], low, low, high);
    AscendingIsIncreasing(s, low, high + 1);
    if IncreasingRange(s, low, high + 1) {
      PartitionIncreasing(s, low, high);
    }
  }

  /** The swaps quick sort counts on a strictly ascending segment of m
      elements: m + (m - 1) + ... + 2. */
  function AscendingSwaps(m: nat): nat {
    if m == 0 then 0 else Pairs(m + 1) - 1
  }

  /** The swaps of a partition of two or more elements that leaves a of
      them before the pivot and b after it, plus the ascending-case counts of both sides, stay within
      the ascending-case count of the whole segment. */
  lemma SwapsAroundPivot(a: nat, b: nat)
    requires a + b >= 1
    ensures (a + 1) + AscendingSwaps(a) + AscendingSwaps(b) <= AscendingSwaps(a + b + 1)
  {
    PairsSplit(a + 1, b + 1);
    var m := (a + 1) * (b + 1);
    assert m == (a + 1) * b + (a + 1);
    assert (a + 1) * b >= 0;
  }

  /** One more element on a strictly ascending segment adds m comparisons
      and m + 1 swaps. */
  lemma AscendingStep(m: nat)
    requires m >= 1
    ensures Pairs(m + 1) == Pairs(m) + m
    ensures AscendingSwaps(m + 1) == AscendingSwaps(m) + (m + 1)
  {
  }

  /** One level of quick sort, partition then the two recursive sorts,
      keeps the partition's separation around the pivot, so the whole
      segment ends sorted with nothing outside it moved. */
  lemma QuickJoin(s1: seq<int>, s2: seq<int>, s3: seq<int>, low: nat, p: nat, high: nat)
    requires low <= p <= high < |s1| && |s2| == |s1| && |s3| == |s1|
    requires AllBelow(s1, low, p, s1[p]) && AllAtLeast(s1, p + 1, high + 1, s1[p])
    requires SortedRange(s2, low, p) && SameOutside(s1, s2, low, p) && multiset(s2) == multiset(s1)
    requires SortedRange(s3, p + 1, high + 1) && SameOutside(s2, s3, p + 1, high + 1)
    requires multiset(s3) == multiset(s2)
    ensures SortedRange(s3, low, high + 1) && SameOutside(s1, s3, low, high + 1)
  {
    var pivot := s1[p];
    assert AllAtMost(s1, low, p, pivot);
    SegmentMultiset(s1, s2, low, p);
    SlicePermKeepsBounds(s1, s2, low, p, pivot);
    BoundsAcrossFrame(s1, s2, p + 1, high + 1, low, p, pivot);
    SegmentMultiset(s2, s3, p + 1, high + 1);
    SlicePermKeepsBounds(s2, s3, p + 1, high + 1, pivot);
    BoundsAcrossFrame(s2, s3, low, p, p + 1, high + 1, pivot);
    assert s3[p] == pivot;
    JoinAroundPivot(s3, low, p, high);
  }

  /** The counters of one level of quick sort stay within the bounds when
      those of both recursive sorts do: c and w are the comparison and swap
      totals before the partition (0), after it (1), after the left sort (2) and after the
      right sort (3). */
  lemma QuickCounts(c0: int, c1: int, c2: int, c3: int, w0: int, w1: int, w2: int, w3: int,
                    low: nat, p: nat, high: nat)
    requires low <= p <= high && low < high
    requires c1 == c0 + (high - low) && w1 == w0 + (p - low) + 1
    requires c1 <= c2 <= c1 + Pairs(p - 1 + 1 - low)
    requires c2 <= c3 <= c2 + Pairs(high + 1 - (p + 1))
    requires w1 <= w2 <= w1 + AscendingSwaps(p - 1 + 1 - low)
    requires w2 <= w3 <= w2 + AscendingSwaps(high + 1 - (p + 1))
    ensures c0 <= c3 <= c0 + Pairs(high + 1 - low)
    ensures w0 <= w3 <= w0 + AscendingSwaps(high + 1 - low)
  {
    PairsAroundPivot(p - low, high - p);
    SwapsAroundPivot(p - low, high - p);
  }

  /** On a strictly ascending segment the partition leaves everything in
      place with the pivot at high, the left sort gets a strictly ascending
      segment one shorter and the right one is empty; so nothing moves and
      both counters meet their bounds exactly. */
  lemma QuickAscending(s0: seq<int>, s1: seq<int>, s2: seq<int>, s3: seq<int>,
                       c0: int, c2: int, c3: int, w0: int, w2: int, w3: int,
                       low: nat, p: nat, high: nat)
    requires low < high < |s0| && |s1| == |s0| && |s2| == |s0| && Ascending(s0, low, high + 1)
    requires s1 == s0 && p == high
    requires Ascending(s1, low, p) ==>
               s2 == s1 && c2 == c0 + (high - low) + Pairs(p - low)
               && w2 == w0 + (p - low) + 1 + AscendingSwaps(p - low)
    requires Ascending(s2, p + 1, high + 1) ==>
               s3 == s2 && c3 == c2 + Pairs(high - p) && w3 == w2 + AscendingSwaps(high - p)
    ensures s3 == s0 && c3 == c0 + Pairs(high + 1 - low) && w3 == w0 + AscendingSwaps(high + 1 - low)
  {
    AscendingPrefix(s0, low, high + 1);
    AscendingStep(high - low);
  }

  /** s[lo..hi] is strictly ascending, neighbour by neighbour. */
  predicate Ascending(s: seq<int>, lo: int, hi: int)
    requires 0 <= lo <= hi <= |s|
    decreases hi - lo
  {
    hi - lo < 2 || (s[lo] < s[lo + 1] && Ascending(s, lo + 1, hi))
  }

  lemma {:induction false} AscendingIsIncreasing(s: seq<int>, lo: int, hi: int)
    requires 0 <= lo <= hi <= |s|
    ensures Ascending(s, lo, hi) <==> IncreasingRange(s, lo, hi)
    decreases hi - lo
  {
    if hi - lo >= 2 {
      AscendingIsIncreasing(s, lo + 1, hi);
    }
  }

  lemma {:induction false} AscendingPrefix(s: seq<int>, lo: int, hi: int)
    requires 0 <= lo < hi <= |s| && Ascending(s, lo, hi)
    ensures Ascending(s, lo, hi - 1)
    decreases hi - lo
  {
    if hi - lo >= 3 {
      AscendingPrefix(s, lo + 1, hi);
    }
  }
}
