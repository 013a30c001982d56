/** Specification vocabulary shared by the five sorts of the visualiser:
    order, pair counts, element counts and inversions. */
module SortSpec {

  /** Non-decreasing order: what every sort of the visualiser produces. */
  predicate Sorted(s: seq<int>) {
    forall i, j :: 0 <= i < j < |s| ==> s[i] <= s[j]
  }

  /** Pairs(n) = 0 + 1 + ... + (n - 1), the number of unordered pairs among n positions. */
  function Pairs(n: nat): nat {
    if n == 0 then 0 else Pairs(n - 1) + (n - 1)
  }

  lemma {:induction false} PairsClosedForm(n: nat)
    ensures 2 * Pairs(n) == n * (n - 1)
  {
    if n > 0 {
      PairsClosedForm(n - 1);
      assert n * (n - 1) == (n - 1) * (n - 2) + 2 * (n - 1);
    }
  }

  /** The pairs among k + l items: those inside each group plus those across. */
  lemma {:induction false} PairsSplit(k: nat, l: nat)
    ensures Pairs(k + l) == Pairs(k) + Pairs(l) + k * l
  {
    if l > 0 {
      PairsSplit(k, l - 1);
      assert k * l == k * (l - 1) + k;
    }
  }

  /** Two non-empty groups have at least a + b - 1 pairs across them. */
  lemma {:induction false} PairsAcrossCoverMerge(a: nat, b: nat)
    requires a >= 1 && b >= 1
    ensures Pairs(a) + Pairs(b) + (a + b - 1) <= Pairs(a + b)
  {
    if b > 1 {
      PairsAcrossCoverMerge(a, b - 1);
    }
  }

  /** s[lo..hi] is in non-decreasing order. */
  predicate SortedRange(s: seq<int>, lo: int, hi: int)
    requires 0 <= lo <= hi <= |s|
  {
    forall k, l :: lo <= k < l < hi ==> s[k] <= s[l]
  }

  /** A sorted range covering the whole sequence is a sorted sequence. */
  lemma SortedRangeWhole(s: seq<int>)
    ensures SortedRange(s, 0, |s|) <==> Sorted(s)
  {
  }

  /** Two sorted sequences with the same elements start with the same,
      least, element. */
  lemma SortedSameHead(a: seq<int>, b: seq<int>)
    requires Sorted(a) && Sorted(b) && multiset(a) == multiset(b) && a != []
    ensures b != [] && a[0] == b[0]
  {
    assert a[0] in multiset(b);
    assert b[0] in multiset(a);
  }

  /** Removing a common first element keeps the remaining elements equal. */
  lemma SameTail(a: seq<int>, b: seq<int>)
    requires a != [] && b != [] && a[0] == b[0] && multiset(a) == multiset(b)
    ensures multiset(a[1..]) == multiset(b[1..])
  {
    assert a == [a[0]] + a[1..] && b == [b[0]] + b[1..];
    var ma, mb := multiset(a[1..]), multiset(b[1..]);
    assert multiset(a) == multiset{a[0]} + ma && multiset(b) == multiset{a[0]} + mb;
    forall e ensures ma[e] == mb[e] {
      assert multiset(a)[e] == multiset(b)[e];
    }
  }

  /** Two sorted sequences with the same elements are equal: a sorted
      permutation of an input is unique. */
  lemma {:induction false} SortedPermutationUnique(a: seq<int>, b: seq<int>)
    requires Sorted(a) && Sorted(b) && multiset(a) == multiset(b)
    ensures a == b
  {
    if a != [] {
      SortedSameHead(a, b);
      SameTail(a, b);
      SortedPermutationUnique(a[1..], b[1..]);
      assert a == [a[0]] + a[1..] && b == [b[0]] + b[1..];
    } else {
      assert |multiset(b)| == 0;
    }
  }

  /** Nothing before position mid exceeds anything from mid on. */
  predicate SplitAt(s: seq<int>, mid: int)
    requires 0 <= mid <= |s|
  {
    forall k, l :: 0 <= k < mid <= l < |s| ==> s[k] <= s[l]
  }

  /** The sequence with positions i and j exchanged. */
  function Swap(s: seq<int>, i: nat, j: nat): (r: seq<int>)
    requires i < |s| && j < |s|
    ensures |r| == |s| && r[i] == s[j] && r[j] == s[i]
    ensures forall k :: 0 <= k < |s| && k != i && k != j ==> r[k] == s[k]
  {
    s[i := s[j]][j := s[i]]
  }

  /** An exchange keeps the elements. */
  lemma SwapPermutes(s: seq<int>, i: nat, j: nat)
    requires i < |s| && j < |s|
    ensures multiset(Swap(s, i, j)) == multiset(s)
  {
  }

  /** Number of elements of t that are larger than x. */
  function CountGreater(t: seq<int>, x: int): (c: nat)
    ensures c <= |t|
  {
    if |t| == 0 then 0 else CountGreater(t[..|t| - 1], x) + (if t[|t| - 1] > x then 1 else 0)
  }

  /** No element of t exceeds x exactly when none is counted. */
  lemma {:induction false} CountGreaterNone(t: seq<int>, x: int)
    ensures CountGreater(t, x) == 0 <==> forall k :: 0 <= k < |t| ==> t[k] <= x
  {
    if |t| > 0 {
      var init := t[..|t| - 1];
      CountGreaterNone(init, x);
      assert forall k :: 0 <= k < |init| ==> init[k] == t[k];
    }
  }

  /** Exchanging two neighbours does not change how many elements exceed x. */
  lemma {:induction false} CountGreaterSwapAdj(t: seq<int>, j: nat, x: int)
    requires j + 1 < |t|
    ensures CountGreater(Swap(t, j, j + 1), x) == CountGreater(t, x)
    decreases |t|
  {
    var r := Swap(t, j, j + 1);
    var n := |t|;
    if j + 2 == n {
      var u := t[..n - 2];
      assert t[..n - 1][..n - 2] == u;
      assert r[..n - 1][..n - 2] == u;
    } else {
      assert r[..n - 1] == Swap(t[..n - 1], j, j + 1);
      CountGreaterSwapAdj(t[..n - 1], j, x);
    }
  }

  /** The number of pairs i < j with s[i] > s[j]. */
  function Inversions(s: seq<int>): nat {
    if |s| == 0 then 0 else Inversions(s[..|s| - 1]) + CountGreater(s[..|s| - 1], s[|s| - 1])
  }

  /** There are never more inversions than pairs. */
  lemma {:induction false} InversionsBound(s: seq<int>)
    ensures Inversions(s) <= Pairs(|s|)
  {
    if |s| > 0 {
      InversionsBound(s[..|s| - 1]);
    }
  }

  /** Exchanging the last two elements, when out of order, removes one inversion. */
  lemma InversionsSwapLastTwo(u: seq<int>, a: int, b: int)
    requires a > b
    ensures Inversions(u + [b, a]) + 1 == Inversions(u + [a, b])
  {
    var s, r := u + [a, b], u + [b, a];
    var n := |s|;
    assert s[..n - 1] == u + [a] && (u + [a])[..n - 2] == u;
    assert r[..n - 1] == u + [b] && (u + [b])[..n - 2] == u;
    assert CountGreater(u + [a], b) == CountGreater(u, b) + 1;
    assert CountGreater(u + [b], a) == CountGreater(u, a);
    assert Inversions(s) == Inversions(u) + CountGreater(u, a) + CountGreater(u + [a], b);
    assert Inversions(r) == Inversions(u) + CountGreater(u, b) + CountGreater(u + [b], a);
  }

  /** Exchanging an out-of-order pair of neighbours removes exactly one inversion. */
  lemma {:induction false} InversionsSwapAdj(s: seq<int>, j: nat)
    requires j + 1 < |s| && s[j] > s[j + 1]
    ensures Inversions(Swap(s, j, j + 1)) + 1 == Inversions(s)
    decreases |s|
  {
    var r := Swap(s, j, j + 1);
    var n := |s|;
    if j + 2 == n {
      var u := s[..n - 2];
      assert s == u + [s[n - 2], s[n - 1]];
      assert r == u + [s[n - 1], s[n - 2]];
      InversionsSwapLastTwo(u, s[n - 2], s[n - 1]);
    } else {
      var init := s[..n - 1];
      assert r[..n - 1] == Swap(init, j, j + 1);
      assert r[n - 1] == s[n - 1];
      InversionsSwapAdj(init, j);
      CountGreaterSwapAdj(init, j, s[n - 1]);
    }
  }


  /** A sequence is sorted exactly when it has no inversions. */
  lemma {:induction false} SortedIffNoInversions(s: seq<int>)
    ensures Sorted(s) <==> Inversions(s) == 0
  {
    if |s| > 0 {
      var init := s[..|s| - 1];
      var last := s[|s| - 1];
      SortedIffNoInversions(init);
      CountGreaterNone(init, last);
      assert forall k :: 0 <= k < |init| ==> init[k] == s[k];
      if Inversions(s) == 0 {
        forall i, j | 0 <= i < j < |s| ensures s[i] <= s[j] {
          if j < |s| - 1 {
            assert init[i] <= init[j];
          } else {
            assert init[i] <= last;
          }
        }
      }
    }
  }
}
