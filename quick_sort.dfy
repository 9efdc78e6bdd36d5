/** Quicksort over a[p..r] with Lomuto partitioning and a choice of pivot
    (Quicksort.cpp). The pivot of the RANDOM strategy comes from `rand()`;
    here it is an arbitrary natural number drawn afresh at every call, so
    what is proved holds for every sequence of random draws. */
module QuickSort {
  import opened SortSpec

  /** Where the pivot of a[p..r] is taken from. */
  datatype PivotType = Left | Right | Middle | Random

  /** `selectPivot(p, r)`: the index of the pivot for a[p..r]; `draw` is the
      value `rand()` returned, used by the RANDOM strategy only. */
  function SelectPivot(pivot: PivotType, p: int, r: int, draw: nat): (k: int)
    requires p <= r
    ensures p <= k <= r
    ensures pivot == Left ==> k == p
    ensures pivot == Right ==> k == r
    ensures pivot == Middle ==> k - p <= r - k <= k - p + 1
  {
    match pivot
    case Left => p
    case Right => r
    case Middle => p + (r - p) / 2
    case Random => p + draw % (r - p + 1)
  }

  /** Every index of a[p..r] is a possible RANDOM pivot. */
  lemma RandomReachesEveryIndex(p: int, r: int, k: int)
    requires p <= k <= r
    ensures SelectPivot(Random, p, r, k - p) == k
  {
  }

  /** The order facts of the partition loop at (i, j): a[p..i] holds keys at
      most the pivot's (kept at r) and a[i+1..j) keys above it. */
  ghost predicate LomutoOrdered<T>(s: seq<T>, p: int, r: int, i: int, j: int, key: T -> int)
    requires 0 <= p && p - 1 <= i < j <= r < |s|
  {
    && (forall k :: p <= k <= i ==> key(s[k]) <= key(s[r]))
    && (forall k :: i < k < j ==> key(s[r]) < key(s[k]))
  }

  /** s is a permutation of s0 that differs from it only inside [p, r]. */
  ghost predicate PermutedWithin<T>(s: seq<T>, s0: seq<T>, p: int, r: int)
  {
    && |s| == |s0|
    && multiset(s) == multiset(s0)
    && (forall k :: 0 <= k < |s| && (k < p || r < k) ==> s[k] == s0[k])
  }

  /** The state of the partition loop. */
  ghost predicate Partitioning<T>(s: seq<T>, s0: seq<T>, x: T, p: int, r: int, i: int, j: int, key: T -> int)
  {
    && PartitionBounds(s, x, p, r, i, j)
    && LomutoOrdered(s, p, r, i, j, key)
    && PermutedWithin(s, s0, p, r)
  }

  /** The index bounds of the partition loop; the pivot x stays at r. */
  ghost predicate PartitionBounds<T>(s: seq<T>, x: T, p: int, r: int, i: int, j: int)
  {
    0 <= p && p - 1 <= i < j <= r < |s| && s[r] == x
  }

  /** Swapping two cells inside [p, r] keeps a permutation within [p, r]. */
  lemma SwapWithin<T>(s: seq<T>, t: seq<T>, s0: seq<T>, p: int, r: int, i: int, j: int)
    requires PermutedWithin(s, s0, p, r) && Swapped(s, t, i, j)
    requires p <= i <= r && p <= j <= r
    ensures PermutedWithin(t, s0, p, r)
  {
    SwapMultiset(s, t, i, j);
  }

  /** Moving the pivot to r opens the partition loop with both parts empty. */
  lemma LomutoStart<T>(s0: seq<T>, t: seq<T>, p: int, r: int, k: int, key: T -> int)
    requires 0 <= p <= k <= r < |s0| && Swapped(s0, t, k, r)
    ensures Partitioning(t, s0, t[r], p, r, p - 1, p, key)
  {
    SwapMultiset(s0, t, k, r);
  }

  /** Swapping an element whose key is at most the pivot's to the end of the
      front part extends the front part by one. */
  lemma LomutoSwap<T>(s: seq<T>, t: seq<T>, s0: seq<T>, x: T, p: int, r: int, i: int, j: int, key: T -> int)
    requires Partitioning(s, s0, x, p, r, i, j, key) && j < r && key(s[j]) <= key(x)
    requires Swapped(s, t, i + 1, j)
    ensures Partitioning(t, s0, x, p, r, i + 1, j + 1, key)
  {
    SwapWithin(s, t, s0, p, r, i + 1, j);
  }

  /** The final swap puts the pivot between the two parts. */
  lemma LomutoFinish<T>(s: seq<T>, t: seq<T>, s0: seq<T>, x: T, p: int, r: int, i: int, key: T -> int)
    requires Partitioning(s, s0, x, p, r, i, r, key)
    requires Swapped(s, t, i + 1, r)
    ensures PermutedWithin(t, s0, p, r) && t[i + 1] == x
    ensures forall k :: p <= k < i + 1 ==> key(t[k]) <= key(x)
    ensures forall k :: i + 1 < k <= r ==> key(x) < key(t[k])
  {
    SwapWithin(s, t, s0, p, r, i + 1, r);
  }

  /** One iteration of the partition loop: an element whose key is at most
      the pivot's is swapped to the end of the front part. */
  method PartitionStep<T>(a: array<T>, ghost s0: seq<T>, x: T, p: int, r: int, i: int, j: int, key: T -> int)
      returns (i': int)
    requires Partitioning(a[..], s0, x, p, r, i, j, key) && j < r
    modifies a
    ensures Partitioning(a[..], s0, x, p, r, i', j + 1, key)
  {
    if key(a[j]) <= key(x) {
      ghost var before := a[..];
      i' := i + 1;
      a[i'], a[j] := a[j], a[i'];
      LomutoSwap(before, a[..], s0, x, p, r, i, j, key);
    } else {
      i' := i;
    }
  }

  /** The end of the partition: swap the pivot from r to just after the
      front part and return its index. */
  method PlacePivot<T>(a: array<T>, ghost s0: seq<T>, x: T, p: int, r: int, i: int, key: T -> int)
      returns (q: int)
    requires Partitioning(a[..], s0, x, p, r, i, r, key)
    modifies a
    ensures p <= q <= r && a[q] == x
    ensures forall k :: p <= k < q ==> key(a[k]) <= key(x)
    ensures forall k :: q < k <= r ==> key(x) < key(a[k])
    ensures PermutedWithin(a[..], s0, p, r)
  {
    ghost var before := a[..];
    a[i + 1], a[r] := a[r], a[i + 1];
    LomutoFinish(before, a[..], s0, x, p, r, i, key);
    q := i + 1;
  }

  /** `partition(A, p, r)`: move the chosen pivot to r, sweep a[p..r) keeping
      the elements whose key is at most the pivot's in front, then put the
      pivot after them. The result q splits a[p..r] into keys at most the
      pivot's, the pivot itself, and keys above it. */
  method Partition<T>(a: array<T>, p: int, r: int, pivot: PivotType, draw: nat, key: T -> int) returns (q: int)
    requires 0 <= p < r < a.Length
    modifies a
    ensures p <= q <= r
    ensures a[q] == old(a[SelectPivot(pivot, p, r, draw)])
    ensures forall k :: p <= k < q ==> key(a[k]) <= key(a[q])
    ensures forall k :: q < k <= r ==> key(a[q]) < key(a[k])
    ensures PermutedWithin(a[..], old(a[..]), p, r)
  {
    ghost var s0 := a[..];
    var pivotIndex := SelectPivot(pivot, p, r, draw);
    a[pivotIndex], a[r] := a[r], a[pivotIndex];
    LomutoStart(s0, a[..], p, r, pivotIndex, key);
    var x := a[r];
    var i := p - 1;
    var j := p;
    while j < r
      invariant Partitioning(a[..], s0, x, p, r, i, j, key)
    {
      i := PartitionStep(a, s0, x, p, r, i, j, key);
      j := j + 1;
    }
    q := PlacePivot(a, s0, x, p, r, i, key);
  }

  /** Sorted left part, pivot, sorted right part: the whole range is sorted. */
  lemma JoinSorted<T>(s: seq<T>, p: int, q: int, r: int, key: T -> int)
    requires 0 <= p <= q <= r < |s|
    requires SortedBy(s[p..q], key) && SortedBy(s[q + 1..r + 1], key)
    requires AllAtMost(s[p..q], key(s[q]), key)
    requires AllAbove(s[q + 1..r + 1], key(s[q]), key)
    ensures SortedBy(s[p..r + 1], key)
  {
    forall u, v | p <= u < v <= r ensures key(s[u]) <= key(s[v]) {
      if v < q {
        assert s[u] == s[p..q][u - p] && s[v] == s[p..q][v - p];
      } else if u > q {
        assert s[u] == s[q + 1..r + 1][u - q - 1] && s[v] == s[q + 1..r + 1][v - q - 1];
      } else {
        if u < q {
          assert s[u] == s[p..q][u - p];
        }
        if v > q {
          assert s[v] == s[q + 1..r + 1][v - q - 1];
        }
      }
    }
  }

  /** Sorting a[lo..hi) in place keeps every key bound that held there. */
  lemma BoundsSurviveSort<T>(before: seq<T>, after: seq<T>, lo: int, hi: int, b: int, key: T -> int)
    requires 0 <= lo <= hi <= |before|
    requires PermutedWithin(after, before, lo, hi - 1)
    ensures AllAtMost(before[lo..hi], b, key) ==> AllAtMost(after[lo..hi], b, key)
    ensures AllAbove(before[lo..hi], b, key) ==> AllAbove(after[lo..hi], b, key)
  {
    assert after[..lo] == before[..lo];
    assert after[hi..] == before[hi..];
    SliceMultiset(after, before, lo, hi);
    if AllAtMost(before[lo..hi], b, key) {
      AtMostPermutation(after[lo..hi], before[lo..hi], b, key);
    }
    if AllAbove(before[lo..hi], b, key) {
      AbovePermutation(after[lo..hi], before[lo..hi], b, key);
    }
  }

  /** Permutations within nested ranges compose. */
  lemma PermutedWithinTrans<T>(s: seq<T>, m: seq<T>, s0: seq<T>, p: int, r: int, lo: int, hi: int)
    requires p <= lo && hi <= r
    requires PermutedWithin(m, s0, p, r) && PermutedWithin(s, m, lo, hi)
    ensures PermutedWithin(s, s0, p, r)
  {
  }

  /** After partitioning at q and sorting both sides, a[p..r] is sorted and
      the array is still a permutation of the original, changed only inside
      [p, r]. */
  lemma SortedSides<T>(split: seq<T>, mid: seq<T>, after: seq<T>, s0: seq<T>, p: int, q: int, r: int, key: T -> int)
    requires 0 <= p <= q <= r < |split|
    requires forall k :: p <= k < q ==> key(split[k]) <= key(split[q])
    requires forall k :: q < k <= r ==> key(split[q]) < key(split[k])
    requires PermutedWithin(split, s0, p, r)
    requires PermutedWithin(mid, split, p, q - 1) && SortedBy(mid[p..q], key)
    requires PermutedWithin(after, mid, q + 1, r) && SortedBy(after[q + 1..r + 1], key)
    ensures SortedBy(after[p..r + 1], key)
    ensures PermutedWithin(after, s0, p, r)
  {
    var b := key(split[q]);
    assert AllAtMost(split[p..q], b, key);
    assert AllAbove(split[q + 1..r + 1], b, key);
    BoundsSurviveSort(split, mid, p, q, b, key);
    assert mid[q + 1..r + 1] == split[q + 1..r + 1];
    BoundsSurviveSort(mid, after, q + 1, r + 1, b, key);
    assert after[p..q] == mid[p..q];
    assert after[q] == split[q];
    JoinSorted(after, p, q, r, key);
    PermutedWithinTrans(mid, split, s0, p, r, p, q - 1);
    PermutedWithinTrans(after, mid, s0, p, r, q + 1, r);
  }

  /** `sort(A, p, r)`: partition a[p..r], then sort both sides of the pivot.
      a[p..r] ends sorted and the array is a permutation of what it held,
      changed only inside [p, r]. Each RANDOM pivot uses a fresh arbitrary
      draw. */
  method Sort<T>(a: array<T>, p: int, r: int, pivot: PivotType, key: T -> int)
    requires 0 <= p <= r + 1 <= a.Length
    modifies a
    ensures SortedBy(a[p..r + 1], key)
    ensures PermutedWithin(a[..], old(a[..]), p, r)
    decreases r - p
  {
    if p >= r {
      assert a[p..r + 1] == [] || a[p..r + 1] == [a[p]];
    } else {
      var draw: nat := *;
      var q := Partition(a, p, r, pivot, draw, key);
      ghost var split := a[..];
      Sort(a, p, q - 1, pivot, key);
      ghost var mid := a[..];
      Sort(a, q + 1, r, pivot, key);
      SortedSides(split, mid, a[..], old(a[..]), p, q, r, key);
    }
  }
}
