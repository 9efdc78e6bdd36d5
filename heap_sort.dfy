/** In-place heap sort over the prefix a[0..n) of an array, keyed by a
    function on the elements: `HeapSorter<T>` of Heapsort.cpp (key = the
    element itself) and `EdgeHeap` of Kruskal.cpp (key = the edge weight)
    are this one algorithm. Node k has children 2k+1 and 2k+2. */
module HeapSort {
  import opened SortSpec

  /** Node k of the heap s[0..n) is at least as large as each child inside n. */
  predicate NodeOrdered<T>(s: seq<T>, n: int, k: int, key: T -> int)
    requires 0 <= k && n <= |s|
  {
    && (2 * k + 1 < n ==> key(s[2 * k + 1]) <= key(s[k]))
    && (2 * k + 2 < n ==> key(s[2 * k + 2]) <= key(s[k]))
  }

  /** Every node of s[0..n) from index lo on is ordered with its children. */
  predicate HeapFrom<T>(s: seq<T>, n: int, lo: int, key: T -> int)
    requires 0 <= lo && n <= |s|
  {
    forall k :: lo <= k < n ==> NodeOrdered(s, n, k, key)
  }

  /** j lies in the subtree rooted at node r (r itself included). */
  predicate InSubtree(r: int, j: int)
    decreases j
  {
    0 <= r <= j && (j == r || InSubtree(r, (j - 1) / 2))
  }

  /** s and t agree everywhere outside the subtree of node r. */
  ghost predicate SameOutsideSubtree<T>(s: seq<T>, t: seq<T>, r: int)
  {
    |s| == |t| && forall j :: 0 <= j < |s| && !InSubtree(r, j) ==> s[j] == t[j]
  }

  /** The subtree of a child of r lies inside the subtree of r. */
  lemma {:induction false} SubtreeOfChild(r: int, c: int, j: int)
    requires 0 <= r && (c == 2 * r + 1 || c == 2 * r + 2)
    requires InSubtree(c, j)
    ensures InSubtree(r, j)
    decreases j
  {
    if j != c {
      SubtreeOfChild(r, c, (j - 1) / 2);
    }
  }

  /** In a max-heap the root carries the largest key. */
  lemma {:induction false} RootIsMax<T>(s: seq<T>, n: int, k: int, key: T -> int)
    requires n <= |s| && HeapFrom(s, n, 0, key)
    requires 0 <= k < n
    ensures key(s[k]) <= key(s[0])
    decreases k
  {
    if k > 0 {
      var parent := (k - 1) / 2;
      assert NodeOrdered(s, n, parent, key);
      RootIsMax(s, n, parent, key);
    }
  }

  /** After node i swaps with its larger child c, every node below c is still ordered. */
  lemma SwapKeepsLowerNodes<T>(before: seq<T>, swapped: seq<T>, n: int, i: int, c: int, key: T -> int)
    requires 0 <= i < c < n <= |before| == |swapped|
    requires Swapped(before, swapped, i, c)
    requires HeapFrom(before, n, i + 1, key)
    ensures HeapFrom(swapped, n, c + 1, key)
  {
    forall k | c < k < n ensures NodeOrdered(swapped, n, k, key) {
      assert NodeOrdered(before, n, k, key);
    }
  }

  /** Sift-down step: once the subtree of the larger child c is a heap again,
      the whole subtree of i is one, and nothing outside it has changed. */
  lemma SiftDownCombine<T>(before: seq<T>, swapped: seq<T>, after: seq<T>, n: int, i: int, c: int, key: T -> int)
    requires 0 <= i && (c == 2 * i + 1 || c == 2 * i + 2) && c < n <= |before| == |swapped| == |after|
    requires Swapped(before, swapped, i, c)
    requires HeapFrom(before, n, i + 1, key)
    requires key(before[i]) <= key(before[c])
    requires 2 * i + 1 < n ==> key(before[2 * i + 1]) <= key(before[c])
    requires 2 * i + 2 < n ==> key(before[2 * i + 2]) <= key(before[c])
    requires HeapFrom(after, n, c, key)
    requires || after[c] == swapped[c]
             || (2 * c + 1 < n && after[c] == swapped[2 * c + 1])
             || (2 * c + 2 < n && after[c] == swapped[2 * c + 2])
    requires SameOutsideSubtree(swapped, after, c)
    requires swapped[n..] == after[n..]
    requires multiset(after) == multiset(swapped)
    ensures HeapFrom(after, n, i, key)
    ensures SameOutsideSubtree(before, after, i)
    ensures before[n..] == after[n..]
    ensures multiset(after) == multiset(before)
  {
    SwapMultiset(before, swapped, i, c);
    assert before[n..] == swapped[n..];
    forall j | 0 <= j < |after| && !InSubtree(i, j) ensures after[j] == before[j] {
      if InSubtree(c, j) {
        SubtreeOfChild(i, c, j);
      }
    }
    assert NodeOrdered(before, n, c, key);
    forall k | i <= k < c ensures NodeOrdered(after, n, k, key) {
      if k == i {
        var other := if c == 2 * i + 1 then 2 * i + 2 else 2 * i + 1;
        if other < n {
          assert !InSubtree(c, other);
        }
      } else {
        assert NodeOrdered(before, n, k, key);
        assert !InSubtree(c, k);
        assert 2 * k + 1 < n ==> !InSubtree(c, 2 * k + 1);
        assert 2 * k + 2 < n ==> !InSubtree(c, 2 * k + 2);
      }
    }
  }

  /** `heapify(arr, n, i)`: sift the element at i down until its subtree is
      a heap, assuming every node below i already is one. Only positions in
      the subtree of i (all below n) change; the new value at i is the largest
      of the old values at i and at its children. */
  method Heapify<T>(a: array<T>, n: int, i: int, key: T -> int)
    requires 0 <= i < n <= a.Length
    requires HeapFrom(a[..], n, i + 1, key)
    modifies a
    ensures HeapFrom(a[..], n, i, key)
    ensures || a[i] == old(a[i])
            || (2 * i + 1 < n && a[i] == old(a[2 * i + 1]))
            || (2 * i + 2 < n && a[i] == old(a[2 * i + 2]))
    ensures SameOutsideSubtree(old(a[..]), a[..], i)
    ensures a[n..] == old(a[n..])
    ensures multiset(a[..]) == multiset(old(a[..]))
    decreases n - i
  {
    var largest := i;
    var left := 2 * i + 1;
    var right := 2 * i + 2;
    if left < n && key(a[left]) > key(a[largest]) {
      largest := left;
    }
    if right < n && key(a[right]) > key(a[largest]) {
      largest := right;
    }
    if largest != i {
      ghost var before := a[..];
      a[i], a[largest] := a[largest], a[i];
      ghost var swapped := a[..];
      SwapKeepsLowerNodes(before, swapped, n, i, largest, key);
      Heapify(a, n, largest, key);
      SiftDownCombine(before, swapped, a[..], n, i, largest, key);
    } else {
      assert NodeOrdered(a[..], n, i, key);
    }
  }

  /** `buildHeap(arr, n)`: heapify every inner node from the last one up to the root. */
  method BuildHeap<T>(a: array<T>, n: int, key: T -> int)
    requires 0 <= n <= a.Length
    modifies a
    ensures HeapFrom(a[..], n, 0, key)
    ensures forall j :: n <= j < a.Length ==> a[j] == old(a[j])
    ensures multiset(a[..]) == multiset(old(a[..]))
    ensures n <= 1 ==> a[..] == old(a[..])
  {
    var i := n / 2 - 1;
    while i >= 0
      invariant -1 <= i <= n / 2 - 1 || (i == -1 && n <= 1)
      invariant HeapFrom(a[..], n, i + 1, key)
      invariant forall j :: n <= j < a.Length ==> a[j] == old(a[j])
      invariant multiset(a[..]) == multiset(old(a[..]))
      invariant n <= 1 ==> a[..] == old(a[..])
    {
      Heapify(a, n, i, key);
      i := i - 1;
    }
  }

  /** One round of the sorting phase swaps the root of the heap a[0..i] into
      slot i: a[i..n) is then sorted, since the root is the largest key of
      the heap and no larger than the keys already placed. */
  lemma {:induction false} RoundExtendsSuffix<T>(pre: seq<T>, after: seq<T>, n: int, i: int, key: T -> int)
    requires 0 < i < n <= |pre| == |after|
    requires HeapFrom(pre, i + 1, 0, key)
    requires SortedBy(pre[i + 1..n], key)
    requires i + 1 < n ==> AllAtMost(pre[..i + 1], key(pre[i + 1]), key)
    requires after[i] == pre[0] && after[i + 1..n] == pre[i + 1..n]
    ensures SortedBy(after[i..n], key)
    ensures AllAtMost(pre[..i + 1], key(after[i]), key)
  {
    forall k | 0 <= k <= i ensures key(pre[k]) <= key(pre[0]) {
      RootIsMax(pre, i + 1, k, key);
    }
    if i + 1 < n {
      assert key(pre[0]) <= key(pre[i + 1]);
    }
  }

  /** The repaired heap a[0..i) is a permutation of what the swap left there,
      so none of its keys exceeds the key placed at i. */
  lemma RoundBoundsPrefix<T>(pre: seq<T>, swapped: seq<T>, after: seq<T>, i: int, key: T -> int)
    requires 0 < i < |pre| == |swapped| == |after|
    requires AllAtMost(pre[..i + 1], key(after[i]), key)
    requires Swapped(pre, swapped, 0, i)
    requires after[i..] == swapped[i..]
    requires multiset(after) == multiset(swapped)
    ensures AllAtMost(after[..i], key(after[i]), key)
    ensures multiset(after) == multiset(pre)
  {
    SliceMultiset(after, swapped, 0, i);
    assert AllAtMost(swapped[..i], key(after[i]), key) by {
      forall k | 0 <= k < i ensures key(swapped[k]) <= key(after[i]) {
        if k == 0 {
          assert swapped[0] == pre[i];
        } else {
          assert swapped[k] == pre[k];
        }
      }
    }
    AtMostPermutation(after[..i], swapped[..i], key(after[i]), key);
    SwapMultiset(pre, swapped, 0, i);
  }

  /** When at most the root is left in the heap, the whole prefix is sorted. */
  lemma FinishedRounds<T>(s: seq<T>, n: int, i: int, key: T -> int)
    requires 0 <= n <= |s| && -1 <= i <= 0 && i < n
    requires SortedBy(s[i + 1..n], key)
    requires i + 1 < n ==> AllAtMost(s[..i + 1], key(s[i + 1]), key)
    ensures SortedBy(s[..n], key)
  {
    if i == 0 && n > 1 {
      forall j | 0 < j < n ensures key(s[0]) <= key(s[j]) {
        assert key(s[1]) <= key(s[j]) by {
          if j > 1 {
            assert s[1..n][0] == s[1] && s[1..n][j - 1] == s[j];
          }
        }
      }
    }
  }

  /** After the root is swapped away, every node of a[0..i) below the root is still ordered. */
  lemma SwapOpensRoot<T>(pre: seq<T>, swapped: seq<T>, i: int, key: T -> int)
    requires 0 < i < |pre| == |swapped|
    requires HeapFrom(pre, i + 1, 0, key)
    requires Swapped(pre, swapped, 0, i)
    ensures HeapFrom(swapped, i, 1, key)
  {
    forall k | 1 <= k < i ensures NodeOrdered(swapped, i, k, key) {
      assert NodeOrdered(pre, i + 1, k, key);
    }
  }

  /** The state of the sorting phase with the heap occupying a[0..i]:
      a[i+1..n) holds the largest keys in order, the cells from n on are as
      they were, and the whole array is a permutation of the original s0. */
  ghost predicate SortingPhase<T>(s: seq<T>, s0: seq<T>, n: int, i: int, key: T -> int)
  {
    && |s| == |s0| && 0 <= n <= |s|
    && (0 <= i < n || (i == -1 && n == 0))
    && HeapFrom(s, i + 1, 0, key)
    && SortedBy(s[i + 1..n], key)
    && (i + 1 < n ==> AllAtMost(s[..i + 1], key(s[i + 1]), key))
    && s[n..] == s0[n..]
    && multiset(s) == multiset(s0)
    && (n <= 1 ==> s == s0)
  }

  /** One swap-and-repair round moves the sorting phase from i to i - 1. */
  lemma RoundAdvances<T>(s0: seq<T>, pre: seq<T>, swapped: seq<T>, after: seq<T>, n: int, i: int, key: T -> int)
    requires SortingPhase(pre, s0, n, i, key) && i > 0
    requires Swapped(pre, swapped, 0, i)
    requires |after| == |pre| && HeapFrom(after, i, 0, key)
    requires after[i..] == swapped[i..]
    requires multiset(after) == multiset(swapped)
    ensures SortingPhase(after, s0, n, i - 1, key)
  {
    RoundExtendsSuffix(pre, after, n, i, key);
    RoundBoundsPrefix(pre, swapped, after, i, key);
    assert after[n..] == pre[n..];
  }

  /** One round of the sorting loop: move the root of the heap a[0..i] to
      slot i, then sift the new root down through a[0..i). */
  method SortRound<T>(a: array<T>, ghost s0: seq<T>, n: int, i: int, key: T -> int)
    requires SortingPhase(a[..], s0, n, i, key) && i > 0
    modifies a
    ensures SortingPhase(a[..], s0, n, i - 1, key)
  {
    ghost var pre := a[..];
    a[0], a[i] := a[i], a[0];
    ghost var swapped := a[..];
    SwapOpensRoot(pre, swapped, i, key);
    Heapify(a, i, 0, key);
    RoundAdvances(s0, pre, swapped, a[..], n, i, key);
  }

  /** `sort(arr, n)`: build a max-heap, then repeatedly move the root to the
      end of the shrinking heap. The prefix a[0..n) ends sorted and is a
      permutation of what it held; nothing from n on changes. */
  method Sort<T>(a: array<T>, n: int, key: T -> int)
    requires 0 <= n <= a.Length
    modifies a
    ensures SortedBy(a[..n], key)
    ensures multiset(a[..n]) == multiset(old(a[..n]))
    ensures a[n..] == old(a[n..])
    ensures n <= 1 ==> a[..] == old(a[..])
  {
    BuildHeap(a, n, key);
    var i := n - 1;
    while i > 0
      invariant SortingPhase(a[..], old(a[..]), n, i, key)
    {
      SortRound(a, old(a[..]), n, i, key);
      i := i - 1;
    }
    FinishedRounds(a[..], n, i, key);
    SliceMultiset(a[..], old(a[..]), 0, n);
  }
}
