/** Shell sort over the prefix a[0..n) of an array (Shell.cpp), with the gap
    sequence n/2, n/4, ..., 1. Every pass is a gapped insertion sort that
    leaves the prefix g-sorted (each element's key is at most the key g
    places further on); the last pass has gap 1, so the prefix ends sorted.
    The source's three nested loops are the methods GapInsert (innermost),
    GapPass and Sort. */
module ShellSort {
  import opened SortSpec

  /** s[0..hi) is g-sorted: every key is at most the key g places later. */
  predicate GapSorted<T>(s: seq<T>, hi: int, g: int, key: T -> int)
    requires 0 <= g && hi <= |s|
  {
    forall p, q :: 0 <= p < hi && q == p + g && q < hi ==> key(s[p]) <= key(s[q])
  }

  /** Keys in a 1-sorted prefix never decrease over a distance. */
  lemma {:induction false} OneSortedChain<T>(s: seq<T>, n: int, i: int, j: int, key: T -> int)
    requires n <= |s| && GapSorted(s, n, 1, key)
    requires 0 <= i <= j < n
    ensures key(s[i]) <= key(s[j])
    decreases j - i
  {
    if i < j {
      OneSortedChain(s, n, i, j - 1, key);
      assert key(s[j - 1]) <= key(s[j]);
    }
  }

  /** A 1-sorted prefix is sorted. */
  lemma OneSortedIsSorted<T>(s: seq<T>, n: int, key: T -> int)
    requires 0 <= n <= |s| && GapSorted(s, n, 1, key)
    ensures SortedBy(s[..n], key)
  {
    forall i, j | 0 <= i < j < n ensures key(s[..n][i]) <= key(s[..n][j]) {
      OneSortedChain(s, n, i, j, key);
    }
  }

  /** The innermost loop's state while inserting x = a0[i] with gap g: the
      hole is at j; apart from the pairs that straddle the hole, a[0..i] is
      g-sorted; the elements moved up are greater than x; the two neighbours
      of the hole are ordered; nothing after i has changed; and w, which is
      the array with x put into the hole, is a permutation of a0. */
  ghost predicate GapHole<T>(s: seq<T>, w: seq<T>, s0: seq<T>, x: T, n: int, g: int, i: int, j: int, key: T -> int)
  {
    && |s| == |s0| && 1 <= g && 0 <= j <= i < n <= |s|
    && (j == i || j + g <= i)
    && HoleOrdered(s, x, g, i, j, key)
    && HoleContents(s, w, s0, x, i, j)
  }

  /** The order facts of GapHole. */
  ghost predicate HoleOrdered<T>(s: seq<T>, x: T, g: int, i: int, j: int, key: T -> int)
    requires 1 <= g && 0 <= j <= i < |s| && (j == i || j + g <= i)
  {
    && (forall p, q :: 0 <= p && q == p + g && q <= i && q != j && p != j ==> key(s[p]) <= key(s[q]))
    && (j < i ==> key(x) < key(s[j + g]))
    && (j < i && g <= j ==> key(s[j - g]) <= key(s[j + g]))
  }

  /** The content facts of GapHole. */
  ghost predicate HoleContents<T>(s: seq<T>, w: seq<T>, s0: seq<T>, x: T, i: int, j: int)
    requires |s| == |s0| && 0 <= i
  {
    && (forall k :: i < k < |s| ==> s[k] == s0[k])
    && Assigned(s, w, j, x)
    && multiset(w) == multiset(s0)
  }

  /** Picking up a[i] opens the hole at i. */
  lemma GapStart<T>(s: seq<T>, n: int, g: int, i: int, key: T -> int)
    requires 1 <= g <= i < n <= |s| && GapSorted(s, i, g, key)
    ensures GapHole(s, s, s, s[i], n, g, i, i, key)
  {
  }

  /** Moving a[j-g] up into the hole moves the hole down by g; the returned
      w is the array with x put into the new hole. */
  lemma GapShift<T>(s: seq<T>, t: seq<T>, w: seq<T>, s0: seq<T>, x: T, n: int, g: int, i: int, j: int, key: T -> int)
      returns (w': seq<T>)
    requires GapHole(s, w, s0, x, n, g, i, j, key) && g <= j && key(s[j - g]) > key(x)
    requires Assigned(s, t, j, s[j - g])
    ensures GapHole(t, w', s0, x, n, g, i, j - g, key)
  {
    w' := t[j - g := x];
    assert Swapped(w, w', j, j - g);
    SwapMultiset(w, w', j, j - g);
    if 2 * g <= j {
      assert key(s[j - 2 * g]) <= key(s[j - g]);
    }
  }

  /** Dropping x into the hole leaves a[0..i] g-sorted. */
  lemma GapPlace<T>(s: seq<T>, t: seq<T>, w: seq<T>, s0: seq<T>, x: T, n: int, g: int, i: int, j: int, key: T -> int)
    requires GapHole(s, w, s0, x, n, g, i, j, key) && (j < g || key(s[j - g]) <= key(x))
    requires Assigned(s, t, j, x)
    ensures GapSorted(t, i + 1, g, key)
    ensures t == w
    ensures forall k :: i < k < |t| ==> t[k] == s0[k]
  {
  }

  /** Innermost loop: hold a[i] aside, move each a[j-g] whose key is greater
      up by g, and drop the held element into the last hole. */
  method GapInsert<T>(a: array<T>, n: int, g: int, i: int, key: T -> int)
    requires 1 <= g <= i < n <= a.Length && GapSorted(a[..], i, g, key)
    modifies a
    ensures GapSorted(a[..], i + 1, g, key)
    ensures multiset(a[..]) == multiset(old(a[..]))
    ensures forall k :: i < k < a.Length ==> a[k] == old(a[k])
  {
    ghost var s0 := a[..];
    ghost var w := s0;
    var temp := a[i];
    var j := i;
    GapStart(s0, n, g, i, key);
    while j >= g && key(a[j - g]) > key(temp)
      invariant GapHole(a[..], w, s0, temp, n, g, i, j, key)
      decreases j
    {
      ghost var before := a[..];
      a[j] := a[j - g];
      w := GapShift(before, a[..], w, s0, temp, n, g, i, j, key);
      j := j - g;
    }
    ghost var before := a[..];
    a[j] := temp;
    GapPlace(before, a[..], w, s0, temp, n, g, i, j, key);
  }

  /** One pass with gap g: gap-insert a[g], a[g+1], ..., a[n-1]. */
  method GapPass<T>(a: array<T>, n: int, g: int, key: T -> int)
    requires 1 <= g <= n <= a.Length
    modifies a
    ensures GapSorted(a[..], n, g, key)
    ensures multiset(a[..]) == multiset(old(a[..]))
    ensures a[n..] == old(a[n..])
  {
    var i := g;
    while i < n
      invariant g <= i <= n
      invariant GapSorted(a[..], i, g, key)
      invariant multiset(a[..]) == multiset(old(a[..]))
      invariant forall k :: i <= k < a.Length ==> a[k] == old(a[k])
    {
      GapInsert(a, n, g, i, key);
      i := i + 1;
    }
    assert a[n..] == old(a[n..]);
  }

  /** `sort(arr, n)`: passes with gaps n/2, n/4, ..., 1. The last pass has
      gap 1, so the prefix a[0..n) ends sorted, as a permutation of what it
      held; nothing from n on changes. */
  method Sort<T>(a: array<T>, n: int, key: T -> int)
    requires 0 <= n <= a.Length
    modifies a
    ensures SortedBy(a[..n], key)
    ensures multiset(a[..n]) == multiset(old(a[..n]))
    ensures a[n..] == old(a[n..])
  {
    var gap := n / 2;
    ghost var lastGap := 0;
    while gap > 0
      invariant 0 <= gap <= n / 2
      invariant gap < n / 2 ==> 1 <= lastGap && gap == lastGap / 2 && GapSorted(a[..], n, lastGap, key)
      invariant multiset(a[..]) == multiset(old(a[..]))
      invariant a[n..] == old(a[n..])
    {
      GapPass(a, n, gap, key);
      lastGap := gap;
      gap := gap / 2;
    }
    if n >= 2 {
      OneSortedIsSorted(a[..], n, key);
    }
    SliceMultiset(a[..], old(a[..]), 0, n);
  }
}
