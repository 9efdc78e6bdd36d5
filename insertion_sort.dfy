/** Insertion sort over the prefix a[0..n) of an array (InsertionSort.cpp).
    The in-place method is proved equal to a functional insertion sort whose
    insertion scans from the right exactly as the source's inner loop does;
    the lemmas then show that this function sorts, permutes and is stable. */
module InsertionSort {
  import opened SortSpec

  /** Insert x into s the way the inner loop does: walk left from the end
      past every element whose key is greater than x's, then place x. */
  function Insert<T>(s: seq<T>, x: T, key: T -> int): (r: seq<T>)
    ensures |r| == |s| + 1
    decreases |s|
  {
    if |s| == 0 || key(s[|s| - 1]) <= key(x) then s + [x]
    else Insert(s[..|s| - 1], x, key) + [s[|s| - 1]]
  }

  /** Insertion sort as a function: insert each element, left to right, into
      the already-sorted prefix. */
  function InsertAll<T>(s: seq<T>, key: T -> int): (r: seq<T>)
    ensures |r| == |s|
    decreases |s|
  {
    if |s| == 0 then [] else Insert(InsertAll(s[..|s| - 1], key), s[|s| - 1], key)
  }

  /** Insert places x after a prefix of s, and only keys greater than x's
      follow it. */
  lemma {:induction false} InsertSplits<T>(s: seq<T>, x: T, key: T -> int) returns (m: int)
    ensures 0 <= m <= |s|
    ensures Insert(s, x, key) == s[..m] + [x] + s[m..]
    ensures AllAbove(s[m..], key(x), key)
    ensures m == 0 || key(s[m - 1]) <= key(x)
    decreases |s|
  {
    if |s| == 0 || key(s[|s| - 1]) <= key(x) {
      m := |s|;
      assert s[..m] == s;
    } else {
      var init := s[..|s| - 1];
      m := InsertSplits(init, x, key);
      assert init[..m] == s[..m];
      assert init[m..] + [s[|s| - 1]] == s[m..];
      assert s[m..][|s[m..]| - 1] == s[|s| - 1];
      forall k | 0 <= k < |s[m..]| ensures key(x) < key(s[m..][k]) {
        if k < |init[m..]| {
          assert s[m..][k] == init[m..][k];
        }
      }
    }
  }

  /** Inserting into a sorted sequence keeps it sorted. */
  lemma InsertSorted<T>(s: seq<T>, x: T, key: T -> int)
    requires SortedBy(s, key)
    ensures SortedBy(Insert(s, x, key), key)
  {
    var m := InsertSplits(s, x, key);
    var r := Insert(s, x, key);
    assert forall k :: 0 <= k < m ==> r[k] == s[k];
    assert r[m] == x;
    assert forall k :: m < k < |r| ==> r[k] == s[m..][k - m - 1] == s[k - 1];
  }

  /** Insert adds exactly x to the multiset of s. */
  lemma InsertPermutes<T>(s: seq<T>, x: T, key: T -> int)
    ensures multiset(Insert(s, x, key)) == multiset(s) + multiset{x}
  {
    var m := InsertSplits(s, x, key);
    assert s == s[..m] + s[m..];
  }

  /** The insertion sort function yields a sorted sequence. */
  lemma {:induction false} InsertAllSorted<T>(s: seq<T>, key: T -> int)
    ensures SortedBy(InsertAll(s, key), key)
    decreases |s|
  {
    if |s| > 0 {
      InsertAllSorted(s[..|s| - 1], key);
      InsertSorted(InsertAll(s[..|s| - 1], key), s[|s| - 1], key);
    }
  }

  /** The insertion sort function yields a permutation of its input. */
  lemma {:induction false} InsertAllPermutes<T>(s: seq<T>, key: T -> int)
    ensures multiset(InsertAll(s, key)) == multiset(s)
    decreases |s|
  {
    if |s| > 0 {
      var init := s[..|s| - 1];
      InsertAllPermutes(init, key);
      InsertPermutes(InsertAll(init, key), s[|s| - 1], key);
      assert s == init + [s[|s| - 1]];
    }
  }

  /** The elements of s whose key is k, in their order in s. */
  function WithKey<T>(s: seq<T>, k: int, key: T -> int): (r: seq<T>)
    ensures |r| <= |s|
    ensures forall i :: 0 <= i < |r| ==> key(r[i]) == k
    decreases |s|
  {
    if |s| == 0 then []
    else WithKey(s[..|s| - 1], k, key) + (if key(s[|s| - 1]) == k then [s[|s| - 1]] else [])
  }

  /** Insert puts x after every element that carries x's key, so it adds
      x at the end of the run of its key and leaves every other run alone. */
  lemma {:induction false} WithKeyInsert<T>(s: seq<T>, x: T, k: int, key: T -> int)
    ensures WithKey(Insert(s, x, key), k, key)
         == WithKey(s, k, key) + (if key(x) == k then [x] else [])
    decreases |s|
  {
    if |s| == 0 || key(s[|s| - 1]) <= key(x) {
      assert (s + [x])[..|s|] == s;
    } else {
      var init := s[..|s| - 1];
      var r := Insert(init, x, key);
      WithKeyInsert(init, x, k, key);
      assert (r + [s[|s| - 1]])[..|r|] == r;
    }
  }

  /** Insertion sort is stable: for every key, the elements carrying that key
      come out in the order they went in. */
  lemma {:induction false} InsertAllStable<T>(s: seq<T>, k: int, key: T -> int)
    ensures WithKey(InsertAll(s, key), k, key) == WithKey(s, k, key)
    decreases |s|
  {
    if |s| > 0 {
      var init := s[..|s| - 1];
      InsertAllStable(init, k, key);
      WithKeyInsert(InsertAll(init, key), s[|s| - 1], k, key);
    }
  }

  /** Input that is already sorted comes out unchanged (no element moves). */
  lemma {:induction false} InsertAllOfSorted<T>(s: seq<T>, key: T -> int)
    requires SortedBy(s, key)
    ensures InsertAll(s, key) == s
    decreases |s|
  {
    if |s| > 0 {
      var init := s[..|s| - 1];
      assert SortedBy(init, key);
      InsertAllOfSorted(init, key);
      assert init + [s[|s| - 1]] == s;
    }
  }

  /** The outer loop's state at i: a[0..i) holds the insertion sort of the
      original first i elements, and the rest is untouched. */
  ghost predicate SortedUpTo<T>(s: seq<T>, s0: seq<T>, i: int, key: T -> int)
  {
    && |s| == |s0| && 0 <= i <= |s|
    && s[..i] == InsertAll(s0[..i], key)
    && s[i..] == s0[i..]
  }

  /** Conversely, placing x after a prefix whose last key is at most x's and
      before a suffix of greater keys is what Insert does. */
  lemma {:induction false} InsertAt<T>(s: seq<T>, x: T, m: int, key: T -> int)
    requires 0 <= m <= |s|
    requires AllAbove(s[m..], key(x), key)
    requires m == 0 || key(s[m - 1]) <= key(x)
    ensures Insert(s, x, key) == s[..m] + [x] + s[m..]
    decreases |s|
  {
    if m == |s| {
      assert s[..m] == s;
    } else {
      var init := s[..|s| - 1];
      assert s[m..][|s| - 1 - m] == s[|s| - 1];
      assert init[m..] == s[m..][..|s| - 1 - m];
      InsertAt(init, x, m, key);
      assert init[..m] == s[..m];
      assert init[m..] + [s[|s| - 1]] == s[m..];
    }
  }

  /** The inner loop's state at j while inserting x = a[i] into p = a[0..i):
      a[0..j] is still p's prefix, p[j+1..i) has moved one slot right (cell
      j+1 is the hole) and holds only keys greater than x's, and the cells
      after i are untouched. */
  ghost predicate Shifting<T>(s: seq<T>, s0: seq<T>, p: seq<T>, x: T, i: int, j: int, key: T -> int)
  {
    && |s| == |s0| && 0 < i < |s| && |p| == i && -1 <= j < i
    && (forall k :: 0 <= k <= j ==> s[k] == p[k])
    && (forall k :: j < k < i ==> s[k + 1] == p[k] && key(x) < key(p[k]))
    && (forall k :: i < k < |s| ==> s[k] == s0[k])
  }

  /** Picking up a[i] starts the inner loop with the hole at i. */
  lemma StartShifting<T>(s: seq<T>, s0: seq<T>, i: int, key: T -> int)
    requires SortedUpTo(s, s0, i, key) && 0 < i < |s|
    ensures s[i] == s0[i]
    ensures Shifting(s, s0, s[..i], s[i], i, i - 1, key)
  {
    assert s[i..][0] == s[i];
    forall k | i < k < |s| ensures s[k] == s0[k] {
      assert s[i..][k - i] == s0[i..][k - i];
    }
  }

  /** Moving a[j] into the hole at j+1 moves the hole to j. */
  lemma ShiftStep<T>(s: seq<T>, t: seq<T>, s0: seq<T>, p: seq<T>, x: T, i: int, j: int, key: T -> int)
    requires Shifting(s, s0, p, x, i, j, key) && 0 <= j && key(s[j]) > key(x)
    requires Assigned(s, t, j + 1, s[j])
    ensures Shifting(t, s0, p, x, i, j - 1, key)
  {
  }

  /** After x drops into the hole, a[0..i] reads p[0..j], x, p[j+1..i). */
  lemma DropInShape<T>(s: seq<T>, t: seq<T>, s0: seq<T>, p: seq<T>, x: T, i: int, j: int, key: T -> int)
    requires Shifting(s, s0, p, x, i, j, key)
    requires Assigned(s, t, j + 1, x)
    ensures t[..i + 1] == p[..j + 1] + [x] + p[j + 1..]
    ensures t[i + 1..] == s0[i + 1..]
    ensures AllAbove(p[j + 1..], key(x), key)
  {
    var r := p[..j + 1] + [x] + p[j + 1..];
    forall k | 0 <= k <= i ensures t[k] == r[k] {
      if k > j + 1 {
        assert r[k] == p[j + 1..][k - j - 2] == p[k - 1];
      }
    }
    var q := p[j + 1..];
    forall k | 0 <= k < |q| ensures key(x) < key(q[k]) {
      assert q[k] == p[k + j + 1];
    }
  }

  /** Sorting one more element inserts it into the sorted prefix. */
  lemma InsertAllStep<T>(s: seq<T>, i: int, key: T -> int)
    requires 0 <= i < |s|
    ensures InsertAll(s[..i + 1], key) == Insert(InsertAll(s[..i], key), s[i], key)
  {
    assert s[..i + 1][..i] == s[..i];
  }

  /** Dropping x into the hole completes one outer round. */
  lemma DropIn<T>(s: seq<T>, t: seq<T>, s0: seq<T>, p: seq<T>, x: T, i: int, j: int, key: T -> int)
    requires Shifting(s, s0, p, x, i, j, key)
    requires p == InsertAll(s0[..i], key) && x == s0[i]
    requires j < 0 || key(s[j]) <= key(x)
    requires Assigned(s, t, j + 1, x)
    ensures SortedUpTo(t, s0, i + 1, key)
  {
    DropInShape(s, t, s0, p, x, i, j, key);
    InsertAt(p, x, j + 1, key);
    InsertAllStep(s0, i, key);
  }

  /** One pass of the outer loop: hold a[i] aside, shift the elements of
      a[0..i) whose key is greater one slot right, and drop it into the gap. */
  method InsertRound<T>(a: array<T>, ghost s0: seq<T>, i: int, key: T -> int)
    requires 0 < i < a.Length && SortedUpTo(a[..], s0, i, key)
    modifies a
    ensures SortedUpTo(a[..], s0, i + 1, key)
  {
    var x := a[i];
    var j := i - 1;
    ghost var p := a[..i];
    StartShifting(a[..], s0, i, key);
    while j >= 0 && key(a[j]) > key(x)
      invariant Shifting(a[..], s0, p, x, i, j, key)
    {
      ghost var before := a[..];
      a[j + 1] := a[j];
      ShiftStep(before, a[..], s0, p, x, i, j, key);
      j := j - 1;
    }
    ghost var before := a[..];
    a[j + 1] := x;
    DropIn(before, a[..], s0, p, x, i, j, key);
  }

  /** `sort(arr, n)`: insert a[1], a[2], ..., a[n-1] in turn into the sorted
      prefix before it. The prefix ends as the functional insertion sort of
      what it held; nothing from n on changes. */
  method Sort<T>(a: array<T>, n: int, key: T -> int)
    requires 0 <= n <= a.Length
    modifies a
    ensures a[..n] == InsertAll(old(a[..n]), key)
    ensures a[n..] == old(a[n..])
  {
    ghost var s0 := a[..];
    var i := 1;
    assert n > 0 ==> InsertAll(s0[..1], key) == s0[..1];
    while i < n
      invariant 1 <= i && (n == 0 || i <= n)
      invariant i <= n ==> SortedUpTo(a[..], s0, i, key)
      invariant n == 0 ==> a[..] == s0
    {
      InsertRound(a, s0, i, key);
      i := i + 1;
    }
    if n == 0 {
      assert a[..n] == [];
    }
  }
}
