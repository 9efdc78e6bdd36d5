/** Order and permutation facts shared by the in-place array sorts.
    Every sort is generic in its element type and compares elements through a
    key function, which stands for the source's `<`, `<=` and `>` on T. */
module SortSpec {

  /** s is in non-decreasing key order. */
  predicate SortedBy<T>(s: seq<T>, key: T -> int)
  {
    forall i, j :: 0 <= i < j < |s| ==> key(s[i]) <= key(s[j])
  }

  /** Every element of s has a key of at most b. */
  predicate AllAtMost<T>(s: seq<T>, b: int, key: T -> int)
  {
    forall i :: 0 <= i < |s| ==> key(s[i]) <= b
  }

  /** Every element of s has a key greater than b. */
  predicate AllAbove<T>(s: seq<T>, b: int, key: T -> int)
  {
    forall i :: 0 <= i < |s| ==> b < key(s[i])
  }

  /** t is s with cell k overwritten by v: the effect of one array store. */
  ghost predicate Assigned<T>(s: seq<T>, t: seq<T>, k: int, v: T)
  {
    && |s| == |t| && 0 <= k < |s| && t[k] == v
    && forall m :: 0 <= m < |s| && m != k ==> t[m] == s[m]
  }

  /** t is s with the cells i and j exchanged. */
  ghost predicate Swapped<T>(s: seq<T>, t: seq<T>, i: int, j: int)
  {
    && SwapIndices(s, t, i, j)
    && t[i] == s[j] && t[j] == s[i]
    && forall k :: 0 <= k < |s| && k != i && k != j ==> t[k] == s[k]
  }

  /** i and j are indices of both s and t, which have the same length. */
  predicate SwapIndices<T>(s: seq<T>, t: seq<T>, i: int, j: int)
  {
    |s| == |t| && 0 <= i < |s| && 0 <= j < |s|
  }

  /** Swapping two cells keeps the multiset of a sequence. */
  lemma SwapMultiset<T>(s: seq<T>, t: seq<T>, i: int, j: int)
    requires Swapped(s, t, i, j)
    ensures multiset(t) == multiset(s)
  {
    assert t == s[i := s[j]][j := s[i]];
    if i != j {
      var u := s[i := s[j]];
      assert multiset(u) == multiset(s) - multiset{s[i]} + multiset{s[j]};
    }
  }

  /** A store, seen as a sequence update. */
  lemma AssignedIsUpdate<T>(s: seq<T>, t: seq<T>, k: int, v: T)
    requires Assigned(s, t, k, v)
    ensures t == s[k := v]
  {
  }

  /** Two arrays' contents that are permutations of each other and agree
      outside [lo, hi) are permutations of each other inside [lo, hi). */
  lemma SliceMultiset<T>(s: seq<T>, t: seq<T>, lo: int, hi: int)
    requires 0 <= lo <= hi <= |s| == |t|
    requires multiset(s) == multiset(t)
    requires s[..lo] == t[..lo] && s[hi..] == t[hi..]
    ensures multiset(s[lo..hi]) == multiset(t[lo..hi])
  {
    assert s == s[..lo] + s[lo..hi] + s[hi..];
    assert t == t[..lo] + t[lo..hi] + t[hi..];
    assert multiset(s) == multiset(s[..lo]) + multiset(s[lo..hi]) + multiset(s[hi..]);
    assert multiset(t) == multiset(t[..lo]) + multiset(t[lo..hi]) + multiset(t[hi..]);
    assert multiset(s[lo..hi]) == multiset(s) - multiset(s[..lo]) - multiset(s[hi..]);
    assert multiset(t[lo..hi]) == multiset(t) - multiset(t[..lo]) - multiset(t[hi..]);
  }

  /** A bound on every key survives a permutation. */
  lemma AtMostPermutation<T>(s: seq<T>, t: seq<T>, b: int, key: T -> int)
    requires multiset(s) == multiset(t)
    requires AllAtMost(t, b, key)
    ensures AllAtMost(s, b, key)
  {
    forall i | 0 <= i < |s| ensures key(s[i]) <= b {
      assert s[i] in multiset(t);
      var j :| 0 <= j < |t| && t[j] == s[i];
    }
  }

  /** A strict lower bound on every key survives a permutation. */
  lemma AbovePermutation<T>(s: seq<T>, t: seq<T>, b: int, key: T -> int)
    requires multiset(s) == multiset(t)
    requires AllAbove(t, b, key)
    ensures AllAbove(s, b, key)
  {
    forall i | 0 <= i < |s| ensures b < key(s[i]) {
      assert s[i] in multiset(t);
      var j :| 0 <= j < |t| && t[j] == s[i];
    }
  }
}
