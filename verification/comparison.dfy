/** Comparators in the Java sense (negative, zero or positive), what it means
    for a sequence to be sorted by one, and the permutation facts the sorter
    and the growable array rely on. */
module Comparison {

  /** x may be placed before y: cmp(x, y) is not positive. */
  ghost predicate Le<T>(cmp: (T, T) -> int, x: T, y: T) {
    cmp(x, y) <= 0
  }

  /** The comparator induces a total preorder: the sign of cmp(x, y) is the
      opposite of the sign of cmp(y, x), and Le is transitive. This is the
      contract a caller of the sort routines must meet. The laws are
      triggered on Le only, so that they are used where a proof asks for
      them through the lemmas below and not on every comparison in sight. */
  ghost predicate IsTotalPreorder<T(!new)>(cmp: (T, T) -> int) {
    && (forall x, y {:trigger Le(cmp, x, y)} :: cmp(x, y) > 0 <==> cmp(y, x) < 0)
    && (forall x, y, z {:trigger Le(cmp, x, y), Le(cmp, y, z)} :: Le(cmp, x, y) && Le(cmp, y, z) ==> Le(cmp, x, z))
  }

  /** A total order: additionally, elements that compare equal are equal
      (Comparator.naturalOrder() on Integer or String is one). */
  ghost predicate IsTotalOrder<T(!new)>(cmp: (T, T) -> int) {
    && IsTotalPreorder(cmp)
    && (forall x, y {:trigger Le(cmp, x, y)} :: cmp(x, y) == 0 ==> x == y)
  }

  lemma Antisymmetric<T(!new)>(cmp: (T, T) -> int, x: T, y: T)
    requires IsTotalPreorder(cmp)
    ensures cmp(x, y) > 0 <==> cmp(y, x) < 0
    ensures cmp(x, x) == 0
  {
    assert Le(cmp, x, y) || !Le(cmp, x, y);
    assert Le(cmp, x, x);
  }

  lemma Transitive<T(!new)>(cmp: (T, T) -> int, x: T, y: T, z: T)
    requires IsTotalPreorder(cmp)
    requires cmp(x, y) <= 0 && cmp(y, z) <= 0
    ensures cmp(x, z) <= 0
  {
    assert Le(cmp, x, y) && Le(cmp, y, z);
    assert Le(cmp, x, z);
  }

  lemma EquivalentAreEqual<T(!new)>(cmp: (T, T) -> int, x: T, y: T)
    requires IsTotalOrder(cmp)
    requires cmp(x, y) == 0
    ensures x == y
  {
    assert Le(cmp, x, y);
  }

  /** s[lo..hi) is non-decreasing under cmp. */
  ghost predicate SortedRange<T>(s: seq<T>, lo: int, hi: int, cmp: (T, T) -> int)
    requires 0 <= lo <= hi <= |s|
  {
    forall i, j :: lo <= i < j < hi ==> cmp(s[i], s[j]) <= 0
  }

  ghost predicate Sorted<T>(s: seq<T>, cmp: (T, T) -> int) {
    SortedRange(s, 0, |s|, cmp)
  }

  /** Every element of s[lo..hi) compares at most pivot. */
  ghost predicate AllAtMost<T>(s: seq<T>, lo: int, hi: int, pivot: T, cmp: (T, T) -> int)
    requires 0 <= lo <= hi <= |s|
  {
    forall k :: lo <= k < hi ==> cmp(s[k], pivot) <= 0
  }

  /** Every element of s[lo..hi) compares at least pivot. */
  ghost predicate AllAtLeast<T>(s: seq<T>, lo: int, hi: int, pivot: T, cmp: (T, T) -> int)
    requires 0 <= lo <= hi <= |s|
  {
    forall k :: lo <= k < hi ==> cmp(s[k], pivot) >= 0
  }

  /** s and t differ at most inside [lo, hi). */
  ghost predicate SameOutside<T>(s: seq<T>, t: seq<T>, lo: int, hi: int) {
    |s| == |t| && forall k :: 0 <= k < |s| && !(lo <= k < hi) ==> s[k] == t[k]
  }

  /** A sequence's multiset is the sum of the multisets of its three parts. */
  lemma ThreeParts<T>(s: seq<T>, lo: int, hi: int)
    requires 0 <= lo <= hi <= |s|
    ensures multiset(s) == multiset(s[..lo]) + multiset(s[lo..hi]) + multiset(s[hi..])
  {
    assert s == s[..lo] + s[lo..hi] + s[hi..];
  }

  /** Multiset sums cancel a common part. */
  lemma CancelOutside<T>(a: multiset<T>, b: multiset<T>, p: multiset<T>, q: multiset<T>)
    requires p + a + q == p + b + q
    ensures a == b
  {
    forall x ensures a[x] == b[x] {
      assert (p + a + q)[x] == (p + b + q)[x];
    }
  }

  /** A rearrangement of the whole sequence that leaves everything outside
      [lo, hi) in place is a rearrangement of [lo, hi). */
  lemma RangePermutation<T>(s: seq<T>, t: seq<T>, lo: int, hi: int)
    requires 0 <= lo <= hi <= |s|
    requires SameOutside(s, t, lo, hi)
    requires multiset(s) == multiset(t)
    ensures multiset(s[lo..hi]) == multiset(t[lo..hi])
  {
    ThreeParts(s, lo, hi);
    ThreeParts(t, lo, hi);
    assert t[..lo] == s[..lo] && t[hi..] == s[hi..];
    CancelOutside(multiset(s[lo..hi]), multiset(t[lo..hi]), multiset(s[..lo]), multiset(s[hi..]));
  }

  /** Each element of the rearranged range came from somewhere in the range. */
  lemma ElementOrigin<T>(s: seq<T>, t: seq<T>, lo: int, hi: int, k: int) returns (j: int)
    requires 0 <= lo <= k < hi <= |s|
    requires SameOutside(s, t, lo, hi)
    requires multiset(s) == multiset(t)
    ensures lo <= j < hi && t[j] == s[k]
  {
    RangePermutation(s, t, lo, hi);
    assert s[lo..hi][k - lo] == s[k];
    assert s[k] in multiset(t[lo..hi]);
    var i :| 0 <= i < hi - lo && t[lo..hi][i] == s[k];
    j := lo + i;
  }

  /** Rearranging a range keeps an upper bound on it. */
  lemma PermutationKeepsAtMost<T>(s: seq<T>, t: seq<T>, lo: int, hi: int, pivot: T, cmp: (T, T) -> int)
    requires 0 <= lo <= hi <= |s|
    requires SameOutside(s, t, lo, hi)
    requires multiset(s) == multiset(t)
    requires AllAtMost(t, lo, hi, pivot, cmp)
    ensures AllAtMost(s, lo, hi, pivot, cmp)
  {
    forall k | lo <= k < hi
      ensures cmp(s[k], pivot) <= 0
    {
      var j := ElementOrigin(s, t, lo, hi, k);
    }
  }

  /** Rearranging a range keeps a lower bound on it. */
  lemma PermutationKeepsAtLeast<T>(s: seq<T>, t: seq<T>, lo: int, hi: int, pivot: T, cmp: (T, T) -> int)
    requires 0 <= lo <= hi <= |s|
    requires SameOutside(s, t, lo, hi)
    requires multiset(s) == multiset(t)
    requires AllAtLeast(t, lo, hi, pivot, cmp)
    ensures AllAtLeast(s, lo, hi, pivot, cmp)
  {
    forall k | lo <= k < hi
      ensures cmp(s[k], pivot) >= 0
    {
      var j := ElementOrigin(s, t, lo, hi, k);
    }
  }

  /** Two sorted ranges on either side of a pivot that separates them make one
      sorted range: the combining step of quicksort. */
  lemma JoinAroundPivot<T(!new)>(s: seq<T>, lo: int, p: int, hi: int, cmp: (T, T) -> int)
    requires IsTotalPreorder(cmp)
    requires 0 <= lo <= p < hi <= |s|
    requires SortedRange(s, lo, p, cmp) && SortedRange(s, p + 1, hi, cmp)
    requires AllAtMost(s, lo, p, s[p], cmp) && AllAtLeast(s, p + 1, hi, s[p], cmp)
    ensures SortedRange(s, lo, hi, cmp)
  {
    forall i, j | lo <= i < j < hi
      ensures cmp(s[i], s[j]) <= 0
    {
      if j > p {
        Antisymmetric(cmp, s[p], s[j]);
        if i < p {
          Transitive(cmp, s[i], s[p], s[j]);
        }
      }
    }
  }

  /** A sequence whose neighbours are in order is sorted. */
  lemma {:induction false} AdjacentSorted<T(!new)>(s: seq<T>, cmp: (T, T) -> int)
    requires IsTotalPreorder(cmp)
    requires forall i :: 0 < i < |s| ==> cmp(s[i - 1], s[i]) <= 0
    ensures Sorted(s, cmp)
  {
    forall i, j | 0 <= i < j < |s|
      ensures cmp(s[i], s[j]) <= 0
    {
      AdjacentChain(s, i, j, cmp);
    }
  }

  lemma {:induction false} AdjacentChain<T(!new)>(s: seq<T>, i: int, j: int, cmp: (T, T) -> int)
    requires IsTotalPreorder(cmp)
    requires forall i :: 0 < i < |s| ==> cmp(s[i - 1], s[i]) <= 0
    requires 0 <= i < j < |s|
    ensures cmp(s[i], s[j]) <= 0
    decreases j - i
  {
    if i < j - 1 {
      AdjacentChain(s, i, j - 1, cmp);
      Transitive(cmp, s[i], s[j - 1], s[j]);
    }
  }

  /** The first element of a sorted sequence compares at most the first
      element of any rearrangement of it. */
  lemma SortedHeadIsLeast<T(!new)>(s: seq<T>, t: seq<T>, cmp: (T, T) -> int)
    requires IsTotalPreorder(cmp)
    requires Sorted(t, cmp) && multiset(s) == multiset(t) && |s| > 0
    ensures |t| > 0 && cmp(t[0], s[0]) <= 0
  {
    assert s[0] in multiset(t);
    var j :| 0 <= j < |t| && t[j] == s[0];
    if j == 0 {
      Antisymmetric(cmp, s[0], s[0]);
    }
  }

  /** Two sorted rearrangements of one multiset under a total order start
      with the same element. */
  lemma HeadsEqual<T(!new)>(s: seq<T>, t: seq<T>, cmp: (T, T) -> int)
    requires IsTotalOrder(cmp)
    requires Sorted(s, cmp) && Sorted(t, cmp)
    requires multiset(s) == multiset(t) && |s| > 0
    ensures |t| > 0 && s[0] == t[0]
  {
    SortedHeadIsLeast(s, t, cmp);
    SortedHeadIsLeast(t, s, cmp);
    Antisymmetric(cmp, s[0], t[0]);
    Antisymmetric(cmp, t[0], s[0]);
    EquivalentAreEqual(cmp, s[0], t[0]);
  }

  /** Removing the same first element from two rearrangements of one
      multiset leaves two rearrangements of one multiset. */
  lemma TailPermutation<T>(s: seq<T>, t: seq<T>)
    requires |s| > 0 && |t| > 0 && s[0] == t[0]
    requires multiset(s) == multiset(t)
    ensures multiset(s[1..]) == multiset(t[1..])
  {
    assert s == [s[0]] + s[1..];
    assert t == [t[0]] + t[1..];
    assert multiset(s) == multiset{s[0]} + multiset(s[1..]);
    assert multiset(t) == multiset{t[0]} + multiset(t[1..]);
    forall x ensures multiset(s[1..])[x] == multiset(t[1..])[x] {
      assert multiset(s)[x] == multiset(t)[x];
    }
  }

  /** Under a total order there is only one sorted arrangement of a multiset:
      sorting a sorted sequence gives it back unchanged. */
  lemma {:induction false} SortedPermutationUnique<T(!new)>(s: seq<T>, t: seq<T>, cmp: (T, T) -> int)
    requires IsTotalOrder(cmp)
    requires Sorted(s, cmp) && Sorted(t, cmp)
    requires multiset(s) == multiset(t)
    ensures s == t
    decreases |s|
  {
    assert |s| == |multiset(s)| == |multiset(t)| == |t|;
    if |s| > 0 {
      HeadsEqual(s, t, cmp);
      TailPermutation(s, t);
      assert Sorted(s[1..], cmp) && Sorted(t[1..], cmp);
      SortedPermutationUnique(s[1..], t[1..], cmp);
      assert s == [s[0]] + s[1..];
    }
  }
}
