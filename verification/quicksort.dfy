/** The in-place quicksort of QuickSort.java: median-of-three pivot choice,
    a Hoare-style partition whose scans are bounded by sentinels, and
    unrolled compare-and-swap for ranges of at most three elements. Ranges
    are inclusive, [left, right], as in the source; the empty array is the
    range [0, -1]. */
module QuickSort {
  import opened Comparison

  /** Sorts the whole array in place and hands back the same array. */
  method Sort<T(!new)>(a: array<T>, cmp: (T, T) -> int) returns (r: array<T>)
    requires IsTotalPreorder(cmp)
    modifies a
    ensures r == a
    ensures Sorted(a[..], cmp)
    ensures multiset(a[..]) == multiset(old(a[..]))
    ensures a.Length <= 1 ==> a[..] == old(a[..])
    ensures IsTotalOrder(cmp) && Sorted(old(a[..]), cmp) ==> a[..] == old(a[..])
  {
    RecQuickSort(a, 0, a.Length - 1, cmp);
    assert a[..] == a[0..a.Length];
    if IsTotalOrder(cmp) && Sorted(old(a[..]), cmp) {
      SortedPermutationUnique(a[..], old(a[..]), cmp);
    }
    r := a;
  }

  /** Sorts a[left..right]; nothing outside the range moves. */
  method RecQuickSort<T(!new)>(a: array<T>, left: int, right: int, cmp: (T, T) -> int)
    requires IsTotalPreorder(cmp)
    requires 0 <= left <= right + 1 <= a.Length
    modifies a
    ensures SortedRange(a[..], left, right + 1, cmp)
    ensures multiset(a[..]) == multiset(old(a[..]))
    ensures SameOutside(a[..], old(a[..]), left, right + 1)
    ensures right - left + 1 <= 1 ==> a[..] == old(a[..])
    decreases right - left + 1
  {
    var size := right - left + 1;
    if size <= 3 {
      ManualSort(a, left, right, cmp);
    } else {
      var median := MedianOf3(a, left, right, cmp);
      var partition := PartitionIt(a, left, right, median, cmp);
      ghost var pivot := a[partition];
      ghost var parted := a[..];
      RecQuickSort(a, left, partition - 1, cmp);
      ghost var leftDone := a[..];
      PermutationKeepsAtMost(leftDone, parted, left, partition, pivot, cmp);
      RecQuickSort(a, partition + 1, right, cmp);
      ghost var bothDone := a[..];
      PermutationKeepsAtLeast(bothDone, leftDone, partition + 1, right + 1, pivot, cmp);
      assert SortedRange(bothDone, left, partition, cmp) by {
        assert forall k :: left <= k < partition ==> bothDone[k] == leftDone[k];
      }
      assert AllAtMost(bothDone, left, partition, pivot, cmp) by {
        assert forall k :: left <= k < partition ==> bothDone[k] == leftDone[k];
      }
      JoinAroundPivot(bothDone, left, partition, right + 1, cmp);
    }
  }

  /** Orders a[left], a[center], a[right] and parks the median at right - 1,
      where it serves as the pivot; a[left] and a[right] become the sentinels
      that bound the partition's scans. */
  method MedianOf3<T(!new)>(a: array<T>, left: int, right: int, cmp: (T, T) -> int) returns (pivot: int)
    requires IsTotalPreorder(cmp)
    requires 0 <= left && right < a.Length && right - left + 1 >= 4
    modifies a
    ensures pivot == right - 1
    ensures cmp(a[left], a[pivot]) <= 0 <= cmp(a[right], a[pivot])
    ensures multiset(a[..]) == multiset(old(a[..]))
    ensures forall k :: 0 <= k < a.Length && k != left && k != left + (right - left) / 2 && k != right - 1 && k != right
                        ==> a[k] == old(a[k])
  {
    var center := left + (right - left) / 2;
    if cmp(a[left], a[center]) > 0 {
      Antisymmetric(cmp, a[left], a[center]);
      Swap(a, left, center);
    }
    if cmp(a[left], a[right]) > 0 {
      Antisymmetric(cmp, a[left], a[right]);
      Transitive(cmp, a[right], a[left], a[center]);
      Swap(a, left, right);
    }
    if cmp(a[center], a[right]) > 0 {
      Antisymmetric(cmp, a[center], a[right]);
      Swap(a, center, right);
    }
    assert cmp(a[left], a[center]) <= 0 && cmp(a[center], a[right]) <= 0;
    Antisymmetric(cmp, a[center], a[right]);
    Swap(a, center, right - 1);
    pivot := right - 1;
  }

  /** Exchanges a[left] and a[right] (the two may coincide). */
  method Swap<T>(a: array<T>, left: int, right: int)
    requires 0 <= left < a.Length && 0 <= right < a.Length
    modifies a
    ensures a[left] == old(a[right]) && a[right] == old(a[left])
    ensures forall k :: 0 <= k < a.Length && k != left && k != right ==> a[k] == old(a[k])
    ensures multiset(a[..]) == multiset(old(a[..]))
  {
    var temp := a[left];
    a[left] := a[right];
    a[right] := temp;
  }

  /** Partitions a[left..right] around the pivot parked at right - 1 and
      returns the pivot's final index. The scans need no bounds checks: the
      left scan stops at the pivot itself (or at an element swapped up past
      it), the right scan at a[left] (or at an element swapped down). */
  method PartitionIt<T(!new)>(a: array<T>, left: int, right: int, pivot: int, cmp: (T, T) -> int) returns (p: int)
    requires IsTotalPreorder(cmp)
    requires 0 <= left && right < a.Length && right - left + 1 >= 4
    requires pivot == right - 1
    requires cmp(a[left], a[pivot]) <= 0 <= cmp(a[right], a[pivot])
    modifies a
    ensures left < p < right
    ensures a[p] == old(a[pivot])
    ensures AllAtMost(a[..], left, p, a[p], cmp)
    ensures AllAtLeast(a[..], p + 1, right + 1, a[p], cmp)
    ensures multiset(a[..]) == multiset(old(a[..]))
    ensures SameOutside(a[..], old(a[..]), left + 1, right)
  {
    ghost var pv := a[pivot];
    Antisymmetric(cmp, pv, pv);
    var leftPtr := left;
    var rightPtr := right - 1;
    while true
      invariant left <= leftPtr < rightPtr <= right - 1
      invariant a[pivot] == pv
      invariant forall k :: left <= k <= leftPtr ==> cmp(a[k], pv) <= 0
      invariant forall k :: rightPtr <= k <= right ==> cmp(a[k], pv) >= 0
      invariant multiset(a[..]) == multiset(old(a[..]))
      invariant forall k :: 0 <= k < a.Length && !(left < k < right) ==> a[k] == old(a[k])
      decreases rightPtr - leftPtr
    {
      ghost var startLeft, startRight := leftPtr, rightPtr;
      leftPtr := leftPtr + 1;
      while cmp(a[leftPtr], a[pivot]) < 0
        invariant startLeft < leftPtr <= startRight
        invariant forall k :: left <= k < leftPtr ==> cmp(a[k], pv) <= 0
        decreases startRight - leftPtr
      {
        leftPtr := leftPtr + 1;
      }
      rightPtr := rightPtr - 1;
      while cmp(a[rightPtr], a[pivot]) > 0
        invariant leftPtr - 1 <= rightPtr < startRight
        invariant forall k :: rightPtr < k <= right ==> cmp(a[k], pv) >= 0
        decreases rightPtr
      {
        rightPtr := rightPtr - 1;
      }
      if leftPtr >= rightPtr {
        break;
      }
      Swap(a, leftPtr, rightPtr);
    }
    Swap(a, leftPtr, right - 1);
    p := leftPtr;
  }

  /** Sorts a range of at most three elements with at most three
      compare-and-swaps; a range of at most one element is left alone. */
  method ManualSort<T(!new)>(a: array<T>, left: int, right: int, cmp: (T, T) -> int)
    requires IsTotalPreorder(cmp)
    requires 0 <= left <= right + 1 <= a.Length && right - left + 1 <= 3
    modifies a
    ensures SortedRange(a[..], left, right + 1, cmp)
    ensures multiset(a[..]) == multiset(old(a[..]))
    ensures SameOutside(a[..], old(a[..]), left, right + 1)
    ensures right - left + 1 <= 1 ==> a[..] == old(a[..])
  {
    var size := right - left + 1;
    if size <= 1 {
      return;
    }
    if size == 2 {
      if cmp(a[left], a[right]) > 0 {
        Antisymmetric(cmp, a[left], a[right]);
        Swap(a, left, right);
      }
    } else {
      if cmp(a[left], a[right - 1]) > 0 {
        Antisymmetric(cmp, a[left], a[right - 1]);
        Swap(a, left, right - 1);
      }
      if cmp(a[left], a[right]) > 0 {
        Antisymmetric(cmp, a[left], a[right]);
        Transitive(cmp, a[right], a[left], a[right - 1]);
        Swap(a, left, right);
      }
      if cmp(a[right - 1], a[right]) > 0 {
        Antisymmetric(cmp, a[right - 1], a[right]);
        Swap(a, right - 1, right);
      }
    }
  }
}
