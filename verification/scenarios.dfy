/** The scenarios of the unit tests, stated over the model: the comparators
    they use meet the sorting contract, and the contract alone fixes the
    sorted output. */
module Scenarios {
  import opened Comparison
  import QuickSort
  import opened CustomArray

  /** Integer.compare, which Comparator.naturalOrder() uses on Integer. */
  function NaturalOrder(x: int, y: int): (c: int) {
    if x < y then -1 else if x == y then 0 else 1
  }

  /** Comparator.reverseOrder() on Integer. */
  function ReverseOrder(x: int, y: int): (c: int) {
    NaturalOrder(y, x)
  }

  lemma NaturalOrderIsTotalOrder()
    ensures IsTotalOrder(NaturalOrder)
  {
    forall x: int, y: int
      ensures NaturalOrder(x, y) > 0 <==> NaturalOrder(y, x) < 0
      ensures NaturalOrder(x, y) == 0 ==> x == y
    {
    }
    forall x: int, y: int, z: int | Le(NaturalOrder, x, y) && Le(NaturalOrder, y, z)
      ensures Le(NaturalOrder, x, z)
    {
    }
  }

  lemma ReverseOrderIsTotalOrder()
    ensures IsTotalOrder(ReverseOrder)
  {
    forall x: int, y: int
      ensures ReverseOrder(x, y) > 0 <==> ReverseOrder(y, x) < 0
      ensures ReverseOrder(x, y) == 0 ==> x == y
    {
    }
    forall x: int, y: int, z: int | Le(ReverseOrder, x, y) && Le(ReverseOrder, y, z)
      ensures Le(ReverseOrder, x, z)
    {
    }
  }

  /** The expected outputs rearrange the test inputs. */
  lemma AscendingPermutation()
    ensures multiset([1, 2, 3, 5, 8]) == multiset([5, 3, 8, 1, 2])
  {
  }

  lemma DescendingPermutation()
    ensures multiset([8, 5, 3, 2, 1]) == multiset([5, 3, 8, 1, 2])
  {
  }

  lemma DuplicatesPermutation()
    ensures multiset([1, 2, 3, 3, 5, 5, 8]) == multiset([5, 3, 8, 1, 2, 3, 5])
  {
  }

  /** Whatever sorts [5, 3, 8, 1, 2] ascending yields [1, 2, 3, 5, 8]. */
  lemma AscendingScenario(t: seq<int>)
    requires Sorted(t, NaturalOrder) && multiset(t) == multiset([5, 3, 8, 1, 2])
    ensures t == [1, 2, 3, 5, 8]
  {
    NaturalOrderIsTotalOrder();
    AdjacentSorted([1, 2, 3, 5, 8], NaturalOrder);
    AscendingPermutation();
    SortedPermutationUnique(t, [1, 2, 3, 5, 8], NaturalOrder);
  }

  /** Whatever sorts [5, 3, 8, 1, 2] descending yields [8, 5, 3, 2, 1]. */
  lemma DescendingScenario(t: seq<int>)
    requires Sorted(t, ReverseOrder) && multiset(t) == multiset([5, 3, 8, 1, 2])
    ensures t == [8, 5, 3, 2, 1]
  {
    ReverseOrderIsTotalOrder();
    AdjacentSorted([8, 5, 3, 2, 1], ReverseOrder);
    DescendingPermutation();
    SortedPermutationUnique(t, [8, 5, 3, 2, 1], ReverseOrder);
  }

  /** Duplicates survive: [5, 3, 8, 1, 2, 3, 5] sorts to [1, 2, 3, 3, 5, 5, 8]. */
  lemma DuplicatesScenario(t: seq<int>)
    requires Sorted(t, NaturalOrder) && multiset(t) == multiset([5, 3, 8, 1, 2, 3, 5])
    ensures t == [1, 2, 3, 3, 5, 5, 8]
  {
    NaturalOrderIsTotalOrder();
    AdjacentSorted([1, 2, 3, 3, 5, 5, 8], NaturalOrder);
    DuplicatesPermutation();
    SortedPermutationUnique(t, [1, 2, 3, 3, 5, 5, 8], NaturalOrder);
  }

  /** QuickSort.sort on {5, 3, 8, 1, 2} with Comparator.naturalOrder(). */
  method SortAscending() returns (sorted: seq<int>)
    ensures sorted == [1, 2, 3, 5, 8]
  {
    NaturalOrderIsTotalOrder();
    var a := new int[5] [5, 3, 8, 1, 2];
    assert a[..] == [5, 3, 8, 1, 2];
    var _ := QuickSort.Sort(a, NaturalOrder);
    AscendingScenario(a[..]);
    sorted := a[..];
  }

  /** QuickSort.sort on {5, 3, 8, 1, 2, 3, 5} with Comparator.naturalOrder(). */
  method SortDuplicates() returns (sorted: seq<int>)
    ensures sorted == [1, 2, 3, 3, 5, 5, 8]
  {
    NaturalOrderIsTotalOrder();
    var a := new int[7] [5, 3, 8, 1, 2, 3, 5];
    assert a[..] == [5, 3, 8, 1, 2, 3, 5];
    var _ := QuickSort.Sort(a, NaturalOrder);
    DuplicatesScenario(a[..]);
    sorted := a[..];
  }

  /** QuickSort.sort on {5, 3, 8, 1, 2} with Comparator.reverseOrder(). */
  method SortDescending() returns (sorted: seq<int>)
    ensures sorted == [8, 5, 3, 2, 1]
  {
    ReverseOrderIsTotalOrder();
    var a := new int[5] [5, 3, 8, 1, 2];
    assert a[..] == [5, 3, 8, 1, 2];
    var _ := QuickSort.Sort(a, ReverseOrder);
    DescendingScenario(a[..]);
    sorted := a[..];
  }

  /** A list of capacity 2 and load factor 75 grows to 4 on its second add
      and then holds 0, 1, 2. */
  method GrowthScenario() returns (contents: seq<int>, capacity: nat)
    ensures contents == [0, 1, 2] && capacity == 4
  {
    var created := MyCustomArray<int>.New(2, 75);
    var list := created.value;
    var r0 := list.Add(0);
    var r1 := list.Add(1);
    var r2 := list.Add(2);
    var a := list.ToArray();
    contents, capacity := a[..], list.arr.Length;
  }

  /** In the model, a list built with capacity 0 never takes an element and
      stays empty; Java's add leaves its size at 1 after the failed store. */
  method ZeroCapacityScenario() returns (r: Result<bool>, s: nat)
    ensures r.Failure? && s == 0
  {
    var created := MyCustomArray<int>.New(0, 75);
    var list := created.value;
    r := list.Add(7);
    s := list.Size();
  }

  /** add(0), add(1), add(1, 5) on a default list gives [0, 5, 1]. */
  method AddAtScenario() returns (contents: seq<int>)
    ensures contents == [0, 5, 1]
  {
    var list := new MyCustomArray<int>.Default();
    var r0 := list.Add(0);
    var r1 := list.Add(1);
    var r2 := list.AddAt(1, 5);
    contents := [list.Get(0).value, list.Get(1).value, list.Get(2).value];
  }

  /** remove(1) on [0, 1, 2] returns 1 and leaves [0, 2]. */
  method RemoveScenario() returns (removed: int, contents: seq<int>)
    ensures removed == 1 && contents == [0, 2]
  {
    var list := new MyCustomArray<int>.Default();
    var r0 := list.Add(0);
    var r1 := list.Add(1);
    var r2 := list.Add(2);
    var r := list.Remove(1);
    removed := r.value;
    var a := list.ToArray();
    contents := a[..];
  }
}
