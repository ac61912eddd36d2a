# MyCustomArray and QuickSort, modelled in Dafny

This project models two Java classes and proves properties about them.

- `MyCustomArray<T>` is a growable array in the manner of `java.util.ArrayList`.
  It keeps a backing `Object[]`, a `size` and a fixed load-factor percentage.
  The backing array doubles once when a requested minimum capacity exceeds
  `length * loadFactorPercent / 100` (integer division).
- `QuickSort` is an in-place recursive quicksort driven by a `Comparator`.
  It picks the pivot by median of three, partitions Hoare-style with
  sentinels instead of bounds checks, and sorts ranges of three or fewer
  elements by unrolled compare-and-swap.

Files:

- `comparison.dfy`, module `Comparison`. It holds the comparator contract
  (`IsTotalPreorder`, `IsTotalOrder`), sortedness of a range, and the
  permutation lemmas the sorter needs. It also proves that a sorted
  rearrangement is unique under a total order. `Antisymmetric`, `Transitive`
  and `EquivalentAreEqual` are the comparator contract, instantiated at given
  elements.
- `quicksort.dfy`, module `QuickSort`. It has one method per Java method,
  working on a Dafny `array<T>` in place. Every method keeps the array a
  permutation of itself. `Sort`, `RecQuickSort` and `ManualSort` are proved
  to sort their range and to leave everything outside it alone. `Swap`
  exchanges two slots and touches nothing else. `MedianOf3` orders three
  elements, parks the pivot at `right - 1` and touches only four indices.
  `PartitionIt` splits its range around the pivot and returns the pivot's
  final index. `PartitionIt`'s pointer scans carry no bounds checks, as
  in Java. Their in-bounds accesses are proved from the sentinels that
  `MedianOf3` leaves at `left` and at `right - 1`.
- `custom_array.dfy`, module `CustomArray`. The class `MyCustomArray` has
  `arr: array<Option<T>>` (Java's `null` slots are `None`), `size` and
  `loadFactorPercent`. It also has a ghost `Elements`, the list the object
  stands for. `Valid()` is the class invariant: the first `size` slots hold
  `Elements` in order, every later slot is empty, and `size <= arr.Length`.
  Every mutating method keeps `Valid()`. It also states the new `Elements`
  in terms of the old one and says what did not change.
- `scenarios.dfy`, module `Scenarios`. It restates the unit tests' scenarios
  over the model. `Comparator.naturalOrder()` and `Comparator.reverseOrder()`
  on integers are proved to be total orders, so they meet the sort contract.
  The sort contract alone then fixes each expected output. The scenario
  methods call the model's methods, and verification fixes their results.

Java exceptions become a `Result` value whose `Failure` carries an `Error`.
An `Error` is `InvalidCapacity`, `InvalidLoadFactor` or `IndexOutOfRange`.
When a call fails, the list is left as it was. A comparator is a function
`cmp: (T, T) -> int`. Sorting requires it to be a total preorder: the sign of
`cmp(x, y)` is the opposite of the sign of `cmp(y, x)`, and "compares at
most" is transitive.

Where the documentation and the code disagree, the model follows the code:

- The default capacity is 16, as in `DEFAULT_CAPACITY`. The constructor's doc
  comment says ten.
- `QuickSort.sort` never uses natural ordering for a null comparator. It calls
  `compare` unconditionally, so the model always takes a comparator.

## Model

| member | source | states |
|---|---|---|
| `QuickSort.Sort` | src/main/java/org/example/collections/util/QuickSort.java:21-23 | Returns the same array, now sorted under `cmp` and a permutation of the input. Arrays of length 0 or 1 are unchanged. Under a total order, an already sorted array is unchanged. |
| `QuickSort.RecQuickSort` | src/main/java/org/example/collections/util/QuickSort.java:36-47 | Sorts `a[left..right]` as a permutation and changes nothing outside the range. Ranges of length at most 1 are unchanged. Terminates because both recursive ranges are strictly shorter. |
| `QuickSort.MedianOf3` | src/main/java/org/example/collections/util/QuickSort.java:59-72 | Needs at least 4 elements. Returns `right - 1`, with `cmp(a[left], a[right-1]) <= 0 <= cmp(a[right], a[right-1])`. Touches only `left`, `center`, `right - 1` and `right`. Permutation. |
| `QuickSort.Swap` | src/main/java/org/example/collections/util/QuickSort.java:82-86 | Exchanges two slots (possibly the same one) and changes nothing else. Permutation. |
| `QuickSort.PartitionIt` | src/main/java/org/example/collections/util/QuickSort.java:99-113 | After median-of-three, both scans stay inside `[left, right-1]`. Returns `p` with `left < p < right` and `a[p]` the pivot. Everything in `[left, p)` is at most the pivot and everything in `(p, right]` at least it. Changes only `(left, right)`. Permutation. |
| `QuickSort.ManualSort` | src/main/java/org/example/collections/util/QuickSort.java:126-147 | On a range of 2 or 3 elements, at most three compare-and-swaps leave it sorted. Permutation, nothing outside moves. A range of at most one element is unchanged. |
| `Comparison.JoinAroundPivot` | src/main/java/org/example/collections/util/QuickSort.java:41-44 | Two sorted ranges separated by a pivot that bounds them form one sorted range: the step that makes the recursion sort. |
| `Comparison.PermutationKeepsAtMost` | src/main/java/org/example/collections/util/QuickSort.java:43 | Sorting the left part keeps every element there at most the pivot. |
| `Comparison.PermutationKeepsAtLeast` | src/main/java/org/example/collections/util/QuickSort.java:44 | Sorting the right part keeps every element there at least the pivot. |
| `Comparison.RangePermutation` | src/main/java/org/example/collections/util/QuickSort.java:43-44 | A whole-array permutation that leaves everything outside a range alone is a permutation of that range. |
| `Comparison.SortedPermutationUnique` | src/main/java/org/example/collections/util/QuickSort.java:21-23 | Under a total order, two sorted rearrangements of one multiset are equal. So sorting is idempotent. |
| `Comparison.Antisymmetric` | src/main/java/org/example/collections/util/QuickSort.java:61-69 | The comparator contract, instantiated: `cmp(x, y) > 0` iff `cmp(y, x) < 0`, and every element compares equal to itself. The conditional swaps rely on this. |
| `Comparison.Transitive` | src/main/java/org/example/collections/util/QuickSort.java:136-144 | The comparator contract, instantiated: "compares at most" is transitive. The three-element network relies on this. |
| `CustomArray.GrownCapacity` | src/main/java/org/example/MyCustomArray/MyCustomArray.java:207-213 | The new storage length is the old one or exactly twice it, and never smaller. |
| `CustomArray.GrowthMakesRoom` | src/main/java/org/example/MyCustomArray/MyCustomArray.java:78-82 | If the storage length is at least 1 and `size <= length`, growing for `size + 1` gives room for `size + 1`. So every `add` keeps `size <= capacity`. |
| `CustomArray.ZeroCapacityNeverGrows` | src/main/java/org/example/MyCustomArray/MyCustomArray.java:210 | Doubling an empty backing array leaves it empty. |
| `CustomArray.SingleDoublingCanFallShort` | src/main/java/org/example/MyCustomArray/MyCustomArray.java:207-213 | A single call grows only once, so an arbitrary request can stay unsatisfied (a 10% load factor, length 10, request 25 gives 20). |
| `CustomArray.MyCustomArray.constructor` | src/main/java/org/example/MyCustomArray/MyCustomArray.java:53-55 | For valid arguments, the list is empty, the storage length is exactly the capacity and the load factor is as given. |
| `CustomArray.MyCustomArray.New` | src/main/java/org/example/MyCustomArray/MyCustomArray.java:46-56 | Fails with `InvalidCapacity` if the capacity is negative. Otherwise it fails with `InvalidLoadFactor` if the percent is outside 1..100. Otherwise it gives an empty valid list whose storage length is the capacity. |
| `CustomArray.MyCustomArray.Default` | src/main/java/org/example/MyCustomArray/MyCustomArray.java:13-25 | Empty list, capacity 16, load factor 75. |
| `CustomArray.MyCustomArray.FromArray` | src/main/java/org/example/MyCustomArray/MyCustomArray.java:34-37 | Same elements in the same order, capacity `max(n, 16)`, load factor 75. |
| `CustomArray.MyCustomArray.InitializeFromArray` | src/main/java/org/example/MyCustomArray/MyCustomArray.java:64-70 | Copies the source elements into the front of the backing array. `size` becomes their number. |
| `CustomArray.MyCustomArray.Add` | src/main/java/org/example/MyCustomArray/MyCustomArray.java:78-82 | Succeeds with `true` iff the backing array was not empty. Then the new list is the old one plus the element at the end. The storage length follows the growth rule. On failure nothing changes. |
| `CustomArray.MyCustomArray.AddAt` | src/main/java/org/example/MyCustomArray/MyCustomArray.java:92-100 | Fails with `IndexOutOfRange` and no change unless `0 <= index <= size`. Also fails unchanged on an empty backing array. Otherwise the list becomes `old[..index] + [e] + old[index..]`. |
| `CustomArray.MyCustomArray.ShiftRight` | src/main/java/org/example/MyCustomArray/MyCustomArray.java:97 | The overlapping `System.arraycopy` one slot to the right: slots up to `from` keep their value, each slot in `(from, to]` takes its left neighbour's old value, and slots past `to` are untouched. |
| `CustomArray.MyCustomArray.Remove` | src/main/java/org/example/MyCustomArray/MyCustomArray.java:110-121 | Fails with no change unless `0 <= index < size`. Otherwise returns `old[index]`, the list becomes `old[..index] + old[index+1..]`, the slot at the new `size` is empty and the backing array is the same. |
| `CustomArray.MyCustomArray.Get` | src/main/java/org/example/MyCustomArray/MyCustomArray.java:130-135 | Succeeds iff `0 <= index < size`, with the element at `index`. Otherwise `IndexOutOfRange(index, size)`. |
| `CustomArray.MyCustomArray.Set` | src/main/java/org/example/MyCustomArray/MyCustomArray.java:145-152 | Fails with no change unless `0 <= index < size`. Otherwise returns the previous element and replaces it. Nothing else changes, including `size` and the backing array. |
| `CustomArray.MyCustomArray.IndexOf` | src/main/java/org/example/MyCustomArray/MyCustomArray.java:171-182 | Returns the smallest index holding `o`, or -1 iff `o` is absent. |
| `CustomArray.MyCustomArray.Contains` | src/main/java/org/example/MyCustomArray/MyCustomArray.java:160-162 | True iff `o` is in the list. |
| `CustomArray.MyCustomArray.Size` | src/main/java/org/example/MyCustomArray/MyCustomArray.java:189-191 | The length of the list. |
| `CustomArray.MyCustomArray.IsEmpty` | src/main/java/org/example/MyCustomArray/MyCustomArray.java:241-243 | True iff the list is empty. |
| `CustomArray.MyCustomArray.ToArray` | src/main/java/org/example/MyCustomArray/MyCustomArray.java:198-200 | A fresh array holding exactly the live elements, in order. |
| `CustomArray.MyCustomArray.EnsureCapacity` | src/main/java/org/example/MyCustomArray/MyCustomArray.java:207-213 | Above the threshold, a fresh array of exactly twice the length replaces storage. Otherwise storage is the same object. Every existing slot is copied unchanged and the list is unchanged. |
| `CustomArray.MyCustomArray.Clear` | src/main/java/org/example/MyCustomArray/MyCustomArray.java:229-234 | The list becomes empty, every slot is empty and the backing array is the same. |
| `CustomArray.MyCustomArray.Sort` | src/main/java/org/example/MyCustomArray/MyCustomArray.java:250-256 | With at most one element, nothing changes. Otherwise the list becomes a `cmp`-sorted permutation of itself. `size` and the backing array stay, and slots past `size` stay empty. |
| `Scenarios.NaturalOrderIsTotalOrder` | src/test/java/QuickSortTest.java:15 | `Integer.compare`, the comparator behind `Comparator.naturalOrder()`, is a total order, so it meets the sort contract. |
| `Scenarios.ReverseOrderIsTotalOrder` | src/test/java/QuickSortTest.java:25 | `Comparator.reverseOrder()` on integers is a total order too. |
| `Scenarios.AscendingScenario` | src/test/java/QuickSortTest.java:10-17 | Any sorted rearrangement of `5, 3, 8, 1, 2` under natural order is exactly `1, 2, 3, 5, 8`. |
| `Scenarios.DescendingScenario` | src/test/java/QuickSortTest.java:20-27 | Any sorted rearrangement of `5, 3, 8, 1, 2` under reverse order is exactly `8, 5, 3, 2, 1`. |
| `Scenarios.DuplicatesScenario` | src/test/java/QuickSortTest.java:80-87 | Any sorted rearrangement of `5, 3, 8, 1, 2, 3, 5` under natural order is exactly `1, 2, 3, 3, 5, 5, 8`. Duplicates are kept. |
| `Scenarios.SortAscending` | src/test/java/QuickSortTest.java:10-17 | `QuickSort.Sort` with natural order leaves `{5, 3, 8, 1, 2}` as `1, 2, 3, 5, 8`. |
| `Scenarios.SortDuplicates` | src/test/java/QuickSortTest.java:80-87 | `QuickSort.Sort` with natural order leaves `{5, 3, 8, 1, 2, 3, 5}` as `1, 2, 3, 3, 5, 5, 8`. |
| `Scenarios.SortDescending` | src/test/java/QuickSortTest.java:20-27 | `QuickSort.Sort` with reverse order leaves `{5, 3, 8, 1, 2}` as `8, 5, 3, 2, 1`. |
| `Scenarios.GrowthScenario` | src/main/java/org/example/MyCustomArray/MyCustomArray.java:207-213 | With capacity 2 and load factor 75, adding 0, 1 and 2 doubles the storage once, to 4, and the list holds `0, 1, 2`. |
| `Scenarios.ZeroCapacityScenario` | src/main/java/org/example/MyCustomArray/MyCustomArray.java:78-82 | In the model, a list created with capacity 0 rejects `add` and stays empty. Java instead leaves `size()` at 1 (see "## Left out"). |
| `Scenarios.AddAtScenario` | src/test/java/MuCustomArrayTest.java:25-35 | `add(0)`, `add(1)`, `add(1, 5)` on a default list give `0, 5, 1`. |
| `Scenarios.RemoveScenario` | src/test/java/MuCustomArrayTest.java:37-47 | `remove(1)` on `0, 1, 2` returns 1 and leaves `0, 2`. |

## Left out

- `CustomArray.MyCustomArray.Add`: on a list whose backing array is empty
  (capacity 0), Java evaluates `size++` before the store fails at line 80. The
  object is left with `size == 1` and no storage. The model returns a failure
  and leaves the list unchanged instead. It does not model the broken object.
- `Scenarios.ZeroCapacityScenario`: follows the model's `Add`, so it states
  that the list stays empty. Java's list reports `size() == 1` after the
  exception.
- The null checks of `initializeFromArray` and Java `null` elements are not
  modelled. Dafny arrays are never null and elements are plain values, so
  the `o == null` branch of `indexOf` is ordinary equality. There is no
  null-argument error.
- Element types are restricted to values without object identity
  (`T(==, !new)`). The comparator contract quantifies over all elements,
  which Dafny allows only for such types.
- The exception message texts and the Java exception classes are not
  modelled. Only the error kind and its index and bound are kept.
- Integer overflow of `array.length * loadFactorPercent` and
  `array.length * 2` is not modelled. Integers are unbounded.
- The unchecked casts at MyCustomArray.java:223 and 252 are not modelled.
  Storage holds `Option<T>`, and the copy for sorting is an `array<T>`.
- `System.arraycopy` and `ensureCapacity`'s `Arrays.copyOf` are explicit
  element-by-element loops. The `Arrays.copyOf` in `toArray`, and the one in
  `sort` (which the model performs by calling `ToArray`), is an array built by
  an initializer over the live slots. The overlapping shifts run in the
  direction that gives Java's copy-through-a-buffer result.
- `MyCustomArray.sort` calls an unqualified `QuickSort` at
  MyCustomArray.java:253, and `QuickSortTest.java` imports
  `org.example.MyCustomArray.QuickSort`. QuickSort.java, as given, declares
  the class in package `org.example.collections.util`. The model assumes
  both names denote that class. A different `QuickSort` in package
  `org.example.MyCustomArray` is not part of this model.
- Comparators that are not a total preorder are out of scope. For such a
  comparator Java may scan out of bounds or leave the array unsorted.
- Recursion depth and performance are not modelled.
