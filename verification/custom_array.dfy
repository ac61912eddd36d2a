/** MyCustomArray: a growable array in the manner of java.util.ArrayList.
    Elements live in the prefix arr[0..size) of a backing array whose other
    slots are empty (Java's null, here None). The backing array doubles once
    when a requested minimum capacity exceeds loadFactorPercent percent of
    its length. */
module CustomArray {
  import opened Comparison
  import QuickSort

  const DefaultCapacity: nat := 16
  const DefaultLoadFactorPercent: int := 75

  datatype Option<T> = None | Some(value: T)

  /** The exceptions the list throws, without their message texts. */
  datatype Error =
    | InvalidCapacity(capacity: int)       // IllegalArgumentException for a negative capacity
    | InvalidLoadFactor(percent: int)      // IllegalArgumentException for a percent outside 1..100
    | IndexOutOfRange(index: int, bound: int)  // IndexOutOfBoundsException, including the ArrayIndexOutOfBoundsException of the store in add (MyCustomArray.java:80)

  datatype Result<T> = Success(value: T) | Failure(error: Error)

  /** The largest number of elements a backing array of this length holds
      before ensureCapacity grows it (integer division, as in the source). */
  function Threshold(capacity: nat, loadFactorPercent: int): (t: int) {
    capacity * loadFactorPercent / 100
  }

  /** The length of the backing array after ensureCapacity(minCapacity):
      doubled once if minCapacity exceeds the threshold, otherwise unchanged.
      There is no loop: one doubling is all a single call ever does. */
  function GrownCapacity(capacity: nat, loadFactorPercent: int, minCapacity: int): (r: nat)
    ensures r == capacity || r == 2 * capacity
    ensures capacity <= r
  {
    if minCapacity > Threshold(capacity, loadFactorPercent) then capacity * 2 else capacity
  }

  /** Growing for one more element always makes room, provided the backing
      array is not empty: the threshold never exceeds the length, and doubling
      a length of at least one covers one more than the length. */
  lemma GrowthMakesRoom(capacity: nat, loadFactorPercent: int, size: nat)
    requires 1 <= loadFactorPercent <= 100
    requires 1 <= capacity && size <= capacity
    ensures size + 1 <= GrownCapacity(capacity, loadFactorPercent, size + 1)
  {
  }

  /** An empty backing array never grows: twice zero is zero. Every add to a
      list built with capacity 0 therefore fails. */
  lemma ZeroCapacityNeverGrows(loadFactorPercent: int, minCapacity: int)
    ensures GrownCapacity(0, loadFactorPercent, minCapacity) == 0
  {
  }

  /** One doubling is not always enough for an arbitrary request: with a 10%
      load factor, asking a backing array of 10 for room for 25 leaves it at 20.
      The list itself only ever asks for one more than its size. */
  lemma SingleDoublingCanFallShort()
    ensures GrownCapacity(10, 10, 25) == 20 < 25
  {
  }

  class MyCustomArray<T(==, !new)> {
    var arr: array<Option<T>>
    var size: nat
    const loadFactorPercent: int
    /** The list the object stands for. */
    ghost var Elements: seq<T>

    /** The class invariant: the live prefix holds the elements in order and
        every slot past it is empty. */
    ghost predicate Valid()
      reads this, arr
    {
      && 1 <= loadFactorPercent <= 100
      && size <= arr.Length
      && |Elements| == size
      && (forall i :: 0 <= i < size ==> arr[i] == Some(Elements[i]))
      && (forall i :: size <= i < arr.Length ==> arr[i] == None)
    }

    /** MyCustomArray(initialCapacity, loadFactorPercent) once its argument
        checks have passed; New performs the checks. */
    constructor (initialCapacity: nat, loadFactorPercent: int)
      requires 1 <= loadFactorPercent <= 100
      ensures Valid() && fresh(arr)
      ensures arr.Length == initialCapacity && this.loadFactorPercent == loadFactorPercent
      ensures Elements == []
    {
      arr := new Option<T>[initialCapacity](_ => None);
      size := 0;
      this.loadFactorPercent := loadFactorPercent;
      Elements := [];
    }

    /** MyCustomArray(): capacity 16 and load factor 75%. */
    constructor Default()
      ensures Valid() && fresh(arr)
      ensures arr.Length == DefaultCapacity && loadFactorPercent == DefaultLoadFactorPercent
      ensures Elements == []
    {
      arr := new Option<T>[DefaultCapacity](_ => None);
      size := 0;
      loadFactorPercent := DefaultLoadFactorPercent;
      Elements := [];
    }

    /** MyCustomArray(T[] initialElements): the same elements in the same
        order, with capacity the larger of their number and 16. */
    constructor FromArray(initialElements: array<T>)
      ensures Valid() && fresh(arr)
      ensures arr.Length == if initialElements.Length > DefaultCapacity then initialElements.Length else DefaultCapacity
      ensures loadFactorPercent == DefaultLoadFactorPercent
      ensures Elements == initialElements[..]
    {
      var capacity := if initialElements.Length > DefaultCapacity then initialElements.Length else DefaultCapacity;
      arr := new Option<T>[capacity](_ => None);
      size := 0;
      loadFactorPercent := DefaultLoadFactorPercent;
      Elements := [];
      new;
      InitializeFromArray(initialElements);
    }

    /** The checking constructor: a negative capacity is refused first, then
        a load factor outside 1..100; otherwise an empty list with a backing
        array of exactly the requested length. */
    static method New(initialCapacity: int, loadFactorPercent: int) returns (r: Result<MyCustomArray<T>>)
      ensures initialCapacity < 0 ==> r == Failure(InvalidCapacity(initialCapacity))
      ensures 0 <= initialCapacity && !(1 <= loadFactorPercent <= 100) ==> r == Failure(InvalidLoadFactor(loadFactorPercent))
      ensures r.Success? <==> 0 <= initialCapacity && 1 <= loadFactorPercent <= 100
      ensures r.Success? ==> fresh(r.value) && fresh(r.value.arr) && r.value.Valid()
      ensures r.Success? ==> r.value.arr.Length == initialCapacity && r.value.loadFactorPercent == loadFactorPercent
      ensures r.Success? ==> r.value.Elements == []
    {
      if initialCapacity < 0 {
        return Failure(InvalidCapacity(initialCapacity));
      }
      if loadFactorPercent <= 0 || loadFactorPercent > 100 {
        return Failure(InvalidLoadFactor(loadFactorPercent));
      }
      var list := new MyCustomArray(initialCapacity, loadFactorPercent);
      return Success(list);
    }

    /** Copies the source elements into the front of the fresh backing array. */
    method InitializeFromArray(initialElements: array<T>)
      requires Valid() && size == 0 && initialElements.Length <= arr.Length
      requires initialElements as object != arr
      modifies this, arr
      ensures Valid() && arr == old(arr)
      ensures Elements == initialElements[..]
    {
      var i := 0;
      while i < initialElements.Length
        invariant 0 <= i <= initialElements.Length
        modifies arr
        invariant forall k :: 0 <= k < i ==> arr[k] == Some(initialElements[k])
        invariant forall k :: i <= k < arr.Length ==> arr[k] == None
      {
        arr[i] := Some(initialElements[i]);
        i := i + 1;
      }
      size := initialElements.Length;
      Elements := initialElements[..];
    }

    /** add(element): grows if needed, then stores at index size. Fails only
        when the backing array is empty, since it cannot grow. */
    method Add(element: T) returns (r: Result<bool>)
      requires Valid()
      modifies this, arr
      ensures Valid()
      ensures arr.Length == GrownCapacity(old(arr.Length), loadFactorPercent, old(size) + 1)
      ensures arr == old(arr) || fresh(arr)
      ensures r.Success? <==> old(arr.Length) > 0
      ensures r.Success? ==> r.value && Elements == old(Elements) + [element]
      ensures r.Failure? ==> r.error == IndexOutOfRange(old(size), 0) && Elements == old(Elements)
    {
      EnsureCapacity(size + 1);
      if size < arr.Length {
        arr[size] := Some(element);
        size := size + 1;
        Elements := Elements + [element];
        r := Success(true);
      } else {
        r := Failure(IndexOutOfRange(size, arr.Length));
      }
    }

    /** System.arraycopy(a, from, a, from + 1, to - from): moves a[from..to)
        one slot to the right, as if through a temporary buffer. */
    static method ShiftRight<U>(a: array<U>, from: int, to: int)
      requires 0 <= from <= to < a.Length
      modifies a
      ensures forall k :: 0 <= k <= from ==> a[k] == old(a[k])
      ensures forall k :: from < k <= to ==> a[k] == old(a[k - 1])
      ensures forall k :: to < k < a.Length ==> a[k] == old(a[k])
    {
      var i := to;
      while i > from
        invariant from <= i <= to
        invariant forall k :: 0 <= k <= i ==> a[k] == old(a[k])
        invariant forall k :: i < k <= to ==> a[k] == old(a[k - 1])
        invariant forall k :: to < k < a.Length ==> a[k] == old(a[k])
      {
        a[i] := a[i - 1];
        i := i - 1;
      }
    }

    /** add(index, element): inserts at index, shifting the tail one slot to
        the right. Refused unless 0 <= index <= size, with nothing changed;
        also fails, with nothing changed, when the backing array is empty. */
    method AddAt(index: int, element: T) returns (r: Result<()>)
      requires Valid()
      modifies this, arr
      ensures Valid()
      ensures r.Success? <==> 0 <= index <= old(size) && old(arr.Length) > 0
      ensures !(0 <= index <= old(size)) ==> r == Failure(IndexOutOfRange(index, old(size))) && arr == old(arr)
      ensures 0 <= index <= old(size) ==> arr.Length == GrownCapacity(old(arr.Length), loadFactorPercent, old(size) + 1)
      ensures arr == old(arr) || fresh(arr)
      ensures r.Success? ==> Elements == old(Elements)[..index] + [element] + old(Elements)[index..]
      ensures r.Failure? ==> Elements == old(Elements)
    {
      if index > size || index < 0 {
        return Failure(IndexOutOfRange(index, size));
      }
      EnsureCapacity(size + 1);
      ghost var storage := arr;
      assert storage == old(arr) || fresh(storage);
      if size + 1 > arr.Length {
        // System.arraycopy refuses to write past the end of an empty array
        return Failure(IndexOutOfRange(index + 1, arr.Length));
      }
      ShiftRight(arr, index, size);
      ghost var inserted := Elements[..index] + [element] + Elements[index..];
      assert forall k :: 0 <= k < index ==> inserted[k] == Elements[k];
      assert forall k :: index < k <= size ==> inserted[k] == Elements[k - 1];
      arr[index] := Some(element);
      size := size + 1;
      Elements := inserted;
      assert arr == storage;
      r := Success(());
    }

    /** remove(index): returns the element at index, shifts the tail one slot
        to the left and empties the slot that falls out of the live prefix.
        Refused unless 0 <= index < size, with nothing changed. */
    method Remove(index: int) returns (r: Result<T>)
      requires Valid()
      modifies this, arr
      ensures Valid() && arr == old(arr)
      ensures r.Success? <==> 0 <= index < old(size)
      ensures r.Success? ==> r.value == old(Elements)[index]
      ensures r.Success? ==> Elements == old(Elements)[..index] + old(Elements)[index + 1..]
      ensures r.Success? ==> arr[size] == None
      ensures r.Failure? ==> r.error == IndexOutOfRange(index, old(size)) && Elements == old(Elements)
    {
      if index >= size || index < 0 {
        return Failure(IndexOutOfRange(index, size));
      }
      var oldValue := arr[index].value;
      var numMoved := size - index - 1;
      if numMoved > 0 {
        var i := index;
        while i < size - 1
          invariant index <= i <= size - 1
          modifies arr
          invariant forall k :: 0 <= k < index ==> arr[k] == old(arr[k])
          invariant forall k :: index <= k < i ==> arr[k] == old(arr[k + 1])
          invariant forall k :: i <= k < arr.Length ==> arr[k] == old(arr[k])
        {
          arr[i] := arr[i + 1];
          i := i + 1;
        }
      }
      size := size - 1;
      arr[size] := None;
      Elements := Elements[..index] + Elements[index + 1..];
      r := Success(oldValue);
    }

    /** get(index) */
    function Get(index: int): (r: Result<T>)
      reads this, arr
      requires Valid()
      ensures r.Success? <==> 0 <= index < |Elements|
      ensures r.Success? ==> r.value == Elements[index]
      ensures r.Failure? ==> r.error == IndexOutOfRange(index, |Elements|)
    {
      if index >= size || index < 0 then Failure(IndexOutOfRange(index, size))
      else Success(arr[index].value)
    }

    /** set(index, element): replaces the element at index and returns the one
        it replaced. Refused unless 0 <= index < size, with nothing changed. */
    method Set(index: int, element: T) returns (r: Result<T>)
      requires Valid()
      modifies this, arr
      ensures Valid() && arr == old(arr) && size == old(size)
      ensures r.Success? <==> 0 <= index < old(size)
      ensures r.Success? ==> r.value == old(Elements)[index] && Elements == old(Elements)[index := element]
      ensures r.Failure? ==> r.error == IndexOutOfRange(index, old(size)) && Elements == old(Elements)
    {
      if index >= size || index < 0 {
        return Failure(IndexOutOfRange(index, size));
      }
      var oldValue := arr[index].value;
      arr[index] := Some(element);
      Elements := Elements[index := element];
      r := Success(oldValue);
    }

    /** contains(o) */
    method Contains(o: T) returns (b: bool)
      requires Valid()
      ensures b <==> o in Elements
    {
      var i := IndexOf(o);
      b := i >= 0;
    }

    /** indexOf(o): the first index holding o, or -1. */
    method IndexOf(o: T) returns (r: int)
      requires Valid()
      ensures -1 <= r < |Elements|
      ensures r >= 0 ==> Elements[r] == o && o !in Elements[..r]
      ensures r == -1 <==> o !in Elements
    {
      var i := 0;
      while i < size
        invariant 0 <= i <= size
        invariant o !in Elements[..i]
      {
        if o == arr[i].value {
          assert Elements[..i + 1] == Elements[..i] + [Elements[i]];
          return i;
        }
        assert Elements[..i + 1] == Elements[..i] + [Elements[i]];
        i := i + 1;
      }
      assert Elements[..size] == Elements;
      return -1;
    }

    /** size() */
    function Size(): (n: nat)
      reads this, arr
      requires Valid()
      ensures n == |Elements|
    {
      size
    }

    /** isEmpty() */
    function IsEmpty(): (b: bool)
      reads this, arr
      requires Valid()
      ensures b <==> Elements == []
    {
      size == 0
    }

    /** toArray(): a fresh array holding exactly the live elements. */
    method ToArray() returns (a: array<T>)
      requires Valid()
      ensures fresh(a) && a[..] == Elements
    {
      a := new T[size](i reads this, arr requires 0 <= i < size && i < arr.Length && arr[i].Some? => arr[i].value);
    }

    /** ensureCapacity(minCapacity): doubles the backing array, copying every
        slot, when minCapacity exceeds the threshold; otherwise leaves it be. */
    method EnsureCapacity(minCapacity: int)
      requires Valid()
      modifies this
      ensures Valid() && size == old(size) && Elements == old(Elements)
      ensures arr.Length == GrownCapacity(old(arr.Length), loadFactorPercent, minCapacity)
      ensures minCapacity > Threshold(old(arr.Length), loadFactorPercent) ==> fresh(arr)
      ensures minCapacity <= Threshold(old(arr.Length), loadFactorPercent) ==> arr == old(arr)
      ensures forall k :: 0 <= k < old(arr.Length) ==> arr[k] == old(arr[k])
    {
      var loadFactorThreshold := arr.Length * loadFactorPercent / 100;
      if minCapacity > loadFactorThreshold {
        var newCapacity := arr.Length * 2;
        var grown := new Option<T>[newCapacity](_ => None);
        var i := 0;
        while i < arr.Length
          invariant 0 <= i <= arr.Length
          modifies grown
          invariant forall k :: 0 <= k < i ==> grown[k] == arr[k]
          invariant forall k :: i <= k < newCapacity ==> grown[k] == None
        {
          grown[i] := arr[i];
          i := i + 1;
        }
        arr := grown;
      }
    }

    /** clear(): empties every live slot; the backing array stays. */
    method Clear()
      requires Valid()
      modifies this, arr
      ensures Valid() && arr == old(arr)
      ensures Elements == []
      ensures forall k :: 0 <= k < arr.Length ==> arr[k] == None
    {
      var i := 0;
      while i < size
        invariant 0 <= i <= size
        modifies arr
        invariant forall k :: 0 <= k < i ==> arr[k] == None
        invariant forall k :: i <= k < arr.Length ==> arr[k] == old(arr[k])
      {
        arr[i] := None;
        i := i + 1;
      }
      size := 0;
      Elements := [];
    }

    /** sort(comparator): with more than one element, copies the live prefix,
        quicksorts the copy and writes it back; otherwise does nothing. */
    method Sort(cmp: (T, T) -> int)
      requires Valid() && IsTotalPreorder(cmp)
      modifies this, arr
      ensures Valid() && arr == old(arr) && size == old(size)
      ensures old(size) <= 1 ==> Elements == old(Elements)
      ensures Sorted(Elements, cmp)
      ensures multiset(Elements) == multiset(old(Elements))
    {
      if size > 1 {
        var elements := ToArray();
        var _ := QuickSort.Sort(elements, cmp);
        ghost var sorted := elements[..];
        var i := 0;
        while i < size
          invariant 0 <= i <= size
          modifies arr
          invariant forall k :: 0 <= k < i ==> arr[k] == Some(elements[k])
          invariant forall k :: i <= k < arr.Length ==> arr[k] == old(arr[k])
          invariant elements[..] == sorted
        {
          arr[i] := Some(elements[i]);
          i := i + 1;
        }
        Elements := elements[..];
      }
    }
  }
}
