/**
 * DynamicArray.java: a growable buffer `arr` of which the first `length` slots
 * are in use, with `capacity` doubled by `push` when the buffer is full.
 *
 * A Java slot is null or holds an element; here it is an `Option`. The ghost
 * field `Contents` is the sequence of elements the buffer represents.
 */
module DynamicArrays {
  import opened Errors

  /** The first position of x in s, or -1: what `indexOf` computes on the contents. */
  function FirstIndex<T(==)>(s: seq<T>, x: T): (k: int)
    ensures -1 <= k < |s|
    ensures k == -1 <==> x !in s
    ensures k >= 0 ==> s[k] == x && forall i :: 0 <= i < k ==> s[i] != x
  {
    if |s| == 0 then -1
    else if s[0] == x then 0
    else
      var k := FirstIndex(s[1..], x);
      assert forall i :: 1 <= i < |s| ==> s[i] == s[1..][i - 1];
      if k == -1 then -1 else k + 1
  }

  /** The contents with position i deleted, order kept. */
  function DeletedAt<T>(s: seq<T>, i: nat): (r: seq<T>)
    requires i < |s|
    ensures |r| == |s| - 1
    ensures forall k :: 0 <= k < i ==> r[k] == s[k]
    ensures forall k :: i <= k < |r| ==> r[k] == s[k + 1]
  {
    s[..i] + s[i + 1..]
  }

  class DynamicArray<T(==)> {
    var arr: array<Option<T>>
    /** The number of slots in use. */
    var length: int
    /** The buffer size `push` believes it has. */
    var capacity: int
    ghost var Contents: seq<T>

    /**
     * The slots in use hold the contents; every slot past them is null; the
     * capacity is positive and covers the slots in use.
     */
    ghost predicate Valid()
      reads this, arr
    {
      && 0 <= length <= arr.Length
      && 0 < capacity && length <= capacity
      && |Contents| == length
      && (forall i :: 0 <= i < length ==> arr[i] == Some(Contents[i]))
      && (forall i :: length <= i < arr.Length ==> arr[i] == None)
    }

    /** `capacity` is the real buffer size: true until `removeAt` runs. */
    predicate CapacityMatches()
      reads this
    {
      arr.Length == capacity
    }

    /**
     * `push` does not index past the buffer: either it grows the buffer, or a
     * slot is free.
     */
    predicate CanPush()
      reads this
    {
      length == capacity || length < arr.Length
    }

    /** `DynamicArray(capacity)`; a non-positive capacity is rejected by `Create`. */
    constructor (capacity: int)
      requires capacity > 0
      ensures Valid() && CapacityMatches()
      ensures Contents == [] && this.capacity == capacity
      ensures fresh(arr)
    {
      this.capacity := capacity;
      length := 0;
      arr := new Option<T>[capacity](_ => None);
      Contents := [];
    }

    /**
     * `DynamicArray(capacity, values)`: copies the values into a fresh buffer of
     * the given capacity; more values than capacity overrun it.
     */
    constructor WithValues(capacity: int, values: seq<T>)
      requires capacity > 0 && |values| <= capacity
      ensures Valid() && CapacityMatches()
      ensures Contents == values && this.capacity == capacity
      ensures fresh(arr)
    {
      this.capacity := capacity;
      length := |values|;
      var a := new Option<T>[capacity](_ => None);
      for i := 0 to |values|
        invariant forall k :: 0 <= k < i ==> a[k] == Some(values[k])
        invariant forall k :: i <= k < a.Length ==> a[k] == None
      {
        a[i] := Some(values[i]);
      }
      arr := a;
      Contents := values;
    }

    /** Both constructors' check: a capacity that is not positive is an IllegalArgumentException. */
    static method Create(capacity: int) returns (r: Result<DynamicArray<T>>)
      ensures r.Err? <==> capacity <= 0
      ensures r.Err? ==> r.error == IllegalArgument
      ensures r.Ok? ==> fresh(r.value) && r.value.Valid() && r.value.Contents == [] && r.value.CapacityMatches()
    {
      if capacity <= 0 {
        return Err(IllegalArgument);
      }
      var d := new DynamicArray(capacity);
      r := Ok(d);
    }

    /** `size()`. */
    function Size(): (r: int)
      reads this, arr
      requires Valid()
      ensures r == |Contents|
    {
      length
    }

    /** `get(i)`: a negative index and an index past the contents are different exceptions. */
    function Get(i: int): (r: Result<T>)
      reads this, arr
      requires Valid()
      ensures i < 0 ==> r == Err(IndexOutOfBounds)
      ensures i >= |Contents| ==> r == Err(NoSuchElement)
      ensures 0 <= i < |Contents| ==> r == Ok(Contents[i])
    {
      if i < 0 then Err(IndexOutOfBounds)
      else if i >= length then Err(NoSuchElement)
      else Ok(arr[i].value)
    }

    /** `set(i, n)`: the same checks as `get`; otherwise only slot i changes. */
    method Set(i: int, n: T) returns (r: Outcome)
      requires Valid()
      modifies this, arr
      ensures Valid() && arr == old(arr) && capacity == old(capacity)
      ensures i < 0 ==> r == Fail(IndexOutOfBounds) && Contents == old(Contents)
      ensures i >= old(|Contents|) ==> r == Fail(NoSuchElement) && Contents == old(Contents)
      ensures 0 <= i < old(|Contents|) ==> r == Pass && Contents == old(Contents)[i := n]
      ensures forall k :: 0 <= k < arr.Length && k != i ==> arr[k] == old(arr[k])
    {
      if i < 0 {
        return Fail(IndexOutOfBounds);
      } else if i >= length {
        return Fail(NoSuchElement);
      }
      arr[i] := Some(n);
      Contents := Contents[i := n];
      r := Pass;
    }

    /** `clear()`: nulls the slots in use and empties the array; the buffer is kept. */
    method Clear()
      requires Valid()
      modifies this, arr
      ensures Valid() && Contents == []
      ensures arr == old(arr) && capacity == old(capacity)
      ensures forall k :: 0 <= k < arr.Length ==> arr[k] == None
    {
      for i := 0 to length
        modifies arr
        invariant forall k :: 0 <= k < i ==> arr[k] == None
        invariant forall k :: i <= k < arr.Length ==> arr[k] == old(arr[k])
      {
        arr[i] := None;
      }
      length := 0;
      Contents := [];
    }

    /**
     * `push(n)`: when the array is full, doubles the capacity and copies the
     * contents into a new buffer; then writes n into the next slot.
     */
    method Push(n: T)
      requires Valid() && CanPush()
      modifies this, arr
      ensures Valid() && Contents == old(Contents) + [n]
      ensures capacity == if old(length == capacity) then 2 * old(capacity) else old(capacity)
      ensures old(length == capacity) ==> fresh(arr)
      ensures old(length != capacity) ==> arr == old(arr)
      ensures old(CapacityMatches()) ==> CapacityMatches()
    {
      if length == capacity {
        capacity := capacity * 2;
        var newArr := new Option<T>[capacity](_ => None);
        for i := 0 to length
          modifies newArr
          invariant forall k :: 0 <= k < i ==> newArr[k] == arr[k]
          invariant forall k :: i <= k < newArr.Length ==> newArr[k] == None
        {
          newArr[i] := arr[i];
        }
        arr := newArr;
      }
      arr[length] := Some(n);
      length := length + 1;
      Contents := Contents + [n];
    }

    /** `pop()`: throws on an empty array; otherwise returns the last element and nulls its slot. */
    method Pop() returns (r: Result<T>)
      requires Valid()
      modifies this, arr
      ensures Valid() && arr == old(arr) && capacity == old(capacity)
      ensures old(|Contents|) == 0 ==> r == Err(NoSuchElement) && Contents == old(Contents)
      ensures old(|Contents|) > 0 ==>
                && r == Ok(old(Contents)[old(|Contents|) - 1])
                && Contents == old(Contents)[..old(|Contents|) - 1]
                && arr[length] == None
    {
      if length == 0 {
        return Err(NoSuchElement);
      }
      length := length - 1;
      var poppedElement := arr[length];
      arr[length] := None;
      Contents := Contents[..length];
      r := Ok(poppedElement.value);
    }

    /**
     * `removeAt(index)`: an index past the contents is a NoSuchElementException,
     * a negative one an ArrayIndexOutOfBoundsException. The remaining elements go
     * to a new buffer of exactly their number, and `capacity` is not updated, so
     * the next `push` indexes past the buffer.
     */
    method RemoveAt(index: int) returns (r: Result<T>)
      requires Valid()
      requires index >= 0 || index >= |Contents|
      modifies this
      ensures Valid() && capacity == old(capacity)
      ensures index >= old(|Contents|) ==> r == Err(NoSuchElement) && Contents == old(Contents) && arr == old(arr)
      ensures 0 <= index < old(|Contents|) ==>
                && r == Ok(old(Contents)[index])
                && Contents == DeletedAt(old(Contents), index)
                && fresh(arr) && arr.Length == length < capacity
                && !CanPush()
    {
      if index >= length {
        return Err(NoSuchElement);
      }
      var removedElement := arr[index];
      var newArr := new Option<T>[length - 1](_ => None);
      var i, j := 0, 0;
      while i < length
        modifies newArr
        invariant 0 <= i <= length
        invariant j == if i <= index then i else i - 1
        invariant forall k :: 0 <= k < j ==> newArr[k] == arr[if k < index then k else k + 1]
      {
        if i == index {
          j := j - 1;
        } else {
          newArr[j] := arr[i];
        }
        i, j := i + 1, j + 1;
      }
      arr := newArr;
      length := length - 1;
      Contents := DeletedAt(Contents, index);
      r := Ok(removedElement.value);
    }

    /** `remove(obj)`: removes the first occurrence of obj, if any, and says whether there was one. */
    method Remove(obj: T) returns (r: bool)
      requires Valid()
      modifies this
      ensures Valid() && capacity == old(capacity)
      ensures r <==> obj in old(Contents)
      ensures r ==> Contents == DeletedAt(old(Contents), FirstIndex(old(Contents), obj))
      ensures !r ==> Contents == old(Contents) && arr == old(arr)
    {
      for i := 0 to length
        invariant forall k :: 0 <= k < i ==> Contents[k] != obj
      {
        if arr[i].value == obj {
          var _ := RemoveAt(i);
          return true;
        }
      }
      return false;
    }

    /** `indexOf(obj)`: the first position holding obj, or -1. */
    method IndexOf(obj: T) returns (r: int)
      requires Valid()
      ensures r == FirstIndex(Contents, obj)
      ensures r == -1 <==> obj !in Contents
      ensures r >= 0 ==> r < |Contents| && Contents[r] == obj && forall k :: 0 <= k < r ==> Contents[k] != obj
    {
      for i := 0 to length
        invariant forall k :: 0 <= k < i ==> Contents[k] != obj
      {
        if arr[i].value == obj {
          return i;
        }
      }
      return -1;
    }

    /** `contains(obj)`: `indexOf(obj) != -1`. */
    method Contains(obj: T) returns (r: bool)
      requires Valid()
      ensures r <==> obj in Contents
    {
      var i := IndexOf(obj);
      r := i != -1;
    }

    /** `iterator()`. */
    method Iterator() returns (it: DynamicArrayIterator<T>)
      ensures fresh(it) && it.owner == this && it.currentIndex == 0
    {
      it := new DynamicArrayIterator(this);
    }
  }

  /**
   * The inner class `DynamicArrayIterator`. It increments `currentIndex` before
   * reading, so position 0 is never produced.
   */
  class DynamicArrayIterator<T(==)> {
    const owner: DynamicArray<T>
    var currentIndex: int

    constructor (owner: DynamicArray<T>)
      ensures this.owner == owner && currentIndex == 0
    {
      this.owner := owner;
      currentIndex := 0;
    }

    /** `hasNext()`: a slot in use lies after the current one. */
    function HasNext(): (r: bool)
      reads this, owner
      ensures r <==> currentIndex + 1 < owner.length
    {
      currentIndex + 1 < owner.length
    }

    /** `next()`: throws when `hasNext` fails; otherwise advances, then reads. */
    method Next() returns (r: Result<T>)
      requires owner.Valid() && currentIndex >= 0
      modifies this
      ensures !old(HasNext()) ==> r == Err(NoSuchElement) && currentIndex == old(currentIndex)
      ensures old(HasNext()) ==> currentIndex == old(currentIndex) + 1 && r == Ok(owner.Contents[currentIndex])
    {
      if !HasNext() {
        return Err(NoSuchElement);
      }
      currentIndex := currentIndex + 1;
      r := Ok(owner.arr[currentIndex].value);
    }
  }

  /**
   * A for-each loop over the array: it sees every element but the first, because
   * of the iterator's pre-increment.
   */
  method IterateAll<T(==)>(a: DynamicArray<T>) returns (r: seq<T>)
    requires a.Valid()
    ensures |a.Contents| == 0 ==> r == []
    ensures |a.Contents| > 0 ==> r == a.Contents[1..]
  {
    var it := a.Iterator();
    r := [];
    while it.HasNext()
      invariant it.owner == a && 0 <= it.currentIndex
      invariant it.currentIndex < |a.Contents| || it.currentIndex == 0
      invariant |a.Contents| > 0 ==> r == a.Contents[1..it.currentIndex + 1]
      invariant |a.Contents| == 0 ==> r == []
      decreases a.length - it.currentIndex
    {
      var x := it.Next();
      r := r + [x.value];
    }
  }
}
