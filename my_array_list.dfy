/** The growable array list `MyArrayList`.

    The list's abstract value is the ghost sequence `Contents`. The object
    invariant `Valid` says that the first `size` slots of the backing array
    hold exactly `Contents` and that every slot from `size` on is `null`:
    removal and clearing never leave a stale reference behind. */
module ArrayLists {
  import opened Lang
  import opened Seqs

  /** Capacity of the backing array of a new list. */
  const DefaultCapacity: nat := 10

  class MyArrayList<T(==)> {
    var elements: array<Nullable<T>>
    var size: nat

    ghost var Contents: seq<T>
    ghost var Repr: set<object>

    ghost predicate Valid()
      reads this, Repr
      ensures Valid() ==> this in Repr
    {
      && Repr == {this, elements}
      && size == |Contents| <= elements.Length
      && (forall i :: 0 <= i < size ==> elements[i] == Ref(Contents[i]))
      && (forall i :: size <= i < elements.Length ==> elements[i] == Null)
    }

    constructor ()
      ensures Valid() && fresh(Repr)
      ensures Contents == [] && elements.Length == DefaultCapacity
    {
      elements := new Nullable<T>[DefaultCapacity](_ => Null);
      size := 0;
      Contents := [];
      Repr := {this, elements};
    }

    /** Grows the backing array, when it is shorter than `minCapacity`, to
        twice its length or to `minCapacity`, whichever is larger, copying the
        stored elements. */
    method EnsureCapacity(minCapacity: int)
      requires Valid()
      modifies this
      ensures Valid() && fresh(Repr - old(Repr))
      ensures Contents == old(Contents) && size == old(size)
      ensures elements.Length >= minCapacity
      ensures old(elements.Length) >= minCapacity ==> elements == old(elements)
      ensures old(elements.Length) < minCapacity ==>
                fresh(elements) &&
                elements.Length == if 2 * old(elements.Length) < minCapacity then minCapacity else 2 * old(elements.Length)
    {
      if elements.Length >= minCapacity {
        return;
      }
      var newCapacity := elements.Length * 2;
      if newCapacity < minCapacity {
        newCapacity := minCapacity;
      }
      var newArr := new Nullable<T>[newCapacity](_ => Null);
      forall i | 0 <= i < size {
        newArr[i] := elements[i];
      }
      elements := newArr;
      Repr := {this, elements};
    }

    method Size() returns (n: int)
      requires Valid()
      ensures n == |Contents|
    {
      n := size;
    }

    /** Nulls out every used slot; the backing array keeps its capacity. */
    method Clear()
      requires Valid()
      modifies Repr
      ensures Valid() && Repr == old(Repr) && elements == old(elements)
      ensures Contents == []
    {
      var i := 0;
      while i < size
        modifies elements
        invariant 0 <= i <= size
        invariant forall k :: 0 <= k < i ==> elements[k] == Null
        invariant forall k :: size <= k < elements.Length ==> elements[k] == Null
      {
        elements[i] := Null;
        i := i + 1;
      }
      size := 0;
      Contents := [];
    }

    /** Inserts `toAdd` at position `index`, shifting the elements from
        `index` on one slot to the right. */
    method AddAt(index: int, toAdd: Nullable<T>) returns (r: Result<bool>)
      requires Valid()
      modifies Repr
      ensures Valid() && fresh(Repr - old(Repr))
      ensures toAdd.Null? ==> r == Throw(NullPointerException) && Contents == old(Contents)
      ensures toAdd.Ref? && !(0 <= index <= old(size)) ==>
                r == Throw(IndexOutOfBoundsException) && Contents == old(Contents)
      ensures toAdd.Ref? && 0 <= index <= old(size) ==>
                r == Return(true) && Contents == old(Contents)[..index] + [toAdd.value] + old(Contents)[index..]
    {
      if toAdd.Null? {
        return Throw(NullPointerException);
      }
      if index < 0 || index > size {
        return Throw(IndexOutOfBoundsException);
      }
      EnsureCapacity(size + 1);
      ShiftRight(index);
      ghost var C := Contents[..index] + [toAdd.value] + Contents[index..];
      assert forall k :: index < k < |C| ==> C[k] == Contents[k - 1];
      assert forall k :: 0 <= k < index ==> C[k] == Contents[k];
      elements[index] := toAdd;
      Contents := C;
      size := size + 1;
      r := Return(true);
    }

    /** The shifting loop of `AddAt`: the elements in slots `index` to
        `size - 1` move one slot to the right; slot `index` keeps its value. */
    method ShiftRight(index: int)
      requires 0 <= index <= size < elements.Length
      modifies elements
      ensures forall k :: 0 <= k <= index ==> elements[k] == old(elements[k])
      ensures forall k :: index < k <= size ==> elements[k] == old(elements[k - 1])
      ensures forall k :: size < k < elements.Length ==> elements[k] == old(elements[k])
    {
      var i := size;
      while i > index
        invariant index <= i <= size
        invariant forall k :: 0 <= k <= i ==> elements[k] == old(elements[k])
        invariant forall k :: i < k <= size ==> elements[k] == old(elements[k - 1])
        invariant forall k :: size < k < elements.Length ==> elements[k] == old(elements[k])
      {
        elements[i] := elements[i - 1];
        i := i - 1;
      }
    }

    /** Appends `toAdd` in slot `size`. */
    method Add(toAdd: Nullable<T>) returns (r: Result<bool>)
      requires Valid()
      modifies Repr
      ensures Valid() && fresh(Repr - old(Repr))
      ensures toAdd.Null? ==> r == Throw(NullPointerException) && Contents == old(Contents)
      ensures toAdd.Ref? ==> r == Return(true) && Contents == old(Contents) + [toAdd.value]
    {
      if toAdd.Null? {
        return Throw(NullPointerException);
      }
      EnsureCapacity(size + 1);
      elements[size] := toAdd;
      size := size + 1;
      Contents := Contents + [toAdd.value];
      r := Return(true);
    }

    method Get(index: int) returns (r: Result<T>)
      requires Valid()
      ensures r == if 0 <= index < |Contents| then Return(Contents[index]) else Throw(IndexOutOfBoundsException)
    {
      if index < 0 || index >= size {
        return Throw(IndexOutOfBoundsException);
      }
      r := Return(elements[index].value);
    }

    /** Removes the element at `index`, shifting the later elements one slot
        to the left and clearing the slot that falls out of use. */
    method RemoveAt(index: int) returns (r: Result<T>)
      requires Valid()
      modifies Repr
      ensures Valid() && Repr == old(Repr) && elements == old(elements)
      ensures !(0 <= index < old(size)) ==>
                r == Throw(IndexOutOfBoundsException) && Contents == old(Contents)
      ensures 0 <= index < old(size) ==>
                r == Return(old(Contents)[index]) && Contents == old(Contents)[..index] + old(Contents)[index + 1..]
    {
      if index < 0 || index >= size {
        return Throw(IndexOutOfBoundsException);
      }
      var removed := elements[index];
      var i := index;
      while i < size - 1
        modifies elements
        invariant index <= i <= size - 1
        invariant forall k :: 0 <= k < index ==> elements[k] == Ref(Contents[k])
        invariant forall k :: index <= k < i ==> elements[k] == Ref(Contents[k + 1])
        invariant forall k :: i <= k < size ==> elements[k] == Ref(Contents[k])
        invariant forall k :: size <= k < elements.Length ==> elements[k] == Null
      {
        elements[i] := elements[i + 1];
        i := i + 1;
      }
      elements[size - 1] := Null;
      size := size - 1;
      Contents := Contents[..index] + Contents[index + 1..];
      r := Return(removed.value);
    }

    /** Removes the first element equal to `toRemove`; `null` is returned when
        there is none. */
    method RemoveElement(toRemove: Nullable<T>) returns (r: Result<Nullable<T>>)
      requires Valid()
      modifies Repr
      ensures Valid() && Repr == old(Repr)
      ensures toRemove.Null? ==> r == Throw(NullPointerException) && Contents == old(Contents)
      ensures toRemove.Ref? && toRemove.value !in old(Contents) ==> r == Return(Null) && Contents == old(Contents)
      ensures toRemove.Ref? && toRemove.value in old(Contents) ==>
                var k := FirstIndexOf(old(Contents), toRemove.value);
                r == Return(Ref(old(Contents)[k])) && Contents == old(Contents)[..k] + old(Contents)[k + 1..]
    {
      if toRemove.Null? {
        return Throw(NullPointerException);
      }
      var i := 0;
      while i < size
        invariant 0 <= i <= size
        invariant toRemove.value !in Contents[..i]
        invariant Repr == old(Repr) && unchanged(Repr)
      {
        if toRemove.value == elements[i].value {
          assert Contents[..i + 1] == Contents[..i] + [toRemove.value];
          var removed := RemoveAt(i);
          return Return(Ref(removed.value));
        }
        assert Contents[..i + 1] == Contents[..i] + [Contents[i]];
        i := i + 1;
      }
      assert Contents[..i] == Contents;
      r := Return(Null);
    }

    /** Replaces the element at `index`, returning the one it held. */
    method Set(index: int, toChange: Nullable<T>) returns (r: Result<T>)
      requires Valid()
      modifies Repr
      ensures Valid() && Repr == old(Repr)
      ensures toChange.Null? ==> r == Throw(NullPointerException) && Contents == old(Contents)
      ensures toChange.Ref? && !(0 <= index < old(size)) ==>
                r == Throw(IndexOutOfBoundsException) && Contents == old(Contents)
      ensures toChange.Ref? && 0 <= index < old(size) ==>
                r == Return(old(Contents)[index]) && Contents == old(Contents)[index := toChange.value]
    {
      if toChange.Null? {
        return Throw(NullPointerException);
      }
      if index < 0 || index >= size {
        return Throw(IndexOutOfBoundsException);
      }
      var oldElement := elements[index];
      elements[index] := toChange;
      Contents := Contents[index := toChange.value];
      r := Return(oldElement.value);
    }

    method IsEmpty() returns (empty: bool)
      requires Valid()
      ensures empty <==> Contents == []
    {
      empty := size == 0;
    }

    method Contains(toFind: Nullable<T>) returns (r: Result<bool>)
      requires Valid()
      ensures r == if toFind.Null? then Throw(NullPointerException) else Return(toFind.value in Contents)
    {
      if toFind.Null? {
        return Throw(NullPointerException);
      }
      var i := 0;
      while i < size
        invariant 0 <= i <= size
        invariant toFind.value !in Contents[..i]
      {
        if toFind.value == elements[i].value {
          return Return(true);
        }
        assert Contents[..i + 1] == Contents[..i] + [Contents[i]];
        i := i + 1;
      }
      assert Contents[..i] == Contents;
      r := Return(false);
    }

    /** A fresh array holding the elements in list order. */
    method ToArray() returns (arr: array<Nullable<T>>)
      requires Valid()
      ensures fresh(arr) && arr.Length == |Contents|
      ensures forall i :: 0 <= i < arr.Length ==> arr[i] == Ref(Contents[i])
    {
      arr := new Nullable<T>[size](_ => Null);
      forall i | 0 <= i < size {
        arr[i] := elements[i];
      }
    }
  }
}
