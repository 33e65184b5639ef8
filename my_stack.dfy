/** The LIFO stack `MyStack`, kept in a `MyArrayList` whose last element is
    the top of the stack.

    The stack's abstract value is the ghost sequence `Contents`, listed from
    the bottom to the top; it is always the backing list's own `Contents`. */
module Stacks {
  import opened Lang
  import opened Seqs
  import opened ArrayLists

  class MyStack<T(==)> {
    var list: MyArrayList<T>

    ghost var Contents: seq<T>
    ghost var Repr: set<object>

    ghost predicate Valid()
      reads this, Repr
      ensures Valid() ==> this in Repr
    {
      && this in Repr
      && list in Repr && list.Repr <= Repr && this !in list.Repr
      && list.Valid()
      && Contents == list.Contents
    }

    constructor ()
      ensures Valid() && fresh(Repr)
      ensures Contents == []
    {
      var backing := new MyArrayList();
      list := backing;
      Contents := [];
      Repr := {this} + backing.Repr;
    }

    /** Pushes `toAdd` on top; `null` is rejected. */
    method Push(toAdd: Nullable<T>) returns (o: Outcome)
      requires Valid()
      modifies Repr
      ensures Valid() && fresh(Repr - old(Repr))
      ensures toAdd.Null? ==> o == Threw(NullPointerException) && Contents == old(Contents)
      ensures toAdd.Ref? ==> o == Completed && Contents == old(Contents) + [toAdd.value]
    {
      if toAdd.Null? {
        return Threw(NullPointerException);
      }
      var _ := list.Add(toAdd);
      Contents := list.Contents;
      Repr := {this} + list.Repr;
      o := Completed;
    }

    /** Removes and returns the top element. */
    method Pop() returns (r: Result<T>)
      requires Valid()
      modifies Repr
      ensures Valid() && Repr == old(Repr)
      ensures old(Contents) == [] ==> r == Throw(EmptyStackException) && Contents == old(Contents)
      ensures old(Contents) != [] ==>
                r == Return(old(Contents)[|old(Contents)| - 1]) && Contents == old(Contents)[..|old(Contents)| - 1]
    {
      var empty := IsEmpty();
      if empty {
        return Throw(EmptyStackException);
      }
      var n := list.Size();
      r := list.RemoveAt(n - 1);
      Contents := list.Contents;
    }

    /** The top element, left in place. */
    method Peek() returns (r: Result<T>)
      requires Valid()
      ensures r == if Contents == [] then Throw(EmptyStackException) else Return(Contents[|Contents| - 1])
    {
      var empty := IsEmpty();
      if empty {
        return Throw(EmptyStackException);
      }
      var n := list.Size();
      r := list.Get(n - 1);
    }

    method Clear()
      requires Valid()
      modifies Repr
      ensures Valid() && Repr == old(Repr)
      ensures Contents == []
    {
      list.Clear();
      Contents := list.Contents;
    }

    method IsEmpty() returns (empty: bool)
      requires Valid()
      ensures empty <==> Contents == []
    {
      empty := list.IsEmpty();
    }

    method Size() returns (n: int)
      requires Valid()
      ensures n == |Contents|
    {
      n := list.Size();
    }

    /** A fresh array holding the elements from the top to the bottom. */
    method ToArray() returns (arr: array<Nullable<T>>)
      requires Valid()
      ensures fresh(arr) && arr.Length == |Contents|
      ensures forall i :: 0 <= i < arr.Length ==> arr[i] == Ref(Reverse(Contents)[i])
    {
      var n := list.Size();
      arr := new Nullable<T>[n](_ => Null);
      var i := 0;
      while i < n
        invariant 0 <= i <= n
        invariant forall k :: 0 <= k < i ==> arr[k] == Ref(Contents[n - 1 - k])
      {
        var e := list.Get(n - 1 - i);
        arr[i] := Ref(e.value);
        i := i + 1;
      }
    }

    method Contains(toFind: Nullable<T>) returns (r: Result<bool>)
      requires Valid()
      ensures r == if toFind.Null? then Throw(NullPointerException) else Return(toFind.value in Contents)
    {
      if toFind.Null? {
        return Throw(NullPointerException);
      }
      r := list.Contains(toFind);
    }

    /** The 1-based distance from the top of the topmost element equal to
        `toFind`, or -1 when there is none or `toFind` is `null`. */
    method Search(toFind: Nullable<T>) returns (d: int)
      requires Valid()
      ensures toFind.Null? || toFind.value !in Contents ==> d == -1
      ensures toFind.Ref? && toFind.value in Contents ==>
                d == |Contents| - LastIndexOf(Contents, toFind.value)
    {
      if toFind.Null? {
        return -1;
      }
      var n := list.Size();
      var i := n - 1;
      while i >= 0
        invariant -1 <= i < n
        invariant toFind.value !in Contents[i + 1..]
      {
        var e := list.Get(i);
        if toFind.value == e.value {
          return n - i;
        }
        assert Contents[i..] == [Contents[i]] + Contents[i + 1..];
        i := i - 1;
      }
      d := -1;
    }
  }

  /** Pushing and then peeking yields the pushed element and leaves the stack
      one element taller. */
  method PushThenPeek<T(==)>(s: MyStack<T>, x: T) returns (r: Result<T>)
    requires s.Valid()
    modifies s.Repr
    ensures s.Valid() && r == Return(x) && s.Contents == old(s.Contents) + [x]
  {
    var _ := s.Push(Ref(x));
    r := s.Peek();
  }

  /** Pushing and then popping yields the pushed element and restores the
      previous contents (last in, first out). */
  method PushThenPop<T(==)>(s: MyStack<T>, x: T) returns (r: Result<T>)
    requires s.Valid()
    modifies s.Repr
    ensures s.Valid() && r == Return(x) && s.Contents == old(s.Contents)
  {
    var _ := s.Push(Ref(x));
    r := s.Pop();
  }
}
