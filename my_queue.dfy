/** The FIFO queue `MyQueue`, kept in a `MyDLL` whose head is the front of
    the queue.

    The queue's abstract value is the ghost sequence `Contents`, listed from
    the front to the back; it is always the backing list's own `Contents`. */
module Queues {
  import opened Lang
  import opened Seqs
  import opened LinkedLists

  class MyQueue<T(==)> {
    var list: MyDLL<T>

    ghost var Contents: seq<T>
    ghost var Repr: set<object>

    ghost predicate Valid()
      reads this, Repr
      ensures Valid() ==> this in Repr
    {
      && this in Repr
      && list in Repr && list.Repr <= Repr && this !in list.Repr
      && list.Valid()
      && Contents == list.Contents
    }

    constructor ()
      ensures Valid() && fresh(Repr)
      ensures Contents == []
    {
      var backing := new MyDLL();
      list := backing;
      Contents := [];
      Repr := {this} + backing.Repr;
    }

    /** Appends `toAdd` at the back; `null` is rejected. */
    method Enqueue(toAdd: Nullable<T>) returns (o: Outcome)
      requires Valid()
      modifies Repr
      ensures Valid() && fresh(Repr - old(Repr))
      ensures toAdd.Null? ==> o == Threw(NullPointerException) && Contents == old(Contents)
      ensures toAdd.Ref? ==> o == Completed && Contents == old(Contents) + [toAdd.value]
    {
      if toAdd.Null? {
        return Threw(NullPointerException);
      }
      var _ := list.Add(toAdd);
      Contents := list.Contents;
      Repr := {this} + list.Repr;
      o := Completed;
    }

    /** Removes and returns the front element. */
    method Dequeue() returns (r: Result<T>)
      requires Valid()
      modifies Repr
      ensures Valid() && fresh(Repr - old(Repr))
      ensures old(Contents) == [] ==> r == Throw(EmptyQueueException) && Contents == old(Contents)
      ensures old(Contents) != [] ==> r == Return(old(Contents)[0]) && Contents == old(Contents)[1..]
    {
      var empty := IsEmpty();
      if empty {
        return Throw(EmptyQueueException);
      }
      r := list.RemoveAt(0);
      Contents := list.Contents;
      Repr := {this} + list.Repr;
    }

    /** The front element, left in place. */
    method Peek() returns (r: Result<T>)
      requires Valid()
      ensures r == if Contents == [] then Throw(EmptyQueueException) else Return(Contents[0])
    {
      var empty := IsEmpty();
      if empty {
        return Throw(EmptyQueueException);
      }
      r := list.Get(0);
    }

    method DequeueAll()
      requires Valid()
      modifies Repr
      ensures Valid() && Repr == old(Repr)
      ensures Contents == []
    {
      list.Clear();
      Contents := list.Contents;
    }

    method IsEmpty() returns (empty: bool)
      requires Valid()
      ensures empty <==> Contents == []
    {
      empty := list.IsEmpty();
    }

    method Size() returns (n: int)
      requires Valid()
      ensures n == |Contents|
    {
      n := list.Size();
    }

    method Contains(toFind: Nullable<T>) returns (r: Result<bool>)
      requires Valid()
      ensures r == if toFind.Null? then Throw(NullPointerException) else Return(toFind.value in Contents)
    {
      r := list.Contains(toFind);
    }

    /** The 1-based position from the front of the first element equal to
        `toFind`, or -1 when there is none or `toFind` is `null`. */
    method Search(toFind: Nullable<T>) returns (p: int)
      requires Valid()
      ensures toFind.Null? || toFind.value !in Contents ==> p == -1
      ensures toFind.Ref? && toFind.value in Contents ==> p == FirstIndexOf(Contents, toFind.value) + 1
    {
      if toFind.Null? {
        return -1;
      }
      var i := 0;
      var n := list.Size();
      while i < n
        invariant 0 <= i <= n == |Contents|
        invariant toFind.value !in Contents[..i]
      {
        var e := list.Get(i);
        if toFind.value == e.value {
          return i + 1;
        }
        assert Contents[..i + 1] == Contents[..i] + [Contents[i]];
        i := i + 1;
        n := list.Size();
      }
      assert Contents[..i] == Contents;
      p := -1;
    }

    /** A fresh array holding the elements from the front to the back. */
    method ToArray() returns (arr: array<Nullable<T>>)
      requires Valid()
      ensures fresh(arr) && arr.Length == |Contents|
      ensures forall i :: 0 <= i < arr.Length ==> arr[i] == Ref(Contents[i])
    {
      arr := list.ToArray();
    }
  }

  /** On an empty queue, enqueueing and then dequeueing yields the enqueued
      element and leaves the queue empty again. */
  method EnqueueThenDequeue<T(==)>(q: MyQueue<T>, x: T) returns (r: Result<T>)
    requires q.Valid() && q.Contents == []
    modifies q.Repr
    ensures q.Valid() && r == Return(x) && q.Contents == []
  {
    var _ := q.Enqueue(Ref(x));
    r := q.Dequeue();
  }

  /** Dequeueing returns elements in the order they were enqueued: after
      enqueueing `x`, the front is unchanged unless the queue was empty. */
  method EnqueueThenPeek<T(==)>(q: MyQueue<T>, x: T) returns (r: Result<T>)
    requires q.Valid()
    modifies q.Repr
    ensures q.Valid() && q.Contents == old(q.Contents) + [x]
    ensures r == Return(if old(q.Contents) == [] then x else old(q.Contents)[0])
  {
    var _ := q.Enqueue(Ref(x));
    r := q.Peek();
  }
}
