/** The doubly linked list `MyDLL` and its node class `MyDLLNode`.

    The list's abstract value is the ghost sequence `Contents` (head to tail).
    The ghost sequence `Nodes` lists the nodes in the same order; the object
    invariant `Valid` ties `head`, `tail`, `size` and every node's `next` and
    `previous` link to that sequence. */
module LinkedLists {
  import opened Lang
  import opened Seqs

  class MyDLLNode<T> {
    var element: T
    var next: MyDLLNode?<T>
    var previous: MyDLLNode?<T>

    /** A node holding `element` with no neighbours. */
    constructor (element: T)
      ensures this.element == element && next == null && previous == null
    {
      this.element := element;
      this.next := null;
      this.previous := null;
    }

    /** A node holding `element` between `previous` and `next`. */
    constructor WithLinks(element: T, previous: MyDLLNode?<T>, next: MyDLLNode?<T>)
      ensures this.element == element && this.previous == previous && this.next == next
    {
      this.element := element;
      this.previous := previous;
      this.next := next;
    }

    method SetElement(element: T)
      modifies this`element
      ensures this.element == element
    {
      this.element := element;
    }

    method SetNext(next: MyDLLNode?<T>)
      modifies this`next
      ensures this.next == next
    {
      this.next := next;
    }

    method SetPrevious(previous: MyDLLNode?<T>)
      modifies this`previous
      ensures this.previous == previous
    {
      this.previous := previous;
    }
  }

  class MyDLL<T(==)> {
    var head: MyDLLNode?<T>
    var tail: MyDLLNode?<T>
    var size: nat

    ghost var Contents: seq<T>
    ghost var Nodes: seq<MyDLLNode<T>>
    ghost var Repr: set<object>

    ghost predicate Valid()
      reads this, Repr
      ensures Valid() ==> this in Repr
    {
      && this in Repr
      && |Nodes| == size && |Contents| == size
      && (forall i :: 0 <= i < size ==> Nodes[i] in Repr)
      && (size == 0 ==> head == null && tail == null)
      && (size > 0 ==> head == Nodes[0] && tail == Nodes[size - 1])
      && (forall i :: 0 <= i < size ==> Nodes[i].element == Contents[i])
      && (size > 0 ==> Nodes[0].previous == null && Nodes[size - 1].next == null)
      && (forall i :: 0 <= i < size - 1 ==> Nodes[i].next == Nodes[i + 1])
      && (forall i :: 0 < i < size ==> Nodes[i].previous == Nodes[i - 1])
      && NoDuplicates(Nodes)
    }

    constructor ()
      ensures Valid() && fresh(Repr)
      ensures Contents == [] && head == null && tail == null && size == 0
    {
      head := null;
      tail := null;
      size := 0;
      Contents := [];
      Nodes := [];
      Repr := {this};
    }

    method Size() returns (n: int)
      requires Valid()
      ensures n == |Contents|
    {
      n := size;
    }

    method IsEmpty() returns (empty: bool)
      requires Valid()
      ensures empty <==> Contents == []
    {
      empty := size == 0;
    }

    method Clear()
      requires Valid()
      modifies this
      ensures Valid() && Repr == old(Repr)
      ensures Contents == [] && head == null && tail == null && size == 0
    {
      head := null;
      tail := null;
      size := 0;
      Contents := [];
      Nodes := [];
    }

    /** The node at position `index`, reached from the head when `index` lies
        in the first half and from the tail otherwise. */
    method GetNodeAt(index: int) returns (node: MyDLLNode<T>)
      requires Valid() && 0 <= index < size
      ensures node == Nodes[index] && node.element == Contents[index]
    {
      if index < size / 2 {
        var current := head;
        var i := 0;
        while i < index
          invariant 0 <= i <= index
          invariant current == Nodes[i]
        {
          current := current.next;
          i := i + 1;
        }
        node := current;
      } else {
        var current := tail;
        var i := size - 1;
        while i > index
          invariant index <= i <= size - 1
          invariant current == Nodes[i]
        {
          current := current.previous;
          i := i - 1;
        }
        node := current;
      }
    }

    method AddAt(index: int, toAdd: Nullable<T>) returns (r: Result<bool>)
      requires Valid()
      modifies Repr
      ensures Valid() && fresh(Repr - old(Repr))
      ensures toAdd.Null? ==> r == Throw(NullPointerException) && Contents == old(Contents)
      ensures toAdd.Ref? && !(0 <= index <= old(size)) ==>
                r == Throw(IndexOutOfBoundsException) && Contents == old(Contents)
      ensures toAdd.Ref? && 0 <= index <= old(size) ==>
                r == Return(true) && Contents == old(Contents)[..index] + [toAdd.value] + old(Contents)[index..]
    {
      if toAdd.Null? {
        return Throw(NullPointerException);
      }
      if index < 0 || index > size {
        return Throw(IndexOutOfBoundsException);
      }
      if size == 0 {
        var newNode := new MyDLLNode(toAdd.value);
        head := newNode;
        tail := newNode;
        Nodes := [newNode];
        Repr := Repr + {newNode};
        Contents := [toAdd.value];
        size := size + 1;
      } else if index == 0 {
        LinkFirst(toAdd.value);
      } else if index == size {
        LinkLast(toAdd.value);
        assert old(Contents)[index..] == [];
      } else {
        var current := GetNodeAt(index);
        LinkBefore(index, current, toAdd.value);
      }
      r := Return(true);
    }

    /** Case "adding at the beginning" of `AddAt` on a non-empty list. */
    method LinkFirst(x: T)
      requires Valid() && size > 0
      modifies Repr
      ensures Valid() && fresh(Repr - old(Repr))
      ensures Contents == [x] + old(Contents)
    {
      var newNode := new MyDLLNode.WithLinks(x, null, head);
      head.SetPrevious(newNode);
      head := newNode;
      Nodes := [newNode] + Nodes;
      Repr := Repr + {newNode};
      Contents := [x] + Contents;
      size := size + 1;
    }

    /** Case "adding at the end" of `AddAt` on a non-empty list. */
    method LinkLast(x: T)
      requires Valid() && size > 0
      modifies Repr
      ensures Valid() && fresh(Repr - old(Repr))
      ensures Contents == old(Contents) + [x]
    {
      var newNode := new MyDLLNode.WithLinks(x, tail, null);
      tail.SetNext(newNode);
      tail := newNode;
      Nodes := Nodes + [newNode];
      Repr := Repr + {newNode};
      Contents := Contents + [x];
      size := size + 1;
    }

    /** Case "adding in the middle" of `AddAt`: the new node goes between the
        node now at `index` and its predecessor. */
    method LinkBefore(index: int, current: MyDLLNode<T>, x: T)
      requires Valid() && 0 < index < size && current == Nodes[index]
      modifies Repr
      ensures Valid() && fresh(Repr - old(Repr))
      ensures Contents == old(Contents)[..index] + [x] + old(Contents)[index..]
    {
      ghost var N := Nodes;
      assert current.previous == N[index - 1];
      var previous := current.previous;
      var newNode := new MyDLLNode.WithLinks(x, previous, current);
      previous.next := newNode;
      current.previous := newNode;
      Nodes, Repr, Contents, size := N[..index] + [newNode] + N[index..], Repr + {newNode}, Contents[..index] + [x] + Contents[index..], size + 1;
      // The links of every untouched node are as before; the three touched
      // nodes are linked to each other.
      forall i | 0 <= i < size - 1
        ensures Nodes[i].next == Nodes[i + 1]
      {
        if i < index - 1 {
          assert Nodes[i] == N[i] != previous && Nodes[i + 1] == N[i + 1];
        } else if index < i {
          assert Nodes[i] == N[i - 1] != previous && Nodes[i + 1] == N[i];
        }
      }
      forall i | 0 < i < size
        ensures Nodes[i].previous == Nodes[i - 1]
      {
        if i < index {
          assert Nodes[i] == N[i] != current && Nodes[i - 1] == N[i - 1];
        } else if index + 1 < i {
          assert Nodes[i] == N[i - 1] != current && Nodes[i - 1] == N[i - 2];
        }
      }
      forall i | 0 <= i < size
        ensures Nodes[i] in Repr && Nodes[i].element == Contents[i]
      {
        if i < index {
          assert Nodes[i] == N[i] && Contents[i] == old(Contents)[i];
        } else if index < i {
          assert Nodes[i] == N[i - 1] && Contents[i] == old(Contents)[i - 1];
        }
      }
      InsertKeepsDistinct(N, index, newNode);
    }

    method Add(toAdd: Nullable<T>) returns (r: Result<bool>)
      requires Valid()
      modifies Repr
      ensures Valid() && fresh(Repr - old(Repr))
      ensures toAdd.Null? ==> r == Throw(NullPointerException) && Contents == old(Contents)
      ensures toAdd.Ref? ==> r == Return(true) && Contents == old(Contents) + [toAdd.value]
    {
      if toAdd.Null? {
        return Throw(NullPointerException);
      }
      r := AddAt(size, toAdd);
      assert old(Contents)[..old(size)] == old(Contents);
    }

    method Get(index: int) returns (r: Result<T>)
      requires Valid()
      ensures r == if 0 <= index < |Contents| then Return(Contents[index]) else Throw(IndexOutOfBoundsException)
    {
      if index < 0 || index >= size {
        return Throw(IndexOutOfBoundsException);
      }
      var node := GetNodeAt(index);
      r := Return(node.element);
    }

    method RemoveAt(index: int) returns (r: Result<T>)
      requires Valid()
      modifies Repr
      ensures Valid() && fresh(Repr - old(Repr))
      ensures !(0 <= index < old(size)) ==>
                r == Throw(IndexOutOfBoundsException) && Contents == old(Contents)
      ensures 0 <= index < old(size) ==>
                r == Return(old(Contents)[index]) && Contents == old(Contents)[..index] + old(Contents)[index + 1..]
    {
      if index < 0 || index >= size {
        return Throw(IndexOutOfBoundsException);
      }
      var removed: T;
      if size == 1 {
        removed := head.element;
        head := null;
        tail := null;
        Nodes := [];
        Contents := [];
        size := 0;
      } else if index == 0 {
        removed := UnlinkFirst();
      } else if index == size - 1 {
        removed := UnlinkLast();
      } else {
        removed := Unlink(index);
      }
      r := Return(removed);
    }

    /** Case "removing from the beginning" of `RemoveAt`, on a list of at least
        two elements. */
    method UnlinkFirst() returns (removed: T)
      requires Valid() && size > 1
      modifies Repr
      ensures Valid() && Repr == old(Repr)
      ensures removed == old(Contents)[0] && Contents == old(Contents)[1..]
    {
      removed := head.element;
      assert head.next == Nodes[1];
      head := head.next;
      head.SetPrevious(null);
      Nodes := Nodes[1..];
      Contents := Contents[1..];
      size := size - 1;
    }

    /** Case "removing from the end" of `RemoveAt`, on a list of at least two
        elements. */
    method UnlinkLast() returns (removed: T)
      requires Valid() && size > 1
      modifies Repr
      ensures Valid() && Repr == old(Repr)
      ensures removed == old(Contents)[old(size) - 1] && Contents == old(Contents)[..old(size) - 1]
    {
      removed := tail.element;
      assert tail.previous == Nodes[size - 2];
      tail := tail.previous;
      tail.SetNext(null);
      Nodes := Nodes[..size - 1];
      Contents := Contents[..size - 1];
      size := size - 1;
    }

    /** Case "removing from the middle" of `RemoveAt`: the node at `index` is
        bypassed by its two neighbours. */
    method Unlink(index: int) returns (removed: T)
      requires Valid() && 0 < index < size - 1
      modifies Repr
      ensures Valid() && Repr == old(Repr)
      ensures removed == old(Contents)[index] && Contents == old(Contents)[..index] + old(Contents)[index + 1..]
    {
      var toRemove := GetNodeAt(index);
      removed := toRemove.element;
      assert toRemove.previous == Nodes[index - 1] && toRemove.next == Nodes[index + 1];
      ghost var N := Nodes;
      var previous := toRemove.previous;
      var next := toRemove.next;
      previous.next := next;
      next.previous := previous;
      Nodes, Contents, size := N[..index] + N[index + 1..], Contents[..index] + Contents[index + 1..], size - 1;
      // The links of every untouched node are as before; the two neighbours
      // of the removed node are linked to each other.
      forall i | 0 <= i < size - 1
        ensures Nodes[i].next == Nodes[i + 1]
      {
        if i < index - 1 {
          assert Nodes[i] == N[i] != previous && Nodes[i + 1] == N[i + 1];
        } else if index - 1 < i {
          assert Nodes[i] == N[i + 1] != previous && Nodes[i + 1] == N[i + 2];
        }
      }
      forall i | 0 < i < size
        ensures Nodes[i].previous == Nodes[i - 1]
      {
        if i < index {
          assert Nodes[i] == N[i] != next && Nodes[i - 1] == N[i - 1];
        } else if index < i {
          assert Nodes[i] == N[i + 1] != next && Nodes[i - 1] == N[i];
        }
      }
      forall i | 0 <= i < size
        ensures Nodes[i] in Repr && Nodes[i].element == Contents[i]
      {
        if i < index {
          assert Nodes[i] == N[i] && Contents[i] == old(Contents)[i];
        } else {
          assert Nodes[i] == N[i + 1] && Contents[i] == old(Contents)[i + 1];
        }
      }
      RemoveKeepsDistinct(N, index);
    }

    /** Removes the first element equal to `toRemove`; `null` is returned when
        there is none. */
    method RemoveElement(toRemove: Nullable<T>) returns (r: Result<Nullable<T>>)
      requires Valid()
      modifies Repr
      ensures Valid() && fresh(Repr - old(Repr))
      ensures toRemove.Null? ==> r == Throw(NullPointerException) && Contents == old(Contents)
      ensures toRemove.Ref? && toRemove.value !in old(Contents) ==> r == Return(Null) && Contents == old(Contents)
      ensures toRemove.Ref? && toRemove.value in old(Contents) ==>
                var k := FirstIndexOf(old(Contents), toRemove.value);
                r == Return(Ref(old(Contents)[k])) && Contents == old(Contents)[..k] + old(Contents)[k + 1..]
    {
      if toRemove.Null? {
        return Throw(NullPointerException);
      }
      var x := toRemove.value;
      var current := head;
      var index := 0;
      while current != null
        invariant 0 <= index <= size
        invariant current == if index < size then Nodes[index] else null
        invariant x !in Contents[..index]
        invariant Repr == old(Repr) && unchanged(Repr)
        decreases size - index
      {
        if x == current.element {
          assert Contents[..index + 1] == Contents[..index] + [x];
          var removed := RemoveAt(index);
          return Return(Ref(removed.value));
        }
        assert Contents[..index + 1] == Contents[..index] + [current.element];
        assert current.next == if index + 1 < size then Nodes[index + 1] else null;
        current := current.next;
        index := index + 1;
      }
      assert Contents[..index] == Contents;
      r := Return(Null);
    }

    /** Replaces the element at `index`, returning the one it held. */
    method Set(index: int, toChange: Nullable<T>) returns (r: Result<T>)
      requires Valid()
      modifies Repr
      ensures Valid() && fresh(Repr - old(Repr))
      ensures toChange.Null? ==> r == Throw(NullPointerException) && Contents == old(Contents)
      ensures toChange.Ref? && !(0 <= index < old(size)) ==>
                r == Throw(IndexOutOfBoundsException) && Contents == old(Contents)
      ensures toChange.Ref? && 0 <= index < old(size) ==>
                r == Return(old(Contents)[index]) && Contents == old(Contents)[index := toChange.value]
    {
      if toChange.Null? {
        return Throw(NullPointerException);
      }
      if index < 0 || index >= size {
        return Throw(IndexOutOfBoundsException);
      }
      var node := GetNodeAt(index);
      var oldElement := node.element;
      node.SetElement(toChange.value);
      Contents := Contents[index := toChange.value];
      r := Return(oldElement);
    }

    method Contains(toFind: Nullable<T>) returns (r: Result<bool>)
      requires Valid()
      ensures r == if toFind.Null? then Throw(NullPointerException) else Return(toFind.value in Contents)
    {
      if toFind.Null? {
        return Throw(NullPointerException);
      }
      var current := head;
      var index := 0;
      while current != null
        invariant 0 <= index <= size
        invariant current == if index < size then Nodes[index] else null
        invariant toFind.value !in Contents[..index]
        decreases size - index
      {
        if toFind.value == current.element {
          return Return(true);
        }
        assert current.next == if index + 1 < size then Nodes[index + 1] else null;
        assert Contents[..index + 1] == Contents[..index] + [current.element];
        current := current.next;
        index := index + 1;
      }
      assert Contents[..index] == Contents;
      r := Return(false);
    }

    /** A fresh array holding the elements head to tail. */
    method ToArray() returns (arr: array<Nullable<T>>)
      requires Valid()
      ensures fresh(arr) && arr.Length == |Contents|
      ensures forall i :: 0 <= i < arr.Length ==> arr[i] == Ref(Contents[i])
    {
      arr := new Nullable<T>[size](_ => Null);
      var current := head;
      var i := 0;
      while current != null
        invariant 0 <= i <= size
        invariant current == if i < size then Nodes[i] else null
        invariant forall k :: 0 <= k < i ==> arr[k] == Ref(Contents[k])
        invariant Valid()
        decreases size - i
      {
        assert current.next == if i + 1 < size then Nodes[i + 1] else null;
        arr[i] := Ref(current.element);
        current := current.next;
        i := i + 1;
      }
    }
  }
}
