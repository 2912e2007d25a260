/** The head/tail list of src/list.c, over heap nodes. */
module Lists {
  /** The C heap, as far as `free` goes: the objects released so far, in order. */
  class Heap {
    ghost var freed: seq<object>

    constructor ()
      ensures freed == []
    {
      freed := [];
    }

    method Free(o: object)
      requires o !in freed
      modifies this
      ensures freed == old(freed) + [o]
    {
      freed := freed + [o];
    }
  }

  class Node<T> {
    var data: T
    var next: Node?<T>

    constructor (data: T)
      ensures this.data == data && next == null
    {
      this.data, next := data, null;
    }
  }

  function Fold<T, S>(f: (T, S) -> S, s: seq<T>, args: S): S {
    if s == [] then args else Fold(f, s[1..], f(s[0], args))
  }

  class List<T> {
    var head: Node?<T>
    var tail: Node?<T>
    ghost var nodes: seq<Node<T>>
    ghost var contents: seq<T>

    /** The nodes are chained from `head` to `tail`, without a cycle, and hold the contents. */
    ghost predicate Valid()
      reads this, nodes
    {
      && (forall i, j :: 0 <= i < j < |nodes| ==> nodes[i] != nodes[j])
      && (if nodes == [] then head == null && tail == null
          else head == nodes[0] && tail == nodes[|nodes| - 1] && tail.next == null)
      && (forall i {:trigger nodes[i].next} :: 0 <= i < |nodes| - 1 ==> nodes[i].next == nodes[i + 1])
      && |contents| == |nodes| && forall i :: 0 <= i < |nodes| ==> nodes[i].data == contents[i]
    }

    constructor ()
      ensures Valid() && nodes == [] && contents == []
    {
      head, tail, nodes, contents := null, null, [], [];
    }

    static ghost function Spine(collection: List?<T>): seq<Node<T>>
      reads collection
    {
      if collection == null then [] else collection.nodes
    }

    static method Append(collection: List?<T>, data: T)
      requires collection != null ==> collection.Valid()
      modifies collection, Spine(collection)
      ensures collection != null ==>
                && collection.Valid() && collection.contents == old(collection.contents) + [data]
                && collection.nodes == old(collection.nodes) + [collection.tail] && fresh(collection.tail)
    {
      if collection == null { return; }
      var toAppend := new Node(data);
      if collection.tail == null {
        collection.tail := toAppend;
        collection.head := toAppend;
      } else {
        assert collection.tail in collection.nodes;
        collection.tail.next := toAppend;
        collection.tail := toAppend;
      }
      collection.nodes, collection.contents := collection.nodes + [toAppend], collection.contents + [data];
    }

    static method Foreach<S>(collection: List?<T>, fptr: (T, S) -> S, args: S) returns (r: S)
      requires collection != null ==> collection.Valid()
      ensures r == if collection == null then args else Fold(fptr, collection.contents, args)
    {
      r := args;
      if collection == null { return; }
      var node := collection.head;
      ghost var k := 0;
      while node != null
        invariant k <= |collection.nodes|
        invariant node == if k < |collection.nodes| then collection.nodes[k] else null
        invariant Fold(fptr, collection.contents[k..], r) == Fold(fptr, collection.contents, args)
        decreases |collection.nodes| - k
      {
        r := fptr(node.data, r);
        node := node.next;
        k := k + 1;
      }
    }

    static method Contains(collection: List?<T>, fptr: T -> bool) returns (r: bool)
      requires collection != null ==> collection.Valid()
      ensures r <==> collection != null && exists i :: 0 <= i < |collection.contents| && fptr(collection.contents[i])
    {
      if collection == null { return false; }
      var node := collection.head;
      ghost var k := 0;
      while node != null
        invariant k <= |collection.nodes|
        invariant node == if k < |collection.nodes| then collection.nodes[k] else null
        invariant forall i :: 0 <= i < k ==> !fptr(collection.contents[i])
        decreases |collection.nodes| - k
      {
        if fptr(node.data) { assert fptr(collection.contents[k]); return true; }
        node := node.next;
        k := k + 1;
      }
      r := false;
    }

    /** Releases the nodes in list order and then the list; a node is read only before its release. */
    method Free(heap: Heap)
      requires Valid()
      requires this !in heap.freed && forall n | n in nodes :: n !in heap.freed
      modifies heap
      ensures heap.freed == old(heap.freed) + nodes + [this]
    {
      var current := head;
      ghost var k := 0;
      while current != null
        invariant k <= |nodes| && current == (if k < |nodes| then nodes[k] else null)
        invariant heap.freed == old(heap.freed) + nodes[..k]
        decreases |nodes| - k
      {
        var toFree := current;
        assert current !in heap.freed;
        current := current.next;
        heap.Free(toFree);
        k := k + 1;
      }
      assert nodes[..k] == nodes;
      heap.Free(this);
    }
  }

  /** A callback that records its calls sees every element once, in insertion order. */
  lemma {:induction false} FoldVisits<T(!new)>(record: (T, seq<T>) -> seq<T>, s: seq<T>, seen: seq<T>)
    requires forall x, acc :: record(x, acc) == acc + [x]
    ensures Fold(record, s, seen) == seen + s
  {
    if s != [] {
      FoldVisits(record, s[1..], seen + [s[0]]);
      assert seen + [s[0]] + s[1..] == seen + s;
    }
  }
}
