/**
 * `UnThreadSafeQueue`: a FIFO queue on a singly linked chain of nodes, with
 * `head`, `last` and `size` updated in place and no synchronisation.
 *
 * The ghost sequence `nodes` lists the chain from `head` to `last`; the
 * ghost sequence `contents` lists the elements those nodes carry, oldest
 * first. Java's `null` as a return value of `removeFirst` becomes `None`, and
 * the NullPointerException of a peek on an empty queue becomes `Thrown`.
 */
module UnsafeQueue {
  import opened Common

  class Node<E> {
    var element: E
    var next: Node?<E>

    constructor (element: E, next: Node?<E>)
      ensures this.element == element && this.next == next
    {
      this.element := element;
      this.next := next;
    }
  }

  class Queue<E> {
    var head: Node?<E>
    var last: Node?<E>
    var size: int

    ghost var nodes: seq<Node<E>>
    ghost var contents: seq<E>

    /**
     * The chain from `head` follows `next` through `nodes` and ends at
     * `last`, whose `next` is null; `size` counts its nodes; head and last
     * are null exactly when the queue is empty.
     */
    ghost predicate Valid()
      reads this, nodes
    {
      && size == |nodes| == |contents|
      && (size == 0 <==> head == null)
      && (size == 0 <==> last == null)
      && (size > 0 ==> head == nodes[0] && last == nodes[size - 1] && last.next == null)
      && (forall i :: 0 <= i < size - 1 ==> nodes[i].next == nodes[i + 1])
      && (forall i :: 0 <= i < size ==> nodes[i].element == contents[i])
      && (forall i, j :: 0 <= i < j < size ==> nodes[i] != nodes[j])
    }

    constructor ()
      ensures Valid() && contents == [] && nodes == []
    {
      head, last, size := null, null, 0;
      nodes, contents := [], [];
    }

    /** `size()`. */
    function Size(): (r: int)
      reads this, nodes
      requires Valid()
      ensures r == |contents|
    {
      size
    }

    /** `isEmpty()`. */
    function IsEmpty(): (r: bool)
      reads this, nodes
      requires Valid()
      ensures r <==> Size() == 0
      ensures r <==> contents == []
    {
      size == 0
    }

    /** `peekFirst()`: the oldest element; on an empty queue `head` is null and the call throws. */
    function PeekFirst(): (r: Returned<E>)
      reads this, nodes
      requires Valid()
      ensures contents == [] ==> r == Thrown("NullPointerException")
      ensures contents != [] ==> r == Value(contents[0])
    {
      if head == null then Thrown("NullPointerException") else Value(head.element)
    }

    /** `peekLast()`: the newest element; on an empty queue `last` is null and the call throws. */
    function PeekLast(): (r: Returned<E>)
      reads this, nodes
      requires Valid()
      ensures contents == [] ==> r == Thrown("NullPointerException")
      ensures contents != [] ==> r == Value(contents[|contents| - 1])
    {
      if last == null then Thrown("NullPointerException") else Value(last.element)
    }

    /** `addLast(element)`: link a fresh node after `last`. */
    method AddLast(element: E)
      requires Valid()
      modifies this, last
      ensures Valid()
      ensures contents == old(contents) + [element]
      ensures size == old(size) + 1
      ensures fresh(last)
      ensures forall n :: n in old(nodes) ==> n.element == old(n.element)
    {
      var newNode := new Node(element, null);
      if size == 0 {
        head := newNode;
      } else {
        last.next := newNode;
      }
      last := newNode;
      size := size + 1;
      nodes := nodes + [newNode];
      contents := contents + [element];
    }

    /**
     * `removeFirst()`: None on an empty queue, which stays as it was;
     * otherwise the oldest element, with `head` moved to the next node and
     * `last` cleared when the queue becomes empty.
     */
    method RemoveFirst() returns (r: Option<E>)
      requires Valid()
      modifies this
      ensures Valid()
      ensures old(contents) == [] ==> r == None && contents == [] && size == 0
      ensures old(contents) != [] ==>
        r == Some(old(contents)[0]) && contents == old(contents)[1..] && size == old(size) - 1
    {
      if IsEmpty() {
        return None;
      }
      var result := head.element;
      assert size == 1 ==> head == last;
      assert size > 1 ==> head.next == nodes[1];
      head := head.next;
      size := size - 1;
      if size == 0 {
        last := null;
      }
      nodes := nodes[1..];
      contents := contents[1..];
      r := Some(result);
    }
  }

  /**
   * The run of `main`: three elements added, then removed in the order they
   * were added.
   */
  method FirstInFirstOut<E>(a: E, b: E, c: E) returns (out: seq<Option<E>>)
    ensures out == [Some(a), Some(b), Some(c)]
  {
    var queue := new Queue<E>();
    queue.AddLast(a);
    queue.AddLast(b);
    queue.AddLast(c);
    var x := queue.RemoveFirst();
    var y := queue.RemoveFirst();
    var z := queue.RemoveFirst();
    out := [x, y, z];
  }
}
