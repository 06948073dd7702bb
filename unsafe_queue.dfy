/** The singly-linked FIFO `UnsafeQueue<T>` of
    linked-list/src/unsafe_queue.rs: raw `head`/`tail` pointers, nodes
    linked head -> tail through `next`, and its three iterators.

    The abstract state is the ghost sequence of nodes from `head` to `tail`
    and the ghost sequence of the values they hold. */
module RawQueue {
  import opened Options
  import opened Seqs

  class QNode<T> {
    var value: T
    /** The node one step toward `tail` (null at `tail`). */
    var next: QNode?<T>

    /** `Box::new(Node { value, next: null_mut() })`. */
    constructor (value: T)
      ensures this.value == value && next == null
    {
      this.value := value;
      next := null;
    }
  }

  /** Every node's `next` is the node after it, and the last one's is null. */
  ghost predicate Linked<T>(ns: seq<QNode<T>>)
    reads ns`next
  {
    && (forall i {:trigger ns[i].next} :: 0 <= i < |ns| - 1 ==> ns[i].next == ns[i + 1])
    && (ns != [] ==> ns[|ns| - 1].next == null)
  }

  /** `ns` holds the values `vs`, node by node. */
  ghost predicate Holds<T>(ns: seq<QNode<T>>, vs: seq<T>)
    reads ns`value
  {
    |ns| == |vs| && forall i :: 0 <= i < |ns| ==> ns[i].value == vs[i]
  }

  class UnsafeQueue<T> {
    var head: QNode?<T>
    var tail: QNode?<T>
    /** The nodes from `head` to `tail`. */
    ghost var nodes: seq<QNode<T>>
    /** The values they hold: the queue, oldest first. */
    ghost var contents: seq<T>

    /** `head`/`tail` are null together exactly when the queue is empty and
        are otherwise its two ends; the nodes are distinct, linked in order
        and hold `contents`. */
    ghost predicate Valid()
      reads this, nodes
    {
      && Linked(nodes)
      && Distinct(nodes)
      && Holds(nodes, contents)
      && (nodes == [] ==> head == null && tail == null)
      && (nodes != [] ==> head == nodes[0] && tail == nodes[|nodes| - 1])
    }

    /** `new`: both pointers null. */
    constructor ()
      ensures Valid() && nodes == [] && contents == []
    {
      head := null;
      tail := null;
      nodes := [];
      contents := [];
    }

    /** `push`: a fresh node linked after `tail`, or made `head` too when
        the queue is empty. */
    method Push(value: T)
      requires Valid()
      modifies this, tail
      ensures Valid()
      ensures contents == old(contents) + [value]
      ensures |nodes| == |old(nodes)| + 1 && fresh(nodes[|nodes| - 1])
      ensures nodes == old(nodes) + [nodes[|nodes| - 1]]
      ensures old(nodes) == [] ==> head == tail == nodes[0]
    {
      var n := new QNode(value);
      if tail != null {
        tail.next := n;
      } else {
        head := n;
      }
      tail := n;
      DistinctSnoc(nodes, n);
      nodes := nodes + [n];
      contents := contents + [value];
    }

    /** `pop`: `None` on an empty queue; otherwise unlinks `head`, resets
        `tail` when that was the only node, and returns its value. */
    method Pop() returns (r: Option<T>)
      requires Valid()
      modifies this
      ensures Valid()
      ensures old(nodes) == [] ==> r == None && nodes == [] && contents == []
      ensures old(nodes) != [] ==>
        && r == Some(old(contents)[0])
        && nodes == old(nodes)[1..] && contents == old(contents)[1..]
      ensures |old(nodes)| == 1 ==> head == null && tail == null
    {
      if head == null {
        r := None;
      } else {
        var h := head;
        head := h.next;
        if head == null {
          tail := null;
        }
        r := Some(h.value);
        nodes := nodes[1..];
        contents := contents[1..];
      }
    }

    /** `peek`: the oldest value, left in place. */
    method Peek() returns (r: Option<T>)
      requires Valid()
      ensures r == if contents == [] then None else Some(contents[0])
    {
      r := if head == null then None else Some(head.value);
    }

    /** `peek_mut`: the node holding the oldest value, through which the
        caller may write it (null for `None`). */
    method PeekMut() returns (r: QNode?<T>)
      requires Valid()
      ensures r == null <==> contents == []
      ensures r != null ==> r == nodes[0] && r.value == contents[0]
    {
      r := head;
    }

    /** A write `*x = v` through a reference handed out by `peek_mut` or
        `IterMut::next`: only that node's value changes. */
    method WriteThrough(n: QNode<T>, v: T)
      requires Valid() && n in nodes
      modifies this, n
      ensures Valid() && nodes == old(nodes)
      ensures |contents| == |old(contents)|
      ensures forall i :: 0 <= i < |nodes| ==>
        contents[i] == if nodes[i] == n then v else old(contents)[i]
    {
      ghost var k :| 0 <= k < |nodes| && nodes[k] == n;
      DistinctPairs(nodes);
      n.value := v;
      contents := contents[k := v];
    }

    /** `Drop`: `pop` until it returns `None`. */
    method Drain()
      requires Valid()
      modifies this
      ensures Valid() && nodes == [] && contents == []
    {
      while true
        invariant Valid()
        decreases |nodes|
      {
        var r := Pop();
        if r.None? {
          break;
        }
      }
    }

    /** The elements met by running `iter()` to its end. */
    method Collect() returns (items: seq<T>)
      requires Valid()
      ensures items == contents
    {
      var it := new Iter(this);
      items := [];
      while true
        invariant Valid() && fresh(it) && it.Valid() && it.queue == this
        invariant items == contents[..it.pos]
        decreases |nodes| - it.pos
      {
        var x := it.Next();
        if x.None? {
          break;
        }
        items := items + [x.value];
      }
      assert contents[..|nodes|] == contents;
    }

    /** `for x in iter_mut() { *x = f(*x) }`: every element is visited once,
        in order, and the writes persist; the nodes stay where they are. */
    method MapInPlace(f: T -> T)
      requires Valid()
      modifies this, nodes
      ensures Valid() && nodes == old(nodes)
      ensures |contents| == |old(contents)|
      ensures forall i :: 0 <= i < |contents| ==> contents[i] == f(old(contents)[i])
    {
      var it := new IterMut(this);
      DistinctPairs(nodes);
      while true
        invariant Valid() && fresh(it) && it.Valid() && it.queue == this
        invariant nodes == old(nodes) && |contents| == |old(contents)|
        invariant forall i :: 0 <= i < it.pos ==> contents[i] == f(old(contents)[i])
        invariant forall i :: it.pos <= i < |contents| ==> contents[i] == old(contents)[i]
        decreases |nodes| - it.pos
      {
        var n := it.Next();
        if n == null {
          break;
        }
        WriteThrough(n, f(n.value));
      }
    }
  }

  /** `Iter`: a shared borrow of the queue; `next` is the node to yield. */
  class Iter<T> {
    ghost const queue: UnsafeQueue<T>
    var next: QNode?<T>
    /** How many elements have been yielded. */
    ghost var pos: nat

    ghost predicate Valid()
      reads this, queue
    {
      && pos <= |queue.nodes|
      && next == (if pos < |queue.nodes| then queue.nodes[pos] else null)
    }

    /** `UnsafeQueue::iter`: starts at `head`. */
    constructor (queue: UnsafeQueue<T>)
      requires queue.Valid()
      ensures Valid() && this.queue == queue && pos == 0
    {
      this.queue := queue;
      next := queue.head;
      pos := 0;
    }

    /** `next`: the value at `next` and a step along its link; `None`, and
        no step, once the walk is past `tail`. */
    method Next() returns (r: Option<T>)
      requires queue.Valid() && Valid()
      modifies this
      ensures Valid()
      ensures old(pos) == |queue.nodes| ==> r == None && pos == old(pos)
      ensures old(pos) < |queue.nodes| ==> r == Some(queue.contents[old(pos)]) && pos == old(pos) + 1
    {
      if next != null {
        var node := next;
        next := node.next;
        pos := pos + 1;
        r := Some(node.value);
      } else {
        r := None;
      }
    }
  }

  /** `IterMut`: a unique borrow of the queue; `next` is the node whose
      value is handed out next. */
  class IterMut<T> {
    ghost const queue: UnsafeQueue<T>
    var next: QNode?<T>
    ghost var pos: nat

    ghost predicate Valid()
      reads this, queue
    {
      && pos <= |queue.nodes|
      && next == (if pos < |queue.nodes| then queue.nodes[pos] else null)
    }

    /** `UnsafeQueue::iter_mut`: starts at `head`. */
    constructor (queue: UnsafeQueue<T>)
      requires queue.Valid()
      ensures Valid() && this.queue == queue && pos == 0
    {
      this.queue := queue;
      next := queue.head;
      pos := 0;
    }

    /** `next`: takes the node at `next` (null for `None`) and steps along
        its link. */
    method Next() returns (r: QNode?<T>)
      requires queue.Valid() && Valid()
      modifies this
      ensures Valid()
      ensures old(pos) == |queue.nodes| ==> r == null && pos == old(pos)
      ensures old(pos) < |queue.nodes| ==> r == queue.nodes[old(pos)] && pos == old(pos) + 1
    {
      r := next;
      next := null;
      if r != null {
        next := r.next;
        pos := pos + 1;
      }
    }
  }

  /** `IntoIter`: owns the queue. */
  class IntoIter<T> {
    const queue: UnsafeQueue<T>

    /** `UnsafeQueue::into_iter`. */
    constructor (queue: UnsafeQueue<T>)
      ensures this.queue == queue
    {
      this.queue := queue;
    }

    /** `next`: `pop`. */
    method Next() returns (r: Option<T>)
      requires queue.Valid()
      modifies queue
      ensures queue.Valid()
      ensures old(queue.nodes) == [] ==> r == None && queue.nodes == []
      ensures old(queue.nodes) != [] ==>
        r == Some(old(queue.contents)[0]) && queue.contents == old(queue.contents)[1..]
    {
      r := queue.Pop();
    }
  }
}
