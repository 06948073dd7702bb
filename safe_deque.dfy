/** The doubly-linked `Deque<T>` of linked-list/src/safe_deque.rs, which
    links its nodes through `Rc<RefCell<Node<T>>>`. Here a node is a plain
    heap object: `next` points one step toward `last` and `prev` one step
    toward `first`. Only the front end has operations. */
module SafeDeque {
  import opened Options
  import opened Seqs

  class DNode<T> {
    var value: T
    /** The node one step toward `last` (null at `last`). */
    var next: DNode?<T>
    /** The node one step toward `first` (null at `first`). */
    var prev: DNode?<T>

    /** `Node::new`: a node with both links empty. */
    constructor (value: T)
      ensures this.value == value && next == null && prev == null
    {
      this.value := value;
      next := null;
      prev := null;
    }
  }

  /** `next` runs first -> last and `prev` last -> first, both ending in
      null. */
  ghost predicate Linked<T>(ns: seq<DNode<T>>)
    reads ns`next, ns`prev
  {
    && (ns != [] ==> ns[0].prev == null && ns[|ns| - 1].next == null)
    && (forall i {:trigger ns[i].next} :: 0 <= i < |ns| - 1 ==> ns[i].next == ns[i + 1])
    && (forall i {:trigger ns[i].prev} :: 0 < i < |ns| ==> ns[i].prev == ns[i - 1])
  }

  /** `ns` holds the values `vs`, node by node. */
  ghost predicate Holds<T>(ns: seq<DNode<T>>, vs: seq<T>)
    reads ns`value
  {
    |ns| == |vs| && forall i :: 0 <= i < |ns| ==> ns[i].value == vs[i]
  }

  class Deque<T> {
    var first: DNode?<T>
    var last: DNode?<T>
    /** The nodes from `first` to `last`. */
    ghost var nodes: seq<DNode<T>>
    /** The values they hold, front first. */
    ghost var contents: seq<T>

    /** `first`/`last` are null together exactly when the deque is empty and
        are otherwise its two ends; the nodes are distinct, linked both ways
        and hold `contents`. */
    ghost predicate Valid()
      reads this, nodes
    {
      && Linked(nodes)
      && Distinct(nodes)
      && Holds(nodes, contents)
      && (nodes == [] ==> first == null && last == null)
      && (nodes != [] ==> first == nodes[0] && last == nodes[|nodes| - 1])
    }

    /** `new`: both ends empty. */
    constructor ()
      ensures Valid() && nodes == [] && contents == []
    {
      first := null;
      last := null;
      nodes := [];
      contents := [];
    }

    /** `push_front`: a fresh node becomes `first` (and `last` too on an
        empty deque); otherwise the old first and the new node are linked
        to each other in both directions. */
    method PushFront(value: T)
      requires Valid()
      modifies this, first
      ensures Valid()
      ensures contents == [value] + old(contents)
      ensures |nodes| == |old(nodes)| + 1 && fresh(nodes[0]) && nodes == [nodes[0]] + old(nodes)
      ensures old(nodes) == [] ==> first == last == nodes[0]
      ensures old(first) != null ==> old(first).prev == first && first.next == old(first) && last == old(last)
    {
      var n := new DNode(value);
      if first == null {
        last := n;
        first := n;
      } else {
        var oldFirst := first;
        first := null;
        oldFirst.prev := n;
        n.next := oldFirst;
        first := n;
      }
      assert ([n] + nodes)[1..] == nodes;
      nodes := [n] + nodes;
      contents := [value] + contents;
    }

    /** `pop_front`: `None` on an empty deque; otherwise unlinks `first`,
        clearing `last` when it was the only node and the new first's
        `prev` otherwise, and returns its value. */
    method PopFront() returns (r: Option<T>)
      requires Valid()
      modifies this, nodes
      ensures Valid()
      ensures old(nodes) == [] ==> r == None && nodes == [] && contents == []
      ensures old(nodes) != [] ==>
        && r == Some(old(contents)[0])
        && nodes == old(nodes)[1..] && contents == old(contents)[1..]
        && old(nodes)[0].next == null
      ensures |old(nodes)| == 1 ==> first == null && last == null
      ensures |old(nodes)| > 1 ==> first == old(nodes)[1] && first.prev == null && last == old(last)
    {
      if first == null {
        r := None;
      } else {
        var oldNode := first;
        first := null;
        var nextNode := oldNode.next;
        oldNode.next := null;
        if nextNode == null {
          last := null;
        } else {
          nextNode.prev := null;
          first := nextNode;
        }
        r := Some(oldNode.value);
        nodes := nodes[1..];
        contents := contents[1..];
      }
    }
  }
}
