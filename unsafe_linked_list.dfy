/** The doubly-linked list `UnsafeLinkedList<T>` of
    linked-list/src/unsafe_linked_list.rs, its node type and its three
    iterators.

    Link direction follows the source exactly: a node's `prev` field points
    one step toward `last` and its `next` field one step toward `first`.
    The abstract order used in every contract is first -> last, the order in
    which `Iter::next` yields the elements. */
module UnsafeList {
  import opened Options
  import opened Seqs

  class Node<T> {
    /** The neighbour one step toward `first` (null at `first`). */
    var next: Node?<T>
    /** The neighbour one step toward `last` (null at `last`). */
    var prev: Node?<T>
    var value: T

    /** `Box::new(Node { next: None, prev: None, value })`. */
    constructor (value: T)
      ensures this.value == value && next == null && prev == null
    {
      this.value := value;
      next := null;
      prev := null;
    }
  }

  /** The links of `ns` run first -> last through `prev` and last -> first
      through `next`, with null at both ends. */
  ghost predicate Chain<T>(ns: seq<Node<T>>)
    reads ns`prev, ns`next
  {
    && (ns != [] ==> ns[0].next == null && ns[|ns| - 1].prev == null)
    && PrevLinked(ns)
    && NextLinked(ns)
  }

  /** Each node's `prev` is the node after it. */
  ghost predicate PrevLinked<T>(ns: seq<Node<T>>)
    reads ns`prev
  {
    forall i {:trigger ns[i].prev} :: 0 <= i < |ns| - 1 ==> ns[i].prev == ns[i + 1]
  }

  /** Each node's `next` is the node before it. */
  ghost predicate NextLinked<T>(ns: seq<Node<T>>)
    reads ns`next
  {
    forall i {:trigger ns[i].next} :: 0 < i < |ns| ==> ns[i].next == ns[i - 1]
  }

  /** `ns` holds the values `vs`, node by node. */
  ghost predicate Holds<T>(ns: seq<Node<T>>, vs: seq<T>)
    reads ns`value
  {
    |ns| == |vs| && forall i :: 0 <= i < |ns| ==> ns[i].value == vs[i]
  }

  /** The values met by starting at `n` and following `prev` links for at
      most `steps` nodes: how `Iter::next` and `pop_first` see the list. */
  ghost function Walk<T>(ns: seq<Node<T>>, n: Node?<T>, steps: nat): seq<T>
    reads ns
    requires Chain(ns) && (n == null || n in ns)
    decreases steps
  {
    if steps == 0 || n == null then []
    else
      var i :| 0 <= i < |ns| && ns[i] == n;
      assert i + 1 < |ns| ==> ns[i].prev == ns[i + 1];
      [n.value] + Walk(ns, n.prev, steps - 1)
  }

  /** The values met by starting at `n` and following `next` links for at
      most `steps` nodes: how `next_back` and `pop_back` see the list. */
  ghost function WalkBack<T>(ns: seq<Node<T>>, n: Node?<T>, steps: nat): seq<T>
    reads ns
    requires Chain(ns) && (n == null || n in ns)
    decreases steps
  {
    if steps == 0 || n == null then []
    else
      var i :| 0 <= i < |ns| && ns[i] == n;
      assert 0 < i ==> ns[i].next == ns[i - 1];
      [n.value] + WalkBack(ns, n.next, steps - 1)
  }

  /** The `prev` half of relinking: when every `prev` link of `ns` and of
      `ins` still points to its old neighbour, except at the seams, and the
      seams point across, the `prev` links run through `ins` placed just
      before position `p` of `ns`. This is the pointer surgery of
      `splice_before` and `splice_after`. */
  lemma SplicePrevLinks<T>(ns: seq<Node<T>>, ins: seq<Node<T>>, p: nat)
    requires p <= |ns| && ins != []
    requires forall i {:trigger ns[i].prev} :: 0 <= i < |ns| - 1 && i != p - 1 ==> ns[i].prev == ns[i + 1]
    requires p < |ns| ==> ns[|ns| - 1].prev == null
    requires forall i {:trigger ins[i].prev} :: 0 <= i < |ins| - 1 ==> ins[i].prev == ins[i + 1]
    requires 0 < p ==> ns[p - 1].prev == ins[0]
    requires p < |ns| ==> ins[|ins| - 1].prev == ns[p]
    requires p == |ns| ==> ins[|ins| - 1].prev == null
    ensures PrevLinked(Splice(ns, ins, p))
    ensures Splice(ns, ins, p)[|Splice(ns, ins, p)| - 1].prev == null
  {
    var r, m := Splice(ns, ins, p), |ins|;
    forall i {:trigger r[i].prev} | 0 <= i < |r| - 1
      ensures r[i].prev == r[i + 1]
    {
      if i < p - 1 {
        assert r[i] == ns[i] && r[i + 1] == ns[i + 1];
      } else if i == p - 1 {
        assert r[i] == ns[p - 1] && r[i + 1] == ins[0];
      } else if i < p + m - 1 {
        assert r[i] == ins[i - p] && r[i + 1] == ins[i - p + 1];
      } else if i == p + m - 1 {
        assert r[i] == ins[m - 1] && r[i + 1] == ns[p];
      } else {
        assert r[i] == ns[i - m] && r[i + 1] == ns[i - m + 1];
      }
    }
    if p == |ns| {
      assert r[p + (m - 1)] == ins[m - 1];
    } else {
      assert r[(|ns| - 1) + m] == ns[|ns| - 1];
    }
  }

  /** The `next` half of relinking, mirroring `SplicePrevLinks`. */
  lemma SpliceNextLinks<T>(ns: seq<Node<T>>, ins: seq<Node<T>>, p: nat)
    requires p <= |ns| && ins != []
    requires forall i {:trigger ns[i].next} :: 0 < i < |ns| && i != p ==> ns[i].next == ns[i - 1]
    requires 0 < p ==> ns[0].next == null
    requires forall i {:trigger ins[i].next} :: 0 < i < |ins| ==> ins[i].next == ins[i - 1]
    requires 0 < p ==> ins[0].next == ns[p - 1]
    requires p == 0 ==> ins[0].next == null
    requires p < |ns| ==> ns[p].next == ins[|ins| - 1]
    ensures NextLinked(Splice(ns, ins, p))
    ensures Splice(ns, ins, p)[0].next == null
  {
    var r, m := Splice(ns, ins, p), |ins|;
    forall i {:trigger r[i].next} | 0 < i < |r|
      ensures r[i].next == r[i - 1]
    {
      if i < p {
        assert r[i] == ns[i] && r[i - 1] == ns[i - 1];
      } else if i == p {
        assert r[i] == ins[0] && r[i - 1] == ns[p - 1];
      } else if i < p + m {
        assert r[i] == ins[i - p] && r[i - 1] == ins[i - p - 1];
      } else if i == p + m {
        assert r[i] == ns[p] && r[i - 1] == ins[m - 1];
      } else {
        assert r[i] == ns[i - m] && r[i - 1] == ns[i - m - 1];
      }
    }
    if p == 0 {
      assert r[0] == ins[0];
    } else {
      assert r[0] == ns[0];
    }
  }

  /** Splicing the nodes and splicing the values at the same place keeps
      them in step. */
  lemma HoldsSplice<T>(ns: seq<Node<T>>, vs: seq<T>, ins: seq<Node<T>>, ivs: seq<T>, p: nat)
    requires Holds(ns, vs) && Holds(ins, ivs) && p <= |ns|
    ensures Holds(Splice(ns, ins, p), Splice(vs, ivs, p))
  {
    var r, m := Splice(ns, ins, p), |ins|;
    forall i | 0 <= i < |r|
      ensures r[i].value == Splice(vs, ivs, p)[i]
    {
      if i < p {
        assert r[i] == ns[i];
      } else if i < p + m {
        assert r[i] == ins[i - p];
      } else {
        assert r[i] == ns[i - m];
      }
    }
  }

  /** The seam writes shared by `splice_before` and `splice_after`: the run
      `inFront .. inBack` (the chain `ins`) is linked in after `left` and
      before `right`, which are the neighbours at position `p` of the chain
      `ns` (null past either end). Only links change. */
  method Relink<T>(ghost ns: seq<Node<T>>, ghost ins: seq<Node<T>>, ghost p: nat, left: Node?<T>, right: Node?<T>, inFront: Node<T>, inBack: Node<T>)
    requires p <= |ns| && ins != []
    requires Chain(ns) && Chain(ins) && Distinct(ns) && Distinct(ins) && Disjoint(ns, ins)
    requires left == (if 0 < p then ns[p - 1] else null)
    requires right == (if p < |ns| then ns[p] else null)
    requires inFront == ins[0] && inBack == ins[|ins| - 1]
    modifies ns`prev, ns`next, ins`prev, ins`next
    ensures Chain(Splice(ns, ins, p))
    ensures unchanged(ns`value, ins`value)
  {
    LinkLeft(ns, ins, p, left, inFront);
    LinkRight(ns, ins, p, right, inBack);
    SpliceChain(ns, ins, p);
  }

  /** Every `prev` link of `ns` points to the next node, except possibly the
      one at position `k`. */
  ghost predicate PrevExcept<T>(ns: seq<Node<T>>, k: int)
    reads ns`prev
  {
    forall i {:trigger ns[i].prev} :: 0 <= i < |ns| - 1 && i != k ==> ns[i].prev == ns[i + 1]
  }

  /** Every `next` link of `ns` points to the node before, except possibly
      the one at position `k`. */
  ghost predicate NextExcept<T>(ns: seq<Node<T>>, k: int)
    reads ns`next
  {
    forall i {:trigger ns[i].next} :: 0 < i < |ns| && i != k ==> ns[i].next == ns[i - 1]
  }

  /** The seam toward `first`: `left.prev = in_front; in_front.next = left`. */
  method LinkLeft<T>(ghost ns: seq<Node<T>>, ghost ins: seq<Node<T>>, ghost p: nat, left: Node?<T>, inFront: Node<T>)
    requires p <= |ns| && ins != []
    requires Chain(ns) && Chain(ins) && Distinct(ns) && Disjoint(ns, ins)
    requires left == (if 0 < p then ns[p - 1] else null)
    requires inFront == ins[0]
    modifies ns`prev, ins`next
    ensures PrevExcept(ns, p - 1) && NextLinked(ns) && PrevLinked(ins) && NextExcept(ins, 0)
    ensures p < |ns| ==> ns[|ns| - 1].prev == null
    ensures ns != [] ==> ns[0].next == null
    ensures ins[|ins| - 1].prev == null
    ensures 0 < p ==> ns[p - 1].prev == ins[0] && ins[0].next == ns[p - 1]
    ensures p == 0 ==> ins[0].next == null
    ensures unchanged(ns`value, ins`value)
  {
    if left != null {
      left.prev := inFront;
      inFront.next := left;
    }
    forall i {:trigger ns[i].prev} | 0 <= i < |ns| - 1 && i != p - 1
      ensures ns[i].prev == ns[i + 1]
    {
      if 0 < p {
        DistinctNe(ns, i, p - 1);
      }
    }
    if p < |ns| && 0 < p {
      DistinctNe(ns, |ns| - 1, p - 1);
    }
    forall i {:trigger ns[i].next} | 0 < i < |ns|
      ensures ns[i].next == ns[i - 1]
    {
      assert ns[i] !in ins;
    }
    assert ns != [] ==> ns[0] !in ins;
    forall i {:trigger ins[i].prev} | 0 <= i < |ins| - 1
      ensures ins[i].prev == ins[i + 1]
    {
      assert 0 < p ==> ns[p - 1] !in ins;
    }
    assert 0 < p ==> ns[p - 1] !in ins;
  }

  /** The seam toward `last`: `right.next = in_back; in_back.prev = right`. */
  method LinkRight<T>(ghost ns: seq<Node<T>>, ghost ins: seq<Node<T>>, ghost p: nat, right: Node?<T>, inBack: Node<T>)
    requires p <= |ns| && ins != []
    requires Distinct(ns) && Distinct(ins) && Disjoint(ns, ins)
    requires PrevExcept(ns, p - 1) && NextLinked(ns) && PrevLinked(ins) && NextExcept(ins, 0)
    requires p < |ns| ==> ns[|ns| - 1].prev == null
    requires ns != [] ==> ns[0].next == null
    requires ins[|ins| - 1].prev == null
    requires 0 < p ==> ns[p - 1].prev == ins[0] && ins[0].next == ns[p - 1]
    requires p == 0 ==> ins[0].next == null
    requires right == (if p < |ns| then ns[p] else null)
    requires inBack == ins[|ins| - 1]
    modifies ns`next, ins`prev
    ensures PrevExcept(ns, p - 1) && NextExcept(ns, p) && PrevLinked(ins) && NextExcept(ins, 0)
    ensures p < |ns| ==> ns[|ns| - 1].prev == null
    ensures 0 < p ==> ns[0].next == null
    ensures 0 < p ==> ns[p - 1].prev == ins[0] && ins[0].next == ns[p - 1]
    ensures p == 0 ==> ins[0].next == null
    ensures p < |ns| ==> ins[|ins| - 1].prev == ns[p] && ns[p].next == ins[|ins| - 1]
    ensures p == |ns| ==> ins[|ins| - 1].prev == null
    ensures unchanged(ns`value, ins`value)
  {
    ghost var m := |ins|;
    if right != null {
      right.next := inBack;
      inBack.prev := right;
    }
    forall i {:trigger ns[i].prev} | 0 <= i < |ns| - 1 && i != p - 1
      ensures ns[i].prev == ns[i + 1]
    {
      assert ns[i] !in ins;
    }
    assert ns != [] ==> ns[|ns| - 1] !in ins;
    assert 0 < p ==> ns[p - 1] !in ins;
    forall i {:trigger ns[i].next} | 0 < i < |ns| && i != p
      ensures ns[i].next == ns[i - 1]
    {
      if p < |ns| {
        DistinctNe(ns, i, p);
      }
    }
    if 0 < p < |ns| {
      DistinctNe(ns, 0, p);
    }
    forall i {:trigger ins[i].prev} | 0 <= i < m - 1
      ensures ins[i].prev == ins[i + 1]
    {
      DistinctNe(ins, i, m - 1);
    }
    forall i {:trigger ins[i].next} | 0 < i < m
      ensures ins[i].next == ins[i - 1]
    {
      assert p < |ns| ==> ns[p] !in ins;
    }
    assert p < |ns| ==> ns[p] !in ins;
  }

  lemma SpliceChain<T>(ns: seq<Node<T>>, ins: seq<Node<T>>, p: nat)
    requires p <= |ns| && ins != []
    requires PrevExcept(ns, p - 1) && NextExcept(ns, p) && PrevLinked(ins) && NextExcept(ins, 0)
    requires p < |ns| ==> ns[|ns| - 1].prev == null
    requires 0 < p ==> ns[0].next == null
    requires 0 < p ==> ns[p - 1].prev == ins[0] && ins[0].next == ns[p - 1]
    requires p == 0 ==> ins[0].next == null
    requires p < |ns| ==> ins[|ins| - 1].prev == ns[p] && ns[p].next == ins[|ins| - 1]
    requires p == |ns| ==> ins[|ins| - 1].prev == null
    ensures Chain(Splice(ns, ins, p))
  {
    SplicePrevLinks(ns, ins, p);
    SpliceNextLinks(ns, ins, p);
  }

  /** The ends of a splice of a non-empty run: the run's front when it
      goes in at position 0, its back when it goes in at the end. */
  lemma SpliceEnds<T>(ns: seq<T>, ins: seq<T>, p: nat)
    requires p <= |ns| && ins != []
    ensures Splice(ns, ins, p)[0] == if p == 0 then ins[0] else ns[0]
    ensures Splice(ns, ins, p)[|Splice(ns, ins, p)| - 1] == if p == |ns| then ins[|ins| - 1] else ns[|ns| - 1]
  {
    var r, m := Splice(ns, ins, p), |ins|;
    if p == 0 {
      assert r[p + 0] == ins[0];
    } else {
      assert r[0] == ns[0];
    }
    if p == |ns| {
      assert r[p + (m - 1)] == ins[m - 1];
    } else {
      assert r[(|ns| - 1) + m] == ns[|ns| - 1];
    }
  }

  /** Cutting the chain `ns` in two just before position `p`: the node
      before the cut loses its `prev` link and the node after it its `next`
      link (the `take()` and `= None` of `split_before` and `split_after`).
      Both halves are chains afterwards. */
  method Cut<T>(ghost ns: seq<Node<T>>, ghost p: nat, left: Node?<T>, right: Node?<T>)
    requires Chain(ns) && Distinct(ns) && p <= |ns|
    requires left == (if 0 < p then ns[p - 1] else null)
    requires right == (if p < |ns| then ns[p] else null)
    modifies ns`prev, ns`next
    ensures Chain(ns[..p]) && Chain(ns[p..])
    ensures unchanged(ns`value)
  {
    if right != null {
      right.next := null;
    }
    if left != null {
      left.prev := null;
    }
    forall i {:trigger ns[i].prev} | 0 <= i < |ns| - 1 && i != p - 1
      ensures ns[i].prev == ns[i + 1]
    {
      if 0 < p {
        DistinctNe(ns, i, p - 1);
      }
    }
    forall i {:trigger ns[i].next} | 0 < i < |ns| && i != p
      ensures ns[i].next == ns[i - 1]
    {
      if p < |ns| {
        DistinctNe(ns, i, p);
      }
    }
    if 0 < p < |ns| {
      DistinctNe(ns, |ns| - 1, p - 1);
      DistinctNe(ns, 0, p);
    }
    CutHalves(ns, p);
  }

  lemma CutHalves<T>(ns: seq<Node<T>>, p: nat)
    requires Distinct(ns) && p <= |ns|
    requires PrevExcept(ns, p - 1) && NextExcept(ns, p)
    requires 0 < p ==> ns[p - 1].prev == null
    requires p < |ns| ==> ns[p].next == null
    requires p < |ns| ==> ns[|ns| - 1].prev == null
    requires 0 < p ==> ns[0].next == null
    ensures Chain(ns[..p]) && Chain(ns[p..])
  {
    var a, b := ns[..p], ns[p..];
    forall i {:trigger a[i].prev} | 0 <= i < |a| - 1
      ensures a[i].prev == a[i + 1]
    {
      assert a[i] == ns[i] && a[i + 1] == ns[i + 1];
    }
    forall i {:trigger a[i].next} | 0 < i < |a|
      ensures a[i].next == a[i - 1]
    {
      assert a[i] == ns[i] && a[i - 1] == ns[i - 1];
    }
    forall i {:trigger b[i].prev} | 0 <= i < |b| - 1
      ensures b[i].prev == b[i + 1]
    {
      assert b[i] == ns[p + i] && b[i + 1] == ns[p + i + 1];
    }
    forall i {:trigger b[i].next} | 0 < i < |b|
      ensures b[i].next == b[i - 1]
    {
      assert b[i] == ns[p + i] && b[i - 1] == ns[p + i - 1];
    }
  }

  /** Both halves of a chain hold the matching halves of its values. */
  lemma HoldsHalves<T>(ns: seq<Node<T>>, vs: seq<T>, p: nat)
    requires Holds(ns, vs) && p <= |ns|
    ensures Holds(ns[..p], vs[..p]) && Holds(ns[p..], vs[p..])
  {
    assert forall i :: 0 <= i < |ns| - p ==> ns[p..][i] == ns[p + i] && vs[p..][i] == vs[p + i];
  }

  function Min(a: nat, b: nat): nat
  {
    if a <= b then a else b
  }

  /** Walking forward from node `i` visits the values from `i` on, stopping
      at the end of the chain. */
  lemma {:induction false} WalkFrom<T>(ns: seq<Node<T>>, vs: seq<T>, i: nat, steps: nat)
    requires Chain(ns) && Holds(ns, vs) && i < |ns|
    ensures Walk(ns, ns[i], steps) == vs[i..i + Min(steps, |ns| - i)]
    decreases steps
  {
    if steps > 0 && i + 1 < |ns| {
      WalkFrom(ns, vs, i + 1, steps - 1);
    }
  }

  /** Walking backward from node `j` visits the values from `j` down to the
      start of the chain or until `steps` run out, in that order. */
  lemma {:induction false} WalkBackFrom<T>(ns: seq<Node<T>>, vs: seq<T>, j: nat, steps: nat)
    requires Chain(ns) && Holds(ns, vs) && j < |ns|
    ensures |WalkBack(ns, ns[j], steps)| == Min(steps, j + 1)
    ensures forall k :: 0 <= k < Min(steps, j + 1) ==> WalkBack(ns, ns[j], steps)[k] == vs[j - k]
    decreases steps
  {
    if steps > 0 && 0 < j {
      WalkBackFrom(ns, vs, j - 1, steps - 1);
    }
  }

  class UnsafeLinkedList<T> {
    var first: Node?<T>
    var last: Node?<T>
    var len: nat
    /** The nodes this list owns, first -> last. */
    ghost var nodes: seq<Node<T>>
    /** The elements, first -> last. */
    ghost var contents: seq<T>

    /** The list invariant: `len` counts the nodes, the nodes are distinct and
        linked both ways, and `first`/`last` are null exactly when the list is
        empty. */
    ghost predicate Valid()
      reads this, nodes
    {
      && len == |nodes|
      && Holds(nodes, contents)
      && Distinct(nodes)
      && Chain(nodes)
      && first == (if nodes == [] then null else nodes[0])
      && last == (if nodes == [] then null else nodes[|nodes| - 1])
    }

    /** `UnsafeLinkedList::new`. */
    constructor ()
      ensures Valid() && nodes == [] && contents == []
    {
      first := null;
      last := null;
      len := 0;
      nodes := [];
      contents := [];
    }

    /** The struct literal `UnsafeLinkedList { first, last, len, .. }`; the
        ghost `nodes` names the nodes the new header is meant to own. */
    constructor FromParts(first: Node?<T>, last: Node?<T>, len: nat,
                          ghost nodes: seq<Node<T>>, ghost contents: seq<T>)
      ensures this.first == first && this.last == last && this.len == len
      ensures this.nodes == nodes && this.contents == contents
    {
      this.first := first;
      this.last := last;
      this.len := len;
      this.nodes := nodes;
      this.contents := contents;
    }

    /** Walking `len` nodes from `first` along `prev` links yields the
        contents. */
    lemma WalkForward()
      requires Valid()
      ensures Walk(nodes, first, len) == contents
    {
      if nodes != [] {
        WalkFrom(nodes, contents, 0, len);
        assert Min(len, |nodes|) == |nodes| && contents[0..|nodes|] == contents;
      }
    }

    /** Walking `len` nodes from `last` along `next` links yields the
        contents reversed. */
    lemma WalkBackward()
      requires Valid()
      ensures WalkBack(nodes, last, len) == Reverse(contents)
    {
      if nodes != [] {
        var n := |nodes|;
        WalkBackFrom(nodes, contents, n - 1, len);
        var w := WalkBack(nodes, last, len);
        forall k | 0 <= k < n
          ensures w[k] == Reverse(contents)[k]
        {
          ReverseAt(contents, k);
        }
      }
    }

    /** `push`: puts `value` at the FRONT. */
    method Push(value: T)
      requires Valid()
      modifies this, nodes
      ensures Valid()
      ensures contents == [value] + old(contents)
      ensures |nodes| == |old(nodes)| + 1 && fresh(nodes[0]) && nodes == [nodes[0]] + old(nodes)
    {
      var n := new Node(value);
      if first != null {
        first.next := n;
        n.prev := first;
      } else {
        last := n;
      }
      first := n;
      len := len + 1;
      assert ([n] + nodes)[1..] == nodes;
      nodes := [n] + nodes;
      contents := [value] + contents;
    }

    /** `push_back`: puts `value` at the back. */
    method PushBack(value: T)
      requires Valid()
      modifies this, nodes
      ensures Valid()
      ensures contents == old(contents) + [value]
      ensures |nodes| == |old(nodes)| + 1 && fresh(nodes[|nodes| - 1])
      ensures nodes == old(nodes) + [nodes[|nodes| - 1]]
    {
      var n := new Node(value);
      if last != null {
        last.prev := n;
        n.next := last;
      } else {
        first := n;
      }
      last := n;
      len := len + 1;
      DistinctSnoc(nodes, n);
      nodes := nodes + [n];
      contents := contents + [value];
    }

    /** `pop_first`: removes and returns the front element, or `None` on an
        empty list. */
    method PopFirst() returns (r: Option<T>)
      requires Valid()
      modifies this, nodes
      ensures Valid()
      ensures old(nodes) == [] ==> r == None && nodes == []
      ensures old(nodes) != [] ==>
        && r == Some(old(contents)[0])
        && nodes == old(nodes)[1..]
        && contents == old(contents)[1..]
      ensures old(len) == 1 ==> first == null && last == null
    {
      if first == null {
        return None;
      }
      var node := first;
      var res := node.value;
      assert 1 < |nodes| ==> nodes[0].prev == nodes[1];
      DistinctPairs(nodes);
      first := node.prev;
      if first != null {
        first.next := null;
      } else {
        last := null;
      }
      len := len - 1;
      nodes := nodes[1..];
      contents := contents[1..];
      r := Some(res);
    }

    /** `pop_back`: removes and returns the back element, or `None` on an
        empty list. */
    method PopBack() returns (r: Option<T>)
      requires Valid()
      modifies this, nodes
      ensures Valid()
      ensures old(nodes) == [] ==> r == None && nodes == []
      ensures old(nodes) != [] ==>
        && r == Some(old(contents)[|old(nodes)| - 1])
        && nodes == old(nodes)[..|old(nodes)| - 1]
        && contents == old(contents)[..|old(nodes)| - 1]
      ensures old(len) == 1 ==> first == null && last == null
    {
      if last == null {
        return None;
      }
      var node := last;
      var res := node.value;
      assert 1 < |nodes| ==> nodes[|nodes| - 2].prev == nodes[|nodes| - 1];
      DistinctPairs(nodes);
      DistinctPrefix(nodes, |nodes| - 1);
      last := node.next;
      if last != null {
        last.prev := null;
      } else {
        first := null;
      }
      len := len - 1;
      nodes := nodes[..|nodes| - 1];
      contents := contents[..|contents| - 1];
      r := Some(res);
    }

    /** What the non-swapping branches of `CursorMut::splice_before` and
        `CursorMut::splice_after` do to the two lists: take the run out of
        `input` (`input.first.take()`, `input.last.take()`), link it in
        between `left` and `right`, the neighbours at position `p` (a null
        neighbour makes the run's end the new `first` or `last`), then
        `self.list.len += input.len; input.len = 0`. */
    method SpliceIn(input: UnsafeLinkedList<T>, ghost p: nat, left: Node?<T>, right: Node?<T>)
      requires Valid() && input.Valid() && input != this
      requires Disjoint(nodes, input.nodes) && input.nodes != [] && p <= |nodes|
      requires left == (if 0 < p then nodes[p - 1] else null)
      requires right == (if p < |nodes| then nodes[p] else null)
      modifies this`first, this`last, this`len, this`nodes, this`contents, nodes`prev, nodes`next
      modifies input`first, input`last, input`len, input`nodes, input`contents, input.nodes`prev, input.nodes`next
      ensures Valid() && input.Valid()
      ensures nodes == Splice(old(nodes), old(input.nodes), p)
      ensures contents == Splice(old(contents), old(input.contents), p)
      ensures input.nodes == [] && input.contents == []
      ensures right != null ==> p < |nodes| - |old(input.nodes)| && nodes[p + |old(input.nodes)|] == right
    {
      ghost var ns, vs, ins, ivs := nodes, contents, input.nodes, input.contents;
      SpliceEnds(ns, ins, p);
      SpliceDistinct(ns, ins, p);
      var inFront, inBack := input.first, input.last;
      ghost var rs := Splice(ns, ins, p);
      var f := if left == null then inFront else first;
      var l := if right == null then inBack else last;
      assert rs != [] && f == rs[0] && l == rs[|rs| - 1];
      Rehead(input, f, l, len + input.len, rs, Splice(vs, ivs, p), ns, vs, ins, ivs);
      Relink(ns, ins, p, left, right, inFront, inBack);
      HoldsSplice(ns, vs, ins, ivs, p);
      ValidFrom(rs, Splice(vs, ivs, p));
      assert right != null ==> rs[p + |ins|] == ns[p];
    }

    lemma ValidFrom(rs: seq<Node<T>>, rvs: seq<T>)
      requires nodes == rs && contents == rvs && len == |rs|
      requires Chain(rs) && Holds(rs, rvs) && Distinct(rs)
      requires first == (if rs == [] then null else rs[0])
      requires last == (if rs == [] then null else rs[|rs| - 1])
      ensures Valid()
    {
    }

    /** The header half of a splice: this list's header takes the given
        values and `input`'s is emptied (`input.first.take()`,
        `input.last.take()`, `input.len = 0`). Only header fields change, so
        the chains `ns` and `ins` keep their links and values. */
    method Rehead(input: UnsafeLinkedList<T>, f: Node?<T>, l: Node?<T>, n: nat,
                  ghost rs: seq<Node<T>>, ghost rvs: seq<T>,
                  ghost ns: seq<Node<T>>, ghost vs: seq<T>, ghost ins: seq<Node<T>>, ghost ivs: seq<T>)
      requires input != this
      requires Chain(ns) && Chain(ins) && Holds(ns, vs) && Holds(ins, ivs)
      modifies this`first, this`last, this`len, this`nodes, this`contents
      modifies input`first, input`last, input`len, input`nodes, input`contents
      ensures first == f && last == l && len == n && nodes == rs && contents == rvs
      ensures input.Valid() && input.nodes == [] && input.contents == []
      ensures Chain(ns) && Chain(ins) && Holds(ns, vs) && Holds(ins, ivs)
    {
      first, last, len, nodes, contents := f, l, n, rs, rvs;
      input.first, input.last, input.len, input.nodes, input.contents := null, null, 0, [], [];
    }

    /** `mem::swap(self, other)`: the two headers trade places. */
    method SwapWith(other: UnsafeLinkedList<T>)
      requires other != this
      modifies this`first, this`last, this`len, this`nodes, this`contents
      modifies other`first, other`last, other`len, other`nodes, other`contents
      ensures first == old(other.first) && last == old(other.last) && len == old(other.len)
      ensures nodes == old(other.nodes) && contents == old(other.contents)
      ensures other.first == old(first) && other.last == old(last) && other.len == old(len)
      ensures other.nodes == old(nodes) && other.contents == old(contents)
    {
      first, other.first := other.first, first;
      last, other.last := other.last, last;
      len, other.len := other.len, len;
      nodes, other.nodes := other.nodes, nodes;
      contents, other.contents := other.contents, contents;
    }

    /** The empty-owner case of `splice_before` and `splice_after`:
        `mem::swap(self.list, &mut input)`, then `self.list.len += input.len`
        (which adds nothing, as `input` now holds the empty header) and
        `input.len = 0`. */
    method Adopt(input: UnsafeLinkedList<T>)
      requires Valid() && input.Valid() && input != this && nodes == []
      modifies this`first, this`last, this`len, this`nodes, this`contents
      modifies input`first, input`last, input`len, input`nodes, input`contents
      ensures Valid() && input.Valid()
      ensures nodes == old(input.nodes) && contents == old(input.contents)
      ensures input.nodes == [] && input.contents == []
    {
      SwapWith(input);
      len := len + input.len;
      input.len := 0;
    }

    /** A header `UnsafeLinkedList { first, last, len, .. }` around a chain
        that has been cut off another list. */
    static method Wrap(first: Node?<T>, last: Node?<T>, len: nat, ghost ns: seq<Node<T>>, ghost vs: seq<T>)
      returns (r: UnsafeLinkedList<T>)
      requires Chain(ns) && Holds(ns, vs) && Distinct(ns) && len == |ns|
      requires first == (if ns == [] then null else ns[0])
      requires last == (if ns == [] then null else ns[|ns| - 1])
      ensures fresh(r) && r.Valid() && r.nodes == ns && r.contents == vs
    {
      r := new UnsafeLinkedList.FromParts(first, last, len, ns, vs);
    }

    /** A header whose `first` is set but is not the first of its nodes is
        not valid. */
    lemma FirstMismatch()
      requires first != null && (nodes == [] || first != nodes[0])
      ensures !Valid()
    {
    }

    /** `mem::replace(self, UnsafeLinkedList::new())`: the whole list moves
        into a fresh header and this one is left empty. */
    method Take() returns (r: UnsafeLinkedList<T>)
      requires Valid()
      modifies this`first, this`last, this`len, this`nodes, this`contents
      ensures fresh(r) && r.Valid() && Valid()
      ensures r.nodes == old(nodes) && r.contents == old(contents)
      ensures nodes == [] && contents == []
    {
      r := new UnsafeLinkedList();
      SwapWith(r);
    }

    /** The owner's side of `split_before` on node `p`: `at.next.take()`,
        `prev.prev = None` when there is a `prev`, `first = at` and
        `len = old_len - old_idx`. The list keeps `nodes[p..]`; the cut-off
        front `nodes[..p]` is left a well-formed chain for the caller to
        wrap in a header. */
    method KeepFrom(p: nat, prev: Node?<T>, at: Node<T>)
      requires Valid() && p < |nodes|
      requires prev == (if 0 < p then nodes[p - 1] else null) && at == nodes[p]
      modifies this`first, this`len, this`nodes, this`contents, nodes`prev, nodes`next
      ensures Valid()
      ensures nodes == old(nodes)[p..] && contents == old(contents)[p..]
      ensures Chain(old(nodes)[..p])
    {
      ghost var ns, vs := nodes, contents;
      DistinctSuffix(ns, p);
      HoldsHalves(ns, vs, p);
      Cut(ns, p, prev, at);
      first := at;
      len := len - p;
      nodes, contents := ns[p..], vs[p..];
      ValidFrom(ns[p..], vs[p..]);
    }

    /** The owner's side of a corrected `split_after` on node `p - 1`:
        `at.prev.take()`, `next.next = None` when there is a `next`,
        `last = at` and `len = p`. The list keeps `nodes[..p]`; the cut-off
        back `nodes[p..]` is left a well-formed chain for the caller. */
    method KeepUpTo(p: nat, at: Node<T>, next: Node?<T>)
      requires Valid() && 0 < p <= |nodes|
      requires at == nodes[p - 1] && next == (if p < |nodes| then nodes[p] else null)
      modifies this`last, this`len, this`nodes, this`contents, nodes`prev, nodes`next
      ensures Valid()
      ensures nodes == old(nodes)[..p] && contents == old(contents)[..p]
      ensures Chain(old(nodes)[p..])
    {
      ghost var ns, vs := nodes, contents;
      DistinctPrefix(ns, p);
      HoldsHalves(ns, vs, p);
      Cut(ns, p, at, next);
      last := at;
      len := p;
      nodes, contents := ns[..p], vs[..p];
      ValidFrom(ns[..p], vs[..p]);
    }

    /** Corrected on-node `split_before` at position `p`: keeps `nodes[p..]`
        and returns `nodes[..p]` under a header of its own. */
    method SplitOffFront(p: nat, prev: Node?<T>, at: Node<T>) returns (r: UnsafeLinkedList<T>)
      requires Valid() && p < |nodes|
      requires prev == (if 0 < p then nodes[p - 1] else null) && at == nodes[p]
      modifies this`first, this`len, this`nodes, this`contents, nodes`prev, nodes`next
      ensures Valid() && fresh(r) && r.Valid()
      ensures nodes == old(nodes)[p..] && contents == old(contents)[p..]
      ensures r.nodes == old(nodes)[..p] && r.contents == old(contents)[..p]
    {
      ghost var ns, vs := nodes, contents;
      var front := first;
      DistinctPrefix(ns, p);
      HoldsHalves(ns, vs, p);
      KeepFrom(p, prev, at);
      r := Wrap(if prev == null then null else front, prev, p, ns[..p], vs[..p]);
    }

    /** Corrected on-node `split_after` at position `p - 1`: keeps
        `nodes[..p]` and returns `nodes[p..]` under a header of its own. */
    method SplitOffBack(p: nat, at: Node<T>, next: Node?<T>) returns (r: UnsafeLinkedList<T>)
      requires Valid() && 0 < p <= |nodes|
      requires at == nodes[p - 1] && next == (if p < |nodes| then nodes[p] else null)
      modifies this`last, this`len, this`nodes, this`contents, nodes`prev, nodes`next
      ensures Valid() && fresh(r) && r.Valid()
      ensures nodes == old(nodes)[..p] && contents == old(contents)[..p]
      ensures r.nodes == old(nodes)[p..] && r.contents == old(contents)[p..]
    {
      ghost var ns, vs := nodes, contents;
      var back, n := last, len;
      DistinctSuffix(ns, p);
      HoldsHalves(ns, vs, p);
      KeepUpTo(p, at, next);
      r := Wrap(next, if next == null then null else back, n - p, ns[p..], vs[p..]);
    }

    /** On-node `split_before` at position `p` AS WRITTEN: the list keeps
        `nodes[p..]` as intended, but the returned header is
        `{ first: self.first, last: prev, len: old_len - new_len }` read
        after `first` has become `at`. Its `nodes` are set to `nodes[..p]`,
        the nodes its `last` and `len` describe. */
    method SplitOffFrontAsWritten(p: nat, prev: Node?<T>, at: Node<T>) returns (r: UnsafeLinkedList<T>)
      requires Valid() && p < |nodes|
      requires prev == (if 0 < p then nodes[p - 1] else null) && at == nodes[p]
      modifies this`first, this`len, this`nodes, this`contents, nodes`prev, nodes`next
      ensures Valid() && fresh(r)
      ensures nodes == old(nodes)[p..] && contents == old(contents)[p..]
      ensures last == old(last)
      ensures r.first == at == first && r.last == prev && r.len == p
      ensures r.nodes == old(nodes)[..p] && r.contents == old(contents)[..p] && !r.Valid()
      ensures Chain(r.nodes)
    {
      ghost var ns, vs := nodes, contents;
      var oldLen := len;
      if 0 < p {
        DistinctAt(ns, 0, p);
      }
      KeepFrom(p, prev, at);
      r := new UnsafeLinkedList.FromParts(first, prev, oldLen - len, ns[..p], vs[..p]);
      r.FirstMismatch();
    }

    /** On-node `split_after` at position `k` AS WRITTEN: the cut is made
        just after `at` (node `k`), but the list's `len` becomes
        `old_len - old_idx` and the returned header is
        `{ first: self.last, last: next, len: old_len - new_len }`, read
        after `last` has become `at`. Its `nodes` are set to
        `nodes[k + 1..]`, the nodes after the cut. */
    method SplitOffBackAsWritten(k: nat, at: Node<T>, next: Node?<T>) returns (r: UnsafeLinkedList<T>)
      requires Valid() && k < |nodes|
      requires at == nodes[k] && next == (if k + 1 < |nodes| then nodes[k + 1] else null)
      modifies this`last, this`len, this`nodes, this`contents, nodes`prev, nodes`next
      ensures fresh(r)
      ensures nodes == old(nodes)[..k + 1] && contents == old(contents)[..k + 1]
      ensures len == |old(nodes)| - k && last == at && first == old(first)
      ensures Valid() <==> |old(nodes)| == 2 * k + 1
      ensures r.first == at && r.last == next && r.len == k
      ensures r.nodes == old(nodes)[k + 1..] && r.contents == old(contents)[k + 1..] && !r.Valid()
      ensures Chain(nodes) && Chain(r.nodes)
    {
      ghost var ns, vs := nodes, contents;
      var oldLen := len;
      DistinctHalves(ns, k + 1);
      assert ns[k] == ns[..k + 1][k];
      assert ns[k + 1..] == [] || at != ns[k + 1..][0];
      KeepUpTo(k + 1, at, next);
      var newLen := oldLen - k;
      SetLen(newLen);
      r := WrapMismatched(at, next, oldLen - newLen, ns[k + 1..], vs[k + 1..]);
    }

    /** `self.len = n` with nothing else touched: the list stays valid
        exactly when `n` is its node count. */
    method SetLen(n: nat)
      requires Valid()
      modifies this`len
      ensures len == n && (Valid() <==> n == |nodes|)
    {
      len := n;
    }

    /** A header `UnsafeLinkedList { first, last, len, .. }` around the
        chain `ns` whose `first` is not the chain's first node: the header
        is not a valid list, and the chain itself is left as it was. */
    static method WrapMismatched(first: Node<T>, last: Node?<T>, len: nat, ghost ns: seq<Node<T>>, ghost vs: seq<T>)
      returns (r: UnsafeLinkedList<T>)
      requires Chain(ns) && (ns == [] || first != ns[0])
      ensures fresh(r) && r.first == first && r.last == last && r.len == len
      ensures r.nodes == ns && r.contents == vs && !r.Valid()
      ensures Chain(ns)
    {
      r := new UnsafeLinkedList.FromParts(first, last, len, ns, vs);
      r.FirstMismatch();
    }

    /** `len`. */
    method Len() returns (n: nat)
      requires Valid()
      ensures n == |contents|
    {
      n := len;
    }

    /** `is_empty`. */
    method IsEmpty() returns (e: bool)
      requires Valid()
      ensures e <==> contents == []
    {
      e := len == 0;
    }

    /** `first`: the front element, if any. */
    method First() returns (r: Option<T>)
      requires Valid()
      ensures r == if contents == [] then None else Some(contents[0])
    {
      r := if first == null then None else Some(first.value);
    }

    /** `first_mut`: the node holding the front element, through which the
        caller may write it (null for `None`). */
    method FirstMut() returns (r: Node?<T>)
      requires Valid()
      ensures r == null <==> contents == []
      ensures r != null ==> r == nodes[0] && r.value == contents[0]
    {
      r := first;
    }

    /** `back`: the back element, if any. */
    method Back() returns (r: Option<T>)
      requires Valid()
      ensures r == if contents == [] then None else Some(contents[|contents| - 1])
    {
      r := if last == null then None else Some(last.value);
    }

    /** `back_mut`: the node holding the back element (null for `None`). */
    method BackMut() returns (r: Node?<T>)
      requires Valid()
      ensures r == null <==> contents == []
      ensures r != null ==> r == nodes[|nodes| - 1] && r.value == contents[|nodes| - 1]
    {
      r := last;
    }

    /** `*x = v` through a `&mut T` obtained from this list (`first_mut`,
        `back_mut`, `IterMut`, a cursor): replaces exactly that element. */
    method WriteThrough(n: Node<T>, v: T)
      requires Valid() && n in nodes
      modifies this, n
      ensures Valid() && nodes == old(nodes)
      ensures |contents| == |old(contents)|
      ensures forall i :: 0 <= i < |nodes| ==>
        contents[i] == if nodes[i] == n then v else old(contents)[i]
    {
      ghost var k :| 0 <= k < |nodes| && nodes[k] == n;
      DistinctPairs(nodes);
      n.value := v;
      contents := contents[k := v];
    }

    /** `clear` (also what `Drop` runs): `pop_first` until it returns `None`. */
    method Clear()
      requires Valid()
      modifies this, nodes
      ensures Valid() && nodes == [] && contents == []
    {
      while true
        invariant Valid()
        invariant forall i :: 0 <= i < |nodes| ==> nodes[i] in old(nodes)
        decreases |nodes|
      {
        var r := PopFirst();
        if r.None? {
          break;
        }
      }
    }

    /** `extend`: `push_back` of every item, in order. */
    method Extend(items: seq<T>)
      requires Valid()
      modifies this, nodes
      ensures Valid()
      ensures contents == old(contents) + items
      ensures |nodes| == |old(nodes)| + |items| && nodes[..|old(nodes)|] == old(nodes)
      ensures forall i :: |old(nodes)| <= i < |nodes| ==> fresh(nodes[i])
    {
      for k := 0 to |items|
        invariant Valid()
        invariant contents == old(contents) + items[..k]
        invariant |nodes| == |old(nodes)| + k && nodes[..|old(nodes)|] == old(nodes)
        invariant forall i :: |old(nodes)| <= i < |nodes| ==> fresh(nodes[i])
      {
        PushBack(items[k]);
      }
    }

    /** `from_iter`: a new list extended by `items`. */
    static method FromIter(items: seq<T>) returns (r: UnsafeLinkedList<T>)
      ensures fresh(r) && r.Valid() && r.contents == items
      ensures forall i :: 0 <= i < |r.nodes| ==> fresh(r.nodes[i])
    {
      r := new UnsafeLinkedList();
      r.Extend(items);
    }

    /** The elements met by running `iter()` to its end, front to back. */
    method Collect() returns (items: seq<T>)
      requires Valid()
      ensures items == contents
    {
      var it := new Iter(this);
      items := [];
      while true
        invariant Valid() && fresh(it) && it.Valid() && it.list == this && it.hi == |nodes|
        invariant items == contents[..it.lo]
        decreases |nodes| - it.lo
      {
        var x := it.Next();
        if x.None? {
          break;
        }
        items := items + [x.value];
      }
      assert contents[..|nodes|] == contents;
    }

    /** `clone`: a new list built by `push_back` of every element met by
        `iter()`; it shares no node with this one. */
    method Clone() returns (r: UnsafeLinkedList<T>)
      requires Valid()
      ensures fresh(r) && r.Valid() && r.contents == contents
      ensures forall i :: 0 <= i < |r.nodes| ==> fresh(r.nodes[i])
    {
      var items := Collect();
      r := FromIter(items);
    }

    /** The elements met by running `iter().rev()` (that is, `next_back`)
        to its end: back to front. */
    method CollectBack() returns (items: seq<T>)
      requires Valid()
      ensures |items| == |contents|
      ensures forall k :: 0 <= k < |items| ==> items[k] == contents[|contents| - 1 - k]
    {
      var it := new Iter(this);
      items := [];
      while true
        invariant Valid() && fresh(it) && it.Valid() && it.list == this && it.lo == 0
        invariant |items| == |nodes| - it.hi
        invariant forall k :: 0 <= k < |items| ==> items[k] == contents[|nodes| - 1 - k]
        decreases it.hi
      {
        var x := it.NextBack();
        if x.None? {
          break;
        }
        items := items + [x.value];
      }
    }

    /** The test helper `check_links`: `iter()` front to back, and
        `iter().rev()` back to front; re-reversing the second gives the
        first. */
    method CheckLinks() returns (fromFront: seq<T>, fromBack: seq<T>)
      requires Valid()
      ensures fromFront == contents
      ensures fromBack == Reverse(contents)
      ensures Reverse(fromBack) == fromFront
    {
      fromFront := Collect();
      fromBack := CollectBack();
      forall k | 0 <= k < |contents|
        ensures fromBack[k] == Reverse(contents)[k]
      {
        ReverseAt(contents, k);
      }
      ReverseReverse(contents);
    }
  }

  /** `Iter`: a window `[lo, hi)` of the list's nodes that shrinks from both
      ends; `first`, `last` and the shared counter `len` are the Rust fields.
      The iterator borrows the list, so every operation also takes the list
      invariant as given. */
  class Iter<T> {
    /** The borrowed list (the Rust iterator holds only a lifetime for it). */
    ghost const list: UnsafeLinkedList<T>
    var first: Node?<T>
    var last: Node?<T>
    var len: nat
    ghost var lo: nat
    ghost var hi: nat

    /** The window invariant: `len` is the window's width and `first`/`last`
        are the nodes just inside its two ends. */
    ghost predicate Valid()
      reads this, list
    {
      && lo <= hi <= |list.nodes|
      && hi <= |list.contents|
      && len == hi - lo
      && first == (if lo < |list.nodes| then list.nodes[lo] else null)
      && last == (if 0 < hi then list.nodes[hi - 1] else null)
    }

    /** The elements not yet yielded from either end. */
    ghost function Remaining(): seq<T>
      reads this, list
      requires Valid()
    {
      list.contents[lo..hi]
    }

    /** `UnsafeLinkedList::iter`: a window over the whole list. */
    constructor (list: UnsafeLinkedList<T>)
      requires list.Valid()
      ensures Valid() && this.list == list
      ensures lo == 0 && hi == |list.nodes| && Remaining() == list.contents
    {
      this.list := list;
      first := list.first;
      last := list.last;
      len := list.len;
      lo := 0;
      hi := |list.nodes|;
    }

    /** `next`: the front of the window, or `None` once `len` reaches 0. */
    method Next() returns (r: Option<T>)
      requires list.Valid() && Valid()
      modifies this
      ensures Valid() && hi == old(hi)
      ensures old(len) == 0 ==> r == None && lo == old(lo)
      ensures old(len) > 0 ==> r == Some(list.contents[old(lo)]) && lo == old(lo) + 1
    {
      if len > 0 {
        var node := first;
        len := len - 1;
        first := node.prev;
        lo := lo + 1;
        r := Some(node.value);
      } else {
        r := None;
      }
    }

    /** `next_back`: the back of the window, or `None` once `len` reaches 0. */
    method NextBack() returns (r: Option<T>)
      requires list.Valid() && Valid()
      modifies this
      ensures Valid() && lo == old(lo)
      ensures old(len) == 0 ==> r == None && hi == old(hi)
      ensures old(len) > 0 ==> r == Some(list.contents[old(hi) - 1]) && hi == old(hi) - 1
    {
      if len > 0 {
        var node := last;
        len := len - 1;
        assert 1 < hi ==> list.nodes[hi - 1].next == list.nodes[hi - 2];
        last := node.next;
        hi := hi - 1;
        r := Some(node.value);
      } else {
        r := None;
      }
    }

    /** `size_hint` / `ExactSizeIterator::len`: the number left. */
    method Len() returns (n: nat)
      requires Valid()
      ensures n == |Remaining()|
    {
      n := len;
    }
  }

  /** `IterMut`: as `Iter`, but yields the node itself, through which the
      caller may write the element. */
  class IterMut<T> {
    ghost const list: UnsafeLinkedList<T>
    var first: Node?<T>
    var last: Node?<T>
    var len: nat
    ghost var lo: nat
    ghost var hi: nat

    ghost predicate Valid()
      reads this, list
    {
      && lo <= hi <= |list.nodes|
      && len == hi - lo
      && first == (if lo < |list.nodes| then list.nodes[lo] else null)
      && last == (if 0 < hi then list.nodes[hi - 1] else null)
    }

    /** `UnsafeLinkedList::iter_mut`. */
    constructor (list: UnsafeLinkedList<T>)
      requires list.Valid()
      ensures Valid() && this.list == list && lo == 0 && hi == |list.nodes|
    {
      this.list := list;
      first := list.first;
      last := list.last;
      len := list.len;
      lo := 0;
      hi := |list.nodes|;
    }

    /** `next`: the node at the front of the window, or null (`None`). */
    method Next() returns (r: Node?<T>)
      requires list.Valid() && Valid()
      modifies this
      ensures Valid() && hi == old(hi)
      ensures old(len) == 0 ==> r == null && lo == old(lo)
      ensures old(len) > 0 ==> r == list.nodes[old(lo)] && lo == old(lo) + 1
    {
      if len > 0 {
        var node := first;
        len := len - 1;
        first := node.prev;
        lo := lo + 1;
        r := node;
      } else {
        r := null;
      }
    }

    /** `next_back`: the node at the back of the window, or null (`None`). */
    method NextBack() returns (r: Node?<T>)
      requires list.Valid() && Valid()
      modifies this
      ensures Valid() && lo == old(lo)
      ensures old(len) == 0 ==> r == null && hi == old(hi)
      ensures old(len) > 0 ==> r == list.nodes[old(hi) - 1] && hi == old(hi) - 1
    {
      if len > 0 {
        var node := last;
        len := len - 1;
        assert 1 < hi ==> list.nodes[hi - 1].next == list.nodes[hi - 2];
        last := node.next;
        hi := hi - 1;
        r := node;
      } else {
        r := null;
      }
    }

    /** `size_hint` / `ExactSizeIterator::len`. */
    method Len() returns (n: nat)
      requires Valid()
      ensures n == hi - lo
    {
      n := len;
    }
  }

  /** `IntoIter`: owns the list and pops from it. */
  class IntoIter<T> {
    const list: UnsafeLinkedList<T>

    /** `UnsafeLinkedList::into_iter`. */
    constructor (list: UnsafeLinkedList<T>)
      ensures this.list == list
    {
      this.list := list;
    }

    /** `next`: `pop_first`. */
    method Next() returns (r: Option<T>)
      requires list.Valid()
      modifies list, list.nodes
      ensures list.Valid()
      ensures old(list.nodes) == [] ==> r == None && list.nodes == []
      ensures old(list.nodes) != [] ==>
        r == Some(old(list.contents)[0]) && list.contents == old(list.contents)[1..]
    {
      r := list.PopFirst();
    }

    /** `next_back`: `pop_back`. */
    method NextBack() returns (r: Option<T>)
      requires list.Valid()
      modifies list, list.nodes
      ensures list.Valid()
      ensures old(list.nodes) == [] ==> r == None && list.nodes == []
      ensures old(list.nodes) != [] ==>
        && r == Some(old(list.contents)[|old(list.nodes)| - 1])
        && list.contents == old(list.contents)[..|old(list.nodes)| - 1]
    {
      r := list.PopBack();
    }

    /** `size_hint` / `ExactSizeIterator::len`: the list's `len`. */
    method Len() returns (n: nat)
      requires list.Valid()
      ensures n == |list.contents|
    {
      n := list.len;
    }
  }
}
