/** `CursorMut` of linked-list/src/unsafe_linked_list.rs: a position in an
    `UnsafeLinkedList` that is either on one node or on the "ghost" element
    between `last` and `first`, together with the operations that move it,
    look around it, and splice or split the list at it. */
module UnsafeCursor {
  import opened Options
  import opened Seqs
  import opened UnsafeList

  /** The index `move_next` leaves behind: from the ghost to element 0 (when
      there is one), from element `k` to `k + 1`, and off the end back to the
      ghost. */
  function NextIndex(index: Option<nat>, n: nat): Option<nat>
  {
    match index
    case None => if n == 0 then None else Some(0)
    case Some(k) => if k + 1 < n then Some(k + 1) else None
  }

  /** The index `move_back` leaves behind: from the ghost to element
      `n - 1` (when there is one), from element `k` to `k - 1`, and off the
      front back to the ghost. */
  function BackIndex(index: Option<nat>, n: nat): Option<nat>
  {
    match index
    case None => if n == 0 then None else Some(n - 1)
    case Some(k) => if 0 < k then Some(k - 1) else None
  }

  /** A cursor index is meaningful for a list of `n` elements. */
  predicate IndexOk(index: Option<nat>, n: nat)
  {
    index.Some? ==> index.value < n
  }

  /** The position of a cursor on the ring of `n + 1` places formed by the
      elements `0 .. n - 1` and the ghost, which sits at place `n`. */
  function Place(index: Option<nat>, n: nat): nat
  {
    if index.None? then n else index.value
  }

  lemma ModSmall(a: int, m: int)
    requires 0 <= a < m
    ensures a % m == a
  {
  }

  lemma ModAddOnce(a: int, m: int)
    requires 0 <= a < m
    ensures (a + m) % m == a
  {
  }

  /** `move_next` stays inside the list and advances one place round the
      ring; in particular it never stays put on a non-empty list. */
  lemma {:induction false} NextIndexAdvances(index: Option<nat>, n: nat)
    requires IndexOk(index, n)
    ensures IndexOk(NextIndex(index, n), n)
    ensures Place(NextIndex(index, n), n) == (Place(index, n) + 1) % (n + 1)
  {
    if index.Some? && index.value + 1 < n {
      ModSmall(index.value + 1, n + 1);
    } else if index.Some? {
      ModSmall(n, n + 1);
    } else {
      ModAddOnce(0, n + 1);
    }
  }

  /** `move_back` stays inside the list and goes back one place round the
      ring. */
  lemma {:induction false} BackIndexRetreats(index: Option<nat>, n: nat)
    requires IndexOk(index, n)
    ensures IndexOk(BackIndex(index, n), n)
    ensures Place(BackIndex(index, n), n) == (Place(index, n) + n) % (n + 1)
  {
    if index.Some? && 0 < index.value {
      ModAddOnce(index.value - 1, n + 1);
    } else if index.Some? || n == 0 {
      ModSmall(n, n + 1);
    } else {
      ModAddOnce(n - 1, n + 1);
    }
  }

  /** `move_back` undoes `move_next` and `move_next` undoes `move_back`. */
  lemma {:induction false} MovesAreInverse(index: Option<nat>, n: nat)
    requires IndexOk(index, n)
    ensures BackIndex(NextIndex(index, n), n) == index
    ensures NextIndex(BackIndex(index, n), n) == index
  {
    match index
    case None =>
    case Some(k) =>
      assert k + 1 < n ==> BackIndex(Some(k + 1), n) == Some(k);
      assert 0 < k ==> NextIndex(Some(k - 1), n) == Some(k);
  }

  /** The node a cursor index designates (null for the ghost). */
  ghost function At<T>(ns: seq<Node<T>>, index: Option<nat>): Node?<T>
    requires IndexOk(index, |ns|)
  {
    if index.None? then null else ns[index.value]
  }

  /** Where `splice_before` inserts: before element `k`, or at the back when
      the cursor is on the ghost. */
  function BeforePoint(index: Option<nat>, n: nat): nat
  {
    Place(index, n)
  }

  /** Where `splice_after` inserts: after element `k`, or at the front when
      the cursor is on the ghost. */
  function AfterPoint(index: Option<nat>, n: nat): nat
  {
    if index.None? then 0 else index.value + 1
  }

  /** `splice_after` inserts one place round the ring from where
      `splice_before` does. */
  lemma {:induction false} AfterIsNextPlace(index: Option<nat>, n: nat)
    requires IndexOk(index, n)
    ensures AfterPoint(index, n) == (BeforePoint(index, n) + 1) % (n + 1)
  {
    if index.None? {
      ModAddOnce(0, n + 1);
    } else {
      ModSmall(index.value + 1, n + 1);
    }
  }

  /** Splitting before the cursor and splicing the returned front back in
      before the cursor restores the list: after the split the cursor is on
      index 0 of what is left, or on the ghost of an empty list. */
  lemma SplitBeforeThenSpliceBefore<T>(s: seq<T>, index: Option<nat>)
    requires IndexOk(index, |s|)
    ensures var p := BeforePoint(index, |s|);
            var after: Option<nat> := if index.Some? then Some(0) else None;
            && IndexOk(after, |s[p..]|)
            && Splice(s[p..], s[..p], BeforePoint(after, |s[p..]|)) == s
  {
    var p := BeforePoint(index, |s|);
    SpliceIsConcat(s[p..], s[..p], 0);
    assert s[..p] + s[p..] == s;
  }

  /** Splitting after the cursor and splicing the returned back part in
      after the cursor restores the list: the cursor keeps its index. */
  lemma SplitAfterThenSpliceAfter<T>(s: seq<T>, index: Option<nat>)
    requires IndexOk(index, |s|)
    ensures var q := AfterPoint(index, |s|);
            && IndexOk(index, |s[..q]|)
            && Splice(s[..q], s[q..], AfterPoint(index, |s[..q]|)) == s
  {
    var q := AfterPoint(index, |s|);
    SpliceIsConcat(s[..q], s[q..], q);
    assert s[..q][..q] + s[q..] + s[..q][q..] == s;
  }

  class CursorMut<T> {
    /** The list the cursor borrows mutably. */
    const list: UnsafeLinkedList<T>
    var cur: Node?<T>
    var index: Option<nat>

    /** The cursor invariant: `index` is `None` exactly on the ghost, and
        `Some(k)` exactly when `cur` is element `k`. */
    ghost predicate Valid()
      reads this, list
    {
      && IndexOk(index, |list.nodes|)
      && cur == At(list.nodes, index)
    }

    /** `UnsafeLinkedList::cursor_mut`: a cursor on the ghost. */
    constructor (list: UnsafeLinkedList<T>)
      requires list.Valid()
      ensures this.list == list && Valid() && index == None && cur == null
    {
      this.list := list;
      cur := null;
      index := None;
    }

    /** `index`. */
    method Index() returns (r: Option<nat>)
      requires Valid()
      ensures r == index
      ensures r.Some? <==> cur != null
      ensures r.Some? ==> r.value < |list.nodes| && cur == list.nodes[r.value]
    {
      r := index;
    }

    /** `move_next`: one step toward `last`, through the ghost. */
    method MoveNext()
      requires list.Valid() && Valid()
      modifies this
      ensures Valid()
      ensures index == NextIndex(old(index), |list.nodes|)
    {
      if cur != null {
        assert index.value + 1 < |list.nodes| ==> list.nodes[index.value].prev == list.nodes[index.value + 1];
        cur := cur.prev;
        if cur != null {
          index := Some(index.value + 1);
        } else {
          index := None;
        }
      } else if list.len != 0 {
        cur := list.first;
        index := Some(0);
      }
    }

    /** `move_back`: one step toward `first`, through the ghost. */
    method MoveBack()
      requires list.Valid() && Valid()
      modifies this
      ensures Valid()
      ensures index == BackIndex(old(index), |list.nodes|)
    {
      if cur != null {
        assert 0 < index.value ==> list.nodes[index.value].next == list.nodes[index.value - 1];
        cur := cur.next;
        if cur != null {
          index := Some(index.value - 1);
        } else {
          index := None;
        }
      } else if list.len != 0 {
        cur := list.last;
        index := Some(list.len - 1);
      }
    }

    /** `current`: the node under the cursor (null on the ghost), through
        which the caller may write the element. */
    method Current() returns (r: Node?<T>)
      requires list.Valid() && Valid()
      ensures r == null <==> index == None
      ensures r != null ==> r == list.nodes[index.value] && r.value == list.contents[index.value]
    {
      r := cur;
    }

    /** `peek_next`: the node `move_next` would reach, without moving. */
    method PeekNext() returns (r: Node?<T>)
      requires list.Valid() && Valid()
      ensures IndexOk(NextIndex(index, |list.nodes|), |list.nodes|)
      ensures r == At(list.nodes, NextIndex(index, |list.nodes|))
    {
      NextIndexAdvances(index, |list.nodes|);
      if cur != null {
        assert index.value + 1 < |list.nodes| ==> list.nodes[index.value].prev == list.nodes[index.value + 1];
        r := cur.prev;
      } else {
        r := list.first;
      }
    }

    /** `peek_back`: the node `move_back` would reach, without moving. */
    method PeekBack() returns (r: Node?<T>)
      requires list.Valid() && Valid()
      ensures IndexOk(BackIndex(index, |list.nodes|), |list.nodes|)
      ensures r == At(list.nodes, BackIndex(index, |list.nodes|))
    {
      BackIndexRetreats(index, |list.nodes|);
      if cur != null {
        assert 0 < index.value ==> list.nodes[index.value].next == list.nodes[index.value - 1];
        r := cur.next;
      } else {
        r := list.last;
      }
    }

    /** The on-node branch of `splice_before`: the run goes in between the
        current node's predecessor (`cur.next`) and the current node,
        becoming the new `first` when the cursor is on element 0. */
    method SpliceBeforeNode(input: UnsafeLinkedList<T>)
      requires list.Valid() && Valid() && input.Valid()
      requires input != list && Disjoint(list.nodes, input.nodes)
      requires cur != null && input.nodes != []
      modifies this`index
      modifies list`first, list`last, list`len, list`nodes, list`contents, list.nodes`prev, list.nodes`next
      modifies input`first, input`last, input`len, input`nodes, input`contents, input.nodes`prev, input.nodes`next
      ensures list.Valid() && Valid() && input.Valid()
      ensures input.nodes == [] && input.contents == []
      ensures list.nodes == Splice(old(list.nodes), old(input.nodes), old(index).value)
      ensures list.contents == Splice(old(list.contents), old(input.contents), old(index).value)
      ensures index == Some(old(index).value + |old(input.nodes)|)
    {
      ghost var ns, ins := list.nodes, input.nodes;
      var k := index.value;
      assert 0 < k ==> ns[k].next == ns[k - 1];
      var prev := cur.next;
      index := Some(k + input.len);
      list.SpliceIn(input, k, prev, cur);
      assert Valid();
    }

    /** `splice_before`: moves every node of `input` into the list just
        before the cursor (at the back when the cursor is on the ghost, and
        by swapping headers when the list is empty), leaving `input` empty.
        The index grows by the input's length, so a cursor on a node stays
        on the same element. */
    method SpliceBefore(input: UnsafeLinkedList<T>)
      requires list.Valid() && Valid() && input.Valid()
      requires input != list && Disjoint(list.nodes, input.nodes)
      modifies this`index
      modifies list`first, list`last, list`len, list`nodes, list`contents, list.nodes`prev, list.nodes`next
      modifies input`first, input`last, input`len, input`nodes, input`contents, input.nodes`prev, input.nodes`next
      ensures list.Valid() && Valid() && input.Valid()
      ensures input.nodes == [] && input.contents == []
      ensures list.nodes == Splice(old(list.nodes), old(input.nodes), BeforePoint(old(index), |old(list.nodes)|))
      ensures list.contents == Splice(old(list.contents), old(input.contents), BeforePoint(old(index), |old(list.nodes)|))
      ensures cur == old(cur)
      ensures old(index).None? ==> index.None?
      ensures old(index).Some? ==> index.Some? && index.value == old(index).value + |old(input.nodes)|
    {
      ghost var ns, vs, ins, ivs := list.nodes, list.contents, input.nodes, input.contents;
      ghost var p := BeforePoint(index, |ns|);
      if input.len == 0 {
        SpliceNothing(ns, p);
        SpliceNothing(vs, p);
        assert Valid();
        return;
      }
      if cur != null {
        SpliceBeforeNode(input);
        assert Valid();
      } else if list.last != null {
        list.SpliceIn(input, p, list.last, null);
        assert Valid();
      } else {
        list.Adopt(input);
        assert Valid();
        assert Splice(ns, ins, p) == ins && Splice(vs, ivs, p) == ivs;
      }
    }

    /** The on-node branch of `splice_after`: the run goes in between the
        current node and its successor (`cur.prev`), becoming the new `last`
        when the cursor is on the last node; the index does not change. */
    method SpliceAfterNode(input: UnsafeLinkedList<T>)
      requires list.Valid() && Valid() && input.Valid()
      requires input != list && Disjoint(list.nodes, input.nodes)
      requires cur != null && input.nodes != []
      modifies list`first, list`last, list`len, list`nodes, list`contents, list.nodes`prev, list.nodes`next
      modifies input`first, input`last, input`len, input`nodes, input`contents, input.nodes`prev, input.nodes`next
      ensures list.Valid() && Valid() && input.Valid()
      ensures input.nodes == [] && input.contents == []
      ensures list.nodes == Splice(old(list.nodes), old(input.nodes), old(index).value + 1)
      ensures list.contents == Splice(old(list.contents), old(input.contents), old(index).value + 1)
    {
      ghost var ns := list.nodes;
      var k := index.value;
      assert k + 1 < |ns| ==> ns[k].prev == ns[k + 1];
      var next := cur.prev;
      list.SpliceIn(input, k + 1, cur, next);
      assert Valid();
    }

    /** `splice_after`: moves every node of `input` into the list just
        after the cursor (at the front when the cursor is on the ghost, and
        by swapping headers when the list is empty), leaving `input` empty.
        The cursor does not move and its index does not change. */
    method SpliceAfter(input: UnsafeLinkedList<T>)
      requires list.Valid() && Valid() && input.Valid()
      requires input != list && Disjoint(list.nodes, input.nodes)
      modifies list`first, list`last, list`len, list`nodes, list`contents, list.nodes`prev, list.nodes`next
      modifies input`first, input`last, input`len, input`nodes, input`contents, input.nodes`prev, input.nodes`next
      ensures list.Valid() && Valid() && input.Valid()
      ensures input.nodes == [] && input.contents == []
      ensures list.nodes == Splice(old(list.nodes), old(input.nodes), AfterPoint(old(index), |old(list.nodes)|))
      ensures list.contents == Splice(old(list.contents), old(input.contents), AfterPoint(old(index), |old(list.nodes)|))
    {
      ghost var ns, vs, ins, ivs := list.nodes, list.contents, input.nodes, input.contents;
      ghost var p := AfterPoint(index, |ns|);
      if input.len == 0 {
        SpliceNothing(ns, p);
        SpliceNothing(vs, p);
        assert Valid();
        return;
      }
      if cur != null {
        SpliceAfterNode(input);
        assert Valid();
      } else if list.first != null {
        list.SpliceIn(input, 0, null, list.first);
        assert Valid();
      } else {
        list.Adopt(input);
        assert Valid();
        assert Splice(ns, ins, p) == ins && Splice(vs, ivs, p) == ivs;
      }
    }

    /** The on-node branch of `split_before`, with the returned header
        built as intended: it runs from the old `first` (captured before
        `first` is overwritten) to the node before the cursor, and is empty
        when the cursor is on element 0. The list keeps the cursor node and
        everything after it, and the index becomes 0. */
    method SplitBeforeNode() returns (r: UnsafeLinkedList<T>)
      requires list.Valid() && Valid() && cur != null
      modifies this`index
      modifies list`first, list`len, list`nodes, list`contents, list.nodes`prev, list.nodes`next
      ensures fresh(r) && r.Valid() && list.Valid() && Valid()
      ensures r.nodes == old(list.nodes)[..old(index).value] && r.contents == old(list.contents)[..old(index).value]
      ensures list.nodes == old(list.nodes)[old(index).value..] && list.contents == old(list.contents)[old(index).value..]
      ensures index == Some(0)
    {
      ghost var ns := list.nodes;
      var k := index.value;
      assert 0 < k ==> ns[k].next == ns[k - 1];
      var prev := cur.next;
      index := Some(0);
      r := list.SplitOffFront(k, prev, cur);
      assert Valid();
    }

    /** `split_before`, corrected: on node `k` the list is cut just before
        the cursor, the first `k` elements are returned as a list of their
        own and the cursor, still on the same node, gets index 0; on the
        ghost the whole list is returned and the list is left empty
        (`mem::replace`). */
    method SplitBefore() returns (r: UnsafeLinkedList<T>)
      requires list.Valid() && Valid()
      modifies this`index
      modifies list`first, list`last, list`len, list`nodes, list`contents, list.nodes`prev, list.nodes`next
      ensures fresh(r) && r.Valid() && list.Valid() && Valid()
      ensures r.nodes == old(list.nodes)[..BeforePoint(old(index), |old(list.nodes)|)]
      ensures r.contents == old(list.contents)[..BeforePoint(old(index), |old(list.nodes)|)]
      ensures list.nodes == old(list.nodes)[BeforePoint(old(index), |old(list.nodes)|)..]
      ensures list.contents == old(list.contents)[BeforePoint(old(index), |old(list.nodes)|)..]
      ensures cur == old(cur)
      ensures old(index).Some? ==> index == Some(0)
      ensures old(index).None? ==> index == None
    {
      if cur != null {
        r := SplitBeforeNode();
        assert Valid();
      } else {
        ghost var ns, vs := list.nodes, list.contents;
        r := list.Take();
        assert Valid();
        assert ns[..|ns|] == ns && vs[..|ns|] == vs;
      }
    }

    /** `split_before` AS WRITTEN. The ghost branch and the list's own new
        header are as intended, but the returned header is built after
        `self.list.first` has been overwritten with the cursor node: it
        begins at a node the list still owns, its `last` is the node before
        the cursor and its `len` is the old index. Its `nodes` are set to
        the nodes that `last` and `len` describe; no header with that
        `first` can be valid for them. */
    method SplitBeforeAsWritten() returns (r: UnsafeLinkedList<T>)
      requires list.Valid() && Valid()
      modifies this`index
      modifies list`first, list`last, list`len, list`nodes, list`contents, list.nodes`prev, list.nodes`next
      ensures fresh(r) && list.Valid() && Valid()
      ensures list.nodes == old(list.nodes)[BeforePoint(old(index), |old(list.nodes)|)..]
      ensures list.contents == old(list.contents)[BeforePoint(old(index), |old(list.nodes)|)..]
      ensures old(index).None? ==>
        index == None && r.Valid() && r.nodes == old(list.nodes) && r.contents == old(list.contents)
      ensures old(index).Some? ==>
        && index == Some(0)
        && list.last == old(list.last)
        && r.nodes == old(list.nodes)[..old(index).value] && Chain(r.nodes)
        && r.contents == old(list.contents)[..old(index).value]
        && r.first == old(cur) == list.first && r.first in list.nodes
        && r.last == (if old(index).value == 0 then null else old(list.nodes)[old(index).value - 1])
        && r.len == old(index).value
        && !r.Valid()
    {
      ghost var ns := list.nodes;
      if cur == null {
        r := list.Take();
        assert Valid();
        assert ns[..|ns|] == ns;
        return;
      }
      var k := index.value;
      assert 0 < k ==> ns[k].next == ns[k - 1];
      var prev := cur.next;
      index := Some(0);
      r := list.SplitOffFrontAsWritten(k, prev, cur);
      assert Valid();
    }

    /** The on-node branch of `split_after`, as intended: the list keeps
        everything up to and including the cursor node, the elements after
        it are returned as a list of their own, and the cursor keeps its
        index. */
    method SplitAfterNode() returns (r: UnsafeLinkedList<T>)
      requires list.Valid() && Valid() && cur != null
      modifies list`last, list`len, list`nodes, list`contents, list.nodes`prev, list.nodes`next
      ensures fresh(r) && r.Valid() && list.Valid() && Valid()
      ensures r.nodes == old(list.nodes)[old(index).value + 1..] && r.contents == old(list.contents)[old(index).value + 1..]
      ensures list.nodes == old(list.nodes)[..old(index).value + 1] && list.contents == old(list.contents)[..old(index).value + 1]
    {
      ghost var ns := list.nodes;
      var k := index.value;
      assert k + 1 < |ns| ==> ns[k].prev == ns[k + 1];
      var next := cur.prev;
      r := list.SplitOffBack(k + 1, cur, next);
      assert Valid();
    }

    /** `split_after`, corrected: on node `k` the list is cut just after
        the cursor and the elements after it are returned as a list of
        their own, the cursor keeping its node and index; on the ghost the
        whole list is returned and the list is left empty
        (`mem::replace`). */
    method SplitAfter() returns (r: UnsafeLinkedList<T>)
      requires list.Valid() && Valid()
      modifies list`first, list`last, list`len, list`nodes, list`contents, list.nodes`prev, list.nodes`next
      ensures fresh(r) && r.Valid() && list.Valid() && Valid()
      ensures r.nodes == old(list.nodes)[AfterPoint(old(index), |old(list.nodes)|)..]
      ensures r.contents == old(list.contents)[AfterPoint(old(index), |old(list.nodes)|)..]
      ensures list.nodes == old(list.nodes)[..AfterPoint(old(index), |old(list.nodes)|)]
      ensures list.contents == old(list.contents)[..AfterPoint(old(index), |old(list.nodes)|)]
    {
      if cur != null {
        r := SplitAfterNode();
        assert Valid();
      } else {
        ghost var ns, vs := list.nodes, list.contents;
        r := list.Take();
        assert Valid();
        assert ns[0..] == ns && vs[0..] == vs;
      }
    }

    /** The on-node branch of `split_after` AS WRITTEN: the cut is made
        just after the cursor node `k`, but the list's length becomes
        `old_len - old_idx` instead of `old_idx + 1` and the index is reset
        to 0 although the cursor stays on element `k`. The returned header
        begins at the cursor node (the list's new `last`), ends at the node
        after it, and claims `old_idx` elements; its `nodes` are set to the
        nodes after the cursor, and no header with that `first` can be valid
        for them. `first` is never written. */
    method SplitAfterNodeAsWritten() returns (r: UnsafeLinkedList<T>)
      requires list.Valid() && Valid() && cur != null
      modifies this`index
      modifies list`last, list`len, list`nodes, list`contents, list.nodes`prev, list.nodes`next
      ensures fresh(r)
      ensures list.nodes == old(list.nodes)[..old(index).value + 1]
      ensures list.contents == old(list.contents)[..old(index).value + 1]
      ensures list.first == old(list.first) && Chain(list.nodes)
      ensures list.len == |old(list.nodes)| - old(index).value
      ensures list.Valid() <==> |old(list.nodes)| == 2 * old(index).value + 1
      ensures index == Some(0) && (Valid() <==> old(index).value == 0)
      ensures r.nodes == old(list.nodes)[old(index).value + 1..] && Chain(r.nodes)
      ensures r.contents == old(list.contents)[old(index).value + 1..]
      ensures r.first == old(cur) == list.last && r.first in list.nodes
      ensures r.last == (if old(index).value + 1 < |old(list.nodes)| then old(list.nodes)[old(index).value + 1] else null)
      ensures r.len == old(index).value && !r.Valid()
    {
      ghost var ns := list.nodes;
      var k := index.value;
      assert k + 1 < |ns| ==> ns[k].prev == ns[k + 1];
      var next := cur.prev;
      if 0 < k {
        DistinctAt(ns, 0, k);
      }
      index := Some(0);
      r := list.SplitOffBackAsWritten(k, cur, next);
    }

    /** `split_after` AS WRITTEN: the ghost branch hands over the whole
        list as intended (`mem::replace`); the on-node branch is
        `SplitAfterNodeAsWritten`. */
    method SplitAfterAsWritten() returns (r: UnsafeLinkedList<T>)
      requires list.Valid() && Valid()
      modifies this`index
      modifies list`first, list`last, list`len, list`nodes, list`contents, list.nodes`prev, list.nodes`next
      ensures fresh(r)
      ensures old(index).None? ==>
        && list.Valid() && Valid() && index == None && list.nodes == []
        && r.Valid() && r.nodes == old(list.nodes) && r.contents == old(list.contents)
      ensures old(index).Some? ==>
        && list.nodes == old(list.nodes)[..old(index).value + 1]
        && list.contents == old(list.contents)[..old(index).value + 1]
        && list.first == old(list.first)
        && Chain(list.nodes)
        && r.nodes == old(list.nodes)[old(index).value + 1..] && Chain(r.nodes)
        && r.contents == old(list.contents)[old(index).value + 1..]
        && list.len == |old(list.nodes)| - old(index).value
        && (list.Valid() <==> |old(list.nodes)| == 2 * old(index).value + 1)
        && index == Some(0)
        && (Valid() <==> old(index).value == 0)
        && r.first == old(cur) == list.last && r.first in list.nodes
        && r.last == (if old(index).value + 1 < |old(list.nodes)| then old(list.nodes)[old(index).value + 1] else null)
        && r.len == old(index).value
        && !r.Valid()
    {
      if cur == null {
        r := list.Take();
        assert Valid();
      } else {
        r := SplitAfterNodeAsWritten();
      }
    }
  }
}
