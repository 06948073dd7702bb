# Linked lists of `linked-list`, modelled and verified in Dafny

This project models the linked containers of the Rust crate `linked-list`
and proves the behaviour each one promises:

- `UnsafeLinkedList<T>` is a doubly-linked list over manually managed heap nodes. It comes with its
  iterators `Iter`, `IterMut` and `IntoIter`, its equality / ordering /
  hashing, and `CursorMut`. The cursor moves in both directions through a
  "ghost" position between `last` and `first`. It splices whole lists in
  and splits the list apart in place.
- `UnsafeQueue<T>` is a FIFO over raw `head`/`tail` pointers, with its three iterators.
- `Deque<T>` is a two-way linked deque with `push_front`/`pop_front`.
- `LinkedList<T>` is a stack of boxed nodes.
- `ImmutableList<T>` is a persistent cons list whose nodes share tails.

Files:

| file | module | what |
|---|---|---|
| `common.dfy` | `Options`, `Seqs` | `Option`, reversal, splicing a run into a sequence, distinctness |
| `unsafe_linked_list.dfy` | `UnsafeList` | nodes, the list class, its iterators |
| `cursor.dfy` | `UnsafeCursor` | `CursorMut` |
| `list_order.dfy` | `ListOrder` | `eq`, `ne`, `partial_cmp`, `cmp`, `hash` |
| `unsafe_queue.dfy` | `RawQueue` | `UnsafeQueue` and its iterators |
| `safe_deque.dfy` | `SafeDeque` | `Deque` |
| `linked_list.dfy` | `BoxStack` | the boxed stack |
| `immutable_linked_list.dfy` | `Persistent` | `ImmutableList` |

How the heap structures are modelled:

- Pointers are Dafny object references, and every node is a Dafny object.
- Each linked container carries two ghost fields:
  - `nodes`, the sequence of nodes it owns, front to back;
  - `contents`, the values those nodes hold.
- A `Valid()` predicate ties the concrete fields to the ghost ones:
  - the nodes are distinct and linked in order in each direction the container links;
  - `len`, where there is one, is the node count;
  - the end pointers are null exactly when the container is empty.
- Each operation's postcondition states the new ghost state as a function of the old one.

`UnsafeLinkedList` inverts the usual link names: a node's `prev` points toward
`last` and its `next` toward `first`. The model keeps those field names. Every
contract is stated in the first -> last order that `Iter::next` yields.

A cursor index is `Option<nat>`. `None` is the ghost position. Movement is
specified by the index functions `NextIndex` and `BackIndex`, and proved to be
a step round a ring of `len + 1` places. Splice and split positions are
`BeforePoint`/`AfterPoint`, and their contents relation is `Seqs.Splice`.

The on-node branches of `split_before` and `split_after` build the returned
list wrongly (see Findings). Each is modelled twice:

- as written: `SplitBeforeAsWritten`, `SplitAfterAsWritten`, with what they actually assign;
- corrected: `SplitBefore`, `SplitAfter`, with a well-formed returned list.

Both splits leave the current node with the owner: `split_before` cuts the
link between the cursor and its predecessor, `split_after` the link between
the cursor and its successor.

## Model

| member | source | states |
|---|---|---|
| `UnsafeList.Node.constructor` | linked-list/src/unsafe_linked_list.rs:71-75 | `Box::new(Node { next: None, prev: None, value })` in `push` (and :89-93 in `push_back`): a fresh node holding the value, with both links null |
| `UnsafeList.UnsafeLinkedList.constructor` | linked-list/src/unsafe_linked_list.rs:53-60 | `new`: a valid, empty list |
| `UnsafeList.UnsafeLinkedList.FromParts` | linked-list/src/unsafe_linked_list.rs:491-496 | the struct literal sets exactly the given `first`, `last` and `len`; it promises no validity |
| `UnsafeList.UnsafeLinkedList.WalkForward` | linked-list/src/unsafe_linked_list.rs:196-208 | following `prev` links from `first` for `len` steps visits exactly the contents, first -> last |
| `UnsafeList.UnsafeLinkedList.WalkBackward` | linked-list/src/unsafe_linked_list.rs:254-264 | following `next` links from `last` for `len` steps visits the contents reversed |
| `UnsafeList.WalkFrom` | linked-list/src/unsafe_linked_list.rs:196-208 | a forward walk from node `i` yields the values from `i` on, cut at the end of the chain |
| `UnsafeList.WalkBackFrom` | linked-list/src/unsafe_linked_list.rs:254-264 | a backward walk from node `j` yields the values from `j` down to the first node, in that order |
| `UnsafeList.UnsafeLinkedList.Push` | linked-list/src/unsafe_linked_list.rs:69-85 | `push` puts the value at the front. The list stays valid, the old elements follow in order, one fresh node is added and the length grows by 1 |
| `UnsafeList.UnsafeLinkedList.PushBack` | linked-list/src/unsafe_linked_list.rs:87-103 | `push_back` puts the value at the back and keeps the old elements in front, in order |
| `UnsafeList.UnsafeLinkedList.PopFirst` | linked-list/src/unsafe_linked_list.rs:105-122 | empty list: `None`, nothing changes. Otherwise the first element is returned and the rest remain in order. Removing the only node leaves `first` and `last` both null |
| `UnsafeList.UnsafeLinkedList.PopBack` | linked-list/src/unsafe_linked_list.rs:124-141 | empty list: `None`. Otherwise the last element is returned and the rest remain; the only node's removal clears both ends |
| `UnsafeList.UnsafeLinkedList.Len` | linked-list/src/unsafe_linked_list.rs:143-145 | `len` is the number of elements |
| `UnsafeList.UnsafeLinkedList.IsEmpty` | linked-list/src/unsafe_linked_list.rs:324-326 | `is_empty` holds exactly when there are no elements |
| `UnsafeList.UnsafeLinkedList.First` | linked-list/src/unsafe_linked_list.rs:149-151 | `first` is the front element, or `None` exactly when empty |
| `UnsafeList.UnsafeLinkedList.FirstMut` | linked-list/src/unsafe_linked_list.rs:153-155 | `first_mut` hands out the front node (the one holding the front element), or nothing when empty |
| `UnsafeList.UnsafeLinkedList.Back` | linked-list/src/unsafe_linked_list.rs:157-159 | `back` is the back element, or `None` exactly when empty |
| `UnsafeList.UnsafeLinkedList.BackMut` | linked-list/src/unsafe_linked_list.rs:161-163 | `back_mut` hands out the back node, or nothing when empty |
| `UnsafeList.UnsafeLinkedList.WriteThrough` | linked-list/src/unsafe_linked_list.rs:153-163 | writing through a handed-out reference changes that node's element only; the nodes and every other element are unchanged |
| `UnsafeList.UnsafeLinkedList.Clear` | linked-list/src/unsafe_linked_list.rs:328-337 | `clear` (and `Drop`) calls `pop_first` until it returns `None`, and the list ends empty and valid |
| `UnsafeList.UnsafeLinkedList.Extend` | linked-list/src/unsafe_linked_list.rs:355-361 | `extend` appends the items in order behind the old elements, each in a fresh node |
| `UnsafeList.UnsafeLinkedList.FromIter` | linked-list/src/unsafe_linked_list.rs:363-369 | `from_iter` builds a fresh list holding exactly the items, in order |
| `UnsafeList.UnsafeLinkedList.Collect` | linked-list/src/unsafe_linked_list.rs:196-208 | running `iter()` to its end yields exactly the contents |
| `UnsafeList.UnsafeLinkedList.Clone` | linked-list/src/unsafe_linked_list.rs:345-353 | `clone` is a new list with the same elements and no node in common with the original |
| `UnsafeList.UnsafeLinkedList.CollectBack` | linked-list/src/unsafe_linked_list.rs:254-264 | running `next_back` to its end yields the contents from last to first |
| `UnsafeList.UnsafeLinkedList.CheckLinks` | linked-list/src/unsafe_linked_list.rs:999-1005 | the test helper's two traversals: reversing the back-to-front one gives the front-to-back one, which is the contents |
| `UnsafeList.Cut` | linked-list/src/unsafe_linked_list.rs:480-485 | the `take()` of one link and the `= None` of the other: cutting the chain just before position `p` leaves the front `..p` and the back `p..` each a well-formed chain, with every value unchanged (also :508-513) |
| `UnsafeList.LinkLeft` | linked-list/src/unsafe_linked_list.rs:541-542 | the seam toward `first`, `left.prev = in_front; in_front.next = left`: the node before position `p` and the input's front point at each other, every other link is as before, and no value changes (also :555-556, :579-580) |
| `UnsafeList.LinkRight` | linked-list/src/unsafe_linked_list.rs:543-544 | the seam toward `last`, `right.next = in_back; in_back.prev = right`: the node at position `p` and the input's back point at each other, so after `LinkLeft` only the two seams differ from the old chains (also :577-578, :590-591) |
| `UnsafeList.Relink` | linked-list/src/unsafe_linked_list.rs:540-548 | the seam writes of `splice_before` and `splice_after` together: the input run linked in at position `p` makes `Splice(ns, ins, p)` a well-formed chain, and no value changes (also :576-585) |
| `UnsafeList.UnsafeLinkedList.Rehead` | linked-list/src/unsafe_linked_list.rs:536-563 | `input.first.take()`, `input.last.take()`, `input.len = 0` with the owner's new header: the owner gets exactly the given ends, length and nodes, and the input is left a valid empty list; the node chains are untouched |
| `UnsafeList.UnsafeLinkedList.SwapWith` | linked-list/src/unsafe_linked_list.rs:559 | `mem::swap` of two headers: each list ends with exactly the other's old `first`, `last`, `len`, nodes and elements (also :594) |
| `UnsafeList.UnsafeLinkedList.KeepFrom` | linked-list/src/unsafe_linked_list.rs:478-489 | the owner's side of `split_before` on node `p`: the list stays valid and keeps exactly nodes and elements `p..`, and the cut-off front `..p` is still a well-formed chain |
| `UnsafeList.UnsafeLinkedList.KeepUpTo` | linked-list/src/unsafe_linked_list.rs:506-517 | the owner's side of a corrected `split_after` on node `p - 1`: the list stays valid and keeps exactly nodes and elements `..p` (its `len` is `p`), and the cut-off back `p..` is still a well-formed chain |
| `UnsafeList.UnsafeLinkedList.SpliceIn` | linked-list/src/unsafe_linked_list.rs:536-563 | relinking a non-empty run between two neighbours inserts the input's nodes and elements at that place. The input ends up empty and both lists stay valid |
| `UnsafeList.UnsafeLinkedList.Adopt` | linked-list/src/unsafe_linked_list.rs:558-563 | splicing into an empty list swaps headers: the list takes the input's nodes and elements and the input is left empty |
| `UnsafeList.UnsafeLinkedList.Wrap` | linked-list/src/unsafe_linked_list.rs:491-496 | the corrected splits' struct literal around a cut-off chain: given the chain's own ends and its node count, the fresh header is a valid list owning exactly that chain and its elements (also :519-524) |
| `UnsafeList.UnsafeLinkedList.WrapMismatched` | linked-list/src/unsafe_linked_list.rs:519-524 | the as-written splits' struct literal around a cut-off chain whose first node it does not name: the fresh header has exactly the given fields, is not a valid list, and the chain keeps its links (also :491-496) |
| `UnsafeList.UnsafeLinkedList.SetLen` | linked-list/src/unsafe_linked_list.rs:516 | `self.list.len = new_len` alone: the list stays valid exactly when the new length is its node count |
| `UnsafeList.UnsafeLinkedList.Take` | linked-list/src/unsafe_linked_list.rs:499 | `mem::replace(list, new())`: the returned list holds all the old nodes and elements, and the list is left empty |
| `UnsafeList.UnsafeLinkedList.SplitOffFront` | linked-list/src/unsafe_linked_list.rs:478-496 | cutting before node `p` leaves the list holding nodes `p..`. The first `p` form a fresh valid list headed by the old `first` |
| `UnsafeList.UnsafeLinkedList.SplitOffBack` | linked-list/src/unsafe_linked_list.rs:506-524 | cutting after node `p - 1` leaves the list holding nodes `..p`. The rest form a fresh valid list ending at the old `last` |
| `UnsafeList.UnsafeLinkedList.SplitOffFrontAsWritten` | linked-list/src/unsafe_linked_list.rs:478-496 | as written: the list keeps nodes `p..` and stays valid, with `last` unchanged. The returned header starts at the list's own new `first`, ends at node `p - 1` and claims `p` elements, so it is not a valid list, though its nodes `..p` are still a well-formed chain |
| `UnsafeList.UnsafeLinkedList.SplitOffBackAsWritten` | linked-list/src/unsafe_linked_list.rs:506-524 | as written: the list keeps nodes and elements `..k + 1` with `first` unchanged and `len == n - k`, which makes it valid only when `n == 2k + 1`. The returned header starts at the list's new `last`, so it is not a valid list. Both the kept nodes and the cut-off nodes `k + 1..` are still well-formed chains |
| `UnsafeList.Iter.constructor` | linked-list/src/unsafe_linked_list.rs:282-289 | `iter()` is a window over the whole list |
| `UnsafeList.Iter.Next` | linked-list/src/unsafe_linked_list.rs:196-208 | `next` yields the front of the window and shrinks it from the front, or gives `None` once the shared counter is 0 |
| `UnsafeList.Iter.NextBack` | linked-list/src/unsafe_linked_list.rs:254-264 | `next_back` yields the back of the window and shrinks it from the back; both ends share one counter, so mixed stepping yields every element once and then `None` |
| `UnsafeList.Iter.Len` | linked-list/src/unsafe_linked_list.rs:311-315 | `len` / `size_hint` is the number of elements not yet yielded |
| `UnsafeList.IterMut.constructor` | linked-list/src/unsafe_linked_list.rs:295-302 | `iter_mut()` is a window over the whole list |
| `UnsafeList.IterMut.Next` | linked-list/src/unsafe_linked_list.rs:230-240 | `next` hands out the node at the front of the window, or null (`None`) once the counter is 0 |
| `UnsafeList.IterMut.NextBack` | linked-list/src/unsafe_linked_list.rs:268-278 | `next_back` hands out the node at the back of the window |
| `UnsafeList.IterMut.Len` | linked-list/src/unsafe_linked_list.rs:317-321 | the remaining count |
| `UnsafeList.IntoIter.constructor` | linked-list/src/unsafe_linked_list.rs:291-293 | `into_iter` owns the list |
| `UnsafeList.IntoIter.Next` | linked-list/src/unsafe_linked_list.rs:218-220 | `next` is `pop_first`: the front element, or `None` when drained |
| `UnsafeList.IntoIter.NextBack` | linked-list/src/unsafe_linked_list.rs:248-250 | `next_back` is `pop_back` |
| `UnsafeList.IntoIter.Len` | linked-list/src/unsafe_linked_list.rs:305-309 | the remaining count is the list's length |
| `UnsafeCursor.NextIndexAdvances` | linked-list/src/unsafe_linked_list.rs:415-429 | `move_next` keeps the index in range and moves one place forward round the ring of `len + 1` places, the ghost being place `len` |
| `UnsafeCursor.BackIndexRetreats` | linked-list/src/unsafe_linked_list.rs:431-445 | `move_back` keeps the index in range and moves one place backward round the same ring |
| `UnsafeCursor.MovesAreInverse` | linked-list/src/unsafe_linked_list.rs:415-445 | `move_back` undoes `move_next`, and `move_next` undoes `move_back` |
| `UnsafeCursor.AfterIsNextPlace` | linked-list/src/unsafe_linked_list.rs:531-600 | `splice_after` inserts one place round the ring from where `splice_before` does |
| `UnsafeCursor.SplitBeforeThenSpliceBefore` | linked-list/src/unsafe_linked_list.rs:475-565 | splicing the front returned by a (corrected) `split_before` back in before the cursor restores the original sequence |
| `UnsafeCursor.SplitAfterThenSpliceAfter` | linked-list/src/unsafe_linked_list.rs:503-600 | splicing the back part returned by a (corrected) `split_after` back in after the cursor restores the original sequence |
| `UnsafeCursor.CursorMut.constructor` | linked-list/src/unsafe_linked_list.rs:61-67 | `cursor_mut` starts on the ghost with index `None` |
| `UnsafeCursor.CursorMut.Index` | linked-list/src/unsafe_linked_list.rs:411-413 | `index` is `Some(k)` exactly when the cursor is on element `k`, and `None` exactly on the ghost |
| `UnsafeCursor.CursorMut.MoveNext` | linked-list/src/unsafe_linked_list.rs:415-429 | from the ghost, go to element 0 (stay on the ghost when empty); from `k`, go to `k + 1`; off the end, return to the ghost |
| `UnsafeCursor.CursorMut.MoveBack` | linked-list/src/unsafe_linked_list.rs:431-445 | from the ghost, go to element `len - 1`; from `k`, go to `k - 1`; off the front, return to the ghost |
| `UnsafeCursor.CursorMut.Current` | linked-list/src/unsafe_linked_list.rs:447-449 | `current` is null exactly on the ghost, and otherwise the node holding element `index` |
| `UnsafeCursor.CursorMut.PeekNext` | linked-list/src/unsafe_linked_list.rs:451-461 | `peek_next` returns the node `move_next` would reach, without moving; from the ghost it is `first` |
| `UnsafeCursor.CursorMut.PeekBack` | linked-list/src/unsafe_linked_list.rs:463-473 | `peek_back` returns the node `move_back` would reach, without moving; from the ghost it is `last` |
| `UnsafeCursor.CursorMut.SpliceBeforeNode` | linked-list/src/unsafe_linked_list.rs:536-550 | on node `k`, the input goes in at `k`, and the index grows by the input's length so that it still names the same element |
| `UnsafeCursor.CursorMut.SpliceBefore` | linked-list/src/unsafe_linked_list.rs:531-565 | `splice_before`: an empty input changes nothing. On node `k` the input goes in before the cursor. On the ghost it goes at the back, and an empty owner takes the input over. The input ends empty |
| `UnsafeCursor.CursorMut.SpliceAfterNode` | linked-list/src/unsafe_linked_list.rs:572-585 | on node `k`, the input goes in at `k + 1` and the index is unchanged |
| `UnsafeCursor.CursorMut.SpliceAfter` | linked-list/src/unsafe_linked_list.rs:567-600 | `splice_after`: an empty input changes nothing. On a node the input goes in after the cursor. On the ghost it goes at the front, and an empty owner takes it over |
| `UnsafeCursor.CursorMut.SplitBeforeNode` | linked-list/src/unsafe_linked_list.rs:476-496 | corrected on-node `split_before`: the first `k` elements become a fresh valid list, the owner keeps `k..`, and the index becomes 0 |
| `UnsafeCursor.CursorMut.SplitBefore` | linked-list/src/unsafe_linked_list.rs:475-501 | corrected `split_before`: the returned list and the owner are the two halves of the old list at the cursor; on the ghost the whole list is returned and the owner left empty |
| `UnsafeCursor.CursorMut.SplitBeforeAsWritten` | linked-list/src/unsafe_linked_list.rs:475-501 | `split_before` as written: the owner keeps elements `k..` with index 0 and its `last` unchanged. The returned header starts at the owner's own first node, with `last` the node before the cursor and `len == k`, and it is not a valid list, though the nodes `..k` it was cut from are still a well-formed chain. On the ghost the whole list is handed over |
| `UnsafeCursor.CursorMut.SplitAfterNode` | linked-list/src/unsafe_linked_list.rs:504-524 | corrected on-node `split_after`: the owner keeps `..k + 1`, the rest become a fresh valid list, and the index is unchanged |
| `UnsafeCursor.CursorMut.SplitAfter` | linked-list/src/unsafe_linked_list.rs:503-529 | corrected `split_after`: the owner and the returned list are the two halves of the old list just after the cursor; on the ghost the whole list is returned |
| `UnsafeCursor.CursorMut.SplitAfterNodeAsWritten` | linked-list/src/unsafe_linked_list.rs:504-524 | the on-node branch of `split_after` as written: the owner keeps nodes and elements `..k + 1` with `first` unchanged, but gets `len == n - k` (valid only when `n == 2k + 1`) and index 0. The returned header starts at the cursor node, ends at node `k + 1` and claims `k` elements, so it is not a valid list. Both halves are still well-formed chains |
| `UnsafeCursor.CursorMut.SplitAfterAsWritten` | linked-list/src/unsafe_linked_list.rs:503-529 | `split_after` as written: on the ghost the whole list is handed over as intended; on node `k` it is `SplitAfterNodeAsWritten`, with the owner's elements, its unchanged `first` and the chains of both halves stated |
| `ListOrder.IterEq` | linked-list/src/unsafe_linked_list.rs:378-380 | `Iterator::eq` holds only for sequences of equal length |
| `ListOrder.IterEqPointwise` | linked-list/src/unsafe_linked_list.rs:378-380 | `Iterator::eq` holds exactly when the lengths agree and the elements are pairwise equal |
| `ListOrder.Eq` | linked-list/src/unsafe_linked_list.rs:378-380 | `eq` holds exactly when the lengths agree and every pair of elements is `eq` |
| `ListOrder.Ne` | linked-list/src/unsafe_linked_list.rs:382-384 | `ne` holds exactly when the lengths differ or some pair of elements is not `eq` |
| `ListOrder.EqPointwise` | linked-list/src/unsafe_linked_list.rs:378-380 | list `eq` holds exactly when the lengths agree and the elements are pairwise equal; the length test in front never changes the answer |
| `ListOrder.NeIsNotEq` | linked-list/src/unsafe_linked_list.rs:382-384 | `ne` is the negation of `eq` |
| `ListOrder.EqIsEquality` | linked-list/src/unsafe_linked_list.rs:377-387 | with `==` as element equality, list `eq` is sequence equality |
| `ListOrder.PartialCmp` | linked-list/src/unsafe_linked_list.rs:390-392 | `partial_cmp` answers `Some(Equal)` only for sequences of equal length |
| `ListOrder.Cmp` | linked-list/src/unsafe_linked_list.rs:396-398 | `cmp` answers `Equal` only for sequences of equal length |
| `ListOrder.CmpLessIff` | linked-list/src/unsafe_linked_list.rs:396-398 | `cmp` is lexicographic: it is `Less` exactly when, after a run of `Equal` pairs, the first list ends while the second goes on, or the next pair compares `Less` |
| `ListOrder.CmpEqualIff` | linked-list/src/unsafe_linked_list.rs:396-398 | when the element order's `Equal` means `==`, `cmp` is `Equal` exactly on equal lists |
| `ListOrder.CmpFlip` | linked-list/src/unsafe_linked_list.rs:396-398 | with an antisymmetric element order, swapping the lists reverses the answer |
| `ListOrder.CmpPrefix` | linked-list/src/unsafe_linked_list.rs:396-398 | a proper prefix compares `Less` |
| `ListOrder.PartialCmpOfTotal` | linked-list/src/unsafe_linked_list.rs:389-399 | over a total element order, `partial_cmp` is `Some(cmp)` |
| `ListOrder.PartialCmpEqualIff` | linked-list/src/unsafe_linked_list.rs:390-392 | `partial_cmp` is `Some(Equal)` exactly when the lengths agree and every pair is `Some(Equal)` |
| `ListOrder.PartialCmpNoneIff` | linked-list/src/unsafe_linked_list.rs:390-392 | `partial_cmp` is `None` exactly when, after a run of `Some(Equal)` pairs, the next pair is incomparable |
| `ListOrder.HashStream` | linked-list/src/unsafe_linked_list.rs:402-407 | `hash` feeds the length first and then every element, first -> last, one value each |
| `ListOrder.HashStreamPrefixFree` | linked-list/src/unsafe_linked_list.rs:402-407 | `hash` feeds the length and then each element, so no list's input is a proper prefix of another's, and different lists feed different inputs |
| `RawQueue.QNode.constructor` | linked-list/src/unsafe_queue.rs:35-38 | a new node holds the value and a null `next` |
| `RawQueue.UnsafeQueue.constructor` | linked-list/src/unsafe_queue.rs:30-32 | `new`: a valid, empty queue |
| `RawQueue.UnsafeQueue.Push` | linked-list/src/unsafe_queue.rs:34-49 | `push` appends the value at the tail in a fresh node, keeping the old elements in front. On an empty queue the new node is both `head` and `tail` |
| `RawQueue.UnsafeQueue.Pop` | linked-list/src/unsafe_queue.rs:51-66 | `pop` returns `None` on an empty queue; otherwise the oldest element, with the rest remaining in order (FIFO). Removing the last element resets `tail` as well as `head` to null |
| `RawQueue.UnsafeQueue.Peek` | linked-list/src/unsafe_queue.rs:68-72 | `peek` returns the oldest element, or `None` when empty, and changes nothing |
| `RawQueue.UnsafeQueue.PeekMut` | linked-list/src/unsafe_queue.rs:74-78 | `peek_mut` hands out the head node, or nothing when empty |
| `RawQueue.UnsafeQueue.WriteThrough` | linked-list/src/unsafe_queue.rs:74-78 | writing through a handed-out reference changes only that node's element, so the next `peek`/`pop` sees the write |
| `RawQueue.UnsafeQueue.Drain` | linked-list/src/unsafe_queue.rs:133-137 | `drop` drains the queue by repeated `pop` until it is empty |
| `RawQueue.UnsafeQueue.Collect` | linked-list/src/unsafe_queue.rs:107-118 | running `iter()` to its end yields every element from head to tail, and the queue is unchanged |
| `RawQueue.UnsafeQueue.MapInPlace` | linked-list/src/unsafe_queue.rs:120-131 | a loop over `iter_mut()` that writes each element visits every element once in order, and all the writes persist |
| `RawQueue.Iter.constructor` | linked-list/src/unsafe_queue.rs:82-86 | `iter()` starts at `head` |
| `RawQueue.Iter.Next` | linked-list/src/unsafe_queue.rs:107-118 | `next` yields the next element in head -> tail order, and `None` forever after the end |
| `RawQueue.IterMut.constructor` | linked-list/src/unsafe_queue.rs:88-92 | `iter_mut()` starts at `head` |
| `RawQueue.IterMut.Next` | linked-list/src/unsafe_queue.rs:120-131 | `next` hands out the next node in order, and null (`None`) after the end |
| `RawQueue.IntoIter.constructor` | linked-list/src/unsafe_queue.rs:94-96 | `into_iter` owns the queue |
| `RawQueue.IntoIter.Next` | linked-list/src/unsafe_queue.rs:99-105 | `next` is `pop` |
| `SafeDeque.DNode.constructor` | linked-list/src/safe_deque.rs:51-59 | `Node::new` gives a node holding the value with both links empty |
| `SafeDeque.Deque.constructor` | linked-list/src/safe_deque.rs:18-20 | `new`: a valid, empty deque |
| `SafeDeque.Deque.PushFront` | linked-list/src/safe_deque.rs:22-35 | `push_front` puts the value at the front in a fresh node. On an empty deque the node is both `first` and `last`. Otherwise the old first's `prev` is the new node and the new node's `next` the old first |
| `SafeDeque.Deque.PopFront` | linked-list/src/safe_deque.rs:37-48 | `pop_front` returns `None` on an empty deque; otherwise the most recently pushed element, with the rest remaining. The only node's removal clears `last`; otherwise the new first's `prev` is cleared |
| `BoxStack.LinkedList.constructor` | linked-list/src/linked_list.rs:15-17 | `new`: an empty stack |
| `BoxStack.LinkedList.Push` | linked-list/src/linked_list.rs:19-25 | `push` adds exactly one element on top, and the old chain of boxes is its `next` |
| `BoxStack.LinkedList.Pop` | linked-list/src/linked_list.rs:27-33 | `pop` returns `None` on an empty stack; otherwise the top element, with the rest of the stack unchanged beneath |
| `BoxStack.LinkedList.Peek` | linked-list/src/linked_list.rs:35-38 | `peek` returns the top element, or `None` when empty, and changes nothing |
| `BoxStack.LinkedList.PeekMut` | linked-list/src/linked_list.rs:40-43 | `peek_mut` gives access to the same top element as `peek`, or `None` when empty |
| `BoxStack.LinkedList.WriteTop` | linked-list/src/linked_list.rs:40-43 | a write through `peek_mut`'s reference replaces the top element and leaves the rest alone |
| `BoxStack.PushPop` | linked-list/src/linked_list.rs:19-33 | `pop` right after `push(v)` returns `v` and restores the stack exactly (LIFO) |
| `Persistent.New` | linked-list/src/immutable_linked_list.rs:13-15 | `new` has no elements |
| `Persistent.Prepend` | linked-list/src/immutable_linked_list.rs:19-25 | `prepend` gives a list whose elements are the value followed by the old list's |
| `Persistent.DropLast` | linked-list/src/immutable_linked_list.rs:27-29 | `drop_last` drops the first element (the head), and on the empty list gives the empty list |
| `Persistent.First` | linked-list/src/immutable_linked_list.rs:31-33 | `first` is the head element, or `None` exactly when empty |
| `Persistent.FirstOfNew` | linked-list/src/immutable_linked_list.rs:40-43 | `new().first()` is `None` |
| `Persistent.FirstOfPrepend` | linked-list/src/immutable_linked_list.rs:19-33 | `prepend(v).first()` is `Some(v)` |
| `Persistent.DropLastOfPrepend` | linked-list/src/immutable_linked_list.rs:19-29 | `drop_last` undoes `prepend`, giving back the very same list (its shared tail) |
| `Persistent.DropLastOfNew` | linked-list/src/immutable_linked_list.rs:27-29 | `drop_last` of the empty list is the empty list |
| `Persistent.ChainInjective` | linked-list/src/immutable_linked_list.rs:7-10 | two chains of nodes with the same elements are the same chain |
| `Persistent.ElementsInjective` | linked-list/src/immutable_linked_list.rs:3-5 | two lists with the same elements are the same list, so the element-level contracts determine every result |
| `Persistent.DropManyElements` | linked-list/src/immutable_linked_list.rs:40-61 | `n` successive `drop_last`s drop the first `n` elements, and give the empty list once `n` passes the length, as the test's chain of calls does |

## Left out

- `Debug` rendering (linked-list/src/unsafe_linked_list.rs:371-375) delegates to the standard formatter, which is not part of this model.
- The NaN ordering tests (linked-list/src/unsafe_linked_list.rs:810-839) are about floating point. Ordering is modelled over an element comparison passed as a function.
- `hash` is modelled as the sequence of values fed to the hasher. The hasher itself is not part of this model.
- Memory management is treated as object creation and removal from the ghost `nodes` sequence. This covers `Box::into_raw`/`from_raw`, `NonNull`, `PhantomData` and freeing.
- The teardown `Drop` of the boxed stack (linked-list/src/linked_list.rs:46-53) is not part of this model. It has no observable effect.
- In `safe_deque.rs`, nodes are plain heap objects, so `Rc`/`RefCell` reference counting is not part of this model. That includes the `Rc::try_unwrap(..).ok().unwrap()` panic path.
- Borrows are taken as given: iterators and the cursor assume their list is valid at every call. Lifetimes and the exclusivity of `&mut` are not modelled.
- A `&mut T` handed out is modelled as the node that holds the element. The write through it is a separate method: `WriteThrough`, or `WriteTop` for the box stack.
- The `IntoIterator` glue (linked-list/src/unsafe_linked_list.rs:166-191), `Default` (:339-343) and the `Eq` marker (:387) carry no behaviour of their own.
- `linked-list/src/main.rs` is a print-only demo and is not part of this model.
- `len` is a `usize` in the source and a `nat` here. Overflow past `usize::MAX` is not modelled. The model proves that no subtraction on a length or an index goes below zero.
- `clone` copies each element with `T::clone`. The model copies the value.
- Client loops over the iterators are modelled only where the crate itself runs one: `clone`'s loop over `iter()`, the two traversals of `check_links`, and the `iter_mut` write loop of the queue test (`MapInPlace`).
- `UnsafeList.UnsafeLinkedList.SplitOffFrontAsWritten`, `SplitOffBackAsWritten`, `UnsafeCursor.CursorMut.SplitBeforeAsWritten`, `SplitAfterAsWritten` and `SplitAfterNodeAsWritten` state the returned header's `first`, `last` and `len` and that it is not valid. They do not model what dropping or walking that header would do to nodes the owner still holds.
- `SafeDeque.Deque.PopFront`: its frame names every node of the deque, though only the first two change.
- `BoxStack.LinkedList.PeekMut` returns the top value rather than a reference; a write through the reference is `WriteTop`.

## Findings

| source | as written | input that shows it | evidently intended | confidence | as-written member | corrected member |
|---|---|---|---|---|---|---|
| linked-list/src/unsafe_linked_list.rs:489-496 | `split_before` on node `k` sets `self.list.first = cur` and then builds the returned list with `first: self.list.first`. So the returned list starts at the cursor node, which the owner still holds, and has `last` = node `k - 1` and `len == k`. | a list holding 1, 2, 3 with the cursor on element 1 (nodes are named by index, so node(1) holds 2): the returned header is `{first: node(1), last: node(0), len: 1}`, and it yields 2 instead of 1. The owner still holds node(1) as its `first`. | the returned list runs from the old `first` to node `k - 1` (and is empty for `k == 0`) | not executed | `UnsafeCursor.CursorMut.SplitBeforeAsWritten` | `UnsafeCursor.CursorMut.SplitBefore` |
| linked-list/src/unsafe_linked_list.rs:509-516 | `split_after` on node `k` of an `n`-element list cuts after the cursor. The owner then holds `k + 1` nodes, but its `len` is set to `n - k` and its index to `Some(0)`, although the cursor stays on element `k`. | `n = 5`, cursor on element 1: the owner holds 2 nodes with `len == 4`, and its index 0 names element 0 while the cursor is on element 1 | the owner's `len` becomes `k + 1`, and the index stays `Some(k)` | not executed | `UnsafeCursor.CursorMut.SplitAfterAsWritten` | `UnsafeCursor.CursorMut.SplitAfter` |
| linked-list/src/unsafe_linked_list.rs:517-524 | the list returned by `split_after` is built after `self.list.last = cur`. It is `{first: cur, last: node k + 1, len: k}` | `n = 5`, cursor on element 1: the returned header is `{first: node(1), last: node(2), len: 1}` instead of `{first: node(2), last: node(4), len: 3}` | the returned list runs from node `k + 1` to the old `last`, with `len == n - k - 1` | not executed | `UnsafeCursor.CursorMut.SplitAfterAsWritten` | `UnsafeCursor.CursorMut.SplitAfter` |
