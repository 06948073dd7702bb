/** The singly-linked LIFO stack `LinkedList<T>` of
    linked-list/src/linked_list.rs. Each `Box<LinkedNode<T>>` is owned by
    exactly one link, so the chain of boxes is a value: `head` is a field
    of the stack object holding that value, and `push`/`pop` replace it. */
module BoxStack {
  import opened Options

  /** `LinkedNode { value, next }`; a `Link` is `Option<Box<LinkedNode>>`. */
  datatype LinkedNode<T> = LinkedNode(value: T, next: Option<LinkedNode<T>>)

  /** The values of a chain of boxes, top first. */
  function Elements<T>(link: Option<LinkedNode<T>>): seq<T>
  {
    match link
    case None => []
    case Some(node) => [node.value] + Elements(node.next)
  }

  class LinkedList<T> {
    var head: Option<LinkedNode<T>>

    /** The stack, top first. */
    ghost function Contents(): seq<T>
      reads this
    {
      Elements(head)
    }

    /** `new`: `head` is `None`. */
    constructor ()
      ensures Contents() == []
    {
      head := None;
    }

    /** `push`: a new box on top whose `next` is the old chain. */
    method Push(value: T)
      modifies this
      ensures Contents() == [value] + old(Contents())
      ensures head.Some? && head.value.next == old(head)
    {
      var node := LinkedNode(value, head);
      head := None;
      head := Some(node);
    }

    /** `pop`: `None` on an empty stack; otherwise the top value, with the
        box beneath it becoming `head`. */
    method Pop() returns (r: Option<T>)
      modifies this
      ensures old(Contents()) == [] ==> r == None && Contents() == []
      ensures old(Contents()) != [] ==> r == Some(old(Contents())[0]) && Contents() == old(Contents())[1..]
      ensures old(head).Some? ==> head == old(head).value.next
    {
      var taken := head;
      head := None;
      match taken
      case None =>
        r := None;
      case Some(node) =>
        head := node.next;
        r := Some(node.value);
    }

    /** `peek`: the top value, left in place. */
    method Peek() returns (r: Option<T>)
      ensures r == if Contents() == [] then None else Some(Contents()[0])
    {
      r := match head
        case None => None
        case Some(node) => Some(node.value);
    }

    /** `peek_mut`: the same top value as `peek`, the one a write through
        the returned reference replaces (see `WriteTop`). */
    method PeekMut() returns (r: Option<T>)
      ensures r == if Contents() == [] then None else Some(Contents()[0])
    {
      r := match head
        case None => None
        case Some(node) => Some(node.value);
    }

    /** A write `*x = v` through the reference `peek_mut` hands out: the top
        value is replaced and the rest of the stack is untouched; with an
        empty stack there is no reference and nothing changes. */
    method WriteTop(v: T)
      modifies this
      ensures old(Contents()) == [] ==> Contents() == []
      ensures old(Contents()) != [] ==> Contents() == [v] + old(Contents())[1..]
    {
      match head
      case None =>
      case Some(node) =>
        head := Some(node.(value := v));
    }
  }

  /** Popping right after pushing gives back the pushed value and the
      stack as it was. */
  method PushPop<T>(s: LinkedList<T>, v: T) returns (r: Option<T>)
    modifies s
    ensures r == Some(v) && s.Contents() == old(s.Contents()) && s.head == old(s.head)
  {
    s.Push(v);
    r := s.Pop();
  }
}
