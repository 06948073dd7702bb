/** The persistent cons list `ImmutableList<T>` of
    linked-list/src/immutable_linked_list.rs. Its nodes sit behind `Rc`
    and are never mutated, so a list is a value and sharing a tail is
    sharing a value. */
module Persistent {
  import opened Options

  /** `Node { value, next }`, the `next` link being `Option<Rc<Node>>`. */
  datatype Node<T> = Node(value: T, next: Option<Node<T>>)

  /** `ImmutableList { head }`. */
  datatype ImmutableList<T> = ImmutableList(head: Option<Node<T>>)

  /** The values of a chain of nodes, front first. */
  function Chain<T>(link: Option<Node<T>>): seq<T>
  {
    match link
    case None => []
    case Some(node) => [node.value] + Chain(node.next)
  }

  /** The values of a list, front first. */
  function Elements<T>(l: ImmutableList<T>): seq<T>
  {
    Chain(l.head)
  }

  /** `new`: the empty list. */
  function New<T>(): (r: ImmutableList<T>)
    ensures Elements(r) == []
  {
    ImmutableList(None)
  }

  /** `prepend`: a new list whose head node holds `value` and shares the
      whole of `l` as its tail; `l` itself is a value and is not touched. */
  function Prepend<T>(l: ImmutableList<T>, value: T): (r: ImmutableList<T>)
    ensures Elements(r) == [value] + Elements(l)
  {
    ImmutableList(Some(Node(value, l.head)))
  }

  /** `drop_last`: despite its name, the list without its head node, that
      is, the head's shared tail; the empty list for an empty list. */
  function DropLast<T>(l: ImmutableList<T>): (r: ImmutableList<T>)
    ensures Elements(l) == [] ==> Elements(r) == []
    ensures Elements(l) != [] ==> Elements(r) == Elements(l)[1..]
  {
    ImmutableList(match l.head case None => None case Some(node) => node.next)
  }

  /** `first`: the head's value, or `None` for the empty list. */
  function First<T>(l: ImmutableList<T>): (r: Option<T>)
    ensures r == if Elements(l) == [] then None else Some(Elements(l)[0])
  {
    match l.head
    case None => None
    case Some(node) => Some(node.value)
  }

  /** The empty list has no first element. */
  lemma FirstOfNew<T>()
    ensures First(New<T>()) == None
  {
  }

  /** The first element of a prepended list is the prepended value. */
  lemma FirstOfPrepend<T>(l: ImmutableList<T>, value: T)
    ensures First(Prepend(l, value)) == Some(value)
  {
  }

  /** `drop_last` undoes `prepend`: it gives back the very list that was
      prepended to, not merely one with the same elements. */
  lemma DropLastOfPrepend<T>(l: ImmutableList<T>, value: T)
    ensures DropLast(Prepend(l, value)) == l
  {
  }

  /** `drop_last` of the empty list is the empty list. */
  lemma DropLastOfNew<T>()
    ensures DropLast(New<T>()) == New()
  {
  }

  /** Two lists with the same elements are the same list: `Elements` loses
      nothing, so the element-level contracts above determine each
      operation's result completely. */
  lemma {:induction false} ChainInjective<T>(a: Option<Node<T>>, b: Option<Node<T>>)
    requires Chain(a) == Chain(b)
    ensures a == b
    decreases a
  {
    match a
    case None =>
    case Some(x) =>
      var y := b.value;
      assert Chain(a)[1..] == Chain(x.next) && Chain(b)[1..] == Chain(y.next);
      ChainInjective(x.next, y.next);
  }

  /** `ChainInjective` for whole lists. */
  lemma ElementsInjective<T>(a: ImmutableList<T>, b: ImmutableList<T>)
    requires Elements(a) == Elements(b)
    ensures a == b
  {
    ChainInjective(a.head, b.head);
  }

  /** `n` successive calls of `drop_last`. */
  function DropMany<T>(l: ImmutableList<T>, n: nat): ImmutableList<T>
    decreases n
  {
    if n == 0 then l else DropMany(DropLast(l), n - 1)
  }

  /** `n` calls of `drop_last` drop the first `n` elements, and leave the
      empty list once `n` passes the length: dropping from an empty list
      stays empty. */
  lemma {:induction false} DropManyElements<T>(l: ImmutableList<T>, n: nat)
    decreases n
    ensures n <= |Elements(l)| ==> Elements(DropMany(l, n)) == Elements(l)[n..]
    ensures n > |Elements(l)| ==> Elements(DropMany(l, n)) == []
  {
    if n > 0 {
      var d := DropLast(l);
      DropManyElements(d, n - 1);
      if Elements(l) != [] && n <= |Elements(l)| {
        var e := Elements(l);
        assert Elements(d) == e[1..];
        assert e[1..][n - 1..] == e[n..];
      }
    }
  }
}
