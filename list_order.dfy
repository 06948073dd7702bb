/** Equality, ordering and hashing of `UnsafeLinkedList<T>`
    (linked-list/src/unsafe_linked_list.rs, the `PartialEq`, `PartialOrd`,
    `Ord` and `Hash` impls). Each compares the lists' forward sequences, the
    order in which `iter()` yields them, with the element type's own
    comparison, which is a parameter here: `eq` for `PartialEq::eq`, `pc`
    for `PartialOrd::partial_cmp` and `c` for `Ord::cmp`. */
module ListOrder {
  import opened Options

  datatype Ordering = Less | Equal | Greater

  /** `Ordering::reverse`. */
  function Flip(o: Ordering): Ordering
  {
    match o
    case Less => Greater
    case Equal => Equal
    case Greater => Less
  }

  /** `Iterator::eq` on two iterators: step both; equal when both end
      together and every pair of elements is `eq`. */
  function IterEq<T>(a: seq<T>, b: seq<T>, eq: (T, T) -> bool): (r: bool)
    ensures r ==> |a| == |b|
  {
    if a == [] || b == [] then a == [] && b == []
    else eq(a[0], b[0]) && IterEq(a[1..], b[1..], eq)
  }

  /** `PartialEq::eq` for the list: `len == other.len && iter().eq(other)`,
      which holds exactly when the lengths agree and every pair is `eq`. */
  function Eq<T>(a: seq<T>, b: seq<T>, eq: (T, T) -> bool): (r: bool)
    ensures r <==> |a| == |b| && forall i :: 0 <= i < |a| ==> eq(a[i], b[i])
  {
    IterEqPointwise(a, b, eq);
    |a| == |b| && IterEq(a, b, eq)
  }

  /** `PartialEq::ne` for the list: `len != other.len || iter().ne(other)`,
      where `Iterator::ne` is the negation of `Iterator::eq`. It holds
      exactly when the lengths differ or some pair is not `eq`. */
  function Ne<T>(a: seq<T>, b: seq<T>, eq: (T, T) -> bool): (r: bool)
    ensures r <==> |a| != |b| || exists i :: 0 <= i < |a| && !eq(a[i], b[i])
  {
    IterEqPointwise(a, b, eq);
    |a| != |b| || !IterEq(a, b, eq)
  }

  /** `Iterator::partial_cmp`: the first pair of elements that does not
      compare `Some(Equal)` decides (an incomparable pair gives `None`);
      otherwise the shorter sequence is `Less`. */
  function PartialCmp<T>(a: seq<T>, b: seq<T>, pc: (T, T) -> Option<Ordering>): (r: Option<Ordering>)
    ensures r == Some(Equal) ==> |a| == |b|
  {
    if a == [] && b == [] then Some(Equal)
    else if a == [] then Some(Less)
    else if b == [] then Some(Greater)
    else
      match pc(a[0], b[0])
      case Some(Equal) => PartialCmp(a[1..], b[1..], pc)
      case other => other
  }

  /** `Iterator::cmp`: as `PartialCmp`, for a total element order. */
  function Cmp<T>(a: seq<T>, b: seq<T>, c: (T, T) -> Ordering): (r: Ordering)
    ensures r == Equal ==> |a| == |b|
  {
    if a == [] && b == [] then Equal
    else if a == [] then Less
    else if b == [] then Greater
    else if c(a[0], b[0]) == Equal then Cmp(a[1..], b[1..], c)
    else c(a[0], b[0])
  }

  /** One value fed to the hasher. */
  datatype HashInput<T> = Length(n: nat) | Element(x: T)

  /** The values `Hash::hash` feeds to the hasher, in order: the length,
      then every element first -> last. The contract only spells out this
      layout; what it guarantees about hashing is `HashStreamPrefixFree`. */
  function HashStream<T>(a: seq<T>): (r: seq<HashInput<T>>)
    ensures |r| == |a| + 1 && r[0] == Length(|a|)
    ensures forall i :: 0 <= i < |a| ==> r[i + 1] == Element(a[i])
  {
    [Length(|a|)] + seq(|a|, i requires 0 <= i < |a| => Element(a[i]))
  }

  /** `Iterator::eq` holds exactly when the lengths agree and the elements
      are pairwise `eq`. */
  lemma {:induction false} IterEqPointwise<T>(a: seq<T>, b: seq<T>, eq: (T, T) -> bool)
    ensures IterEq(a, b, eq) <==> |a| == |b| && forall i :: 0 <= i < |a| ==> eq(a[i], b[i])
  {
    if a != [] && b != [] {
      IterEqPointwise(a[1..], b[1..], eq);
      if |a| == |b| && forall i :: 0 <= i < |a| - 1 ==> eq(a[1..][i], b[1..][i]) {
        assert forall i :: 1 <= i < |a| ==> a[i] == a[1..][i - 1] && b[i] == b[1..][i - 1];
      }
    }
  }

  /** List equality holds exactly when the lengths agree and the elements
      are pairwise `eq`; the length test in front of `iter().eq` never
      changes the answer. */
  lemma EqPointwise<T>(a: seq<T>, b: seq<T>, eq: (T, T) -> bool)
    ensures Eq(a, b, eq) <==> |a| == |b| && forall i :: 0 <= i < |a| ==> eq(a[i], b[i])
    ensures Eq(a, b, eq) == IterEq(a, b, eq)
  {
    IterEqPointwise(a, b, eq);
  }

  /** `ne` is the negation of `eq`. */
  lemma NeIsNotEq<T>(a: seq<T>, b: seq<T>, eq: (T, T) -> bool)
    ensures Ne(a, b, eq) == !Eq(a, b, eq)
  {
  }

  /** With an element equality that is `==`, list equality is sequence
      equality. */
  lemma EqIsEquality<T>(a: seq<T>, b: seq<T>, eq: (T, T) -> bool)
    requires forall x, y :: eq(x, y) <==> x == y
    ensures Eq(a, b, eq) <==> a == b
  {
    EqPointwise(a, b, eq);
    if |a| == |b| && forall i :: 0 <= i < |a| ==> eq(a[i], b[i]) {
      assert forall i :: 0 <= i < |a| ==> a[i] == b[i];
    }
  }

  /** The position where a lexicographic comparison is decided: `k`
      leading pairs compare `Equal` and then either `a` ends while `b`
      goes on, or the pair at `k` compares `Less`. */
  ghost predicate LessAt<T>(a: seq<T>, b: seq<T>, c: (T, T) -> Ordering, k: nat)
  {
    && k <= |a| && k <= |b|
    && (forall i :: 0 <= i < k ==> c(a[i], b[i]) == Equal)
    && ((k == |a| && k < |b|) || (k < |a| && k < |b| && c(a[k], b[k]) == Less))
  }

  /** `cmp` is lexicographic: it answers `Less` exactly when some position
      decides it so. */
  lemma {:induction false} CmpLessIff<T>(a: seq<T>, b: seq<T>, c: (T, T) -> Ordering)
    ensures Cmp(a, b, c) == Less <==> exists k: nat :: LessAt(a, b, c, k)
  {
    if a == [] || b == [] {
      if a == [] && b != [] {
        assert LessAt(a, b, c, 0);
      }
    } else if c(a[0], b[0]) != Equal {
      if c(a[0], b[0]) == Less {
        assert LessAt(a, b, c, 0);
      }
    } else {
      CmpLessIff(a[1..], b[1..], c);
      if Cmp(a, b, c) == Less {
        var k: nat :| LessAt(a[1..], b[1..], c, k);
        forall i | 0 <= i < k + 1
          ensures c(a[i], b[i]) == Equal
        {
          if 0 < i {
            assert a[i] == a[1..][i - 1] && b[i] == b[1..][i - 1];
          }
        }
        assert LessAt(a, b, c, k + 1);
      }
      if exists k: nat :: LessAt(a, b, c, k) {
        var k: nat :| LessAt(a, b, c, k);
        assert k != 0;
        forall i | 0 <= i < k - 1
          ensures c(a[1..][i], b[1..][i]) == Equal
        {
          assert a[1..][i] == a[i + 1] && b[1..][i] == b[i + 1];
        }
        assert LessAt(a[1..], b[1..], c, k - 1);
      }
    }
  }

  /** With an element order whose `Equal` means `==`, `cmp` answers
      `Equal` exactly on equal lists. */
  lemma {:induction false} CmpEqualIff<T>(a: seq<T>, b: seq<T>, c: (T, T) -> Ordering)
    requires forall x, y :: c(x, y) == Equal <==> x == y
    ensures Cmp(a, b, c) == Equal <==> a == b
  {
    if a != [] && b != [] && c(a[0], b[0]) == Equal {
      CmpEqualIff(a[1..], b[1..], c);
      assert a == [a[0]] + a[1..] && b == [b[0]] + b[1..];
    }
  }

  /** With an antisymmetric element order, swapping the lists flips the
      answer of `cmp`. */
  lemma {:induction false} CmpFlip<T>(a: seq<T>, b: seq<T>, c: (T, T) -> Ordering)
    requires forall x, y :: c(y, x) == Flip(c(x, y))
    ensures Cmp(b, a, c) == Flip(Cmp(a, b, c))
  {
    if a != [] && b != [] {
      assert c(b[0], a[0]) == Flip(c(a[0], b[0]));
      if c(a[0], b[0]) == Equal {
        CmpFlip(a[1..], b[1..], c);
      }
    }
  }

  /** A proper prefix compares `Less`. */
  lemma CmpPrefix<T>(a: seq<T>, b: seq<T>, c: (T, T) -> Ordering)
    requires forall x :: c(x, x) == Equal
    requires |a| < |b| && a == b[..|a|]
    ensures Cmp(a, b, c) == Less
  {
    assert LessAt(a, b, c, |a|);
    CmpLessIff(a, b, c);
  }

  /** `partial_cmp` over an element order that is total (`pc` always
      `Some(c(x, y))`) is `Some` of `cmp`. */
  lemma {:induction false} PartialCmpOfTotal<T>(a: seq<T>, b: seq<T>, pc: (T, T) -> Option<Ordering>, c: (T, T) -> Ordering)
    requires forall x, y :: pc(x, y) == Some(c(x, y))
    ensures PartialCmp(a, b, pc) == Some(Cmp(a, b, c))
  {
    if a != [] && b != [] && c(a[0], b[0]) == Equal {
      PartialCmpOfTotal(a[1..], b[1..], pc, c);
    }
  }

  /** `partial_cmp` answers `Some(Equal)` exactly when the lengths agree and
      every pair compares `Some(Equal)`. */
  lemma {:induction false} PartialCmpEqualIff<T>(a: seq<T>, b: seq<T>, pc: (T, T) -> Option<Ordering>)
    ensures PartialCmp(a, b, pc) == Some(Equal) <==>
      |a| == |b| && forall i :: 0 <= i < |a| ==> pc(a[i], b[i]) == Some(Equal)
  {
    if a != [] && b != [] && pc(a[0], b[0]) == Some(Equal) {
      PartialCmpEqualIff(a[1..], b[1..], pc);
      assert forall i :: 1 <= i < |a| ==> a[i] == a[1..][i - 1];
      assert forall i :: 1 <= i < |b| ==> b[i] == b[1..][i - 1];
    }
  }

  /** Position `k` is an incomparable pair after a run of `Some(Equal)`
      pairs. */
  ghost predicate IncomparableAt<T>(a: seq<T>, b: seq<T>, pc: (T, T) -> Option<Ordering>, k: nat)
  {
    && k < |a| && k < |b|
    && (forall i :: 0 <= i < k ==> pc(a[i], b[i]) == Some(Equal))
    && pc(a[k], b[k]) == None
  }

  /** `partial_cmp` answers `None` exactly when the first pair that does
      not compare `Some(Equal)` is incomparable. */
  lemma {:induction false} PartialCmpNoneIff<T>(a: seq<T>, b: seq<T>, pc: (T, T) -> Option<Ordering>)
    ensures PartialCmp(a, b, pc) == None <==> exists k: nat :: IncomparableAt(a, b, pc, k)
  {
    if a != [] && b != [] {
      if pc(a[0], b[0]) == None {
        assert IncomparableAt(a, b, pc, 0);
      } else if pc(a[0], b[0]) == Some(Equal) {
        PartialCmpNoneIff(a[1..], b[1..], pc);
        if PartialCmp(a, b, pc) == None {
          var k: nat :| IncomparableAt(a[1..], b[1..], pc, k);
          forall i | 0 <= i < k + 1
            ensures pc(a[i], b[i]) == Some(Equal)
          {
            if 0 < i {
              assert a[i] == a[1..][i - 1] && b[i] == b[1..][i - 1];
            }
          }
          assert IncomparableAt(a, b, pc, k + 1);
        }
        if exists k: nat :: IncomparableAt(a, b, pc, k) {
          var k: nat :| IncomparableAt(a, b, pc, k);
          forall i | 0 <= i < k - 1
            ensures pc(a[1..][i], b[1..][i]) == Some(Equal)
          {
            assert a[1..][i] == a[i + 1] && b[1..][i] == b[i + 1];
          }
          assert IncomparableAt(a[1..], b[1..], pc, k - 1);
        }
      }
    }
  }

  /** Because the length goes first, a list's hash input is never a proper
      prefix of another's: when two inputs, each followed by further
      values, coincide, the lists and the further values are the same.
      In particular different lists feed different inputs. */
  lemma HashStreamPrefixFree<T>(a: seq<T>, b: seq<T>, x: seq<HashInput<T>>, y: seq<HashInput<T>>)
    requires HashStream(a) + x == HashStream(b) + y
    ensures a == b && x == y
  {
    var sa, sb := HashStream(a) + x, HashStream(b) + y;
    assert sa[0] == Length(|a|) && sb[0] == Length(|b|);
    assert |a| == |b|;
    forall i | 0 <= i < |a|
      ensures a[i] == b[i]
    {
      assert sa[i + 1] == Element(a[i]) && sb[i + 1] == Element(b[i]);
    }
    assert x == sa[|a| + 1..] && y == sb[|b| + 1..];
  }
}
