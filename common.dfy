/** The `Option` type that the Rust code returns from its `pop`, `peek` and
    iterator methods. */
module Options {

  datatype Option<+T> = None | Some(value: T)
}

/** Sequence helpers shared by the list models. */
module Seqs {

  /** The elements of `s` from last to first. */
  function Reverse<T>(s: seq<T>): (r: seq<T>)
    ensures |r| == |s|
  {
    if s == [] then [] else Reverse(s[1..]) + [s[0]]
  }

  /** Element `i` of the reversal is element `|s| - 1 - i` of the original. */
  lemma {:induction false} ReverseAt<T>(s: seq<T>, i: nat)
    requires i < |s|
    ensures Reverse(s)[i] == s[|s| - 1 - i]
  {
    if i < |s| - 1 {
      ReverseAt(s[1..], i);
    }
  }

  /** Reversing twice gives the original back. */
  lemma {:induction false} ReverseReverse<T>(s: seq<T>)
    ensures Reverse(Reverse(s)) == s
  {
    forall i | 0 <= i < |s|
      ensures Reverse(Reverse(s))[i] == s[i]
    {
      ReverseAt(Reverse(s), i);
      ReverseAt(s, |s| - 1 - i);
    }
  }

  /** Adding an element that is not there yet keeps a sequence distinct. */
  lemma {:induction false} DistinctSnoc<T>(s: seq<T>, x: T)
    requires Distinct(s) && x !in s
    ensures Distinct(s + [x])
  {
    if s != [] {
      assert (s + [x])[1..] == s[1..] + [x];
      DistinctSnoc(s[1..], x);
    } else {
      assert (s + [x])[1..] == [];
    }
  }

  /** A prefix of a distinct sequence is distinct. */
  lemma {:induction false} DistinctPrefix<T>(s: seq<T>, n: nat)
    requires Distinct(s) && n <= |s|
    ensures Distinct(s[..n])
  {
    if n > 0 {
      assert s[..n][1..] == s[1..][..n - 1];
      DistinctPrefix(s[1..], n - 1);
    }
  }

  /** A suffix of a distinct sequence is distinct. */
  lemma {:induction false} DistinctSuffix<T>(s: seq<T>, n: nat)
    requires Distinct(s) && n <= |s|
    ensures Distinct(s[n..])
  {
    if n > 0 {
      assert s[n..] == s[1..][n - 1..];
      DistinctSuffix(s[1..], n - 1);
    }
  }

  /** The two halves of a distinct sequence share no element. */
  lemma DistinctHalves<T>(s: seq<T>, n: nat)
    requires Distinct(s) && n <= |s|
    ensures Disjoint(s[..n], s[n..])
  {
    forall i | 0 <= i < n
      ensures s[..n][i] !in s[n..]
    {
      forall j | 0 <= j < |s| - n
        ensures s[n..][j] != s[i]
      {
        DistinctAt(s, i, n + j);
      }
    }
  }

  /** `b` inserted into `a` just before position `k`, that is
      `a[..k] + b + a[k..]` (see `SpliceIsConcat`), written position by
      position. */
  function Splice<T>(a: seq<T>, b: seq<T>, k: nat): (r: seq<T>)
    requires k <= |a|
    ensures |r| == |a| + |b|
  {
    seq(|a| + |b|, i requires 0 <= i < |a| + |b| => if i < k then a[i] else if i < k + |b| then b[i - k] else a[i - |b|])
  }

  /** Splicing in nothing changes nothing. */
  lemma SpliceNothing<T>(a: seq<T>, k: nat)
    requires k <= |a|
    ensures Splice(a, [], k) == a
  {
    var e: seq<T> := [];
    var r := Splice(a, e, k);
    forall i | 0 <= i < |a|
      ensures r[i] == a[i]
    {
      if k <= i {
        assert r[i + |e|] == a[i];
      }
    }
  }

  /** `Splice` is the concatenation it is named after. */
  lemma SpliceIsConcat<T>(a: seq<T>, b: seq<T>, k: nat)
    requires k <= |a|
    ensures Splice(a, b, k) == a[..k] + b + a[k..]
  {
    var r, c := Splice(a, b, k), a[..k] + b + a[k..];
    forall i | 0 <= i < |r|
      ensures r[i] == c[i]
    {
      if i < k {
        assert r[i] == a[i];
      } else if i < k + |b| {
        assert r[k + (i - k)] == b[i - k];
      } else {
        assert r[(i - |b|) + |b|] == a[i - |b|];
      }
    }
  }

  /** No element occurs twice in `s`. Stated recursively so that the
      solver unfolds it only on demand; `DistinctAt` and `DistinctFromPairs`
      convert to and from the pairwise form. */
  ghost predicate Distinct<T>(s: seq<T>)
  {
    s == [] || (s[0] !in s[1..] && Distinct(s[1..]))
  }

  /** No element of `a` occurs in `b`. */
  ghost predicate Disjoint<T>(a: seq<T>, b: seq<T>)
  {
    forall i :: 0 <= i < |a| ==> a[i] !in b
  }

  /** Two different positions of a distinct sequence hold different
      elements. */
  lemma {:induction false} DistinctAt<T>(s: seq<T>, i: nat, j: nat)
    requires Distinct(s) && i < j < |s|
    ensures s[i] != s[j]
  {
    if i == 0 {
      assert s[j] == s[1..][j - 1];
    } else {
      assert s[i] == s[1..][i - 1] && s[j] == s[1..][j - 1];
      DistinctAt(s[1..], i - 1, j - 1);
    }
  }

  /** `DistinctAt` for positions in either order. */
  lemma DistinctNe<T>(s: seq<T>, i: nat, j: nat)
    requires Distinct(s) && i < |s| && j < |s| && i != j
    ensures s[i] != s[j]
  {
    if i < j {
      DistinctAt(s, i, j);
    } else {
      DistinctAt(s, j, i);
    }
  }

  /** The pairwise form of `Distinct`. */
  lemma DistinctPairs<T>(s: seq<T>)
    requires Distinct(s)
    ensures forall i, j :: 0 <= i < j < |s| ==> s[i] != s[j]
  {
    forall i, j | 0 <= i < j < |s|
      ensures s[i] != s[j]
    {
      DistinctAt(s, i, j);
    }
  }

  /** A sequence whose positions pairwise differ is `Distinct`. */
  lemma {:induction false} DistinctFromPairs<T>(s: seq<T>)
    requires forall i, j :: 0 <= i < j < |s| ==> s[i] != s[j]
    ensures Distinct(s)
  {
    if s != [] {
      forall k | 0 <= k < |s| - 1
        ensures s[1..][k] != s[0]
      {
        assert s[1..][k] == s[k + 1];
      }
      var t := s[1..];
      forall i, j | 0 <= i < j < |t|
        ensures t[i] != t[j]
      {
        assert t[i] == s[i + 1] && t[j] == s[j + 1];
      }
      DistinctFromPairs(t);
    }
  }

  /** Splicing a run of elements that `a` does not hold into a distinct
      sequence keeps it distinct. */
  lemma SpliceDistinct<T>(a: seq<T>, b: seq<T>, k: nat)
    requires k <= |a| && Distinct(a) && Distinct(b) && Disjoint(a, b)
    ensures Distinct(Splice(a, b, k))
  {
    var r := Splice(a, b, k);
    DistinctPairs(a);
    DistinctPairs(b);
    forall i, j | 0 <= i < j < |r|
      ensures r[i] != r[j]
    {
      var x := if i < k then a[i] else if i < k + |b| then b[i - k] else a[i - |b|];
      var y := if j < k then a[j] else if j < k + |b| then b[j - k] else a[j - |b|];
      assert r[i] == x && r[j] == y;
      if i < k && k <= j < k + |b| {
        assert a[i] !in b;
      } else if k <= i < k + |b| && k + |b| <= j {
        assert a[j - |b|] !in b;
      }
    }
    DistinctFromPairs(r);
  }
}
