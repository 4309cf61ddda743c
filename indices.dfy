/** Small vocabulary over lists of point indices, shared by the other modules. */
module Indices {

  /** The list 0, 1, ..., n-1 (Python's `list(range(n))`). */
  function Range(n: nat): (r: seq<nat>)
    ensures |r| == n && forall i :: 0 <= i < n ==> r[i] == i
  {
    seq(n, i => i)
  }

  /** No index occurs twice. */
  predicate NoDup(s: seq<nat>)
  {
    forall i, j :: 0 <= i < j < |s| ==> s[i] != s[j]
  }

  /** Every index is below the point count `n`. */
  predicate InRange(s: seq<nat>, n: nat)
  {
    forall k :: 0 <= k < |s| ==> s[k] < n
  }

  /** No index occurs in both lists. */
  predicate Disjoint(a: seq<nat>, b: seq<nat>)
  {
    forall x :: x in a ==> x !in b
  }

  /** Every index of `a` occurs in `b`. */
  predicate SubsetOf(a: seq<nat>, b: seq<nat>)
  {
    forall x :: x in a ==> x in b
  }

  /** The indices of `xs` that are not in `ys`, in their order in `xs`
      (the set difference of the overlap-resolution pass). */
  function Without(xs: seq<nat>, ys: seq<nat>): (r: seq<nat>)
    ensures forall x :: x in r <==> x in xs && x !in ys
    ensures |r| <= |xs|
  {
    if xs == [] then []
    else (if xs[0] in ys then [] else [xs[0]]) + Without(xs[1..], ys)
  }

  lemma {:induction false} WithoutNoDup(xs: seq<nat>, ys: seq<nat>)
    requires NoDup(xs)
    ensures NoDup(Without(xs, ys))
  {
    if xs != [] {
      assert NoDup(xs[1..]);
      WithoutNoDup(xs[1..], ys);
    }
  }

  lemma NoDupConcat(a: seq<nat>, b: seq<nat>)
    requires NoDup(a) && NoDup(b) && Disjoint(a, b)
    ensures NoDup(a + b)
  {
    forall i, j | 0 <= i < j < |a + b| ensures (a + b)[i] != (a + b)[j] {
      if i < |a| && j >= |a| {
        assert (a + b)[i] in a;
        assert (a + b)[j] == b[j - |a|];
      }
    }
  }

  /** A list without repetitions of indices below `n` has at most `n` entries. */
  lemma {:induction false} NoDupBound(s: seq<nat>, n: nat)
    requires NoDup(s) && InRange(s, n)
    ensures |s| <= n
  {
    var elems := Elems(s);
    var below := Elems(Range(n));
    NoDupCard(s);
    NoDupCard(Range(n));
    assert elems <= below by {
      forall x | x in elems ensures x in below {
        assert Range(n)[x] == x;
      }
    }
    SubsetCard(elems, below);
  }

  /** Growing a prefix by one element. */
  lemma PrefixStep<T>(s: seq<T>, j: nat)
    requires j < |s|
    ensures s[..j + 1] == s[..j] + [s[j]]
  {
  }

  lemma AppendAssoc<T>(a: seq<T>, b: seq<T>, c: seq<T>)
    ensures (a + b) + c == a + (b + c)
  {
  }

  /** The indices a list holds, as a set. */
  function Elems(s: seq<nat>): set<nat>
  {
    set x | x in s
  }

  lemma {:induction false} NoDupCard(s: seq<nat>)
    requires NoDup(s)
    ensures |Elems(s)| == |s|
  {
    if s != [] {
      var last := s[|s| - 1];
      var init := s[..|s| - 1];
      assert NoDup(init);
      NoDupCard(init);
      assert s == init + [last];
      assert forall k :: 0 <= k < |init| ==> init[k] != last;
      assert Elems(s) == Elems(init) + {last};
    }
  }

  lemma SubsetCard<T>(a: set<T>, b: set<T>)
    requires a <= b
    ensures |a| <= |b|
  {
    assert b == a + (b - a);
  }
}
