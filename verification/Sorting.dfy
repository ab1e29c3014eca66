/** Go's sort.Slice as its documentation promises it: the result is a permutation of the input
    on which the comparison never finds a later element less than an earlier one.  The order of
    elements that compare equal is not promised, and callers can rely on this contract only. */
module Sorting {

  ghost predicate StrictWeakOrder<T(!new)>(less: (T, T) -> bool) {
    && (forall x :: !less(x, x))
    && (forall x, y, z :: less(x, y) && less(y, z) ==> less(x, z))
    && (forall x, y, z :: less(x, z) ==> less(x, y) || less(y, z))
  }

  ghost predicate SortedBy<T>(s: seq<T>, less: (T, T) -> bool) {
    forall i, j :: 0 <= i < j < |s| ==> !less(s[j], s[i])
  }

  lemma InsertedIsSorted<T(!new)>(s: seq<T>, p: nat, x: T, less: (T, T) -> bool)
    requires SortedBy(s, less) && p <= |s|
    requires forall i :: 0 <= i < p ==> !less(x, s[i])
    requires forall i :: p <= i < |s| ==> !less(s[i], x)
    ensures SortedBy(s[..p] + [x] + s[p..], less)
  {
    var r := s[..p] + [x] + s[p..];
    forall i, j | 0 <= i < j < |r| ensures !less(r[j], r[i]) {
      assert r[i] == if i < p then s[i] else if i == p then x else s[i - 1];
      assert r[j] == if j < p then s[j] else if j == p then x else s[j - 1];
    }
  }

  method SortSlice<T(!new)>(s: seq<T>, less: (T, T) -> bool) returns (r: seq<T>)
    requires StrictWeakOrder(less)
    ensures multiset(r) == multiset(s)
    ensures |r| == |s|
    ensures SortedBy(r, less)
  {
    r := [];
    for n := 0 to |s|
      invariant |r| == n
      invariant multiset(r) == multiset(s[..n])
      invariant SortedBy(r, less)
    {
      var p := Insertion(r, s[n], less);
      InsertedIsSorted(r, p, s[n], less);
      assert r == r[..p] + r[p..];
      assert s[..n + 1] == s[..n] + [s[n]];
      r := r[..p] + [s[n]] + r[p..];
    }
    assert s[..|s|] == s;
  }

  method Insertion<T(!new)>(s: seq<T>, x: T, less: (T, T) -> bool) returns (p: nat)
    requires StrictWeakOrder(less) && SortedBy(s, less)
    ensures p <= |s|
    ensures forall i :: 0 <= i < p ==> !less(x, s[i])
    ensures forall i :: p <= i < |s| ==> !less(s[i], x)
  {
    p := |s|;
    while p > 0 && less(x, s[p - 1])
      invariant p <= |s|
      invariant forall i :: p <= i < |s| ==> !less(s[i], x)
    {
      p := p - 1;
    }
  }

  /** Permutations have the same elements. */
  lemma SameElements<T>(r: seq<T>, s: seq<T>)
    requires multiset(r) == multiset(s)
    ensures forall x :: x in r <==> x in s
  {
    forall x ensures x in r <==> x in s {
      assert x in r <==> x in multiset(r);
      assert x in s <==> x in multiset(s);
    }
  }

  /** A permutation of a strictly sorted sequence that is itself sorted is that sequence. */
  lemma {:induction false} SortedPermutationIsUnique<T(!new)>(a: seq<T>, b: seq<T>, less: (T, T) -> bool)
    requires multiset(a) == multiset(b) && SortedBy(b, less)
    requires forall i, j :: 0 <= i < j < |a| ==> less(a[i], a[j])
    ensures a == b
  {
    assert |multiset(a)| == |a| && |multiset(b)| == |b|;
    if a != [] {
      SameElements(a, b);
      SameFirst(a, b, less);
      WithoutFirst(a, b);
      SortedPermutationIsUnique(a[1..], b[1..], less);
    }
  }

  lemma WithoutFirst<T>(a: seq<T>, b: seq<T>)
    requires a != [] && b != [] && a[0] == b[0] && multiset(a) == multiset(b)
    ensures multiset(a[1..]) == multiset(b[1..]) && a == [a[0]] + a[1..] && b == [b[0]] + b[1..]
  {
    assert multiset(a[1..]) == multiset(a) - multiset{a[0]} by {
      assert a == [a[0]] + a[1..];
    }
    assert multiset(b[1..]) == multiset(b) - multiset{b[0]} by {
      assert b == [b[0]] + b[1..];
    }
  }

  lemma SameFirst<T(!new)>(a: seq<T>, b: seq<T>, less: (T, T) -> bool)
    requires a != [] && b != [] && SortedBy(b, less) && forall x :: x in a <==> x in b
    requires forall i, j :: 0 <= i < j < |a| ==> less(a[i], a[j])
    ensures a[0] == b[0]
  {
    assert b[0] in a && a[0] in b;
    var p :| 0 <= p < |a| && a[p] == b[0];
    var q :| 0 <= q < |b| && b[q] == a[0];
  }
}
