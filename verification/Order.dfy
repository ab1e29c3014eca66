/** Go's `<` on strings: lexicographic comparison, element by element.  Every keyset cursor,
    key order and id order of the modelled code is this order. */
module Order {

  /** `a` and `b` agree before k, and there `a` ends or has the smaller element. */
  predicate SmallerAt(a: string, b: string, k: nat) {
    k <= |a| && k < |b| && a[..k] == b[..k] && (k == |a| || a[k] < b[k])
  }

  predicate Less(a: string, b: string) {
    exists k: nat :: k < |b| && SmallerAt(a, b, k)
  }

  predicate AtMost(a: string, b: string) {
    a == b || Less(a, b)
  }

  lemma Irreflexive(a: string)
    ensures !Less(a, a)
  {
  }

  lemma Transitive(a: string, b: string, c: string)
    requires Less(a, b) && Less(b, c)
    ensures Less(a, c)
  {
    var i: nat :| i < |b| && SmallerAt(a, b, i);
    var j: nat :| j < |c| && SmallerAt(b, c, j);
    var k := if i < j then i else j;
    assert a[..k] == b[..k] by {
      assert a[..k] == a[..i][..k] && b[..k] == b[..i][..k];
    }
    assert b[..k] == c[..k] by {
      assert b[..k] == b[..j][..k] && c[..k] == c[..j][..k];
    }
    assert i < j ==> b[i] == b[..j][i] && c[i] == c[..j][i];
    assert j < i ==> a[j] == a[..i][j] && b[j] == b[..i][j];
    assert SmallerAt(a, c, k);
  }

  lemma Asymmetric(a: string, b: string)
    ensures !(Less(a, b) && Less(b, a))
  {
    if Less(a, b) && Less(b, a) {
      Transitive(a, b, a);
      Irreflexive(a);
    }
  }

  lemma {:induction false} FirstDifference(a: string, b: string, k: nat)
    requires k <= |a| && k <= |b| && a[..k] == b[..k]
    ensures Less(a, b) || a == b || Less(b, a)
    decreases |a| - k
  {
    if k == |a| || k == |b| {
      assert a[..|a|] == a && b[..|b|] == b;
      assert k < |b| ==> SmallerAt(a, b, k);
      assert k < |a| ==> SmallerAt(b, a, k);
    } else if a[k] == b[k] {
      assert a[..k + 1] == a[..k] + [a[k]] && b[..k + 1] == b[..k] + [b[k]];
      FirstDifference(a, b, k + 1);
    } else {
      assert SmallerAt(a, b, k) || SmallerAt(b, a, k);
    }
  }

  lemma Total(a: string, b: string)
    ensures Less(a, b) || a == b || Less(b, a)
  {
    FirstDifference(a, b, 0);
  }

  /** The three facts above in quantified form, for proofs that compare many strings. */
  lemma StrictTotalOrder()
    ensures forall a :: !Less(a, a)
    ensures forall a, b, c :: Less(a, b) && Less(b, c) ==> Less(a, c)
    ensures forall a, b :: Less(a, b) || a == b || Less(b, a)
    ensures forall a, b :: !(Less(a, b) && Less(b, a))
  {
    forall a ensures !Less(a, a) { Irreflexive(a); }
    forall a, b, c | Less(a, b) && Less(b, c) ensures Less(a, c) { Transitive(a, b, c); }
    forall a, b ensures Less(a, b) || a == b || Less(b, a) { Total(a, b); }
    forall a, b ensures !(Less(a, b) && Less(b, a)) {
      if Less(a, b) && Less(b, a) { Transitive(a, b, a); Irreflexive(a); }
    }
  }

  ghost predicate Descending(s: seq<string>) {
    forall i, j :: 0 <= i < j < |s| ==> Less(s[j], s[i])
  }

  ghost predicate Ascending(s: seq<string>) {
    forall i, j :: 0 <= i < j < |s| ==> Less(s[i], s[j])
  }

  ghost predicate IsMax(ids: set<string>, m: string) {
    m in ids && forall x :: x in ids ==> AtMost(x, m)
  }

  lemma {:induction false} MaxExists(ids: set<string>) returns (m: string)
    requires ids != {}
    ensures IsMax(ids, m)
  {
    var x :| x in ids;
    if ids == {x} {
      m := x;
    } else {
      var rest := ids - {x};
      var y := MaxExists(rest);
      StrictTotalOrder();
      m := if Less(x, y) then y else x;
      assert forall z :: z in ids ==> z == x || z in rest;
    }
  }

  ghost predicate Lists(s: seq<string>, ids: set<string>) {
    Descending(s) && |s| == |ids| && forall x :: x in s <==> x in ids
  }

  lemma {:induction false} ListExists(ids: set<string>) returns (s: seq<string>)
    ensures Lists(s, ids)
  {
    if ids == {} {
      s := [];
    } else {
      var m := MaxExists(ids);
      var rest := ListExists(ids - {m});
      s := [m] + rest;
      forall i, j | 0 <= i < j < |s| ensures Less(s[j], s[i]) {
        assert s[j] == rest[j - 1] && rest[j - 1] in rest;
      }
    }
  }

  /** The elements of a finite set of ids, newest (largest) first. */
  ghost function NewestFirst(ids: set<string>): (s: seq<string>)
    ensures Descending(s)
    ensures forall x :: x in s <==> x in ids
    ensures |s| == |ids|
  {
    assert exists list :: Lists(list, ids) by {
      var list := ListExists(ids);
    }
    var list :| Lists(list, ids);
    list
  }

  /** A descending sequence is determined by the set of its elements. */
  lemma {:induction false} DescendingIsUnique(s: seq<string>, t: seq<string>)
    requires Descending(s) && Descending(t)
    requires forall x :: x in s <==> x in t
    ensures s == t
  {
    StrictTotalOrder();
    assert t == [] || t[0] in t;
    if s != [] {
      assert s[0] in t;
      assert t != [];
      assert t[0] in s;
      assert s[0] == t[0];
      forall x ensures x in s[1..] <==> x in t[1..] {
        if x in s[1..] {
          var i :| 0 <= i < |s[1..]| && s[1..][i] == x;
          assert s[i + 1] == x && x in s && x != s[0];
          var j :| 0 <= j < |t| && t[j] == x;
          assert t[1..][j - 1] == x;
        }
        if x in t[1..] {
          var i :| 0 <= i < |t[1..]| && t[1..][i] == x;
          assert t[i + 1] == x && x in t && x != t[0];
          var j :| 0 <= j < |s| && s[j] == x;
          assert s[1..][j - 1] == x;
        }
      }
      DescendingIsUnique(s[1..], t[1..]);
      assert s == [s[0]] + s[1..];
      assert t == [t[0]] + t[1..];
    }
  }
}
