/** Stable orders of array positions: a sequence of positions is determined by its
    elements once they are strictly increasing under an asymmetric relation. */
module StableOrder {

  ghost predicate Asymmetric(before: (int, int) -> bool) {
    forall x, y :: before(x, y) ==> !before(y, x)
  }

  ghost predicate Sorted(before: (int, int) -> bool, s: seq<int>) {
    forall i, j :: 0 <= i < j < |s| ==> before(s[i], s[j])
  }

  ghost predicate SameElements(a: seq<int>, b: seq<int>) {
    forall x :: x in a <==> x in b
  }

  lemma SortedHead(before: (int, int) -> bool, a: seq<int>, b: seq<int>)
    requires Asymmetric(before) && Sorted(before, a) && Sorted(before, b) && SameElements(a, b)
    requires a != [] && b != []
    ensures a[0] == b[0]
    ensures a[0] !in a[1..]
  {
    var x, y := a[0], b[0];
    assert x in a && y in b;
    assert x in b && y in a;
    var i :| 0 <= i < |b| && b[i] == a[0];
    var j :| 0 <= j < |a| && a[j] == b[0];
  }

  lemma NonemptyTogether(a: seq<int>, b: seq<int>)
    requires SameElements(a, b) && a != []
    ensures b != []
  {
    var x := a[0];
    assert x in a;
  }

  /** Two sorted sequences over the same positions are the same sequence. */
  lemma {:induction false} SortedUnique(before: (int, int) -> bool, a: seq<int>, b: seq<int>)
    requires Asymmetric(before) && Sorted(before, a) && Sorted(before, b) && SameElements(a, b)
    ensures a == b
    decreases |a|
  {
    if a == [] {
      if b != [] { NonemptyTogether(b, a); }
    } else {
      NonemptyTogether(a, b);
      SortedHead(before, a, b);
      SortedHead(before, b, a);
      forall x ensures x in a[1..] <==> x in b[1..] {
        assert x in a <==> x == a[0] || x in a[1..];
        assert x in b <==> x == b[0] || x in b[1..];
      }
      SortedUnique(before, a[1..], b[1..]);
      assert a == [a[0]] + a[1..] && b == [b[0]] + b[1..];
    }
  }

  /** The subsequence of the positions that satisfy a test. */
  ghost function Restrict(s: seq<int>, keep: int -> bool): seq<int> {
    if s == [] then []
    else (if keep(s[0]) then [s[0]] else []) + Restrict(s[1..], keep)
  }

  lemma {:induction false} RestrictElements(s: seq<int>, keep: int -> bool, x: int)
    ensures x in Restrict(s, keep) <==> x in s && keep(x)
    decreases |s|
  {
    if s != [] {
      RestrictElements(s[1..], keep, x);
      assert s == [s[0]] + s[1..];
    }
  }

  lemma {:induction false} RestrictSorted(before: (int, int) -> bool, s: seq<int>, keep: int -> bool)
    requires Sorted(before, s)
    ensures Sorted(before, Restrict(s, keep))
    decreases |s|
  {
    if s != [] {
      assert Sorted(before, s[1..]);
      RestrictSorted(before, s[1..], keep);
      var r := Restrict(s[1..], keep);
      forall x | x in r ensures before(s[0], x) {
        RestrictElements(s[1..], keep, x);
      }
    }
  }

  /** Dropping an element into the hole of a sorted sequence keeps it sorted. */
  lemma InsertSorted(before: (int, int) -> bool, s: seq<int>, j: int, x: int)
    requires Sorted(before, s) && 0 <= j <= |s|
    requires forall k :: 0 <= k < j ==> before(s[k], x)
    requires forall k :: j <= k < |s| ==> before(x, s[k])
    ensures Sorted(before, s[..j] + [x] + s[j..])
  {
  }

  lemma SameMultisetSameElements(a: seq<int>, b: seq<int>)
    requires multiset(a) == multiset(b)
    ensures SameElements(a, b)
  {
    forall x ensures x in a <==> x in b {
      assert x in multiset(a) <==> x in multiset(b);
    }
  }
}
