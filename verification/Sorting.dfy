/** Sorting of pairwise comparable elements, as sort.Slice and sort.Strings are used here: every list they are given has
    no two equal keys, so there is only one right answer. */
module Sorting {
  ghost predicate Transitive<T(!new)>(less: (T, T) -> bool) {
    forall a, b, c :: less(a, b) && less(b, c) ==> less(a, c)
  }

  ghost predicate Asymmetric<T(!new)>(less: (T, T) -> bool) {
    forall a, b :: less(a, b) ==> !less(b, a)
  }

  ghost predicate Order<T(!new)>(less: (T, T) -> bool) {
    Transitive(less) && Asymmetric(less)
  }

  ghost predicate Ascending<T>(s: seq<T>, less: (T, T) -> bool) {
    forall i, j :: 0 <= i < j < |s| ==> less(s[i], s[j])
  }

  ghost predicate Comparable<T>(x: T, s: seq<T>, less: (T, T) -> bool) {
    forall i :: 0 <= i < |s| ==> less(x, s[i]) || less(s[i], x)
  }

  ghost predicate AllComparable<T>(s: seq<T>, less: (T, T) -> bool) {
    forall i, j :: 0 <= i < j < |s| ==> less(s[i], s[j]) || less(s[j], s[i])
  }

  lemma AscendingAt<T(!new)>(s: seq<T>, i: int, x: T, less: (T, T) -> bool)
    requires Order(less) && Ascending(s, less) && 0 <= i <= |s|
    requires i > 0 ==> less(s[i - 1], x)
    requires i < |s| ==> less(x, s[i])
    ensures Ascending(s[..i] + [x] + s[i..], less)
  {
  }

  lemma InsertedBag<T>(s: seq<T>, i: int, x: T)
    requires 0 <= i <= |s|
    ensures multiset(s[..i] + [x] + s[i..]) == multiset(s) + multiset{x}
  {
    assert s == s[..i] + s[i..];
    assert multiset(s) == multiset(s[..i]) + multiset(s[i..]);
  }

  method Insert<T(!new)>(x: T, s: seq<T>, less: (T, T) -> bool) returns (r: seq<T>)
    requires Order(less) && Ascending(s, less) && Comparable(x, s, less)
    ensures Ascending(r, less) && multiset(r) == multiset(s) + multiset{x}
  {
    var i := |s|;
    while i > 0 && less(x, s[i - 1])
      invariant 0 <= i <= |s|
      invariant i < |s| ==> less(x, s[i])
    {
      i := i - 1;
    }
    AscendingAt(s, i, x, less);
    r := s[..i] + [x] + s[i..];
    InsertedBag(s, i, x);
  }

  lemma ComparableMembers<T>(x: T, s: seq<T>, r: seq<T>, less: (T, T) -> bool)
    requires Comparable(x, s, less) && multiset(r) == multiset(s)
    ensures Comparable(x, r, less)
  {
    forall i | 0 <= i < |r|
      ensures less(x, r[i]) || less(r[i], x)
    {
      assert r[i] in multiset(r);
      assert r[i] in s;
    }
  }

  method Sort<T(!new)>(s: seq<T>, less: (T, T) -> bool) returns (r: seq<T>)
    requires Order(less) && AllComparable(s, less)
    ensures Ascending(r, less) && multiset(r) == multiset(s)
  {
    r := [];
    for k := 0 to |s|
      invariant Ascending(r, less) && multiset(r) == multiset(s[..k])
    {
      assert Comparable(s[k], s[..k], less);
      ComparableMembers(s[k], s[..k], r, less);
      assert s[..k + 1] == s[..k] + [s[k]];
      r := Insert(s[k], r, less);
    }
    assert s[..|s|] == s;
  }

  lemma Rest<T>(s: seq<T>)
    requires s != []
    ensures multiset(s[1..]) == multiset(s) - multiset{s[0]}
  {
    assert s == [s[0]] + s[1..];
  }

  /** Nothing in s is below its first element. */
  lemma NotBelowFirst<T(!new)>(s: seq<T>, x: T, less: (T, T) -> bool)
    requires Order(less) && Ascending(s, less) && x in s
    ensures x == s[0] || less(s[0], x)
  {
  }

  /** Two ascending arrangements of the same elements are one and the same. */
  lemma {:induction false} AscendingUnique<T(!new)>(a: seq<T>, b: seq<T>, less: (T, T) -> bool)
    requires Order(less) && Ascending(a, less) && Ascending(b, less) && multiset(a) == multiset(b)
    ensures a == b
  {
    assert |a| == |multiset(a)| && |b| == |multiset(b)|;
    if a != [] {
      assert a[0] in multiset(b) && b[0] in multiset(a);
      NotBelowFirst(a, b[0], less);
      NotBelowFirst(b, a[0], less);
      Rest(a);
      Rest(b);
      AscendingUnique(a[1..], b[1..], less);
      assert a == [a[0]] + a[1..] && b == [b[0]] + b[1..];
    }
  }

  /** Where the last element of front + [last] stands in a permutation t of it. */
  lemma FindLast<T>(front: seq<T>, last: T, t: seq<T>) returns (left: seq<T>, right: seq<T>)
    requires multiset(front + [last]) == multiset(t)
    ensures t == left + [last] + right
    ensures multiset(front) == multiset(left + right)
  {
    assert last in multiset(t);
    var i :| 0 <= i < |t| && t[i] == last;
    left, right := t[..i], t[i + 1..];
    assert t == left + [last] + right;
    assert multiset(left + right) == multiset(t) - multiset{last};
    assert multiset(front) == multiset(front + [last]) - multiset{last};
  }

  // ---------------------------------------------------------------- strings

  /** Go's < on strings. */
  predicate StringLess(a: string, b: string) {
    if b == "" then false
    else if a == "" then true
    else if a[0] != b[0] then a[0] < b[0]
    else StringLess(a[1..], b[1..])
  }

  /** The first difference decides; without one, a proper prefix is less. */
  ghost predicate DiffersAt(a: string, b: string, i: nat) {
    i < |a| && i < |b| && a[..i] == b[..i] && a[i] < b[i]
  }

  lemma {:induction false} StringLessExactly(a: string, b: string)
    ensures StringLess(a, b) <==> a < b || exists i: nat :: DiffersAt(a, b, i)
  {
    if a != "" && b != "" && a[0] == b[0] {
      var (s, t) := (a[1..], b[1..]);
      StringLessExactly(s, t);
      assert a == [a[0]] + s && b == [a[0]] + t;
      if i: nat :| DiffersAt(s, t, i) {
        assert a[..i + 1] == [a[0]] + s[..i] && b[..i + 1] == [a[0]] + t[..i];
        assert DiffersAt(a, b, i + 1);
      }
      if i: nat :| DiffersAt(a, b, i) {
        assert i > 0;
        assert a[..i][1..] == s[..i - 1] && b[..i][1..] == t[..i - 1];
        assert DiffersAt(s, t, i - 1);
      }
    } else if a != "" && b != "" && a[0] < b[0] {
      assert DiffersAt(a, b, 0);
    }
  }

  lemma {:induction false} StringOrder(a: string, b: string, c: string)
    ensures StringLess(a, b) && StringLess(b, c) ==> StringLess(a, c)
    ensures !(StringLess(a, b) && StringLess(b, a))
    ensures a == b || StringLess(a, b) || StringLess(b, a)
    decreases |a| + |b| + |c|
  {
    if a != "" && b != "" {
      assert a == [a[0]] + a[1..] && b == [b[0]] + b[1..];
      StringOrder(a[1..], b[1..], if c == "" then "" else c[1..]);
    }
  }
}
