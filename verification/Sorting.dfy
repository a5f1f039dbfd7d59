/** `slices.SortFunc`: some sorted permutation, in place. Its contract promises nothing about ties, so
    whatever is proved from it holds for every sorting algorithm. */
module Sorting {
  /** A comparator in the sense of `slices.SortFunc`: signed consistently and transitive. */
  ghost predicate IsComparator<T(!new)>(cmp: (T, T) -> int)
  {
    && (forall x, y :: Opposite(cmp, x, y))
    && (forall x, y, z :: Transitive(cmp, x, y, z))
  }

  ghost predicate Opposite<T>(cmp: (T, T) -> int, x: T, y: T)
  {
    cmp(x, y) < 0 <==> cmp(y, x) > 0
  }

  ghost predicate Transitive<T>(cmp: (T, T) -> int, x: T, y: T, z: T)
  {
    cmp(x, y) <= 0 && cmp(y, z) <= 0 ==> cmp(x, z) <= 0
  }

  ghost predicate Sorted<T>(cmp: (T, T) -> int, s: seq<T>)
  {
    forall i, j :: 0 <= i < j < |s| ==> cmp(s[i], s[j]) <= 0
  }

  ghost predicate StrictlySorted<T>(cmp: (T, T) -> int, s: seq<T>)
  {
    forall i, j :: 0 <= i < j < |s| ==> cmp(s[i], s[j]) < 0
  }

  ghost predicate IsSortOf<T>(cmp: (T, T) -> int, sorted: seq<T>, s: seq<T>)
  {
    Sorted(cmp, sorted) && multiset(sorted) == multiset(s)
  }

  /** Insertion sort, one algorithm that keeps the contract. */
  method SortFunc<T(!new)>(a: array<T>, cmp: (T, T) -> int)
    requires IsComparator(cmp)
    modifies a
    ensures IsSortOf(cmp, a[..], old(a[..]))
  {
    var i := 0;
    while i < a.Length
      invariant 0 <= i <= a.Length
      invariant forall k, l :: 0 <= k < l < i ==> cmp(a[k], a[l]) <= 0
      invariant multiset(a[..]) == multiset(old(a[..]))
    {
      InsertInto(a, i, cmp);
      i := i + 1;
    }
  }

  method InsertInto<T(!new)>(a: array<T>, i: nat, cmp: (T, T) -> int)
    requires IsComparator(cmp) && i < a.Length
    requires forall k, l :: 0 <= k < l < i ==> cmp(a[k], a[l]) <= 0
    modifies a
    ensures forall k, l :: 0 <= k < l <= i ==> cmp(a[k], a[l]) <= 0
    ensures multiset(a[..]) == multiset(old(a[..]))
  {
    var j := i;
    while j > 0 && cmp(a[j], a[j - 1]) < 0
      invariant 0 <= j <= i
      invariant forall k, l :: 0 <= k < l <= i && l != j ==> cmp(a[k], a[l]) <= 0
      invariant multiset(a[..]) == multiset(old(a[..]))
    {
      SwapDown(a, j);
      j := j - 1;
    }
    forall k | 0 <= k < j ensures cmp(a[k], a[j]) <= 0 {
      assert Opposite(cmp, a[j], a[j - 1]);
      assert Transitive(cmp, a[k], a[j - 1], a[j]);
    }
  }

  method SwapDown<T>(a: array<T>, j: nat)
    requires 0 < j < a.Length
    modifies a
    ensures a[j] == old(a[j - 1]) && a[j - 1] == old(a[j])
    ensures forall k :: 0 <= k < a.Length && k != j && k != j - 1 ==> a[k] == old(a[k])
    ensures multiset(a[..]) == multiset(old(a[..]))
  {
    ghost var s := a[..];
    a[j - 1], a[j] := a[j], a[j - 1];
    SwapKeepsMultiset(s, a[..], j);
  }

  lemma SwapKeepsMultiset<T>(s: seq<T>, t: seq<T>, j: nat)
    requires |s| == |t| && 0 < j < |s| && t[j - 1] == s[j] && t[j] == s[j - 1]
    requires forall k :: 0 <= k < |s| && k != j && k != j - 1 ==> t[k] == s[k]
    ensures multiset(t) == multiset(s)
  {
    var before, after := s[..j - 1], s[j + 1..];
    assert s == before + ([s[j - 1]] + [s[j]]) + after;
    assert t == before + ([s[j]] + [s[j - 1]]) + after;
  }

  /** Put `x` before the first element of a sorted sequence that is not below it. */
  lemma InsertFirst<T(!new)>(cmp: (T, T) -> int, x: T, s: seq<T>) returns (t: seq<T>, i: nat)
    requires IsComparator(cmp) && Sorted(cmp, s)
    ensures i <= |s| && |t| == |s| + 1 && t == s[..i] + [x] + s[i..]
    ensures Sorted(cmp, t) && multiset(t) == multiset(s) + multiset{x}
    ensures t[i] == x && forall k :: 0 <= k < i ==> cmp(t[k], x) < 0
  {
    i := 0;
    while i < |s| && cmp(s[i], x) < 0
      invariant i <= |s| && forall k :: 0 <= k < i ==> cmp(s[k], x) < 0
    {
      i := i + 1;
    }
    t := s[..i] + [x] + s[i..];
    assert s == s[..i] + s[i..];
    forall k | i <= k < |s| ensures cmp(x, s[k]) <= 0 {
      assert Opposite(cmp, s[i], x) && Opposite(cmp, x, s[i]) && Transitive(cmp, x, s[i], s[k]);
    }
    InsertKeepsOrder(cmp, x, s[..i], s[i..]);
  }

  lemma InsertKeepsOrder<T>(cmp: (T, T) -> int, x: T, a: seq<T>, b: seq<T>)
    requires Sorted(cmp, a + b)
    requires (forall k :: 0 <= k < |a| ==> cmp(a[k], x) <= 0) && (forall k :: 0 <= k < |b| ==> cmp(x, b[k]) <= 0)
    ensures Sorted(cmp, a + [x] + b)
  {
    var s, t := a + b, a + [x] + b;
    forall i, j | 0 <= i < j < |t| ensures cmp(t[i], t[j]) <= 0 {
      if i != |a| && j != |a| {
        assert t[i] == s[if i < |a| then i else i - 1] && t[j] == s[if j < |a| then j else j - 1];
      }
    }
  }

  lemma {:induction false} SomeSort<T(!new)>(cmp: (T, T) -> int, s: seq<T>) returns (t: seq<T>)
    requires IsComparator(cmp)
    ensures IsSortOf(cmp, t, s)
  {
    if s == [] {
      t := [];
    } else {
      var i;
      t := SomeSort(cmp, s[1..]);
      t, i := InsertFirst(cmp, s[0], t);
      assert s == [s[0]] + s[1..];
    }
  }

  /** Strictly sorted sequences with the same elements are the same sequence. */
  lemma {:induction false} StrictSortIsUnique<T(!new)>(cmp: (T, T) -> int, a: seq<T>, b: seq<T>)
    requires IsComparator(cmp) && StrictlySorted(cmp, a) && StrictlySorted(cmp, b)
    requires forall x :: x in a <==> x in b
    ensures a == b
  {
    NeitherIsLonger(a, b);
    NeitherIsLonger(b, a);
    if a != [] && b != [] {
      LeastIsFirst(cmp, a, b);
      LeastIsFirst(cmp, b, a);
      assert Opposite(cmp, a[0], b[0]);
      TailsAgree(cmp, a, b);
      StrictSortIsUnique(cmp, a[1..], b[1..]);
      HeadAndTail(a, b);
    }
  }

  lemma HeadAndTail<T>(a: seq<T>, b: seq<T>)
    requires a != [] && b != [] && a[0] == b[0] && a[1..] == b[1..]
    ensures a == b
  {
    assert a == [a[0]] + a[1..] && b == [b[0]] + b[1..];
  }

  lemma NeitherIsLonger<T(!new)>(a: seq<T>, b: seq<T>)
    requires forall x :: x in a ==> x in b
    ensures a != [] ==> b != [] && a[0] in b
  {
    assert a != [] ==> a[0] in a;
  }

  lemma TailsAgree<T(!new)>(cmp: (T, T) -> int, a: seq<T>, b: seq<T>)
    requires IsComparator(cmp) && StrictlySorted(cmp, a) && StrictlySorted(cmp, b)
    requires forall x :: x in a <==> x in b
    requires a != [] && b != [] && a[0] == b[0]
    ensures forall x :: x in a[1..] <==> x in b[1..]
    ensures StrictlySorted(cmp, a[1..]) && StrictlySorted(cmp, b[1..])
  {
    StrictHead(cmp, a);
    StrictHead(cmp, b);
  }

  lemma LeastIsFirst<T>(cmp: (T, T) -> int, a: seq<T>, b: seq<T>)
    requires a != [] && b != [] && StrictlySorted(cmp, a) && b[0] in a
    ensures a[0] == b[0] || cmp(a[0], b[0]) < 0
  {}

  lemma StrictHead<T(!new)>(cmp: (T, T) -> int, a: seq<T>)
    requires a != [] && IsComparator(cmp) && StrictlySorted(cmp, a)
    ensures forall x :: x in a[1..] <==> x in a && x != a[0]
  {
    assert Opposite(cmp, a[0], a[0]);
    assert a == [a[0]] + a[1..];
    assert forall i :: 0 < i < |a| ==> a[i] != a[0];
  }

  /** A sorted permutation of a strictly sorted sequence is that sequence: no sort can reorder it. */
  lemma SortOfStrict<T(!new)>(cmp: (T, T) -> int, sorted: seq<T>, s: seq<T>)
    requires IsComparator(cmp) && StrictlySorted(cmp, s) && IsSortOf(cmp, sorted, s)
    ensures sorted == s
  {
    SameElements(sorted, s);
    forall i, j | 0 <= i < j < |s| ensures s[i] != s[j] {
      assert Opposite(cmp, s[i], s[j]);
    }
    DistinctStaysDistinct(sorted, s);
    forall i, j | 0 <= i < j < |sorted| ensures cmp(sorted[i], sorted[j]) < 0 {
      var x, y := sorted[i], sorted[j];
      assert Opposite(cmp, y, x);
      assert x in s && y in s;
      var k :| 0 <= k < |s| && s[k] == x;
      var l :| 0 <= l < |s| && s[l] == y;
      assert k != l;
    }
    StrictSortIsUnique(cmp, sorted, s);
  }

  lemma SameElements<T>(a: seq<T>, b: seq<T>)
    requires multiset(a) == multiset(b)
    ensures |a| == |b|
    ensures forall x :: x in a <==> x in b
  {
    assert |multiset(a)| == |a| && |multiset(b)| == |b|;
    forall x ensures x in a <==> x in b {
      assert x in a <==> x in multiset(a);
      assert x in b <==> x in multiset(b);
    }
  }

  ghost predicate Distinct<T>(s: seq<T>)
  {
    forall i, j :: 0 <= i < j < |s| ==> s[i] != s[j]
  }

  lemma {:induction false} DistinctCounts<T>(s: seq<T>)
    ensures Distinct(s) <==> forall x :: multiset(s)[x] <= 1
  {
    if s != [] {
      var t := s[..|s| - 1];
      var y := s[|s| - 1];
      DistinctCounts(t);
      assert s == t + [y];
      assert y in t <==> multiset(t)[y] >= 1;
      if Distinct(s) {
        assert Distinct(t) && y !in t;
      } else if Distinct(t) {
        assert y in t;
        assert multiset(s)[y] >= 2;
      } else {
        var x :| multiset(t)[x] > 1;
        assert multiset(s)[x] > 1;
      }
    }
  }

  lemma DistinctStaysDistinct<T>(a: seq<T>, b: seq<T>)
    requires multiset(a) == multiset(b) && Distinct(b)
    ensures Distinct(a)
  {
    DistinctCounts(a);
    DistinctCounts(b);
  }
}
