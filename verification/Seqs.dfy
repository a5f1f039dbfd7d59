/** Sequence helpers: filtering, mapping, and orders in which a set can be walked. */
module Seqs {
  import opened Text

  /** The elements that `keep` accepts, in their order. */
  function Filter<T>(s: seq<T>, keep: T -> bool): seq<T>
  {
    if s == [] then []
    else Filter(s[..|s| - 1], keep) + (if keep(s[|s| - 1]) then [s[|s| - 1]] else [])
  }

  lemma FilterNext<T>(s: seq<T>, i: nat, keep: T -> bool)
    requires i < |s|
    ensures Filter(s[..i + 1], keep) == Filter(s[..i], keep) + if keep(s[i]) then [s[i]] else []
  {
    assert s[..i + 1][..i] == s[..i];
  }

  lemma {:induction false} FilterHas<T>(s: seq<T>, keep: T -> bool)
    ensures forall x :: x in Filter(s, keep) <==> x in s && keep(x)
  {
    if s != [] {
      FilterHas(s[..|s| - 1], keep);
      assert s == s[..|s| - 1] + [s[|s| - 1]];
    }
  }

  /** Two predicates that agree on a sequence filter it alike. */
  lemma {:induction false} FilterAgrees<T>(s: seq<T>, f: T -> bool, g: T -> bool)
    requires forall x :: x in s ==> f(x) == g(x)
    ensures Filter(s, f) == Filter(s, g)
  {
    if s != [] { FilterAgrees(s[..|s| - 1], f, g); }
  }

  /** The first element that `p` accepts. */
  function First<T>(s: seq<T>, p: T -> bool): Option<T>
  {
    if s == [] then None
    else
      var first := First(s[..|s| - 1], p);
      if first.Some? || !p(s[|s| - 1]) then first else Some(s[|s| - 1])
  }

  lemma {:induction false} FirstFinds<T>(s: seq<T>, p: T -> bool)
    ensures First(s, p).Some? <==> exists x :: x in s && p(x)
    ensures First(s, p).Some? ==> First(s, p).value in s && p(First(s, p).value)
  {
    if s != [] {
      FirstFinds(s[..|s| - 1], p);
      assert s == s[..|s| - 1] + [s[|s| - 1]];
    }
  }

  lemma FirstNext<T>(s: seq<T>, x: T, p: T -> bool)
    ensures First(s + [x], p) == if First(s, p).Some? || !p(x) then First(s, p) else Some(x)
  {
    assert (s + [x])[..|s|] == s;
  }

  lemma {:induction false} FirstAppend<T>(s: seq<T>, t: seq<T>, p: T -> bool)
    ensures First(s + t, p) == if First(s, p).Some? then First(s, p) else First(t, p)
  {
    if t == [] {
      assert s + t == s;
    } else {
      var front, last := t[..|t| - 1], t[|t| - 1];
      FirstAppend(s, front, p);
      FirstNext(s + front, last, p);
      FirstNext(front, last, p);
      assert t == front + [last];
      assert s + t == s + front + [last];
    }
  }

  /** Filters that exactly one of three predicates passes share the elements out among them. */
  lemma {:induction false} FilterPartition<T>(s: seq<T>, f: T -> bool, g: T -> bool, h: T -> bool)
    requires forall x :: x in s ==> f(x) == (!g(x) && !h(x)) && !(g(x) && h(x))
    ensures multiset(Filter(s, f)) + multiset(Filter(s, g)) + multiset(Filter(s, h)) == multiset(s)
  {
    if s != [] {
      var front, x := s[..|s| - 1], s[|s| - 1];
      FilterPartition(front, f, g, h);
      assert s == front + [x];
      assert x in s;
      FilterNext(s, |front|, f);
      FilterNext(s, |front|, g);
      FilterNext(s, |front|, h);
      assert s[..|front| + 1] == s;
      PartitionNext(Filter(front, f), Filter(front, g), Filter(front, h), front, x, f(x), g(x));
    }
  }

  lemma PartitionNext<T>(a: seq<T>, b: seq<T>, c: seq<T>, s: seq<T>, x: T, inA: bool, inB: bool)
    requires multiset(a) + multiset(b) + multiset(c) == multiset(s) && !(inA && inB)
    ensures multiset(a + if inA then [x] else []) + multiset(b + if inB then [x] else [])
          + multiset(c + if !inA && !inB then [x] else []) == multiset(s + [x])
  {
    assert a + [] == a && b + [] == b && c + [] == c;
  }

  function Map<T, U>(s: seq<T>, f: T -> U): (r: seq<U>)
    ensures |r| == |s| && forall i :: 0 <= i < |s| ==> r[i] == f(s[i])
  {
    seq(|s|, i requires 0 <= i < |s| => f(s[i]))
  }

  lemma MapHas<T, U>(s: seq<T>, f: T -> U, y: U)
    ensures y in Map(s, f) <==> exists x :: x in s && y == f(x)
  {
    if y in Map(s, f) {
      var i :| 0 <= i < |s| && Map(s, f)[i] == y;
      assert s[i] in s;
    }
    if x :| x in s && y == f(x) {
      var i :| 0 <= i < |s| && s[i] == x;
      assert Map(s, f)[i] == y;
    }
  }

  lemma MapNext<T, U>(front: seq<T>, x: T, f: T -> U)
    ensures Map(front + [x], f) == Map(front, f) + [f(x)]
  {}

  lemma AppendMapNext<T, U>(s: seq<U>, front: seq<T>, x: T, f: T -> U)
    ensures s + Map(front + [x], f) == s + Map(front, f) + [f(x)]
  {}

  /** The results of `f`, one after another. */
  function FlatMap<T, U>(s: seq<T>, f: T -> seq<U>): seq<U>
  {
    if s == [] then [] else FlatMap(s[..|s| - 1], f) + f(s[|s| - 1])
  }

  lemma {:induction false} FlatMapHas<T, U>(s: seq<T>, f: T -> seq<U>, y: U)
    ensures y in FlatMap(s, f) <==> exists x :: x in s && y in f(x)
  {
    if s != [] {
      FlatMapHas(s[..|s| - 1], f, y);
      assert s == s[..|s| - 1] + [s[|s| - 1]];
    }
  }

  /** `order` visits every element of `keys` once: one of the orders a Go map or set may be walked in. */
  ghost predicate Visits<T(!new)>(order: seq<T>, keys: set<T>)
  {
    && (forall i, j :: 0 <= i < j < |order| ==> order[i] != order[j])
    && (forall x :: x in order <==> x in keys)
  }

  /** There is one, as long as the set is large. */
  lemma SomeOrder<T(!new)>(keys: set<T>) returns (order: seq<T>)
    ensures Visits(order, keys) && |order| == |keys|
  {
    order := [];
    var rest := keys;
    while rest != {}
      invariant rest <= keys && Visits(order, keys - rest) && |order| == |keys| - |rest|
    {
      var x :| x in rest;
      order := order + [x];
      rest := rest - {x};
    }
  }

  ghost function Below(n: nat): (r: set<int>)
    ensures |r| == n && forall i :: i in r <==> 0 <= i < n
  {
    if n == 0 then {} else Below(n - 1) + {n - 1}
  }

  /** Distinct indices into a sequence are no more than its length. */
  lemma DistinctIndices(f: seq<int>, n: nat)
    requires forall i :: 0 <= i < |f| ==> 0 <= f[i] < n
    requires forall i, j :: 0 <= i < j < |f| ==> f[i] != f[j]
    ensures |f| <= n
  {
    var values := set i | 0 <= i < |f| :: f[i];
    CountDistinct(f, values);
    CountSubset(values, Below(n));
  }

  lemma {:induction false} CountDistinct(f: seq<int>, values: set<int>)
    requires forall i, j :: 0 <= i < j < |f| ==> f[i] != f[j]
    requires values == set i | 0 <= i < |f| :: f[i]
    ensures |values| == |f|
  {
    if f != [] {
      var front := f[..|f| - 1];
      var last := f[|f| - 1];
      var rest := set i | 0 <= i < |front| :: front[i];
      CountDistinct(front, rest);
      assert values == rest + {last};
    }
  }

  lemma CountSubset(a: set<int>, b: set<int>)
    requires a <= b
    ensures |a| <= |b|
  {
    assert b == a + (b - a);
  }
}
