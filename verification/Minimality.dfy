/** Which squashed lists are as short as their coverage allows. Ranges with MinPort <= MaxPort always give a
    shortest list; an inverted range may be left over, and it is the input that says when. */
module Minimality {
  import opened Seqs
  import opened Sorting
  import opened Squash
  import opened Types

  /** No list of ranges that covers what `s` covers is shorter than `r`. */
  ghost predicate Shortest(r: seq<DynamicRange>, s: seq<DynamicRange>)
  {
    forall t :: SameCover(s, t) ==> |r| <= |t|
  }

  // ----- One result -----

  /** A result is a shortest list with the coverage of the input exactly when it holds no inverted range. */
  lemma ShortestIsWellFormed(s: seq<DynamicRange>, r: seq<DynamicRange>)
    requires SquashesTo(s, r)
    ensures Shortest(r, s) <==> WellFormed(r)
  {
    SquashKeepsCover(s, r);
    SquashSeparates(s, r);
    if WellFormed(r) {
      CanonicalIsShortest(s, r);
    } else {
      InvertedIsNotShortest(s, r);
    }
  }

  lemma CanonicalIsShortest(s: seq<DynamicRange>, r: seq<DynamicRange>)
    requires SameCover(s, r) && Canonical(r)
    ensures Shortest(r, s)
  {
    forall t | SameCover(s, t) ensures |r| <= |t| {
      SameCoverIsEquivalence(s, r, t);
      CanonicalIsMinimal(r, t);
    }
  }

  lemma InvertedIsNotShortest(s: seq<DynamicRange>, r: seq<DynamicRange>)
    requires SameCover(s, r) && !WellFormed(r)
    ensures !Shortest(r, s)
  {
    var x :| x in r && x.minPort > x.maxPort;
    var i :| 0 <= i < |r| && r[i] == x;
    var shorter := r[..i] + r[i + 1..];
    InvertedIsIdle(r, i);
    SameCoverIsEquivalence(s, r, r);
    SameCoverIsEquivalence(r, s, shorter);
    assert SameCover(s, shorter) && |shorter| < |r|;
  }

  /** An inverted range covers nothing and can be left out. */
  lemma InvertedIsIdle(r: seq<DynamicRange>, i: nat)
    requires i < |r| && r[i].minPort > r[i].maxPort
    ensures SameCover(r, r[..i] + r[i + 1..])
  {
    var rest := r[..i] + r[i + 1..];
    assert r == r[..i] + [r[i]] + r[i + 1..];
    forall d, p, port ensures Covers(r, d, p, port) <==> Covers(rest, d, p, port) {
      assert forall x :: x in rest ==> x in r;
      assert forall x :: x in r ==> x in rest || x == r[i];
    }
  }

  lemma CanonicalIsMinimal(r: seq<DynamicRange>, t: seq<DynamicRange>)
    requires Canonical(r) && SameCover(r, t)
    ensures |r| <= |t|
  {
    forall i | 0 <= i < |r| ensures exists k :: HoldsStart(t, k, r[i]) {
      assert r[i] in r && Holds(r[i], r[i].direction, r[i].protocol, r[i].minPort);
      assert Covers(r, r[i].direction, r[i].protocol, r[i].minPort);
      var x :| x in t && Holds(x, r[i].direction, r[i].protocol, r[i].minPort);
      var k :| 0 <= k < |t| && t[k] == x;
      assert HoldsStart(t, k, r[i]);
    }
    var f := seq(|r|, i requires 0 <= i < |r| => var k :| HoldsStart(t, k, r[i]); k);
    forall i, j | 0 <= i < j < |r| ensures f[i] != f[j] {
      assert HoldsStart(t, f[i], r[i]) && HoldsStart(t, f[j], r[j]);
      assert Before(r[i], r[j]);
      GapIsUncovered(r, i, r[i].maxPort + 1);
      assert Covers(r, r[i].direction, r[i].protocol, r[i].maxPort + 1)
        <==> Covers(t, r[i].direction, r[i].protocol, r[i].maxPort + 1);
      assert t[f[i]] in t;
    }
    DistinctIndices(f, |t|);
  }

  predicate HoldsStart(t: seq<DynamicRange>, k: int, o: DynamicRange)
  {
    0 <= k < |t| && Holds(t[k], o.direction, o.protocol, o.minPort)
  }

  // ----- The condition on the input -----

  /** An inverted range `x` goes into a range before it, or takes up one that starts where it starts:
      the port before it is covered, or it is `n` to `n - 1` and `n` is covered. */
  predicate IsAbsorbed(s: seq<DynamicRange>, x: DynamicRange)
  {
    || Covers(s, x.direction, x.protocol, x.minPort - 1)
    || (x.maxPort + 1 == x.minPort && Covers(s, x.direction, x.protocol, x.minPort))
  }

  predicate InvertedAreAbsorbed(s: seq<DynamicRange>)
  {
    forall x :: x in s && x.minPort > x.maxPort ==> IsAbsorbed(s, x)
  }

  /** Squash gives a shortest list, however ties are sorted, exactly when every inverted input is absorbed;
      in particular when there is none. */
  lemma SquashIsMinimal(s: seq<DynamicRange>)
    ensures (forall r :: SquashesTo(s, r) ==> Shortest(r, s)) <==> InvertedAreAbsorbed(s)
    ensures WellFormed(s) ==> InvertedAreAbsorbed(s)
  {
    if InvertedAreAbsorbed(s) {
      forall r | SquashesTo(s, r) ensures Shortest(r, s) {
        AbsorbedLeavesNoInverted(s, r);
        ShortestIsWellFormed(s, r);
      }
    } else {
      var x :| x in s && x.minPort > x.maxPort && !IsAbsorbed(s, x);
      var r := UnabsorbedIsLeft(s, x);
      ShortestIsWellFormed(s, r);
    }
  }

  /** With every inverted input absorbed, the whole result depends on the covered ports alone. */
  lemma AbsorbedIsCanonical(s: seq<DynamicRange>, t: seq<DynamicRange>, r: seq<DynamicRange>, q: seq<DynamicRange>)
    requires SquashesTo(s, r) && SquashesTo(t, q) && SameCover(s, t)
    requires InvertedAreAbsorbed(s) && InvertedAreAbsorbed(t)
    ensures Map(r, Bare) == Map(q, Bare)
  {
    AbsorbedLeavesNoInverted(s, r);
    AbsorbedLeavesNoInverted(t, q);
    UprightOfWellFormed(r);
    UprightOfWellFormed(q);
    SquashDependsOnCoverOnly(s, t, r, q);
  }

  /** An inverted range on its own comes out as it went in, though nothing at all has its coverage. */
  lemma LoneInvertedIsLeft(x: DynamicRange)
    requires x.minPort > x.maxPort
    ensures SquashesTo([x], [x]) && !Shortest([x], [x])
  {
    SweepOfOne([x]);
    assert IsSortOf(CompareRanges, [x], [x]);
    assert x in [x];
    ShortestIsWellFormed([x], [x]);
  }

  /** Two ranges that tie, one of them inverted: the sort decides whether one range comes out or two. */
  lemma TiesCanShow(x: DynamicRange, y: DynamicRange)
    requires SameFlow(x, y) && x.minPort == y.minPort && x.maxPort + 1 < x.minPort <= y.maxPort
    ensures SquashesTo([x, y], [x, y]) && SquashesTo([x, y], [Merged(y, x)])
  {
    assert [y, x] == [y] + [x] && [x, y] == [x] + [y];
    TwoTies([x, y], x, y);
    TwoTies([x, y], y, x);
  }

  lemma TwoTies(s: seq<DynamicRange>, x: DynamicRange, y: DynamicRange)
    requires SameFlow(x, y) && x.minPort == y.minPort && multiset([x, y]) == multiset(s)
    ensures SquashesTo(s, if CanMerge(x, y) then [Merged(x, y)] else [x, y])
  {
    var t := [x, y];
    SweepOfTwo(x, y);
    RangeOrder(x, y);
    assert IsSortOf(CompareRanges, t, s);
  }

  lemma SweepOfTwo(x: DynamicRange, y: DynamicRange)
    ensures Sweep([x, y]) == if CanMerge(x, y) then [Merged(x, y)] else [x, y]
  {
    SweepOfOne([x]);
    SweepNext([x, y], 1);
    assert [x, y][..1] == [x] && [x, y][..2] == [x, y];
  }

  // ----- Absorbed ranges are not left -----

  /** `x` starts the output `o`: same flow, same first port, and no longer. */
  predicate Starts(x: DynamicRange, o: DynamicRange)
  {
    SameFlow(x, o) && x.minPort == o.minPort && x.maxPort <= o.maxPort
  }

  lemma {:induction false} OutputsHaveStarts(s: seq<DynamicRange>, k: nat) returns (x: DynamicRange)
    requires k < |Sweep(s)|
    ensures x in s && Starts(x, Sweep(s)[k])
  {
    var front, next := s[..|s| - 1], s[|s| - 1];
    FoldStarts(Sweep(front), next, k);
    if k < |Sweep(front)| {
      x := OutputsHaveStarts(front, k);
    } else {
      x := next;
    }
  }

  lemma FoldStarts(m: seq<DynamicRange>, next: DynamicRange, k: nat)
    requires k < |Fold(m, next)|
    ensures if k < |m| then Starts(m[k], Fold(m, next)[k]) else Fold(m, next)[k] == next
  {}

  lemma AbsorbedLeavesNoInverted(s: seq<DynamicRange>, r: seq<DynamicRange>)
    requires SquashesTo(s, r) && InvertedAreAbsorbed(s)
    ensures WellFormed(r)
  {
    var t :| IsSortOf(CompareRanges, t, s) && r == Sweep(t);
    SameElements(t, s);
    SquashSeparates(s, r);
    SquashKeepsCover(s, r);
    forall o | o in r ensures o.minPort <= o.maxPort {
      var k :| 0 <= k < |r| && r[k] == o;
      var x := OutputsHaveStarts(t, k);
      NextToInverted(r, k);
      assert forall port :: Covers(s, x.direction, x.protocol, port) <==> Covers(r, x.direction, x.protocol, port);
    }
  }

  /** Beside an inverted range of a separated list nothing is covered. */
  lemma NextToInverted(r: seq<DynamicRange>, k: nat)
    requires Separated(r) && k < |r|
    ensures r[k].minPort > r[k].maxPort ==> !Covers(r, r[k].direction, r[k].protocol, r[k].minPort - 1)
    ensures r[k].minPort == r[k].maxPort + 1 ==> !Covers(r, r[k].direction, r[k].protocol, r[k].minPort)
  {
    var o := r[k];
    if o.minPort > o.maxPort {
      forall q | q in r ensures !Holds(q, o.direction, o.protocol, o.minPort - 1)
        && (o.minPort == o.maxPort + 1 ==> !Holds(q, o.direction, o.protocol, o.minPort))
      {
        var i :| 0 <= i < |r| && r[i] == q;
        RangeOrder(o, q);
        assert i == k || (i < k && Before(r[i], r[k])) || (k < i && Before(r[k], r[i]));
      }
    }
  }

  // ----- An unabsorbed range is left by some sort -----

  /** Some sort puts `x` first among the ranges it ties with. */
  lemma SortWithFirst(s: seq<DynamicRange>, x: DynamicRange) returns (t: seq<DynamicRange>, i: nat)
    requires x in s
    ensures IsSortOf(CompareRanges, t, s) && i < |t| && t[i] == x
    ensures forall k :: 0 <= k < i ==> CompareRanges(t[k], x) < 0
  {
    var j :| 0 <= j < |s| && s[j] == x;
    var others := s[..j] + s[j + 1..];
    assert s == s[..j] + [x] + s[j + 1..];
    CompareRangesIsComparator();
    var sorted := SomeSort(CompareRanges, others);
    t, i := InsertFirst(CompareRanges, x, sorted);
  }

  lemma UnabsorbedIsLeft(s: seq<DynamicRange>, x: DynamicRange) returns (r: seq<DynamicRange>)
    requires x in s && x.minPort > x.maxPort && !IsAbsorbed(s, x)
    ensures SquashesTo(s, r) && !WellFormed(r)
  {
    var t, i := SortWithFirst(s, x);
    r := Sweep(t);
    assert SquashesTo(s, r);
    SameElements(t, s);
    SquashKeepsCover(s, r);
    assert !Covers(r, x.direction, x.protocol, x.minPort - 1) by {
      assert Covers(s, x.direction, x.protocol, x.minPort - 1) <==> Covers(r, x.direction, x.protocol, x.minPort - 1);
    }
    if x.maxPort + 1 == x.minPort {
      SweepContains(t);
      assert Contained(x, r);
      var k :| 0 <= k < |r| && Within(x, r[k]);
      assert Covers(s, x.direction, x.protocol, x.minPort) <==> Covers(r, x.direction, x.protocol, x.minPort);
      NothingUprightAround(r, x, k);
    } else {
      FirstTieStays(t, i, |t|);
      assert t[..|t|] == t;
    }
  }

  /** A range around `n` to `n - 1` holds `n - 1` or `n`, or is inverted itself. */
  lemma NothingUprightAround(r: seq<DynamicRange>, x: DynamicRange, k: nat)
    requires k < |r| && Within(x, r[k]) && x.maxPort + 1 == x.minPort
    requires !Covers(r, x.direction, x.protocol, x.minPort - 1) && !Covers(r, x.direction, x.protocol, x.minPort)
    ensures !WellFormed(r)
  {
    assert r[k] in r;
    assert !Holds(r[k], x.direction, x.protocol, x.minPort - 1) && !Holds(r[k], x.direction, x.protocol, x.minPort);
  }

  /** An inverted range that comes first among its ties, with the port before it uncovered, is in the sweep
      from then on: nothing takes it up and it takes up nothing. */
  lemma {:induction false} FirstTieStays(t: seq<DynamicRange>, i: nat, n: nat)
    requires Sorted(CompareRanges, t) && i < n <= |t|
    requires t[i].maxPort + 1 < t[i].minPort && !Covers(t, t[i].direction, t[i].protocol, t[i].minPort - 1)
    requires forall k :: 0 <= k < i ==> CompareRanges(t[k], t[i]) < 0
    ensures t[i] in Sweep(t[..n])
  {
    var x, m := t[i], Sweep(t[..n - 1]);
    SweepNext(t, n - 1);
    if n - 1 == i {
      NotTakenUp(t, i);
      assert x in Fold(m, x);
    } else {
      FirstTieStays(t, i, n - 1);
      LaterCannotMerge(x, t[n - 1]);
      OthersStay(m, t[n - 1], x);
    }
  }

  lemma LaterCannotMerge(x: DynamicRange, next: DynamicRange)
    requires x.maxPort + 1 < x.minPort && CompareRanges(x, next) <= 0
    ensures !CanMerge(x, next)
  {
    RangeOrder(x, next);
  }

  lemma OthersStay(m: seq<DynamicRange>, next: DynamicRange, x: DynamicRange)
    requires x in m && !CanMerge(x, next)
    ensures x in Fold(m, next)
  {
    if m[|m| - 1] != x { assert m == m[..|m| - 1] + [m[|m| - 1]]; }
  }

  lemma NotTakenUp(t: seq<DynamicRange>, i: nat)
    requires Sorted(CompareRanges, t) && i < |t|
    requires !Covers(t, t[i].direction, t[i].protocol, t[i].minPort - 1)
    requires forall k :: 0 <= k < i ==> CompareRanges(t[k], t[i]) < 0
    ensures Fold(Sweep(t[..i]), t[i]) == Sweep(t[..i]) + [t[i]]
  {
    var x, m := t[i], Sweep(t[..i]);
    if m != [] {
      LastIsBefore(t, i);
      UncoveredByAPart(t, i, x.direction, x.protocol, x.minPort - 1);
      UncoveredStopsMerge(m[|m| - 1], x);
    }
  }

  lemma UncoveredByAPart(t: seq<DynamicRange>, i: nat, d: string, p: string, port: int)
    requires i <= |t| && !Covers(t, d, p, port)
    ensures forall o :: o in Sweep(t[..i]) ==> !Holds(o, d, p, port)
  {
    SweepKeepsCover(t[..i], d, p, port);
    assert forall y :: y in t[..i] ==> y in t;
  }

  lemma LastIsBefore(t: seq<DynamicRange>, i: nat)
    requires Sorted(CompareRanges, t) && i < |t| && Sweep(t[..i]) != []
    requires forall k :: 0 <= k < i ==> CompareRanges(t[k], t[i]) < 0
    ensures CompareRanges(Sweep(t[..i])[|Sweep(t[..i])| - 1], t[i]) < 0
  {
    var s := t[..i];
    assert s != [] by { SweepOfOne([]); }
    LastOfSweep(s);
    CompareRangesLaws(Sweep(s)[|Sweep(s)| - 1], t[i - 1], t[i]);
    CompareRangesLaws(t[i], Sweep(s)[|Sweep(s)| - 1], t[i - 1]);
    RangeOrder(Sweep(s)[|Sweep(s)| - 1], t[i]);
    RangeOrder(t[i - 1], t[i]);
  }

  lemma UncoveredStopsMerge(last: DynamicRange, x: DynamicRange)
    requires CompareRanges(last, x) < 0 && !Holds(last, x.direction, x.protocol, x.minPort - 1)
    ensures !CanMerge(last, x)
  {
    RangeOrder(last, x);
  }

  // ----- One range for a flow -----

  /** No uncovered port lies between two covered ports of the flow. */
  ghost predicate HasNoGap(s: seq<DynamicRange>, direction: string, protocol: string)
  {
    forall a, b, c :: a <= b <= c && Covers(s, direction, protocol, a) && Covers(s, direction, protocol, c) ==>
      Covers(s, direction, protocol, b)
  }

  ghost predicate AtMostOne(r: seq<DynamicRange>, direction: string, protocol: string)
  {
    forall i, j :: 0 <= i < j < |r| ==> !(IsOf(r[i], direction, protocol) && IsOf(r[j], direction, protocol))
  }

  predicate IsOf(x: DynamicRange, direction: string, protocol: string)
  {
    x.direction == direction && x.protocol == protocol
  }

  /** A flow comes out as a single range, if any, exactly when its covered ports have no gap. */
  lemma SingleRangeExactly(s: seq<DynamicRange>, r: seq<DynamicRange>, direction: string, protocol: string)
    requires SquashesTo(s, r) && WellFormed(s)
    ensures AtMostOne(r, direction, protocol) <==> HasNoGap(s, direction, protocol)
  {
    SquashSeparates(s, r);
    SquashKeepsCover(s, r);
    if AtMostOne(r, direction, protocol) {
      OneRangeHasNoGap(r, direction, protocol);
      forall a, b, c | a <= b <= c && Covers(s, direction, protocol, a) && Covers(s, direction, protocol, c)
        ensures Covers(s, direction, protocol, b)
      {
        assert Covers(r, direction, protocol, a) && Covers(r, direction, protocol, c);
        assert Covers(r, direction, protocol, b);
      }
    } else {
      var i, j :| 0 <= i < j < |r| && IsOf(r[i], direction, protocol) && IsOf(r[j], direction, protocol);
      assert Before(r[i], r[j]);
      GapIsUncovered(r, i, r[i].maxPort + 1);
      assert r[i] in r && r[j] in r;
      assert Holds(r[i], direction, protocol, r[i].maxPort) && Holds(r[j], direction, protocol, r[j].minPort);
      assert Covers(r, direction, protocol, r[i].maxPort) && Covers(r, direction, protocol, r[j].minPort);
      assert Covers(s, direction, protocol, r[i].maxPort) && Covers(s, direction, protocol, r[j].minPort);
      assert !Covers(s, direction, protocol, r[i].maxPort + 1);
    }
  }

  lemma OneRangeHasNoGap(r: seq<DynamicRange>, direction: string, protocol: string)
    requires AtMostOne(r, direction, protocol)
    ensures HasNoGap(r, direction, protocol)
  {
    forall a, b, c | a <= b <= c && Covers(r, direction, protocol, a) && Covers(r, direction, protocol, c)
      ensures Covers(r, direction, protocol, b)
    {
      var x :| x in r && Holds(x, direction, protocol, a);
      var y :| y in r && Holds(y, direction, protocol, c);
      var i :| 0 <= i < |r| && r[i] == x;
      var j :| 0 <= j < |r| && r[j] == y;
      assert IsOf(r[i], direction, protocol) && IsOf(r[j], direction, protocol);
      assert i == j;
      assert Holds(x, direction, protocol, b);
    }
  }
}
